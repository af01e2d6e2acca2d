/**
 The glob matcher of lib/easyloggingpp/easylogging++.cc: a loop over two cursors
 that recurses for '*'.
 */
module WildCard {

  /** The part of the string that one pattern character accounts for. */
  predicate Fits(block: string, c: char) {
    match c
    case '*' => true
    case '?' => |block| == 1
    case _ => block == [c]
  }

  /** The blocks, one for each pattern character, joined. */
  function Joined(blocks: seq<string>): string {
    if blocks == [] then "" else blocks[0] + Joined(blocks[1..])
  }

  ghost predicate Splits(str: string, pattern: string, blocks: seq<string>) {
    && |blocks| == |pattern|
    && (forall k :: 0 <= k < |blocks| ==> Fits(blocks[k], pattern[k]))
    && Joined(blocks) == str
  }

  /** str splits into blocks that fit the pattern character by character. */
  ghost predicate Matches(str: string, pattern: string) {
    exists blocks :: Splits(str, pattern, blocks)
  }

  lemma MatchesEmpty(str: string)
    ensures Matches(str, "") <==> str == ""
  {
    if str == "" {
      assert Splits("", "", []);
    }
  }

  /** The first character of the pattern takes a first block. */
  lemma MatchesFirst(str: string, pattern: string)
    requires pattern != ""
    ensures Matches(str, pattern) <==>
            exists n :: 0 <= n <= |str| && Fits(str[..n], pattern[0]) && Matches(str[n..], pattern[1..])
  {
    if Matches(str, pattern) {
      var blocks :| Splits(str, pattern, blocks);
      var n := |blocks[0]|;
      assert str[..n] == blocks[0] && str[n..] == Joined(blocks[1..]);
      assert Splits(str[n..], pattern[1..], blocks[1..]);
    }
    if n :| 0 <= n <= |str| && Fits(str[..n], pattern[0]) && Matches(str[n..], pattern[1..]) {
      var rest :| Splits(str[n..], pattern[1..], rest);
      assert ([str[..n]] + rest)[1..] == rest;
      assert str == str[..n] + str[n..];
      assert Splits(str, pattern, [str[..n]] + rest);
    }
  }

  /** '*' takes nothing, or one more character. */
  lemma StarTakes(str: string, pattern: string)
    requires pattern != "" && pattern[0] == '*'
    ensures Matches(str, pattern) <==> Matches(str, pattern[1..]) || (str != "" && Matches(str[1..], pattern))
  {
    hide Matches;
    MatchesFirst(str, pattern);
    assert str[0..] == str;
    if str != "" {
      MatchesFirst(str[1..], pattern);
    }
    if n :| 0 <= n <= |str| && Fits(str[..n], pattern[0]) && Matches(str[n..], pattern[1..]) {
      if n > 0 {
        assert str[1..][n - 1..] == str[n..];
        assert Fits(str[1..][..n - 1], pattern[0]);
      }
    }
    if str != "" && Matches(str[1..], pattern) {
      var n :| 0 <= n <= |str[1..]| && Fits(str[1..][..n], pattern[0]) && Matches(str[1..][n..], pattern[1..]);
      assert str[1..][n..] == str[n + 1..];
      assert Fits(str[..n + 1], pattern[0]);
    }
  }

  /** Any other character takes one that it fits. */
  lemma OneTakes(str: string, pattern: string)
    requires pattern != "" && pattern[0] != '*'
    ensures Matches(str, pattern) <==>
            str != "" && (pattern[0] == '?' || str[0] == pattern[0]) && Matches(str[1..], pattern[1..])
  {
    hide Matches;
    MatchesFirst(str, pattern);
    if str != "" && (pattern[0] == '?' || str[0] == pattern[0]) && Matches(str[1..], pattern[1..]) {
      assert Fits(str[..1], pattern[0]);
    }
    assert forall n :: 0 <= n <= |str| && Fits(str[..n], pattern[0]) ==> n == 1;
  }

  /** A C string is its characters and a terminating zero. */
  predicate CString(s: string) {
    '\0' !in s
  }

  /** *p at the position. */
  function At(s: string, p: nat): char {
    if p < |s| then s[p] else '\0'
  }

  /** The matcher, with the strings given as positions in them. */
  method WildCardMatch(str: string, i0: nat, pattern: string, j0: nat) returns (r: bool)
    requires CString(str) && CString(pattern)
    requires i0 <= |str| && j0 <= |pattern|
    ensures r <==> Matches(str[i0..], pattern[j0..])
    decreases |pattern| - j0, |str| - i0
  {
    hide Matches;
    var i, j := i0, j0;
    while At(pattern, j) != '\0'
      invariant i0 <= i <= |str| && j0 <= j <= |pattern|
      invariant Matches(str[i0..], pattern[j0..]) <==> Matches(str[i..], pattern[j..])
      decreases |pattern| - j
    {
      ghost var s, p := str[i..], pattern[j..];
      assert p[1..] == pattern[j + 1..];
      assert i < |str| ==> s[1..] == str[i + 1..];
      if pattern[j] == '?' {
        OneTakes(s, p);
        if At(str, i) == '\0' {
          return false;
        }
        i := i + 1;
        j := j + 1;
      } else if pattern[j] == '*' {
        StarTakes(s, p);
        var taken := WildCardMatch(str, i, pattern, j + 1);
        if taken {
          return true;
        }
        if At(str, i) != '\0' {
          taken := WildCardMatch(str, i + 1, pattern, j);
          if taken {
            return true;
          }
        }
        return false;
      } else {
        OneTakes(s, p);
        if At(str, i) != At(pattern, j) {
          return false;
        }
        i := i + 1;
        j := j + 1;
      }
    }
    assert pattern[j..] == "";
    MatchesEmpty(str[i..]);
    assert str[i..] == "" <==> i == |str|;
    r := At(str, i) == '\0' && At(pattern, j) == '\0';
  }
}
