/**
 Finite sets of naturals as strictly increasing sequences, and their residue
 signatures: the values that src/util/bounded_set.h keeps in its buffers.
 */
module SortedSets {
  import opened Bits
  import opened Collections

  predicate Increasing(s: seq<nat>) {
    forall i, j :: 0 <= i < j < |s| ==> s[i] < s[j]
  }

  lemma ElementCount(s: seq<nat>)
    requires Increasing(s)
    ensures |Members(s)| == |s|
  {
    DistinctCount(s);
  }

  /** A set has one increasing sequence. */
  lemma {:induction false} SameElements(a: seq<nat>, b: seq<nat>)
    requires Increasing(a) && Increasing(b) && Members(a) == Members(b)
    ensures a == b
  {
    ElementCount(a);
    ElementCount(b);
    if a != [] {
      var n := |a| - 1;
      assert a[n] in Members(b) && b[n] in Members(a);
      assert a[n] == b[n];
      assert a == a[..n] + [a[n]] && b == b[..n] + [b[n]];
      assert Members(a[..n]) == Members(a) - {a[n]};
      assert Members(b[..n]) == Members(b) - {b[n]};
      SameElements(a[..n], b[..n]);
    }
  }

  // ---------------------------------------------------------------------------
  // Union
  // ---------------------------------------------------------------------------

  /** The merge of two increasing sequences. */
  function Union(a: seq<nat>, b: seq<nat>): seq<nat> {
    if a == [] then b
    else if b == [] then a
    else if a[0] == b[0] then [a[0]] + Union(a[1..], b[1..])
    else if a[0] < b[0] then [a[0]] + Union(a[1..], b)
    else [b[0]] + Union(a, b[1..])
  }

  lemma {:induction false} UnionElements(a: seq<nat>, b: seq<nat>)
    ensures Members(Union(a, b)) == Members(a) + Members(b)
  {
    if a != [] && b != [] {
      hide Members;
      assert a == [a[0]] + a[1..] && b == [b[0]] + b[1..];
      ElementsCons(a[0], a[1..]);
      ElementsCons(b[0], b[1..]);
      if a[0] == b[0] {
        UnionElements(a[1..], b[1..]);
        ElementsCons(a[0], Union(a[1..], b[1..]));
      } else if a[0] < b[0] {
        UnionElements(a[1..], b);
        ElementsCons(a[0], Union(a[1..], b));
      } else {
        UnionElements(a, b[1..]);
        ElementsCons(b[0], Union(a, b[1..]));
      }
    }
  }

  lemma ElementsCons(x: nat, s: seq<nat>)
    ensures Members([x] + s) == {x} + Members(s)
  {
  }

  ghost predicate Above(x: nat, r: set<nat>) {
    forall y :: y in r ==> x < y
  }

  lemma Rest(a: seq<nat>)
    requires Increasing(a) && a != []
    ensures Increasing(a[1..]) && Above(a[0], Members(a[1..]))
    ensures Members(a) == {a[0]} + Members(a[1..])
  {
    assert a == [a[0]] + a[1..];
    forall y | y in Members(a[1..]) ensures a[0] < y {
      var k :| 0 <= k < |a[1..]| && a[1..][k] == y;
      assert a[k + 1] == y;
    }
  }

  lemma {:induction false} UnionIncreasing(a: seq<nat>, b: seq<nat>)
    requires Increasing(a) && Increasing(b)
    ensures Increasing(Union(a, b))
  {
    if a != [] && b != [] {
      hide Increasing, Members;
      Rest(a);
      Rest(b);
      if a[0] == b[0] {
        UnionIncreasing(a[1..], b[1..]);
        UnionElements(a[1..], b[1..]);
        PutFirst(a[0], Union(a[1..], b[1..]));
      } else if a[0] < b[0] {
        UnionIncreasing(a[1..], b);
        UnionElements(a[1..], b);
        PutFirst(a[0], Union(a[1..], b));
      } else {
        UnionIncreasing(a, b[1..]);
        UnionElements(a, b[1..]);
        PutFirst(b[0], Union(a, b[1..]));
      }
    }
  }

  lemma PutFirst(x: nat, s: seq<nat>)
    requires Increasing(s) && Above(x, Members(s))
    ensures Increasing([x] + s)
  {
    var t := [x] + s;
    forall i, j | 0 <= i < j < |t| ensures t[i] < t[j] {
      assert t[j] == s[j - 1] && s[j - 1] in Members(s);
    }
  }

  /** The merged sequence is the union, without repeats. */
  lemma UnionCount(a: seq<nat>, b: seq<nat>)
    requires Increasing(a) && Increasing(b)
    ensures |Union(a, b)| == |Members(a) + Members(b)|
  {
    UnionElements(a, b);
    UnionIncreasing(a, b);
    ElementCount(Union(a, b));
  }

  /** Disjoint sequences merge to their common length. */
  lemma DisjointCount(a: seq<nat>, b: seq<nat>)
    requires Increasing(a) && Increasing(b) && Members(a) !! Members(b)
    ensures |Union(a, b)| == |a| + |b|
  {
    UnionCount(a, b);
    ElementCount(a);
    ElementCount(b);
  }

  lemma {:induction false} UnionBounds(a: seq<nat>, b: seq<nat>)
    ensures |a| <= |Union(a, b)| <= |a| + |b| && |b| <= |Union(a, b)|
  {
    if a != [] && b != [] {
      if a[0] == b[0] {
        UnionBounds(a[1..], b[1..]);
      } else if a[0] < b[0] {
        UnionBounds(a[1..], b);
      } else {
        UnionBounds(a, b[1..]);
      }
    }
  }

  /** What is left to merge at the cursors i and j. */
  function Remaining(s: seq<nat>, t: seq<nat>, i: nat, j: nat): seq<nat>
    requires i <= |s| && j <= |t|
  {
    Union(s[i..], t[j..])
  }

  lemma RemainingAll(s: seq<nat>, t: seq<nat>)
    ensures Remaining(s, t, 0, 0) == Union(s, t)
  {
    assert s[0..] == s && t[0..] == t;
  }

  lemma RemainingStep(s: seq<nat>, t: seq<nat>, i: nat, j: nat)
    requires i < |s| && j < |t|
    ensures Remaining(s, t, i, j) ==
            if s[i] == t[j] then [s[i]] + Remaining(s, t, i + 1, j + 1)
            else if s[i] < t[j] then [s[i]] + Remaining(s, t, i + 1, j)
            else [t[j]] + Remaining(s, t, i, j + 1)
  {
    assert s[i..][1..] == s[i + 1..] && t[j..][1..] == t[j + 1..];
  }

  lemma RemainingOne(s: seq<nat>, t: seq<nat>, i: nat, j: nat)
    requires i <= |s| && j <= |t| && (i == |s| || j == |t|)
    ensures |Remaining(s, t, i, j)| == |s| - i + (|t| - j)
  {
  }

  lemma RemainingLeft(s: seq<nat>, t: seq<nat>, i: nat)
    requires i < |s|
    ensures Remaining(s, t, i, |t|) == [s[i]] + Remaining(s, t, i + 1, |t|)
  {
    assert s[i..] == [s[i]] + s[i + 1..];
  }

  lemma RemainingRight(s: seq<nat>, t: seq<nat>, j: nat)
    requires j < |t|
    ensures Remaining(s, t, |s|, j) == [t[j]] + Remaining(s, t, |s|, j + 1)
  {
    assert t[j..] == [t[j]] + t[j + 1..];
  }

  // ---------------------------------------------------------------------------
  // Signatures
  // ---------------------------------------------------------------------------

  /** The bit of an element: 1 << (e % 64). */
  function Mark(e: nat): nat {
    Power2(e % 64)
  }

  function Signature(s: seq<nat>): nat {
    if s == [] then 0 else Or(Signature(s[..|s| - 1]), Mark(s[|s| - 1]))
  }

  /** Some member of r has residue i. */
  ghost predicate Occurs(r: set<nat>, i: nat) {
    exists e :: e in r && e % 64 == i
  }

  /** sig has exactly the bits of the residues of r. */
  ghost predicate Marks(sig: nat, r: set<nat>) {
    forall i: nat :: Bit(sig, i) <==> Occurs(r, i)
  }

  lemma {:induction false} SignatureMarks(s: seq<nat>)
    ensures Marks(Signature(s), Members(s))
  {
    if s == [] {
      forall i: nat ensures !Bit(0, i) {
        ZeroBits(i);
      }
    } else {
      var init, last := s[..|s| - 1], s[|s| - 1];
      assert s == init + [last];
      SignatureMarks(init);
      MarksMore(Signature(init), Members(init), last);
      assert Members(s) == Members(init) + {last};
    }
  }

  lemma MarksMore(sig: nat, r: set<nat>, e: nat)
    requires Marks(sig, r)
    ensures Marks(Or(sig, Mark(e)), r + {e})
  {
    hide Or, Bit, Power2;
    forall i: nat ensures Bit(Or(sig, Mark(e)), i) <==> Occurs(r + {e}, i) {
      OrBit(sig, Mark(e), i);
      PowerBit(e % 64, i);
      OccursMore(r, {e}, i);
      assert Occurs({e}, i) <==> e % 64 == i by {
        assert e in {e};
      }
    }
  }

  lemma OccursMore(r: set<nat>, t: set<nat>, i: nat)
    ensures Occurs(r + t, i) <==> Occurs(r, i) || Occurs(t, i)
  {
    if Occurs(r, i) {
      var e :| e in r && e % 64 == i;
      assert e in r + t;
    }
    if Occurs(t, i) {
      var e :| e in t && e % 64 == i;
      assert e in r + t;
    }
  }

  lemma MarksUnion(sig: nat, r: set<nat>, sig': nat, r': set<nat>)
    requires Marks(sig, r) && Marks(sig', r')
    ensures Marks(Or(sig, sig'), r + r')
  {
    hide Or, Bit;
    forall i: nat ensures Bit(Or(sig, sig'), i) <==> Occurs(r + r', i) {
      OrBit(sig, sig', i);
      OccursMore(r, r', i);
    }
  }

  /** The signature depends on the set alone. */
  lemma MarksUnique(sig: nat, sig': nat, r: set<nat>)
    requires Marks(sig, r) && Marks(sig', r)
    ensures sig == sig'
  {
    hide Bit;
    forall i: nat ensures Bit(sig, i) <==> Bit(sig', i) {
    }
    SameBits(sig, sig');
  }

  lemma SignatureOfUnion(a: seq<nat>, b: seq<nat>)
    ensures Signature(Union(a, b)) == Or(Signature(a), Signature(b))
  {
    hide Signature, Marks, Union, Members, Or;
    SignatureMarks(a);
    SignatureMarks(b);
    SignatureMarks(Union(a, b));
    UnionElements(a, b);
    MarksUnion(Signature(a), Members(a), Signature(b), Members(b));
    MarksUnique(Signature(Union(a, b)), Or(Signature(a), Signature(b)), Members(a) + Members(b));
  }

  /** Signatures without a common bit belong to disjoint sets. */
  lemma ApartExact(a: seq<nat>, b: seq<nat>)
    requires And(Signature(a), Signature(b)) == 0
    ensures Members(a) !! Members(b)
  {
    hide Signature, And, Bit;
    SignatureMarks(a);
    SignatureMarks(b);
    forall e | e in Members(a) ensures e !in Members(b) {
      assert Occurs(Members(a), e % 64);
      AndBit(Signature(a), Signature(b), e % 64);
      ZeroBits(e % 64);
    }
  }

  /** The signature of a subset adds no bit. */
  lemma SubsetSignature(a: seq<nat>, b: seq<nat>)
    requires Members(b) <= Members(a)
    ensures Or(Signature(a), Signature(b)) == Signature(a)
  {
    hide Signature, Marks, Or;
    SignatureMarks(a);
    SignatureMarks(b);
    MarksUnion(Signature(a), Members(a), Signature(b), Members(b));
    assert Members(a) + Members(b) == Members(a);
    MarksUnique(Or(Signature(a), Signature(b)), Signature(a), Members(a));
  }

  /** A set has at least as many members as its signature has ones. */
  lemma {:induction false} SignatureCount(s: seq<nat>)
    ensures Ones(Signature(s)) <= |s| && Signature(s) < Power2(64)
  {
    if s == [] {
      assert Power2(64) > 0;
    } else {
      hide Ones, Or, Power2;
      var init, e := s[..|s| - 1], s[|s| - 1] % 64;
      SignatureCount(init);
      OnesOfOr(Signature(init), e);
      PowerGrows(e, 64);
      OrBounded(Signature(init), Power2(e), 64);
    }
  }

  lemma {:induction false} PowerGrows(i: nat, j: nat)
    requires i < j
    ensures Power2(i) < Power2(j)
  {
    if i > 0 {
      PowerGrows(i - 1, j - 1);
    } else {
      assert Power2(j - 1) > 0;
    }
  }

  /** The second filter: a union with more residues than the bound is too large. */
  lemma CountFilterExact(a: seq<nat>, b: seq<nat>)
    ensures CountUnits64(Or(Signature(a), Signature(b))) <= |Union(a, b)|
  {
    hide Signature, Union, Ones, Or, CountUnits64;
    SignatureOfUnion(a, b);
    SignatureCount(Union(a, b));
    CountUnits64Exact(Signature(Union(a, b)));
  }

  // ---------------------------------------------------------------------------
  // One more element
  // ---------------------------------------------------------------------------

  /** i is the place of e in s. */
  predicate PlaceOf(s: seq<nat>, e: nat, i: nat) {
    && i <= |s|
    && (forall k :: 0 <= k < i ==> s[k] < e)
    && (forall k :: i <= k < |s| ==> e <= s[k])
  }

  /** An element is present only at its place. */
  lemma PlaceExact(s: seq<nat>, e: nat, i: nat)
    requires Increasing(s) && PlaceOf(s, e, i)
    ensures e in Members(s) <==> i < |s| && s[i] == e
  {
    if e in s {
      var k :| 0 <= k < |s| && s[k] == e;
    }
  }

  function Inserted(s: seq<nat>, e: nat, i: nat): seq<nat>
    requires i <= |s|
  {
    s[..i] + [e] + s[i..]
  }

  lemma InsertedExact(s: seq<nat>, e: nat, i: nat)
    requires Increasing(s) && PlaceOf(s, e, i) && e !in Members(s)
    ensures Increasing(Inserted(s, e, i))
    ensures Members(Inserted(s, e, i)) == Members(s) + {e}
    ensures Signature(Inserted(s, e, i)) == Or(Signature(s), Mark(e))
  {
    hide Signature, Or;
    var t := Inserted(s, e, i);
    InsertedElements(s, e, i);
    forall j, k | 0 <= j < k < |t| ensures t[j] < t[k] {
      PlaceExact(s, e, i);
    }
    SignatureMarks(s);
    SignatureMarks(t);
    MarksMore(Signature(s), Members(s), e);
    MarksUnique(Signature(t), Or(Signature(s), Mark(e)), Members(t));
  }

  lemma InsertedElements(s: seq<nat>, e: nat, i: nat)
    requires i <= |s|
    ensures Members(Inserted(s, e, i)) == Members(s) + {e}
  {
    assert s == s[..i] + s[i..];
  }

  /** The cells from i up to n moved one up. */
  function Shifted(s: seq<nat>, i: nat, n: nat): (r: seq<nat>)
    requires i <= n < |s|
    ensures |r| == |s|
  {
    s[..i + 1] + s[i..n] + s[n + 1..]
  }

  lemma ShiftedNone(s: seq<nat>, n: nat)
    requires n < |s|
    ensures Shifted(s, n, n) == s
  {
  }

  lemma ShiftedStep(s: seq<nat>, j: nat, n: nat)
    requires 0 < j <= n < |s|
    ensures Shifted(s, j, n)[j - 1] == s[j - 1]
    ensures Shifted(s, j, n)[j := s[j - 1]] == Shifted(s, j - 1, n)
  {
  }

  lemma ShiftedCells(s: seq<nat>, o: nat, i: nat, n: nat, e: nat)
    requires o <= i <= n < |s|
    ensures Shifted(s, i, n)[i := e][o..n + 1] == Inserted(s[o..n], e, i - o)
  {
  }
}
