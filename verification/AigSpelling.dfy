/**
 The AIGER formats byte by byte: exactly what a token is, which optional fields
 the writers of lib/aiger/aiger.c print, and whole files spelled out.
 */
module AigSpelling {
  import opened Words
  import opened Bytes
  import opened AigGraph
  import opened AigReencode
  import opened AigFormat

  // ---------------------------------------------------------------------------
  // What the reader accepts
  // ---------------------------------------------------------------------------

  predicate Separates(f: Follow, b: Byte) {
    (b == 32 && f != ByNewline) || (b == 10 && f != BySpace)
  }

  /** Any string of digits is a number modulo 2^32 if the right separator follows; nothing else is. */
  lemma TokenExact(d: seq<Byte>, tail: seq<Byte>, f: Follow)
    requires AllDigits(d) && (tail == [] || !IsDigit(tail[0]))
    ensures Value(d) >= 0
    ensures ReadToken(d + tail, f)
         == if d == [] then Failed(ExpectedNumber)
            else if tail == [] || !Separates(f, tail[0]) then Failed(ExpectedSeparator)
            else Parsed(Token(Value(d) % WORD, tail[0] == 32), tail[1..])
  {
    hide Value, NumberFrom;
    NumberExact(d, tail);
    if d == [] {
      assert d + tail == tail;
    } else {
      assert (d + tail)[0] == d[0];
    }
  }

  /** A file starts with "aag " or "aig ". */
  lemma MagicExact(s: seq<Byte>, binary: bool, rest: seq<Byte>)
    ensures ReadMagic(s) == Parsed(binary, rest) <==> s == [97, if binary then 105 else 97, 103, 32] + rest
  {
    if |s| >= 4 {
      assert s == s[..4] + s[4..];
    }
  }

  // ---------------------------------------------------------------------------
  // Which fields the writer prints
  // ---------------------------------------------------------------------------

  /** The numbers, each behind a space. */
  function Fields(us: seq<nat>): seq<Byte> {
    if us == [] then [] else Fields(us[..|us| - 1]) + ([32] + Decimal(us[|us| - 1]))
  }

  /** How many counts there are up to the last one that is not zero. */
  function Used(us: seq<nat>): (n: nat)
    ensures n <= |us| && (n > 0 ==> us[n - 1] != 0)
    ensures forall i :: n <= i < |us| ==> us[i] == 0
  {
    if us == [] || us[|us| - 1] != 0 then |us| else Used(us[..|us| - 1])
  }

  function Spaces(s: seq<Byte>): nat { multiset(s)[32] }

  lemma SpacesJoin(a: seq<Byte>, b: seq<Byte>)
    ensures Spaces(a + b) == Spaces(a) + Spaces(b)
  {
  }

  lemma SpacesInDecimal(u: nat)
    ensures Spaces(Decimal(u)) == 0
  {
    DecimalExact(u);
    assert 32 !in Decimal(u);
  }

  lemma {:induction false} SpacesInFields(us: seq<nat>)
    ensures Spaces(Fields(us)) == |us|
  {
    hide Spaces, Decimal;
    NoSpaces();
    if us != [] {
      var n := |us| - 1;
      SpacesInFields(us[..n]);
      SpacesInDecimal(us[n]);
      SpacesJoin([32], Decimal(us[n]));
      SpacesJoin(Fields(us[..n]), [32] + Decimal(us[n]));
    }
  }

  lemma NoSpaces()
    ensures Spaces([]) == 0 && Spaces([32]) == 1 && Spaces([10]) == 0
  {
  }

  lemma FieldsMore(us: seq<nat>, u: nat)
    ensures Fields(us + [u]) == Fields(us) + ([32] + Decimal(u))
  {
    assert (us + [u])[..|us|] == us;
  }

  /** The writer prints the optional counts up to the last one that is not zero, and no more. */
  lemma OptionalExact(b: nat, c: nat, j: nat, f: nat)
    ensures var us := [b, c, j, f];
      && OptionalText(b, c, j, f, 0) == Fields(us[..Used(us)])
      && Spaces(OptionalText(b, c, j, f, 0)) == Used(us)
    ensures OptionalText(b, c, j, f, 0) == [] <==> b == 0 && c == 0 && j == 0 && f == 0
  {
    hide Decimal, Spaces, Fields, OptionalText, Used;
    var us := [b, c, j, f];
    var n := Used(us);
    assert us[0] == b && us[1] == c && us[2] == j && us[3] == f;
    OptionalUpTo(b, c, j, f, n);
    SpacesInFields(us[..n]);
    NoSpaces();
    NoFields();
  }

  lemma OptionalUpTo(b: nat, c: nat, j: nat, f: nat, n: nat)
    requires n <= 4 && (n == 0 <==> b == 0 && c == 0 && j == 0 && f == 0)
    requires (n == 4 <==> f != 0) && (n >= 3 <==> j != 0 || f != 0) && (n >= 2 <==> c != 0 || j != 0 || f != 0)
    ensures OptionalText(b, c, j, f, 0) == Fields([b, c, j, f][..n])
  {
    hide Decimal, Fields;
    var us := [b, c, j, f];
    FieldsOf(b, c, j, f);
    assert us[..0] == [] && us[..1] == [b] && us[..2] == [b, c] && us[..3] == [b, c, j] && us[..4] == us;
  }

  lemma FieldsOf(b: nat, c: nat, j: nat, f: nat)
    ensures Fields([]) == [] && Fields([b]) == [32] + Decimal(b)
    ensures Fields([b, c]) == Fields([b]) + ([32] + Decimal(c))
    ensures Fields([b, c, j]) == Fields([b, c]) + ([32] + Decimal(j))
    ensures Fields([b, c, j, f]) == Fields([b, c, j]) + ([32] + Decimal(f))
  {
    hide Decimal, Fields;
    FieldsMore([], b);
    FieldsMore([b], c);
    FieldsMore([b, c], j);
    FieldsMore([b, c, j], f);
    assert [] + [b] == [b] && [b] + [c] == [b, c] && [b, c] + [j] == [b, c, j] && [b, c, j] + [f] == [b, c, j, f];
    NoFields();
  }

  lemma NoFields()
    ensures Fields([]) == []
  {
  }

  /** The writer prints the reset of a latch exactly when it is not zero. */
  lemma ResetShown(l: Latch, compact: bool)
    ensures var fields := (if compact then [] else [l.lit]) + [l.next] + (if l.reset != 0 then [l.reset] else []);
      && [32] + LatchText(l, compact, {}) == Fields(fields) + [10]
      && Spaces(LatchText(l, compact, {})) + 1 == |fields|
  {
    hide Decimal, Spaces;
    var a := if compact then [] else [l.lit];
    var b := a + [l.next];
    var fields := b + (if l.reset != 0 then [l.reset] else []);
    FieldsMore([], l.lit);
    FieldsMore(a, l.next);
    FieldsMore(b, l.reset);
    assert [] + [l.lit] == [l.lit];
    assert l.reset == 0 ==> fields == b;
    SpacesInFields(fields);
    assert [32] + LatchText(l, compact, {}) == Fields(fields) + [10];
    SpacesJoin(Fields(fields), [10]);
    SpacesJoin([32], LatchText(l, compact, {}));
    NoSpaces();
  }

  // ---------------------------------------------------------------------------
  // Whole files
  // ---------------------------------------------------------------------------

  /** One latch that toggles; its value and its negation are the outputs. */
  function Toggle(): Graph {
    Graph(1, [], [Latch(2, 3, 0)], [2, 3], [], [], [], [], [])
  }

  /** Every section in use, with different counts. */
  function Sample(): Graph {
    Graph(6, [2], [Latch(4, 8, 4), Latch(6, 5, 1)], [6, 10, 3, 12], [9, 11], [7], [[12], [], [3, 8]], [2, 5, 13, 10],
      [And(8, 7, 4), And(10, 8, 3), And(12, 9, 2)])
  }

  lemma Digits()
    ensures Decimal(0) == [48]
    ensures Decimal(1) == [49]
    ensures Decimal(2) == [50]
    ensures Decimal(3) == [51]
    ensures Decimal(4) == [52]
    ensures Decimal(5) == [53]
    ensures Decimal(6) == [54]
    ensures Decimal(7) == [55]
    ensures Decimal(8) == [56]
    ensures Decimal(9) == [57]
    ensures Decimal(10) == [49, 48]
    ensures Decimal(11) == [49, 49]
    ensures Decimal(12) == [49, 50]
    ensures Decimal(13) == [49, 51]
  {
    assert Decimal(1) == [49];
  }

  lemma ListCons(u: nat, us: seq<nat>)
    ensures ListText([u] + us) == Decimal(u) + [10] + ListText(us)
  {
    assert ([u] + us)[1..] == us;
  }

  lemma NoLines()
    ensures ListText([]) == [] && Ascii("") == []
  {
  }

  lemma SampleOutputs()
    ensures ListText([6, 10, 3, 12]) == Ascii("6\n10\n3\n12\n")
  {
    hide Decimal, ListText;
    Digits();
    ListCons(6, [10, 3, 12]);
    assert [6] + [10, 3, 12] == [6, 10, 3, 12];
    ListCons(10, [3, 12]);
    assert [10] + [3, 12] == [10, 3, 12];
    ListCons(3, [12]);
    assert [3] + [12] == [3, 12];
    ListCons(12, []);
    assert [12] + [] == [12];
    NoLines();
  }

  lemma SampleBad()
    ensures ListText([9, 11]) == Ascii("9\n11\n")
  {
    hide Decimal, ListText;
    Digits();
    ListCons(9, [11]);
    assert [9] + [11] == [9, 11];
    ListCons(11, []);
    assert [11] + [] == [11];
    NoLines();
  }

  lemma SampleConstraints()
    ensures ListText([7]) == Ascii("7\n")
  {
    hide Decimal, ListText;
    Digits();
    ListCons(7, []);
    assert [7] + [] == [7];
    NoLines();
  }

  lemma SampleSizes()
    ensures ListText([1, 0, 2]) == Ascii("1\n0\n2\n")
  {
    hide Decimal, ListText;
    Digits();
    ListCons(1, [0, 2]);
    assert [1] + [0, 2] == [1, 0, 2];
    ListCons(0, [2]);
    assert [0] + [2] == [0, 2];
    ListCons(2, []);
    assert [2] + [] == [2];
    NoLines();
  }

  lemma SampleFairness()
    ensures ListText([2, 5, 13, 10]) == Ascii("2\n5\n13\n10\n")
  {
    hide Decimal, ListText;
    Digits();
    ListCons(2, [5, 13, 10]);
    assert [2] + [5, 13, 10] == [2, 5, 13, 10];
    ListCons(5, [13, 10]);
    assert [5] + [13, 10] == [5, 13, 10];
    ListCons(13, [10]);
    assert [13] + [10] == [13, 10];
    ListCons(10, []);
    assert [10] + [] == [10];
    NoLines();
  }

  lemma SampleRows()
    ensures RowsText([[12], [], [3, 8]]) == Ascii("12\n3\n8\n")
  {
    hide Decimal, ListText;
    Digits();
    ListCons(12, []);
    assert [12] + [] == [12];
    ListCons(3, [8]);
    assert [3] + [8] == [3, 8];
    ListCons(8, []);
    assert [8] + [] == [8];
    NoLines();
    RowsCons([12], [[], [3, 8]]);
    RowsCons([], [[3, 8]]);
    RowsCons([3, 8], []);
    assert [[12]] + [[], [3, 8]] == [[12], [], [3, 8]] && [[]] + [[3, 8]] == [[], [3, 8]] && [[3, 8]] + [] == [[3, 8]];
    assert RowsText([]) == [];
  }

  lemma RowsCons(row: seq<nat>, rows: seq<seq<nat>>)
    ensures RowsText([row] + rows) == ListText(row) + RowsText(rows)
  {
    assert ([row] + rows)[1..] == rows;
  }

  lemma LatchesCons(l: Latch, ls: seq<Latch>, compact: bool)
    ensures LatchesText([l] + ls, compact, {}) == LatchText(l, compact, {}) + LatchesText(ls, compact, {})
  {
    assert ([l] + ls)[1..] == ls;
  }

  lemma SampleLatches()
    ensures LatchesText(Sample().latches, false, {}) == Ascii("4 8 4\n6 5 1\n")
    ensures LatchesText(Sample().latches, true, {}) == Ascii("8 4\n5 1\n")
  {
    hide Decimal, LatchesText;
    Digits();
    var l0, l1 := Latch(4, 8, 4), Latch(6, 5, 1);
    forall compact: bool
      ensures LatchesText([l0, l1], compact, {}) == LatchText(l0, compact, {}) + LatchText(l1, compact, {})
    {
      LatchesCons(l0, [l1], compact);
      LatchesCons(l1, [], compact);
      assert [l0] + [l1] == [l0, l1] && [l1] + [] == [l1];
      NoLatches(compact);
    }
  }

  lemma NoLatches(compact: bool)
    ensures LatchesText([], compact, {}) == []
  {
  }

  lemma SampleCounts()
    ensures CountsText(Sample(), 0) == Ascii("6 1 2 4 3 2 1 3 4\n")
  {
    hide Decimal;
    Digits();
  }

  /** The lines between the latches and the gates, the same in both formats. */
  function SampleRoots(): seq<Byte> {
    Ascii("6\n10\n3\n12\n") + Ascii("9\n11\n") + Ascii("7\n")
    + Ascii("1\n0\n2\n") + Ascii("12\n3\n8\n") + Ascii("2\n5\n13\n10\n")
  }

  lemma SampleBody()
    ensures BodyText(Sample(), false, {}) == Ascii("2\n") + Ascii("4 8 4\n6 5 1\n") + SampleRoots()
    ensures BodyText(Sample(), true, {}) == Ascii("8 4\n5 1\n") + SampleRoots()
  {
    hide Decimal, ListText, LatchesText, RowsText, Ascii;
    SampleLatches();
    SampleInput();
    SampleOutputs();
    SampleBad();
    SampleConstraints();
    SampleSizes();
    SampleRows();
    SampleFairness();
    assert Sizes(Sample().justice) == [1, 0, 2];
  }

  lemma SampleInput()
    ensures ListText([2]) == Ascii("2\n")
  {
    hide Decimal, ListText;
    Digits();
    ListCons(2, []);
    assert [2] + [] == [2];
    NoLines();
  }

  lemma AndsCons(a: And, ands: seq<And>)
    ensures AndsText([a] + ands) == AndText(a) + AndsText(ands)
  {
    assert ([a] + ands)[1..] == ands;
  }

  lemma SampleAnd0()
    ensures AndText(And(8, 7, 4)) == Ascii("8 7 4\n")
  {
    hide Decimal;
    Digits();
  }

  lemma SampleAnd1()
    ensures AndText(And(10, 8, 3)) == Ascii("10 8 3\n")
  {
    hide Decimal;
    Digits();
  }

  lemma SampleAnd2()
    ensures AndText(And(12, 9, 2)) == Ascii("12 9 2\n")
  {
    hide Decimal;
    Digits();
  }

  lemma SampleAnds()
    ensures AndsText(Sample().ands) == Ascii("8 7 4\n") + Ascii("10 8 3\n") + Ascii("12 9 2\n")
  {
    hide AndText, AndsText, Ascii;
    SampleAnd0();
    SampleAnd1();
    SampleAnd2();
    var a0, a1, a2 := And(8, 7, 4), And(10, 8, 3), And(12, 9, 2);
    AndsCons(a0, [a1, a2]);
    AndsCons(a1, [a2]);
    AndsCons(a2, []);
    assert [a0] + [a1, a2] == [a0, a1, a2] && [a1] + [a2] == [a1, a2] && [a2] + [] == [a2];
    NoAnds();
  }

  lemma NoAnds()
    ensures AndsText([]) == [] && DeltasText([]) == []
  {
  }

  lemma DeltasCons(a: And, ands: seq<And>)
    requires Descending([a] + ands) && Descending(ands)
    ensures a.rhs1 <= a.rhs0 <= a.lhs && DeltasText([a] + ands) == DeltaText(a) + DeltasText(ands)
  {
    assert ([a] + ands)[0] == a && ([a] + ands)[1..] == ands;
  }

  lemma SampleDeltas()
    ensures Descending(Sample().ands) && DeltasText(Sample().ands) == [1, 3, 2, 5, 3, 7]
  {
    hide DeltasText;
    var a0, a1, a2 := And(8, 7, 4), And(10, 8, 3), And(12, 9, 2);
    DeltasCons(a0, [a1, a2]);
    DeltasCons(a1, [a2]);
    DeltasCons(a2, []);
    assert [a0] + [a1, a2] == [a0, a1, a2] && [a1] + [a2] == [a1, a2] && [a2] + [] == [a2];
    NoAnds();
  }

  function SampleText(): seq<Byte> {
    Ascii("aag ") + Ascii("6 1 2 4 3 2 1 3 4\n") + Ascii("2\n") + Ascii("4 8 4\n6 5 1\n") + SampleRoots()
    + Ascii("8 7 4\n") + Ascii("10 8 3\n") + Ascii("12 9 2\n")
  }

  function SampleBinary(): seq<Byte> {
    Ascii("aig ") + Ascii("6 1 2 4 3 2 1 3 4\n") + Ascii("8 4\n5 1\n") + SampleRoots() + [1, 3, 2, 5, 3, 7]
  }

  /** A graph in both formats. */
  lemma SampleFiles()
    ensures AsciiText(Sample(), TERSE) == SampleText()
    ensures InNormalForm(Sample()) && BinaryText(Sample(), TERSE) == SampleBinary()
  {
    hide Ascii, CountsText, BodyText, AndsText, DeltasText, SampleRoots;
    SampleCounts();
    SampleBody();
    SampleAnds();
    SampleDeltas();
    Magics();
  }

  lemma Magics()
    ensures MagicText(false) == Ascii("aag ") && MagicText(true) == Ascii("aig ")
  {
  }

  lemma ToggleCounts()
    ensures CountsText(Toggle(), 0) == Ascii("1 0 1 2 0\n")
  {
    hide Decimal;
    Digits();
  }

  lemma ToggleLatch()
    ensures LatchesText(Toggle().latches, false, {}) == Ascii("2 3\n")
  {
    hide Decimal, LatchesText;
    Digits();
    var l := Latch(2, 3, 0);
    LatchesCons(l, [], false);
    assert [l] + [] == [l];
    NoLatches(false);
  }

  lemma ToggleOutputs()
    ensures ListText([2, 3]) == Ascii("2\n3\n")
  {
    hide Decimal, ListText;
    Digits();
    ListCons(2, [3]);
    assert [2] + [3] == [2, 3];
    ListCons(3, []);
    assert [3] + [] == [3];
    NoLines();
  }

  /** A small file, without optional counts and without a reset. */
  lemma ToggleFile()
    ensures AsciiText(Toggle(), TERSE) == Ascii("aag ") + Ascii("1 0 1 2 0\n") + Ascii("2 3\n") + Ascii("2\n3\n")
  {
    hide ListText, AndsText, LatchesText, Ascii, CountsText;
    ToggleCounts();
    ToggleLatch();
    ToggleOutputs();
    NoLines();
    NoAnds();
    Magics();
    assert Sizes([]) == [];
  }
}
