/**
 The text and the binary AIGER format: what the writers of lib/aiger/aiger.c emit
 for a graph and what the readers make of a byte sequence, as functions, and the
 round trips between them.
 */
module AigFormat {
  import opened Collections
  import opened Words
  import opened Bytes
  import opened Digraph
  import opened AigGraph
  import opened AigIndex
  import opened AigReencode

  // ---------------------------------------------------------------------------
  // Writing
  // ---------------------------------------------------------------------------

  /** What a file spells out although it may leave it out: optional counts, and resets to 0 of the given latches. */
  datatype Verbosity = Verbosity(counts: nat, resets: set<nat>)

  /** What the writers do. */
  const TERSE := Verbosity(0, {})

  function Line(u: nat): seq<Byte> { Decimal(u) + [NEWLINE] }

  /** One literal per line. */
  function ListText(lits: seq<nat>): seq<Byte> {
    if lits == [] then [] else Line(lits[0]) + ListText(lits[1..])
  }

  /** A latch line; the text format names the latch, and a reset to 0 may be left out. */
  function LatchText(l: Latch, compact: bool, resets: set<nat>): seq<Byte> {
    (if compact then [] else Decimal(l.lit) + [SPACE]) + Decimal(l.next)
    + (if l.reset != 0 || l.lit in resets then [SPACE] + Decimal(l.reset) else []) + [NEWLINE]
  }

  function LatchesText(ls: seq<Latch>, compact: bool, resets: set<nat>): seq<Byte> {
    if ls == [] then [] else LatchText(ls[0], compact, resets) + LatchesText(ls[1..], compact, resets)
  }

  function Sizes(rows: seq<seq<nat>>): (r: seq<nat>)
    ensures |r| == |rows| && forall i :: 0 <= i < |r| ==> r[i] == |rows[i]|
  {
    seq(|rows|, i requires 0 <= i < |rows| => |rows[i]|)
  }

  function RowsText(rows: seq<seq<nat>>): seq<Byte> {
    if rows == [] then [] else ListText(rows[0]) + RowsText(rows[1..])
  }

  /** The optional counts B C J F: at least the first n, and each if it or a later one is non-zero. */
  function OptionalText(b: nat, c: nat, j: nat, f: nat, n: nat): seq<Byte> {
    (if n >= 1 || b + c + j + f != 0 then [SPACE] + Decimal(b) else [])
    + (if n >= 2 || c + j + f != 0 then [SPACE] + Decimal(c) else [])
    + (if n >= 3 || j + f != 0 then [SPACE] + Decimal(j) else [])
    + (if n >= 4 || f != 0 then [SPACE] + Decimal(f) else [])
  }

  function MagicText(binary: bool): seq<Byte> {
    [97, if binary then 105 else 97, 103, SPACE]
  }

  function CountsText(g: Graph, n: nat): seq<Byte> {
    Decimal(g.maxvar) + [SPACE] + Decimal(|g.inputs|) + [SPACE] + Decimal(|g.latches|) + [SPACE]
    + Decimal(|g.outputs|) + [SPACE] + Decimal(|g.ands|)
    + OptionalText(|g.bad|, |g.constraints|, |g.justice|, |g.fairness|, n) + [NEWLINE]
  }

  function BodyText(g: Graph, binary: bool, resets: set<nat>): seq<Byte> {
    (if binary then [] else ListText(g.inputs)) + LatchesText(g.latches, binary, resets)
    + ListText(g.outputs) + ListText(g.bad) + ListText(g.constraints)
    + ListText(Sizes(g.justice)) + RowsText(g.justice) + ListText(g.fairness)
  }

  function HeaderText(g: Graph, binary: bool, v: Verbosity): seq<Byte> {
    MagicText(binary) + CountsText(g, v.counts) + BodyText(g, binary, v.resets)
  }

  function AndText(a: And): seq<Byte> {
    Decimal(a.lhs) + [SPACE] + Decimal(a.rhs0) + [SPACE] + Decimal(a.rhs1) + [NEWLINE]
  }

  function AndsText(ands: seq<And>): seq<Byte> {
    if ands == [] then [] else AndText(ands[0]) + AndsText(ands[1..])
  }

  function AsciiText(g: Graph, v: Verbosity): seq<Byte> {
    HeaderText(g, false, v) + AndsText(g.ands)
  }

  /** A gate of the binary format: two differences. */
  function DeltaText(a: And): seq<Byte>
    requires a.rhs1 <= a.rhs0 <= a.lhs
  {
    WriteDelta(a.lhs - a.rhs0) + WriteDelta(a.rhs0 - a.rhs1)
  }

  predicate Descending(ands: seq<And>) {
    forall i :: 0 <= i < |ands| ==> ands[i].rhs1 <= ands[i].rhs0 <= ands[i].lhs
  }

  function DeltasText(ands: seq<And>): seq<Byte>
    requires Descending(ands)
  {
    if ands == [] then [] else DeltaText(ands[0]) + DeltasText(ands[1..])
  }

  /** The binary format of a graph in normal form. */
  function BinaryText(g: Graph, v: Verbosity): seq<Byte>
    requires InNormalForm(g)
  {
    HeaderText(g, true, v) + DeltasText(g.ands)
  }

  // ---------------------------------------------------------------------------
  // Reading
  // ---------------------------------------------------------------------------

  datatype ReadError =
    | BadMagic | ExpectedNumber | ExpectedSeparator | BadMaxvar | HugeIndex
    | InvalidDefinition | AlreadyDefined | InvalidLiteral | BadReset
    | UnexpectedEof | BadCode | BadDelta | Overshifted | Trailing

  datatype Parse<+T> = Parsed(value: T, rest: seq<Byte>) | Failed(error: ReadError) {
    predicate IsFailure() { Failed? }

    function PropagateFailure<U>(): Parse<U>
      requires Failed?
    {
      Failed(error)
    }

    function Extract(): (T, seq<Byte>)
      requires Parsed?
    {
      (value, rest)
    }
  }

  /** What has to follow a number. */
  datatype Follow = BySpace | ByNewline | ByEither

  /** A number and whether a space followed it. */
  datatype Token = Token(num: nat, space: bool)

  predicate Follows(f: Follow, b: Byte) {
    match f
    case BySpace => b == SPACE
    case ByNewline => b == NEWLINE
    case ByEither => b == SPACE || b == NEWLINE
  }

  function ReadToken(s: seq<Byte>, f: Follow): Parse<Token> {
    if s == [] || !IsDigit(s[0]) then Failed(ExpectedNumber)
    else
      var (n, t) := NumberFrom(0, s);
      if t == [] || !Follows(f, t[0]) then Failed(ExpectedSeparator)
      else Parsed(Token(n, t[0] == SPACE), t[1..])
  }

  datatype Header = Header(
    binary: bool, maxvar: nat, inputs: nat, latches: nat, outputs: nat, ands: nat,
    bad: nat, constraints: nat, justice: nat, fairness: nat)

  function ReadMagic(s: seq<Byte>): Parse<bool> {
    if |s| >= 1 && s[0] == 97 then
      if |s| >= 2 && (s[1] == 105 || s[1] == 97) then
        if |s| >= 3 && s[2] == 103 then
          if |s| >= 4 && s[3] == SPACE then Parsed(s[1] == 105, s[4..])
          else Failed(BadMagic)
        else Failed(BadMagic)
      else Failed(BadMagic)
    else Failed(BadMagic)
  }

  datatype Optional = Optional(bad: nat, constraints: nat, justice: nat, fairness: nat)

  function ReadOptional(space: bool, s: seq<Byte>): Parse<Optional> {
    if !space then Parsed(Optional(0, 0, 0, 0), s)
    else
      var (b, s1) :- ReadToken(s, ByEither);
      if !b.space then Parsed(Optional(b.num, 0, 0, 0), s1)
      else
        var (c, s2) :- ReadToken(s1, ByEither);
        if !c.space then Parsed(Optional(b.num, c.num, 0, 0), s2)
        else
          var (j, s3) :- ReadToken(s2, ByEither);
          if !j.space then Parsed(Optional(b.num, c.num, j.num, 0), s3)
          else
            var (f, s4) :- ReadToken(s3, ByNewline);
            Parsed(Optional(b.num, c.num, j.num, f.num), s4)
  }

  function ReadCounts(binary: bool, s: seq<Byte>): Parse<Header> {
    var (m, s1) :- ReadToken(s, BySpace);
    var (i, s2) :- ReadToken(s1, BySpace);
    var (l, s3) :- ReadToken(s2, BySpace);
    var (o, s4) :- ReadToken(s3, BySpace);
    var (a, s5) :- ReadToken(s4, ByEither);
    var (x, s6) :- ReadOptional(a.space, s5);
    Parsed(Header(binary, m.num, i.num, l.num, o.num, a.num, x.bad, x.constraints, x.justice, x.fairness), s6)
  }

  /** The checks between the counts and the tables. */
  function CheckCounts(h: Header): (e: bool) {
    h.binary && (h.inputs + h.latches + h.ands) % WORD != h.maxvar
  }

  /** Counts for which the index cannot be addressed by 32-bit literals; not followed further here. */
  predicate Huge(h: Header) {
    2 * h.maxvar + 1 >= WORD || (h.binary && h.inputs + h.latches + h.ands >= WORD)
  }

  /** Whether the literal is in one of the defining tables. */
  predicate Taken(g: Graph, lit: nat) {
    lit in g.inputs || lit in LatchLits(g.latches) || lit in AndLits(g.ands)
  }

  /** A literal that may define something: unsigned, not constant, in range, not defined yet. */
  function CheckDefinition(g: Graph, lit: nat): (e: seq<ReadError>)
    ensures |e| <= 1
  {
    if !DefiningLit(g, lit) then [InvalidDefinition]
    else if Taken(g, lit) then [AlreadyDefined]
    else []
  }

  /** The remaining n inputs of the text format. */
  function ReadInputs(n: nat, g: Graph, s: seq<Byte>): Parse<Graph> {
    if n == 0 then Parsed(g, s)
    else
      var (t, s1) :- ReadToken(s, ByNewline);
      var e := CheckDefinition(g, t.num);
      if e != [] then Failed(e[0])
      else ReadInputs(n - 1, g.(inputs := g.inputs + [t.num]), s1)
  }

  /** The optional reset of a latch line. */
  function ReadReset(lit: nat, space: bool, s: seq<Byte>): Parse<nat> {
    if !space then Parsed(0, s)
    else
      var (r, s1) :- ReadToken(s, ByNewline);
      if r.num <= 1 || r.num == lit then Parsed(r.num, s1) else Failed(BadReset)
  }

  /** The literal that a latch line defines: written out in text, implicit in binary. */
  function ReadLatchLit(h: Header, g: Graph, s: seq<Byte>): Parse<nat> {
    if h.binary then Parsed(2 * (|g.latches| + h.inputs + 1), s)
    else
      var (t, s1) :- ReadToken(s, BySpace);
      var e := CheckDefinition(g, t.num);
      if e != [] then Failed(e[0]) else Parsed(t.num, s1)
  }

  function ReadLatch(h: Header, g: Graph, s: seq<Byte>): Parse<Latch> {
    var (lit, s1) :- ReadLatchLit(h, g, s);
    var (next, s2) :- ReadToken(s1, ByEither);
    if Var(next.num) > g.maxvar then Failed(InvalidLiteral)
    else
      var (reset, s3) :- ReadReset(lit, next.space, s2);
      Parsed(Latch(lit, next.num, reset), s3)
  }

  function ReadLatches(n: nat, h: Header, g: Graph, s: seq<Byte>): Parse<Graph> {
    if n == 0 then Parsed(g, s)
    else
      var (l, s1) :- ReadLatch(h, g, s);
      ReadLatches(n - 1, h, g.(latches := g.latches + [l]), s1)
  }

  /** The remaining n literals of a list, each with a variable up to `bound`. */
  function ReadList(n: nat, bound: nat, acc: seq<nat>, s: seq<Byte>): Parse<seq<nat>> {
    if n == 0 then Parsed(acc, s)
    else
      var (t, s1) :- ReadToken(s, ByNewline);
      if Var(t.num) > bound then Failed(InvalidLiteral)
      else ReadList(n - 1, bound, acc + [t.num], s1)
  }

  /** The literals of the justice properties of the given sizes; they are not range checked. */
  function ReadRows(sizes: seq<nat>, g: Graph, s: seq<Byte>): Parse<Graph>
    decreases |sizes|
  {
    if sizes == [] then Parsed(g, s)
    else
      var (row, s1) :- ReadList(sizes[0], WORD, [], s);
      ReadRows(sizes[1..], ImportAll(g, row).(justice := g.justice + [row]), s1)
  }

  function ReadRoots(h: Header, g: Graph, s: seq<Byte>): Parse<Graph> {
    var (o, s1) :- ReadList(h.outputs, g.maxvar, [], s);
    var (b, s2) :- ReadList(h.bad, g.maxvar, [], s1);
    var (c, s3) :- ReadList(h.constraints, g.maxvar, [], s2);
    var (z, s4) :- ReadList(h.justice, WORD, [], s3);
    var (g1, s5) :- ReadRows(z, g.(outputs := o, bad := b, constraints := c), s4);
    var (f, s6) :- ReadList(h.fairness, g1.maxvar, [], s5);
    Parsed(g1.(fairness := f), s6)
  }

  function ReadBody(h: Header, s: seq<Byte>): Parse<Graph> {
    var g := EMPTY.(maxvar := h.maxvar);
    var (g1, s1) :- if h.binary then Parsed(g.(inputs := FirstLits(h.inputs)), s) else ReadInputs(h.inputs, g, s);
    var (g2, s2) :- ReadLatches(h.latches, h, g1, s1);
    ReadRoots(h, g2, s2)
  }

  /** A gate line of the text format. */
  function ReadAsciiAnd(g: Graph, s: seq<Byte>): Parse<And> {
    var (lhs, s1) :- ReadToken(s, BySpace);
    var e := CheckDefinition(g, lhs.num);
    if e != [] then Failed(e[0])
    else
      var (rhs0, s2) :- ReadToken(s1, BySpace);
      if Var(rhs0.num) > g.maxvar then Failed(InvalidLiteral)
      else
        var (rhs1, s3) :- ReadToken(s2, ByNewline);
        if Var(rhs1.num) > g.maxvar then Failed(InvalidLiteral)
        else Parsed(And(lhs.num, rhs0.num, rhs1.num), s3)
  }

  function ReadAsciiAnds(n: nat, g: Graph, s: seq<Byte>): Parse<Graph> {
    if n == 0 then Parsed(g, s)
    else
      var (a, s1) :- ReadAsciiAnd(g, s);
      ReadAsciiAnds(n - 1, g.(ands := g.ands + [a]), s1)
  }

  function ReadDifference(s: seq<Byte>): Parse<nat> {
    match ReadDelta(s)
    case Delta(v, r) => Parsed(v, r)
    case EndOfFile => Failed(UnexpectedEof)
    case InvalidCode => Failed(BadCode)
    case Overshift => Failed(Overshifted)
  }

  /** A gate of the binary format: its left-hand side is implied. */
  function ReadBinaryAnd(lhs: nat, s: seq<Byte>): Parse<And> {
    var (d0, s1) :- ReadDifference(s);
    if d0 > lhs then Failed(BadDelta)
    else
      var (d1, s2) :- ReadDifference(s1);
      if d1 > lhs - d0 then Failed(BadDelta)
      else Parsed(And(lhs, lhs - d0, lhs - d0 - d1), s2)
  }

  function ReadBinaryAnds(n: nat, lhs: nat, g: Graph, s: seq<Byte>): Parse<Graph>
    decreases n
  {
    if n == 0 then Parsed(g, s)
    else
      var (a, s1) :- ReadBinaryAnd(lhs + 2, s);
      ReadBinaryAnds(n - 1, lhs + 2, g.(ands := g.ands + [a]), s1)
  }

  /** The whole file, without symbols and comments. */
  function ReadFile(s: seq<Byte>): Parse<Graph> {
    var (binary, s1) :- ReadMagic(s);
    var (h, s2) :- ReadCounts(binary, s1);
    if CheckCounts(h) then Failed(BadMaxvar)
    else if Huge(h) then Failed(HugeIndex)
    else
      var (g, s3) :- ReadBody(h, s2);
      var (g', s4) :-
        if binary then ReadBinaryAnds(h.ands, 2 * (h.inputs + h.latches), g, s3)
        else ReadAsciiAnds(h.ands, g, s3);
      if s4 == [] then Parsed(g', s4) else Failed(Trailing)
  }

  /** A literal is refused as invalid if it cannot define a variable, as a repetition if its variable has a definition. */
  lemma DefinitionExact(g: Graph, lit: nat)
    ensures CheckDefinition(g, lit) == [InvalidDefinition] <==> lit < 2 || lit % 2 != 0 || Var(lit) > g.maxvar
    ensures CheckDefinition(g, lit) == [AlreadyDefined] <==> DefiningLit(g, lit) && Defined(g, lit)
    ensures CheckDefinition(g, lit) == [] <==> DefiningLit(g, lit) && !Defined(g, lit)
  {
    assert lit % 2 == 0 ==> 2 * Var(lit) == lit;
  }

  // ---------------------------------------------------------------------------
  // Round trips of the parts
  // ---------------------------------------------------------------------------

  /** A printed number followed by its separator. */
  lemma TokenRoundTrip(u: nat, f: Follow, b: Byte, rest: seq<Byte>)
    requires u < WORD && Follows(f, b)
    ensures ReadToken(Decimal(u) + ([b] + rest), f) == Parsed(Token(u, b == SPACE), rest)
  {
    var t := [b] + rest;
    DecimalRoundTrip(u, t);
    assert t[1..] == rest;
    assert (Decimal(u) + t)[0] == Decimal(u)[0];
  }

  /** No literal has a variable above the bound. */
  predicate ListWithin(bound: nat, lits: seq<nat>) {
    forall i :: 0 <= i < |lits| ==> Var(lits[i]) <= bound
  }

  predicate RowsWithin(bound: nat, rows: seq<seq<nat>>) {
    forall i :: 0 <= i < |rows| ==> ListWithin(bound, rows[i])
  }

  ghost predicate AllWords(lits: seq<nat>) {
    forall i :: 0 <= i < |lits| ==> lits[i] < WORD
  }

  lemma {:induction false} ListRoundTrip(lits: seq<nat>, bound: nat, acc: seq<nat>, rest: seq<Byte>)
    requires AllWords(lits) && ListWithin(bound, lits)
    ensures ReadList(|lits|, bound, acc, ListText(lits) + rest) == Parsed(acc + lits, rest)
    decreases |lits|
  {
    if lits == [] {
      assert ListText(lits) + rest == rest;
      assert acc + lits == acc;
    } else {
      var tail := lits[1..];
      assert ListText(lits) + rest == Decimal(lits[0]) + ([NEWLINE] + (ListText(tail) + rest));
      TokenRoundTrip(lits[0], ByNewline, NEWLINE, ListText(tail) + rest);
      ListRoundTrip(tail, bound, acc + [lits[0]], rest);
      assert acc + lits == acc + [lits[0]] + tail;
    }
  }

  ghost predicate RowsFit(maxvar: nat, rows: seq<seq<nat>>) {
    RowsWithin(maxvar, rows) && forall i :: 0 <= i < |rows| ==> AllWords(rows[i])
  }

  lemma {:induction false} RowsRoundTrip(rows: seq<seq<nat>>, g: Graph, rest: seq<Byte>)
    requires RowsFit(g.maxvar, rows)
    ensures ReadRows(Sizes(rows), g, RowsText(rows) + rest) == Parsed(g.(justice := g.justice + rows), rest)
    decreases |rows|
  {
    hide ListText, ReadList, ImportAll, AllWords, ListWithin;
    if rows == [] {
      assert RowsText(rows) + rest == rest;
      assert g.justice + rows == g.justice;
    } else {
      var row, tail := rows[0], rows[1..];
      RowRoundTrip(row, g, RowsText(tail) + rest);
      assert RowsText(rows) + rest == ListText(row) + (RowsText(tail) + rest);
      assert Sizes(rows)[1..] == Sizes(tail);
      RowsRoundTrip(tail, g.(justice := g.justice + [row]), rest);
      assert g.justice + rows == g.justice + [row] + tail;
    }
  }

  lemma RowRoundTrip(row: seq<nat>, g: Graph, rest: seq<Byte>)
    requires AllWords(row) && ListWithin(g.maxvar, row)
    ensures ReadList(|row|, WORD, [], ListText(row) + rest) == Parsed(row, rest)
    ensures ImportAll(g, row) == g
  {
    ListRoundTrip(row, WORD, [], rest);
    assert [] + row == row;
    ImportNothing(g, row);
  }

  lemma {:induction false} ImportNothing(g: Graph, lits: seq<nat>)
    requires InRange(g, lits)
    ensures ImportAll(g, lits) == g
    decreases |lits|
  {
    if lits != [] {
      ImportNothing(g, lits[..|lits| - 1]);
    }
  }

  /** The tables of t that are already read: everything before the latches, and i inputs. */
  function InputsSoFar(t: Graph, i: nat): Graph
    requires i <= |t.inputs|
  {
    EMPTY.(maxvar := t.maxvar, inputs := t.inputs[..i])
  }

  function LatchesRead(t: Graph, i: nat): Graph
    requires i <= |t.latches|
  {
    EMPTY.(maxvar := t.maxvar, inputs := t.inputs, latches := t.latches[..i])
  }

  function AndsRead(t: Graph, i: nat): Graph
    requires i <= |t.ands|
  {
    t.(ands := t.ands[..i])
  }

  lemma InputAccepted(t: Graph, i: nat)
    requires WellFormed(t) && i < |t.inputs|
    ensures CheckDefinition(InputsSoFar(t, i), t.inputs[i]) == [] && t.inputs[i] < WORD
  {
    assert DefiningLit(t, t.inputs[i]);
    assert t.inputs[i] !in t.inputs[..i];
  }

  lemma LatchAccepted(t: Graph, i: nat)
    requires WellFormed(t) && i < |t.latches|
    ensures CheckDefinition(LatchesRead(t, i), t.latches[i].lit) == [] && t.latches[i].lit < WORD
    ensures t.latches[i].next < WORD && Var(t.latches[i].next) <= t.maxvar
    ensures t.latches[i].reset < WORD && (t.latches[i].reset <= 1 || t.latches[i].reset == t.latches[i].lit)
  {
    assert DefiningLit(t, t.latches[i].lit);
    var ls := LatchLits(t.latches[..i]);
    forall k | 0 <= k < i ensures ls[k] != t.latches[i].lit {
      assert LatchLits(t.latches)[k] != LatchLits(t.latches)[i];
    }
    assert LatchLits(LatchesRead(t, i).latches) == ls;
  }

  lemma AndAccepted(t: Graph, i: nat)
    requires WellFormed(t) && i < |t.ands|
    ensures CheckDefinition(AndsRead(t, i), t.ands[i].lhs) == [] && t.ands[i].lhs < WORD
    ensures t.ands[i].rhs0 < WORD && Var(t.ands[i].rhs0) <= t.maxvar
    ensures t.ands[i].rhs1 < WORD && Var(t.ands[i].rhs1) <= t.maxvar
  {
    assert DefiningLit(t, t.ands[i].lhs);
    var ls := AndLits(t.ands[..i]);
    forall k | 0 <= k < i ensures ls[k] != t.ands[i].lhs {
      assert AndLits(t.ands)[k] != AndLits(t.ands)[i];
    }
    assert t.ands[i].lhs !in t.inputs;
    forall k | 0 <= k < |t.latches| ensures LatchLits(t.latches)[k] != t.ands[i].lhs {
    }
  }

  lemma {:induction false} InputsRoundTrip(t: Graph, i: nat, rest: seq<Byte>)
    requires WellFormed(t) && i <= |t.inputs|
    ensures ReadInputs(|t.inputs| - i, InputsSoFar(t, i), ListText(t.inputs[i..]) + rest)
            == Parsed(InputsSoFar(t, |t.inputs|), rest)
    decreases |t.inputs| - i
  {
    hide WellFormed, CheckDefinition;
    var tail := t.inputs[i..];
    if i == |t.inputs| {
      assert ListText(tail) + rest == rest;
    } else {
      InputAccepted(t, i);
      assert tail[1..] == t.inputs[i + 1..];
      var rest' := ListText(t.inputs[i + 1..]) + rest;
      assert ListText(tail) + rest == Decimal(t.inputs[i]) + ([NEWLINE] + rest');
      TokenRoundTrip(t.inputs[i], ByNewline, NEWLINE, rest');
      assert t.inputs[..i] + [t.inputs[i]] == t.inputs[..i + 1];
      InputsRoundTrip(t, i + 1, rest);
    }
  }

  /** An explicit reset is taken as it stands if it is admissible, and refused otherwise. */
  lemma ResetExact(lit: nat, reset: nat, rest: seq<Byte>)
    requires reset < WORD
    ensures ReadReset(lit, true, Decimal(reset) + ([NEWLINE] + rest))
         == if reset <= 1 || reset == lit then Parsed(reset, rest) else Failed(BadReset)
  {
    hide Decimal;
    TokenRoundTrip(reset, ByNewline, NEWLINE, rest);
  }

  lemma ResetRoundTrip(lit: nat, next: nat, reset: nat, shown: bool, rest: seq<Byte>)
    requires next < WORD && reset < WORD && (reset <= 1 || reset == lit) && (reset != 0 ==> shown)
    ensures var s := Decimal(next) + (if shown then [SPACE] + Decimal(reset) else []) + [NEWLINE] + rest;
      && ReadToken(s, ByEither).Parsed?
      && ReadToken(s, ByEither).value.num == next
      && ReadReset(lit, ReadToken(s, ByEither).value.space, ReadToken(s, ByEither).rest) == Parsed(reset, rest)
  {
    hide Decimal;
    var s := Decimal(next) + (if shown then [SPACE] + Decimal(reset) else []) + [NEWLINE] + rest;
    if !shown {
      assert s == Decimal(next) + ([NEWLINE] + rest);
      TokenRoundTrip(next, ByEither, NEWLINE, rest);
    } else {
      var r := Decimal(reset) + ([NEWLINE] + rest);
      assert s == Decimal(next) + ([SPACE] + r);
      TokenRoundTrip(next, ByEither, SPACE, r);
      ResetExact(lit, reset, rest);
    }
  }

  lemma LatchLitRoundTrip(h: Header, t: Graph, i: nat, rest: seq<Byte>)
    requires WellFormed(t) && i < |t.latches| && h.inputs == |t.inputs|
    requires h.binary ==> t.latches[i].lit == 2 * (1 + |t.inputs| + i)
    ensures ReadLatchLit(h, LatchesRead(t, i),
              (if h.binary then [] else Decimal(t.latches[i].lit) + [SPACE]) + rest) == Parsed(t.latches[i].lit, rest)
  {
    hide WellFormed, CheckDefinition, Decimal;
    LatchAccepted(t, i);
    var lit := t.latches[i].lit;
    if h.binary {
      assert [] + rest == rest;
    } else {
      assert Decimal(lit) + [SPACE] + rest == Decimal(lit) + ([SPACE] + rest);
      TokenRoundTrip(lit, BySpace, SPACE, rest);
    }
  }

  lemma LatchRoundTrip(h: Header, t: Graph, i: nat, resets: set<nat>, rest: seq<Byte>)
    requires WellFormed(t) && i < |t.latches| && h.inputs == |t.inputs|
    requires h.binary ==> t.latches[i].lit == 2 * (1 + |t.inputs| + i)
    ensures ReadLatch(h, LatchesRead(t, i), LatchText(t.latches[i], h.binary, resets) + rest) == Parsed(t.latches[i], rest)
  {
    hide WellFormed, CheckDefinition, Decimal, ReadToken, ReadReset, ReadLatchLit;
    LatchAccepted(t, i);
    var l := t.latches[i];
    var shown := l.reset != 0 || l.lit in resets;
    var r := Decimal(l.next) + (if shown then [SPACE] + Decimal(l.reset) else []) + [NEWLINE] + rest;
    LatchLitRoundTrip(h, t, i, r);
    ResetRoundTrip(l.lit, l.next, l.reset, shown, rest);
    assert LatchText(l, h.binary, resets) + rest == (if h.binary then [] else Decimal(l.lit) + [SPACE]) + r;
  }

  lemma {:induction false} LatchesRoundTrip(h: Header, t: Graph, i: nat, resets: set<nat>, rest: seq<Byte>)
    requires WellFormed(t) && i <= |t.latches| && h.inputs == |t.inputs|
    requires h.binary ==> forall k :: 0 <= k < |t.latches| ==> t.latches[k].lit == 2 * (1 + |t.inputs| + k)
    ensures ReadLatches(|t.latches| - i, h, LatchesRead(t, i), LatchesText(t.latches[i..], h.binary, resets) + rest)
            == Parsed(LatchesRead(t, |t.latches|), rest)
    decreases |t.latches| - i
  {
    hide WellFormed, LatchText, ReadLatch;
    var tail := t.latches[i..];
    if i == |t.latches| {
      assert LatchesText(tail, h.binary, resets) + rest == rest;
    } else {
      assert tail[1..] == t.latches[i + 1..];
      var rest' := LatchesText(t.latches[i + 1..], h.binary, resets) + rest;
      assert LatchesText(tail, h.binary, resets) + rest == LatchText(t.latches[i], h.binary, resets) + rest';
      LatchRoundTrip(h, t, i, resets, rest');
      assert t.latches[..i] + [t.latches[i]] == t.latches[..i + 1];
      LatchesRoundTrip(h, t, i + 1, resets, rest);
    }
  }

  lemma AndRoundTrip(t: Graph, i: nat, rest: seq<Byte>)
    requires WellFormed(t) && i < |t.ands|
    ensures ReadAsciiAnd(AndsRead(t, i), AndText(t.ands[i]) + rest) == Parsed(t.ands[i], rest)
  {
    hide WellFormed, CheckDefinition, Decimal, ReadToken;
    AndAccepted(t, i);
    var a := t.ands[i];
    var s2 := Decimal(a.rhs1) + ([NEWLINE] + rest);
    var s1 := Decimal(a.rhs0) + ([SPACE] + s2);
    TokenRoundTrip(a.lhs, BySpace, SPACE, s1);
    TokenRoundTrip(a.rhs0, BySpace, SPACE, s2);
    TokenRoundTrip(a.rhs1, ByNewline, NEWLINE, rest);
    assert AndText(a) + rest == Decimal(a.lhs) + ([SPACE] + s1);
  }

  lemma {:induction false} AndsRoundTrip(t: Graph, i: nat, rest: seq<Byte>)
    requires WellFormed(t) && i <= |t.ands|
    ensures ReadAsciiAnds(|t.ands| - i, AndsRead(t, i), AndsText(t.ands[i..]) + rest) == Parsed(t, rest)
    decreases |t.ands| - i
  {
    hide WellFormed, AndText, ReadAsciiAnd;
    var tail := t.ands[i..];
    if i == |t.ands| {
      assert AndsText(tail) + rest == rest;
      assert t.ands[..i] == t.ands;
    } else {
      assert tail[1..] == t.ands[i + 1..];
      var rest' := AndsText(t.ands[i + 1..]) + rest;
      assert AndsText(tail) + rest == AndText(t.ands[i]) + rest';
      AndRoundTrip(t, i, rest');
      assert t.ands[..i] + [t.ands[i]] == t.ands[..i + 1];
      AndsRoundTrip(t, i + 1, rest);
    }
  }

  lemma DeltaAndRoundTrip(a: And, rest: seq<Byte>)
    requires a.rhs1 <= a.rhs0 <= a.lhs < WORD
    ensures ReadBinaryAnd(a.lhs, DeltaText(a) + rest) == Parsed(a, rest)
  {
    hide WriteDelta, ReadDelta;
    var s1 := WriteDelta(a.rhs0 - a.rhs1) + rest;
    assert DeltaText(a) + rest == WriteDelta(a.lhs - a.rhs0) + s1;
    DeltaRoundTrip(a.lhs - a.rhs0, s1);
    DeltaRoundTrip(a.rhs0 - a.rhs1, rest);
  }

  lemma {:induction false} DeltasRoundTrip(t: Graph, i: nat, rest: seq<Byte>)
    requires InNormalForm(t) && i <= |t.ands| && forall k :: 0 <= k < |t.ands| ==> t.ands[k].lhs < WORD
    ensures ReadBinaryAnds(|t.ands| - i, 2 * (Base(t) - 1 + i), AndsRead(t, i), DeltasText(t.ands[i..]) + rest) == Parsed(t, rest)
    decreases |t.ands| - i
  {
    hide DeltaText, ReadBinaryAnd;
    var tail := t.ands[i..];
    if i == |t.ands| {
      assert DeltasText(tail) + rest == rest;
      assert t.ands[..i] == t.ands;
    } else {
      assert tail[1..] == t.ands[i + 1..];
      var rest' := DeltasText(t.ands[i + 1..]) + rest;
      assert DeltasText(tail) + rest == DeltaText(t.ands[i]) + rest';
      DeltaAndRoundTrip(t.ands[i], rest');
      assert t.ands[..i] + [t.ands[i]] == t.ands[..i + 1];
      DeltasRoundTrip(t, i + 1, rest);
    }
  }

  // ---------------------------------------------------------------------------
  // Round trips of the file
  // ---------------------------------------------------------------------------

  /** The counts fit their 32-bit fields. */
  predicate CountsFit(g: Graph) {
    && |g.inputs| < WORD && |g.latches| < WORD && |g.outputs| < WORD && |g.ands| < WORD
    && |g.bad| < WORD && |g.constraints| < WORD && |g.justice| < WORD && |g.fairness| < WORD
    && forall i :: 0 <= i < |g.justice| ==> |g.justice[i]| < WORD
  }

  /** The four optional counts, from the last one on. */
  lemma OptionalRoundTrip(b: nat, c: nat, j: nat, f: nat, n: nat, rest: seq<Byte>)
    requires b < WORD && c < WORD && j < WORD && f < WORD && (n > 0 || b + c + j + f != 0)
    ensures exists s ::
      && OptionalText(b, c, j, f, n) + [NEWLINE] + rest == [SPACE] + s
      && ReadOptional(true, s) == Parsed(Optional(b, c, j, f), rest)
  {
    hide Decimal;
    var e3 := if n >= 4 || f != 0 then [SPACE] + (Decimal(f) + ([NEWLINE] + rest)) else [NEWLINE] + rest;
    var e2 := if n >= 3 || j + f != 0 then [SPACE] + (Decimal(j) + e3) else [NEWLINE] + rest;
    var e1 := if n >= 2 || c + j + f != 0 then [SPACE] + (Decimal(c) + e2) else [NEWLINE] + rest;
    var s := Decimal(b) + e1;
    assert OptionalText(b, c, j, f, n) + [NEWLINE] + rest == [SPACE] + s;
    if n >= 4 || f != 0 {
      TokenRoundTrip(f, ByNewline, NEWLINE, rest);
      TokenRoundTrip(j, ByEither, SPACE, Decimal(f) + ([NEWLINE] + rest));
    } else if n >= 3 || j != 0 {
      TokenRoundTrip(j, ByEither, NEWLINE, rest);
    }
    if n >= 3 || j + f != 0 {
      TokenRoundTrip(c, ByEither, SPACE, Decimal(j) + e3);
    } else if n >= 2 || c != 0 {
      TokenRoundTrip(c, ByEither, NEWLINE, rest);
    }
    if n >= 2 || c + j + f != 0 {
      TokenRoundTrip(b, ByEither, SPACE, Decimal(c) + e2);
    } else {
      TokenRoundTrip(b, ByEither, NEWLINE, rest);
    }
  }

  function HeaderOf(g: Graph, binary: bool): Header {
    Header(binary, g.maxvar, |g.inputs|, |g.latches|, |g.outputs|, |g.ands|,
      |g.bad|, |g.constraints|, |g.justice|, |g.fairness|)
  }

  lemma CountsRoundTrip(g: Graph, binary: bool, n: nat, rest: seq<Byte>)
    requires WellFormed(g) && CountsFit(g)
    ensures ReadCounts(binary, CountsText(g, n) + rest) == Parsed(HeaderOf(g, binary), rest)
  {
    var b, c, j, f := |g.bad|, |g.constraints|, |g.justice|, |g.fairness|;
    var s5 := OptionalText(b, c, j, f, n) + [NEWLINE] + rest;
    assert g.maxvar < WORD;
    if n == 0 && b + c + j + f == 0 {
      assert OptionalText(b, c, j, f, n) == [];
      assert s5 == [NEWLINE] + rest;
      TokenRoundTrip(|g.ands|, ByEither, NEWLINE, rest);
    } else {
      OptionalRoundTrip(b, c, j, f, n, rest);
      var s :| s5 == [SPACE] + s && ReadOptional(true, s) == Parsed(Optional(b, c, j, f), rest);
      TokenRoundTrip(|g.ands|, ByEither, SPACE, s);
    }
    FixedCounts(g, binary, n, rest, s5);
  }

  lemma FixedCounts(g: Graph, binary: bool, n: nat, rest: seq<Byte>, s5: seq<Byte>)
    requires g.maxvar < WORD && CountsFit(g)
    requires s5 == OptionalText(|g.bad|, |g.constraints|, |g.justice|, |g.fairness|, n) + [NEWLINE] + rest
    requires var r := ReadToken(Decimal(|g.ands|) + s5, ByEither);
      && r.Parsed? && r.value.num == |g.ands|
      && ReadOptional(r.value.space, r.rest) == Parsed(Optional(|g.bad|, |g.constraints|, |g.justice|, |g.fairness|), rest)
    ensures ReadCounts(binary, CountsText(g, n) + rest) == Parsed(HeaderOf(g, binary), rest)
  {
    hide Decimal, OptionalText, ReadOptional, ReadToken;
    var s4 := Decimal(|g.ands|) + s5;
    var s3 := Decimal(|g.outputs|) + ([SPACE] + s4);
    var s2 := Decimal(|g.latches|) + ([SPACE] + s3);
    var s1 := Decimal(|g.inputs|) + ([SPACE] + s2);
    assert CountsText(g, n) + rest == Decimal(g.maxvar) + ([SPACE] + s1);
    TokenRoundTrip(g.maxvar, BySpace, SPACE, s1);
    TokenRoundTrip(|g.inputs|, BySpace, SPACE, s2);
    TokenRoundTrip(|g.latches|, BySpace, SPACE, s3);
    TokenRoundTrip(|g.outputs|, BySpace, SPACE, s4);
  }

  function RootsText(g: Graph): seq<Byte> {
    ListText(g.outputs) + ListText(g.bad) + ListText(g.constraints)
    + ListText(Sizes(g.justice)) + RowsText(g.justice) + ListText(g.fairness)
  }

  lemma RangeRoundTrip(g: Graph, lits: seq<nat>, rest: seq<Byte>)
    requires WellFormed(g) && InRange(g, lits)
    ensures ReadList(|lits|, g.maxvar, [], ListText(lits) + rest) == Parsed(lits, rest)
  {
    RangeWords(g, lits);
    ListRoundTrip(lits, g.maxvar, [], rest);
    assert [] + lits == lits;
  }

  lemma RangeWords(g: Graph, lits: seq<nat>)
    requires 2 * g.maxvar + 1 < WORD && InRange(g, lits)
    ensures AllWords(lits)
  {
    forall i | 0 <= i < |lits| ensures lits[i] < WORD {
      assert Var(lits[i]) <= g.maxvar;
    }
  }

  lemma JusticeRoundTrip(t: Graph, g: Graph, rest: seq<Byte>)
    requires WellFormed(t) && CountsFit(t) && g.maxvar == t.maxvar && g.justice == []
    ensures ReadList(|t.justice|, WORD, [], ListText(Sizes(t.justice)) + (RowsText(t.justice) + rest))
            == Parsed(Sizes(t.justice), RowsText(t.justice) + rest)
    ensures ReadRows(Sizes(t.justice), g, RowsText(t.justice) + rest) == Parsed(g.(justice := t.justice), rest)
  {
    var z := Sizes(t.justice);
    ListRoundTrip(z, WORD, [], RowsText(t.justice) + rest);
    assert [] + z == z;
    forall i | 0 <= i < |t.justice|
      ensures AllWords(t.justice[i]) && ListWithin(g.maxvar, t.justice[i])
    {
      assert InRange(t, t.justice[i]);
      RangeWords(t, t.justice[i]);
    }
    RowsRoundTrip(t.justice, g, rest);
    assert [] + t.justice == t.justice;
  }

  lemma RootsRoundTrip(t: Graph, binary: bool, rest: seq<Byte>)
    requires WellFormed(t) && CountsFit(t)
    ensures ReadRoots(HeaderOf(t, binary), LatchesRead(t, |t.latches|), RootsText(t) + rest)
            == Parsed(t.(ands := []), rest)
  {
    hide WellFormed, CountsFit, ListText, RowsText, ReadList, ReadRows, Sizes;
    assert InRange(t, t.outputs) && InRange(t, t.bad) && InRange(t, t.constraints) && InRange(t, t.fairness) by {
      RootsInRange(t);
    }
    assert t.latches[..|t.latches|] == t.latches;
    var g := LatchesRead(t, |t.latches|).(outputs := t.outputs, bad := t.bad, constraints := t.constraints);
    var s5 := ListText(t.fairness) + rest;
    var s4 := RowsText(t.justice) + s5;
    var s3 := ListText(Sizes(t.justice)) + s4;
    var s2 := ListText(t.constraints) + s3;
    var s1 := ListText(t.bad) + s2;
    assert RootsText(t) + rest == ListText(t.outputs) + s1;
    RangeRoundTrip(t, t.outputs, s1);
    RangeRoundTrip(t, t.bad, s2);
    RangeRoundTrip(t, t.constraints, s3);
    JusticeRoundTrip(t, g, s5);
    RangeRoundTrip(t, t.fairness, rest);
    assert |Sizes(t.justice)| == |t.justice|;
  }

  lemma RootsInRange(t: Graph)
    requires WellFormed(t)
    ensures InRange(t, t.outputs) && InRange(t, t.bad) && InRange(t, t.constraints) && InRange(t, t.fairness)
  {
  }

  /** The numbering that the binary format takes for granted. */
  ghost predicate Numbered(t: Graph) {
    && (forall i :: 0 <= i < |t.inputs| ==> t.inputs[i] == 2 * (1 + i))
    && (forall i :: 0 <= i < |t.latches| ==> t.latches[i].lit == 2 * (1 + |t.inputs| + i))
  }

  lemma BodyRoundTrip(t: Graph, binary: bool, resets: set<nat>, rest: seq<Byte>)
    requires WellFormed(t) && CountsFit(t) && (binary ==> Numbered(t))
    ensures ReadBody(HeaderOf(t, binary), BodyText(t, binary, resets) + rest) == Parsed(t.(ands := []), rest)
  {
    hide WellFormed, CountsFit, ListText, RowsText, ReadInputs, ReadLatches, ReadRoots, Sizes, LatchesText;
    var h := HeaderOf(t, binary);
    var s2 := RootsText(t) + rest;
    var s1 := LatchesText(t.latches, binary, resets) + s2;
    assert t.inputs[..|t.inputs|] == t.inputs && t.inputs[0..] == t.inputs && t.inputs[..0] == [];
    assert t.latches[..0] == [] && t.latches[0..] == t.latches;
    assert BodyText(t, binary, resets) + rest == (if binary then [] else ListText(t.inputs)) + s1;
    if binary {
      assert FirstLits(|t.inputs|) == t.inputs;
      assert [] + s1 == s1;
    } else {
      InputsRoundTrip(t, 0, s1);
    }
    LatchesRoundTrip(h, t, 0, resets, s2);
    RootsRoundTrip(t, binary, rest);
  }

  lemma MagicRoundTrip(binary: bool, rest: seq<Byte>)
    ensures ReadMagic(MagicText(binary) + rest) == Parsed(binary, rest)
  {
    assert (MagicText(binary) + rest)[4..] == rest;
  }

  /** The common part of both formats. */
  lemma HeaderRoundTrip(t: Graph, binary: bool, v: Verbosity, rest: seq<Byte>)
    requires WellFormed(t) && CountsFit(t) && (binary ==> Numbered(t))
    ensures var s2 := BodyText(t, binary, v.resets) + rest;
      && ReadMagic(HeaderText(t, binary, v) + rest) == Parsed(binary, CountsText(t, v.counts) + s2)
      && ReadCounts(binary, CountsText(t, v.counts) + s2) == Parsed(HeaderOf(t, binary), s2)
      && ReadBody(HeaderOf(t, binary), s2) == Parsed(t.(ands := []), rest)
  {
    hide WellFormed, CountsFit, MagicText, CountsText, BodyText, ReadMagic, ReadCounts, ReadBody;
    var s2 := BodyText(t, binary, v.resets) + rest;
    assert HeaderText(t, binary, v) + rest == MagicText(binary) + (CountsText(t, v.counts) + s2);
    MagicRoundTrip(binary, CountsText(t, v.counts) + s2);
    CountsRoundTrip(t, binary, v.counts, s2);
    BodyRoundTrip(t, binary, v.resets, rest);
  }

  /** Text round trip: every well-formed graph is read back from its text, however verbose. */
  lemma AsciiRoundTrip(t: Graph, v: Verbosity)
    requires WellFormed(t) && CountsFit(t)
    ensures ReadFile(AsciiText(t, v)) == Parsed(t, [])
  {
    hide CountsFit, HeaderText, AndsText, ReadMagic, ReadCounts, ReadBody, ReadAsciiAnds, CountsText, BodyText, DefiningLit, Distinct, InRange;
    HeaderRoundTrip(t, false, v, AndsText(t.ands));
    assert t.ands[0..] == t.ands && t.ands[..0] == [];
    assert AndsText(t.ands) + [] == AndsText(t.ands);
    AndsRoundTrip(t, 0, []);
  }

  /** A graph in normal form uses at most maxvar variables. */
  lemma NormalFits(t: Graph)
    requires WellFormed(t) && InNormalForm(t)
    ensures |t.inputs| + |t.latches| + |t.ands| <= t.maxvar
  {
    if t.ands != [] {
      assert DefiningLit(t, t.ands[|t.ands| - 1].lhs);
    } else if t.latches != [] {
      assert DefiningLit(t, t.latches[|t.latches| - 1].lit);
    } else if t.inputs != [] {
      assert DefiningLit(t, t.inputs[|t.inputs| - 1]);
    }
  }

  /** Binary round trip: a graph in normal form is read back exactly when maxvar is tight. */
  lemma BinaryRoundTrip(t: Graph, v: Verbosity)
    requires WellFormed(t) && CountsFit(t) && InNormalForm(t)
    ensures ReadFile(BinaryText(t, v)) ==
      if t.maxvar == |t.inputs| + |t.latches| + |t.ands| then Parsed(t, []) else Failed(BadMaxvar)
  {
    hide CountsFit, HeaderText, DeltasText, ReadMagic, ReadCounts, ReadBody, ReadBinaryAnds, CountsText, BodyText, Distinct, InRange;
    HeaderRoundTrip(t, true, v, DeltasText(t.ands));
    NormalFits(t);
    assert t.ands[0..] == t.ands && t.ands[..0] == [];
    assert DeltasText(t.ands) + [] == DeltasText(t.ands);
    forall k | 0 <= k < |t.ands| ensures t.ands[k].lhs < WORD {
      assert DefiningLit(t, t.ands[k].lhs);
    }
    DeltasRoundTrip(t, 0, []);
  }

  // ---------------------------------------------------------------------------
  // The announced maximum
  // ---------------------------------------------------------------------------

  /** The maximum variable that the header announces. */
  function Announced(s: seq<Byte>): Parse<nat> {
    var (binary, s1) :- ReadMagic(s);
    var (h, s2) :- ReadCounts(binary, s1);
    Parsed(h.maxvar, s2)
  }

  /** Importing raises maxvar just as far as the literals ask for. */
  lemma {:induction false} ImportAllLeast(g: Graph, lits: seq<nat>, m: nat)
    ensures ImportAll(g, lits).maxvar <= m <==> g.maxvar <= m && ListWithin(m, lits)
    decreases |lits|
  {
    if lits != [] {
      var n := |lits| - 1;
      ImportAllLeast(g, lits[..n], m);
      assert lits == lits[..n] + [lits[n]];
    }
  }

  lemma JusticeInRange(g: Graph, row: seq<nat>)
    requires RowsWithin(g.maxvar, g.justice)
    ensures var g' := ImportAll(g, row).(justice := g.justice + [row]); RowsWithin(g'.maxvar, g'.justice)
  {
    var g' := ImportAll(g, row).(justice := g.justice + [row]);
    ImportAllLeast(g, row, g'.maxvar);
    forall i | 0 <= i < |g'.justice| ensures ListWithin(g'.maxvar, g'.justice[i]) {
      if i < |g.justice| {
        assert ListWithin(g.maxvar, g.justice[i]);
      }
    }
  }

  /** Reading justice properties leaves the least maxvar for the literals read. */
  lemma {:induction false} RowsLeast(sizes: seq<nat>, g: Graph, s: seq<Byte>, m: nat)
    requires ReadRows(sizes, g, s).Parsed? && RowsWithin(g.maxvar, g.justice)
    ensures var r := ReadRows(sizes, g, s).value;
      && g.justice <= r.justice
      && (r.maxvar <= m <==> g.maxvar <= m && RowsWithin(m, r.justice))
    decreases |sizes|
  {
    hide ReadList, ImportAll, ListWithin;
    if sizes != [] {
      var (row, s1) := ReadList(sizes[0], WORD, [], s).Extract();
      var g' := ImportAll(g, row).(justice := g.justice + [row]);
      JusticeInRange(g, row);
      ImportAllLeast(g, row, m);
      RowsLeast(sizes[1..], g', s1, m);
      var r := ReadRows(sizes, g, s).value;
      assert r.justice[|g.justice|] == g'.justice[|g.justice|] == row;
    } else if g.maxvar <= m {
      forall i | 0 <= i < |g.justice| ensures ListWithin(m, g.justice[i]) {
        WithinWider(g.maxvar, m, g.justice[i]);
      }
    }
  }

  lemma WithinWider(a: nat, b: nat, lits: seq<nat>)
    requires a <= b && ListWithin(a, lits)
    ensures ListWithin(b, lits)
  {
  }

  /** maxvar and the justice properties are the same. */
  predicate SameMaximum(g: Graph, h: Graph) {
    h.maxvar == g.maxvar && h.justice == g.justice
  }

  lemma {:induction false} InputsKeepMaximum(n: nat, g: Graph, s: seq<Byte>)
    requires ReadInputs(n, g, s).Parsed?
    ensures SameMaximum(g, ReadInputs(n, g, s).value)
    decreases n
  {
    hide ReadToken, CheckDefinition;
    if n > 0 {
      var (t, s1) := ReadToken(s, ByNewline).Extract();
      InputsKeepMaximum(n - 1, g.(inputs := g.inputs + [t.num]), s1);
    }
  }

  lemma {:induction false} LatchesKeepMaximum(n: nat, h: Header, g: Graph, s: seq<Byte>)
    requires ReadLatches(n, h, g, s).Parsed?
    ensures SameMaximum(g, ReadLatches(n, h, g, s).value)
    decreases n
  {
    hide ReadLatch;
    if n > 0 {
      var (l, s1) := ReadLatch(h, g, s).Extract();
      LatchesKeepMaximum(n - 1, h, g.(latches := g.latches + [l]), s1);
    }
  }

  lemma {:induction false} AsciiAndsKeepMaximum(n: nat, g: Graph, s: seq<Byte>)
    requires ReadAsciiAnds(n, g, s).Parsed?
    ensures SameMaximum(g, ReadAsciiAnds(n, g, s).value)
    decreases n
  {
    hide ReadAsciiAnd;
    if n > 0 {
      var (a, s1) := ReadAsciiAnd(g, s).Extract();
      AsciiAndsKeepMaximum(n - 1, g.(ands := g.ands + [a]), s1);
    }
  }

  lemma {:induction false} BinaryAndsKeepMaximum(n: nat, lhs: nat, g: Graph, s: seq<Byte>)
    requires ReadBinaryAnds(n, lhs, g, s).Parsed?
    ensures SameMaximum(g, ReadBinaryAnds(n, lhs, g, s).value)
    decreases n
  {
    hide ReadBinaryAnd;
    if n > 0 {
      var (a, s1) := ReadBinaryAnd(lhs + 2, s).Extract();
      BinaryAndsKeepMaximum(n - 1, lhs + 2, g.(ands := g.ands + [a]), s1);
    }
  }

  lemma RootsLeast(h: Header, g: Graph, s: seq<Byte>, m: nat)
    requires ReadRoots(h, g, s).Parsed? && g.justice == []
    ensures var r := ReadRoots(h, g, s).value; r.maxvar <= m <==> g.maxvar <= m && RowsWithin(m, r.justice)
  {
    hide ReadList, ReadRows, RowsWithin;
    var (o, s1) := ReadList(h.outputs, g.maxvar, [], s).Extract();
    var (b, s2) := ReadList(h.bad, g.maxvar, [], s1).Extract();
    var (c, s3) := ReadList(h.constraints, g.maxvar, [], s2).Extract();
    var (z, s4) := ReadList(h.justice, WORD, [], s3).Extract();
    NoRows(g.maxvar);
    RowsLeast(z, g.(outputs := o, bad := b, constraints := c), s4, m);
  }

  lemma NoRows(m: nat)
    ensures RowsWithin(m, [])
  {
  }

  lemma BodyLeast(h: Header, s: seq<Byte>, m: nat)
    requires ReadBody(h, s).Parsed?
    ensures var r := ReadBody(h, s).value; r.maxvar <= m <==> h.maxvar <= m && RowsWithin(m, r.justice)
  {
    hide ReadInputs, ReadLatches, ReadRoots, RowsWithin;
    var g := EMPTY.(maxvar := h.maxvar);
    if !h.binary {
      InputsKeepMaximum(h.inputs, g, s);
    }
    var (g1, s1) := (if h.binary then Parsed(g.(inputs := FirstLits(h.inputs)), s) else ReadInputs(h.inputs, g, s)).Extract();
    LatchesKeepMaximum(h.latches, h, g1, s1);
    var (g2, s2) := ReadLatches(h.latches, h, g1, s1).Extract();
    RootsLeast(h, g2, s2, m);
  }

  /** The maxvar of a file is the least that covers the announced one and the justice literals, which nothing checks. */
  lemma FileLeast(s: seq<Byte>, m: nat)
    requires ReadFile(s).Parsed?
    ensures Announced(s).Parsed?
    ensures var r := ReadFile(s).value; r.maxvar <= m <==> Announced(s).value <= m && RowsWithin(m, r.justice)
  {
    hide ReadMagic, ReadCounts, ReadBody, ReadAsciiAnds, ReadBinaryAnds, RowsWithin, CheckCounts, Huge;
    var (binary, s1) := ReadMagic(s).Extract();
    var (h, s2) := ReadCounts(binary, s1).Extract();
    BodyLeast(h, s2, m);
    var (g, s3) := ReadBody(h, s2).Extract();
    if binary {
      BinaryAndsKeepMaximum(h.ands, 2 * (h.inputs + h.latches), g, s3);
    } else {
      AsciiAndsKeepMaximum(h.ands, g, s3);
    }
  }

  /** A file keeps to its announced maximum exactly when its justice literals do. */
  lemma AnnouncedKept(s: seq<Byte>)
    requires ReadFile(s).Parsed?
    ensures Announced(s).Parsed? && Announced(s).value <= ReadFile(s).value.maxvar
    ensures var r := ReadFile(s).value; r.maxvar == Announced(s).value <==> RowsWithin(Announced(s).value, r.justice)
  {
    hide ReadFile, Announced, RowsWithin;
    FileLeast(s, ReadFile(s).value.maxvar);
    FileLeast(s, Announced(s).value);
  }

  // "aag 1 0 0 0 1 0 0 1", the size 1 and the literal 4 of a justice property, and the gate "4 1 1"

  const RAISEDGATES: seq<Byte> := [52, SPACE] + ([49, SPACE] + ([49, NEWLINE] + []))

  const RAISEDBODY: seq<Byte> := [49, NEWLINE] + ([52, NEWLINE] + RAISEDGATES)

  const RAISEDOPTIONAL: seq<Byte> := [48, SPACE] + ([48, SPACE] + ([49, NEWLINE] + RAISEDBODY))

  const RAISEDCOUNTS: seq<Byte> :=
    [49, SPACE] + ([48, SPACE] + ([48, SPACE] + ([48, SPACE] + ([49, SPACE] + RAISEDOPTIONAL))))

  /** A file that announces maximum 1 and has a justice literal and a gate of variable 2. */
  const RAISED: seq<Byte> := [97, 97, 103, SPACE] + RAISEDCOUNTS

  const RAISEDGRAPH := Graph(2, [], [], [], [], [], [[4]], [], [And(4, 1, 1)])

  /** A one-digit number and its separator. */
  lemma DigitRead(d: nat, f: Follow, b: Byte, rest: seq<Byte>)
    requires d < 10 && Follows(f, b)
    ensures ReadToken([48 + d, b] + rest, f) == Parsed(Token(d, b == SPACE), rest)
  {
    TokenRoundTrip(d, f, b, rest);
    assert Decimal(d) + ([b] + rest) == [48 + d, b] + rest;
  }

  lemma RaisedOptional()
    ensures ReadOptional(true, RAISEDOPTIONAL) == Parsed(Optional(0, 0, 1, 0), RAISEDBODY)
  {
    hide ReadToken;
    var s2: seq<Byte> := [49, NEWLINE] + RAISEDBODY;
    DigitRead(0, ByEither, SPACE, [48, SPACE] + s2);
    DigitRead(0, ByEither, SPACE, s2);
    DigitRead(1, ByEither, NEWLINE, RAISEDBODY);
  }

  lemma RaisedCounts()
    ensures ReadCounts(false, RAISEDCOUNTS) == Parsed(Header(false, 1, 0, 0, 0, 1, 0, 0, 1, 0), RAISEDBODY)
  {
    hide ReadToken, ReadOptional;
    var s5: seq<Byte> := [49, SPACE] + RAISEDOPTIONAL;
    var s4: seq<Byte> := [48, SPACE] + s5;
    var s3: seq<Byte> := [48, SPACE] + s4;
    DigitRead(1, BySpace, SPACE, [48, SPACE] + s3);
    DigitRead(0, BySpace, SPACE, s3);
    DigitRead(0, BySpace, SPACE, s4);
    DigitRead(0, BySpace, SPACE, s5);
    DigitRead(1, ByEither, SPACE, RAISEDOPTIONAL);
    RaisedOptional();
  }

  lemma OneRead(d: nat, bound: nat, rest: seq<Byte>)
    requires d < 10 && Var(d) <= bound
    ensures ReadList(1, bound, [], [48 + d, NEWLINE] + rest) == Parsed([d], rest)
  {
    DigitRead(d, ByNewline, NEWLINE, rest);
    assert [] + [d] == [d];
    assert ReadList(0, bound, [d], rest) == Parsed([d], rest);
  }

  lemma RaisedJustice(g: Graph)
    requires g == EMPTY.(maxvar := 1)
    ensures ReadRows([1], g, [52, NEWLINE] + RAISEDGATES) == Parsed(g.(maxvar := 2, justice := [[4]]), RAISEDGATES)
  {
    hide ReadList;
    OneRead(4, WORD, RAISEDGATES);
    assert [4][..0] == [];
    assert ImportAll(g, [4]) == g.(maxvar := 2);
    var g' := g.(maxvar := 2, justice := [[4]]);
    assert [] + [[4]] == [[4]];
    assert [1][1..] == [];
    assert ReadRows([], g', RAISEDGATES) == Parsed(g', RAISEDGATES);
  }

  lemma RaisedBody()
    ensures ReadBody(Header(false, 1, 0, 0, 0, 1, 0, 0, 1, 0), RAISEDBODY) == Parsed(RAISEDGRAPH.(ands := []), RAISEDGATES)
  {
    hide ReadToken, ReadList, ReadRows;
    var h, g := Header(false, 1, 0, 0, 0, 1, 0, 0, 1, 0), EMPTY.(maxvar := 1);
    OneRead(1, WORD, [52, NEWLINE] + RAISEDGATES);
    EmptyRead(1, RAISEDBODY);
    EmptyRead(2, RAISEDGATES);
    RaisedJustice(g);
    assert ReadRoots(h, g, RAISEDBODY) == Parsed(RAISEDGRAPH.(ands := []), RAISEDGATES);
    assert ReadInputs(0, g, RAISEDBODY) == Parsed(g, RAISEDBODY);
    assert ReadLatches(0, h, g, RAISEDBODY) == Parsed(g, RAISEDBODY);
  }

  lemma EmptyRead(bound: nat, s: seq<Byte>)
    ensures ReadList(0, bound, [], s) == Parsed([], s)
  {
  }

  lemma RaisedGates()
    ensures ReadAsciiAnds(1, RAISEDGRAPH.(ands := []), RAISEDGATES) == Parsed(RAISEDGRAPH, [])
  {
    hide ReadToken;
    var g := RAISEDGRAPH.(ands := []);
    var s1: seq<Byte> := [49, NEWLINE] + [];
    DigitRead(4, BySpace, SPACE, [49, SPACE] + s1);
    DigitRead(1, BySpace, SPACE, s1);
    DigitRead(1, ByNewline, NEWLINE, []);
    assert ReadAsciiAnd(g, RAISEDGATES) == Parsed(And(4, 1, 1), []);
    assert [] + [And(4, 1, 1)] == [And(4, 1, 1)];
    assert g.(ands := g.ands + [And(4, 1, 1)]) == RAISEDGRAPH;
    assert ReadAsciiAnds(0, RAISEDGRAPH, []) == Parsed(RAISEDGRAPH, []);
  }

  lemma RaisedWellFormed()
    ensures WellFormed(RAISEDGRAPH)
  {
  }

  lemma RaisedDefined()
    ensures EverythingDefined(RAISEDGRAPH)
  {
    var g := RAISEDGRAPH;
    assert IndexOf(AndLits(g.ands), 4) == 0 by {
      assert AndLits(g.ands)[0] == 4;
    }
    assert Defined(g, 4);
  }

  lemma RaisedAcyclic()
    ensures Acyclic(RAISEDGRAPH)
  {
    hide Cyclic;
    var g := RAISEDGRAPH;
    var adj := Gates(g, false);
    forall u: nat, v: nat ensures !Edge<nat>(adj, u, v) {
      assert u in adj ==> AndLits(g.ands)[AndAt(g, u)] == 2 * u;
    }
    DescendingAcyclic(adj);
  }

  lemma RaisedChecked()
    ensures Checked(RAISEDGRAPH)
  {
    hide WellFormed, EverythingDefined, Acyclic;
    RaisedWellFormed();
    RaisedDefined();
    RaisedAcyclic();
  }

  lemma RaisedBytes()
    ensures RAISED == Ascii("aag 1 0 0 0 1 0 0 1\n1\n4\n4 1 1\n")
  {
  }

  /** The literal of a justice property raises maxvar, and a gate above the announced maximum is accepted. */
  lemma RaisedInstance()
    ensures RAISED == Ascii("aag 1 0 0 0 1 0 0 1\n1\n4\n4 1 1\n")
    ensures Announced(RAISED) == Parsed(1, RAISEDBODY)
    ensures ReadFile(RAISED) == Parsed(RAISEDGRAPH, []) && Checked(RAISEDGRAPH)
  {
    hide ReadCounts, ReadBody, ReadAsciiAnds, Ascii;
    assert RAISED[4..] == RAISEDCOUNTS;
    RaisedBytes();
    RaisedCounts();
    RaisedBody();
    RaisedGates();
    RaisedChecked();
  }
}
