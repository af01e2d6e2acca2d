/**
 The readers of lib/aiger/aiger.c: a character at a time from a stream, building
 the graph through the adding operations and checking it at the end.
 */
module AigReader {
  import opened Wrappers
  import opened Words
  import opened Bytes
  import opened AigGraph
  import opened AigIndex
  import opened AigReencode
  import opened AigTable
  import opened AigFormat
  import Lib = Aiger

  const EOF: int := -1

  /** The stream with one character of look-ahead. */
  class Reader {
    var ch: int
    var rest: seq<Byte>

    predicate Valid()
      reads this
    {
      EOF <= ch < 256 && (ch == EOF ==> rest == [])
    }

    /** What is still to be read, look-ahead included. */
    function View(): seq<Byte>
      requires Valid()
      reads this
    {
      if ch == EOF then [] else [ch] + rest
    }

    constructor (data: seq<Byte>)
      ensures Valid() && View() == [SPACE] + data
    {
      ch := SPACE;
      rest := data;
    }

    method NextCh()
      requires Valid()
      modifies this
      ensures Valid()
      ensures View() == if old(View()) == [] then [] else old(View())[1..]
    {
      if rest == [] {
        ch := EOF;
      } else {
        ch := rest[0];
        rest := rest[1..];
      }
    }

    /** Reads a number whose first digit is the look-ahead. */
    method ReadNumber() returns (res: nat)
      requires Valid() && View() != [] && IsDigit(View()[0])
      modifies this
      ensures Valid()
      ensures (res, View()) == NumberFrom(0, old(View()))
    {
      ghost var s := View();
      assert ch == s[0];
      res := ch - 48;
      NextCh();
      while ch != EOF && IsDigit(ch)
        invariant Valid() && NumberFrom(res, View()) == NumberFrom(0, s)
        decreases |View()|
      {
        assert ch == View()[0];
        res := (10 * res + (ch - 48)) % WORD;
        NextCh();
      }
    }

    /** Reads a number and the separator behind it. */
    method ReadLiteral(f: Follow) returns (e: Option<ReadError>, t: Token)
      requires Valid()
      modifies this
      ensures Valid()
      ensures match ReadToken(old(View()), f)
        case Parsed(tok, r) => e == None && t == tok && View() == r
        case Failed(err) => e == Some(err)
      ensures t.num < WORD
    {
      t := Token(0, false);
      if ch == EOF || !IsDigit(ch) {
        return Some(ExpectedNumber), t;
      }
      ghost var s := View();
      assert s[0] == ch;
      var n := ReadNumber();
      NumberIsWord(s);
      if ch == EOF || !Follows(f, ch) {
        return Some(ExpectedSeparator), t;
      }
      assert View()[0] == ch;
      t := Token(n, ch == SPACE);
      NextCh();
      e := None;
    }

    /** Reads one difference of the binary format. */
    method ReadDifference() returns (e: Option<ReadError>, res: nat)
      requires Valid()
      modifies this
      ensures Valid()
      ensures match AigFormat.ReadDifference(old(View()))
        case Parsed(v, r) => e == None && res == v && View() == r
        case Failed(err) => e == Some(err)
    {
      hide OrShifted;
      ghost var s := View();
      res := 0;
      if ch == EOF {
        return Some(UnexpectedEof), res;
      }
      var i := 0;
      while ch >= 128
        invariant Valid() && ch != EOF && 0 <= i <= 5
        invariant DeltaFrom(View(), i, res) == ReadDelta(s)
        decreases |View()|
      {
        assert View()[0] == ch;
        if i == 5 {
          return Some(BadCode), res;
        }
        res := OrShifted(res, ch % 128, i);
        i := i + 1;
        NextCh();
        if ch == EOF {
          return Some(UnexpectedEof), res;
        }
      }
      assert View()[0] == ch;
      if i == 5 && ch >= 8 {
        return Some(BadCode), res;
      }
      if i == 5 {
        return Some(Overshifted), res;
      }
      res := OrShifted(res, ch, i);
      NextCh();
      e := None;
    }
  }

  lemma {:induction false} NumberIsWordFrom(acc: nat, s: seq<Byte>)
    requires acc < WORD
    ensures NumberFrom(acc, s).0 < WORD
    decreases |s|
  {
    if s != [] && IsDigit(s[0]) {
      NumberIsWordFrom((10 * acc + (s[0] - 48)) % WORD, s[1..]);
    }
  }

  lemma NumberIsWord(s: seq<Byte>)
    ensures NumberFrom(0, s).0 < WORD
  {
    NumberIsWordFrom(0, s);
  }

  // ---------------------------------------------------------------------------
  // Header
  // ---------------------------------------------------------------------------

  method ReadMagicInto(rd: Reader) returns (e: Option<ReadError>, binary: bool)
    requires rd.Valid() && rd.View() != []
    modifies rd
    ensures rd.Valid()
    ensures match ReadMagic(old(rd.View())[1..])
      case Parsed(b, r) => e == None && binary == b && rd.View() == r
      case Failed(err) => e == Some(err)
  {
    binary := false;
    ghost var s := rd.View()[1..];
    rd.NextCh();
    if rd.ch != 97 {
      return Some(BadMagic), binary;
    }
    assert s[0] == 97;
    rd.NextCh();
    assert rd.View() == s[1..];
    if rd.ch != 105 && rd.ch != 97 {
      assert |s| < 2 || s[1] == rd.ch;
      return Some(BadMagic), binary;
    }
    assert s[1] == rd.ch;
    binary := rd.ch == 105;
    rd.NextCh();
    assert rd.View() == s[2..];
    if rd.ch != 103 {
      assert |s| < 3 || s[2] == rd.ch;
      return Some(BadMagic), binary;
    }
    assert s[2] == rd.ch;
    rd.NextCh();
    assert rd.View() == s[3..];
    if rd.ch != SPACE {
      assert |s| < 4 || s[3] == rd.ch;
      return Some(BadMagic), binary;
    }
    assert s[3] == rd.ch;
    rd.NextCh();
    assert rd.View() == s[4..];
    e := None;
  }

  method ReadOptionalInto(space: bool, rd: Reader) returns (e: Option<ReadError>, x: Optional)
    requires rd.Valid()
    modifies rd
    ensures rd.Valid()
    ensures match ReadOptional(space, old(rd.View()))
      case Parsed(o, r) => e == None && x == o && rd.View() == r
      case Failed(err) => e == Some(err)
  {
    hide ReadToken;
    x := Optional(0, 0, 0, 0);
    e := None;
    if space {
      var t;
      e, t := rd.ReadLiteral(ByEither);
      if e.Some? {
        return;
      }
      x := x.(bad := t.num);
      if t.space {
        e, t := rd.ReadLiteral(ByEither);
        if e.Some? {
          return;
        }
        x := x.(constraints := t.num);
        if t.space {
          e, t := rd.ReadLiteral(ByEither);
          if e.Some? {
            return;
          }
          x := x.(justice := t.num);
          if t.space {
            e, t := rd.ReadLiteral(ByNewline);
            if e.Some? {
              return;
            }
            x := x.(fairness := t.num);
          }
        }
      }
    }
  }

  method ReadCountsInto(binary: bool, rd: Reader) returns (e: Option<ReadError>, h: Header)
    requires rd.Valid()
    modifies rd
    ensures rd.Valid()
    ensures h.binary == binary
    ensures match ReadCounts(binary, old(rd.View()))
      case Parsed(x, r) => e == None && h == x && rd.View() == r
      case Failed(err) => e == Some(err)
  {
    hide ReadToken, ReadOptional;
    h := Header(binary, 0, 0, 0, 0, 0, 0, 0, 0, 0);
    var t;
    e, t := rd.ReadLiteral(BySpace);
    if e.Some? {
      return;
    }
    h := h.(maxvar := t.num);
    e, t := rd.ReadLiteral(BySpace);
    if e.Some? {
      return;
    }
    h := h.(inputs := t.num);
    e, t := rd.ReadLiteral(BySpace);
    if e.Some? {
      return;
    }
    h := h.(latches := t.num);
    e, t := rd.ReadLiteral(BySpace);
    if e.Some? {
      return;
    }
    h := h.(outputs := t.num);
    e, t := rd.ReadLiteral(ByEither);
    if e.Some? {
      return;
    }
    h := h.(ands := t.num);
    var x;
    e, x := ReadOptionalInto(t.space, rd);
    h := h.(bad := x.bad, constraints := x.constraints, justice := x.justice, fairness := x.fairness);
  }

  // ---------------------------------------------------------------------------
  // Tables
  // ---------------------------------------------------------------------------

  /** The graph under construction: consistent, with a clean index. */
  ghost predicate Building(a: Lib.Aiger)
    reads a
  {
    a.Valid() && Clean(a.public, a.types) && a.types != []
  }

  /** The tests before a literal may define an input, a latch or a gate. */
  method CheckDefinitionIn(a: Lib.Aiger, lit: nat) returns (e: Option<ReadError>)
    requires Building(a)
    ensures match e
      case None => CheckDefinition(a.public, lit) == [] && DefiningLit(a.public, lit) && Unused(a.types, Var(lit))
      case Some(err) => CheckDefinition(a.public, lit) == [err]
  {
    hide Consistent, Taken, Clean;
    if lit == 0 || lit % 2 == 1 || Var(lit) > a.public.maxvar {
      return Some(InvalidDefinition);
    }
    TakenFlags(a.public, a.types, lit);
    var t := a.types[Var(lit)];
    if t.input || t.latch || t.and {
      return Some(AlreadyDefined);
    }
    e := None;
  }

  /** The index answers whether a literal is taken. */
  lemma TakenFlags(g: Graph, types: seq<TypeInfo>, lit: nat)
    requires Consistent(g, types) && DefiningLit(g, lit) && types != []
    ensures Var(lit) < |types|
    ensures Taken(g, lit) <==> types[Var(lit)].input || types[Var(lit)].latch || types[Var(lit)].and
  {
    hide WellFormed, Settled, NoneOpen, MarksDefined;
    Lookup(g, types, Var(lit));
  }

  method ReadInputsInto(a: Lib.Aiger, rd: Reader, n: nat) returns (e: Option<ReadError>)
    requires Building(a) && rd.Valid()
    modifies a`public, a`types, rd
    ensures rd.Valid()
    ensures match ReadInputs(n, old(a.public), old(rd.View()))
      case Parsed(g, r) => e == None && Building(a) && a.public == g && rd.View() == r
      case Failed(err) => e == Some(err)
  {
    hide Consistent, Clean, ReadToken, CheckDefinition;
    ghost var g0, s0 := a.public, rd.View();
    var i := 0;
    while i < n
      invariant 0 <= i <= n && Building(a) && rd.Valid()
      invariant ReadInputs(n - i, a.public, rd.View()) == ReadInputs(n, g0, s0)
    {
      var t;
      e, t := rd.ReadLiteral(ByNewline);
      if e.Some? {
        return;
      }
      e := CheckDefinitionIn(a, t.num);
      if e.Some? {
        return;
      }
      ghost var g := a.public;
      a.AddInput(t.num);
      assert a.public == g.(inputs := g.inputs + [t.num]);
      i := i + 1;
    }
    e := None;
  }

  /** Importing a literal in range changes nothing. */
  lemma ImportIdle(g: Graph, lit: nat)
    requires Var(lit) <= g.maxvar
    ensures Import(g, lit) == g
  {
  }

  // ---------------------------------------------------------------------------
  // Latches
  // ---------------------------------------------------------------------------

  /** The numbering that the binary format implies, as far as the tables are read. */
  ghost predicate Implied(h: Header, g: Graph) {
    && g.inputs == FirstLits(h.inputs)
    && (forall k :: 0 <= k < |g.latches| ==> g.latches[k].lit == 2 * (1 + h.inputs + k))
    && (forall k :: 0 <= k < |g.ands| ==> g.ands[k].lhs == 2 * (1 + h.inputs + h.latches + k))
    && h.inputs + h.latches + h.ands <= g.maxvar
  }

  lemma NextLatchFree(h: Header, g: Graph, types: seq<TypeInfo>)
    requires Consistent(g, types) && types != [] && Implied(h, g) && |g.latches| < h.latches && g.ands == []
    ensures var lit := 2 * (|g.latches| + h.inputs + 1);
      DefiningLit(g, lit) && Unused(types, Var(lit)) && lit < WORD
  {
    hide Settled, NoneOpen, MarksDefined, Indexed;
    var lit := 2 * (|g.latches| + h.inputs + 1);
    assert !Taken(g, lit);
    TakenFlags(g, types, lit);
  }

  lemma NextAndFree(h: Header, g: Graph, types: seq<TypeInfo>)
    requires Consistent(g, types) && types != [] && Implied(h, g) && |g.latches| == h.latches && |g.ands| < h.ands
    ensures var lit := 2 * (1 + h.inputs + h.latches + |g.ands|);
      DefiningLit(g, lit) && Unused(types, Var(lit)) && lit < WORD
  {
    hide Settled, NoneOpen, MarksDefined, Indexed;
    var lit := 2 * (1 + h.inputs + h.latches + |g.ands|);
    assert !Taken(g, lit);
    TakenFlags(g, types, lit);
  }

  /** The latch added last is found through the index. */
  lemma LastLatch(g: Graph, types: seq<TypeInfo>)
    requires Consistent(g, types) && types != [] && g.latches != []
    ensures var i := |g.latches| - 1;
      var v := Var(g.latches[i].lit);
      v < |types| && types[v].latch && LatchAt(g, v) == i && g.latches[i].lit == 2 * v != 0
  {
    hide Settled, NoneOpen, MarksDefined;
    LatchPosition(g, |g.latches| - 1);
    assert DefiningLit(g, g.latches[|g.latches| - 1].lit);
  }

  method ReadLatchLitInto(a: Lib.Aiger, rd: Reader, h: Header, i: nat) returns (e: Option<ReadError>, lit: nat)
    requires Building(a) && rd.Valid() && i == |a.public.latches| < h.latches
    requires h.binary ==> Implied(h, a.public) && a.public.ands == []
    modifies rd
    ensures rd.Valid()
    ensures match ReadLatchLit(h, a.public, old(rd.View()))
      case Parsed(l, r) =>
        && e == None && lit == l && rd.View() == r && lit < WORD
        && DefiningLit(a.public, lit) && Unused(a.types, Var(lit)) && (h.binary ==> lit == 2 * (1 + h.inputs + i))
      case Failed(err) => e == Some(err)
  {
    hide Consistent, Clean, ReadToken, CheckDefinition, Implied;
    if h.binary {
      lit := 2 * (i + h.inputs + 1);
      NextLatchFree(h, a.public, a.types);
      e := None;
    } else {
      var t;
      e, t := rd.ReadLiteral(BySpace);
      lit := t.num;
      if e.None? {
        e := CheckDefinitionIn(a, lit);
      }
    }
  }

  /** The reset of the latch added last. */
  method ReadResetInto(a: Lib.Aiger, rd: Reader, lit: Word, next: nat, space: bool, ghost g: Graph) returns (e: Option<ReadError>)
    requires Building(a) && rd.Valid() && a.public == g.(latches := g.latches + [Latch(lit, next, 0)])
    modifies a`public, a`types, rd
    ensures rd.Valid()
    ensures match ReadReset(lit, space, old(rd.View()))
      case Parsed(reset, r) =>
        && e == None && Building(a) && rd.View() == r
        && a.public == g.(latches := g.latches + [Latch(lit, next, reset)])
      case Failed(err) => e == Some(err)
  {
    hide Consistent, Clean, ReadToken;
    e := None;
    if space {
      var reset;
      e, reset := rd.ReadLiteral(ByNewline);
      if e.Some? {
        return;
      }
      if !(reset.num <= 1 || reset.num == lit) {
        return Some(BadReset);
      }
      LastLatch(a.public, a.types);
      CleanClears(a.public, a.types, Var(lit));
      a.AddReset(lit, reset.num);
    }
  }

  method ReadLatchInto(a: Lib.Aiger, rd: Reader, h: Header, i: nat) returns (e: Option<ReadError>)
    requires Building(a) && rd.Valid() && i == |a.public.latches| < h.latches
    requires h.binary ==> Implied(h, a.public) && a.public.ands == []
    modifies a`public, a`types, rd
    ensures rd.Valid()
    ensures match ReadLatch(h, old(a.public), old(rd.View()))
      case Parsed(l, r) =>
        && e == None && Building(a) && rd.View() == r
        && a.public == old(a.public).(latches := old(a.public).latches + [l])
        && (h.binary ==> l.lit == 2 * (1 + h.inputs + i))
      case Failed(err) => e == Some(err)
  {
    hide Consistent, Clean, ReadToken, ReadLatchLit, ReadReset, Implied;
    ghost var g := a.public;
    var lit, next;
    e, lit := ReadLatchLitInto(a, rd, h, i);
    if e.Some? {
      return;
    }
    e, next := rd.ReadLiteral(ByEither);
    if e.Some? {
      return;
    }
    if Var(next.num) > a.public.maxvar {
      return Some(InvalidLiteral);
    }
    ImportIdle(g, lit);
    ImportIdle(g, next.num);
    a.AddLatch(lit, next.num);
    e := ReadResetInto(a, rd, lit, next.num, next.space, g);
  }

  method ReadLatchesInto(a: Lib.Aiger, rd: Reader, h: Header) returns (e: Option<ReadError>)
    requires Building(a) && rd.Valid() && a.public.latches == [] && a.public.ands == []
    requires h.binary ==> Implied(h, a.public)
    modifies a`public, a`types, rd
    ensures rd.Valid()
    ensures match ReadLatches(h.latches, h, old(a.public), old(rd.View()))
      case Parsed(g, r) =>
        && e == None && Building(a) && a.public == g && rd.View() == r
        && g == old(a.public).(latches := g.latches) && |g.latches| == h.latches
        && (h.binary ==> Implied(h, g))
      case Failed(err) => e == Some(err)
  {
    hide Consistent, Clean, ReadLatch, Implied;
    ghost var g0, s0 := a.public, rd.View();
    var i := 0;
    while i < h.latches
      invariant 0 <= i <= h.latches && Building(a) && rd.Valid() && i == |a.public.latches|
      invariant a.public == g0.(latches := a.public.latches)
      invariant h.binary ==> Implied(h, a.public)
      invariant ReadLatches(h.latches - i, h, a.public, rd.View()) == ReadLatches(h.latches, h, g0, s0)
    {
      ghost var g := a.public;
      e := ReadLatchInto(a, rd, h, i);
      if e.Some? {
        return;
      }
      if h.binary {
        ImpliedLatch(h, g, a.public);
      }
      i := i + 1;
    }
    e := None;
  }

  lemma ImpliedLatch(h: Header, g: Graph, g': Graph)
    requires Implied(h, g) && |g'.latches| == |g.latches| + 1
    requires g' == g.(latches := g.latches + [g'.latches[|g.latches|]])
    requires g'.latches[|g.latches|].lit == 2 * (1 + h.inputs + |g.latches|)
    ensures Implied(h, g')
  {
  }

  // ---------------------------------------------------------------------------
  // Outputs and properties
  // ---------------------------------------------------------------------------

  datatype Section = Outputs | BadStates | Constraints | Fairness

  function SectionOf(g: Graph, k: Section): seq<nat> {
    match k
    case Outputs => g.outputs
    case BadStates => g.bad
    case Constraints => g.constraints
    case Fairness => g.fairness
  }

  function WithSection(g: Graph, k: Section, lits: seq<nat>): Graph {
    match k
    case Outputs => g.(outputs := lits)
    case BadStates => g.(bad := lits)
    case Constraints => g.(constraints := lits)
    case Fairness => g.(fairness := lits)
  }

  method AddTo(a: Lib.Aiger, k: Section, lit: Word)
    requires Building(a)
    modifies a`public, a`types
    ensures Building(a)
    ensures a.public == WithSection(Import(old(a.public), lit), k, SectionOf(old(a.public), k) + [lit])
  {
    hide Consistent, Clean;
    CleanClears(a.public, a.types, Var(lit));
    match k {
      case Outputs => a.AddOutput(lit);
      case BadStates => a.AddBad(lit);
      case Constraints => a.AddConstraint(lit);
      case Fairness => a.AddFairness(lit);
    }
  }

  /** The loop that reads outputs, bad states, constraints or fairness literals. */
  method ReadSectionInto(a: Lib.Aiger, rd: Reader, k: Section, n: nat) returns (e: Option<ReadError>)
    requires Building(a) && rd.Valid() && SectionOf(a.public, k) == []
    modifies a`public, a`types, rd
    ensures rd.Valid()
    ensures match ReadList(n, old(a.public).maxvar, [], old(rd.View()))
      case Parsed(ls, r) => e == None && Building(a) && a.public == WithSection(old(a.public), k, ls) && rd.View() == r
      case Failed(err) => e == Some(err)
  {
    hide Consistent, Clean, ReadToken;
    ghost var g0, s0 := a.public, rd.View();
    ghost var acc: seq<nat> := [];
    assert WithSection(g0, k, []) == g0;
    var i := 0;
    while i < n
      invariant 0 <= i <= n && Building(a) && rd.Valid()
      invariant a.public == WithSection(g0, k, acc)
      invariant ReadList(n - i, g0.maxvar, acc, rd.View()) == ReadList(n, g0.maxvar, [], s0)
    {
      var t;
      e, t := rd.ReadLiteral(ByNewline);
      if e.Some? {
        return;
      }
      if Var(t.num) > a.public.maxvar {
        return Some(InvalidLiteral);
      }
      ImportIdle(a.public, t.num);
      AddTo(a, k, t.num);
      acc := acc + [t.num];
      i := i + 1;
    }
    e := None;
  }

  /** Numbers, one a line, into a temporary buffer. */
  method ReadBuffer(rd: Reader, n: nat) returns (e: Option<ReadError>, lits: seq<Word>)
    requires rd.Valid()
    modifies rd
    ensures rd.Valid()
    ensures match ReadList(n, WORD, [], old(rd.View()))
      case Parsed(ls, r) => e == None && lits == ls && rd.View() == r
      case Failed(err) => e == Some(err)
  {
    hide ReadToken;
    ghost var s0 := rd.View();
    lits := [];
    var i := 0;
    while i < n
      invariant 0 <= i <= n && rd.Valid()
      invariant ReadList(n - i, WORD, lits, rd.View()) == ReadList(n, WORD, [], s0)
    {
      var t;
      e, t := rd.ReadLiteral(ByNewline);
      if e.Some? {
        return;
      }
      lits := lits + [t.num];
      i := i + 1;
    }
    e := None;
  }

  /** The justice properties: all sizes, then the literals property by property. */
  method ReadJusticeInto(a: Lib.Aiger, rd: Reader, n: nat) returns (e: Option<ReadError>)
    requires Building(a) && rd.Valid()
    modifies a`public, a`types, rd
    ensures rd.Valid()
    ensures match ReadList(n, WORD, [], old(rd.View()))
      case Failed(err) => e == Some(err)
      case Parsed(z, r) =>
        match ReadRows(z, old(a.public), r)
        case Parsed(g, r') =>
          && e == None && Building(a) && a.public == g && rd.View() == r' && OnlyJustice(old(a.public), g)
          && (RowsWithin(old(a.public).maxvar, old(a.public).justice) ==>
                (g.maxvar == old(a.public).maxvar <==> RowsWithin(old(a.public).maxvar, g.justice)))
        case Failed(err) => e == Some(err)
  {
    hide Consistent, Clean, ReadList, ImportAll, RowsWithin;
    var sizes;
    e, sizes := ReadBuffer(rd, n);
    if e.Some? {
      return;
    }
    ghost var g0, s0 := a.public, rd.View();
    var i := 0;
    assert sizes[0..] == sizes;
    while i < |sizes|
      invariant 0 <= i <= |sizes| && Building(a) && rd.Valid() && OnlyJustice(g0, a.public)
      invariant ReadRows(sizes[i..], a.public, rd.View()) == ReadRows(sizes, g0, s0)
    {
      assert sizes[i..][1..] == sizes[i + 1..];
      var lits;
      e, lits := ReadBuffer(rd, sizes[i]);
      if e.Some? {
        return;
      }
      ImportGrows(a.public, lits);
      forall j | 0 <= j < |lits| ensures ClearTo(a.public, a.types, Var(lits[j])) {
        CleanClears(a.public, a.types, Var(lits[j]));
      }
      a.AddJustice(lits);
      i := i + 1;
    }
    if RowsWithin(g0.maxvar, g0.justice) {
      RowsLeast(sizes, g0, s0, g0.maxvar);
    }
    e := None;
  }

  /** Only the justice properties, and possibly maxvar upwards, differ. */
  predicate OnlyJustice(g: Graph, h: Graph) {
    g.maxvar <= h.maxvar && h == g.(maxvar := h.maxvar, justice := h.justice)
  }

  lemma {:induction false} ImportGrows(g: Graph, lits: seq<nat>)
    ensures g.maxvar <= ImportAll(g, lits).maxvar
    decreases |lits|
  {
    if lits != [] {
      ImportGrows(g, lits[..|lits| - 1]);
    }
  }

  method ReadRootsInto(a: Lib.Aiger, rd: Reader, h: Header) returns (e: Option<ReadError>)
    requires Building(a) && rd.Valid()
    requires a.public.outputs == [] && a.public.bad == [] && a.public.constraints == [] && a.public.fairness == []
    modifies a`public, a`types, rd
    ensures rd.Valid()
    ensures match ReadRoots(h, old(a.public), old(rd.View()))
      case Parsed(g, r) =>
        && e == None && Building(a) && a.public == g && rd.View() == r
        && g.maxvar >= old(a.public).maxvar && g.inputs == old(a.public).inputs
        && g.latches == old(a.public).latches && g.ands == old(a.public).ands
      case Failed(err) => e == Some(err)
  {
    hide Consistent, Clean, ReadList, ReadRows, Building;
    e := ReadSectionInto(a, rd, Outputs, h.outputs);
    if e.Some? {
      return;
    }
    e := ReadSectionInto(a, rd, BadStates, h.bad);
    if e.Some? {
      return;
    }
    e := ReadSectionInto(a, rd, Constraints, h.constraints);
    if e.Some? {
      return;
    }
    e := ReadJusticeInto(a, rd, h.justice);
    if e.Some? {
      return;
    }
    e := ReadSectionInto(a, rd, Fairness, h.fairness);
  }

  // ---------------------------------------------------------------------------
  // Gates and the whole file
  // ---------------------------------------------------------------------------

  method ReadAsciiAndInto(a: Lib.Aiger, rd: Reader) returns (e: Option<ReadError>)
    requires Building(a) && rd.Valid()
    modifies a`public, a`types, rd
    ensures rd.Valid()
    ensures match ReadAsciiAnd(old(a.public), old(rd.View()))
      case Parsed(c, r) => e == None && Building(a) && rd.View() == r && a.public == old(a.public).(ands := old(a.public).ands + [c])
      case Failed(err) => e == Some(err)
  {
    hide Consistent, Clean, ReadToken, CheckDefinition;
    var lhs, rhs0, rhs1;
    e, lhs := rd.ReadLiteral(BySpace);
    if e.Some? {
      return;
    }
    e := CheckDefinitionIn(a, lhs.num);
    if e.Some? {
      return;
    }
    e, rhs0 := rd.ReadLiteral(BySpace);
    if e.Some? {
      return;
    }
    if Var(rhs0.num) > a.public.maxvar {
      return Some(InvalidLiteral);
    }
    e, rhs1 := rd.ReadLiteral(ByNewline);
    if e.Some? {
      return;
    }
    if Var(rhs1.num) > a.public.maxvar {
      return Some(InvalidLiteral);
    }
    ImportIdle(a.public, lhs.num);
    ImportIdle(a.public, rhs0.num);
    ImportIdle(a.public, rhs1.num);
    a.AddAnd(lhs.num, rhs0.num, rhs1.num);
  }

  method ReadAsciiAndsInto(a: Lib.Aiger, rd: Reader, n: nat) returns (e: Option<ReadError>)
    requires Building(a) && rd.Valid()
    modifies a`public, a`types, rd
    ensures rd.Valid()
    ensures match ReadAsciiAnds(n, old(a.public), old(rd.View()))
      case Parsed(g, r) => e == None && Building(a) && a.public == g && rd.View() == r
      case Failed(err) => e == Some(err)
  {
    hide Building, ReadAsciiAnd;
    ghost var g0, s0 := a.public, rd.View();
    var i := 0;
    while i < n
      invariant 0 <= i <= n && Building(a) && rd.Valid()
      invariant ReadAsciiAnds(n - i, a.public, rd.View()) == ReadAsciiAnds(n, g0, s0)
    {
      e := ReadAsciiAndInto(a, rd);
      if e.Some? {
        return;
      }
      i := i + 1;
    }
    e := None;
  }

  method ReadBinaryAndInto(a: Lib.Aiger, rd: Reader, h: Header, lhs: nat) returns (e: Option<ReadError>)
    requires Building(a) && rd.Valid() && Implied(h, a.public) && |a.public.latches| == h.latches
    requires |a.public.ands| < h.ands && lhs == 2 * (1 + h.inputs + h.latches + |a.public.ands|)
    modifies a`public, a`types, rd
    ensures rd.Valid()
    ensures match ReadBinaryAnd(lhs, old(rd.View()))
      case Parsed(c, r) =>
        && e == None && Building(a) && rd.View() == r && c.lhs == lhs
        && a.public == old(a.public).(ands := old(a.public).ands + [c])
      case Failed(err) => e == Some(err)
  {
    hide Consistent, Clean, AigFormat.ReadDifference, Implied;
    NextAndFree(h, a.public, a.types);
    var d0, d1;
    e, d0 := rd.ReadDifference();
    if e.Some? {
      return;
    }
    if d0 > lhs {
      return Some(BadDelta);
    }
    var rhs0 := lhs - d0;
    e, d1 := rd.ReadDifference();
    if e.Some? {
      return;
    }
    if d1 > rhs0 {
      return Some(BadDelta);
    }
    var rhs1 := rhs0 - d1;
    ImportIdle(a.public, lhs);
    ImportIdle(a.public, rhs0);
    ImportIdle(a.public, rhs1);
    a.AddAnd(lhs, rhs0, rhs1);
  }

  lemma ImpliedAnd(h: Header, g: Graph, c: And)
    requires Implied(h, g) && c.lhs == 2 * (1 + h.inputs + h.latches + |g.ands|)
    ensures Implied(h, g.(ands := g.ands + [c]))
  {
  }

  lemma ImpliedTop(h: Header, g: Graph, m: nat)
    requires Implied(h, g) && |g.latches| == h.latches
    requires forall i :: 0 <= i < |g.inputs| ==> g.inputs[i] <= m
    requires forall i :: 0 <= i < |g.latches| ==> g.latches[i].lit <= m
    requires m == 0 || m in g.inputs || m in LatchLits(g.latches)
    ensures m == 2 * (h.inputs + h.latches)
  {
    TopDefined(g, m);
  }

  method ReadBinaryAndsInto(a: Lib.Aiger, rd: Reader, h: Header) returns (e: Option<ReadError>)
    requires Building(a) && rd.Valid() && Implied(h, a.public) && |a.public.latches| == h.latches && a.public.ands == []
    modifies a`public, a`types, rd
    ensures rd.Valid()
    ensures match ReadBinaryAnds(h.ands, 2 * (h.inputs + h.latches), old(a.public), old(rd.View()))
      case Parsed(g, r) => e == None && Building(a) && a.public == g && rd.View() == r
      case Failed(err) => e == Some(err)
  {
    hide Building, ReadBinaryAnd, Implied;
    ghost var g0, s0 := a.public, rd.View();
    var lhs := a.MaxInputOrLatch();
    ImpliedTop(h, g0, lhs);
    var i := 0;
    while i < h.ands
      invariant 0 <= i <= h.ands && Building(a) && rd.Valid()
      invariant Implied(h, a.public) && |a.public.latches| == h.latches && |a.public.ands| == i
      invariant lhs == 2 * (h.inputs + h.latches + i)
      invariant ReadBinaryAnds(h.ands - i, lhs, a.public, rd.View()) == ReadBinaryAnds(h.ands, 2 * (h.inputs + h.latches), g0, s0)
    {
      ghost var g := a.public;
      lhs := lhs + 2;
      e := ReadBinaryAndInto(a, rd, h, lhs);
      if e.Some? {
        return;
      }
      ImpliedAnd(h, g, a.public.ands[i]);
      i := i + 1;
    }
    e := None;
  }

  datatype Outcome = Fine | ReadFailed(error: ReadError) | CheckFailed(reason: Lib.Error)

  lemma ImpliedStart(h: Header)
    requires h.inputs + h.latches + h.ands == h.maxvar
    ensures Implied(h, EMPTY.(maxvar := h.maxvar, inputs := FirstLits(h.inputs)))
  {
  }

  lemma ImpliedKept(h: Header, g: Graph, g': Graph)
    requires Implied(h, g) && g.maxvar <= g'.maxvar && g.inputs == g'.inputs && g.latches == g'.latches && g.ands == g'.ands
    ensures Implied(h, g')
  {
  }

  /** Inputs of the binary format: they are implied, not read. */
  method AddImpliedInputs(a: Lib.Aiger, h: Header)
    requires Building(a) && a.public == EMPTY.(maxvar := h.maxvar) && h.inputs <= h.maxvar
    modifies a`public, a`types
    ensures Building(a) && a.public == EMPTY.(maxvar := h.maxvar, inputs := FirstLits(h.inputs))
  {
    hide Consistent, Clean;
    var i := 0;
    while i < h.inputs
      invariant 0 <= i <= h.inputs && Building(a)
      invariant a.public == EMPTY.(maxvar := h.maxvar, inputs := FirstLits(i))
    {
      var lit := 2 * (i + 1);
      NextInputFree(a.public, a.types, i);
      ImportIdle(a.public, lit);
      a.AddInput(lit);
      assert FirstLits(i) + [lit] == FirstLits(i + 1);
      i := i + 1;
    }
  }

  lemma NextInputFree(g: Graph, types: seq<TypeInfo>, i: nat)
    requires Consistent(g, types) && types != [] && g == EMPTY.(maxvar := g.maxvar, inputs := FirstLits(i)) && i < g.maxvar
    ensures DefiningLit(g, 2 * (i + 1)) && Unused(types, i + 1) && 2 * (i + 1) < WORD
  {
    hide Settled, NoneOpen, MarksDefined, Indexed;
    assert !Taken(g, 2 * (i + 1));
    TakenFlags(g, types, 2 * (i + 1));
  }

  method ReadBodyInto(a: Lib.Aiger, rd: Reader, h: Header) returns (e: Option<ReadError>)
    requires Building(a) && rd.Valid() && a.public == EMPTY.(maxvar := h.maxvar)
    requires h.binary ==> h.inputs + h.latches + h.ands == h.maxvar
    modifies a`public, a`types, rd
    ensures rd.Valid()
    ensures match ReadBody(h, old(rd.View()))
      case Parsed(g, r) =>
        && e == None && Building(a) && a.public == g && rd.View() == r
        && (h.binary ==> Implied(h, g) && |g.latches| == h.latches && g.ands == [])
      case Failed(err) => e == Some(err)
  {
    hide Building, ReadInputs, ReadLatches, ReadRoots, Implied;
    if h.binary {
      AddImpliedInputs(a, h);
      ImpliedStart(h);
    } else {
      ghost var g0, s0 := a.public, rd.View();
      e := ReadInputsInto(a, rd, h.inputs);
      if e.Some? {
        return;
      }
      InputsOnly(h.inputs, g0, s0);
    }
    e := ReadLatchesInto(a, rd, h);
    if e.Some? {
      return;
    }
    ghost var g := a.public;
    e := ReadRootsInto(a, rd, h);
    if e.None? && h.binary {
      ImpliedKept(h, g, a.public);
    }
  }

  lemma {:induction false} InputsOnly(n: nat, g: Graph, s: seq<Byte>)
    ensures match ReadInputs(n, g, s)
      case Parsed(g', _) => g' == g.(inputs := g'.inputs)
      case Failed(_) => true
    decreases n
  {
    if n > 0 {
      var r := ReadToken(s, ByNewline);
      if r.Parsed? && CheckDefinition(g, r.value.num) == [] {
        InputsOnly(n - 1, g.(inputs := g.inputs + [r.value.num]), r.rest);
      }
    }
  }

  /** Reads a file into an empty library object and checks the result. */
  method ReadGeneric(a: Lib.Aiger, data: seq<Byte>) returns (o: Outcome)
    requires a.Valid() && Clean(a.public, a.types) && a.public == EMPTY
    modifies a
    ensures match ReadFile(data)
      case Failed(err) => o == ReadFailed(err)
      case Parsed(g, _) => a.public == g && (if Checked(g) then o == Fine && a.Valid() else o.CheckFailed?)
  {
    hide Consistent, Clean, ReadMagic, ReadCounts, ReadBody, ReadAsciiAnds, ReadBinaryAnds, Implied, Checked;
    var rd := new Reader(data);
    var e, binary := ReadMagicInto(rd);
    if e.Some? {
      return ReadFailed(e.value);
    }
    var h;
    e, h := ReadCountsInto(binary, rd);
    if e.Some? {
      return ReadFailed(e.value);
    }
    if CheckCounts(h) {
      return ReadFailed(BadMaxvar);
    }
    if Huge(h) {
      return ReadFailed(HugeIndex);
    }
    CleanClears(a.public, a.types, h.maxvar);
    a.SetMaxvar(h.maxvar);
    e := ReadBodyInto(a, rd, h);
    if e.Some? {
      return ReadFailed(e.value);
    }
    if binary {
      e := ReadBinaryAndsInto(a, rd, h);
    } else {
      e := ReadAsciiAndsInto(a, rd, h.ands);
    }
    if e.Some? {
      return ReadFailed(e.value);
    }
    if rd.ch != EOF {
      return ReadFailed(Trailing);
    }
    var c := a.Check();
    o := if c.Some? then CheckFailed(c.value) else Fine;
  }
}
