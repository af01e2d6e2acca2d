/** The writers of lib/aiger/aiger.c; the output stream is a growing byte sequence. */
module AigWriter {
  import opened Words
  import opened Bytes
  import opened AigGraph
  import opened AigReencode
  import opened AigMeaning
  import opened AigIndex
  import opened AigTable
  import opened AigFormat
  import opened Aiger

  lemma Shift(a: seq<Byte>, b: seq<Byte>, c: seq<Byte>)
    ensures a + b + c == a + (b + c)
  {
  }

  lemma DeltaNext(u: nat)
    ensures WriteDelta(u) == if u < 128 then [u] else [128 + u % 128] + WriteDelta(u / 128)
  {
  }

  method PutDelta(delta: Word) returns (out: seq<Byte>)
    ensures out == WriteDelta(delta)
  {
    hide WriteDelta;
    out := [];
    var tmp: nat := delta;
    while tmp >= 128
      invariant out + WriteDelta(tmp) == WriteDelta(delta)
    {
      DeltaNext(tmp);
      Shift(out, [128 + tmp % 128], WriteDelta(tmp / 128));
      out := out + [128 + tmp % 128];
      tmp := tmp / 128;
    }
    DeltaNext(tmp);
    out := out + [tmp];
  }

  lemma ListNext(lits: seq<nat>, i: nat)
    requires i < |lits|
    ensures ListText(lits[i..]) == Line(lits[i]) + ListText(lits[i + 1..])
  {
    assert lits[i..][1..] == lits[i + 1..];
  }

  method PutList(lits: seq<nat>) returns (out: seq<Byte>)
    ensures out == ListText(lits)
  {
    out := [];
    assert lits[0..] == lits;
    var i := 0;
    while i < |lits|
      invariant 0 <= i <= |lits|
      invariant out + ListText(lits[i..]) == ListText(lits)
    {
      hide ListText;
      ListNext(lits, i);
      Shift(out, Line(lits[i]), ListText(lits[i + 1..]));
      out := out + (Decimal(lits[i]) + [NEWLINE]);
      i := i + 1;
    }
  }

  lemma LatchesNext(ls: seq<Latch>, compact: bool, i: nat)
    requires i < |ls|
    ensures LatchesText(ls[i..], compact, {}) == LatchText(ls[i], compact, {}) + LatchesText(ls[i + 1..], compact, {})
  {
    assert ls[i..][1..] == ls[i + 1..];
  }

  method PutLatch(l: Latch, compact: bool) returns (out: seq<Byte>)
    ensures out == LatchText(l, compact, {})
  {
    hide Decimal;
    var name, reset := [], [];
    if !compact {
      name := Decimal(l.lit) + [SPACE];
    }
    if l.reset != 0 {
      reset := [SPACE] + Decimal(l.reset);
    }
    out := name + Decimal(l.next) + reset + [NEWLINE];
  }

  method PutLatches(ls: seq<Latch>, compact: bool) returns (out: seq<Byte>)
    ensures out == LatchesText(ls, compact, {})
  {
    out := [];
    assert ls[0..] == ls;
    var i := 0;
    while i < |ls|
      invariant 0 <= i <= |ls|
      invariant out + LatchesText(ls[i..], compact, {}) == LatchesText(ls, compact, {})
    {
      hide LatchesText, LatchText;
      LatchesNext(ls, compact, i);
      var line := PutLatch(ls[i], compact);
      Shift(out, line, LatchesText(ls[i + 1..], compact, {}));
      out := out + line;
      i := i + 1;
    }
  }

  method PutJustice(rows: seq<seq<nat>>) returns (out: seq<Byte>)
    ensures out == ListText(Sizes(rows)) + RowsText(rows)
  {
    hide ListText;
    var sizes := PutList(Sizes(rows));
    out := sizes;
    var i := 0;
    while i < |rows|
      invariant 0 <= i <= |rows|
      invariant out + RowsText(rows[i..]) == sizes + RowsText(rows)
    {
      assert rows[i..][1..] == rows[i + 1..];
      var row := PutList(rows[i]);
      Shift(out, row, RowsText(rows[i + 1..]));
      out := out + row;
      i := i + 1;
    }
  }

  method PutOptional(b: nat, c: nat, j: nat, f: nat) returns (out: seq<Byte>)
    ensures out == OptionalText(b, c, j, f, 0)
  {
    hide Decimal;
    var pb, pc, pj, pf := [], [], [], [];
    if b != 0 || c != 0 || j != 0 || f != 0 {
      pb := [SPACE] + Decimal(b);
    }
    if c != 0 || j != 0 || f != 0 {
      pc := [SPACE] + Decimal(c);
    }
    if j != 0 || f != 0 {
      pj := [SPACE] + Decimal(j);
    }
    if f != 0 {
      pf := [SPACE] + Decimal(f);
    }
    out := pb + pc + pj + pf;
  }

  method PutCounts(g: Graph) returns (out: seq<Byte>)
    ensures out == CountsText(g, 0)
  {
    hide Decimal, OptionalText;
    var opt := PutOptional(|g.bad|, |g.constraints|, |g.justice|, |g.fairness|);
    out := Decimal(g.maxvar) + [SPACE] + Decimal(|g.inputs|) + [SPACE] + Decimal(|g.latches|) + [SPACE]
      + Decimal(|g.outputs|) + [SPACE] + Decimal(|g.ands|) + opt + [NEWLINE];
  }

  /** Everything before the gates; the binary format leaves out what its numbering implies. */
  method WriteHeader(g: Graph, compact: bool) returns (out: seq<Byte>)
    ensures out == HeaderText(g, compact, TERSE)
  {
    hide CountsText, ListText, LatchesText, RowsText;
    out := MagicText(compact);
    var part := PutCounts(g);
    out := out + part;
    if !compact {
      part := PutList(g.inputs);
      out := out + part;
    }
    part := PutLatches(g.latches, compact);
    out := out + part;
    part := PutList(g.outputs);
    out := out + part;
    part := PutList(g.bad);
    out := out + part;
    part := PutList(g.constraints);
    out := out + part;
    part := PutJustice(g.justice);
    out := out + part;
    part := PutList(g.fairness);
    out := out + part;
  }

  method WriteAscii(g: Graph) returns (out: seq<Byte>)
    requires Checked(g)
    ensures out == AsciiText(g, TERSE)
  {
    hide Checked, HeaderText;
    out := WriteHeader(g, false);
    var i := 0;
    while i < |g.ands|
      invariant 0 <= i <= |g.ands|
      invariant out + AndsText(g.ands[i..]) == AsciiText(g, TERSE)
    {
      assert g.ands[i..][1..] == g.ands[i + 1..];
      Shift(out, AndText(g.ands[i]), AndsText(g.ands[i + 1..]));
      out := out + AndText(g.ands[i]);
      i := i + 1;
    }
  }

  /** The left-hand sides follow one another from top on. */
  predicate CountsUp(ands: seq<And>, top: nat) {
    forall i :: 0 <= i < |ands| ==> ands[i].lhs < WORD && ands[i].lhs == top + 2 * i + 2
  }

  lemma DeltasNext(ands: seq<And>, i: nat)
    requires Descending(ands) && i < |ands|
    ensures DeltasText(ands[i..]) == DeltaText(ands[i]) + DeltasText(ands[i + 1..])
  {
    assert ands[i..][1..] == ands[i + 1..];
  }

  /** The gates as differences, with the left-hand sides counted along. */
  method PutDeltas(ands: seq<And>, top: nat) returns (out: seq<Byte>)
    requires Descending(ands) && CountsUp(ands, top)
    ensures out == DeltasText(ands)
  {
    hide WriteDelta, DeltasText;
    out := [];
    DeltasNone();
    var lhs := top + 2;
    var i := 0;
    assert ands[0..] == ands;
    while i < |ands|
      invariant 0 <= i <= |ands| && lhs == top + 2 * i + 2
      invariant out + DeltasText(ands[i..]) == DeltasText(ands)
    {
      DeltasNext(ands, i);
      var and := ands[i];
      var d0 := PutDelta(lhs - and.rhs0);
      var d1 := PutDelta(and.rhs0 - and.rhs1);
      Shift(out, d0 + d1, DeltasText(ands[i + 1..]));
      out := out + (d0 + d1);
      lhs := lhs + 2;
      i := i + 1;
    }
    assert ands[|ands|..] == [];
  }

  lemma DeltasNone()
    ensures DeltasText([]) == []
  {
  }

  /** Reencodes the graph, then writes it in the binary format. */
  method WriteBinary(a: Aiger) returns (out: seq<Byte>)
    requires a.Valid() && Checked(a.public)
    requires InNormalForm(a.public) || Sortable(a.public)
    modifies a`types, a`public
    ensures a.Valid() && a.public == Reencoded(old(a.public)) && InNormalForm(a.public)
    ensures out == BinaryText(a.public, TERSE)
  {
    hide Checked, WellFormed, RhsDefined, Reencoded, HeaderText, Consistent, DeltasText, Descending, CountsUp;
    ReencodeIdempotent(a.public);
    a.Reencode();
    var header := WriteHeader(a.public, true);
    var top := a.MaxInputOrLatch();
    TopDefined(a.public, top);
    CheckedParts(a.public);
    NormalBelow(a.public, top);
    var deltas := PutDeltas(a.public.ands, top);
    out := header + deltas;
  }

  lemma NormalBelow(g: Graph, top: nat)
    requires WellFormed(g) && InNormalForm(g) && top == 2 * (|g.inputs| + |g.latches|)
    ensures Descending(g.ands)
    ensures CountsUp(g.ands, top)
  {
    forall i | 0 <= i < |g.ands| ensures g.ands[i].lhs < WORD && g.ands[i].lhs == top + 2 * i + 2 {
      assert DefiningLit(g, g.ands[i].lhs);
    }
  }

  /**
   Writing any checked graph in binary and reading it back gives its reencoding,
   except for a graph that was in normal form already with an oversized maxvar,
   whose file the reader rejects.
   */
  lemma BinaryFileRoundTrip(g: Graph)
    requires Checked(g) && CountsFit(g)
    ensures Checked(Reencoded(g)) && InNormalForm(Reencoded(g))
    ensures ReadFile(BinaryText(Reencoded(g), TERSE)) ==
      if InNormalForm(g) && g.maxvar > |g.inputs| + |g.latches| + |g.ands| then Failed(BadMaxvar)
      else Parsed(Reencoded(g), [])
  {
    hide BinaryText, ReadFile, Renumbered;
    ReencodeIdempotent(g);
    var r := Reencoded(g);
    assert CountsFit(r) by {
      RenumberedFits(g);
    }
    BinaryRoundTrip(r, TERSE);
    NormalFits(r);
    if !InNormalForm(g) {
      ReencodeNormalizes(g);
    }
  }

  lemma RenumberedFits(g: Graph)
    requires Checked(g) && CountsFit(g)
    ensures CountsFit(Reencoded(g))
  {
    if !InNormalForm(g) {
      var r := Renumbered(g);
      ReencodeNormalizes(g);
      forall i | 0 <= i < |r.justice| ensures |r.justice[i]| < WORD {
        assert r.justice[i] == CodeAll(g, KeptOrder(g), g.justice[i]);
      }
      assert |r.ands| <= r.maxvar <= g.maxvar;
    }
  }

  /** One input, maxvar 5. */
  const OVERSIZED := Graph(5, [2], [], [2], [], [], [], [], [])

  lemma OversizedChecked()
    ensures Checked(OVERSIZED) && InNormalForm(OVERSIZED)
  {
    var g := OVERSIZED;
    assert WellFormed(g);
    assert IndexOf(g.inputs, 2) == 0;
    NormalAcyclic(g);
  }

  /** A checked graph that survives the text format, but whose binary file cannot be read back. */
  lemma OversizedMaxvar()
    ensures Checked(OVERSIZED) && ReadFile(AsciiText(OVERSIZED, TERSE)) == Parsed(OVERSIZED, [])
    ensures ReadFile(BinaryText(Reencoded(OVERSIZED), TERSE)) == Failed(BadMaxvar)
  {
    hide Checked, ReadFile, BinaryText, AsciiText, WellFormed;
    OversizedChecked();
    assert WellFormed(OVERSIZED) by {
      CheckedParts(OVERSIZED);
    }
    AsciiRoundTrip(OVERSIZED, TERSE);
    BinaryFileRoundTrip(OVERSIZED);
  }
}
