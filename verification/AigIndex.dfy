/**
 The `types` index that lib/aiger/aiger.c keeps beside the tables, and what the
 adding operations need to know to keep the two in step.
 */
module AigIndex {
  import opened Collections
  import opened Words
  import opened Digraph
  import opened AigGraph

  datatype TypeInfo = TypeInfo(input: bool, latch: bool, and: bool, mark: bool, onstack: bool, idx: nat)

  const CLEAR := TypeInfo(false, false, false, false, false, 0)

  /** The entry of variable v agrees with the tables. */
  predicate EntryOk(g: Graph, t: TypeInfo, v: nat) {
    && !(t.input && t.latch) && !(t.input && t.and) && !(t.latch && t.and)
    && (t.input ==> t.idx < |g.inputs| && g.inputs[t.idx] == 2 * v)
    && (t.latch ==> t.idx < |g.latches| && g.latches[t.idx].lit == 2 * v)
    && (t.and ==> t.idx < |g.ands| && g.ands[t.idx].lhs == 2 * v)
  }

  /** The index covers 0..maxvar, agrees with the tables there, and lists every table entry. */
  predicate Indexed(g: Graph, types: seq<TypeInfo>) {
    && (g.maxvar < |types| || (g.maxvar == 0 && types == []))
    && (forall v :: 0 <= v < |types| && v <= g.maxvar ==> EntryOk(g, types[v], v))
    && (forall i :: 0 <= i < |g.inputs| ==>
          var v := Var(g.inputs[i]); v < |types| && types[v].input && types[v].idx == i)
    && (forall i :: 0 <= i < |g.latches| ==>
          var v := Var(g.latches[i].lit); v < |types| && types[v].latch && types[v].idx == i)
    && (forall i :: 0 <= i < |g.ands| ==>
          var v := Var(g.ands[i].lhs); v < |types| && types[v].and && types[v].idx == i)
  }

  /** No stale entry beyond maxvar. */
  ghost predicate Clean(g: Graph, types: seq<TypeInfo>) {
    forall v: nat :: v > g.maxvar ==> Unused(types, v)
  }

  /** No stale entry between maxvar and n; nothing is asked when n is in range. */
  predicate ClearTo(g: Graph, types: seq<TypeInfo>, n: nat) {
    forall v: nat :: g.maxvar < v <= n ==> Unused(types, v)
  }

  /** What was clear beyond the maxvar of h stays clear. */
  ghost predicate StaysClear(types: seq<TypeInfo>, h: Graph, types': seq<TypeInfo>) {
    forall v: nat :: v > h.maxvar && Unused(types, v) ==> Unused(types', v)
  }

  predicate NoneOpen(types: seq<TypeInfo>) {
    forall v :: 0 <= v < |types| ==> !types[v].onstack
  }

  /** Only defined variables carry a mark. */
  predicate MarksDefined(types: seq<TypeInfo>) {
    forall v :: 0 <= v < |types| && types[v].mark ==> types[v].input || types[v].latch || types[v].and
  }

  /** No flag says that the variable is defined. */
  predicate Unused(types: seq<TypeInfo>, v: nat) {
    v < |types| ==> !types[v].input && !types[v].latch && !types[v].and
  }

  lemma CleanClears(g: Graph, types: seq<TypeInfo>, n: nat)
    requires Clean(g, types)
    ensures ClearTo(g, types, n)
  {
  }

  lemma ClearStays(g: Graph, types: seq<TypeInfo>, h: Graph, types': seq<TypeInfo>, n: nat)
    requires ClearTo(g, types, n) && StaysClear(types, h, types') && g.maxvar <= h.maxvar
    ensures ClearTo(h, types', n)
  {
  }

  lemma CleanStays(g: Graph, types: seq<TypeInfo>, h: Graph, types': seq<TypeInfo>)
    requires StaysClear(types, h, types') && g.maxvar <= h.maxvar
    ensures Clean(g, types) ==> Clean(h, types')
  {
  }

  lemma StaysClearTrans(types: seq<TypeInfo>, h1: Graph, types1: seq<TypeInfo>, h2: Graph, types2: seq<TypeInfo>)
    requires StaysClear(types, h1, types1) && StaysClear(types1, h2, types2) && h1.maxvar <= h2.maxvar
    ensures StaysClear(types, h2, types2)
  {
  }

  /** Changing an entry in range clears nothing and revives nothing. */
  lemma StaysClearInRange(types: seq<TypeInfo>, h: Graph, v: nat, t: TypeInfo)
    requires v <= h.maxvar && v < |types|
    ensures StaysClear(types, h, types[v := t])
  {
  }

  /** The index answers exactly what a search of the tables answers. */
  lemma Lookup(g: Graph, types: seq<TypeInfo>, v: nat)
    requires WellFormed(g) && Indexed(g, types) && v <= g.maxvar && v < |types|
    ensures types[v].input <==> IsInputVar(g, v)
    ensures types[v].latch <==> IsLatchVar(g, v)
    ensures types[v].and <==> IsAndVar(g, v)
    ensures types[v].input ==> types[v].idx == InputAt(g, v)
    ensures types[v].latch ==> types[v].idx == LatchAt(g, v)
    ensures types[v].and ==> types[v].idx == AndAt(g, v)
  {
    var t := types[v];
    assert EntryOk(g, t, v);
    assert IsInputVar(g, v) ==> g.inputs[InputAt(g, v)] == 2 * v;
    assert IsLatchVar(g, v) ==> LatchLits(g.latches)[LatchAt(g, v)] == 2 * v;
    assert IsAndVar(g, v) ==> AndLits(g.ands)[AndAt(g, v)] == 2 * v;
    if t.input {
      InputPosition(g, t.idx);
    }
    if t.latch {
      LatchPosition(g, t.idx);
    }
    if t.and {
      GatePosition(g, t.idx);
    }
  }

  lemma UnusedUndefined(g: Graph, types: seq<TypeInfo>, v: nat)
    requires WellFormed(g) && Indexed(g, types) && Unused(types, v) && v != 0
    ensures !Defined(g, 2 * v)
  {
    DefinedOnce(g, v);
    if v <= g.maxvar && v < |types| {
      Lookup(g, types, v);
    }
  }

  // ---------------------------------------------------------------------------
  // What the adding operations do to the tables
  // ---------------------------------------------------------------------------

  function Max(a: nat, b: nat): nat { if a < b then b else a }

  function Import(g: Graph, lit: nat): Graph {
    g.(maxvar := Max(g.maxvar, Var(lit)))
  }

  ghost predicate Grown(types: seq<TypeInfo>, types': seq<TypeInfo>) {
    types <= types' && forall v :: |types| <= v < |types'| ==> types'[v] == CLEAR
  }

  lemma ImportKeeps(g: Graph, types: seq<TypeInfo>, types': seq<TypeInfo>, lit: nat)
    requires WellFormed(g) && Indexed(g, types) && ClearTo(g, types, Var(lit)) && lit < WORD
    requires Grown(types, types') && Var(lit) < |types'|
    ensures WellFormed(Import(g, lit)) && Indexed(Import(g, lit), types')
    ensures StaysClear(types, Import(g, lit), types')
  {
    var h := Import(g, lit);
    forall v | 0 <= v < |types'| && v <= h.maxvar ensures EntryOk(h, types'[v], v) {
      if v < |types| && v <= g.maxvar {
        assert EntryOk(g, types[v], v);
      } else {
        assert Unused(types, v);
        assert Unused(types', v);
      }
    }
    ImportWellFormed(g, lit);
  }

  lemma ImportWellFormed(g: Graph, lit: nat)
    requires WellFormed(g) && lit < WORD
    ensures WellFormed(Import(g, lit))
  {
    var h := Import(g, lit);
    forall i | 0 <= i < |g.inputs| ensures DefiningLit(h, g.inputs[i]) {
      assert DefiningLit(g, g.inputs[i]);
    }
    forall i | 0 <= i < |g.latches| ensures DefiningLit(h, g.latches[i].lit) {
      assert DefiningLit(g, g.latches[i].lit);
    }
    forall i | 0 <= i < |g.ands| ensures DefiningLit(h, g.ands[i].lhs) {
      assert DefiningLit(g, g.ands[i].lhs);
    }
    RangeGrows(g, h, g.outputs);
    RangeGrows(g, h, g.bad);
    RangeGrows(g, h, g.constraints);
    RangeGrows(g, h, g.fairness);
    forall i | 0 <= i < |g.justice| ensures InRange(h, g.justice[i]) {
      RangeGrows(g, h, g.justice[i]);
    }
  }

  lemma RangeGrows(g: Graph, h: Graph, lits: seq<nat>)
    requires InRange(g, lits) && g.maxvar <= h.maxvar
    ensures InRange(h, lits)
  {
  }

  lemma AddInputWellFormed(g: Graph, types: seq<TypeInfo>, lit: nat)
    requires WellFormed(g) && Indexed(g, types) && DefiningLit(g, lit) && Var(lit) < |types| && Unused(types, Var(lit))
    ensures var v := Var(lit);
      var h := g.(inputs := g.inputs + [lit]);
      WellFormed(h)
  {
    var v, h := Var(lit), g.(inputs := g.inputs + [lit]);
    NotListed(g, types, lit);
    forall i | 0 <= i < |h.inputs| ensures DefiningLit(h, h.inputs[i]) {
      assert i < |g.inputs| ==> DefiningLit(g, g.inputs[i]);
    }
    forall i | 0 <= i < |g.latches| ensures DefiningLit(h, g.latches[i].lit) {
      assert DefiningLit(g, g.latches[i].lit);
    }
    forall i | 0 <= i < |g.ands| ensures DefiningLit(h, g.ands[i].lhs) {
      assert DefiningLit(g, g.ands[i].lhs);
    }
    SameRanges(g, h);
  }

  lemma AddInputIndexed(g: Graph, types: seq<TypeInfo>, lit: nat)
    requires Indexed(g, types) && DefiningLit(g, lit) && Var(lit) < |types| && Unused(types, Var(lit))
    ensures var v := Var(lit);
      var h := g.(inputs := g.inputs + [lit]);
      Indexed(h, types[v := types[v].(input := true, idx := |g.inputs|)])
  {
    var v, h := Var(lit), g.(inputs := g.inputs + [lit]);
    var types' := types[v := types[v].(input := true, idx := |g.inputs|)];
    forall u | 0 <= u < |types'| && u <= h.maxvar ensures EntryOk(h, types'[u], u) {
      assert EntryOk(g, types[u], u);
    }
  }

  lemma AddInputKeeps(g: Graph, types: seq<TypeInfo>, lit: nat)
    requires WellFormed(g) && Indexed(g, types) && DefiningLit(g, lit) && Var(lit) < |types| && Unused(types, Var(lit))
    ensures var v := Var(lit);
      var h := g.(inputs := g.inputs + [lit]);
      WellFormed(h) && Indexed(h, types[v := types[v].(input := true, idx := |g.inputs|)])
  {
    hide WellFormed, Indexed;
    AddInputWellFormed(g, types, lit);
    AddInputIndexed(g, types, lit);
  }

  /** The literal of an unused variable is in none of the tables. */
  lemma NotListed(g: Graph, types: seq<TypeInfo>, lit: nat)
    requires Indexed(g, types) && Unused(types, Var(lit))
    ensures lit !in g.inputs
    ensures forall i :: 0 <= i < |g.latches| ==> g.latches[i].lit != lit
    ensures forall i :: 0 <= i < |g.ands| ==> g.ands[i].lhs != lit
  {
  }

  lemma SameRanges(g: Graph, h: Graph)
    requires g.maxvar == h.maxvar
    requires forall i :: 0 <= i < |g.justice| ==> InRange(g, g.justice[i])
    ensures InRange(g, g.outputs) ==> InRange(h, g.outputs)
    ensures InRange(g, g.bad) ==> InRange(h, g.bad)
    ensures InRange(g, g.constraints) ==> InRange(h, g.constraints)
    ensures InRange(g, g.fairness) ==> InRange(h, g.fairness)
    ensures forall i :: 0 <= i < |g.justice| ==> InRange(h, g.justice[i])
  {
    forall i | 0 <= i < |g.justice| ensures InRange(h, g.justice[i]) {
      RangeGrows(g, h, g.justice[i]);
    }
  }

  lemma AddLatchWellFormed(g: Graph, types: seq<TypeInfo>, lit: nat, next: nat)
    requires WellFormed(g) && Indexed(g, types) && DefiningLit(g, lit) && Var(lit) < |types| && Unused(types, Var(lit))
    requires Var(next) <= g.maxvar
    ensures var v := Var(lit);
      var h := g.(latches := g.latches + [Latch(lit, next, 0)]);
      WellFormed(h)
  {
    var v, h := Var(lit), g.(latches := g.latches + [Latch(lit, next, 0)]);
    NotListed(g, types, lit);
    forall i | 0 <= i < |g.inputs| ensures DefiningLit(h, g.inputs[i]) {
      assert DefiningLit(g, g.inputs[i]);
    }
    forall i | 0 <= i < |h.latches| ensures DefiningLit(h, h.latches[i].lit) {
      assert i < |g.latches| ==> DefiningLit(g, g.latches[i].lit);
    }
    forall i | 0 <= i < |g.ands| ensures DefiningLit(h, g.ands[i].lhs) {
      assert DefiningLit(g, g.ands[i].lhs);
    }
    SameRanges(g, h);
    DistinctGrows(LatchLits(g.latches), lit);
    assert LatchLits(h.latches) == LatchLits(g.latches) + [lit];
  }

  lemma AddLatchIndexed(g: Graph, types: seq<TypeInfo>, lit: nat, next: nat)
    requires Indexed(g, types) && DefiningLit(g, lit) && Var(lit) < |types| && Unused(types, Var(lit))
    requires Var(next) <= g.maxvar
    ensures var v := Var(lit);
      var h := g.(latches := g.latches + [Latch(lit, next, 0)]);
      Indexed(h, types[v := types[v].(latch := true, idx := |g.latches|)])
  {
    var v, h := Var(lit), g.(latches := g.latches + [Latch(lit, next, 0)]);
    var types' := types[v := types[v].(latch := true, idx := |g.latches|)];
    forall u | 0 <= u < |types'| && u <= h.maxvar ensures EntryOk(h, types'[u], u) {
      assert EntryOk(g, types[u], u);
    }
  }

  lemma AddLatchKeeps(g: Graph, types: seq<TypeInfo>, lit: nat, next: nat)
    requires WellFormed(g) && Indexed(g, types) && DefiningLit(g, lit) && Var(lit) < |types| && Unused(types, Var(lit))
    requires Var(next) <= g.maxvar
    ensures var v := Var(lit);
      var h := g.(latches := g.latches + [Latch(lit, next, 0)]);
      WellFormed(h) && Indexed(h, types[v := types[v].(latch := true, idx := |g.latches|)])
  {
    hide WellFormed, Indexed;
    AddLatchWellFormed(g, types, lit, next);
    AddLatchIndexed(g, types, lit, next);
  }

  lemma DistinctGrows(s: seq<nat>, x: nat)
    requires Distinct(s) && x !in s
    ensures Distinct(s + [x])
  {
  }

  lemma AddAndWellFormed(g: Graph, types: seq<TypeInfo>, a: And)
    requires WellFormed(g) && Indexed(g, types) && DefiningLit(g, a.lhs) && Var(a.lhs) < |types|
    requires Unused(types, Var(a.lhs)) && Var(a.rhs0) <= g.maxvar && Var(a.rhs1) <= g.maxvar
    ensures var v := Var(a.lhs);
      var h := g.(ands := g.ands + [a]);
      WellFormed(h)
  {
    var v, h := Var(a.lhs), g.(ands := g.ands + [a]);
    NotListed(g, types, a.lhs);
    forall i | 0 <= i < |g.inputs| ensures DefiningLit(h, g.inputs[i]) {
      assert DefiningLit(g, g.inputs[i]);
    }
    forall i | 0 <= i < |g.latches| ensures DefiningLit(h, g.latches[i].lit) {
      assert DefiningLit(g, g.latches[i].lit);
    }
    forall i | 0 <= i < |h.ands| ensures DefiningLit(h, h.ands[i].lhs) {
      assert i < |g.ands| ==> DefiningLit(g, g.ands[i].lhs);
    }
    SameRanges(g, h);
    DistinctGrows(AndLits(g.ands), a.lhs);
    assert AndLits(h.ands) == AndLits(g.ands) + [a.lhs];
  }

  lemma AddAndIndexed(g: Graph, types: seq<TypeInfo>, a: And)
    requires Indexed(g, types) && DefiningLit(g, a.lhs) && Var(a.lhs) < |types|
    requires Unused(types, Var(a.lhs)) && Var(a.rhs0) <= g.maxvar && Var(a.rhs1) <= g.maxvar
    ensures var v := Var(a.lhs);
      var h := g.(ands := g.ands + [a]);
      Indexed(h, types[v := types[v].(and := true, idx := |g.ands|)])
  {
    var v, h := Var(a.lhs), g.(ands := g.ands + [a]);
    var types' := types[v := types[v].(and := true, idx := |g.ands|)];
    forall u | 0 <= u < |types'| && u <= h.maxvar ensures EntryOk(h, types'[u], u) {
      assert EntryOk(g, types[u], u);
    }
  }

  lemma AddAndKeeps(g: Graph, types: seq<TypeInfo>, a: And)
    requires WellFormed(g) && Indexed(g, types) && DefiningLit(g, a.lhs) && Var(a.lhs) < |types|
    requires Unused(types, Var(a.lhs)) && Var(a.rhs0) <= g.maxvar && Var(a.rhs1) <= g.maxvar
    ensures var v := Var(a.lhs);
      var h := g.(ands := g.ands + [a]);
      WellFormed(h) && Indexed(h, types[v := types[v].(and := true, idx := |g.ands|)])
  {
    hide WellFormed, Indexed;
    AddAndWellFormed(g, types, a);
    AddAndIndexed(g, types, a);
  }

  /** Changing only the outputs and properties, or a latch's reset, keeps the index. */
  lemma SameTablesIndexed(g: Graph, h: Graph, types: seq<TypeInfo>)
    requires Indexed(g, types) && g.maxvar == h.maxvar && g.inputs == h.inputs && g.ands == h.ands
    requires LatchLits(g.latches) == LatchLits(h.latches)
    ensures Indexed(h, types)
  {
    assert forall i :: 0 <= i < |g.latches| ==> LatchLits(g.latches)[i] == LatchLits(h.latches)[i];
    forall v | 0 <= v < |types| && v <= h.maxvar ensures EntryOk(h, types[v], v) {
      assert EntryOk(g, types[v], v);
    }
    forall i | 0 <= i < |h.latches|
      ensures var v := Var(h.latches[i].lit); v < |types| && types[v].latch && types[v].idx == i
    {
      assert h.latches[i].lit == g.latches[i].lit;
    }
  }

  lemma SameTablesWellFormed(g: Graph, h: Graph)
    requires WellFormed(g) && g.maxvar == h.maxvar && g.inputs == h.inputs && g.ands == h.ands && g.latches == h.latches
    requires InRange(h, h.outputs) && InRange(h, h.bad) && InRange(h, h.constraints) && InRange(h, h.fairness)
    requires forall i :: 0 <= i < |h.justice| ==> InRange(h, h.justice[i])
    ensures WellFormed(h)
  {
    forall i | 0 <= i < |g.inputs| ensures DefiningLit(h, g.inputs[i]) {
      assert DefiningLit(g, g.inputs[i]);
    }
    forall i | 0 <= i < |g.latches| ensures DefiningLit(h, g.latches[i].lit) {
      assert DefiningLit(g, g.latches[i].lit);
    }
    forall i | 0 <= i < |g.ands| ensures DefiningLit(h, g.ands[i].lhs) {
      assert DefiningLit(g, g.ands[i].lhs);
    }
  }

  // ---------------------------------------------------------------------------
  // Marks left behind by earlier checks
  // ---------------------------------------------------------------------------

  /** r holds every marked gate, is closed under dependence, and meets no cycle. */
  ghost predicate SettledBy(g: Graph, types: seq<TypeInfo>, r: set<nat>) {
    && (forall v :: v in r ==> v in Gates(g, false) && !OnCycle<nat>(Gates(g, false), v))
    && (forall v, k :: v in r && k in Gates(g, false)[v] ==> Defined(g, 2 * k) && (k in Gates(g, false) ==> k in r))
    && (forall v :: 0 <= v < |types| && types[v].mark && v in Gates(g, false) ==> v in r)
  }

  /** No gate that an earlier check has marked can still be part of a cycle. */
  ghost predicate Settled(g: Graph, types: seq<TypeInfo>) {
    exists r: set<nat> :: SettledBy(g, types, r)
  }

  /** Growth of the graph: tables only get longer, and new gates define new variables. */
  ghost predicate Extended(g: Graph, h: Graph) {
    && g.maxvar <= h.maxvar
    && g.ands <= h.ands
    && (forall v: nat :: Defined(g, 2 * v) ==> Defined(h, 2 * v))
    && (forall k :: |g.ands| <= k < |h.ands| ==> !Defined(g, h.ands[k].lhs))
  }

  lemma SameGate(g: Graph, h: Graph, v: nat)
    requires WellFormed(g) && WellFormed(h) && Extended(g, h) && v in Gates(g, false)
    ensures v in Gates(h, false) && Gates(h, false)[v] == Gates(g, false)[v]
  {
    var k := AndAt(g, v);
    assert AndLits(h.ands)[k] == AndLits(g.ands)[k] == 2 * v;
    GatePosition(h, k);
    assert h.ands[k] == g.ands[k];
  }

  lemma NewGate(g: Graph, h: Graph, v: nat)
    requires WellFormed(g) && WellFormed(h) && Extended(g, h) && v in Gates(h, false) && v !in Gates(g, false)
    ensures !Defined(g, 2 * v)
  {
    var k := AndAt(h, v);
    assert AndLits(h.ands)[k] == 2 * v;
    if k < |g.ands| {
      assert g.ands[k] == h.ands[k];
      GatePosition(g, k);
      DefinedOnce(g, v);
      assert false;
    }
  }

  /** Marks that were settled stay settled while the graph grows. */
  lemma SettledGrows(g: Graph, types: seq<TypeInfo>, h: Graph, types': seq<TypeInfo>)
    requires WellFormed(g) && WellFormed(h) && Extended(g, h) && Settled(g, types)
    requires forall v :: 0 <= v < |types'| && types'[v].mark && v in Gates(h, false) ==>
      v < |types| && types[v].mark && v in Gates(g, false)
    ensures Settled(h, types')
  {
    hide WellFormed, Gates, Extended, SettledBy;
    var r: set<nat> :| SettledBy(g, types, r);
    assert SettledBy(h, types', r) by {
      SettledMembers(g, types, h, r);
      SettledMarks(g, types, h, types', r);
    }
  }

  lemma SettledMarks(g: Graph, types: seq<TypeInfo>, h: Graph, types': seq<TypeInfo>, r: set<nat>)
    requires SettledBy(g, types, r)
    requires forall v :: 0 <= v < |types'| && types'[v].mark && v in Gates(h, false) ==>
      v < |types| && types[v].mark && v in Gates(g, false)
    requires forall v :: v in r ==> v in Gates(h, false) && !OnCycle<nat>(Gates(h, false), v)
    requires forall v, k :: v in r && k in Gates(h, false)[v] ==> Defined(h, 2 * k) && (k in Gates(h, false) ==> k in r)
    ensures SettledBy(h, types', r)
  {
    hide Gates, Defined, OnCycle;
  }

  lemma SettledMembers(g: Graph, types: seq<TypeInfo>, h: Graph, r: set<nat>)
    requires WellFormed(g) && WellFormed(h) && Extended(g, h) && SettledBy(g, types, r)
    ensures forall v :: v in r ==> v in Gates(h, false) && !OnCycle<nat>(Gates(h, false), v)
    ensures forall v, k :: v in r && k in Gates(h, false)[v] ==> Defined(h, 2 * k) && (k in Gates(h, false) ==> k in r)
  {
    hide WellFormed, Gates, Extended, SettledBy;
    var a, b := Gates(g, false), Gates(h, false);
    forall v | v in r ensures v in a && v in b && b[v] == a[v] {
      assert v in a by {
        SettledGate(g, types, r, v);
      }
      SameGate(g, h, v);
    }
    forall v, k | v in r && k in b[v] ensures Defined(h, 2 * k) && (k in b ==> k in r) {
      StillSettled(g, h, types, r, v, k);
    }
    forall v | v in r ensures !OnCycle<nat>(b, v) {
      SettledGate(g, types, r, v);
      if OnCycle<nat>(b, v) {
        CycleWithin<nat>(b, a, r, v);
      }
    }
  }

  lemma SettledGate(g: Graph, types: seq<TypeInfo>, r: set<nat>, v: nat)
    requires SettledBy(g, types, r) && v in r
    ensures v in Gates(g, false) && !OnCycle<nat>(Gates(g, false), v)
  {
  }

  lemma StillSettled(g: Graph, h: Graph, types: seq<TypeInfo>, r: set<nat>, v: nat, k: nat)
    requires WellFormed(g) && WellFormed(h) && Extended(g, h) && SettledBy(g, types, r)
    requires v in r && v in Gates(h, false) && v in Gates(g, false)
    requires k in Gates(h, false)[v] && Gates(h, false)[v] == Gates(g, false)[v]
    ensures Defined(h, 2 * k) && (k in Gates(h, false) ==> k in r)
  {
    hide WellFormed, Gates, Extended;
    assert Defined(h, 2 * k) by {
      ExtendedDefines(g, h, k);
    }
    if k in Gates(h, false) && k !in Gates(g, false) {
      NewGate(g, h, k);
    }
  }

  lemma ExtendedDefines(g: Graph, h: Graph, v: nat)
    requires Extended(g, h) && Defined(g, 2 * v)
    ensures Defined(h, 2 * v)
  {
  }

  /** Nothing is marked: settled. */
  lemma ClearSettled(g: Graph, types: seq<TypeInfo>)
    requires forall v :: 0 <= v < |types| ==> !types[v].mark
    ensures Settled(g, types)
  {
    assert SettledBy(g, types, {});
  }

  /** A checked graph is settled whatever is marked. */
  lemma CheckedSettled(g: Graph, types: seq<TypeInfo>)
    requires Checked(g)
    ensures Settled(g, types)
  {
    hide WellFormed;
    var a := Gates(g, false);
    forall v, k | v in a.Keys && k in a[v] ensures Defined(g, 2 * k) {
      var c := GateOf(g, v);
      assert c == g.ands[AndAt(g, v)];
    }
    assert SettledBy(g, types, a.Keys);
  }

  lemma SettledUnmarked(g: Graph, types: seq<TypeInfo>, v: nat)
    requires Settled(g, types) && v < |types| && types[v].mark && v in Gates(g, false)
    ensures !OnCycle<nat>(Gates(g, false), v)
  {
  }

  // ---------------------------------------------------------------------------
  // The state between calls
  // ---------------------------------------------------------------------------

  /** The tables, the index and the marks fit together. */
  ghost predicate Consistent(g: Graph, types: seq<TypeInfo>) {
    WellFormed(g) && Indexed(g, types) && NoneOpen(types) && MarksDefined(types) && Settled(g, types)
  }

  lemma EmptyConsistent()
    ensures Consistent(EMPTY, [])
  {
    ClearSettled(EMPTY, []);
  }

  lemma SameDefinitions(g: Graph, h: Graph)
    requires g.maxvar <= h.maxvar && g.inputs == h.inputs && g.ands == h.ands
    requires LatchLits(g.latches) == LatchLits(h.latches)
    ensures Extended(g, h)
    ensures WellFormed(g) ==> forall v: nat :: v in Gates(h, false) <==> v in Gates(g, false)
  {
    hide WellFormed;
    assert forall v: nat :: Defined(g, 2 * v) <==> Defined(h, 2 * v);
    if WellFormed(g) {
      forall v: nat | v in Gates(h, false) ensures v in Gates(g, false) {
        DefinedOnce(g, v);
      }
    }
  }

  lemma ImportConsistent(g: Graph, types: seq<TypeInfo>, types': seq<TypeInfo>, lit: nat)
    requires Consistent(g, types) && ClearTo(g, types, Var(lit)) && lit < WORD
    requires Grown(types, types') && Var(lit) < |types'|
    ensures Consistent(Import(g, lit), types') && StaysClear(types, Import(g, lit), types')
  {
    ImportKeeps(g, types, types', lit);
    SameDefinitions(g, Import(g, lit));
    GrownFlags(types, types');
    assert Settled(Import(g, lit), types') by {
      hide WellFormed, Indexed, Gates, Extended, Settled;
      SettledGrows(g, types, Import(g, lit), types');
    }
  }

  lemma GrownFlags(types: seq<TypeInfo>, types': seq<TypeInfo>)
    requires Grown(types, types') && NoneOpen(types) && MarksDefined(types)
    ensures NoneOpen(types') && MarksDefined(types')
    ensures forall v :: 0 <= v < |types'| && types'[v].mark ==> v < |types| && types[v].mark
  {
  }

  /** Defining one unused variable keeps the flags and the settled marks. */
  lemma DefineKeepsMarks(g: Graph, types: seq<TypeInfo>, h: Graph, v: nat, t: TypeInfo)
    requires Consistent(g, types) && WellFormed(h) && Extended(g, h) && g.maxvar == h.maxvar
    requires v < |types| && Unused(types, v) && t.mark == types[v].mark && t.onstack == types[v].onstack
    requires Indexed(h, types[v := t])
    ensures NoneOpen(types[v := t]) && MarksDefined(types[v := t]) && Settled(h, types[v := t])
  {
    hide WellFormed, Indexed, Gates, Extended, Settled;
    var types' := types[v := t];
    forall u | 0 <= u < |types'| && types'[u].mark && u in Gates(h, false)
      ensures types[u].mark && u in Gates(g, false)
    {
      MarkedGate(g, h, types, types', u);
    }
    SettledGrows(g, types, h, types');
  }

  lemma MarkedGate(g: Graph, h: Graph, types: seq<TypeInfo>, types': seq<TypeInfo>, u: nat)
    requires WellFormed(g) && WellFormed(h) && Indexed(g, types) && Indexed(h, types')
    requires u < |types| && u < |types'| && types[u] == types'[u] && u in Gates(h, false) && g.maxvar == h.maxvar
    ensures u in Gates(g, false)
  {
    Lookup(g, types, u);
    Lookup(h, types', u);
  }

  /** A new input keeps what is defined, and every gate. */
  lemma ExtendedByInput(g: Graph, lit: nat)
    ensures Extended(g, g.(inputs := g.inputs + [lit]))
  {
  }

  /** So does a new latch. */
  lemma ExtendedByLatch(g: Graph, l: Latch)
    ensures Extended(g, g.(latches := g.latches + [l]))
  {
    var h := g.(latches := g.latches + [l]);
    assert LatchLits(h.latches) == LatchLits(g.latches) + [l.lit];
  }

  /** So does a gate for a variable that was not defined. */
  lemma ExtendedByAnd(g: Graph, a: And)
    requires !Defined(g, a.lhs)
    ensures Extended(g, g.(ands := g.ands + [a]))
  {
    var h := g.(ands := g.ands + [a]);
    assert AndLits(h.ands) == AndLits(g.ands) + [a.lhs];
  }

  lemma AddInputConsistent(g: Graph, types: seq<TypeInfo>, lit: nat)
    requires Consistent(g, types)
    requires DefiningLit(g, lit) && Var(lit) < |types| && Unused(types, Var(lit))
    ensures var v, h := Var(lit), g.(inputs := g.inputs + [lit]);
      var types' := types[v := types[v].(input := true, idx := |g.inputs|)];
      Consistent(h, types') && StaysClear(types, h, types')
  {
    hide WellFormed, Indexed, NoneOpen, MarksDefined, Settled, Extended, StaysClear;
    var v, h := Var(lit), g.(inputs := g.inputs + [lit]);
    StaysClearInRange(types, h, v, types[v].(input := true, idx := |g.inputs|));
    AddInputKeeps(g, types, lit);
    ExtendedByInput(g, lit);
    DefineKeepsMarks(g, types, h, v, types[v].(input := true, idx := |g.inputs|));
  }

  lemma AddLatchConsistent(g: Graph, types: seq<TypeInfo>, lit: nat, next: nat)
    requires Consistent(g, types) && Var(next) <= g.maxvar
    requires DefiningLit(g, lit) && Var(lit) < |types| && Unused(types, Var(lit))
    ensures var v, h := Var(lit), g.(latches := g.latches + [Latch(lit, next, 0)]);
      var types' := types[v := types[v].(latch := true, idx := |g.latches|)];
      Consistent(h, types') && StaysClear(types, h, types')
  {
    hide WellFormed, Indexed, NoneOpen, MarksDefined, Settled, Extended, StaysClear;
    var v, h := Var(lit), g.(latches := g.latches + [Latch(lit, next, 0)]);
    StaysClearInRange(types, h, v, types[v].(latch := true, idx := |g.latches|));
    AddLatchKeeps(g, types, lit, next);
    ExtendedByLatch(g, Latch(lit, next, 0));
    DefineKeepsMarks(g, types, h, v, types[v].(latch := true, idx := |g.latches|));
  }

  lemma AddAndConsistent(g: Graph, types: seq<TypeInfo>, a: And)
    requires Consistent(g, types) && Var(a.rhs0) <= g.maxvar && Var(a.rhs1) <= g.maxvar
    requires DefiningLit(g, a.lhs) && Var(a.lhs) < |types| && Unused(types, Var(a.lhs))
    ensures var v, h := Var(a.lhs), g.(ands := g.ands + [a]);
      var types' := types[v := types[v].(and := true, idx := |g.ands|)];
      Consistent(h, types') && StaysClear(types, h, types')
  {
    hide WellFormed, Indexed, NoneOpen, MarksDefined, Settled, Extended, StaysClear;
    var v, h := Var(a.lhs), g.(ands := g.ands + [a]);
    UnusedUndefined(g, types, v);
    StaysClearInRange(types, h, v, types[v].(and := true, idx := |g.ands|));
    AddAndKeeps(g, types, a);
    ExtendedByAnd(g, a);
    DefineKeepsMarks(g, types, h, v, types[v].(and := true, idx := |g.ands|));
  }

  /** Adding an output or a property, all of whose literals are in range. */
  lemma AddRootConsistent(g: Graph, types: seq<TypeInfo>, h: Graph)
    requires Consistent(g, types)
    requires g.maxvar == h.maxvar && g.inputs == h.inputs && g.ands == h.ands && g.latches == h.latches
    requires InRange(h, h.outputs) && InRange(h, h.bad) && InRange(h, h.constraints) && InRange(h, h.fairness)
    requires forall i :: 0 <= i < |h.justice| ==> InRange(h, h.justice[i])
    ensures Consistent(h, types)
  {
    SameTablesWellFormed(g, h);
    SameTablesIndexed(g, h, types);
    SameDefinitions(g, h);
    assert Settled(h, types) by {
      hide WellFormed, Indexed, Gates, Extended, Settled;
      SettledGrows(g, types, h, types);
    }
  }

  /** Setting the reset value of a latch. */
  lemma AddResetConsistent(g: Graph, types: seq<TypeInfo>, i: nat, reset: nat)
    requires Consistent(g, types) && i < |g.latches| && (reset <= 1 || reset == g.latches[i].lit)
    ensures Consistent(g.(latches := g.latches[i := g.latches[i].(reset := reset)]), types)
  {
    var h := g.(latches := g.latches[i := g.latches[i].(reset := reset)]);
    assert LatchLits(h.latches) == LatchLits(g.latches);
    ResetWellFormed(g, i, reset);
    SameTablesIndexed(g, h, types);
    SameDefinitions(g, h);
    assert Settled(h, types) by {
      hide WellFormed, Indexed, Gates, Extended, Settled;
      SettledGrows(g, types, h, types);
    }
  }

  lemma ResetWellFormed(g: Graph, i: nat, reset: nat)
    requires WellFormed(g) && i < |g.latches| && (reset <= 1 || reset == g.latches[i].lit)
    ensures WellFormed(g.(latches := g.latches[i := g.latches[i].(reset := reset)]))
  {
    var h := g.(latches := g.latches[i := g.latches[i].(reset := reset)]);
    assert LatchLits(h.latches) == LatchLits(g.latches);
    forall k | 0 <= k < |g.inputs| ensures DefiningLit(h, g.inputs[k]) {
      assert DefiningLit(g, g.inputs[k]);
    }
    forall k | 0 <= k < |h.latches| ensures DefiningLit(h, h.latches[k].lit) {
      assert DefiningLit(g, g.latches[k].lit);
    }
    forall k | 0 <= k < |g.ands| ensures DefiningLit(h, g.ands[k].lhs) {
      assert DefiningLit(g, g.ands[k].lhs);
    }
    SameRanges(g, h);
    forall k, j | 0 <= k < |h.latches| && 0 <= j < |g.ands| ensures h.latches[k].lit != g.ands[j].lhs {
      assert h.latches[k].lit == g.latches[k].lit;
    }
    forall k, j | 0 <= k < |g.inputs| && 0 <= j < |h.latches| ensures g.inputs[k] != h.latches[j].lit {
      assert h.latches[j].lit == g.latches[j].lit;
    }
  }

  function ImportAll(g: Graph, lits: seq<nat>): (r: Graph)
    ensures r == g.(maxvar := r.maxvar)
  {
    if lits == [] then g else Import(ImportAll(g, lits[..|lits| - 1]), lits[|lits| - 1])
  }

  /** A new justice property whose literals are in range. */
  lemma AddJusticeConsistent(g: Graph, types: seq<TypeInfo>, lits: seq<nat>)
    requires Consistent(g, types) && InRange(g, lits)
    ensures Consistent(g.(justice := g.justice + [lits]), types)
  {
    var h := g.(justice := g.justice + [lits]);
    forall i | 0 <= i < |h.justice| ensures InRange(h, h.justice[i]) {
      assert i < |g.justice| ==> InRange(g, g.justice[i]);
    }
    AddRootConsistent(g, types, h);
  }

  lemma LatchLitAt(g: Graph, v: nat)
    requires IsLatchVar(g, v)
    ensures g.latches[LatchAt(g, v)].lit == 2 * v
  {
    assert LatchLits(g.latches)[LatchAt(g, v)] == 2 * v;
  }

  lemma StripDefined(g: Graph, lit: nat)
    ensures Var(Strip(lit)) == Var(lit)
    ensures Defined(g, lit) <==> Strip(lit) <= 1 || Defined(g, Strip(lit))
  {
  }
}
