/**
 The library object of lib/aiger/aiger.c: the public tables, the `types` index
 and the error slot, with the operations that build, query, check and reencode it.
 */
module Aiger {
  import opened Collections
  import opened Wrappers
  import opened Words
  import opened Digraph
  import opened DepthFirst
  import opened AigGraph
  import opened AigReencode
  import opened AigMeaning
  import opened AigIndex
  import opened AigSearch
  import opened AigTable

  datatype Error =
    | Undefined(lit: nat)
    | CyclicGate(v: nat)

  /** types0 with the flags of a search: finished variables marked, open ones marked and on the stack. */
  ghost function Flagged(types0: seq<TypeInfo>, open: set<nat>, order: seq<nat>): (r: seq<TypeInfo>)
    ensures |r| == |types0|
    ensures forall v :: 0 <= v < |r| ==>
      r[v] == types0[v].(mark := types0[v].mark || v in open || v in order, onstack := v in open)
  {
    seq(|types0|, v requires 0 <= v < |types0| =>
      types0[v].(mark := types0[v].mark || v in open || v in order, onstack := v in open))
  }

  /** The gates that carry no mark yet. */
  ghost function Unmarked(g: Graph, types: seq<TypeInfo>): Adj<nat> {
    Without(Gates(g, false), set v: nat | 0 <= v < |types| && types[v].mark)
  }

  lemma FlaggedOpen(types0: seq<TypeInfo>, open: set<nat>, order: seq<nat>, v: nat)
    requires v < |types0|
    ensures Flagged(types0, open, order)[v := Flagged(types0, open, order)[v].(mark := true, onstack := true)]
            == Flagged(types0, open + {v}, order)
  {
  }

  lemma FlaggedClose(types0: seq<TypeInfo>, open: set<nat>, order: seq<nat>, v: nat)
    requires v < |types0| && v !in open
    ensures Flagged(types0, open + {v}, order)[v := Flagged(types0, open + {v}, order)[v].(onstack := false)]
            == Flagged(types0, open, order + [v])
  {
  }

  lemma FlaggedNone(types0: seq<TypeInfo>)
    requires NoneOpen(types0)
    ensures Flagged(types0, {}, []) == types0
  {
  }

  /** How the index describes an unmarked gate. */
  lemma UnmarkedGate(g: Graph, types: seq<TypeInfo>, v: nat)
    requires WellFormed(g) && Indexed(g, types) && 0 < v <= g.maxvar
    ensures v < |types|
    ensures v in Unmarked(g, types) <==> types[v].and && !types[v].mark
    ensures v in Unmarked(g, types) ==>
      && types[v].idx < |g.ands|
      && Var(g.ands[types[v].idx].rhs0) <= g.maxvar && Var(g.ands[types[v].idx].rhs1) <= g.maxvar
      && Unmarked(g, types)[v] == NonZero(Var(g.ands[types[v].idx].rhs1)) + NonZero(Var(g.ands[types[v].idx].rhs0))
  {
    Lookup(g, types, v);
  }

  lemma UnmarkedRange(g: Graph, types: seq<TypeInfo>)
    requires WellFormed(g)
    ensures forall v: nat :: v in Unmarked(g, types) ==> 0 < v <= g.maxvar
  {
    forall v: nat | v in Unmarked(g, types) ensures 0 < v {
      DefinedOnce(g, v);
    }
  }

  /** Looking only at unmarked gates finds every cycle. */
  lemma UnmarkedExact(g: Graph, types: seq<TypeInfo>)
    requires Consistent(g, types)
    ensures Cyclic<nat>(Unmarked(g, types)) <==> !Acyclic(g)
    ensures forall v: nat :: OnCycle<nat>(Unmarked(g, types), v) ==> OnCycle<nat>(Gates(g, false), v)
  {
    hide WellFormed, Indexed, Gates, Settled, NoneOpen, MarksDefined, OnCycle;
    var adj := Gates(g, false);
    var r := set v: nat | 0 <= v < |types| && types[v].mark;
    forall v: nat | v in r ensures !OnCycle<nat>(adj, v) {
      if v in adj {
        SettledUnmarked(g, types, v);
      } else {
        NoCycleOutside(adj, v);
      }
    }
    CyclesWithout<nat>(adj, r);
  }

  lemma NoCycleOutside(adj: Adj<nat>, v: nat)
    requires v !in adj
    ensures !OnCycle<nat>(adj, v)
  {
    forall p: seq<nat> | |p| >= 2 && p[0] == v ensures !Walk<nat>(adj, p) {
      assert !Edge<nat>(adj, p[0], p[1]);
    }
  }

  /** A passed check leaves a consistent state. */
  lemma CheckedConsistent(g: Graph, types: seq<TypeInfo>, order: seq<nat>)
    requires Consistent(g, types) && EverythingDefined(g) && Acyclic(g)
    requires forall v :: v in order ==> v in Unmarked(g, types)
    ensures Consistent(g, Flagged(types, {}, order))
    ensures StaysClear(types, g, Flagged(types, {}, order))
  {
    var r := Flagged(types, {}, order);
    forall v | 0 <= v < |r| && v <= g.maxvar ensures EntryOk(g, r[v], v) {
      assert EntryOk(g, types[v], v);
    }
    UnmarkedRange(g, types);
    forall v | 0 <= v < |r| && r[v].mark ensures r[v].input || r[v].latch || r[v].and {
      if v in order {
        UnmarkedGate(g, types, v);
      }
    }
    CheckedSettled(g, r);
  }

  /** Two steps, neither of which revives an entry. */
  lemma Followed(g: Graph, types: seq<TypeInfo>, g1: Graph, types1: seq<TypeInfo>, g2: Graph, types2: seq<TypeInfo>)
    requires StaysClear(types, g1, types1) && StaysClear(types1, g2, types2) && g.maxvar <= g1.maxvar <= g2.maxvar
    ensures StaysClear(types, g2, types2)
    ensures Clean(g, types) ==> Clean(g2, types2)
  {
    hide Clean, StaysClear;
    StaysClearTrans(types, g1, types1, g2, types2);
    CleanStays(g, types, g2, types2);
  }

  /** Only maxvar matters for what is stale. */
  lemma SameMaxvar(g: Graph, types: seq<TypeInfo>, g1: Graph, types1: seq<TypeInfo>, g2: Graph)
    requires StaysClear(types, g1, types1) && g1.maxvar == g2.maxvar
    ensures StaysClear(types, g2, types1) && (Clean(g1, types1) ==> Clean(g2, types1))
  {
  }

  lemma SameTypes(g: Graph, types: seq<TypeInfo>)
    ensures StaysClear(types, g, types)
  {
  }

  // ---------------------------------------------------------------------------
  // What an error of the check names
  // ---------------------------------------------------------------------------

  /** The first undefined literal of a list, without its sign. */
  ghost predicate Names(g: Graph, lits: seq<nat>, lit: nat) {
    exists k: nat :: NamesAt(g, lits, lit, k)
  }

  ghost predicate NamesAt(g: Graph, lits: seq<nat>, lit: nat, k: nat) {
    k < |lits| && lit == Strip(lits[k]) && !Defined(g, lits[k]) && forall j :: 0 <= j < k ==> Defined(g, lits[j])
  }

  /** The first undefined next state. */
  ghost predicate NamesNext(g: Graph, lit: nat) {
    exists k: nat :: NamesNextAt(g, lit, k)
  }

  ghost predicate NamesNextAt(g: Graph, lit: nat, k: nat) {
    && k < |g.latches| && lit == g.latches[k].next && !Defined(g, lit)
    && forall j :: 0 <= j < k ==> Defined(g, g.latches[j].next)
  }

  /** The first undefined literal of the first justice property that has one. */
  ghost predicate NamesJustice(g: Graph, lit: nat) {
    exists k: nat :: NamesJusticeAt(g, lit, k)
  }

  ghost predicate NamesJusticeAt(g: Graph, lit: nat, k: nat) {
    && k < |g.justice| && Names(g, g.justice[k], lit)
    && forall j :: 0 <= j < k ==> AllDefined(g, g.justice[j])
  }

  /** The first undefined operand of the first gate that has one. */
  ghost predicate NamesRhs(g: Graph, lit: nat) {
    exists k: nat :: NamesRhsAt(g, lit, k)
  }

  ghost predicate NamesRhsAt(g: Graph, lit: nat, k: nat) {
    && k < |g.ands| && !Defined(g, lit)
    && lit == (if Defined(g, g.ands[k].rhs0) then g.ands[k].rhs1 else g.ands[k].rhs0)
    && forall j :: 0 <= j < k ==> Defined(g, g.ands[j].rhs0) && Defined(g, g.ands[j].rhs1)
  }

  /** The literal that the check reports: the first undefined one, in the order of its parts. */
  ghost predicate Blames(g: Graph, lit: nat) {
    if !NextDefined(g) then NamesNext(g, lit)
    else if !AllDefined(g, g.outputs) then Names(g, g.outputs, lit)
    else if !AllDefined(g, g.bad) then Names(g, g.bad, lit)
    else if !AllDefined(g, g.constraints) then Names(g, g.constraints, lit)
    else if !JusticeDefined(g) then NamesJustice(g, lit)
    else if !AllDefined(g, g.fairness) then Names(g, g.fairness, lit)
    else NamesRhs(g, lit)
  }

  class Aiger {
    var public: Graph
    var types: seq<TypeInfo>
    var error: Option<Error>

    /** The state between calls while no error has been reported. */
    ghost predicate Valid()
      reads this
    {
      error.None? && Consistent(public, types)
    }

    constructor ()
      ensures Valid() && Clean(public, types)
      ensures public == EMPTY && types == [] && error == None
    {
      public := EMPTY;
      types := [];
      error := None;
      new;
      EmptyConsistent();
    }

    // -------------------------------------------------------------------------
    // Building
    // -------------------------------------------------------------------------

    /** Raises maxvar and doubles the index until the literal's variable fits. */
    method ImportLiteral(lit: Word)
      modifies this`public, this`types
      ensures public == Import(old(public), lit)
      ensures Grown(old(types), types) && Var(lit) < |types|
    {
      var v := Var(lit);
      if v > public.maxvar {
        public := public.(maxvar := v);
      }
      while v >= |types|
        invariant public == Import(old(public), lit)
        invariant Grown(old(types), types)
        decreases v - |types|
      {
        var n := if |types| == 0 then 1 else 2 * |types|;
        types := types + seq(n - |types|, _ => CLEAR);
      }
    }

    /** Sets maxvar of an empty graph and sizes the index for it. */
    method SetMaxvar(m: nat)
      requires Valid() && ClearTo(public, types, m) && public == EMPTY && 2 * m + 1 < WORD
      modifies this`public, this`types
      ensures Valid() && |types| >= |old(types)| && StaysClear(old(types), public, types)
      ensures Clean(old(public), old(types)) ==> Clean(public, types)
      ensures public == EMPTY.(maxvar := m) && m < |types|
    {
      hide Consistent, Clean, ClearTo, StaysClear;
      public := public.(maxvar := m);
      if |types| < m + 1 {
        types := types + seq(m + 1 - |types|, _ => CLEAR);
      }
      ImportConsistent(EMPTY, old(types), types, 2 * m);
      CleanStays(EMPTY, old(types), public, types);
    }

    method AddInput(lit: Word)
      requires Valid() && ClearTo(public, types, Var(lit))
      requires lit != 0 && lit % 2 == 0 && Unused(types, Var(lit))
      modifies this`public, this`types
      ensures Valid() && |types| >= |old(types)| && StaysClear(old(types), public, types)
      ensures Clean(old(public), old(types)) ==> Clean(public, types)
      ensures public == Import(old(public), lit).(inputs := old(public).inputs + [lit])
    {
      hide Consistent, Clean, ClearTo, StaysClear;
      ImportLiteral(lit);
      ghost var t1 := types;
      ImportConsistent(old(public), old(types), t1, lit);
      var v := Var(lit);
      AddInputConsistent(public, types, lit);
      types := types[v := types[v].(input := true, idx := |public.inputs|)];
      public := public.(inputs := public.inputs + [lit]);
      Followed(old(public), old(types), Import(old(public), lit), t1, public, types);
    }

    method AddLatch(lit: Word, next: Word)
      requires Valid() && ClearTo(public, types, Var(lit)) && ClearTo(public, types, Var(next))
      requires lit != 0 && lit % 2 == 0 && Unused(types, Var(lit))
      modifies this`public, this`types
      ensures Valid() && |types| >= |old(types)| && StaysClear(old(types), public, types)
      ensures Clean(old(public), old(types)) ==> Clean(public, types)
      ensures public == Import(Import(old(public), lit), next).(latches := old(public).latches + [Latch(lit, next, 0)])
    {
      hide Consistent, Clean, ClearTo, StaysClear;
      ghost var g0, t0 := public, types;
      ImportLiteral(lit);
      var v := Var(lit);
      ghost var g1, t1 := public, types;
      ImportConsistent(g0, t0, t1, lit);
      ClearStays(g0, t0, g1, t1, Var(next));
      types := types[v := types[v].(latch := true, idx := |public.latches|)];
      ImportLiteral(next);
      ghost var g2, t2 := public, types[v := t1[v]];
      ImportConsistent(g1, t1, t2, next);
      Followed(g0, t0, g1, t1, g2, t2);
      AddLatchConsistent(public, t2, lit, next);
      assert types == t2[v := t2[v].(latch := true, idx := |public.latches|)];
      public := public.(latches := public.latches + [Latch(lit, next, 0)]);
      Followed(g0, t0, g2, t2, public, types);
    }

    method AddAnd(lhs: Word, rhs0: Word, rhs1: Word)
      requires Valid() && ClearTo(public, types, Var(lhs))
      requires ClearTo(public, types, Var(rhs0)) && ClearTo(public, types, Var(rhs1))
      requires lhs > 1 && lhs % 2 == 0 && Unused(types, Var(lhs))
      modifies this`public, this`types
      ensures Valid() && |types| >= |old(types)| && StaysClear(old(types), public, types)
      ensures Clean(old(public), old(types)) ==> Clean(public, types)
      ensures public
           == Import(Import(Import(old(public), lhs), rhs0), rhs1).(ands := old(public).ands + [And(lhs, rhs0, rhs1)])
    {
      hide Consistent, Clean, ClearTo, StaysClear;
      ghost var g0, t0 := public, types;
      ImportLiteral(lhs);
      var v := Var(lhs);
      ghost var g1, t1 := public, types;
      ImportConsistent(g0, t0, t1, lhs);
      ClearStays(g0, t0, g1, t1, Var(rhs0));
      ClearStays(g0, t0, g1, t1, Var(rhs1));
      types := types[v := types[v].(and := true, idx := |public.ands|)];
      ImportLiteral(rhs0);
      ghost var g2, t2 := public, types[v := t1[v]];
      ImportConsistent(g1, t1, t2, rhs0);
      ClearStays(g1, t1, g2, t2, Var(rhs1));
      Followed(g0, t0, g1, t1, g2, t2);
      ImportLiteral(rhs1);
      ghost var g3, t3 := public, types[v := t1[v]];
      ImportConsistent(g2, t2, t3, rhs1);
      Followed(g0, t0, g2, t2, g3, t3);
      AddAndConsistent(public, t3, And(lhs, rhs0, rhs1));
      assert types == t3[v := t3[v].(and := true, idx := |public.ands|)];
      public := public.(ands := public.ands + [And(lhs, rhs0, rhs1)]);
      Followed(g0, t0, g3, t3, public, types);
    }

    method AddReset(lit: Word, reset: Word)
      requires Valid() && ClearTo(public, types, Var(lit))
      requires (reset <= 1 || reset == lit) && lit != 0 && lit % 2 == 0
      requires Var(lit) < |types| && types[Var(lit)].latch
      modifies this`public, this`types
      ensures Valid() && |types| >= |old(types)| && StaysClear(old(types), public, types)
      ensures Clean(old(public), old(types)) ==> Clean(public, types)
      ensures IsLatchVar(old(public), Var(lit))
      ensures var k := LatchAt(old(public), Var(lit));
        public == old(public).(latches := old(public).latches[k := old(public).latches[k].(reset := reset)])
    {
      hide WellFormed, Settled, Extended, Clean, StaysClear;
      assert Var(lit) <= public.maxvar by {
        assert !Unused(types, Var(lit));
      }
      ImportLiteral(lit);
      ImportConsistent(old(public), old(types), types, lit);
      CleanStays(old(public), old(types), public, types);
      Lookup(public, types, Var(lit));
      var k := types[Var(lit)].idx;
      LatchLitAt(public, Var(lit));
      AddResetConsistent(public, types, k, reset);
      SameMaxvar(old(public), old(types), public, types, public.(latches := public.latches[k := public.latches[k].(reset := reset)]));
      public := public.(latches := public.latches[k := public.latches[k].(reset := reset)]);
    }

    method AddOutput(lit: Word)
      requires Valid() && ClearTo(public, types, Var(lit))
      modifies this`public, this`types
      ensures Valid() && |types| >= |old(types)| && StaysClear(old(types), public, types)
      ensures Clean(old(public), old(types)) ==> Clean(public, types)
      ensures public == Import(old(public), lit).(outputs := old(public).outputs + [lit])
    {
      hide Indexed, Settled, Clean, ClearTo, StaysClear;
      ImportLiteral(lit);
      ImportConsistent(old(public), old(types), types, lit);
      CleanStays(old(public), old(types), public, types);
      ghost var h := public.(outputs := public.outputs + [lit]);
      AddRootConsistent(public, types, h);
      SameMaxvar(old(public), old(types), public, types, h);
      public := public.(outputs := public.outputs + [lit]);
    }

    method AddBad(lit: Word)
      requires Valid() && ClearTo(public, types, Var(lit))
      modifies this`public, this`types
      ensures Valid() && |types| >= |old(types)| && StaysClear(old(types), public, types)
      ensures Clean(old(public), old(types)) ==> Clean(public, types)
      ensures public == Import(old(public), lit).(bad := old(public).bad + [lit])
    {
      hide Indexed, Settled, Clean, ClearTo, StaysClear;
      ImportLiteral(lit);
      ImportConsistent(old(public), old(types), types, lit);
      CleanStays(old(public), old(types), public, types);
      ghost var h := public.(bad := public.bad + [lit]);
      AddRootConsistent(public, types, h);
      SameMaxvar(old(public), old(types), public, types, h);
      public := public.(bad := public.bad + [lit]);
    }

    method AddConstraint(lit: Word)
      requires Valid() && ClearTo(public, types, Var(lit))
      modifies this`public, this`types
      ensures Valid() && |types| >= |old(types)| && StaysClear(old(types), public, types)
      ensures Clean(old(public), old(types)) ==> Clean(public, types)
      ensures public == Import(old(public), lit).(constraints := old(public).constraints + [lit])
    {
      hide Indexed, Settled, Clean, ClearTo, StaysClear;
      ImportLiteral(lit);
      ImportConsistent(old(public), old(types), types, lit);
      CleanStays(old(public), old(types), public, types);
      ghost var h := public.(constraints := public.constraints + [lit]);
      AddRootConsistent(public, types, h);
      SameMaxvar(old(public), old(types), public, types, h);
      public := public.(constraints := public.constraints + [lit]);
    }

    method AddFairness(lit: Word)
      requires Valid() && ClearTo(public, types, Var(lit))
      modifies this`public, this`types
      ensures Valid() && |types| >= |old(types)| && StaysClear(old(types), public, types)
      ensures Clean(old(public), old(types)) ==> Clean(public, types)
      ensures public == Import(old(public), lit).(fairness := old(public).fairness + [lit])
    {
      hide Indexed, Settled, Clean, ClearTo, StaysClear;
      ImportLiteral(lit);
      ImportConsistent(old(public), old(types), types, lit);
      CleanStays(old(public), old(types), public, types);
      ghost var h := public.(fairness := public.fairness + [lit]);
      AddRootConsistent(public, types, h);
      SameMaxvar(old(public), old(types), public, types, h);
      public := public.(fairness := public.fairness + [lit]);
    }

    method AddJustice(lits: seq<Word>)
      requires Valid() && forall i :: 0 <= i < |lits| ==> ClearTo(public, types, Var(lits[i]))
      modifies this`public, this`types
      ensures Valid() && |types| >= |old(types)| && StaysClear(old(types), public, types)
      ensures Clean(old(public), old(types)) ==> Clean(public, types)
      ensures public == ImportAll(old(public), lits).(justice := old(public).justice + [lits])
    {
      hide Indexed, Settled, WellFormed, Clean, ClearTo, StaysClear;
      ghost var g0, t0 := public, types;
      SameTypes(g0, t0);
      var i := 0;
      while i < |lits|
        invariant 0 <= i <= |lits|
        invariant Valid() && |types| >= |old(types)| && StaysClear(t0, public, types)
        invariant public == ImportAll(old(public), lits[..i]) && g0.maxvar <= public.maxvar
        invariant InRange(public, lits[..i])
      {
        assert lits[..i + 1][..i] == lits[..i];
        ghost var g, t := public, types;
        ClearStays(g0, t0, g, t, Var(lits[i]));
        ImportLiteral(lits[i]);
        ImportConsistent(g, t, types, lits[i]);
        StaysClearTrans(t0, g, t, public, types);
        i := i + 1;
      }
      assert lits[..|lits|] == lits;
      AddJusticeConsistent(public, types, lits);
      CleanStays(g0, t0, public, types);
      SameMaxvar(g0, t0, public, types, public.(justice := public.justice + [lits]));
      public := public.(justice := public.justice + [lits]);
    }

    // -------------------------------------------------------------------------
    // Lookup
    // -------------------------------------------------------------------------

    /** The position of the input that defines the literal's variable, found through the index. */
    method IsInput(lit: nat) returns (r: Option<nat>)
      requires Valid() && Var(lit) <= public.maxvar && types != []
      ensures r == if IsInputVar(public, Var(lit)) then Some(InputAt(public, Var(lit))) else None
    {
      Lookup(public, types, Var(lit));
      var t := types[Var(lit)];
      r := if t.input then Some(t.idx) else None;
    }

    method IsLatch(lit: nat) returns (r: Option<nat>)
      requires Valid() && Var(lit) <= public.maxvar && types != []
      ensures r == if IsLatchVar(public, Var(lit)) then Some(LatchAt(public, Var(lit))) else None
    {
      Lookup(public, types, Var(lit));
      var t := types[Var(lit)];
      r := if t.latch then Some(t.idx) else None;
    }

    method IsAnd(lit: nat) returns (r: Option<nat>)
      requires Valid() && Var(lit) <= public.maxvar && types != []
      ensures r == if IsAndVar(public, Var(lit)) then Some(AndAt(public, Var(lit))) else None
    {
      Lookup(public, types, Var(lit));
      var t := types[Var(lit)];
      r := if t.and then Some(t.idx) else None;
    }

    // -------------------------------------------------------------------------
    // Checking
    // -------------------------------------------------------------------------

    method LiteralDefined(lit: nat) returns (b: bool)
      requires Valid() && Var(lit) <= public.maxvar
      ensures b <==> Defined(public, lit)
    {
      var v := Var(lit);
      if v == 0 {
        return true;
      }
      Lookup(public, types, v);
      var t := types[v];
      b := t.and || t.input || t.latch;
    }

    /** The loop over outputs, bad states, constraints, fairness or one justice property. */
    method CheckListDefined(lits: seq<nat>)
      requires Valid() && InRange(public, lits)
      modifies this`error
      ensures error.None? <==> AllDefined(public, lits)
      ensures error.Some? ==> error.value.Undefined? && Names(public, lits, error.value.lit)
    {
      hide Consistent, Defined;
      var i := 0;
      while error.None? && i < |lits|
        invariant 0 <= i <= |lits|
        invariant match error
          case None => forall j :: 0 <= j < i ==> Defined(public, lits[j])
          case Some(e) => !AllDefined(public, lits) && e.Undefined? && Names(public, lits, e.lit)
      {
        var lit := Strip(lits[i]);
        StripDefined(public, lits[i]);
        if lit > 1 {
          var b := LiteralDefined(lit);
          if !b {
            assert NamesAt(public, lits, lit, i);
            error := Some(Undefined(lit));
          }
        }
        i := i + 1;
      }
    }

    method CheckNextDefined()
      requires Valid()
      modifies this`error
      ensures error.None? <==> NextDefined(public)
      ensures error.Some? ==> error.value.Undefined? && NamesNext(public, error.value.lit)
    {
      hide Indexed, Settled, Defined;
      var i := 0;
      while error.None? && i < |public.latches|
        invariant 0 <= i <= |public.latches|
        invariant match error
          case None => forall j :: 0 <= j < i ==> Defined(public, public.latches[j].next)
          case Some(e) => !NextDefined(public) && e.Undefined? && NamesNext(public, e.lit)
      {
        var next := public.latches[i].next;
        var b := LiteralDefined(next);
        if !b {
          assert NamesNextAt(public, next, i);
          error := Some(Undefined(next));
        }
        i := i + 1;
      }
    }

    method CheckJusticeDefined()
      requires Valid()
      modifies this`error
      ensures error.None? <==> JusticeDefined(public)
      ensures error.Some? ==> error.value.Undefined? && NamesJustice(public, error.value.lit)
    {
      hide Indexed, Settled, Defined;
      var i := 0;
      while error.None? && i < |public.justice|
        invariant 0 <= i <= |public.justice|
        invariant match error
          case None => forall j :: 0 <= j < i ==> AllDefined(public, public.justice[j])
          case Some(e) => !JusticeDefined(public) && e.Undefined? && NamesJustice(public, e.lit)
      {
        CheckListDefined(public.justice[i]);
        assert error.Some? ==> NamesJusticeAt(public, error.value.lit, i);
        i := i + 1;
      }
    }

    method CheckRightHandSidesDefined()
      requires Valid()
      modifies this`error
      ensures error.None? <==> RhsDefined(public)
      ensures error.Some? ==> error.value.Undefined? && NamesRhs(public, error.value.lit)
    {
      hide Indexed, Settled, Defined;
      var i := 0;
      while error.None? && i < |public.ands|
        invariant 0 <= i <= |public.ands|
        invariant match error
          case None => forall j :: 0 <= j < i ==> Defined(public, public.ands[j].rhs0) && Defined(public, public.ands[j].rhs1)
          case Some(e) => !RhsDefined(public) && e.Undefined? && NamesRhs(public, e.lit)
      {
        var a := public.ands[i];
        var b := LiteralDefined(a.rhs0);
        if !b {
          assert NamesRhsAt(public, a.rhs0, i);
          error := Some(Undefined(a.rhs0));
        } else {
          b := LiteralDefined(a.rhs1);
          if !b {
            assert NamesRhsAt(public, a.rhs1, i);
            error := Some(Undefined(a.rhs1));
          }
        }
        i := i + 1;
      }
    }

    /** The depth-first search from one unmarked gate. */
    method Explore(i: nat, ghost types0: seq<TypeInfo>, ghost adj: Adj<nat>, ghost order0: seq<nat>)
      returns (ghost order: seq<nat>)
      requires error.None? && WellFormed(public) && Indexed(public, types0) && NoneOpen(types0)
      requires adj == Unmarked(public, types0) && types == Flagged(types0, {}, order0)
      requires i in adj && i !in order0
      modifies this`types, this`error
      ensures match Visit(adj, i, {}, order0)
        case Done(o) => error.None? && order == o && types == Flagged(types0, {}, o)
        case Cycle(c) => error == Some(CyclicGate(c))
    {
      hide WellFormed, Indexed, Unmarked, Visit, Resume, OpenOf, WellStacked, Left;
      UnmarkedRange(public, types0);
      var stack: seq<nat> := [i];
      order := order0;
      Start(adj, i, order0);
      while stack != []
        invariant error.None?
        invariant Searching(public, adj, stack, order)
        invariant Resume(adj, stack, order) == Visit(adj, i, {}, order0)
        invariant types == Flagged(types0, OpenOf(stack), order)
        decreases Left(adj, stack, order), |stack|
      {
        var top := |stack|;
        var j := stack[top - 1];
        if j != 0 {
          UnmarkedGate(public, types0, j);
          if types[j].mark && types[j].onstack {
            Closes(adj, stack, order);
            error := Some(CyclicGate(j));
            return;
          }
          if !types[j].and || types[j].mark {
            Skip(adj, stack, order);
            SameLeft(adj, stack, stack[..top - 1], order);
            stack := stack[..top - 1];
            continue;
          }
          var and := public.ands[types[j].idx];
          ghost var stack0, open := stack, OpenOf(stack);
          OpenStep(public, adj, stack, order, j, Var(and.rhs0), Var(and.rhs1), NonZero(Var(and.rhs0)), NonZero(Var(and.rhs1)));
          FlaggedOpen(types0, open, order, j);
          types := types[j := types[j].(mark := true, onstack := true)];
          stack := stack + [0];
          var tmp := Var(and.rhs0);
          if tmp != 0 {
            stack := stack + [tmp];
          }
          tmp := Var(and.rhs1);
          if tmp != 0 {
            stack := stack + [tmp];
          }
          assert stack == stack0 + [0] + NonZero(Var(and.rhs0)) + NonZero(Var(and.rhs1));
        } else {
          CloseStep(public, adj, stack, order);
          j := stack[top - 2];
          UnmarkedGate(public, types0, j);
          FlaggedClose(types0, OpenOf(stack[..top - 2]), order, j);
          types := types[j := types[j].(onstack := false)];
          stack := stack[..top - 2];
          order := order + [j];
        }
      }
      Stop(adj, order);
    }

    method CheckForCycles()
      requires Valid() && EverythingDefined(public)
      modifies this`types, this`error
      ensures error.None? <==> Acyclic(public)
      ensures error.None? ==> Valid() && StaysClear(old(types), public, types)
      ensures error.Some? ==> error.value.CyclicGate? && OnCycle<nat>(Gates(public, false), error.value.v)
    {
      hide WellFormed, Indexed, Settled, Unmarked, Visit, VisitAll, EverythingDefined, Cyclic, OnCycle;
      ghost var types0, adj, order: seq<nat> := types, Unmarked(public, types), [];
      FlaggedNone(types0);
      UnmarkedRange(public, types0);
      ScanNone(adj);
      var i := 1;
      while error.None? && i <= public.maxvar
        invariant 1 <= i <= public.maxvar + 1
        invariant match error
          case None => VisitAll(adj, UpTo(i - 1), {}, []) == Done(order) && types == Flagged(types0, {}, order)
          case Some(e) => e.CyclicGate? && VisitAll(adj, UpTo(public.maxvar), {}, []) == Cycle(e.v)
      {
        ScanNext(adj, i);
        UnmarkedGate(public, types0, i);
        if !types[i].and || types[i].mark {
          VisitIdle(adj, i, order);
        } else {
          order := Explore(i, types0, adj, order);
          if error.Some? {
            ScanCycle(adj, i, public.maxvar);
          }
        }
        i := i + 1;
      }
      ScanExact(adj, public.maxvar);
      UnmarkedExact(public, types0);
      if error.None? {
        ScanListed(adj, public.maxvar);
        CheckedConsistent(public, types0, order);
      }
    }

    /** The consistency check: all references defined and no gate cyclic. */
    method Check() returns (e: Option<Error>)
      requires Valid()
      modifies this`types, this`error
      ensures e == error
      ensures e.None? <==> Checked(public)
      ensures e.None? ==> Valid() && StaysClear(old(types), public, types)
      ensures e.Some? ==> match e.value
        case Undefined(lit) => Blames(public, lit)
        case CyclicGate(v) => EverythingDefined(public) && OnCycle<nat>(Gates(public, false), v)
    {
      hide Names, NamesNext, NamesJustice, NamesRhs, Indexed, Settled, NextDefined, AllDefined, JusticeDefined, RhsDefined, Defined, Cyclic, OnCycle, Gates, DefiningLit, Distinct;
      CheckNextDefined();
      if error.None? {
        CheckListDefined(public.outputs);
      }
      if error.None? {
        CheckListDefined(public.bad);
      }
      if error.None? {
        CheckListDefined(public.constraints);
      }
      if error.None? {
        CheckJusticeDefined();
      }
      if error.None? {
        CheckListDefined(public.fairness);
      }
      if error.None? {
        CheckRightHandSidesDefined();
      }
      if error.None? {
        CheckForCycles();
      }
      e := error;
    }

    // -------------------------------------------------------------------------
    // Reencoding
    // -------------------------------------------------------------------------

    /** Gives the next code to a variable. */
    method NewCode(v: nat, n: nat, code: array<nat>) returns (n': nat)
      requires 2 * v + 1 < code.Length && code[2 * v] == 0
      modifies code
      ensures code[..] == WithCode(old(code[..]), v, n) && n' == n + 2
    {
      code[2 * v] := n;
      code[2 * v + 1] := n + 1;
      n' := n + 2;
    }

    /** Leaves the operands of a gate pending, the larger one below the smaller one. */
    method PushOperands(v: nat, stack: seq<nat>, ghost g: Graph, ghost types0: seq<TypeInfo>, ghost open: set<nat>)
      returns (stack': seq<nat>)
      requires WellFormed(g) && RhsDefined(g) && Indexed(g, types0) && v in Gates(g, true) && public.ands == g.ands
      requires types == Stacked(types0, open)
      ensures stack' == stack + Pushes(g, types0, open, Larger(g, types0, v)) + Pushes(g, types0, open, Smaller(g, types0, v))
    {
      hide WellFormed, RhsDefined, Indexed, Gates;
      GateEntry(g, types0, v);
      var and := public.ands[types[v].idx];
      var child0, child1 := Var(and.rhs0), Var(and.rhs1);
      if child0 < child1 {
        child0, child1 := child1, child0;
      }
      stack' := stack;
      if child0 != 0 {
        var t := types[child0];
        if !t.input && !t.latch && !t.onstack {
          stack' := stack' + [child0];
        }
      }
      if child1 != 0 {
        var t := types[child1];
        if !t.input && !t.latch && !t.onstack {
          stack' := stack' + [child1];
        }
      }
    }

    /** The search from a gate that has no code yet. */
    method SearchFrom(v: nat, code: array<nat>, n: nat, ghost g: Graph, ghost order: seq<nat>)
      returns (n': nat, ghost order': seq<nat>)
      requires WellFormed(g) && RhsDefined(g) && Indexed(g, types) && NoneOpen(types) && public.ands == g.ands
      requires v in Gates(g, true) && Visit(Gates(g, true), v, {}, order).Done? && Distinct(order)
      requires Table(code[..], g, order) && n == Fresh(g, order)
      modifies this`types, code
      ensures types == old(types)
      ensures Visit(Gates(g, true), v, {}, order) == Done(order')
      ensures Table(code[..], g, order') && n' == Fresh(g, order')
    {
      hide WellFormed, RhsDefined, Indexed, Gates, Visit, Resume, OpenOf, WellStacked, Left, NoneOpen, Searching, Gated, Table, Fresh;
      ghost var adj, types0 := Gates(g, true), types;
      order', n' := order, n;
      var stack: seq<nat> := [v];
      StartSearch(g, types0, v, order);
      while |stack| > 0
        invariant Searching(g, adj, stack, order') && Gated(adj, stack) && Distinct(order')
        invariant Resume(adj, stack, order') == Visit(adj, v, {}, order)
        invariant types == Stacked(types0, OpenOf(stack))
        invariant Table(code[..], g, order') && n' == Fresh(g, order')
        decreases Left(adj, stack, order'), |stack|
      {
        var top := |stack| - 1;
        ghost var stack0 := stack;
        var oldVar := stack[top];
        if oldVar != 0 {
          TopGate(g, types0, code[..], stack, order');
          stack := stack[..top];
          if code[2 * oldVar] != 0 {
            DropTop(g, adj, stack0, order');
            continue;
          }
          if types[oldVar].onstack {
            assert false;
          }
          StackedOpen(types0, OpenOf(stack0), oldVar);
          types := types[oldVar := types[oldVar].(onstack := true)];
          stack := stack + [oldVar];
          stack := stack + [0];
          assert stack == stack0 + [0];
          OperandsIdle(g, types0, stack0, order', oldVar);
          stack := PushOperands(oldVar, stack, g, types0, OpenOf(stack0) + {oldVar});
          OperandsPushed(g, types0, stack0, order', oldVar);
        } else {
          CloseTop(g, types0, code[..], stack, order');
          stack := stack[..top];
          oldVar := stack[top - 1];
          stack := stack[..top - 1];
          assert stack == stack0[..|stack0| - 2];
          StackedClose(types0, OpenOf(stack), oldVar);
          types := types[oldVar := types[oldVar].(onstack := false)];
          n' := NewCode(oldVar, n', code);
          order' := order' + [oldVar];
        }
      }
      StopSearch(adj, types0, order');
    }

    /** The code of a literal, searching the cone of a gate that has none yet. */
    method ReencodeLit(lit: nat, code: array<nat>, n: nat, ghost g: Graph, ghost order: seq<nat>)
      returns (res: nat, n': nat, ghost order': seq<nat>)
      requires Checked(g) && Indexed(g, types) && NoneOpen(types) && public.ands == g.ands
      requires Topological<nat>(Gates(g, true), order)
      requires Table(code[..], g, order) && n == Fresh(g, order)
      requires Defined(g, lit) && Var(lit) <= g.maxvar
      modifies this`types, code
      ensures types == old(types)
      ensures order' == Next(Gates(g, true), Var(lit), order)
      ensures Table(code[..], g, order') && n' == Fresh(g, order')
      ensures Coded(g, order', lit) && res == CodeLit(g, order', lit)
    {
      hide WellFormed, EverythingDefined, Indexed, Gates, Defined, Visit, CodeLit, CodeVar, Next, Topological, RhsDefined, Fresh, NoneOpen;
      if lit < 2 {
        CodedIdle(g, order, lit);
        ConstantCode(g, order, lit);
        return lit, n, order;
      }
      res := code[lit];
      if res != 0 {
        CodedNonZero(g, order, lit);
        CodedIdle(g, order, lit);
        return res, n, order;
      }
      var v := Var(lit);
      UncodedGate(g, order, lit);
      CheckedParts(g);
      GateEntry(g, types, v);
      if !types[v].and {
        assert false;
      }
      NextRuns(g, v, order);
      OrderDistinct(g, order);
      n', order' := SearchFrom(v, code, n, g, order);
      NextCodes(g, v, order, lit);
      res := code[lit];
    }

    /** The loop over a list of root literals: outputs, bad states, constraints, fairness, one justice property. */
    method ReencodeList(lits: seq<nat>, code: array<nat>, n: nat, ghost g: Graph, ghost order: seq<nat>)
      returns (res: seq<nat>, n': nat, ghost order': seq<nat>)
      requires Checked(g) && Indexed(g, types) && NoneOpen(types) && public.ands == g.ands
      requires Topological<nat>(Gates(g, true), order)
      requires Table(code[..], g, order) && n == Fresh(g, order)
      requires AllDefined(g, lits) && InRange(g, lits)
      modifies this`types, code
      ensures types == old(types)
      ensures order' == After(Gates(g, true), lits, order)
      ensures Table(code[..], g, order') && n' == Fresh(g, order')
      ensures AllCoded(g, order', lits) && res == CodeAll(g, order', lits)
    {
      hide Checked, Indexed, Gates, Defined, Next, After, Topological, Table, Coded, CodeLit;
      res, n', order' := [], n, order;
      AfterNone(Gates(g, true), order);
      var i := 0;
      while i < |lits|
        invariant 0 <= i <= |lits| && types == old(types)
        invariant order' == After(Gates(g, true), lits[..i], order)
        invariant Table(code[..], g, order') && n' == Fresh(g, order')
        invariant AllCoded(g, order', lits[..i]) && res == CodeAll(g, order', lits[..i])
      {
        ghost var o := order';
        AfterGrows(g, lits[..i], order);
        NextGrows(g, Var(lits[i]), o);
        AfterOne(Gates(g, true), lits, i, order);
        var r;
        r, n', order' := ReencodeLit(lits[i], code, n', g, o);
        CodesGrow(g, o, order', lits, i);
        res := res + [r];
        i := i + 1;
      }
      assert lits[..|lits|] == lits;
    }

    /** The loop that recodes next state and reset of every latch in place. */
    method ReencodeLatches(code: array<nat>, n: nat, ghost g: Graph)
      returns (n': nat, ghost order': seq<nat>)
      requires Checked(g) && Indexed(g, types) && NoneOpen(types) && public == g
      requires Table(code[..], g, []) && n == Fresh(g, [])
      modifies this`types, this`public, code
      ensures types == old(types)
      ensures order' == After(Gates(g, true), LatchRoots(g.latches), [])
      ensures Table(code[..], g, order') && n' == Fresh(g, order')
      ensures LatchesCoded(g, order', |g.latches|)
      ensures public == g.(latches := LatchesSoFar(g, order', |g.latches|))
    {
      hide Checked, Indexed, Gates, Defined, Next, After, Topological, Table, Coded, CodeLit, NoneOpen, Fresh, LatchesCoded;
      ghost var adj := Gates(g, true);
      n', order' := n, [];
      AfterNone(adj, []);
      NoLatches(g);
      var i := 0;
      while i < |public.latches|
        invariant 0 <= i <= |g.latches| && types == old(types)
        invariant order' == After(adj, LatchRoots(g.latches[..i]), [])
        invariant Table(code[..], g, order') && n' == Fresh(g, order')
        invariant LatchesCoded(g, order', i) && public == g.(latches := LatchesSoFar(g, order', i))
      {
        ghost var o := order';
        LatchOrder(g, i, o);
        var oldLit := public.latches[i].next;
        var r;
        r, n', order' := ReencodeLit(oldLit, code, n', g, o);
        public := public.(latches := public.latches[i := public.latches[i].(next := r)]);
        ghost var o1 := order';
        oldLit := public.latches[i].reset;
        r, n', order' := ReencodeLit(oldLit, code, n', g, o1);
        public := public.(latches := public.latches[i := public.latches[i].(reset := r)]);
        LatchesGrow(g, o, o1, order', i);
        NextLatch(adj, g.latches, i, []);
        i := i + 1;
      }
      assert g.latches[..|g.latches|] == g.latches;
    }

    /** The loops over the literals of every justice property. */
    method ReencodeRows(rows: seq<seq<nat>>, code: array<nat>, n: nat, ghost g: Graph, ghost order: seq<nat>)
      returns (res: seq<seq<nat>>, n': nat, ghost order': seq<nat>)
      requires Checked(g) && Indexed(g, types) && NoneOpen(types) && public.ands == g.ands
      requires Topological<nat>(Gates(g, true), order)
      requires Table(code[..], g, order) && n == Fresh(g, order)
      requires rows == g.justice
      modifies this`types, code
      ensures types == old(types)
      ensures order' == After(Gates(g, true), Flatten(rows), order)
      ensures Table(code[..], g, order') && n' == Fresh(g, order')
      ensures RowsCoded(g, order', rows) && res == CodeRows(g, order', rows)
    {
      hide Checked, Indexed, Gates, Defined, Next, After, Topological, Table, AllCoded, CodeLit, NoneOpen, Fresh, AllDefined, InRange;
      ghost var adj := Gates(g, true);
      res, n', order' := [], n, order;
      AfterNone(adj, order);
      var i := 0;
      while i < |rows|
        invariant 0 <= i <= |rows| && types == old(types)
        invariant order' == After(adj, Flatten(rows[..i]), order)
        invariant Table(code[..], g, order') && n' == Fresh(g, order')
        invariant RowsCoded(g, order', rows[..i]) && res == CodeRows(g, order', rows[..i])
      {
        ghost var o := order';
        RowOrder(g, i, order, o);
        var r;
        r, n', order' := ReencodeList(rows[i], code, n', g, o);
        RowsGrow(g, o, order', rows, i);
        NextRow(adj, rows, i, order);
        res := res + [r];
        i := i + 1;
      }
      assert rows[..|rows|] == rows;
    }

    /** Fills the code table with the codes of inputs and latches. */
    method SeedTable() returns (code: array<nat>, n: nat)
      requires WellFormed(public)
      ensures fresh(code) && Table(code[..], public, []) && n == Fresh(public, [])
    {
      hide WellFormed, Table, Seeded;
      ghost var g := public;
      code := new nat[2 * (public.maxvar + 1)](_ => 0);
      code[1] := 1;
      SeededNone(code[..], g);
      n := 2;
      var i := 0;
      while i < |public.inputs|
        invariant 0 <= i <= |g.inputs| && n == 2 * (1 + i)
        invariant Seeded(code[..], g, i, 0)
      {
        SeedInput(code[..], g, i);
        var oldLit := public.inputs[i];
        code[oldLit], code[oldLit + 1] := n, n + 1;
        n := n + 2;
        i := i + 1;
      }
      i := 0;
      while i < |public.latches|
        invariant 0 <= i <= |g.latches| && n == 2 * (1 + |g.inputs| + i)
        invariant Seeded(code[..], g, |g.inputs|, i)
      {
        SeedLatch(code[..], g, i);
        var oldLit := public.latches[i].lit;
        code[oldLit], code[oldLit + 1] := n, n + 1;
        n := n + 2;
        i := i + 1;
      }
      SeededTable(code[..], g);
    }

    /** Recodes every reference of the public tables and numbers the gates they need. */
    method ReencodeRoots(code: array<nat>, n: nat, ghost g: Graph) returns (n': nat)
      requires Checked(g) && Indexed(g, types) && NoneOpen(types) && public == g
      requires Table(code[..], g, []) && n == Fresh(g, [])
      modifies this`types, this`public, code
      ensures types == old(types)
      ensures Table(code[..], g, KeptOrder(g)) && n' == Fresh(g, KeptOrder(g))
      ensures public == RootsRewritten(g)
    {
      hide WellFormed, RhsDefined, NextDefined, Acyclic, AllDefined, InRange, JusticeDefined, Indexed, Gates, After, Topological, Table, AllCoded, NoneOpen, Fresh, RowsCoded, LatchesCoded, Flatten, LatchRoots, KeptOrder, RootsRewritten;
      RootRanges(g);
      StagesGrow(g);
      ghost var order;
      n', order := ReencodeLatches(code, n, g);
      var res;
      res, n', order := ReencodeList(public.outputs, code, n', g, order);
      public := public.(outputs := res);
      res, n', order := ReencodeList(public.bad, code, n', g, order);
      public := public.(bad := res);
      res, n', order := ReencodeList(public.constraints, code, n', g, order);
      public := public.(constraints := res);
      var rows;
      rows, n', order := ReencodeRows(public.justice, code, n', g, order);
      public := public.(justice := rows);
      res, n', order := ReencodeList(public.fairness, code, n', g, order);
      public := public.(fairness := res);
      StagesRewrite(g);
      StagesMakeOrder(g);
    }

    /** Drops the gates without a code and recodes the others in place. */
    method CompactAnds(code: array<nat>, ghost g: Graph, ghost order: seq<nat>)
      requires WellFormed(g) && Table(code[..], g, order) && public.ands == g.ands
      modifies this`public
      ensures public == old(public).(ands := Compact(g, order, g.ands))
    {
      hide WellFormed, Table, Compact, CodeLit;
      CompactNone(g, order);
      ghost var rest := public;
      var i, j := 0, 0;
      while i < |public.ands|
        invariant 0 <= j <= i <= |g.ands| && |public.ands| == |g.ands|
        invariant public == rest.(ands := public.ands)
        invariant public.ands[..j] == Compact(g, order, g.ands[..i])
        invariant public.ands[i..] == g.ands[i..]
      {
        GateLits(g, code[..], order, i);
        CompactNext(g, order, i);
        var and := public.ands[i];
        assert and == public.ands[i..][0] == g.ands[i];
        assert public.ands[i + 1..] == public.ands[i..][1..] == g.ands[i..][1..] == g.ands[i + 1..];
        var lhs := code[and.lhs];
        if lhs != 0 {
          var rhs0 := code[and.rhs0];
          var rhs1 := code[and.rhs1];
          if rhs0 < rhs1 {
            rhs0, rhs1 := rhs1, rhs0;
          }
          InPlace(public.ands, j, i, And(lhs, rhs0, rhs1));
          public := public.(ands := public.ands[j := And(lhs, rhs0, rhs1)]);
          j := j + 1;
        }
        i := i + 1;
      }
      assert g.ands[..|g.ands|] == g.ands;
      public := public.(ands := public.ands[..j]);
    }

    /** Clears the index entries of 1..maxvar; flags of searches stay. */
    method ClearTypes(ghost r: Graph)
      requires public.maxvar == r.maxvar < |types|
      modifies this`types
      ensures |types| == |old(types)| && PartlyTyped(r, old(types), types, 0, 0, 0)
    {
      ghost var types0 := types;
      var i := 1;
      while i <= public.maxvar
        invariant 1 <= i <= r.maxvar + 1 && |types| == |types0|
        invariant forall v :: 0 <= v < |types| ==> types[v] == (if v < i then Partly(r, types0[v], v, 0, 0, 0) else types0[v])
      {
        types := types[i := types[i].(input := false, latch := false, and := false, idx := 0)];
        i := i + 1;
      }
    }

    /** Enters the gates into the cleared index. */
    method TypeAnds(ghost r: Graph, ghost types0: seq<TypeInfo>)
      requires InNormalForm(r) && public.ands == r.ands
      requires r.maxvar == |r.inputs| + |r.latches| + |r.ands| < |types|
      requires PartlyTyped(r, types0, types, 0, 0, 0)
      modifies this`types
      ensures |types| == |old(types)| && PartlyTyped(r, types0, types, |r.ands|, 0, 0)
    {
      var i := 0;
      while i < |public.ands|
        invariant 0 <= i <= |r.ands| && PartlyTyped(r, types0, types, i, 0, 0)
      {
        var v := Var(public.ands[i].lhs);
        types := types[v := types[v].(and := true, idx := i)];
        i := i + 1;
      }
    }

    /** Gives the inputs their new literals and enters them into the index. */
    method TypeInputs(code: array<nat>, ghost g: Graph, ghost order: seq<nat>, ghost r: Graph, ghost types0: seq<TypeInfo>)
      requires WellFormed(g) && Table(code[..], g, order) && public.inputs == g.inputs && |r.inputs| == |g.inputs|
      requires r.maxvar == |r.inputs| + |r.latches| + |r.ands| < |types|
      requires PartlyTyped(r, types0, types, |r.ands|, 0, 0)
      modifies this`types, this`public
      ensures |types| == |old(types)| && PartlyTyped(r, types0, types, |r.ands|, |r.inputs|, 0)
      ensures public == old(public).(inputs := CodeInputs(g))
    {
      hide WellFormed, Table;
      var i := 0;
      while i < |public.inputs|
        invariant 0 <= i <= |r.inputs| && |public.inputs| == |g.inputs|
        invariant public == old(public).(inputs := public.inputs)
        invariant forall k :: 0 <= k < |g.inputs| ==> public.inputs[k] == (if k < i then 2 * (1 + k) else g.inputs[k])
        invariant PartlyTyped(r, types0, types, |r.ands|, i, 0)
      {
        TableInputs(g, code[..], order, i);
        var lit := code[public.inputs[i]];
        public := public.(inputs := public.inputs[i := lit]);
        types := types[Var(lit) := types[Var(lit)].(input := true, idx := i)];
        i := i + 1;
      }
      assert public.inputs == CodeInputs(g);
    }

    /** Gives the latches their new literals and enters them into the index. */
    method TypeLatches(code: array<nat>, ghost g: Graph, ghost order: seq<nat>, ghost r: Graph, ghost types0: seq<TypeInfo>)
      requires WellFormed(g) && Table(code[..], g, order) && LatchLits(public.latches) == LatchLits(g.latches)
      requires |r.inputs| == |g.inputs| && |r.latches| == |g.latches|
      requires r.maxvar == |r.inputs| + |r.latches| + |r.ands| < |types|
      requires PartlyTyped(r, types0, types, |r.ands|, |r.inputs|, 0)
      modifies this`types, this`public
      ensures PartlyTyped(r, types0, types, |r.ands|, |r.inputs|, |r.latches|)
      ensures public == old(public).(latches := public.latches) && |public.latches| == |g.latches| == |old(public.latches)|
      ensures forall k :: 0 <= k < |g.latches| ==>
        public.latches[k] == old(public.latches)[k].(lit := 2 * (1 + |g.inputs| + k))
    {
      hide WellFormed, Table;
      assert |LatchLits(public.latches)| == |LatchLits(g.latches)|;
      var i := 0;
      while i < |public.latches|
        invariant 0 <= i <= |r.latches| && |public.latches| == |g.latches|
        invariant public == old(public).(latches := public.latches)
        invariant forall k :: 0 <= k < |g.latches| ==>
          public.latches[k] == (if k < i then old(public.latches)[k].(lit := 2 * (1 + |g.inputs| + k)) else old(public.latches)[k])
        invariant PartlyTyped(r, types0, types, |r.ands|, |r.inputs|, i)
      {
        assert public.latches[i].lit == LatchLits(old(public.latches))[i] == LatchLits(g.latches)[i];
        TableLatches(g, code[..], order, i);
        var lit := code[public.latches[i].lit];
        public := public.(latches := public.latches[i := public.latches[i].(lit := lit)]);
        types := types[Var(lit) := types[Var(lit)].(latch := true, idx := i)];
        i := i + 1;
      }
    }

    method MaxInputOrLatch() returns (res: nat)
      ensures forall i :: 0 <= i < |public.inputs| ==> public.inputs[i] <= res
      ensures forall i :: 0 <= i < |public.latches| ==> public.latches[i].lit <= res
      ensures res == 0 || res in public.inputs || res in LatchLits(public.latches)
    {
      res := 0;
      var i := 0;
      while i < |public.inputs|
        invariant 0 <= i <= |public.inputs|
        invariant forall k :: 0 <= k < i ==> public.inputs[k] <= res
        invariant res == 0 || res in public.inputs
      {
        if public.inputs[i] > res {
          res := public.inputs[i];
        }
        i := i + 1;
      }
      i := 0;
      while i < |public.latches|
        invariant 0 <= i <= |public.latches|
        invariant forall k :: 0 <= k < |public.inputs| ==> public.inputs[k] <= res
        invariant forall k :: 0 <= k < i ==> public.latches[k].lit <= res
        invariant res == 0 || res in public.inputs || res in LatchLits(public.latches)
      {
        if public.latches[i].lit > res {
          res := public.latches[i].lit;
          assert LatchLits(public.latches)[i] == res;
        }
        i := i + 1;
      }
    }

    /** Whether the tables are already in normal form. */
    method IsReencoded() returns (b: bool)
      ensures b <==> InNormalForm(public)
    {
      var max := 0;
      var i := 0;
      while i < |public.inputs|
        invariant 0 <= i <= |public.inputs| && max == 2 * i
        invariant forall k :: 0 <= k < i ==> public.inputs[k] == 2 * (1 + k)
      {
        max := max + 2;
        if max != public.inputs[i] {
          return false;
        }
        i := i + 1;
      }
      i := 0;
      while i < |public.latches|
        invariant 0 <= i <= |public.latches| && max == 2 * (|public.inputs| + i)
        invariant forall k :: 0 <= k < i ==> public.latches[k].lit == 2 * (1 + |public.inputs| + k)
      {
        max := max + 2;
        if max != public.latches[i].lit {
          return false;
        }
        i := i + 1;
      }
      var lhs := MaxInputOrLatch();
      TopDefined(public, lhs);
      lhs := lhs + 2;
      i := 0;
      while i < |public.ands|
        invariant 0 <= i <= |public.ands| && lhs == 2 * (Base(public) + i)
        invariant forall k :: 0 <= k < i ==>
          var a := public.ands[k]; a.lhs == 2 * (Base(public) + k) && a.rhs0 <= a.lhs && a.rhs1 <= a.rhs0
      {
        var and := public.ands[i];
        if and.lhs <= max {
          return false;
        }
        if and.lhs != lhs {
          return false;
        }
        if and.lhs < and.rhs0 {
          return false;
        }
        if and.rhs0 < and.rhs1 {
          return false;
        }
        lhs := lhs + 2;
        i := i + 1;
      }
      b := true;
    }

    /** Recodes all references, keeps the gates that are needed, and sorts them. */
    method NumberGates(code: array<nat>, n: nat, ghost g: Graph)
      requires Checked(g) && Indexed(g, types) && NoneOpen(types) && public == g && !InNormalForm(g)
      requires Table(code[..], g, []) && n == Fresh(g, [])
      requires SortRange(Base(g), |KeptOrder(g)|)
      modifies this`types, this`public, code
      ensures types == old(types)
      ensures Table(code[..], g, KeptOrder(g))
      ensures public == RootsRewritten(g).(ands := CodeGates(g, KeptOrder(g)), maxvar := Renumbered(g).maxvar)
    {
      hide Checked, Indexed, Table, NoneOpen, KeptOrder, Compact, InNormalForm, RootsRewritten, Fresh, CodeGates, Renumbered, QSort, SortRange;
      var m := ReencodeRoots(code, n, g);
      RewrittenTables(g);
      assert WellFormed(g) by {
        CheckedParts(g);
      }
      CompactAnds(code, g, KeptOrder(g));
      GatesSorted(g);
      var sorted := QSort(public.ands);
      public := public.(ands := sorted.value);
      RenumberedShape(g, types);
      public := public.(maxvar := Var(m - 1));
    }

    /** Rebuilds the index and the defining literals for the renumbered tables. */
    method RebuildTypes(code: array<nat>, ghost g: Graph)
      requires Checked(g) && !InNormalForm(g) && Indexed(g, types) && NoneOpen(types) && MarksDefined(types)
      requires Table(code[..], g, KeptOrder(g))
      requires public == RootsRewritten(g).(ands := CodeGates(g, KeptOrder(g)), maxvar := Renumbered(g).maxvar)
      modifies this`types, this`public
      ensures public == Renumbered(g) && types == Retyped(Renumbered(g), old(types))
      ensures Consistent(public, types)
    {
      hide Checked, Indexed, Table, NoneOpen, MarksDefined, KeptOrder, InNormalForm, RootsRewritten, Fresh, CodeGates, Renumbered, WellFormed, PartlyTyped;
      ghost var r, types0 := Renumbered(g), types;
      RenumberedShape(g, types0);
      RewrittenTables(g);
      assert WellFormed(g) by {
        CheckedParts(g);
      }
      ClearTypes(r);
      TypeAnds(r, types0);
      TypeInputs(code, g, KeptOrder(g), r, types0);
      TypeLatches(code, g, KeptOrder(g), r, types0);
      FullyTyped(r, types0, types);
      RenumberedInputs(g);
      RebuiltIsRenumbered(g, public);
      RetypedConsistent(r, types0);
    }

    /** Renumbers a checked graph into normal form and drops the gates that nothing needs. */
    method Reencode()
      requires Valid() && Checked(public)
      requires InNormalForm(public) || Sortable(public)
      modifies this`types, this`public
      ensures Valid() && public == Reencoded(old(public))
      ensures types == if InNormalForm(old(public)) then old(types) else Retyped(public, old(types))
    {
      hide WellFormed, EverythingDefined, Acyclic, Indexed, Settled, Table, NoneOpen, MarksDefined, KeptOrder, InNormalForm, RootsRewritten, Fresh, Renumbered;
      ghost var g := public;
      var done := IsReencoded();
      if !done {
        var code, n := SeedTable();
        NumberGates(code, n, g);
        RebuildTypes(code, g);
      }
    }
  }
}
