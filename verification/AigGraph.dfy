/**
 The And-Inverter Graph of lib/aiger/aiger.h as a value: signed literals, the
 tables of the public structure, what a definition is, and what a literal means.
 */
module AigGraph {
  import opened Collections
  import opened Words
  import opened Digraph

  function Var(lit: nat): nat { lit / 2 }

  function Strip(lit: nat): nat { lit - lit % 2 }

  function Not(lit: nat): nat { if lit % 2 == 0 then lit + 1 else lit - 1 }

  datatype Latch = Latch(lit: nat, next: nat, reset: nat)

  datatype And = And(lhs: nat, rhs0: nat, rhs1: nat)

  datatype Graph = Graph(
    maxvar: nat,
    inputs: seq<nat>,
    latches: seq<Latch>,
    outputs: seq<nat>,
    bad: seq<nat>,
    constraints: seq<nat>,
    justice: seq<seq<nat>>,
    fairness: seq<nat>,
    ands: seq<And>)

  const EMPTY := Graph(0, [], [], [], [], [], [], [], [])

  function LatchLits(latches: seq<Latch>): (r: seq<nat>)
    ensures |r| == |latches| && forall i :: 0 <= i < |r| ==> r[i] == latches[i].lit
  {
    seq(|latches|, i requires 0 <= i < |latches| => latches[i].lit)
  }

  function AndLits(ands: seq<And>): (r: seq<nat>)
    ensures |r| == |ands| && forall i :: 0 <= i < |r| ==> r[i] == ands[i].lhs
  {
    seq(|ands|, i requires 0 <= i < |ands| => ands[i].lhs)
  }

  /** The position of x, or |s| when x is absent.  All the lists searched here are without repeats. */
  ghost function IndexOf(s: seq<nat>, x: nat): (i: nat)
    ensures i <= |s| && (i < |s| <==> x in s) && (i < |s| ==> s[i] == x)
  {
    if x in s then
      var i: nat :| i < |s| && s[i] == x;
      i
    else |s|
  }

  lemma IndexOfDistinct(s: seq<nat>, i: nat)
    requires Distinct(s) && i < |s|
    ensures IndexOf(s, s[i]) == i
  {
    var k := IndexOf(s, s[i]);
    assert s[k] == s[i];
  }

  // Positions of a variable in the three defining tables; the table size when absent.

  ghost function InputAt(g: Graph, v: nat): (i: nat) ensures i <= |g.inputs| { IndexOf(g.inputs, 2 * v) }

  ghost function LatchAt(g: Graph, v: nat): (i: nat) ensures i <= |g.latches| { IndexOf(LatchLits(g.latches), 2 * v) }

  ghost function AndAt(g: Graph, v: nat): (i: nat) ensures i <= |g.ands| { IndexOf(AndLits(g.ands), 2 * v) }

  ghost predicate IsInputVar(g: Graph, v: nat) { InputAt(g, v) < |g.inputs| }

  ghost predicate IsLatchVar(g: Graph, v: nat) { LatchAt(g, v) < |g.latches| }

  ghost predicate IsAndVar(g: Graph, v: nat) { AndAt(g, v) < |g.ands| }

  ghost function GateOf(g: Graph, v: nat): And {
    if IsAndVar(g, v) then g.ands[AndAt(g, v)] else And(2 * v, 0, 0)
  }

  /** A constant, or a literal of an input, a latch or a gate. */
  ghost predicate Defined(g: Graph, lit: nat) {
    lit < 2 || IsInputVar(g, Var(lit)) || IsLatchVar(g, Var(lit)) || IsAndVar(g, Var(lit))
  }

  predicate DefiningLit(g: Graph, lit: nat) {
    lit >= 2 && lit % 2 == 0 && Var(lit) <= g.maxvar
  }

  predicate InRange(g: Graph, lits: seq<nat>) {
    forall i :: 0 <= i < |lits| ==> Var(lits[i]) <= g.maxvar
  }

  /** What every run of the adding operations guarantees. */
  ghost predicate WellFormed(g: Graph) {
    && 2 * g.maxvar + 1 < WORD
    && (forall i :: 0 <= i < |g.inputs| ==> DefiningLit(g, g.inputs[i]))
    && (forall i :: 0 <= i < |g.latches| ==>
          var l := g.latches[i];
          DefiningLit(g, l.lit) && Var(l.next) <= g.maxvar && (l.reset <= 1 || l.reset == l.lit))
    && (forall i :: 0 <= i < |g.ands| ==>
          var a := g.ands[i];
          DefiningLit(g, a.lhs) && Var(a.rhs0) <= g.maxvar && Var(a.rhs1) <= g.maxvar)
    && Distinct(g.inputs) && Distinct(LatchLits(g.latches)) && Distinct(AndLits(g.ands))
    && (forall i, j :: 0 <= i < |g.inputs| && 0 <= j < |g.latches| ==> g.inputs[i] != g.latches[j].lit)
    && (forall i, j :: 0 <= i < |g.inputs| && 0 <= j < |g.ands| ==> g.inputs[i] != g.ands[j].lhs)
    && (forall i, j :: 0 <= i < |g.latches| && 0 <= j < |g.ands| ==> g.latches[i].lit != g.ands[j].lhs)
    && InRange(g, g.outputs) && InRange(g, g.bad) && InRange(g, g.constraints) && InRange(g, g.fairness)
    && (forall i :: 0 <= i < |g.justice| ==> InRange(g, g.justice[i]))
  }

  ghost predicate AllDefined(g: Graph, lits: seq<nat>) {
    forall i :: 0 <= i < |lits| ==> Defined(g, lits[i])
  }

  ghost predicate RhsDefined(g: Graph) {
    forall i :: 0 <= i < |g.ands| ==> Defined(g, g.ands[i].rhs0) && Defined(g, g.ands[i].rhs1)
  }

  ghost predicate NextDefined(g: Graph) {
    forall i :: 0 <= i < |g.latches| ==> Defined(g, g.latches[i].next)
  }

  ghost predicate JusticeDefined(g: Graph) {
    forall i :: 0 <= i < |g.justice| ==> AllDefined(g, g.justice[i])
  }

  ghost predicate EverythingDefined(g: Graph) {
    && NextDefined(g)
    && AllDefined(g, g.outputs)
    && AllDefined(g, g.bad)
    && AllDefined(g, g.constraints)
    && JusticeDefined(g)
    && AllDefined(g, g.fairness)
    && RhsDefined(g)
  }

  // ---------------------------------------------------------------------------
  // Gate dependencies
  // ---------------------------------------------------------------------------

  function NonZero(v: nat): seq<nat> { if v == 0 then [] else [v] }

  /** The gate's operand variables in the order in which a search visits them. */
  function Operands(a: And, sorted: bool): (r: seq<nat>)
    ensures 0 !in r
    ensures forall k :: k in r <==> k != 0 && (k == Var(a.rhs0) || k == Var(a.rhs1))
  {
    var v0, v1 := Var(a.rhs0), Var(a.rhs1);
    if sorted && v0 < v1 then NonZero(v0) + NonZero(v1) else NonZero(v1) + NonZero(v0)
  }

  /** The gates as a graph over variables. */
  ghost function Gates(g: Graph, sorted: bool): Adj<nat> {
    map v: nat | 0 <= v <= g.maxvar && IsAndVar(g, v) :: Operands(GateOf(g, v), sorted)
  }

  /** No gate depends on itself. */
  ghost predicate Acyclic(g: Graph) {
    !Cyclic<nat>(Gates(g, false))
  }

  /** What a passed consistency check says. */
  ghost predicate Checked(g: Graph) {
    WellFormed(g) && EverythingDefined(g) && Acyclic(g)
  }

  lemma SortingKeepsCycles(g: Graph)
    ensures Cyclic<nat>(Gates(g, true)) <==> Cyclic<nat>(Gates(g, false))
  {
    var a, b := Gates(g, true), Gates(g, false);
    assert forall u, v :: Edge(a, u, v) <==> Edge(b, u, v);
    if Cyclic(a) {
      CyclicMonotone(a, b);
    }
    if Cyclic(b) {
      CyclicMonotone(b, a);
    }
  }

  // ---------------------------------------------------------------------------
  // Meaning
  // ---------------------------------------------------------------------------

  /** Values of the inputs and of the latches, by position. */
  datatype Valuation = Valuation(ins: seq<bool>, lats: seq<bool>)

  predicate ValueAt(s: seq<bool>, i: nat) { i < |s| && s[i] }

  predicate Flip(b: bool, lit: nat) { b != (lit % 2 == 1) }

  /** The value of a variable; `seen` stops the unfolding of a self-dependent gate. */
  ghost predicate EvalVar(g: Graph, e: Valuation, v: nat, seen: set<nat>)
    decreases Gates(g, false).Keys - seen
  {
    if v == 0 then false
    else if IsInputVar(g, v) then ValueAt(e.ins, InputAt(g, v))
    else if IsLatchVar(g, v) then ValueAt(e.lats, LatchAt(g, v))
    else if v in Gates(g, false) && v !in seen then
      var a := GateOf(g, v);
      && Flip(EvalVar(g, e, Var(a.rhs0), seen + {v}), a.rhs0)
      && Flip(EvalVar(g, e, Var(a.rhs1), seen + {v}), a.rhs1)
    else false
  }

  ghost predicate Eval(g: Graph, e: Valuation, lit: nat) {
    Flip(EvalVar(g, e, Var(lit), {}), lit)
  }

  /** In an acyclic graph the guard against self-dependence never matters. */
  lemma {:induction false} SeenIrrelevant(g: Graph, e: Valuation, v: nat, s: set<nat>, t: set<nat>)
    requires Acyclic(g)
    requires forall u :: u in s || u in t ==> ReachPlus<nat>(Gates(g, false), u, v)
    ensures EvalVar(g, e, v, s) == EvalVar(g, e, v, t)
    decreases Gates(g, false).Keys - s
  {
    var adj := Gates(g, false);
    if v != 0 && v in adj {
      assert v !in s && v !in t by {
        assert !OnCycle<nat>(adj, v);
      }
      var a := GateOf(g, v);
      forall k | k == Var(a.rhs0) || k == Var(a.rhs1)
        ensures EvalVar(g, e, k, s + {v}) == EvalVar(g, e, k, t + {v})
      {
        if k != 0 {
          forall u | u in s + {v} || u in t + {v} ensures ReachPlus<nat>(adj, u, k) {
            assert Edge<nat>(adj, v, k);
            if u == v {
              ReachSelf(adj, v);
            } else {
              PlusReaches(adj, u, v);
            }
            PlusThenEdge<nat>(adj, u, v, k);
          }
          SeenIrrelevant(g, e, k, s + {v}, t + {v});
        }
      }
    }
  }

  /** In an acyclic graph each gate is the conjunction of its operands. */
  lemma EvalGate(g: Graph, e: Valuation, k: nat)
    requires WellFormed(g) && Acyclic(g) && k < |g.ands|
    ensures var a := g.ands[k]; EvalVar(g, e, Var(a.lhs), {}) == (Eval(g, e, a.rhs0) && Eval(g, e, a.rhs1))
    ensures g.ands[k].lhs % 2 == 0
  {
    var a, adj := g.ands[k], Gates(g, false);
    var v := Var(a.lhs);
    GatePosition(g, k);
    DefinedOnce(g, v);
    forall w | w == Var(a.rhs0) || w == Var(a.rhs1) ensures EvalVar(g, e, w, {v}) == EvalVar(g, e, w, {}) {
      if w != 0 {
        assert Edge<nat>(adj, v, w);
        EdgeReaches(adj, v, w);
        SeenIrrelevant(g, e, w, {v}, {});
      }
    }
    assert {} + {v} == {v};
  }

  lemma InputPosition(g: Graph, i: nat)
    requires WellFormed(g) && i < |g.inputs|
    ensures InputAt(g, Var(g.inputs[i])) == i && 2 * Var(g.inputs[i]) == g.inputs[i]
  {
    assert DefiningLit(g, g.inputs[i]);
    IndexOfDistinct(g.inputs, i);
  }

  lemma LatchPosition(g: Graph, i: nat)
    requires WellFormed(g) && i < |g.latches|
    ensures LatchAt(g, Var(g.latches[i].lit)) == i && 2 * Var(g.latches[i].lit) == g.latches[i].lit
  {
    assert DefiningLit(g, g.latches[i].lit);
    IndexOfDistinct(LatchLits(g.latches), i);
  }

  lemma GatePosition(g: Graph, i: nat)
    requires WellFormed(g) && i < |g.ands|
    ensures AndAt(g, Var(g.ands[i].lhs)) == i && 2 * Var(g.ands[i].lhs) == g.ands[i].lhs
  {
    assert DefiningLit(g, g.ands[i].lhs);
    IndexOfDistinct(AndLits(g.ands), i);
  }

  /** A variable is defined at most once, and inside 1..maxvar. */
  lemma DefinedOnce(g: Graph, v: nat)
    requires WellFormed(g)
    ensures !(IsInputVar(g, v) && IsLatchVar(g, v)) && !(IsInputVar(g, v) && IsAndVar(g, v))
    ensures !(IsLatchVar(g, v) && IsAndVar(g, v))
    ensures IsInputVar(g, v) || IsLatchVar(g, v) || IsAndVar(g, v) ==> 0 < v <= g.maxvar
  {
    var i, j, k := InputAt(g, v), LatchAt(g, v), AndAt(g, v);
    assert i < |g.inputs| ==> g.inputs[i] == 2 * v && DefiningLit(g, g.inputs[i]);
    assert j < |g.latches| ==> LatchLits(g.latches)[j] == 2 * v && DefiningLit(g, g.latches[j].lit);
    assert k < |g.ands| ==> AndLits(g.ands)[k] == 2 * v && DefiningLit(g, g.ands[k].lhs);
  }
}
