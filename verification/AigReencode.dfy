/**
 What aiger_reencode computes, as functions of the graph: which gates are kept
 and in which order, the new code of every literal, and the renumbered graph.
 */
module AigReencode {
  import opened Collections
  import opened Digraph
  import opened DepthFirst
  import opened AigGraph

  // ---------------------------------------------------------------------------
  // The kept gates
  // ---------------------------------------------------------------------------

  /** Extends the postorder by a search from v. */
  ghost function Next(adj: Adj<nat>, v: nat, order: seq<nat>): seq<nat> {
    match Visit(adj, v, {}, order)
    case Done(o) => o
    case Cycle(_) => order
  }

  /** Searches from each literal in turn. */
  ghost function After(adj: Adj<nat>, lits: seq<nat>, order: seq<nat>): seq<nat> {
    if lits == [] then order
    else Next(adj, Var(lits[|lits| - 1]), After(adj, lits[..|lits| - 1], order))
  }

  function LatchRoots(latches: seq<Latch>): (r: seq<nat>)
    ensures forall i :: 0 <= i < |latches| ==> latches[i].next in r && latches[i].reset in r
  {
    if latches == [] then []
    else
      var n := |latches| - 1;
      assert forall i :: 0 <= i < n ==> latches[i] == latches[..n][i];
      LatchRoots(latches[..n]) + [latches[n].next, latches[n].reset]
  }

  function Flatten(rows: seq<seq<nat>>): (r: seq<nat>)
    ensures forall i, x :: 0 <= i < |rows| && x in rows[i] ==> x in r
  {
    if rows == [] then []
    else
      var n := |rows| - 1;
      assert forall i :: 0 <= i < n ==> rows[i] == rows[..n][i];
      Flatten(rows[..n]) + rows[n]
  }

  /** Every literal that a latch, an output or a property refers to. */
  function Roots(g: Graph): seq<nat> {
    LatchRoots(g.latches) + g.outputs + g.bad + g.constraints + Flatten(g.justice) + g.fairness
  }

  ghost function KeptOrder(g: Graph): seq<nat> {
    After(Gates(g, true), Roots(g), [])
  }

  lemma {:induction false} AfterConcat(adj: Adj<nat>, a: seq<nat>, b: seq<nat>, order: seq<nat>)
    ensures After(adj, a + b, order) == After(adj, b, After(adj, a, order))
  {
    if b == [] {
      assert a + b == a;
    } else {
      assert (a + b)[..|a + b| - 1] == a + b[..|b| - 1];
      AfterConcat(adj, a, b[..|b| - 1], order);
    }
  }

  lemma NextExtends(adj: Adj<nat>, v: nat, order: seq<nat>)
    requires !Cyclic<nat>(adj)
    ensures Visit(adj, v, {}, order).Done?
    ensures Extends(adj, {}, order, Next(adj, v, order))
    ensures v in adj ==> v in Next(adj, v, order)
  {
    if Visit(adj, v, {}, order).Cycle? {
      VisitCycle(adj, v, {}, order);
    }
    VisitExtends(adj, v, {}, order);
  }

  lemma {:induction false} AfterExtends(adj: Adj<nat>, lits: seq<nat>, order: seq<nat>)
    requires !Cyclic<nat>(adj)
    ensures Extends(adj, {}, order, After(adj, lits, order))
    ensures forall l :: l in lits && Var(l) in adj ==> Var(l) in After(adj, lits, order)
  {
    if lits != [] {
      var init, last := lits[..|lits| - 1], lits[|lits| - 1];
      AfterExtends(adj, init, order);
      var o := After(adj, init, order);
      NextExtends(adj, Var(last), o);
      var o' := Next(adj, Var(last), o);
      ExtendsTrans(adj, {}, order, o, o');
      forall l | l in lits && Var(l) in adj ensures Var(l) in o' {
        if l in init {
          PrefixKeeps(o, o', Var(l));
        } else {
          assert lits == init + [last];
        }
      }
    }
  }

  lemma {:induction false} AfterReaches(adj: Adj<nat>, lits: seq<nat>, order: seq<nat>, x: nat)
    requires !Cyclic<nat>(adj)
    requires x in After(adj, lits, order) && x !in order
    ensures x in adj && exists l :: l in lits && Reach<nat>(adj, Var(l), x)
  {
    var init, last := lits[..|lits| - 1], lits[|lits| - 1];
    var o := After(adj, init, order);
    if x in o {
      AfterReaches(adj, init, order, x);
    } else {
      NextExtends(adj, Var(last), o);
      VisitReaches(adj, Var(last), {}, o, x);
    }
  }

  /** The kept gates: topologically ordered, and exactly those some root depends on. */
  lemma KeptExact(g: Graph)
    requires Acyclic(g)
    ensures Topological<nat>(Gates(g, true), KeptOrder(g))
    ensures forall v: nat :: v in KeptOrder(g) <==>
              v in Gates(g, true) && exists l :: l in Roots(g) && Reach<nat>(Gates(g, true), Var(l), v)
  {
    var adj, order := Gates(g, true), KeptOrder(g);
    SortingKeepsCycles(g);
    AfterExact(adj, Roots(g));
  }

  lemma AfterExact(adj: Adj<nat>, lits: seq<nat>)
    requires !Cyclic<nat>(adj)
    ensures Topological<nat>(adj, After(adj, lits, []))
    ensures forall v: nat :: v in After(adj, lits, []) <==>
              v in adj && exists l :: l in lits && Reach<nat>(adj, Var(l), v)
  {
    var order := After(adj, lits, []);
    AfterExtends(adj, lits, []);
    forall v: nat | v in order ensures v in adj && exists l :: l in lits && Reach<nat>(adj, Var(l), v) {
      AfterReaches(adj, lits, [], v);
    }
    forall v: nat, l | v in adj && l in lits && Reach<nat>(adj, Var(l), v) ensures v in order {
      ReachedIsListed(adj, lits, l, v);
    }
  }

  lemma ReachedIsListed(adj: Adj<nat>, lits: seq<nat>, l: nat, v: nat)
    requires !Cyclic<nat>(adj) && v in adj && l in lits && Reach<nat>(adj, Var(l), v)
    ensures v in After(adj, lits, [])
  {
    hide Reach;
    AfterExtends(adj, lits, []);
    ReachListed(adj, After(adj, lits, []), Var(l), v);
  }

  lemma ListedSuccessors(adj: Adj<nat>, order: seq<nat>)
    requires Topological<nat>(adj, order)
    ensures forall u, v :: u in order && Edge<nat>(adj, u, v) && v in adj ==> v in order
  {
    forall u, v | u in order && Edge<nat>(adj, u, v) && v in adj ensures v in order {
      var i :| 0 <= i < |order| && order[i] == u;
      assert v in order[..i];
    }
  }

  // ---------------------------------------------------------------------------
  // The order of the kept gates
  // ---------------------------------------------------------------------------

  /** x is listed before y. */
  ghost predicate Before(order: seq<nat>, x: nat, y: nat) {
    exists i, j :: 0 <= i < j < |order| && order[i] == x && order[j] == y
  }

  /** What a prefix lists comes before what it does not list. */
  lemma PrefixBefore(a: seq<nat>, b: seq<nat>, x: nat, y: nat)
    requires a <= b && x in a && y in b && y !in a
    ensures Before(b, x, y)
  {
    var i :| 0 <= i < |a| && a[i] == x;
    var j :| 0 <= j < |b| && b[j] == y;
    assert b[i] == x;
  }

  /** Where each literal stands among the roots: latches with their next state first, then list by list. */
  lemma RootsAt(g: Graph)
    ensures var n := 2 * |g.latches|;
      && |Roots(g)| == n + |g.outputs| + |g.bad| + |g.constraints| + |Flatten(g.justice)| + |g.fairness|
      && (forall i :: 0 <= i < |g.latches| ==>
            Roots(g)[2 * i] == g.latches[i].next && Roots(g)[2 * i + 1] == g.latches[i].reset)
      && Roots(g)[n..] == g.outputs + g.bad + g.constraints + Flatten(g.justice) + g.fairness
  {
    LatchRootsAt(g.latches);
  }

  lemma {:induction false} LatchRootsAt(latches: seq<Latch>)
    ensures |LatchRoots(latches)| == 2 * |latches|
    ensures forall i :: 0 <= i < |latches| ==>
      LatchRoots(latches)[2 * i] == latches[i].next && LatchRoots(latches)[2 * i + 1] == latches[i].reset
  {
    if latches != [] {
      var n := |latches| - 1;
      LatchRootsAt(latches[..n]);
      forall i | 0 <= i < |latches|
        ensures LatchRoots(latches)[2 * i] == latches[i].next && LatchRoots(latches)[2 * i + 1] == latches[i].reset
      {
        if i < n {
          assert latches[..n][i] == latches[i];
          assert LatchRoots(latches[..n])[2 * i] == latches[i].next;
        }
      }
    }
  }

  lemma {:induction false} FlattenJoin(a: seq<seq<nat>>, b: seq<seq<nat>>)
    ensures Flatten(a + b) == Flatten(a) + Flatten(b)
    ensures |b| == 1 ==> Flatten(b) == b[0]
  {
    if b == [] {
      assert a + b == a;
    } else {
      var n := |b| - 1;
      assert (a + b)[..|a| + n] == a + b[..n];
      FlattenJoin(a, b[..n]);
    }
  }

  /** Some of the literals depends on x. */
  ghost predicate Needs(adj: Adj<nat>, lits: seq<nat>, x: nat) {
    exists l :: l in lits && Reach<nat>(adj, Var(l), x)
  }

  lemma AfterNeeds(adj: Adj<nat>, lits: seq<nat>, x: nat)
    requires !Cyclic<nat>(adj)
    ensures x in After(adj, lits, []) <==> x in adj && Needs(adj, lits, x)
  {
    hide Reach, Cyclic;
    AfterExact(adj, lits);
  }

  /** Gates that earlier roots need are numbered before those that only later roots need. */
  lemma RootOrder(g: Graph, i: nat, x: nat, y: nat)
    requires Acyclic(g) && i <= |Roots(g)| && x in KeptOrder(g) && y in KeptOrder(g)
    requires Needs(Gates(g, true), Roots(g)[..i], x) && !Needs(Gates(g, true), Roots(g)[..i], y)
    ensures Before(KeptOrder(g), x, y)
  {
    hide Needs, Gates, Before, Cyclic, Roots, After;
    var adj, roots := Gates(g, true), Roots(g);
    SortingKeepsCycles(g);
    assert roots == roots[..i] + roots[i..];
    AfterNeeds(adj, roots, x);
    AfterNeeds(adj, roots[..i], x);
    AfterNeeds(adj, roots[..i], y);
    AfterConcat(adj, roots[..i], roots[i..], []);
    AfterExtends(adj, roots[i..], After(adj, roots[..i], []));
    PrefixBefore(After(adj, roots[..i], []), KeptOrder(g), x, y);
  }

  /** A search from a gate lists what its smaller operand needs before what only the larger one needs. */
  lemma OperandOrder(g: Graph, order: seq<nat>, v: nat, x: nat, y: nat)
    requires Acyclic(g) && Topological<nat>(Gates(g, true), order)
    requires v in Gates(g, true) && v !in order
    requires var a := GateOf(g, v);
      var low := if Var(a.rhs0) < Var(a.rhs1) then Var(a.rhs0) else Var(a.rhs1);
      && low != 0 && x in Gates(g, true) && Reach<nat>(Gates(g, true), low, x)
      && y != v && !Reach<nat>(Gates(g, true), low, y)
    requires y !in order && y in Next(Gates(g, true), v, order)
    ensures Before(Next(Gates(g, true), v, order), x, y)
  {
    hide Reach, Before, Cyclic, Gates, Topological;
    var adj, a := Gates(g, true), GateOf(g, v);
    var low := if Var(a.rhs0) < Var(a.rhs1) then Var(a.rhs0) else Var(a.rhs1);
    SortingKeepsCycles(g);
    NextExtends(adj, v, order);
    GateKids(g, v);
    var first := Visit(adj, low, {v}, order);
    FirstKid(adj, v, low, order);
    VisitExtends(adj, low, {v}, order);
    ReachListed(adj, first.order, low, x);
    if y in first.order {
      VisitReaches(adj, low, {v}, order, y);
    }
    PrefixBefore(first.order, Next(adj, v, order), x, y);
  }

  lemma GateKids(g: Graph, v: nat)
    requires v in Gates(g, true)
    ensures var a := GateOf(g, v);
      var low := if Var(a.rhs0) < Var(a.rhs1) then Var(a.rhs0) else Var(a.rhs1);
      low != 0 ==> Gates(g, true)[v] != [] && Gates(g, true)[v][0] == low
  {
  }

  /** The search from v starts with its first operand. */
  lemma FirstKid(adj: Adj<nat>, v: nat, low: nat, order: seq<nat>)
    requires v in adj && v !in order && adj[v] != [] && adj[v][0] == low && Visit(adj, v, {}, order).Done?
    ensures Visit(adj, low, {v}, order).Done?
    ensures Visit(adj, low, {v}, order).order <= Visit(adj, v, {}, order).order
  {
    assert {} + {v} == {v};
    FirstOfAll(adj, adj[v], {v}, order);
  }

  lemma {:induction false} FirstOfAll(adj: Adj<nat>, kids: seq<nat>, open: set<nat>, order: seq<nat>)
    requires kids != [] && VisitAll(adj, kids, open, order).Done?
    ensures Visit(adj, kids[0], open, order).Done?
    ensures Visit(adj, kids[0], open, order).order <= VisitAll(adj, kids, open, order).order
    decreases |kids|
  {
    var init, last := kids[..|kids| - 1], kids[|kids| - 1];
    if init != [] {
      FirstOfAll(adj, init, open, order);
      VisitExtends(adj, last, open, VisitAll(adj, init, open, order).order);
    }
  }

  /** A topological list with u lists every gate that u needs. */
  lemma ReachListed(adj: Adj<nat>, order: seq<nat>, u: nat, x: nat)
    requires Topological<nat>(adj, order) && (u in adj ==> u in order) && Reach<nat>(adj, u, x) && x in adj
    ensures x in order
  {
    var p: seq<nat> :| WalkFromTo<nat>(adj, p, u, x);
    assert u in adj by {
      if |p| > 1 {
        assert Edge<nat>(adj, p[0], p[1]);
      }
    }
    ListedSuccessors(adj, order);
    ClosedReach<nat>(adj, (set z | z in order), p, |p| - 1);
  }

  // ---------------------------------------------------------------------------
  // The code table
  // ---------------------------------------------------------------------------

  /** The new number of a variable: inputs, then latches, then kept gates; 0 if none. */
  ghost function CodeVar(g: Graph, order: seq<nat>, v: nat): nat {
    if v == 0 then 0
    else if IsInputVar(g, v) then 1 + InputAt(g, v)
    else if IsLatchVar(g, v) then 1 + |g.inputs| + LatchAt(g, v)
    else if v in order then 1 + |g.inputs| + |g.latches| + IndexOf(order, v)
    else 0
  }

  ghost function CodeLit(g: Graph, order: seq<nat>, lit: nat): nat {
    if lit < 2 then lit
    else
      var c := CodeVar(g, order, Var(lit));
      if c == 0 then 0 else 2 * c + lit % 2
  }

  ghost predicate Coded(g: Graph, order: seq<nat>, lit: nat) {
    lit < 2 || CodeVar(g, order, Var(lit)) != 0
  }

  /** Codes given out early stay valid while the order grows. */
  lemma CodeStable(g: Graph, order: seq<nat>, order': seq<nat>, lit: nat)
    requires order <= order' && Distinct(order') && Coded(g, order, lit)
    ensures Coded(g, order', lit) && CodeLit(g, order', lit) == CodeLit(g, order, lit)
  {
    var v := Var(lit);
    if lit >= 2 && !IsInputVar(g, v) && !IsLatchVar(g, v) {
      IndexOfPrefix(order, order', v);
    }
  }

  lemma IndexOfPrefix(a: seq<nat>, b: seq<nat>, x: nat)
    requires a <= b && x in a && Distinct(b)
    ensures x in b && IndexOf(b, x) == IndexOf(a, x)
  {
    var i := IndexOf(a, x);
    assert b[i] == x;
    IndexOfDistinct(b, i);
  }

  ghost function CodeAll(g: Graph, order: seq<nat>, lits: seq<nat>): (r: seq<nat>)
    ensures |r| == |lits| && forall i :: 0 <= i < |r| ==> r[i] == CodeLit(g, order, lits[i])
  {
    seq(|lits|, i requires 0 <= i < |lits| => CodeLit(g, order, lits[i]))
  }

  /** A gate with its literals recoded and the larger operand first. */
  function Ordered(lhs: nat, rhs0: nat, rhs1: nat): And {
    if rhs0 < rhs1 then And(lhs, rhs1, rhs0) else And(lhs, rhs0, rhs1)
  }

  ghost function CodeGate(g: Graph, order: seq<nat>, a: And): And {
    Ordered(CodeLit(g, order, a.lhs), CodeLit(g, order, a.rhs0), CodeLit(g, order, a.rhs1))
  }

  function Base(g: Graph): nat { 1 + |g.inputs| + |g.latches| }

  ghost function CodeLatches(g: Graph, order: seq<nat>): (r: seq<Latch>)
    ensures |r| == |g.latches|
    ensures forall i :: 0 <= i < |r| ==>
      r[i] == Latch(2 * (1 + |g.inputs| + i), CodeLit(g, order, g.latches[i].next), CodeLit(g, order, g.latches[i].reset))
  {
    seq(|g.latches|, i requires 0 <= i < |g.latches| =>
      Latch(2 * (1 + |g.inputs| + i), CodeLit(g, order, g.latches[i].next), CodeLit(g, order, g.latches[i].reset)))
  }

  ghost function CodeRows(g: Graph, order: seq<nat>, rows: seq<seq<nat>>): (r: seq<seq<nat>>)
    ensures |r| == |rows| && forall i :: 0 <= i < |r| ==> r[i] == CodeAll(g, order, rows[i])
  {
    seq(|rows|, i requires 0 <= i < |rows| => CodeAll(g, order, rows[i]))
  }

  /** The first n literals, in order. */
  function FirstLits(n: nat): (r: seq<nat>)
    ensures |r| == n && forall i :: 0 <= i < n ==> r[i] == 2 * (1 + i)
  {
    seq(n, i => 2 * (1 + i))
  }

  function CodeInputs(g: Graph): (r: seq<nat>)
    ensures |r| == |g.inputs| && forall i :: 0 <= i < |r| ==> r[i] == 2 * (1 + i)
  {
    FirstLits(|g.inputs|)
  }

  ghost function CodeGates(g: Graph, order: seq<nat>): (r: seq<And>)
    ensures |r| == |order| && forall k :: 0 <= k < |r| ==> r[k] == CodeGate(g, order, GateOf(g, order[k]))
  {
    seq(|order|, k requires 0 <= k < |order| => CodeGate(g, order, GateOf(g, order[k])))
  }

  /** The graph renumbered along the given order of gates. */
  ghost function Recode(g: Graph, order: seq<nat>): Graph {
    Graph(
      |g.inputs| + |g.latches| + |order|,
      CodeInputs(g),
      CodeLatches(g, order),
      CodeAll(g, order, g.outputs),
      CodeAll(g, order, g.bad),
      CodeAll(g, order, g.constraints),
      CodeRows(g, order, g.justice),
      CodeAll(g, order, g.fairness),
      CodeGates(g, order))
  }

  ghost function Renumbered(g: Graph): Graph {
    Recode(g, KeptOrder(g))
  }

  /** Already numbered inputs, latches, gates, with larger operands first. */
  predicate InNormalForm(g: Graph) {
    && (forall i :: 0 <= i < |g.inputs| ==> g.inputs[i] == 2 * (1 + i))
    && (forall i :: 0 <= i < |g.latches| ==> g.latches[i].lit == 2 * (1 + |g.inputs| + i))
    && (forall i :: 0 <= i < |g.ands| ==>
          var a := g.ands[i];
          a.lhs == 2 * (Base(g) + i) && a.rhs0 <= a.lhs && a.rhs1 <= a.rhs0)
  }

  /** The effect of aiger_reencode on the tables. */
  ghost function Reencoded(g: Graph): Graph {
    if InNormalForm(g) then g else Renumbered(g)
  }

  // ---------------------------------------------------------------------------
  // Properties of the code
  // ---------------------------------------------------------------------------

  ghost predicate GoodOrder(g: Graph, order: seq<nat>) {
    Checked(g) && Topological<nat>(Gates(g, true), order)
  }

  /** Different coded literals get different codes. */
  lemma CodeInjective(g: Graph, order: seq<nat>, l: nat, m: nat)
    requires GoodOrder(g, order)
    requires Coded(g, order, l) && Coded(g, order, m)
    ensures CodeLit(g, order, l) == CodeLit(g, order, m) <==> l == m
  {
    if CodeLit(g, order, l) == CodeLit(g, order, m) && l >= 2 && m >= 2 {
      CodeVarInjective(g, order, Var(l), Var(m));
    }
  }

  /** Coding commutes with negation. */
  lemma CodeNegates(g: Graph, order: seq<nat>, l: nat)
    requires Coded(g, order, l)
    ensures Coded(g, order, Not(l)) && CodeLit(g, order, Not(l)) == Not(CodeLit(g, order, l))
  {
    assert Var(Not(l)) == Var(l) && Not(l) % 2 == 1 - l % 2;
  }

  lemma CodeVarInjective(g: Graph, order: seq<nat>, v: nat, w: nat)
    requires GoodOrder(g, order)
    requires CodeVar(g, order, v) == CodeVar(g, order, w) != 0
    ensures v == w
  {
    hide GoodOrder;
    if IsInputVar(g, v) {
      assert g.inputs[InputAt(g, v)] == 2 * v;
      assert InputAt(g, w) == InputAt(g, v);
    } else if IsLatchVar(g, v) {
      assert LatchLits(g.latches)[LatchAt(g, v)] == 2 * v;
      assert LatchAt(g, w) == LatchAt(g, v);
    } else {
      assert order[IndexOf(order, v)] == v;
      assert IndexOf(order, v) == IndexOf(order, w);
    }
  }

  lemma OperandDefined(g: Graph, v: nat, rhs: nat)
    requires RhsDefined(g) && IsAndVar(g, v)
    requires rhs == GateOf(g, v).rhs0 || rhs == GateOf(g, v).rhs1
    ensures Defined(g, rhs)
  {
    assert GateOf(g, v) == g.ands[AndAt(g, v)];
  }

  lemma OperandIsSuccessor(g: Graph, v: nat, rhs: nat)
    requires WellFormed(g) && v in Gates(g, true) && rhs >= 2 && IsAndVar(g, Var(rhs))
    requires rhs == GateOf(g, v).rhs0 || rhs == GateOf(g, v).rhs1
    ensures Var(rhs) in Gates(g, true)[v] && Var(rhs) in Gates(g, true)
  {
    DefinedOnce(g, Var(rhs));
  }

  /** The operands of a listed gate are defined, and a gate operand is listed earlier. */
  lemma OperandListed(g: Graph, order: seq<nat>, k: nat, rhs: nat)
    requires GoodOrder(g, order) && k < |order|
    requires rhs == GateOf(g, order[k]).rhs0 || rhs == GateOf(g, order[k]).rhs1
    ensures Defined(g, rhs)
    ensures rhs >= 2 && IsAndVar(g, Var(rhs)) ==> Var(rhs) in order[..k]
  {
    hide WellFormed, GateOf;
    assert order[k] in Gates(g, true);
    OperandDefined(g, order[k], rhs);
    if rhs >= 2 && IsAndVar(g, Var(rhs)) {
      OperandIsSuccessor(g, order[k], rhs);
    }
  }

  /** The operands of a listed gate are coded, with smaller codes than the gate. */
  lemma OperandsCoded(g: Graph, order: seq<nat>, k: nat, rhs: nat)
    requires GoodOrder(g, order) && k < |order|
    requires rhs == GateOf(g, order[k]).rhs0 || rhs == GateOf(g, order[k]).rhs1
    ensures Coded(g, order, rhs) && CodeLit(g, order, rhs) < 2 * (Base(g) + k)
  {
    hide WellFormed, EverythingDefined, Gates, GateOf;
    OperandListed(g, order, k, rhs);
    DefinedOnce(g, Var(rhs));
    if rhs >= 2 && IsAndVar(g, Var(rhs)) {
      IndexOfPrefix(order[..k], order, Var(rhs));
    }
  }

  /** A listed gate gets the code of its place in the order. */
  lemma GateCode(g: Graph, order: seq<nat>, k: nat)
    requires GoodOrder(g, order) && k < |order|
    ensures GateOf(g, order[k]).lhs == 2 * order[k]
    ensures GateOf(g, order[k]) in g.ands
    ensures CodeLit(g, order, 2 * order[k]) == 2 * (Base(g) + k)
  {
    var v := order[k];
    DefinedOnce(g, v);
    assert v in Gates(g, true);
    assert AndLits(g.ands)[AndAt(g, v)] == 2 * v;
    IndexOfDistinct(order, k);
  }

  /** The renumbered gates: consecutive left-hand sides, larger operand first, both smaller. */
  lemma GatesInOrder(g: Graph, order: seq<nat>, k: nat)
    requires GoodOrder(g, order) && k < |order|
    ensures var a := Recode(g, order).ands[k];
            a.lhs == 2 * (Base(g) + k) && a.rhs0 < a.lhs && a.rhs1 <= a.rhs0
  {
    var a := GateOf(g, order[k]);
    GateCode(g, order, k);
    OperandsCoded(g, order, k, a.rhs0);
    OperandsCoded(g, order, k, a.rhs1);
  }

  ghost predicate Good(g: Graph, order: seq<nat>) {
    && GoodOrder(g, order)
    && forall l :: l in Roots(g) ==> Coded(g, order, l)
  }

  lemma RootsCoded(g: Graph)
    requires Checked(g)
    ensures Good(g, KeptOrder(g))
  {
    var adj, order := Gates(g, true), KeptOrder(g);
    KeptExact(g);
    SortingKeepsCycles(g);
    AfterExtends(adj, Roots(g), []);
    forall l | l in Roots(g) ensures Coded(g, order, l) {
      RootDefined(g, l);
      DefinedOnce(g, Var(l));
    }
  }

  lemma RootDefined(g: Graph, l: nat)
    requires WellFormed(g) && EverythingDefined(g) && l in Roots(g)
    ensures Defined(g, l)
  {
    if l in LatchRoots(g.latches) {
      assert g.latches[..|g.latches|] == g.latches;
      LatchRootDefined(g, |g.latches|, l);
    } else if l in Flatten(g.justice) {
      var i := InRow(g.justice, l);
      assert AllDefined(g, g.justice[i]);
    } else {
      assert l in g.outputs || l in g.bad || l in g.constraints || l in g.fairness;
    }
  }

  lemma {:induction false} LatchRootDefined(g: Graph, n: nat, l: nat)
    requires WellFormed(g) && NextDefined(g) && n <= |g.latches| && l in LatchRoots(g.latches[..n])
    ensures Defined(g, l)
  {
    assert g.latches[..n][..n - 1] == g.latches[..n - 1];
    if l in LatchRoots(g.latches[..n - 1]) {
      LatchRootDefined(g, n - 1, l);
    } else {
      LatchPosition(g, n - 1);
      assert Defined(g, g.latches[n - 1].next);
    }
  }

  lemma {:induction false} InRow(rows: seq<seq<nat>>, x: nat) returns (i: nat)
    requires x in Flatten(rows)
    ensures i < |rows| && x in rows[i]
    decreases |rows|
  {
    var n := |rows| - 1;
    if x in rows[n] {
      i := n;
    } else {
      i := InRow(rows[..n], x);
    }
  }
}
