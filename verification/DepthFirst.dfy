/**
 Depth-first search over variable numbers, in the explicit-stack form used by
 both searches of lib/aiger/aiger.c.  Visit is the recursive reference; Resume
 interprets a stack whose entries are pending variables, with a 0 above each
 variable that is being expanded.  The loops keep Resume constant.
 */
module DepthFirst {
  import opened Digraph

  datatype Outcome = Done(order: seq<nat>) | Cycle(gate: nat)

  /** Postorder from v; `open` holds the variables being expanded. */
  function Visit(adj: Adj<nat>, v: nat, open: set<nat>, order: seq<nat>): Outcome
    decreases adj.Keys - open, 0
  {
    if v in open then Cycle(v)
    else if v !in adj || v in order then Done(order)
    else
      match VisitAll(adj, adj[v], open + {v}, order)
      case Cycle(c) => Cycle(c)
      case Done(o) => Done(o + [v])
  }

  /** Visits the given variables from left to right. */
  function VisitAll(adj: Adj<nat>, kids: seq<nat>, open: set<nat>, order: seq<nat>): Outcome
    decreases adj.Keys - open, |kids|
  {
    if kids == [] then Done(order)
    else
      match VisitAll(adj, kids[..|kids| - 1], open, order)
      case Cycle(c) => Cycle(c)
      case Done(o) => Visit(adj, kids[|kids| - 1], open, o)
  }

  /** What a successful visit adds to the order. */
  ghost predicate Extends(adj: Adj<nat>, open: set<nat>, order: seq<nat>, order': seq<nat>) {
    && order <= order'
    && (forall i :: |order| <= i < |order'| ==> order'[i] !in open)
    && (Topological<nat>(adj, order) ==> Topological<nat>(adj, order'))
  }

  lemma {:induction false} ExtendsTrans(adj: Adj<nat>, open: set<nat>, a: seq<nat>, b: seq<nat>, c: seq<nat>)
    requires Extends(adj, open, a, b) && Extends(adj, open, b, c)
    ensures Extends(adj, open, a, c)
  {
    forall i | |a| <= i < |c| ensures c[i] !in open {
      if i < |b| {
        assert c[i] == b[i];
      }
    }
  }

  lemma {:induction false} PrefixKeeps(a: seq<nat>, b: seq<nat>, v: nat)
    requires a <= b && v in a
    ensures v in b
  {
    var i :| 0 <= i < |a| && a[i] == v;
    assert b[i] == v;
  }

  /** Appending v after all its listed successors keeps the order topological. */
  lemma {:induction false} AppendTopological(adj: Adj<nat>, order: seq<nat>, v: nat)
    requires Topological<nat>(adj, order) && v in adj && v !in order
    requires forall k :: k in adj[v] && k in adj ==> k in order
    ensures Topological<nat>(adj, order + [v])
  {
    var o := order + [v];
    forall i, k | 0 <= i < |o| && k in adj[o[i]] && k in adj ensures k in o[..i] {
      if i < |order| {
        assert o[..i] == order[..i];
      } else {
        assert o[..i] == order;
      }
    }
  }

  lemma {:induction false} VisitExtends(adj: Adj<nat>, v: nat, open: set<nat>, order: seq<nat>)
    requires Visit(adj, v, open, order).Done?
    ensures Extends(adj, open, order, Visit(adj, v, open, order).order)
    ensures v in adj ==> v in Visit(adj, v, open, order).order
    decreases adj.Keys - open, 0
  {
    if v in adj && v !in order {
      VisitAllExtends(adj, adj[v], open + {v}, order);
      var o := VisitAll(adj, adj[v], open + {v}, order).order;
      assert v !in o;
      if Topological<nat>(adj, order) {
        AppendTopological(adj, o, v);
      }
    }
  }

  lemma {:induction false} VisitAllExtends(adj: Adj<nat>, kids: seq<nat>, open: set<nat>, order: seq<nat>)
    requires VisitAll(adj, kids, open, order).Done?
    ensures Extends(adj, open, order, VisitAll(adj, kids, open, order).order)
    ensures forall k :: k in kids && k in adj ==> k in VisitAll(adj, kids, open, order).order
    decreases adj.Keys - open, |kids|
  {
    if kids != [] {
      var init, last := kids[..|kids| - 1], kids[|kids| - 1];
      VisitAllExtends(adj, init, open, order);
      var o := VisitAll(adj, init, open, order).order;
      VisitExtends(adj, last, open, o);
      var o' := Visit(adj, last, open, o).order;
      ExtendsTrans(adj, open, order, o, o');
      forall k | k in kids && k in adj ensures k in o' {
        if k in init {
          PrefixKeeps(o, o', k);
        } else {
          assert kids == init + [last];
        }
      }
    }
  }

  /** Everything newly listed is reachable from what was visited. */
  lemma {:induction false} VisitReaches(adj: Adj<nat>, v: nat, open: set<nat>, order: seq<nat>, x: nat)
    requires Visit(adj, v, open, order).Done?
    requires x in Visit(adj, v, open, order).order && x !in order
    ensures Reach<nat>(adj, v, x) && x in adj
    decreases adj.Keys - open, 0
  {
    var o := VisitAll(adj, adj[v], open + {v}, order).order;
    if x in o {
      var k := VisitAllReaches(adj, adj[v], open + {v}, order, x);
      EdgeReaches(adj, v, k);
      ReachTransitive(adj, v, k, x);
    } else {
      ReachSelf(adj, v);
    }
  }

  lemma {:induction false} VisitAllReaches(adj: Adj<nat>, kids: seq<nat>, open: set<nat>, order: seq<nat>, x: nat) returns (k: nat)
    requires VisitAll(adj, kids, open, order).Done?
    requires x in VisitAll(adj, kids, open, order).order && x !in order
    ensures k in kids && Reach<nat>(adj, k, x) && x in adj
    decreases adj.Keys - open, |kids|
  {
    var init, last := kids[..|kids| - 1], kids[|kids| - 1];
    var o := VisitAll(adj, init, open, order).order;
    if x in o {
      k := VisitAllReaches(adj, init, open, order, x);
    } else {
      VisitReaches(adj, last, open, o, x);
      k := last;
    }
  }

  /** The reported variable does lie on a cycle, when every open variable leads to v. */
  lemma {:induction false} VisitCycle(adj: Adj<nat>, v: nat, open: set<nat>, order: seq<nat>)
    requires Visit(adj, v, open, order).Cycle?
    requires forall u :: u in open ==> ReachPlus<nat>(adj, u, v)
    ensures OnCycle<nat>(adj, Visit(adj, v, open, order).gate)
    decreases adj.Keys - open, 0
  {
    if v in open {
      assert OnCycle<nat>(adj, v);
    } else {
      forall u, k | u in open + {v} && k in adj[v] ensures ReachPlus<nat>(adj, u, k) {
        assert Edge<nat>(adj, v, k);
        if u == v {
          ReachSelf(adj, v);
        } else {
          PlusReaches(adj, u, v);
        }
        PlusThenEdge<nat>(adj, u, v, k);
      }
      VisitAllCycle(adj, adj[v], open + {v}, order);
    }
  }

  lemma {:induction false} VisitAllCycle(adj: Adj<nat>, kids: seq<nat>, open: set<nat>, order: seq<nat>)
    requires VisitAll(adj, kids, open, order).Cycle?
    requires forall u, k :: u in open && k in kids ==> ReachPlus<nat>(adj, u, k)
    ensures OnCycle<nat>(adj, VisitAll(adj, kids, open, order).gate)
    decreases adj.Keys - open, |kids|
  {
    var init, last := kids[..|kids| - 1], kids[|kids| - 1];
    var r := VisitAll(adj, init, open, order);
    if r.Cycle? {
      VisitAllCycle(adj, init, open, order);
    } else {
      VisitCycle(adj, last, open, r.order);
    }
  }

  /** The search over all keys is an exact cycle test. */
  lemma VisitAllExact(adj: Adj<nat>, roots: seq<nat>)
    requires forall v :: v in adj ==> v in roots
    ensures VisitAll(adj, roots, {}, []).Cycle? <==> Cyclic<nat>(adj)
  {
    if VisitAll(adj, roots, {}, []).Cycle? {
      VisitAllCycle(adj, roots, {}, []);
    } else {
      VisitAllExtends(adj, roots, {}, []);
      TopologicalAcyclic(adj, VisitAll(adj, roots, {}, []).order);
    }
  }

  // ---------------------------------------------------------------------------
  // The explicit stack
  // ---------------------------------------------------------------------------

  /** The variables under expansion: those directly below a 0. */
  function OpenOf(stack: seq<nat>): set<nat> {
    var n := |stack|;
    if n < 2 then {}
    else if stack[n - 1] == 0 then OpenOf(stack[..n - 2]) + {stack[n - 2]}
    else OpenOf(stack[..n - 1])
  }

  /** Every 0 stands on a variable, and no variable is open twice. */
  predicate WellStacked(stack: seq<nat>) {
    var n := |stack|;
    if n == 0 then true
    else if stack[n - 1] == 0 then
      n >= 2 && stack[n - 2] != 0 && stack[n - 2] !in OpenOf(stack[..n - 2]) && WellStacked(stack[..n - 2])
    else WellStacked(stack[..n - 1])
  }

  /** The outcome of running the rest of the stack. */
  function Resume(adj: Adj<nat>, stack: seq<nat>, order: seq<nat>): Outcome {
    var n := |stack|;
    if n == 0 then Done(order)
    else if stack[n - 1] == 0 then
      if n == 1 then Done(order) else Resume(adj, stack[..n - 2], order + [stack[n - 2]])
    else
      match Visit(adj, stack[n - 1], OpenOf(stack[..n - 1]), order)
      case Cycle(c) => Cycle(c)
      case Done(o) => Resume(adj, stack[..n - 1], o)
  }

  lemma {:induction false} PushPending(stack: seq<nat>, x: nat)
    requires x != 0
    ensures OpenOf(stack + [x]) == OpenOf(stack)
    ensures WellStacked(stack + [x]) == WellStacked(stack)
  {
    assert (stack + [x])[..|stack|] == stack;
  }

  lemma {:induction false} PushOpen(stack: seq<nat>, v: nat)
    ensures OpenOf(stack + [v, 0]) == OpenOf(stack) + {v}
    ensures v != 0 && v !in OpenOf(stack) && WellStacked(stack) ==> WellStacked(stack + [v, 0])
  {
    assert (stack + [v, 0])[..|stack|] == stack;
  }
}
