/**
 One step of the explicit-stack searches of lib/aiger/aiger.c: expanding a gate
 and pushing its two operands, in terms of the recursive reference.
 */
module AigSearch {
  import opened Digraph
  import opened DepthFirst
  import opened AigGraph

  /** Visits b, then a. */
  function VisitTwo(adj: Adj<nat>, b: nat, a: nat, open: set<nat>, order: seq<nat>): Outcome {
    match Visit(adj, b, open, order)
    case Cycle(c) => Cycle(c)
    case Done(o) => Visit(adj, a, open, o)
  }

  lemma VisitNonZero(adj: Adj<nat>, v: nat, open: set<nat>, order: seq<nat>)
    requires 0 !in adj && 0 !in open
    ensures VisitAll(adj, NonZero(v), open, order) == Visit(adj, v, open, order)
  {
    if v != 0 {
      assert [v][..0] == [];
    }
  }

  lemma VisitOperands(adj: Adj<nat>, b: nat, a: nat, open: set<nat>, order: seq<nat>)
    requires 0 !in adj && 0 !in open
    ensures VisitAll(adj, NonZero(b) + NonZero(a), open, order) == VisitTwo(adj, b, a, open, order)
  {
    VisitNonZero(adj, b, open, order);
    if a == 0 {
      assert NonZero(b) + NonZero(a) == NonZero(b);
    } else {
      assert (NonZero(b) + NonZero(a))[..|NonZero(b)|] == NonZero(b);
    }
  }

  /** What a search may push for an operand: the variable, or nothing if visiting it is idle. */
  ghost predicate Pushed(adj: Adj<nat>, open: set<nat>, v: nat, p: seq<nat>) {
    (v != 0 && p == [v]) || (p == [] && v !in adj && v !in open)
  }

  /** An operand on top of the stack runs as one recursive visit of it; an idle one that was left out, too. */
  lemma ResumePushed(adj: Adj<nat>, stack: seq<nat>, v: nat, p: seq<nat>, order: seq<nat>)
    requires Pushed(adj, OpenOf(stack), v, p)
    ensures OpenOf(stack + p) == OpenOf(stack) && WellStacked(stack + p) == WellStacked(stack)
    ensures Resume(adj, stack + p, order) ==
            match Visit(adj, v, OpenOf(stack), order)
            case Cycle(c) => Cycle(c)
            case Done(o) => Resume(adj, stack, o)
  {
    if p == [] {
      assert stack + p == stack;
    } else {
      PushPending(stack, v);
      assert (stack + [v])[..|stack|] == stack;
    }
  }

  /** Expanding v on top of the stack: its marker, then operand a below operand b. */
  lemma Expand(adj: Adj<nat>, stack: seq<nat>, v: nat, a: nat, b: nat, p: seq<nat>, q: seq<nat>, order: seq<nat>)
    requires v != 0 && v in adj && v !in order && v !in OpenOf(stack) && WellStacked(stack)
    requires adj[v] == NonZero(b) + NonZero(a) && 0 !in adj && 0 !in OpenOf(stack)
    requires Pushed(adj, OpenOf(stack) + {v}, a, p) && Pushed(adj, OpenOf(stack) + {v}, b, q)
    ensures var stack' := stack + [v, 0] + p + q;
            && Resume(adj, stack', order) == Resume(adj, stack + [v], order)
            && OpenOf(stack') == OpenOf(stack) + {v}
            && WellStacked(stack')
  {
    var s := stack + [v, 0];
    PushOpen(stack, v);
    ResumePushed(adj, s, a, p, order);
    ResumePushed(adj, s + p, b, q, order);
    VisitOperands(adj, b, a, OpenOf(s), order);
    assert (stack + [v])[..|stack|] == stack;
    assert s[..|stack|] == stack;
    var r := Visit(adj, b, OpenOf(s), order);
    if r.Done? {
      ResumePushed(adj, s, a, p, r.order);
    }
  }

  /** A stack that runs to completion has no pending variable that is open. */
  lemma NotOpenWhenDone(adj: Adj<nat>, stack: seq<nat>, order: seq<nat>)
    requires stack != [] && stack[|stack| - 1] != 0 && Resume(adj, stack, order).Done?
    ensures stack[|stack| - 1] !in OpenOf(stack[..|stack| - 1])
  {
  }

  /** The operands of a gate whose expansion completes are not open. */
  lemma OperandsNotOpen(adj: Adj<nat>, stack: seq<nat>, v: nat, a: nat, b: nat, order: seq<nat>)
    requires v in adj && v !in order && v !in OpenOf(stack) && v != 0
    requires adj[v] == NonZero(b) + NonZero(a) && 0 !in adj && 0 !in OpenOf(stack)
    requires Resume(adj, stack + [v], order).Done?
    ensures a !in OpenOf(stack) + {v} && b !in OpenOf(stack) + {v}
  {
    assert (stack + [v])[..|stack|] == stack;
    VisitOperands(adj, b, a, OpenOf(stack) + {v}, order);
  }

  /** A pending variable that is no unlisted gate is dropped. */
  lemma Skip(adj: Adj<nat>, stack: seq<nat>, order: seq<nat>)
    requires stack != [] && stack[|stack| - 1] != 0 && WellStacked(stack) && stack[|stack| - 1] !in OpenOf(stack)
    requires stack[|stack| - 1] !in adj || stack[|stack| - 1] in order
    ensures var s := stack[..|stack| - 1];
      OpenOf(s) == OpenOf(stack) && WellStacked(s) && Resume(adj, s, order) == Resume(adj, stack, order)
  {
    assert |stack| == 1 ==> stack[..0] == [];
  }

  /** A pending variable that is open closes a cycle. */
  lemma Closes(adj: Adj<nat>, stack: seq<nat>, order: seq<nat>)
    requires stack != [] && stack[|stack| - 1] != 0 && stack[|stack| - 1] in OpenOf(stack)
    ensures Resume(adj, stack, order) == Cycle(stack[|stack| - 1])
  {
  }

  /** The postfix step: the variable under the 0 on top is finished. */
  lemma Finish(adj: Adj<nat>, stack: seq<nat>, order: seq<nat>)
    requires WellStacked(stack) && stack != [] && stack[|stack| - 1] == 0
    ensures var n := |stack|;
      && n >= 2 && stack[n - 2] != 0
      && OpenOf(stack) == OpenOf(stack[..n - 2]) + {stack[n - 2]} && stack[n - 2] !in OpenOf(stack[..n - 2])
      && WellStacked(stack[..n - 2])
      && Resume(adj, stack[..n - 2], order + [stack[n - 2]]) == Resume(adj, stack, order)
  {
  }

  /** The variables 1..n in order. */
  function UpTo(n: nat): (r: seq<nat>)
    ensures |r| == n && forall i :: 0 <= i < n ==> r[i] == i + 1
  {
    if n == 0 then [] else UpTo(n - 1) + [n]
  }

  /** Scanning variable n after 1..n-1. */
  lemma ScanNext(adj: Adj<nat>, n: nat)
    requires n > 0
    ensures VisitAll(adj, UpTo(n), {}, []) ==
            match VisitAll(adj, UpTo(n - 1), {}, [])
            case Cycle(c) => Cycle(c)
            case Done(o) => Visit(adj, n, {}, o)
  {
    assert UpTo(n)[..n - 1] == UpTo(n - 1);
  }

  /** A cycle found early is the result of the whole scan. */
  lemma {:induction false} ScanCycle(adj: Adj<nat>, m: nat, n: nat)
    requires m <= n && VisitAll(adj, UpTo(m), {}, []).Cycle?
    ensures VisitAll(adj, UpTo(n), {}, []) == VisitAll(adj, UpTo(m), {}, [])
    decreases n
  {
    if m < n {
      ScanCycle(adj, m, n - 1);
      ScanNext(adj, n);
    }
  }

  /** The scan is exact, and the variable it reports lies on a cycle. */
  lemma ScanExact(adj: Adj<nat>, n: nat)
    requires forall v :: v in adj ==> 0 < v <= n
    ensures VisitAll(adj, UpTo(n), {}, []).Cycle? <==> Cyclic<nat>(adj)
    ensures VisitAll(adj, UpTo(n), {}, []).Cycle? ==> OnCycle<nat>(adj, VisitAll(adj, UpTo(n), {}, []).gate)
  {
    forall v | v in adj ensures v in UpTo(n) {
      assert UpTo(n)[v - 1] == v;
    }
    VisitAllExact(adj, UpTo(n));
    if VisitAll(adj, UpTo(n), {}, []).Cycle? {
      VisitAllCycle(adj, UpTo(n), {}, []);
    }
  }

  lemma Start(adj: Adj<nat>, v: nat, order: seq<nat>)
    requires v != 0
    ensures WellStacked([v]) && OpenOf([v]) == {} && Resume(adj, [v], order) == Visit(adj, v, {}, order)
  {
    assert [v][..0] == [];
  }

  lemma Stop(adj: Adj<nat>, order: seq<nat>)
    ensures OpenOf([]) == {} && Resume(adj, [], order) == Done(order)
  {
  }

  lemma VisitIdle(adj: Adj<nat>, v: nat, order: seq<nat>)
    requires v !in adj || v in order
    ensures Visit(adj, v, {}, order) == Done(order)
  {
  }

  lemma ScanNone(adj: Adj<nat>)
    ensures VisitAll(adj, UpTo(0), {}, []) == Done([])
  {
  }

  lemma ScanListed(adj: Adj<nat>, n: nat)
    requires VisitAll(adj, UpTo(n), {}, []).Done?
    ensures forall v :: v in VisitAll(adj, UpTo(n), {}, []).order ==> v in adj
  {
    VisitAllExtends(adj, UpTo(n), {}, []);
  }

  /** What both search loops keep true. */
  ghost predicate Searching(g: Graph, adj: Adj<nat>, stack: seq<nat>, order: seq<nat>) {
    && (forall k :: 0 <= k < |stack| ==> stack[k] <= g.maxvar)
    && WellStacked(stack)
    && OpenOf(stack) <= adj.Keys
    && (forall v :: v in OpenOf(stack) ==> v !in order)
  }

  ghost function Left(adj: Adj<nat>, stack: seq<nat>, order: seq<nat>): set<nat> {
    adj.Keys - OpenOf(stack) - (set v | v in order)
  }

  lemma SameLeft(adj: Adj<nat>, s: seq<nat>, t: seq<nat>, order: seq<nat>)
    requires OpenOf(s) == OpenOf(t)
    ensures Left(adj, s, order) == Left(adj, t, order)
  {
  }

  /** Expanding the gate on top of the stack; p and q are what is pushed for its operands a and b. */
  lemma OpenStep(g: Graph, adj: Adj<nat>, stack: seq<nat>, order: seq<nat>, j: nat, a: nat, b: nat, p: seq<nat>, q: seq<nat>)
    requires Searching(g, adj, stack, order) && stack != [] && j == stack[|stack| - 1] != 0
    requires j in adj && j !in OpenOf(stack) && j !in order
    requires adj[j] == NonZero(b) + NonZero(a) && 0 !in adj && a <= g.maxvar && b <= g.maxvar
    requires Pushed(adj, OpenOf(stack) + {j}, a, p) && Pushed(adj, OpenOf(stack) + {j}, b, q)
    ensures var stack' := stack + [0] + p + q;
      && Searching(g, adj, stack', order)
      && OpenOf(stack') == OpenOf(stack) + {j}
      && Resume(adj, stack', order) == Resume(adj, stack, order)
      && Left(adj, stack', order) < Left(adj, stack, order)
  {
    hide Resume, Visit, OpenOf, WellStacked;
    var below := stack[..|stack| - 1];
    assert stack == below + [j];
    PushPending(below, j);
    Expand(adj, below, j, a, b, p, q, order);
    assert stack + [0] + p + q == below + [j, 0] + p + q;
    assert j in Left(adj, stack, order);
  }

  /** Finishing the gate under the marker on top of the stack. */
  lemma CloseStep(g: Graph, adj: Adj<nat>, stack: seq<nat>, order: seq<nat>)
    requires Searching(g, adj, stack, order) && stack != [] && stack[|stack| - 1] == 0
    ensures |stack| >= 2
    ensures var stack', j := stack[..|stack| - 2], stack[|stack| - 2];
      && j != 0 && j in adj && j !in OpenOf(stack') && OpenOf(stack) == OpenOf(stack') + {j}
      && Searching(g, adj, stack', order + [j])
      && Resume(adj, stack', order + [j]) == Resume(adj, stack, order)
      && Left(adj, stack', order + [j]) == Left(adj, stack, order)
  {
    hide Resume, Visit, OpenOf, WellStacked;
    Finish(adj, stack, order);
    var j := stack[|stack| - 2];
    assert (set v | v in order + [j]) == (set v | v in order) + {j};
  }
}
