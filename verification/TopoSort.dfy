/**
 Topological sorting with feedback (src/util/graph.h): a depth-first search from
 all sources at once whose finished nodes fill the result from the back.
 */
module TopoSort {
  import opened Collections
  import opened Digraph

  /** What the algorithm asks of a graph: sources, outgoing edges, and where they lead. */
  datatype Graph = Graph(nodes: set<nat>, edges: set<nat>, sources: seq<nat>,
                         out: map<nat, seq<nat>>, target: map<nat, nat>)

  predicate WellFormed(g: Graph) {
    && (forall v :: v in g.nodes ==> v in g.out)
    && (forall i :: 0 <= i < |g.sources| ==> g.sources[i] in g.out)
    && (forall i, j :: 0 <= i < j < |g.sources| ==> g.sources[i] != g.sources[j])
    && (forall e :: e in g.edges ==> e in g.target)
  }

  /** getOutEdges */
  function Out(g: Graph, v: nat): seq<nat> {
    if v in g.out then g.out[v] else []
  }

  /** An edge that the search follows: it belongs to the graph and so does its end. */
  predicate Leads(g: Graph, e: nat, w: nat) {
    e in g.edges && e in g.target && g.target[e] == w && w in g.nodes
  }

  /** The ends of the edges that the search follows, in their order. */
  function Ends(g: Graph, out: seq<nat>): seq<nat> {
    if out == [] then []
    else
      var e := out[|out| - 1];
      var init := Ends(g, out[..|out| - 1]);
      if e in g.edges && e in g.target && g.target[e] in g.nodes then init + [g.target[e]] else init
  }

  function Adjacency(g: Graph): Adj<nat> {
    map v | v in g.out :: Ends(g, g.out[v])
  }

  lemma EndsLast(g: Graph, out: seq<nat>, w: nat)
    requires out != []
    ensures w in Ends(g, out) <==> w in Ends(g, out[..|out| - 1]) || Leads(g, out[|out| - 1], w)
  {
  }

  lemma {:induction false} EndsExact(g: Graph, out: seq<nat>, w: nat)
    ensures w in Ends(g, out) <==> exists k :: 0 <= k < |out| && Leads(g, out[k], w)
  {
    hide Leads;
    if out != [] {
      var n := |out| - 1;
      EndsLast(g, out, w);
      EndsExact(g, out[..n], w);
      hide Ends;
      assert forall k :: 0 <= k < n ==> out[..n][k] == out[k];
    }
  }

  lemma EdgeExact(g: Graph, u: nat, w: nat)
    ensures Edge<nat>(Adjacency(g), u, w) <==> exists k :: 0 <= k < |Out(g, u)| && Leads(g, Out(g, u)[k], w)
  {
    EndsExact(g, Out(g, u), w);
  }

  /** A node under expansion and the position in its outgoing edges. */
  datatype Frame = Frame(node: nat, next: nat)

  // ---------------------------------------------------------------------------
  // What the search keeps
  // ---------------------------------------------------------------------------

  /**
   Below the last started source the stack still holds the seeds; from there
   on each frame was entered through an edge of the one below.
   */
  ghost predicate Chained(g: Graph, stack: seq<Frame>, seeds: nat) {
    && seeds <= |stack| && seeds <= |g.sources|
    && (stack != [] ==> seeds > 0)
    && (forall j :: 0 <= j < seeds ==> stack[j].node == g.sources[j])
    && (forall j :: seeds <= j < |stack| ==> Edge<nat>(Adjacency(g), stack[j - 1].node, stack[j].node))
  }

  ghost function NodesOf(stack: seq<Frame>): set<nat> {
    set j | 0 <= j < |stack| :: stack[j].node
  }

  /** No node is twice on the stack or finished. */
  ghost predicate Apart(stack: seq<Frame>, finished: seq<nat>) {
    && (forall i, j :: 0 <= i < j < |stack| ==> stack[i].node != stack[j].node)
    && (forall i, j :: 0 <= i < j < |finished| ==> finished[i] != finished[j])
    && (forall i :: 0 <= i < |stack| ==> stack[i].node !in finished)
  }

  /** The edges that a frame has passed lead to visited nodes. */
  ghost predicate Passed(g: Graph, f: Frame, visited: set<nat>) {
    && f.node in g.out && f.next <= |Out(g, f.node)|
    && forall k, w :: 0 <= k < f.next && Leads(g, Out(g, f.node)[k], w) ==> w in visited
  }

  ghost predicate AllPassed(g: Graph, stack: seq<Frame>, visited: set<nat>) {
    forall j :: 0 <= j < |stack| ==> Passed(g, stack[j], visited)
  }

  /** The finished nodes are closed under edges. */
  ghost predicate Closed(g: Graph, finished: seq<nat>, visited: set<nat>) {
    forall u, w :: u in finished && Edge<nat>(Adjacency(g), u, w) ==> w in visited
  }

  /** An edge out of a finished node leads to an earlier finished one, back, or to a source. */
  ghost predicate Settled(g: Graph, finished: seq<nat>) {
    forall a, w :: 0 <= a < |finished| && Edge<nat>(Adjacency(g), finished[a], w) ==> SettledAt(g, finished, a, w)
  }

  ghost predicate SettledAt(g: Graph, finished: seq<nat>, a: nat, w: nat)
    requires a < |finished|
  {
    w in finished[..a] || Reach<nat>(Adjacency(g), w, finished[a]) || w in g.sources
  }

  ghost predicate Searching(g: Graph, stack: seq<Frame>, seeds: nat, visited: set<nat>, finished: seq<nat>) {
    && Chained(g, stack, seeds)
    && Apart(stack, finished)
    && visited == NodesOf(stack) + (set v | v in finished)
    && AllPassed(g, stack, visited)
    && Closed(g, finished, visited)
    && Settled(g, finished)
    && (forall s :: s in g.sources ==> s in visited)
    && (forall v :: v in visited ==> v in g.out)
  }

  /** A source leads to v. */
  ghost predicate SourceReaches(g: Graph, v: nat) {
    exists s :: s in g.sources && Reach<nat>(Adjacency(g), s, v)
  }

  ghost predicate Reached(g: Graph, visited: set<nat>) {
    forall v :: v in visited ==> SourceReaches(g, v)
  }

  /** Frames above the seeds are no sources, and a source is finished after all later ones. */
  ghost predicate SourcesFall(g: Graph, stack: seq<Frame>, seeds: nat, finished: seq<nat>) {
    && (forall k :: seeds <= k < |stack| ==> stack[k].node !in g.sources)
    && (forall i, j, a :: 0 <= i < j < |g.sources| && 0 <= a < |finished| && finished[a] == g.sources[i] ==>
          g.sources[j] in finished[..a])
  }

  // ---------------------------------------------------------------------------
  // Steps of the search
  // ---------------------------------------------------------------------------

  /** All sources on the stack, nothing finished. */
  lemma SearchStarts(g: Graph, stack: seq<Frame>, visited: set<nat>)
    requires WellFormed(g)
    requires |stack| == |g.sources| && forall i :: 0 <= i < |stack| ==> stack[i] == Frame(g.sources[i], 0)
    requires visited == (set v | v in g.sources)
    ensures Searching(g, stack, |g.sources|, visited, [])
  {
    hide Edge, Adjacency, Leads;
    assert visited == NodesOf(stack) by {
      forall v | v in visited ensures v in NodesOf(stack) {
        var i :| 0 <= i < |g.sources| && g.sources[i] == v;
        assert stack[i].node == v;
      }
    }
  }

  /** The search passes an edge that leads nowhere new. */
  lemma SearchSkips(g: Graph, stack: seq<Frame>, seeds: nat, visited: set<nat>, finished: seq<nat>, i: nat)
    requires Searching(g, stack, seeds, visited, finished) && stack != []
    requires Passed(g, Frame(stack[|stack| - 1].node, i), visited)
    ensures Searching(g, stack[|stack| - 1 := Frame(stack[|stack| - 1].node, i)], seeds, visited, finished)
  {
    hide Edge, Adjacency, Leads, Closed, Settled, Passed;
    var top := |stack| - 1;
    var stack' := stack[top := Frame(stack[top].node, i)];
    assert forall j :: 0 <= j < |stack| ==> stack'[j].node == stack[j].node;
    assert NodesOf(stack') == NodesOf(stack);
    forall j | 0 <= j < |stack| ensures Passed(g, stack'[j], visited) {
      if j < top {
        assert Passed(g, stack[j], visited);
      }
    }
  }

  /** The search enters an unvisited node. */
  lemma SearchEnters(g: Graph, stack: seq<Frame>, seeds: nat, visited: set<nat>, finished: seq<nat>, n: nat)
    requires WellFormed(g)
    requires Searching(g, stack, seeds, visited, finished) && stack != []
    requires stack[|stack| - 1].next < |Out(g, stack[|stack| - 1].node)|
    requires Leads(g, Out(g, stack[|stack| - 1].node)[stack[|stack| - 1].next], n) && n !in visited
    ensures Searching(g, stack + [Frame(n, 0)], seeds, visited + {n}, finished)
  {
    hide Edge, Adjacency, Settled;
    var top := stack[|stack| - 1];
    var stack' := stack + [Frame(n, 0)];
    EdgeExact(g, top.node, n);
    EntersApart(stack, finished, visited, n);
    EntersPassed(g, stack, visited, n);
    assert Closed(g, finished, visited + {n});
    assert NodesOf(stack') == NodesOf(stack) + {n} by {
      assert stack'[|stack|].node == n;
      forall v | v in NodesOf(stack) ensures v in NodesOf(stack') {
        var j :| 0 <= j < |stack| && stack[j].node == v;
        assert stack'[j].node == v;
      }
    }
  }

  lemma EntersApart(stack: seq<Frame>, finished: seq<nat>, visited: set<nat>, n: nat)
    requires Apart(stack, finished) && n !in visited
    requires visited == NodesOf(stack) + (set v | v in finished)
    ensures Apart(stack + [Frame(n, 0)], finished)
  {
    forall j | 0 <= j < |stack| ensures stack[j].node != n {
      assert stack[j].node in NodesOf(stack);
    }
  }

  lemma EntersPassed(g: Graph, stack: seq<Frame>, visited: set<nat>, n: nat)
    requires AllPassed(g, stack, visited) && n in g.out
    ensures AllPassed(g, stack + [Frame(n, 0)], visited + {n})
  {
    hide Leads;
    var stack' := stack + [Frame(n, 0)];
    forall j | 0 <= j < |stack'| ensures Passed(g, stack'[j], visited + {n}) {
      if j < |stack| {
        assert Passed(g, stack[j], visited);
      }
    }
  }

  /** Along the chain every frame leads to the ones above it. */
  lemma {:induction false} ChainReaches(g: Graph, stack: seq<Frame>, seeds: nat, j: nat, k: nat)
    requires Chained(g, stack, seeds) && seeds <= j + 1 && j <= k < |stack|
    ensures Reach<nat>(Adjacency(g), stack[j].node, stack[k].node)
    decreases k - j
  {
    hide Edge, Adjacency, Reach, ReachPlus;
    if j == k {
      ReachSelf(Adjacency(g), stack[j].node);
    } else {
      ChainReaches(g, stack, seeds, j, k - 1);
      PlusThenEdge<nat>(Adjacency(g), stack[j].node, stack[k - 1].node, stack[k].node);
      PlusReaches(Adjacency(g), stack[j].node, stack[k].node);
    }
  }

  /** A visited successor of the top is finished, below it in the chain, or a seed. */
  lemma TopSettles(g: Graph, stack: seq<Frame>, seeds: nat, visited: set<nat>, finished: seq<nat>, w: nat)
    requires Chained(g, stack, seeds) && stack != []
    requires visited == NodesOf(stack) + (set v | v in finished)
    requires w in visited
    ensures SettledAt(g, finished + [stack[|stack| - 1].node], |finished|, w)
  {
    hide Edge, Adjacency, Reach;
    var f := finished + [stack[|stack| - 1].node];
    assert f[..|finished|] == finished;
    if w !in finished {
      var j :| 0 <= j < |stack| && stack[j].node == w;
      if j + 1 < seeds {
        assert g.sources[j] == w;
      } else {
        ChainReaches(g, stack, seeds, j, |stack| - 1);
      }
    }
  }

  /** The top has passed all its edges and is finished. */
  lemma SearchFinishes(g: Graph, stack: seq<Frame>, seeds: nat, visited: set<nat>, finished: seq<nat>)
    requires Searching(g, stack, seeds, visited, finished) && stack != []
    requires stack[|stack| - 1].next == |Out(g, stack[|stack| - 1].node)|
    ensures var n := |stack| - 1;
            Searching(g, stack[..n], if seeds <= n then seeds else n, visited, finished + [stack[n].node])
  {
    hide Edge, Adjacency, Leads, Reach;
    var n := |stack| - 1;
    var v, f := stack[n].node, finished + [stack[n].node];
    FinishesApart(stack, finished);
    assert NodesOf(stack) == NodesOf(stack[..n]) + {v} by {
      forall x | x in NodesOf(stack) && x != v ensures x in NodesOf(stack[..n]) {
        var j :| 0 <= j < |stack| && stack[j].node == x;
        assert stack[..n][j].node == x;
      }
    }
    assert (set x | x in f) == (set x | x in finished) + {v};
    FinishesClosed(g, stack, visited, finished);
    FinishesSettled(g, stack, seeds, visited, finished);
    forall j | 0 <= j < n ensures Passed(g, stack[..n][j], visited) {
      assert Passed(g, stack[j], visited);
    }
  }

  lemma FinishesApart(stack: seq<Frame>, finished: seq<nat>)
    requires Apart(stack, finished) && stack != []
    ensures Apart(stack[..|stack| - 1], finished + [stack[|stack| - 1].node])
  {
  }

  /** All successors of the finished top are visited. */
  lemma TopClosed(g: Graph, f: Frame, visited: set<nat>, w: nat)
    requires Passed(g, f, visited) && f.next == |Out(g, f.node)|
    requires Edge<nat>(Adjacency(g), f.node, w)
    ensures w in visited
  {
    hide Edge, Adjacency, Leads;
    EdgeExact(g, f.node, w);
  }

  lemma FinishesClosed(g: Graph, stack: seq<Frame>, visited: set<nat>, finished: seq<nat>)
    requires Closed(g, finished, visited) && AllPassed(g, stack, visited) && stack != []
    requires var f := stack[|stack| - 1]; f.node in g.out && f.next == |Out(g, f.node)|
    ensures Closed(g, finished + [stack[|stack| - 1].node], visited)
  {
    hide Edge, Adjacency, Leads, Passed;
    var f := stack[|stack| - 1];
    forall u, w | u in finished + [f.node] && Edge<nat>(Adjacency(g), u, w) ensures w in visited {
      if u == f.node {
        TopClosed(g, f, visited, w);
      }
    }
  }

  lemma FinishesSettled(g: Graph, stack: seq<Frame>, seeds: nat, visited: set<nat>, finished: seq<nat>)
    requires Searching(g, stack, seeds, visited, finished) && stack != []
    requires stack[|stack| - 1].next == |Out(g, stack[|stack| - 1].node)|
    ensures Settled(g, finished + [stack[|stack| - 1].node])
  {
    hide Edge, Adjacency, Leads, Reach, Passed, Apart, Closed;
    var top := stack[|stack| - 1];
    var f := finished + [top.node];
    forall a, w | 0 <= a < |f| && Edge<nat>(Adjacency(g), f[a], w) ensures SettledAt(g, f, a, w) {
      if a < |finished| {
        assert SettledAt(g, finished, a, w);
        assert f[..a] == finished[..a];
      } else {
        TopClosed(g, top, visited, w);
        TopSettles(g, stack, seeds, visited, finished, w);
      }
    }
  }

  lemma ReachedOn(g: Graph, u: nat, w: nat)
    requires SourceReaches(g, u) && Edge<nat>(Adjacency(g), u, w)
    ensures SourceReaches(g, w)
  {
    hide Edge, Adjacency, Reach, ReachPlus;
    var s :| s in g.sources && Reach<nat>(Adjacency(g), s, u);
    PlusThenEdge<nat>(Adjacency(g), s, u, w);
    PlusReaches(Adjacency(g), s, w);
  }

  lemma ReachedStarts(g: Graph)
    ensures Reached(g, set v | v in g.sources)
  {
    hide Reach;
    forall v | v in g.sources ensures SourceReaches(g, v) {
      ReachSelf(Adjacency(g), v);
    }
  }

  lemma ReachedEnters(g: Graph, stack: seq<Frame>, seeds: nat, visited: set<nat>, finished: seq<nat>, n: nat)
    requires Searching(g, stack, seeds, visited, finished) && stack != [] && Reached(g, visited)
    requires stack[|stack| - 1].next < |Out(g, stack[|stack| - 1].node)|
    requires Leads(g, Out(g, stack[|stack| - 1].node)[stack[|stack| - 1].next], n)
    ensures Reached(g, visited + {n})
  {
    hide Edge, Adjacency, Leads, SourceReaches, Chained, Closed, Settled, Apart;
    var u := stack[|stack| - 1].node;
    assert u in NodesOf(stack);
    EdgeExact(g, u, n);
    ReachedOn(g, u, n);
  }

  lemma FallEnters(g: Graph, stack: seq<Frame>, seeds: nat, visited: set<nat>, finished: seq<nat>, n: nat)
    requires Searching(g, stack, seeds, visited, finished) && SourcesFall(g, stack, seeds, finished) && n !in visited
    ensures SourcesFall(g, stack + [Frame(n, 0)], seeds, finished)
  {
    hide Edge, Adjacency, Chained, Closed, Settled, Apart, AllPassed;
  }

  lemma FallFinishes(g: Graph, stack: seq<Frame>, seeds: nat, visited: set<nat>, finished: seq<nat>)
    requires WellFormed(g) && Searching(g, stack, seeds, visited, finished) && stack != []
    requires SourcesFall(g, stack, seeds, finished)
    ensures var n := |stack| - 1;
            SourcesFall(g, stack[..n], if seeds <= n then seeds else n, finished + [stack[n].node])
  {
    hide Edge, Adjacency, Closed, Settled, AllPassed;
    var n := |stack| - 1;
    var f := finished + [stack[n].node];
    assert f[..|finished|] == finished;
    forall i, j, a | 0 <= i < j < |g.sources| && 0 <= a < |f| && f[a] == g.sources[i] ensures g.sources[j] in f[..a] {
      if a < |finished| {
        assert f[..a] == finished[..a];
      } else {
        SourceFinished(g, stack, seeds, visited, finished, i, j);
      }
    }
  }

  /** When a source is on top all later ones are finished. */
  lemma SourceFinished(g: Graph, stack: seq<Frame>, seeds: nat, visited: set<nat>, finished: seq<nat>, i: nat, j: nat)
    requires WellFormed(g) && Searching(g, stack, seeds, visited, finished) && stack != []
    requires SourcesFall(g, stack, seeds, finished)
    requires i < j < |g.sources| && stack[|stack| - 1].node == g.sources[i]
    ensures g.sources[j] in finished
  {
    hide Edge, Adjacency, Closed, Settled, AllPassed;
    assert g.sources[j] in visited;
  }

  // ---------------------------------------------------------------------------
  // The result
  // ---------------------------------------------------------------------------

  /** The finished nodes of the graph, last one first. */
  function Result(g: Graph, finished: seq<nat>): seq<nat> {
    if finished == [] then []
    else
      var v := finished[|finished| - 1];
      var rest := Result(g, finished[..|finished| - 1]);
      if v in g.nodes then [v] + rest else rest
  }

  lemma {:induction false} ResultMember(g: Graph, finished: seq<nat>, v: nat)
    ensures v in Result(g, finished) <==> v in finished && v in g.nodes
  {
    if finished != [] {
      var init := finished[..|finished| - 1];
      assert finished == init + [finished[|finished| - 1]];
      ResultMember(g, init, v);
    }
  }

  lemma {:induction false} ResultDistinct(g: Graph, finished: seq<nat>)
    requires Distinct(finished)
    ensures Distinct(Result(g, finished))
  {
    if finished != [] {
      var init, v := finished[..|finished| - 1], finished[|finished| - 1];
      ResultDistinct(g, init);
      ResultMember(g, init, v);
    }
  }

  /** There is a free cell for every node that is still to be finished. */
  lemma ResultFits(g: Graph, finished: seq<nat>, v: nat)
    requires Distinct(finished) && v in g.nodes && v !in finished
    ensures |Result(g, finished)| < |g.nodes|
  {
    var r := Result(g, finished);
    ResultDistinct(g, finished);
    DistinctCount(r);
    var had := Members(r);
    forall x | x in had ensures x in g.nodes - {v} {
      ResultMember(g, finished, x);
    }
    SubsetCount(had, g.nodes - {v});
    assert |g.nodes - {v}| == |g.nodes| - 1;
  }

  lemma {:induction false} ResultSplit(g: Graph, a: seq<nat>, b: seq<nat>)
    ensures Result(g, a + b) == Result(g, b) + Result(g, a)
  {
    if b == [] {
      assert a + b == a;
    } else {
      var n := |b| - 1;
      assert (a + b)[..|a + b| - 1] == a + b[..n];
      ResultSplit(g, a, b[..n]);
    }
  }

  /** Every node is reachable from a source. */
  ghost predicate SourcesReach(g: Graph) {
    forall v :: v in g.nodes ==> SourceReaches(g, v)
  }

  /** At the end everything reachable is finished. */
  lemma SearchComplete(g: Graph, visited: set<nat>, finished: seq<nat>, v: nat)
    requires Searching(g, [], 0, visited, finished)
    requires WellFormed(g) && SourceReaches(g, v) && v in g.nodes
    ensures v in finished
  {
    hide Settled, Adjacency, Passed, Apart;
    var s :| s in g.sources && Reach<nat>(Adjacency(g), s, v);
    var p: seq<nat> :| WalkFromTo(Adjacency(g), p, s, v);
    assert visited == set x | x in finished;
    forall u, w | u in visited && Edge<nat>(Adjacency(g), u, w) ensures w in visited {
      assert u in finished;
    }
    KeyOf(g, v);
    ClosedReach(Adjacency(g), visited, p, |p| - 1);
  }

  lemma KeyOf(g: Graph, v: nat)
    requires WellFormed(g) && v in g.nodes
    ensures v in Adjacency(g)
  {
  }

  /**
   The nodes that a source leads to, the sources among them as they are listed, in an
   order whose backward edges end in sources or close cycles.
   */
  ghost predicate Ordered(g: Graph, r: seq<nat>) {
    && Distinct(r)
    && (forall v :: v in r <==> v in g.nodes && SourceReaches(g, v))
    && (forall i, j :: 0 <= i <= j < |r| && Edge<nat>(Adjacency(g), r[j], r[i]) ==> Back(g, r[j], r[i]))
    && SourcesListed(g, r)
  }

  ghost predicate SourcesListed(g: Graph, r: seq<nat>) {
    forall i, j, a, b ::
      0 <= i < j < |g.sources| && 0 <= a < |r| && 0 <= b < |r| && r[a] == g.sources[i] && r[b] == g.sources[j] ==> a < b
  }

  ghost predicate Complete(g: Graph, r: seq<nat>) {
    forall v :: v in r <==> v in g.nodes
  }

  ghost predicate Back(g: Graph, u: nat, w: nat) {
    Reach<nat>(Adjacency(g), w, u) || w in g.sources
  }

  /** What is finished before u comes after it in the result. */
  lemma FinishedOrder(g: Graph, finished: seq<nat>, a: nat, i: nat, j: nat)
    requires Distinct(finished) && a < |finished|
    requires i <= j < |Result(g, finished)|
    requires Result(g, finished)[j] == finished[a]
    ensures Result(g, finished)[i] !in finished[..a]
  {
    hide Distinct;
    var before, from := finished[..a], finished[a..];
    var r, r0, r1 := Result(g, finished), Result(g, from), Result(g, before);
    assert finished == before + from;
    ResultSplit(g, before, from);
    ResultMember(g, before, finished[a]);
    ResultMember(g, from, r[i]);
    assert finished[a..][0] == finished[a];
    Halves(finished, a, finished[a]);
    InSecond(r0, r1, j);
    assert r[i] == r0[i] && r[i] in from;
    Halves(finished, a, r[i]);
  }

  lemma Halves(s: seq<nat>, a: nat, x: nat)
    requires Distinct(s) && a <= |s| && x in s[a..]
    ensures x !in s[..a]
  {
    var j :| 0 <= j < |s[a..]| && s[a..][j] == x;
    forall i | 0 <= i < a ensures s[i] != x {
      assert s[a + j] == x;
    }
  }

  lemma InSecond(r0: seq<nat>, r1: seq<nat>, j: nat)
    requires j < |r0 + r1|
    ensures j >= |r0| ==> (r0 + r1)[j] in r1
  {
    if j >= |r0| {
      assert (r0 + r1)[j] == r1[j - |r0|];
    }
  }

  lemma SearchOrdered(g: Graph, visited: set<nat>, finished: seq<nat>)
    requires Searching(g, [], 0, visited, finished) && Reached(g, visited) && SourcesFall(g, [], 0, finished)
    requires WellFormed(g)
    ensures Ordered(g, Result(g, finished))
  {
    hide Adjacency, Edge, Reach, Passed, Closed, SourceReaches, WellFormed, SourcesFall, SourcesListed;
    var r := Result(g, finished);
    assert Distinct(finished);
    ResultDistinct(g, finished);
    forall v ensures v in r <==> v in g.nodes && SourceReaches(g, v) {
      ResultMember(g, finished, v);
      if v in g.nodes && SourceReaches(g, v) {
        SearchComplete(g, visited, finished, v);
      }
    }
    forall i, j | 0 <= i <= j < |r| && Edge<nat>(Adjacency(g), r[j], r[i]) ensures Back(g, r[j], r[i]) {
      ResultMember(g, finished, r[j]);
      var a :| 0 <= a < |finished| && finished[a] == r[j];
      FinishedOrder(g, finished, a, i, j);
      assert SettledAt(g, finished, a, r[i]);
    }
    SearchListed(g, finished);
  }

  lemma SearchListed(g: Graph, finished: seq<nat>)
    requires SourcesFall(g, [], 0, finished) && Distinct(finished)
    ensures SourcesListed(g, Result(g, finished))
  {
    hide Distinct;
    var r := Result(g, finished);
    forall i, j, a, b | 0 <= i < j < |g.sources| && 0 <= a < |r| && 0 <= b < |r|
      && r[a] == g.sources[i] && r[b] == g.sources[j] ensures a < b
    {
      ResultMember(g, finished, r[a]);
      var x :| 0 <= x < |finished| && finished[x] == r[a];
      if b <= a {
        FinishedOrder(g, finished, x, b, a);
      }
    }
  }

  // ---------------------------------------------------------------------------
  // The loops
  // ---------------------------------------------------------------------------

  /** The for loop over the outgoing edges of v, resumed at i0. */
  method NextEdge(g: Graph, v: nat, i0: nat, visited: set<nat>) returns (i: nat, n: nat, hasMoved: bool)
    requires WellFormed(g) && Passed(g, Frame(v, i0), visited)
    ensures Passed(g, Frame(v, i), visited)
    ensures hasMoved ==> i < |Out(g, v)| && Leads(g, Out(g, v)[i], n) && n !in visited
    ensures !hasMoved ==> i == |Out(g, v)|
  {
    var out := g.out[v];
    i, n, hasMoved := i0, 0, false;
    while i < |out|
      invariant Passed(g, Frame(v, i), visited)
      decreases |out| - i
    {
      if out[i] in g.edges {
        n := g.target[out[i]];
        if n in g.nodes && n !in visited {
          hasMoved := true;
          return;
        }
      }
      i := i + 1;
    }
  }

  /**
   The result is filled from the back, down to the cell p of the iterator.  The source
   asserts that p is 0, which is the case exactly when a source leads to every node.
   */
  method TopologicalSort(g: Graph) returns (sorted: array<nat>, p: nat)
    requires WellFormed(g)
    ensures p <= sorted.Length == |g.nodes|
    ensures Ordered(g, sorted[p..])
    ensures forall k :: 0 <= k < p ==> sorted[k] == 0
    ensures p == 0 <==> SourcesReach(g)
    ensures SourcesReach(g) ==> Complete(g, sorted[p..])
  {
    hide Searching, Passed, Leads, WellFormed, SourcesReach, Ordered, Reached, SourcesFall, Complete;
    sorted := new nat[|g.nodes|](_ => 0);
    p := sorted.Length;
    var stack := seq(|g.sources|, i requires 0 <= i < |g.sources| => Frame(g.sources[i], 0));
    var visited := set v | v in g.sources;
    ghost var finished: seq<nat>, seeds: nat := [], |g.sources|;
    SearchStarts(g, stack, visited);
    ReachedStarts(g);
    FallStarts(g, stack);
    while stack != []
      invariant Searching(g, stack, seeds, visited, finished)
      invariant Reached(g, visited) && SourcesFall(g, stack, seeds, finished)
      invariant sorted.Length == |g.nodes| && p <= sorted.Length && sorted[p..] == Result(g, finished)
      invariant forall k :: 0 <= k < p ==> sorted[k] == 0
      decreases g.out.Keys - visited, |stack|
    {
      var top := |stack| - 1;
      var v := stack[top].node;
      TopPassed(g, stack, seeds, visited, finished);
      var i, n, hasMoved := NextEdge(g, v, stack[top].next, visited);
      SearchSkips(g, stack, seeds, visited, finished, i);
      FallSkips(g, stack, seeds, finished, i);
      stack := stack[top := Frame(v, i)];
      if hasMoved {
        SearchEnters(g, stack, seeds, visited, finished, n);
        ReachedEnters(g, stack, seeds, visited, finished, n);
        FallEnters(g, stack, seeds, visited, finished, n);
        EntersKey(g, Out(g, v)[i], n);
        stack := stack + [Frame(n, 0)];
        visited := visited + {n};
      } else {
        TopFits(g, stack, seeds, visited, finished);
        SearchFinishes(g, stack, seeds, visited, finished);
        FallFinishes(g, stack, seeds, visited, finished);
        ResultMore(g, finished, v);
        if v in g.nodes {
          p := p - 1;
          sorted[p] := v;
        }
        finished, seeds := finished + [v], if seeds <= top then seeds else top;
        stack := stack[..top];
      }
    }
    SeedsGone(g, seeds, visited, finished);
    SearchOrdered(g, visited, finished);
    OrderedCount(g, Result(g, finished));
  }

  lemma FallStarts(g: Graph, stack: seq<Frame>)
    requires |stack| == |g.sources|
    ensures SourcesFall(g, stack, |g.sources|, [])
  {
  }

  lemma FallSkips(g: Graph, stack: seq<Frame>, seeds: nat, finished: seq<nat>, i: nat)
    requires SourcesFall(g, stack, seeds, finished) && stack != []
    ensures SourcesFall(g, stack[|stack| - 1 := Frame(stack[|stack| - 1].node, i)], seeds, finished)
  {
  }

  lemma TopPassed(g: Graph, stack: seq<Frame>, seeds: nat, visited: set<nat>, finished: seq<nat>)
    requires Searching(g, stack, seeds, visited, finished) && stack != []
    ensures Passed(g, stack[|stack| - 1], visited)
  {
    hide Passed, Chained, Closed, Settled, Apart;
  }

  lemma EntersKey(g: Graph, e: nat, n: nat)
    requires WellFormed(g) && Leads(g, e, n)
    ensures n in g.out
  {
  }

  /** The node on top still has a cell. */
  lemma TopFits(g: Graph, stack: seq<Frame>, seeds: nat, visited: set<nat>, finished: seq<nat>)
    requires Searching(g, stack, seeds, visited, finished) && stack != []
    ensures stack[|stack| - 1].node in g.nodes ==> |Result(g, finished)| < |g.nodes|
  {
    hide Passed, Chained, Closed, Settled;
    if stack[|stack| - 1].node in g.nodes {
      ResultFits(g, finished, stack[|stack| - 1].node);
    }
  }

  lemma ResultMore(g: Graph, finished: seq<nat>, v: nat)
    ensures Result(g, finished + [v]) == if v in g.nodes then [v] + Result(g, finished) else Result(g, finished)
  {
    assert (finished + [v])[..|finished|] == finished;
  }

  lemma SeedsGone(g: Graph, seeds: nat, visited: set<nat>, finished: seq<nat>)
    requires Searching(g, [], seeds, visited, finished)
    ensures seeds == 0
  {
  }

  lemma OrderedCount(g: Graph, r: seq<nat>)
    requires Ordered(g, r)
    ensures |r| == |g.nodes| <==> SourcesReach(g)
    ensures SourcesReach(g) ==> Complete(g, r)
  {
    hide SourceReaches, SourcesListed, Adjacency, Edge, Back;
    DistinctCount(r);
    if SourcesReach(g) {
      assert Members(r) == g.nodes;
    } else {
      var v :| v in g.nodes && !SourceReaches(g, v);
      SubsetCount(Members(r), g.nodes - {v});
      assert |g.nodes - {v}| == |g.nodes| - 1;
    }
  }

  // ---------------------------------------------------------------------------
  // What the order means
  // ---------------------------------------------------------------------------

  /** No edge enters a source. */
  ghost predicate SourcesOpen(g: Graph) {
    forall u, s :: s in g.sources ==> !Edge<nat>(Adjacency(g), u, s)
  }

  /** A backward edge closes a cycle when no edge enters a source. */
  lemma BackwardEdgeOnCycle(g: Graph, r: seq<nat>, i: nat, j: nat)
    requires Ordered(g, r) && SourcesOpen(g)
    requires i <= j < |r| && Edge<nat>(Adjacency(g), r[j], r[i])
    ensures OnCycle<nat>(Adjacency(g), r[i])
  {
    hide Edge, Adjacency, ReachPlus, Reach;
    assert Back(g, r[j], r[i]);
    PlusThenEdge<nat>(Adjacency(g), r[i], r[j], r[i]);
  }

  /** On acyclic graphs every edge goes forward. */
  lemma AcyclicForward(g: Graph, r: seq<nat>, i: nat, j: nat)
    requires Ordered(g, r) && SourcesOpen(g) && !Cyclic<nat>(Adjacency(g))
    requires i < |r| && j < |r| && Edge<nat>(Adjacency(g), r[i], r[j])
    ensures i < j
  {
    hide Edge, Adjacency, ReachPlus, Reach;
    if j <= i {
      BackwardEdgeOnCycle(g, r, j, i);
      assert false;
    }
  }

  /** Two sources, and an edge from the second to the first. */
  function Feedback(): Graph {
    Graph({0, 1}, {0}, [0, 1], map[0 := [], 1 := [0]], map[0 := 0])
  }

  lemma FeedbackEdges(u: nat, w: nat)
    ensures Edge<nat>(Adjacency(Feedback()), u, w) <==> u == 1 && w == 0
  {
    EdgeExact(Feedback(), u, w);
    if u == 1 && w == 0 {
      assert Leads(Feedback(), Out(Feedback(), 1)[0], 0);
    }
  }

  lemma FeedbackAcyclic()
    ensures !Cyclic<nat>(Adjacency(Feedback()))
  {
    hide Adjacency, Edge, Feedback, Cyclic;
    forall u: nat, w: nat | Edge<nat>(Adjacency(Feedback()), u, w) ensures w < u {
      FeedbackEdges(u, w);
    }
    DescendingAcyclic(Adjacency(Feedback()));
  }

  /** An acyclic graph whose one edge goes backward in every result. */
  lemma FeedbackInstance(r: seq<nat>)
    requires Ordered(Feedback(), r)
    ensures WellFormed(Feedback()) && SourcesReach(Feedback()) && !Cyclic<nat>(Adjacency(Feedback()))
    ensures r == [0, 1] && Edge<nat>(Adjacency(Feedback()), r[1], r[0])
  {
    hide Adjacency, Edge, Ordered, SourcesReach, Cyclic;
    FeedbackAcyclic();
    FeedbackEdges(1, 0);
    TwoSources(Feedback(), r);
  }

  lemma PairCount(r: seq<nat>)
    requires Distinct(r) && forall v :: v in r <==> v in {0, 1}
    ensures |r| == 2
  {
    DistinctCount(r);
    assert Members(r) == {0, 1};
  }

  lemma SourcesLead(g: Graph, i: nat)
    requires i < |g.sources|
    ensures SourceReaches(g, g.sources[i])
  {
    hide Reach;
    ReachSelf(Adjacency(g), g.sources[i]);
  }

  lemma PairOrder(g: Graph, r: seq<nat>)
    requires g.sources == [0, 1] && |r| == 2 && 0 in r && 1 in r && SourcesListed(g, r)
    ensures r == [0, 1]
  {
    assert g.sources[0] == 0 && g.sources[1] == 1;
  }

  lemma TwoSources(g: Graph, r: seq<nat>)
    requires g.sources == [0, 1] && g.nodes == {0, 1} && Ordered(g, r)
    ensures r == [0, 1] && SourcesReach(g)
  {
    hide Adjacency, Edge, Back, SourceReaches, SourcesListed, Distinct;
    SourcesLead(g, 0);
    SourcesLead(g, 1);
    PairCount(r);
    PairOrder(g, r);
  }

  // ---------------------------------------------------------------------------
  // Traversal
  // ---------------------------------------------------------------------------

  /** The calls of the two handlers. */
  datatype Event = HandleNode(node: nat) | HandleEdge(edge: nat)

  function EdgeEvents(out: seq<nat>): seq<Event> {
    seq(|out|, k requires 0 <= k < |out| => HandleEdge(out[k]))
  }

  function EventsOf(g: Graph, r: seq<nat>): seq<Event> {
    if r == [] then []
    else EventsOf(g, r[..|r| - 1]) + [HandleNode(r[|r| - 1])] + EdgeEvents(Out(g, r[|r| - 1]))
  }

  method TraverseTopologicalOrder(g: Graph) returns (events: seq<Event>)
    requires WellFormed(g) && SourcesReach(g)
    ensures exists r :: Ordered(g, r) && Complete(g, r) && events == EventsOf(g, r)
    ensures forall v :: Times(events, HandleNode(v)) == if v in g.nodes then 1 else 0
  {
    hide Leads, WellFormed, SourcesReach, Ordered, Complete;
    var sorted, p := TopologicalSort(g);
    ghost var r := sorted[..];
    assert r == sorted[p..];
    events := [];
    var k := 0;
    while k < sorted.Length
      invariant k <= sorted.Length && events == EventsOf(g, r[..k])
    {
      assert r[..k + 1][..k] == r[..k] && r[..k + 1][k] == sorted[k];
      events := events + [HandleNode(sorted[k])];
      var out := Out(g, sorted[k]);
      var m := 0;
      while m < |out|
        invariant m <= |out| && events == EventsOf(g, r[..k]) + [HandleNode(sorted[k])] + EdgeEvents(out)[..m]
      {
        events := events + [HandleEdge(out[m])];
        m := m + 1;
      }
      assert EdgeEvents(out)[..m] == EdgeEvents(out);
      k := k + 1;
    }
    assert r[..k] == r;
    assert Ordered(g, r) && Complete(g, r) && events == EventsOf(g, r);
    forall v ensures Times(events, HandleNode(v)) == if v in g.nodes then 1 else 0 {
      NodeOnce(g, r, v);
    }
  }

  lemma {:induction false} EventsJoin(g: Graph, a: seq<nat>, b: seq<nat>)
    ensures EventsOf(g, a + b) == EventsOf(g, a) + EventsOf(g, b)
  {
    if b == [] {
      assert a + b == a;
    } else {
      var n := |b| - 1;
      assert (a + b)[..|a + b| - 1] == a + b[..n];
      EventsJoin(g, a, b[..n]);
    }
  }

  lemma {:induction false} NodeHandled(g: Graph, r: seq<nat>, w: nat)
    ensures HandleNode(w) in EventsOf(g, r) <==> w in r
  {
    if r != [] {
      var n := |r| - 1;
      assert r == r[..n] + [r[n]];
      NodeHandled(g, r[..n], w);
    }
  }

  /** How often an event occurs. */
  function Times(events: seq<Event>, e: Event): nat { multiset(events)[e] }

  lemma TimesJoin(a: seq<Event>, b: seq<Event>, e: Event)
    ensures Times(a + b, e) == Times(a, e) + Times(b, e)
  {
  }

  /** A node is handled as often as it is listed. */
  lemma {:induction false} NodeTimes(g: Graph, r: seq<nat>, v: nat)
    ensures Times(EventsOf(g, r), HandleNode(v)) == multiset(r)[v]
  {
    hide Times, EdgeEvents;
    if r == [] {
      assert Times([], HandleNode(v)) == 0 by {
        NoTimes(HandleNode(v));
      }
    } else {
      var n := |r| - 1;
      NodeTimes(g, r[..n], v);
      assert r == r[..n] + [r[n]];
      TimesJoin(EventsOf(g, r[..n]), [HandleNode(r[n])], HandleNode(v));
      TimesJoin(EventsOf(g, r[..n]) + [HandleNode(r[n])], EdgeEvents(Out(g, r[n])), HandleNode(v));
      TimesOne(HandleNode(r[n]), HandleNode(v));
      NoNodeEvents(Out(g, r[n]), v);
    }
  }

  lemma NoTimes(e: Event)
    ensures Times([], e) == 0
  {
  }

  lemma TimesOne(d: Event, e: Event)
    ensures Times([d], e) == if d == e then 1 else 0
  {
  }

  lemma NoNodeEvents(out: seq<nat>, v: nat)
    ensures Times(EdgeEvents(out), HandleNode(v)) == 0
  {
    assert HandleNode(v) !in EdgeEvents(out);
  }

  /** The outgoing edges of all listed nodes, one after the other. */
  function OutOf(g: Graph, r: seq<nat>): seq<nat> {
    if r == [] then [] else OutOf(g, r[..|r| - 1]) + Out(g, r[|r| - 1])
  }

  /** Of one node, every outgoing edge is handled as often as it is listed. */
  lemma {:induction false} EdgeEventsTimes(out: seq<nat>, e: nat)
    ensures |EdgeEvents(out)| == |out| && Times(EdgeEvents(out), HandleEdge(e)) == multiset(out)[e]
    ensures forall k :: 0 <= k < |out| ==> EdgeEvents(out)[k] == HandleEdge(out[k])
  {
    if out == [] {
      assert EdgeEvents(out) == [];
    } else {
      var n := |out| - 1;
      EdgeEventsTimes(out[..n], e);
      assert EdgeEvents(out) == EdgeEvents(out[..n]) + [HandleEdge(out[n])];
      assert out == out[..n] + [out[n]];
    }
  }

  /** An edge is handled as often as the listed nodes have it. */
  lemma {:induction false} EdgeTimes(g: Graph, r: seq<nat>, e: nat)
    ensures Times(EventsOf(g, r), HandleEdge(e)) == multiset(OutOf(g, r))[e]
  {
    hide Times, EdgeEvents;
    if r == [] {
      NoTimes(HandleEdge(e));
    } else {
      var n := |r| - 1;
      EdgeTimes(g, r[..n], e);
      TimesJoin(EventsOf(g, r[..n]), [HandleNode(r[n])], HandleEdge(e));
      TimesJoin(EventsOf(g, r[..n]) + [HandleNode(r[n])], EdgeEvents(Out(g, r[n])), HandleEdge(e));
      TimesOne(HandleNode(r[n]), HandleEdge(e));
      EdgeEventsTimes(Out(g, r[n]), e);
    }
  }

  /** In a complete order every node is handled exactly once. */
  lemma NodeOnce(g: Graph, r: seq<nat>, v: nat)
    requires Ordered(g, r) && Complete(g, r)
    ensures Times(EventsOf(g, r), HandleNode(v)) == if v in g.nodes then 1 else 0
  {
    hide EventsOf, Times, SourceReaches, SourcesListed, Back, Edge, Adjacency;
    NodeTimes(g, r, v);
    DistinctOnce(r, v);
  }

  lemma {:induction false} DistinctOnce(r: seq<nat>, v: nat)
    requires Distinct(r)
    ensures multiset(r)[v] == if v in r then 1 else 0
  {
    if r != [] {
      var n := |r| - 1;
      DistinctOnce(r[..n], v);
      assert r == r[..n] + [r[n]];
      assert r[n] !in r[..n];
    }
  }

  /** On acyclic graphs the edges of a node are handled right after it and before the nodes they lead to. */
  lemma EdgeBeforeEnd(g: Graph, r: seq<nat>, i: nat, k: nat, w: nat)
    requires Ordered(g, r) && SourcesOpen(g) && !Cyclic<nat>(Adjacency(g))
    requires i < |r| && k < |Out(g, r[i])| && Leads(g, Out(g, r[i])[k], w)
    ensures var at := |EventsOf(g, r[..i])|;
      && at + 1 + k < |EventsOf(g, r)|
      && EventsOf(g, r)[at] == HandleNode(r[i])
      && EventsOf(g, r)[at + 1 + k] == HandleEdge(Out(g, r[i])[k])
      && HandleNode(w) !in EventsOf(g, r)[..at + 1 + k]
      && HandleNode(w) in EventsOf(g, r)[at + 1 + k..]
  {
    hide Edge, Adjacency, ReachPlus, Reach, Cyclic, SourcesOpen, Leads, EventsOf, EdgeEvents, Ordered, Out;
    var out := Out(g, r[i]);
    var a, b, c := EventsOf(g, r[..i]), [HandleNode(r[i])] + EdgeEvents(out), EventsOf(g, r[i + 1..]);
    EventsAround(g, r, i);
    EndLater(g, r, i, k, w);
    NodeHandled(g, r[i + 1..], w);
    NodeHandled(g, r[..i], w);
    EdgeEventsTimes(out, out[k]);
    OtherNode(g, r, i, w);
    BlockBefore(a, b, c, 1 + k, HandleNode(w));
  }

  /** An event of a later block only. */
  lemma BlockBefore(a: seq<Event>, b: seq<Event>, c: seq<Event>, k: nat, e: Event)
    requires k < |b| && e !in a && e !in b && e in c
    ensures (a + b + c)[|a|] == b[0] && (a + b + c)[|a| + k] == b[k]
    ensures e !in (a + b + c)[..|a| + k] && e in (a + b + c)[|a| + k..]
  {
    assert (a + b + c)[..|a| + k] == a + b[..k];
    assert (a + b + c)[|a| + k..] == b[k..] + c;
  }

  lemma OtherNode(g: Graph, r: seq<nat>, i: nat, w: nat)
    requires Ordered(g, r) && i < |r| && w in r[i + 1..]
    ensures HandleNode(w) !in [HandleNode(r[i])] + EdgeEvents(Out(g, r[i]))
  {
    hide SourceReaches, SourcesListed, Back, Edge, Adjacency, Out;
    var j :| 0 <= j < |r[i + 1..]| && r[i + 1..][j] == w;
    assert r[i + 1 + j] != r[i];
  }

  lemma EventsAround(g: Graph, r: seq<nat>, i: nat)
    requires i < |r|
    ensures EventsOf(g, r)
         == EventsOf(g, r[..i]) + ([HandleNode(r[i])] + EdgeEvents(Out(g, r[i]))) + EventsOf(g, r[i + 1..])
  {
    hide EdgeEvents, EventsOf;
    assert r == r[..i + 1] + r[i + 1..];
    EventsJoin(g, r[..i + 1], r[i + 1..]);
    EventsStep(g, r, i);
  }

  lemma EventsStep(g: Graph, r: seq<nat>, i: nat)
    requires i < |r|
    ensures EventsOf(g, r[..i + 1]) == EventsOf(g, r[..i]) + ([HandleNode(r[i])] + EdgeEvents(Out(g, r[i])))
  {
    hide EdgeEvents;
    assert r[..i + 1][..i] == r[..i];
  }

  lemma EndLater(g: Graph, r: seq<nat>, i: nat, k: nat, w: nat)
    requires Ordered(g, r) && SourcesOpen(g) && !Cyclic<nat>(Adjacency(g))
    requires i < |r| && k < |Out(g, r[i])| && Leads(g, Out(g, r[i])[k], w)
    ensures w in r[i + 1..] && w !in r[..i]
  {
    hide Edge, Adjacency, ReachPlus, Reach, Cyclic, SourcesOpen, Leads, Out, SourceReaches, SourcesListed;
    EdgeExact(g, r[i], w);
    EndIn(g, Out(g, r[i])[k], w);
    ReachedOn(g, r[i], w);
    var j :| 0 <= j < |r| && r[j] == w;
    AcyclicForward(g, r, i, j);
    assert r[i + 1..][j - i - 1] == w;
  }

  lemma EndIn(g: Graph, e: nat, w: nat)
    requires Leads(g, e, w)
    ensures w in g.nodes
  {
  }
}
