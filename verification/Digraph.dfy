/**
 Finite directed graphs as adjacency maps, with walks, reachability and cycles.
 A vertex outside the map has no successors.
 */
module Digraph {

  type Adj<V(==)> = map<V, seq<V>>

  ghost predicate Edge<V>(adj: Adj<V>, u: V, v: V) {
    u in adj && v in adj[u]
  }

  /** p is a walk: each vertex has an edge to the next one. */
  ghost predicate Walk<V>(adj: Adj<V>, p: seq<V>) {
    && p != []
    && forall i :: 0 <= i < |p| - 1 ==> Edge(adj, p[i], p[i + 1])
  }

  ghost predicate WalkFromTo<V>(adj: Adj<V>, p: seq<V>, u: V, v: V) {
    Walk(adj, p) && p[0] == u && p[|p| - 1] == v
  }

  /** v is reachable from u by zero or more edges. */
  ghost predicate Reach<V(!new)>(adj: Adj<V>, u: V, v: V) {
    exists p: seq<V> :: WalkFromTo(adj, p, u, v)
  }

  /** v is reachable from u by one or more edges. */
  ghost predicate ReachPlus<V(!new)>(adj: Adj<V>, u: V, v: V) {
    exists p: seq<V> :: |p| >= 2 && WalkFromTo(adj, p, u, v)
  }

  ghost predicate OnCycle<V(!new)>(adj: Adj<V>, v: V) {
    ReachPlus(adj, v, v)
  }

  ghost predicate Cyclic<V(!new)>(adj: Adj<V>) {
    exists v: V :: OnCycle(adj, v)
  }

  lemma ReachSelf<V(!new)>(adj: Adj<V>, v: V)
    ensures Reach(adj, v, v)
  {
    assert WalkFromTo(adj, [v], v, v);
  }

  lemma EdgeReaches<V(!new)>(adj: Adj<V>, u: V, v: V)
    requires Edge(adj, u, v)
    ensures ReachPlus(adj, u, v) && Reach(adj, u, v)
  {
    assert WalkFromTo(adj, [u, v], u, v);
  }

  lemma JoinWalks<V(!new)>(adj: Adj<V>, p: seq<V>, q: seq<V>, u: V, v: V, w: V)
    requires WalkFromTo(adj, p, u, v) && WalkFromTo(adj, q, v, w)
    ensures WalkFromTo(adj, p + q[1..], u, w)
  {
    var r := p + q[1..];
    forall i | 0 <= i < |r| - 1 ensures Edge(adj, r[i], r[i + 1]) {
      if i < |p| - 1 {
        assert r[i] == p[i] && r[i + 1] == p[i + 1];
      } else {
        assert r[i] == q[i - (|p| - 1)] && r[i + 1] == q[i + 1 - (|p| - 1)];
      }
    }
  }

  lemma ReachTransitive<V(!new)>(adj: Adj<V>, u: V, v: V, w: V)
    requires Reach(adj, u, v) && Reach(adj, v, w)
    ensures Reach(adj, u, w)
    ensures ReachPlus(adj, u, v) || ReachPlus(adj, v, w) ==> ReachPlus(adj, u, w)
  {
    var p: seq<V> :| WalkFromTo(adj, p, u, v) && (ReachPlus(adj, u, v) ==> |p| >= 2);
    var q: seq<V> :| WalkFromTo(adj, q, v, w) && (ReachPlus(adj, v, w) ==> |q| >= 2);
    JoinWalks(adj, p, q, u, v, w);
  }

  lemma PlusReaches<V(!new)>(adj: Adj<V>, u: V, v: V)
    requires ReachPlus(adj, u, v)
    ensures Reach(adj, u, v)
  {
  }

  /** Strict reachability followed by one more edge. */
  lemma PlusThenEdge<V(!new)>(adj: Adj<V>, u: V, v: V, w: V)
    requires Reach(adj, u, v) && Edge(adj, v, w)
    ensures ReachPlus(adj, u, w)
  {
    EdgeReaches(adj, v, w);
    ReachTransitive(adj, u, v, w);
  }

  /** All keys listed so that successors that are keys come strictly earlier. */
  ghost predicate Topological<V>(adj: Adj<V>, order: seq<V>) {
    && (forall i :: 0 <= i < |order| ==> order[i] in adj)
    && (forall i, j :: 0 <= i < j < |order| ==> order[i] != order[j])
    && (forall i, k :: 0 <= i < |order| && k in adj[order[i]] && k in adj ==> k in order[..i])
  }

  /** Along a walk of listed vertices the position only falls. */
  lemma {:induction false} WalkDescends<V(!new)>(adj: Adj<V>, order: seq<V>, p: seq<V>, a: nat, b: nat)
    requires Topological(adj, order) && Walk(adj, p)
    requires a < |order| && order[a] == p[0]
    requires b < |order| && order[b] == p[|p| - 1]
    ensures |p| >= 2 ==> b < a
    decreases |p|
  {
    if |p| >= 2 {
      assert Edge(adj, p[0], p[1]);
      if |p| == 2 {
        assert p[1] in order[..a];
      } else {
        assert Edge(adj, p[1], p[2]);
        assert p[1] in order[..a];
        var c :| 0 <= c < a && order[c] == p[1];
        assert Walk(adj, p[1..]) by {
          forall i | 0 <= i < |p[1..]| - 1 ensures Edge(adj, p[1..][i], p[1..][i + 1]) {
            assert Edge(adj, p[i + 1], p[i + 2]);
          }
        }
        WalkDescends(adj, order, p[1..], c, b);
      }
    }
  }

  /** A topological list of every key excludes cycles. */
  lemma TopologicalAcyclic<V(!new)>(adj: Adj<V>, order: seq<V>)
    requires Topological(adj, order)
    requires forall v :: v in adj ==> v in order
    ensures !Cyclic(adj)
  {
    if Cyclic(adj) {
      var v :| OnCycle(adj, v);
      var p: seq<V> :| |p| >= 2 && WalkFromTo(adj, p, v, v);
      assert Edge(adj, p[0], p[1]);
      var a :| 0 <= a < |order| && order[a] == v;
      WalkDescends(adj, order, p, a, a);
      assert false;
    }
  }

  /** No cycle when every edge leads to a smaller number. */
  lemma DescendingAcyclic(adj: Adj<nat>)
    requires forall u, v :: Edge(adj, u, v) ==> v < u
    ensures !Cyclic(adj)
  {
    if Cyclic(adj) {
      var v :| OnCycle(adj, v);
      var p: seq<nat> :| |p| >= 2 && WalkFromTo(adj, p, v, v);
      WalkFalls(adj, p, |p| - 1);
      assert false;
    }
  }

  lemma {:induction false} WalkFalls(adj: Adj<nat>, p: seq<nat>, n: nat)
    requires forall u, v :: Edge(adj, u, v) ==> v < u
    requires Walk(adj, p) && 1 <= n < |p|
    ensures p[n] < p[0]
  {
    assert Edge(adj, p[n - 1], p[n]);
    if n > 1 {
      WalkFalls(adj, p, n - 1);
    }
  }

  /** A graph whose edges between keys all occur in another one has no more cycles. */
  lemma CyclicMonotone<V(!new)>(adj: Adj<V>, adj': Adj<V>)
    requires Cyclic(adj)
    requires forall u, v :: Edge(adj, u, v) && v in adj ==> Edge(adj', u, v)
    ensures Cyclic(adj')
  {
    var v :| OnCycle(adj, v);
    var p: seq<V> :| |p| >= 2 && WalkFromTo(adj, p, v, v);
    forall i | 0 <= i < |p| - 1 ensures Edge(adj', p[i], p[i + 1]) {
      assert Edge(adj, p[i], p[i + 1]);
      assert p[i + 1] in adj by {
        if i + 1 < |p| - 1 {
          assert Edge(adj, p[i + 1], p[i + 2]);
        } else {
          assert Edge(adj, p[0], p[1]);
        }
      }
    }
    assert WalkFromTo(adj', p, v, v);
    assert OnCycle(adj', v);
  }

  /** A set that contains the successors of its members contains all it reaches. */
  lemma {:induction false} ClosedReach<V(!new)>(adj: Adj<V>, r: set<V>, p: seq<V>, n: nat)
    requires forall u, v :: u in r && Edge(adj, u, v) && v in adj ==> v in r
    requires Walk(adj, p) && n < |p| && p[0] in r
    requires p[|p| - 1] in adj
    ensures p[n] in r
  {
    if n > 0 {
      ClosedReach(adj, r, p, n - 1);
      assert Edge(adj, p[n - 1], p[n]);
      if n < |p| - 1 {
        assert Edge(adj, p[n], p[n + 1]);
      }
    }
  }

  /** A cycle through a closed set is a cycle of any graph with the same edges there. */
  lemma CycleWithin<V(!new)>(adj: Adj<V>, adj': Adj<V>, r: set<V>, v: V)
    requires OnCycle(adj, v) && v in r
    requires forall u, w :: u in r && Edge(adj, u, w) && w in adj ==> w in r && Edge(adj', u, w)
    ensures OnCycle(adj', v)
  {
    var p: seq<V> :| |p| >= 2 && WalkFromTo(adj, p, v, v);
    assert Edge(adj, p[0], p[1]);
    forall i | 0 <= i < |p| - 1 ensures Edge(adj', p[i], p[i + 1]) {
      assert Edge(adj, p[i], p[i + 1]);
      ClosedReach(adj, r, p, i);
      if i + 1 < |p| - 1 {
        assert Edge(adj, p[i + 1], p[i + 2]);
      }
    }
    assert WalkFromTo(adj', p, v, v);
  }

  /** The graph without the vertices of r. */
  function Without<V>(adj: Adj<V>, r: set<V>): Adj<V> {
    map v | v in adj && v !in r :: adj[v]
  }

  /** Leaving out vertices that lie on no cycle loses no cycle. */
  lemma CyclesWithout<V(!new)>(adj: Adj<V>, r: set<V>)
    requires forall v :: v in r ==> !OnCycle(adj, v)
    ensures Cyclic(Without(adj, r)) <==> Cyclic(adj)
    ensures forall v :: OnCycle(Without(adj, r), v) ==> OnCycle(adj, v)
  {
    var adj' := Without(adj, r);
    forall v: V | OnCycle(adj', v) ensures OnCycle(adj, v) {
      var p: seq<V> :| |p| >= 2 && WalkFromTo(adj', p, v, v);
      forall i | 0 <= i < |p| - 1 ensures Edge(adj, p[i], p[i + 1]) {
        assert Edge(adj', p[i], p[i + 1]);
      }
      assert WalkFromTo(adj, p, v, v);
    }
    if Cyclic(adj) {
      var v :| OnCycle(adj, v);
      var p: seq<V> :| |p| >= 2 && WalkFromTo(adj, p, v, v);
      forall i | 0 <= i < |p| - 1 ensures Edge(adj', p[i], p[i + 1]) {
        assert Edge(adj, p[i], p[i + 1]);
        WalkAround(adj, p, i);
      }
      assert WalkFromTo(adj', p, v, v);
      assert OnCycle(adj', v);
    }
  }

  /** Every vertex of a closed walk lies on a cycle. */
  lemma WalkAround<V(!new)>(adj: Adj<V>, p: seq<V>, i: nat)
    requires |p| >= 2 && Walk(adj, p) && p[0] == p[|p| - 1] && i < |p| - 1
    ensures OnCycle(adj, p[i])
  {
    var a, b := p[i..], p[..i + 1];
    assert Walk(adj, a) by {
      forall k | 0 <= k < |a| - 1 ensures Edge(adj, a[k], a[k + 1]) {
        assert Edge(adj, p[i + k], p[i + k + 1]);
      }
    }
    assert Walk(adj, b) by {
      forall k | 0 <= k < |b| - 1 ensures Edge(adj, b[k], b[k + 1]) {
        assert Edge(adj, p[k], p[k + 1]);
      }
    }
    JoinWalks(adj, a, b, p[i], p[0], p[i]);
    assert |a + b[1..]| >= 2;
  }
}
