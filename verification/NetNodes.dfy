/**
 Net nodes and their fan-out index (src/base/model/node.h): every node lists its
 inputs, and every source of an input lists a link to it.
 */
module NetNodes {
  import opened Collections

  datatype Change = POSEDGE | NEGEDGE | LEVEL0 | LEVEL1 | ALWAYS

  datatype Signal = Signal(event: Change, node: nat)

  datatype Link = Link(source: nat, target: nat, input: nat)

  // ---------------------------------------------------------------------------
  // The contents of the storage
  // ---------------------------------------------------------------------------

  datatype NodeState = NodeState(inputs: seq<Signal>, links: seq<Link>)

  /** Input l.input of node l.target comes from node s. */
  predicate Connects(net: seq<NodeState>, s: nat, l: Link) {
    && l.source == s
    && l.target < |net|
    && l.input < |net[l.target].inputs|
    && net[l.target].inputs[l.input].node == s
  }

  /** Every signal comes from a stored node. */
  predicate InRange(net: seq<NodeState>) {
    forall t, i :: 0 <= t < |net| && 0 <= i < |net[t].inputs| ==> net[t].inputs[i].node < |net|
  }

  /** The links of s are exactly its connections, those of node t only for its inputs from a up to b. */
  ghost predicate ExactAt(net: seq<NodeState>, t: nat, a: nat, b: nat, s: nat)
    requires s < |net|
  {
    && Distinct(net[s].links)
    && forall l :: l in net[s].links <==> Connects(net, s, l) && (l.target == t ==> a <= l.input < b)
  }

  ghost predicate ExactRange(net: seq<NodeState>, t: nat, a: nat, b: nat) {
    forall s :: 0 <= s < |net| ==> ExactAt(net, t, a, b, s)
  }

  /** The links of every node are exactly its connections. */
  ghost predicate Exact(net: seq<NodeState>) {
    InRange(net) && forall s :: 0 <= s < |net| ==> LinksExact(net, s)
  }

  ghost predicate LinksExact(net: seq<NodeState>, s: nat)
    requires s < |net|
  {
    Distinct(net[s].links) && forall l :: l in net[s].links <==> Connects(net, s, l)
  }

  lemma WholeRange(net: seq<NodeState>, t: nat)
    requires t < |net|
    ensures ExactRange(net, t, 0, |net[t].inputs|) <==> forall s :: 0 <= s < |net| ==> LinksExact(net, s)
  {
    hide Distinct;
    forall s | 0 <= s < |net| ensures ExactAt(net, t, 0, |net[t].inputs|, s) <==> LinksExact(net, s) {
      forall l | Connects(net, s, l) ensures l.target == t ==> 0 <= l.input < |net[t].inputs| {
      }
    }
  }

  // ---------------------------------------------------------------------------
  // Adding and removing links
  // ---------------------------------------------------------------------------

  function AddLink(net: seq<NodeState>, s: nat, t: nat, i: nat): seq<NodeState>
    requires s < |net|
  {
    net[s := net[s].(links := net[s].links + [Link(s, t, i)])]
  }

  /** std::remove and erase. */
  function Without(links: seq<Link>, l: Link): seq<Link> {
    if links == [] then []
    else
      var rest := Without(links[..|links| - 1], l);
      if links[|links| - 1] == l then rest else rest + [links[|links| - 1]]
  }

  function DropLink(net: seq<NodeState>, s: nat, t: nat, i: nat): seq<NodeState>
    requires s < |net|
  {
    net[s := net[s].(links := Without(net[s].links, Link(s, t, i)))]
  }

  lemma {:induction false} WithoutExact(links: seq<Link>, l: Link, x: Link)
    ensures x in Without(links, l) <==> x in links && x != l
  {
    if links != [] {
      var n := |links| - 1;
      assert links == links[..n] + [links[n]];
      WithoutExact(links[..n], l, x);
    }
  }

  /** What is not removed keeps its place among the others. */
  lemma {:induction false} WithoutOrder(a: seq<Link>, b: seq<Link>, l: Link)
    ensures Without(a + [l] + b, l) == Without(a + b, l)
    ensures l !in a ==> Without(a, l) == a
  {
    if b == [] {
      assert a + [l] + b == a + [l] && a + b == a;
      assert (a + [l])[..|a|] == a;
    } else {
      var n := |b| - 1;
      WithoutOrder(a, b[..n], l);
      assert (a + [l] + b)[..|a| + 1 + n] == a + [l] + b[..n];
      assert (a + b)[..|a| + n] == a + b[..n];
    }
    WithoutAbsent(a, l);
  }

  lemma {:induction false} WithoutAbsent(a: seq<Link>, l: Link)
    ensures l !in a ==> Without(a, l) == a
  {
    if a != [] {
      WithoutAbsent(a[..|a| - 1], l);
      assert a == a[..|a| - 1] + [a[|a| - 1]];
    }
  }

  lemma {:induction false} WithoutDistinct(links: seq<Link>, l: Link)
    requires Distinct(links)
    ensures Distinct(Without(links, l))
  {
    if links != [] {
      var n := |links| - 1;
      WithoutDistinct(links[..n], l);
      WithoutExact(links[..n], l, links[n]);
    }
  }

  /** A changed link list changes no connection. */
  lemma ConnectsKept(net: seq<NodeState>, s: nat, links: seq<Link>, u: nat, l: Link)
    requires s < |net|
    ensures Connects(net[s := net[s].(links := links)], u, l) <==> Connects(net, u, l)
  {
  }

  /** The link for input b of t is added at its source. */
  lemma AddKeeps(net: seq<NodeState>, t: nat, b: nat)
    requires ExactRange(net, t, 0, b) && t < |net| && b < |net[t].inputs|
    requires net[t].inputs[b].node < |net|
    ensures ExactRange(AddLink(net, net[t].inputs[b].node, t, b), t, 0, b + 1)
  {
    var s0 := net[t].inputs[b].node;
    var net' := AddLink(net, s0, t, b);
    var c := b + 1;
    forall s | 0 <= s < |net'| ensures ExactAt(net', t, 0, c, s) {
      AddKeepsAt(net, t, b, s);
    }
  }

  lemma AddKeepsAt(net: seq<NodeState>, t: nat, b: nat, s: nat)
    requires t < |net| && b < |net[t].inputs| && s < |net|
    requires net[t].inputs[b].node < |net|
    requires ExactAt(net, t, 0, b, s)
    ensures ExactAt(AddLink(net, net[t].inputs[b].node, t, b), t, 0, b + 1, s)
  {
    hide Connects;
    var s0 := net[t].inputs[b].node;
    var added := Link(s0, t, b);
    var net' := AddLink(net, s0, t, b);
    forall l ensures l in net'[s].links <==> Connects(net', s, l) && (l.target == t ==> 0 <= l.input < b + 1) {
      ConnectsKept(net, s0, net[s0].links + [added], s, l);
      OneConnection(net, t, b, s, l);
    }
    assert added !in net[s].links;
  }

  lemma OneConnection(net: seq<NodeState>, t: nat, b: nat, s: nat, l: Link)
    requires t < |net| && b < |net[t].inputs|
    ensures l.target == t && l.input == b ==> (Connects(net, s, l) <==> l.source == s == net[t].inputs[b].node)
    ensures Connects(net, s, Link(s, t, b)) <==> s == net[t].inputs[b].node
  {
  }

  /** The link for input a of t is removed at its source. */
  lemma DropKeeps(net: seq<NodeState>, t: nat, a: nat)
    requires t < |net| && a < |net[t].inputs| && ExactRange(net, t, a, |net[t].inputs|)
    requires net[t].inputs[a].node < |net|
    ensures ExactRange(DropLink(net, net[t].inputs[a].node, t, a), t, a + 1, |net[t].inputs|)
  {
    var net' := DropLink(net, net[t].inputs[a].node, t, a);
    var c, n := a + 1, |net[t].inputs|;
    forall s | 0 <= s < |net'| ensures ExactAt(net', t, c, n, s) {
      DropKeepsAt(net, t, a, s);
    }
  }

  lemma DropKeepsAt(net: seq<NodeState>, t: nat, a: nat, s: nat)
    requires t < |net| && a < |net[t].inputs| && s < |net|
    requires net[t].inputs[a].node < |net|
    requires ExactAt(net, t, a, |net[t].inputs|, s)
    ensures ExactAt(DropLink(net, net[t].inputs[a].node, t, a), t, a + 1, |net[t].inputs|, s)
  {
    hide Connects;
    var s0, n := net[t].inputs[a].node, |net[t].inputs|;
    var dropped := Link(s0, t, a);
    var net' := DropLink(net, s0, t, a);
    if s == s0 {
      WithoutDistinct(net[s0].links, dropped);
    }
    forall l ensures l in net'[s].links <==> Connects(net', s, l) && (l.target == t ==> a + 1 <= l.input < n) {
      ConnectsKept(net, s0, Without(net[s0].links, dropped), s, l);
      OneConnection(net, t, a, s, l);
      WithoutExact(net[s0].links, dropped, l);
    }
  }

  /** A new node, still without links to it. */
  lemma NodeAdded(net: seq<NodeState>, inputs: seq<Signal>)
    requires Exact(net)
    requires forall i :: 0 <= i < |inputs| ==> inputs[i].node <= |net|
    ensures var net' := net + [NodeState(inputs, [])];
            InRange(net') && ExactRange(net', |net|, 0, 0)
  {
    var n := |net|;
    var net' := net + [NodeState(inputs, [])];
    forall s | 0 <= s < |net'| ensures ExactAt(net', n, 0, 0, s) {
      if s < n {
        assert LinksExact(net, s);
        forall l ensures l in net'[s].links <==> Connects(net', s, l) && (l.target == n ==> 0 <= l.input < 0) {
          assert l.target < n ==> net'[l.target] == net[l.target];
        }
      } else {
        forall l ensures !(Connects(net', s, l) && l.target != n) {
          assert l.target < n ==> net'[l.target] == net[l.target];
        }
      }
    }
  }

  /** A node that nothing links to any more gets new inputs. */
  lemma InputsReplaced(net: seq<NodeState>, t: nat, inputs: seq<Signal>)
    requires t < |net| && InRange(net) && ExactRange(net, t, |net[t].inputs|, |net[t].inputs|)
    requires forall i :: 0 <= i < |inputs| ==> inputs[i].node < |net|
    ensures var net' := net[t := net[t].(inputs := inputs)];
            InRange(net') && ExactRange(net', t, 0, 0)
  {
    var net' := net[t := net[t].(inputs := inputs)];
    forall s | 0 <= s < |net'| ensures ExactAt(net', t, 0, 0, s) {
      assert ExactAt(net, t, |net[t].inputs|, |net[t].inputs|, s);
      forall l ensures l in net'[s].links <==> Connects(net', s, l) && (l.target == t ==> 0 <= l.input < 0) {
        assert l.target != t && l.target < |net| ==> net'[l.target] == net[l.target];
      }
    }
  }

  // ---------------------------------------------------------------------------
  // Conservation
  // ---------------------------------------------------------------------------

  /** The fan-outs, and the arities, of the first n nodes. */
  function TotalFanout(net: seq<NodeState>, n: nat): nat
    requires n <= |net|
  {
    if n == 0 then 0 else TotalFanout(net, n - 1) + |net[n - 1].links|
  }

  function TotalArity(net: seq<NodeState>, n: nat): nat
    requires n <= |net|
  {
    if n == 0 then 0 else TotalArity(net, n - 1) + |net[n - 1].inputs|
  }

  /** All links of the first n nodes. */
  ghost function LinkSet(net: seq<NodeState>, n: nat): set<Link>
    requires n <= |net|
  {
    if n == 0 then {} else LinkSet(net, n - 1) + Members(net[n - 1].links)
  }

  lemma {:induction false} LinkSetExact(net: seq<NodeState>, n: nat, l: Link)
    requires Exact(net) && n <= |net|
    ensures l in LinkSet(net, n) <==> l.source < n && Connects(net, l.source, l)
  {
    if n > 0 {
      LinkSetExact(net, n - 1, l);
      assert LinksExact(net, n - 1);
      assert Connects(net, n - 1, l) ==> l.source == n - 1;
    }
  }

  lemma {:induction false} LinkSetCount(net: seq<NodeState>, n: nat)
    requires Exact(net) && n <= |net|
    ensures |LinkSet(net, n)| == TotalFanout(net, n)
  {
    if n > 0 {
      LinkSetCount(net, n - 1);
      LinkSetStep(net, n - 1);
    }
  }

  lemma LinkSetStep(net: seq<NodeState>, n: nat)
    requires Exact(net) && n < |net|
    ensures |LinkSet(net, n + 1)| == |LinkSet(net, n)| + |net[n].links|
  {
    hide Exact;
    var a, b := LinkSet(net, n), Members(net[n].links);
    LinksOf(net, n);
    DistinctCount(net[n].links);
    forall l | l in b ensures l !in a {
      LinkSetExact(net, n, l);
    }
    DisjointSum(a, b);
  }

  lemma LinksOf(net: seq<NodeState>, s: nat)
    requires Exact(net) && s < |net|
    ensures Distinct(net[s].links)
    ensures forall l :: l in net[s].links ==> l.source == s
  {
    assert LinksExact(net, s);
  }

  lemma DisjointSum(a: set<Link>, b: set<Link>)
    requires forall l :: l in b ==> l !in a
    ensures |a + b| == |a| + |b|
  {
    assert a !! b;
  }

  /** The connections of the first k inputs of t, and those of all inputs of the first n nodes. */
  ghost function InputSet(net: seq<NodeState>, t: nat, k: nat): set<Link>
    requires t < |net| && k <= |net[t].inputs|
  {
    if k == 0 then {} else InputSet(net, t, k - 1) + {Link(net[t].inputs[k - 1].node, t, k - 1)}
  }

  lemma {:induction false} InputSetExact(net: seq<NodeState>, t: nat, k: nat, l: Link)
    requires t < |net| && k <= |net[t].inputs|
    ensures l in InputSet(net, t, k) <==> l.target == t && l.input < k && Connects(net, l.source, l)
  {
    if k > 0 {
      InputSetExact(net, t, k - 1, l);
    }
  }

  lemma {:induction false} InputSetCount(net: seq<NodeState>, t: nat, k: nat)
    requires t < |net| && k <= |net[t].inputs|
    ensures |InputSet(net, t, k)| == k
  {
    if k > 0 {
      InputSetCount(net, t, k - 1);
      InputSetExact(net, t, k - 1, Link(net[t].inputs[k - 1].node, t, k - 1));
    }
  }

  ghost function ConnectionSet(net: seq<NodeState>, n: nat): set<Link>
    requires n <= |net|
  {
    if n == 0 then {} else ConnectionSet(net, n - 1) + InputSet(net, n - 1, |net[n - 1].inputs|)
  }

  lemma {:induction false} ConnectionSetExact(net: seq<NodeState>, n: nat, l: Link)
    requires n <= |net|
    ensures l in ConnectionSet(net, n) <==> l.target < n && Connects(net, l.source, l)
  {
    if n > 0 {
      ConnectionSetExact(net, n - 1, l);
      InputSetExact(net, n - 1, |net[n - 1].inputs|, l);
    }
  }

  lemma {:induction false} ConnectionSetCount(net: seq<NodeState>, n: nat)
    requires n <= |net|
    ensures |ConnectionSet(net, n)| == TotalArity(net, n)
  {
    if n > 0 {
      hide Connects;
      var k := |net[n - 1].inputs|;
      ConnectionSetCount(net, n - 1);
      InputSetCount(net, n - 1, k);
      var a, b := ConnectionSet(net, n - 1), InputSet(net, n - 1, k);
      forall l | l in b ensures l !in a {
        ConnectionSetExact(net, n - 1, l);
        InputSetExact(net, n - 1, k, l);
      }
      DisjointSum(a, b);
    }
  }

  /** Every input is some fan-out: the totals agree. */
  lemma FanoutIsArity(net: seq<NodeState>)
    requires Exact(net)
    ensures TotalFanout(net, |net|) == TotalArity(net, |net|)
  {
    hide Connects, LinkSet, ConnectionSet;
    LinkSetCount(net, |net|);
    ConnectionSetCount(net, |net|);
    forall l ensures l in LinkSet(net, |net|) <==> l in ConnectionSet(net, |net|) {
      LinkSetExact(net, |net|, l);
      ConnectionSetExact(net, |net|, l);
      if Connects(net, l.source, l) {
        SourceInRange(net, l);
      }
    }
    assert LinkSet(net, |net|) == ConnectionSet(net, |net|);
  }

  lemma SourceInRange(net: seq<NodeState>, l: Link)
    requires InRange(net) && Connects(net, l.source, l)
    ensures l.source < |net| && l.target < |net|
  {
  }

  // ---------------------------------------------------------------------------
  // Nodes
  // ---------------------------------------------------------------------------

  class Node {
    const id: nat
    var func: nat
    var inputs: seq<Signal>
    var links: seq<Link>

    constructor (id: nat, func: nat, inputs: seq<Signal>)
      ensures this.id == id && this.func == func && this.inputs == inputs && links == []
    {
      this.id := id;
      this.func := func;
      this.inputs := inputs;
      links := [];
    }

    method AppendLink(to: nat, i: nat)
      modifies `links
      ensures links == old(links) + [Link(id, to, i)]
    {
      links := links + [Link(id, to, i)];
    }

    method RemoveLink(to: nat, input: nat)
      modifies `links
      ensures links == Without(old(links), Link(id, to, input))
    {
      var link := Link(id, to, input);
      var kept := [];
      var k := 0;
      while k < |links|
        invariant k <= |links| && links == old(links) && kept == Without(links[..k], link)
      {
        assert links[..k + 1][..k] == links[..k];
        if links[k] != link {
          kept := kept + [links[k]];
        }
        k := k + 1;
      }
      assert links[..k] == links;
      links := kept;
    }
  }

  /** The static storage of all nodes. */
  class Storage {
    var nodes: seq<Node>

    /** Each node is stored once, under its id. */
    predicate Registered()
      reads this, nodes
    {
      forall k :: 0 <= k < |nodes| ==> nodes[k].id == k
    }

    /** The contents of all nodes. */
    function Net(): (net: seq<NodeState>)
      reads this, nodes
      ensures |net| == |nodes|
    {
      seq(|nodes|, k requires 0 <= k < |nodes| reads this, nodes => NodeState(nodes[k].inputs, nodes[k].links))
    }

    ghost predicate Valid()
      reads this, nodes
    {
      Registered() && Exact(Net())
    }

    constructor ()
      ensures Valid() && nodes == []
    {
      nodes := [];
    }

    /** node->appendLink */
    method LinkTo(s: nat, t: nat, i: nat)
      requires Registered() && s < |nodes|
      modifies nodes`links
      ensures Registered() && Net() == AddLink(old(Net()), s, t, i)
    {
      nodes[s].AppendLink(t, i);
      assert forall k :: 0 <= k < |nodes| && k != s ==> nodes[k] != nodes[s];
    }

    /** node->removeLink */
    method UnlinkFrom(s: nat, t: nat, i: nat)
      requires Registered() && s < |nodes|
      modifies nodes`links
      ensures Registered() && Net() == DropLink(old(Net()), s, t, i)
    {
      nodes[s].RemoveLink(t, i);
      assert forall k :: 0 <= k < |nodes| && k != s ==> nodes[k] != nodes[s];
    }

    method AppendLinks(t: nat)
      requires Registered() && t < |nodes| && InRange(Net())
      requires ExactRange(Net(), t, 0, 0)
      modifies nodes`links
      ensures Valid() && SameInputs(old(Net()), Net())
    {
      hide ExactRange, InRange, Exact, AddLink, Net;
      var i := 0;
      while i < |nodes[t].inputs|
        invariant Registered() && i <= |nodes[t].inputs|
        invariant SameInputs(old(Net()), Net())
        invariant InRange(Net()) && ExactRange(Net(), t, 0, i)
      {
        ghost var net := Net();
        NetAt(t);
        SourceStored(net, t, i);
        AddKeeps(net, t, i);
        AddLinkInputs(net, nodes[t].inputs[i].node, t, i);
        LinkTo(nodes[t].inputs[i].node, t, i);
        i := i + 1;
      }
      NetAt(t);
      RangeIsExact(Net(), t);
    }

    method RemoveLinks(t: nat)
      requires Valid() && t < |nodes|
      modifies nodes`links
      ensures Registered() && SameInputs(old(Net()), Net())
      ensures InRange(Net()) && ExactRange(Net(), t, |nodes[t].inputs|, |nodes[t].inputs|)
    {
      hide ExactRange, InRange, Exact, DropLink, Net;
      NetAt(t);
      ExactIsRange(Net(), t);
      var i := 0;
      while i < |nodes[t].inputs|
        invariant Registered() && i <= |nodes[t].inputs|
        invariant SameInputs(old(Net()), Net())
        invariant InRange(Net()) && ExactRange(Net(), t, i, |nodes[t].inputs|)
      {
        ghost var net := Net();
        NetAt(t);
        SourceStored(net, t, i);
        DropKeeps(net, t, i);
        DropLinkInputs(net, nodes[t].inputs[i].node, t, i);
        UnlinkFrom(nodes[t].inputs[i].node, t, i);
        i := i + 1;
      }
    }

    lemma NetAt(t: nat)
      requires t < |nodes|
      ensures Net()[t] == NodeState(nodes[t].inputs, nodes[t].links)
    {
    }

    /** The constructor of a node: it is stored and linked from its sources, possibly from itself. */
    method NewNode(func: nat, inputs: seq<Signal>) returns (node: Node)
      requires Valid()
      requires forall i :: 0 <= i < |inputs| ==> inputs[i].node <= |nodes|
      modifies this, nodes`links
      ensures Valid() && fresh(node) && nodes == old(nodes) + [node]
      ensures node.id == old(|nodes|) && node.func == func && node.inputs == inputs
      ensures forall k :: 0 <= k < |old(nodes)| ==> nodes[k].inputs == old(nodes[k].inputs)
    {
      hide ExactRange, InRange, Exact;
      ghost var net := Net();
      node := new Node(|nodes|, func, inputs);
      nodes := nodes + [node];
      NodeAdded(net, inputs);
      assert Net() == net + [NodeState(inputs, [])];
      AppendLinks(|nodes| - 1);
    }

    /** Replaces the inputs of a node, and the links to it. */
    method SetInputs(t: nat, inputs: seq<Signal>)
      requires Valid() && t < |nodes|
      requires forall i :: 0 <= i < |inputs| ==> inputs[i].node < |nodes|
      modifies nodes`links
      modifies {nodes[t]}`inputs
      ensures Valid() && nodes[t].inputs == inputs
      ensures forall k :: 0 <= k < |nodes| && k != t ==> nodes[k].inputs == old(nodes[k].inputs)
    {
      hide ExactRange, InRange, Exact;
      RemoveLinks(t);
      ghost var net := Net();
      NetAt(t);
      nodes[t].inputs := inputs;
      InputsReplaced(net, t, inputs);
      assert Net() == net[t := net[t].(inputs := inputs)];
      AppendLinks(t);
    }
  }

  /** Only links differ. */
  ghost predicate SameInputs(net: seq<NodeState>, net': seq<NodeState>) {
    |net'| == |net| && forall t :: 0 <= t < |net| ==> net'[t].inputs == net[t].inputs
  }

  lemma AddLinkInputs(net: seq<NodeState>, s: nat, t: nat, i: nat)
    requires s < |net| && InRange(net)
    ensures SameInputs(net, AddLink(net, s, t, i)) && InRange(AddLink(net, s, t, i))
  {
  }

  lemma DropLinkInputs(net: seq<NodeState>, s: nat, t: nat, i: nat)
    requires s < |net| && InRange(net)
    ensures SameInputs(net, DropLink(net, s, t, i)) && InRange(DropLink(net, s, t, i))
  {
  }

  lemma RangeIsExact(net: seq<NodeState>, t: nat)
    requires t < |net| && InRange(net) && ExactRange(net, t, 0, |net[t].inputs|)
    ensures Exact(net)
  {
    WholeRange(net, t);
  }

  lemma ExactIsRange(net: seq<NodeState>, t: nat)
    requires t < |net| && Exact(net)
    ensures InRange(net) && ExactRange(net, t, 0, |net[t].inputs|)
  {
    WholeRange(net, t);
  }

  lemma SourceStored(net: seq<NodeState>, t: nat, i: nat)
    requires InRange(net) && t < |net| && i < |net[t].inputs|
    ensures net[t].inputs[i].node < |net|
  {
  }
}
