/**
 The guarantees of reencoding: a normal form without dead gates, in which every
 output, property and next-state literal keeps its meaning, step by step and
 over whole runs of the machine that the graph describes.
 */
module AigMeaning {
  import opened Collections
  import opened Words
  import opened Digraph
  import opened AigGraph
  import opened AigReencode

  // ---------------------------------------------------------------------------
  // Normal form
  // ---------------------------------------------------------------------------

  /** In normal form the three tables occupy consecutive ranges of variables. */
  lemma NormalPosition(g: Graph, v: nat)
    requires InNormalForm(g)
    ensures IsInputVar(g, v) <==> 1 <= v <= |g.inputs|
    ensures IsInputVar(g, v) ==> InputAt(g, v) == v - 1
    ensures IsLatchVar(g, v) <==> 1 + |g.inputs| <= v < Base(g)
    ensures IsLatchVar(g, v) ==> LatchAt(g, v) == v - 1 - |g.inputs|
    ensures IsAndVar(g, v) <==> Base(g) <= v < Base(g) + |g.ands|
    ensures IsAndVar(g, v) ==> AndAt(g, v) == v - Base(g)
  {
    if 1 <= v <= |g.inputs| {
      assert g.inputs[v - 1] == 2 * v;
    }
    if 1 + |g.inputs| <= v < Base(g) {
      assert LatchLits(g.latches)[v - 1 - |g.inputs|] == 2 * v;
    }
    if Base(g) <= v < Base(g) + |g.ands| {
      assert AndLits(g.ands)[v - Base(g)] == 2 * v;
    }
  }

  lemma NormalAcyclic(g: Graph)
    requires InNormalForm(g)
    requires forall k :: 0 <= k < |g.ands| ==> g.ands[k].rhs0 < g.ands[k].lhs
    ensures Acyclic(g)
  {
    var adj := Gates(g, false);
    forall u: nat, v: nat | Edge<nat>(adj, u, v) ensures v < u {
      var k := AndAt(g, u);
      assert AndLits(g.ands)[k] == 2 * u;
      assert g.ands[k].rhs1 <= g.ands[k].rhs0 < g.ands[k].lhs == 2 * u;
    }
    DescendingAcyclic(adj);
  }

  function Vars(lits: seq<nat>): (r: seq<nat>)
    ensures |r| == |lits| && forall i :: 0 <= i < |r| ==> r[i] == Var(lits[i])
  {
    seq(|lits|, i requires 0 <= i < |lits| => Var(lits[i]))
  }

  /** Pigeonhole: distinct numbers in 1..m are at most m many. */
  lemma {:induction false} DistinctBounded(s: seq<nat>, m: nat)
    requires Distinct(s) && forall x :: x in s ==> 1 <= x <= m
    ensures |s| <= m
    decreases m
  {
    if s != [] {
      assert s[0] in s;
      if m in s {
        var i :| 0 <= i < |s| && s[i] == m;
        var t := s[..i] + s[i + 1..];
        forall x | x in t ensures 1 <= x <= m - 1 {
          assert x in s && x != m;
        }
        DistinctBounded(t, m - 1);
      } else {
        DistinctBounded(s, m - 1);
      }
    }
  }

  lemma DefinedVars(g: Graph)
    requires WellFormed(g)
    ensures Distinct(Vars(g.inputs)) && Distinct(Vars(LatchLits(g.latches)))
    ensures forall i :: 0 <= i < |g.inputs| ==> IsInputVar(g, Vars(g.inputs)[i])
    ensures forall i :: 0 <= i < |g.latches| ==> IsLatchVar(g, Vars(LatchLits(g.latches))[i])
  {
    forall i | 0 <= i < |g.inputs| ensures InputAt(g, Vars(g.inputs)[i]) == i {
      InputPosition(g, i);
    }
    forall i | 0 <= i < |g.latches| ensures LatchAt(g, Vars(LatchLits(g.latches))[i]) == i {
      LatchPosition(g, i);
    }
  }

  /** Renumbering never needs more variables than there were. */
  lemma EnoughVariables(g: Graph, order: seq<nat>)
    requires GoodOrder(g, order)
    ensures |g.inputs| + |g.latches| + |order| <= g.maxvar
  {
    var a, b := Vars(g.inputs), Vars(LatchLits(g.latches));
    DefinedVars(g);
    forall v: nat ensures !(v in a && v in b) && !(v in a && v in order) && !(v in b && v in order) {
      DefinedOnce(g, v);
      assert v in order ==> v in Gates(g, true);
    }
    forall v | v in a + b + order ensures 1 <= v <= g.maxvar {
      DefinedOnce(g, v);
      assert v in order ==> v in Gates(g, true);
    }
    DistinctParts(a, b, order);
    DistinctBounded(a + b + order, g.maxvar);
  }

  lemma DistinctParts(a: seq<nat>, b: seq<nat>, c: seq<nat>)
    requires Distinct(a) && Distinct(b) && Distinct(c)
    requires forall v :: !(v in a && v in b) && !(v in a && v in c) && !(v in b && v in c)
    ensures Distinct(a + b + c)
  {
    var s := a + b + c;
    forall i, j | 0 <= i < j < |s| ensures s[i] != s[j] {
      assert i < |a| ==> s[i] in a;
      assert |a| <= i < |a| + |b| ==> s[i] in b;
      assert |a| <= j < |a| + |b| ==> s[j] in b;
      assert |a| + |b| <= j ==> s[j] in c;
    }
  }

  lemma CodedInRange(g: Graph, order: seq<nat>, l: nat)
    requires GoodOrder(g, order) && Coded(g, order, l)
    ensures Var(CodeLit(g, order, l)) < Base(g) + |order|
    ensures Recode(g, order).maxvar == Base(g) + |order| - 1
    ensures l >= 2 ==> Var(CodeLit(g, order, l)) == CodeVar(g, order, Var(l)) && CodeLit(g, order, l) % 2 == l % 2
  {
  }

  lemma RecodeNormal(g: Graph, order: seq<nat>)
    requires GoodOrder(g, order)
    ensures InNormalForm(Recode(g, order)) && Acyclic(Recode(g, order))
  {
    RecodeGates(g, order);
    RecodeTables(g, order);
    NormalAcyclic(Recode(g, order));
  }

  lemma RecodeGates(g: Graph, order: seq<nat>)
    requires GoodOrder(g, order)
    ensures forall k :: 0 <= k < |order| ==>
      var a := Recode(g, order).ands[k];
      a.lhs == 2 * (Base(g) + k) && a.rhs0 < a.lhs && a.rhs1 <= a.rhs0
  {
    forall k | 0 <= k < |order|
      ensures var a := Recode(g, order).ands[k]; a.lhs == 2 * (Base(g) + k) && a.rhs0 < a.lhs && a.rhs1 <= a.rhs0
    {
      GatesInOrder(g, order, k);
    }
  }

  lemma RecodeTables(g: Graph, order: seq<nat>)
    requires forall k :: 0 <= k < |order| ==>
      var a := Recode(g, order).ands[k];
      a.lhs == 2 * (Base(g) + k) && a.rhs0 < a.lhs && a.rhs1 <= a.rhs0
    ensures InNormalForm(Recode(g, order))
  {
  }

  /** A literal up to the last variable of a normal form is defined. */
  lemma NormalDefined(g: Graph, l: nat)
    requires InNormalForm(g) && Var(l) < Base(g) + |g.ands|
    ensures Defined(g, l)
  {
    NormalPosition(g, Var(l));
  }

  lemma CodeAllGood(g: Graph, order: seq<nat>, lits: seq<nat>)
    requires GoodOrder(g, order) && forall l :: l in lits ==> Coded(g, order, l)
    ensures InRange(Recode(g, order), CodeAll(g, order, lits))
    ensures AllDefined(Recode(g, order), CodeAll(g, order, lits))
  {
    var r := Recode(g, order);
    RecodeNormal(g, order);
    forall i | 0 <= i < |lits|
      ensures Var(CodeAll(g, order, lits)[i]) <= r.maxvar && Defined(r, CodeAll(g, order, lits)[i])
    {
      CodedInRange(g, order, lits[i]);
      NormalDefined(r, CodeLit(g, order, lits[i]));
    }
  }

  lemma RecodeGatesGood(g: Graph, order: seq<nat>)
    requires Good(g, order)
    ensures forall k :: 0 <= k < |order| ==>
      var a := Recode(g, order).ands[k];
      Defined(Recode(g, order), a.rhs0) && Defined(Recode(g, order), a.rhs1)
  {
    var r := Recode(g, order);
    RecodeNormal(g, order);
    forall k | 0 <= k < |order| ensures Defined(r, r.ands[k].rhs0) && Defined(r, r.ands[k].rhs1) {
      GatesInOrder(g, order, k);
      NormalDefined(r, r.ands[k].rhs0);
      NormalDefined(r, r.ands[k].rhs1);
    }
  }

  lemma RecodeLatchesGood(g: Graph, order: seq<nat>)
    requires Good(g, order)
    ensures forall i :: 0 <= i < |g.latches| ==>
      var l, r := Recode(g, order).latches[i], Recode(g, order);
      Var(l.next) <= r.maxvar && Defined(r, l.next) && (l.reset <= 1 || l.reset == l.lit)
  {
    var r := Recode(g, order);
    RecodeNormal(g, order);
    forall i | 0 <= i < |g.latches|
      ensures var l := r.latches[i];
              Var(l.next) <= r.maxvar && Defined(r, l.next) && (l.reset <= 1 || l.reset == l.lit)
    {
      var l := g.latches[i];
      assert l.next in Roots(g);
      CodedInRange(g, order, l.next);
      NormalDefined(r, CodeLit(g, order, l.next));
      LatchPosition(g, i);
      DefinedOnce(g, Var(l.lit));
    }
  }

  lemma RecodeWellFormed(g: Graph, order: seq<nat>)
    requires Good(g, order)
    ensures WellFormed(Recode(g, order))
  {
    var r := Recode(g, order);
    EnoughVariables(g, order);
    RecodeGates(g, order);
    RecodeTables(g, order);
    RecodeLatchesGood(g, order);
    CodeAllGood(g, order, g.outputs);
    CodeAllGood(g, order, g.bad);
    CodeAllGood(g, order, g.constraints);
    CodeAllGood(g, order, g.fairness);
    forall i | 0 <= i < |g.justice| ensures InRange(r, r.justice[i]) {
      CodeAllGood(g, order, g.justice[i]);
    }
    NormalWellFormed(r);
  }

  /** What is left to show of a graph in normal form. */
  lemma NormalWellFormed(r: Graph)
    requires InNormalForm(r) && r.maxvar == Base(r) + |r.ands| - 1 && 2 * r.maxvar + 1 < WORD
    requires forall i :: 0 <= i < |r.latches| ==>
      var l := r.latches[i]; Var(l.next) <= r.maxvar && (l.reset <= 1 || l.reset == l.lit)
    requires forall k :: 0 <= k < |r.ands| ==> r.ands[k].rhs0 < r.ands[k].lhs
    requires InRange(r, r.outputs) && InRange(r, r.bad) && InRange(r, r.constraints) && InRange(r, r.fairness)
    requires forall i :: 0 <= i < |r.justice| ==> InRange(r, r.justice[i])
    ensures WellFormed(r)
  {
    forall i | 0 <= i < |r.inputs| ensures DefiningLit(r, r.inputs[i]) {
    }
    forall i | 0 <= i < |r.latches| ensures DefiningLit(r, r.latches[i].lit) {
    }
    forall i | 0 <= i < |r.ands|
      ensures var a := r.ands[i]; DefiningLit(r, a.lhs) && Var(a.rhs0) <= r.maxvar && Var(a.rhs1) <= r.maxvar
    {
    }
    NormalDistinct(r);
  }

  /** Renumbering a checked graph gives a checked graph. */
  lemma RecodeChecked(g: Graph, order: seq<nat>)
    requires Good(g, order)
    ensures Checked(Recode(g, order))
  {
    var r := Recode(g, order);
    RecodeWellFormed(g, order);
    RecodeNormal(g, order);
    RecodeGatesGood(g, order);
    RecodeLatchesGood(g, order);
    CodeAllGood(g, order, g.outputs);
    CodeAllGood(g, order, g.bad);
    CodeAllGood(g, order, g.constraints);
    CodeAllGood(g, order, g.fairness);
    forall i | 0 <= i < |g.justice| ensures AllDefined(r, r.justice[i]) {
      CodeAllGood(g, order, g.justice[i]);
    }
  }

  lemma NormalDistinct(g: Graph)
    requires InNormalForm(g)
    ensures Distinct(g.inputs) && Distinct(LatchLits(g.latches)) && Distinct(AndLits(g.ands))
    ensures forall i, j :: 0 <= i < |g.inputs| && 0 <= j < |g.latches| ==> g.inputs[i] != g.latches[j].lit
    ensures forall i, j :: 0 <= i < |g.inputs| && 0 <= j < |g.ands| ==> g.inputs[i] != g.ands[j].lhs
    ensures forall i, j :: 0 <= i < |g.latches| && 0 <= j < |g.ands| ==> g.latches[i].lit != g.ands[j].lhs
  {
  }

  /** The normal form reached when the graph was not already in normal form. */
  lemma ReencodeNormalizes(g: Graph)
    requires Checked(g) && !InNormalForm(g)
    ensures var r := Reencoded(g);
      && Checked(r) && InNormalForm(r)
      && r.maxvar == |r.inputs| + |r.latches| + |r.ands| <= g.maxvar
      && (forall k :: 0 <= k < |r.ands| ==> r.ands[k].rhs1 <= r.ands[k].rhs0 < r.ands[k].lhs)
      && NoDeadGates(r)
  {
    var order := KeptOrder(g);
    RootsCoded(g);
    RecodeChecked(g, order);
    RecodeNormal(g, order);
    EnoughVariables(g, order);
    forall k | 0 <= k < |order| ensures var a := Recode(g, order).ands[k]; a.rhs1 <= a.rhs0 < a.lhs {
      GatesInOrder(g, order, k);
    }
    RenumberedLive(g);
  }

  /** Reencoding always ends in a checked normal form, and a second call changes nothing. */
  lemma ReencodeIdempotent(g: Graph)
    requires Checked(g)
    ensures Checked(Reencoded(g)) && InNormalForm(Reencoded(g))
    ensures Reencoded(Reencoded(g)) == Reencoded(g)
  {
    if !InNormalForm(g) {
      ReencodeNormalizes(g);
    }
  }

  // ---------------------------------------------------------------------------
  // Dead gates
  // ---------------------------------------------------------------------------

  ghost predicate Live(g: Graph, v: nat) {
    exists l :: l in Roots(g) && Reach<nat>(Gates(g, true), Var(l), v)
  }

  /** Every gate is in the cone of some root literal. */
  ghost predicate NoDeadGates(g: Graph) {
    forall k :: 0 <= k < |g.ands| ==> Live(g, Var(g.ands[k].lhs))
  }

  lemma {:induction false} FlattenCodes(g: Graph, order: seq<nat>, n: nat)
    requires n <= |g.justice|
    ensures Flatten(CodeRows(g, order, g.justice)[..n]) == CodeAll(g, order, Flatten(g.justice[..n]))
  {
    if n > 0 {
      assert g.justice[..n][..n - 1] == g.justice[..n - 1];
      assert CodeRows(g, order, g.justice)[..n][..n - 1] == CodeRows(g, order, g.justice)[..n - 1];
      FlattenCodes(g, order, n - 1);
    }
  }

  lemma {:induction false} LatchRootCodes(g: Graph, order: seq<nat>, n: nat)
    requires n <= |g.latches|
    ensures LatchRoots(CodeLatches(g, order)[..n]) == CodeAll(g, order, LatchRoots(g.latches[..n]))
  {
    if n > 0 {
      assert g.latches[..n][..n - 1] == g.latches[..n - 1];
      assert CodeLatches(g, order)[..n][..n - 1] == CodeLatches(g, order)[..n - 1];
      LatchRootCodes(g, order, n - 1);
    }
  }

  lemma CodeAllConcat(g: Graph, order: seq<nat>, a: seq<nat>, b: seq<nat>)
    ensures CodeAll(g, order, a + b) == CodeAll(g, order, a) + CodeAll(g, order, b)
  {
  }

  /** The roots of the renumbered graph are the codes of the roots. */
  lemma RootsRecoded(g: Graph, order: seq<nat>)
    ensures Roots(Recode(g, order)) == CodeAll(g, order, Roots(g))
  {
    LatchRootCodes(g, order, |g.latches|);
    FlattenCodes(g, order, |g.justice|);
    assert g.latches[..|g.latches|] == g.latches && g.justice[..|g.justice|] == g.justice;
    assert CodeLatches(g, order)[..|g.latches|] == CodeLatches(g, order);
    assert CodeRows(g, order, g.justice)[..|g.justice|] == CodeRows(g, order, g.justice);
    var a := LatchRoots(g.latches);
    CodeAllConcat(g, order, a, g.outputs);
    CodeAllConcat(g, order, a + g.outputs, g.bad);
    CodeAllConcat(g, order, a + g.outputs + g.bad, g.constraints);
    CodeAllConcat(g, order, a + g.outputs + g.bad + g.constraints, Flatten(g.justice));
    CodeAllConcat(g, order, a + g.outputs + g.bad + g.constraints + Flatten(g.justice), g.fairness);
  }

  /** In normal form the k-th gate defines variable Base + k. */
  lemma NormalGate(r: Graph, k: nat)
    requires InNormalForm(r) && k < |r.ands| && Base(r) + k <= r.maxvar
    ensures Base(r) + k in Gates(r, true) && GateOf(r, Base(r) + k) == r.ands[k]
  {
    NormalPosition(r, Base(r) + k);
  }

  /** A literal of a listed gate is coded by the gate's place in the order. */
  lemma ListedCode(g: Graph, order: seq<nat>, k: nat, l: nat)
    requires GoodOrder(g, order) && k < |order| && Var(l) == order[k]
    ensures l >= 2 && Var(CodeLit(g, order, l)) == Base(g) + k
  {
    DefinedOnce(g, order[k]);
    assert order[k] in Gates(g, true);
    IndexOfDistinct(order, k);
  }

  lemma RecodeShape(g: Graph, order: seq<nat>, k: nat)
    requires k < |order|
    ensures var r := Recode(g, order);
      && |r.inputs| == |g.inputs| && |r.latches| == |g.latches| && Base(r) == Base(g) && |r.ands| == |order|
      && r.maxvar == Base(g) + |order| - 1
      && r.ands[k] == CodeGate(g, order, GateOf(g, order[k]))
  {
  }

  lemma EdgeOperand(g: Graph, u: nat, v: nat) returns (l: nat)
    requires Edge<nat>(Gates(g, true), u, v)
    ensures Var(l) == v != 0 && (l == GateOf(g, u).rhs0 || l == GateOf(g, u).rhs1)
  {
    var a := GateOf(g, u);
    l := if Var(a.rhs0) == v then a.rhs0 else a.rhs1;
  }

  lemma OperandEdge(r: Graph, v: nat, k: nat)
    requires v in Gates(r, true) && k != 0
    requires k == Var(GateOf(r, v).rhs0) || k == Var(GateOf(r, v).rhs1)
    ensures Edge<nat>(Gates(r, true), v, k)
  {
  }

  lemma CodedOperand(g: Graph, order: seq<nat>, a: And, l: nat)
    requires l == a.rhs0 || l == a.rhs1
    ensures CodeLit(g, order, l) == CodeGate(g, order, a).rhs0 || CodeLit(g, order, l) == CodeGate(g, order, a).rhs1
  {
  }

  /** An edge between listed gates becomes an edge between their codes. */
  lemma EdgeRecoded(g: Graph, order: seq<nat>, i: nat, j: nat)
    requires GoodOrder(g, order) && i < |order| && j < |order|
    requires Edge<nat>(Gates(g, true), order[i], order[j])
    ensures Edge<nat>(Gates(Recode(g, order), true), Base(g) + i, Base(g) + j)
  {
    hide GoodOrder, Recode, CodeLit, CodeGate, GateOf, InNormalForm, Gates, Edge;
    var r := Recode(g, order);
    var l := EdgeOperand(g, order[i], order[j]);
    ListedCode(g, order, j, l);
    RecodeNormal(g, order);
    RecodeShape(g, order, i);
    NormalGate(r, i);
    CodedOperand(g, order, GateOf(g, order[i]), l);
    OperandEdge(r, Base(g) + i, Base(g) + j);
  }

  lemma RootCode(g: Graph, order: seq<nat>, l: nat)
    requires l in Roots(g)
    ensures CodeLit(g, order, l) in Roots(Recode(g, order))
  {
    RootsRecoded(g, order);
    var i :| 0 <= i < |Roots(g)| && Roots(g)[i] == l;
    assert CodeAll(g, order, Roots(g))[i] == CodeLit(g, order, l);
  }

  lemma RenumberedLive(g: Graph)
    requires Checked(g)
    ensures NoDeadGates(Renumbered(g))
  {
    var order := KeptOrder(g);
    RootsCoded(g);
    OrderLive(g, order);
  }

  lemma OrderLive(g: Graph, order: seq<nat>)
    requires GoodOrder(g, order) && order == KeptOrder(g)
    ensures NoDeadGates(Recode(g, order))
  {
    hide WellFormed, EverythingDefined, Topological, KeptOrder, Live, CodeLit;
    var r := Recode(g, order);
    RecodeGates(g, order);
    forall k | 0 <= k < |r.ands| ensures Live(r, Var(r.ands[k].lhs)) {
      OrderLiveAt(g, order, k);
    }
  }

  lemma OrderLiveAt(g: Graph, order: seq<nat>, k: nat)
    requires GoodOrder(g, order) && order == KeptOrder(g) && k < |order|
    ensures Live(Recode(g, order), Base(g) + k)
  {
    hide WellFormed, EverythingDefined, Topological, KeptOrder, Recode, Roots, Gates, Live;
    var l, p := LiveWalk(g, k);
    ReachRecoded(g, order, k, l, p);
    RootCode(g, order, l);
    LiveIntro(Recode(g, order), CodeLit(g, order, l), Base(g) + k);
  }

  lemma LiveIntro(g: Graph, l: nat, v: nat)
    requires l in Roots(g) && Reach<nat>(Gates(g, true), Var(l), v)
    ensures Live(g, v)
  {
  }

  /** A root that reaches the k-th kept gate through kept gates. */
  lemma LiveWalk(g: Graph, k: nat) returns (l: nat, p: seq<nat>)
    requires Checked(g) && k < |KeptOrder(g)|
    ensures l in Roots(g) && WalkFromTo<nat>(Gates(g, true), p, Var(l), KeptOrder(g)[k])
    ensures forall i :: 0 <= i < |p| ==> p[i] in KeptOrder(g)
  {
    KeptExact(g);
    var v := KeptOrder(g)[k];
    assert v in KeptOrder(g);
    l :| l in Roots(g) && Reach<nat>(Gates(g, true), Var(l), v);
    p :| WalkFromTo<nat>(Gates(g, true), p, Var(l), v);
    WalkListed(g, l, p);
  }

  lemma EdgeIndexed(g: Graph, order: seq<nat>, u: nat, v: nat)
    requires GoodOrder(g, order) && Edge<nat>(Gates(g, true), u, v) && u in order && v in order
    ensures Edge<nat>(Gates(Recode(g, order), true), Base(g) + IndexOf(order, u), Base(g) + IndexOf(order, v))
  {
    hide GoodOrder, Recode, Gates, Edge;
    EdgeRecoded(g, order, IndexOf(order, u), IndexOf(order, v));
  }

  ghost function Numbers(order: seq<nat>, base: nat, p: seq<nat>): (q: seq<nat>)
    ensures |q| == |p| && forall i :: 0 <= i < |q| ==> q[i] == base + IndexOf(order, p[i])
  {
    seq(|p|, i requires 0 <= i < |p| => base + IndexOf(order, p[i]))
  }

  lemma WalkRecoded(g: Graph, order: seq<nat>, p: seq<nat>)
    requires GoodOrder(g, order) && Walk<nat>(Gates(g, true), p)
    requires forall i :: 0 <= i < |p| ==> p[i] in order
    ensures Reach<nat>(Gates(Recode(g, order), true),
              Base(g) + IndexOf(order, p[0]), Base(g) + IndexOf(order, p[|p| - 1]))
  {
    hide GoodOrder, Recode, Gates, IndexOf;
    var adj', q := Gates(Recode(g, order), true), Numbers(order, Base(g), p);
    forall i | 0 <= i < |q| - 1 ensures Edge<nat>(adj', q[i], q[i + 1]) {
      assert Edge<nat>(Gates(g, true), p[i], p[i + 1]);
      EdgeIndexed(g, order, p[i], p[i + 1]);
    }
    assert WalkFromTo<nat>(adj', q, q[0], q[|q| - 1]);
  }

  lemma ReachRecoded(g: Graph, order: seq<nat>, k: nat, l: nat, p: seq<nat>)
    requires GoodOrder(g, order) && k < |order|
    requires WalkFromTo<nat>(Gates(g, true), p, Var(l), order[k])
    requires forall i :: 0 <= i < |p| ==> p[i] in order
    ensures Reach<nat>(Gates(Recode(g, order), true), Var(CodeLit(g, order, l)), Base(g) + k)
  {
    hide GoodOrder, Recode, CodeLit, Gates, Reach;
    WalkRecoded(g, order, p);
    OrderDistinct(g, order);
    IndexOfDistinct(order, k);
    ListedCode(g, order, IndexOf(order, p[0]), l);
  }

  lemma OrderDistinct(g: Graph, order: seq<nat>)
    requires GoodOrder(g, order)
    ensures Distinct(order)
  {
  }

  lemma WalkListed(g: Graph, l: nat, p: seq<nat>)
    requires Checked(g) && l in Roots(g)
    requires Walk<nat>(Gates(g, true), p) && p[0] == Var(l) && p[|p| - 1] in KeptOrder(g)
    ensures forall i :: 0 <= i < |p| ==> p[i] in KeptOrder(g)
  {
    var adj, order := Gates(g, true), KeptOrder(g);
    KeptExact(g);
    ListedSuccessors(adj, order);
    ReachSelf(adj, Var(l));
    assert p[0] in order by {
      if |p| > 1 {
        assert Edge<nat>(adj, p[0], p[1]);
      }
    }
    forall i | 0 <= i < |p| ensures p[i] in order {
      ClosedReach<nat>(adj, (set x | x in order), p, i);
    }
  }

  /** Dead gates survive exactly when the graph is already in normal form. */
  lemma DeadGatesDropped(g: Graph)
    requires Checked(g)
    ensures NoDeadGates(Reencoded(g)) <==> !InNormalForm(g) || NoDeadGates(g)
  {
    if !InNormalForm(g) {
      RenumberedLive(g);
    }
  }

  /** Two inputs and a gate that nothing refers to, in normal form. */
  const DEADGATE := Graph(3, [2, 4], [], [2], [], [], [], [], [And(6, 4, 2)])

  lemma DeadGateWellFormed()
    ensures WellFormed(DEADGATE)
  {
  }

  lemma DeadGateChecked()
    ensures Checked(DEADGATE) && InNormalForm(DEADGATE)
  {
    var g := DEADGATE;
    DeadGateWellFormed();
    hide WellFormed;
    NormalPosition(g, 1);
    NormalPosition(g, 2);
    NormalAcyclic(g);
  }

  /** The early return keeps a gate outside every cone. */
  lemma DeadGateInstance()
    ensures Checked(DEADGATE) && InNormalForm(DEADGATE)
    ensures Reencoded(DEADGATE) == DEADGATE && !NoDeadGates(Reencoded(DEADGATE))
  {
    hide WellFormed, EverythingDefined, Acyclic;
    var g := DEADGATE;
    DeadGateChecked();
    NormalPosition(g, 1);
    var adj := Gates(g, true);
    assert 1 !in adj;
    assert Roots(g) == [2];
    if Reach<nat>(adj, 1, 3) {
      SinkReaches(adj, 1, 3);
      assert false;
    }
    assert Var(g.ands[0].lhs) == 3;
  }

  lemma SinkReaches(adj: Adj<nat>, u: nat, v: nat)
    requires u !in adj && Reach<nat>(adj, u, v)
    ensures u == v
  {
    var p: seq<nat> :| WalkFromTo(adj, p, u, v);
    assert |p| >= 2 ==> Edge<nat>(adj, p[0], p[1]);
  }

  // ---------------------------------------------------------------------------
  // Meaning
  // ---------------------------------------------------------------------------

  /** A coded literal and its code have the same value. */
  lemma {:induction false} CodeMeans(g: Graph, order: seq<nat>, e: Valuation, l: nat)
    requires Good(g, order) && Coded(g, order, l)
    ensures Eval(g, e, l) == Eval(Recode(g, order), e, CodeLit(g, order, l))
    decreases CodeLit(g, order, l) / 2
  {
    hide WellFormed, EverythingDefined, Topological, EvalVar, Recode;
    var v := Var(l);
    if l >= 2 {
      CodedInRange(g, order, l);
      if IsInputVar(g, v) || IsLatchVar(g, v) {
        DefinedOnce(g, v);
        SourceMeans(g, order, e, v);
      } else {
        GateMeans(g, order, e, IndexOf(order, v));
      }
    } else {
      ConstantValue(g, e);
      ConstantValue(Recode(g, order), e);
    }
  }

  lemma ConstantValue(g: Graph, e: Valuation)
    ensures !EvalVar(g, e, 0, {})
  {
  }

  lemma SourceMeans(g: Graph, order: seq<nat>, e: Valuation, v: nat)
    requires GoodOrder(g, order) && v != 0 && (IsInputVar(g, v) || IsLatchVar(g, v))
    ensures EvalVar(g, e, v, {}) == EvalVar(Recode(g, order), e, CodeVar(g, order, v), {})
  {
    hide WellFormed, EverythingDefined, Topological, InNormalForm;
    RecodeNormal(g, order);
    NormalPosition(Recode(g, order), CodeVar(g, order, v));
  }

  lemma GateValue(g: Graph, e: Valuation, v: nat)
    requires WellFormed(g) && Acyclic(g) && IsAndVar(g, v)
    ensures var a := GateOf(g, v); EvalVar(g, e, v, {}) == (Eval(g, e, a.rhs0) && Eval(g, e, a.rhs1))
  {
    hide EvalVar;
    EvalGate(g, e, AndAt(g, v));
    assert AndLits(g.ands)[AndAt(g, v)] == 2 * v;
  }

  lemma RecodedGateValue(g: Graph, order: seq<nat>, e: Valuation, k: nat)
    requires Good(g, order) && k < |order|
    ensures var r, a := Recode(g, order), GateOf(g, order[k]);
            EvalVar(r, e, Base(g) + k, {}) ==
              (Eval(r, e, CodeLit(g, order, a.rhs0)) && Eval(r, e, CodeLit(g, order, a.rhs1)))
  {
    hide WellFormed, EverythingDefined, Topological, EvalVar, CodeLit;
    var r := Recode(g, order);
    assert WellFormed(r) && Acyclic(r) by {
      RecodeChecked(g, order);
    }
    GatesInOrder(g, order, k);
    EvalGate(r, e, k);
  }

  lemma {:induction false} GateMeans(g: Graph, order: seq<nat>, e: Valuation, k: nat)
    requires Good(g, order) && k < |order|
    ensures EvalVar(g, e, order[k], {}) == EvalVar(Recode(g, order), e, Base(g) + k, {})
    decreases Base(g) + k, 0
  {
    var a := GateOf(g, order[k]);
    OperandsCoded(g, order, k, a.rhs0);
    OperandsCoded(g, order, k, a.rhs1);
    CodeMeans(g, order, e, a.rhs0);
    CodeMeans(g, order, e, a.rhs1);
    assert order[k] in Gates(g, true);
    GateValue(g, e, order[k]);
    RecodedGateValue(g, order, e, k);
  }

  lemma ListMeans(g: Graph, order: seq<nat>, e: Valuation, lits: seq<nat>)
    requires Good(g, order) && forall l :: l in lits ==> l in Roots(g)
    ensures SameValues(g, lits, Recode(g, order), CodeAll(g, order, lits), e)
  {
    forall i | 0 <= i < |lits| ensures Eval(g, e, lits[i]) == Eval(Recode(g, order), e, CodeAll(g, order, lits)[i]) {
      CodeMeans(g, order, e, lits[i]);
    }
  }

  ghost predicate SameValues(g: Graph, ls: seq<nat>, h: Graph, ms: seq<nat>, e: Valuation) {
    |ls| == |ms| && forall i :: 0 <= i < |ls| ==> Eval(g, e, ls[i]) == Eval(h, e, ms[i])
  }

  /** Everything the outside world can observe has the same value in both graphs. */
  ghost predicate SameMeaning(g: Graph, h: Graph, e: Valuation) {
    && |g.inputs| == |h.inputs|
    && |g.latches| == |h.latches|
    && (forall i :: 0 <= i < |g.latches| ==>
          && Eval(g, e, g.latches[i].next) == Eval(h, e, h.latches[i].next)
          && Eval(g, e, g.latches[i].reset) == Eval(h, e, h.latches[i].reset))
    && SameValues(g, g.outputs, h, h.outputs, e)
    && SameValues(g, g.bad, h, h.bad, e)
    && SameValues(g, g.constraints, h, h.constraints, e)
    && SameValues(g, g.fairness, h, h.fairness, e)
    && |g.justice| == |h.justice|
    && (forall i :: 0 <= i < |g.justice| ==> SameValues(g, g.justice[i], h, h.justice[i], e))
  }

  /** Reencoding preserves meaning under every valuation of inputs and latches. */
  lemma ReencodePreservesMeaning(g: Graph, e: Valuation)
    requires Checked(g)
    ensures SameMeaning(g, Reencoded(g), e)
  {
    if !InNormalForm(g) {
      var order := KeptOrder(g);
      RootsCoded(g);
      ListMeans(g, order, e, g.outputs);
      ListMeans(g, order, e, g.bad);
      ListMeans(g, order, e, g.constraints);
      ListMeans(g, order, e, g.fairness);
      forall i | 0 <= i < |g.justice|
        ensures SameValues(g, g.justice[i], Recode(g, order), CodeAll(g, order, g.justice[i]), e)
      {
        ListMeans(g, order, e, g.justice[i]);
      }
      forall i | 0 <= i < |g.latches|
        ensures Eval(g, e, g.latches[i].next) == Eval(Recode(g, order), e, CodeLit(g, order, g.latches[i].next))
        ensures Eval(g, e, g.latches[i].reset) == Eval(Recode(g, order), e, CodeLit(g, order, g.latches[i].reset))
      {
        CodeMeans(g, order, e, g.latches[i].next);
        CodeMeans(g, order, e, g.latches[i].reset);
      }
    }
  }

  // ---------------------------------------------------------------------------
  // Runs of the machine
  // ---------------------------------------------------------------------------

  datatype Observation = Observation(
    outputs: seq<bool>, bad: seq<bool>, constraints: seq<bool>, fairness: seq<bool>, justice: seq<seq<bool>>)

  ghost function EvalAll(g: Graph, e: Valuation, lits: seq<nat>): (r: seq<bool>)
    ensures |r| == |lits| && forall i :: 0 <= i < |r| ==> r[i] == Eval(g, e, lits[i])
  {
    seq(|lits|, i requires 0 <= i < |lits| => Eval(g, e, lits[i]))
  }

  ghost function Observe(g: Graph, e: Valuation): Observation {
    Observation(EvalAll(g, e, g.outputs), EvalAll(g, e, g.bad), EvalAll(g, e, g.constraints), EvalAll(g, e, g.fairness),
      seq(|g.justice|, i requires 0 <= i < |g.justice| => EvalAll(g, e, g.justice[i])))
  }

  /** The latch values after one step. */
  ghost function Step(g: Graph, e: Valuation): seq<bool> {
    seq(|g.latches|, i requires 0 <= i < |g.latches| => Eval(g, e, g.latches[i].next))
  }

  /** The latch values after reset; a latch that resets to itself takes its value from `free`. */
  ghost function ResetState(g: Graph, free: seq<bool>): seq<bool> {
    seq(|g.latches|, i requires 0 <= i < |g.latches| => Eval(g, Valuation([], free), g.latches[i].reset))
  }

  /** What is observed while the given input vectors are applied one after the other. */
  ghost function Run(g: Graph, state: seq<bool>, stimuli: seq<seq<bool>>): seq<Observation>
    decreases |stimuli|
  {
    if stimuli == [] then []
    else
      var e := Valuation(stimuli[0], state);
      [Observe(g, e)] + Run(g, Step(g, e), stimuli[1..])
  }

  lemma SameObservation(g: Graph, h: Graph, e: Valuation)
    requires SameMeaning(g, h, e)
    ensures Observe(g, e) == Observe(h, e)
  {
    forall i | 0 <= i < |g.justice| ensures EvalAll(g, e, g.justice[i]) == EvalAll(h, e, h.justice[i]) {
      assert SameValues(g, g.justice[i], h, h.justice[i], e);
    }
  }

  lemma {:induction false} RunsAgree(g: Graph, state: seq<bool>, stimuli: seq<seq<bool>>)
    requires Checked(g)
    ensures Run(g, state, stimuli) == Run(Reencoded(g), state, stimuli)
    decreases |stimuli|
  {
    if stimuli != [] {
      var e, h := Valuation(stimuli[0], state), Reencoded(g);
      ReencodePreservesMeaning(g, e);
      assert Step(g, e) == Step(h, e);
      SameObservation(g, h, e);
      RunsAgree(g, Step(g, e), stimuli[1..]);
    }
  }

  /** Whole runs from reset cannot tell a graph from its reencoding. */
  lemma ReencodePreservesRuns(g: Graph, free: seq<bool>, stimuli: seq<seq<bool>>)
    requires Checked(g)
    ensures Run(g, ResetState(g, free), stimuli) == Run(Reencoded(g), ResetState(Reencoded(g), free), stimuli)
  {
    ReencodePreservesMeaning(g, Valuation([], free));
    assert ResetState(g, free) == ResetState(Reencoded(g), free);
    RunsAgree(g, ResetState(g, free), stimuli);
  }
}
