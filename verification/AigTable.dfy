/**
 The working data of aiger_reencode: the code table, the flags of its search,
 the compaction and sorting of the gates, and the rebuilt index.
 */
module AigTable {
  import opened Collections
  import opened Wrappers
  import opened Words
  import opened Digraph
  import opened DepthFirst
  import opened AigGraph
  import opened AigReencode
  import opened AigMeaning
  import opened AigIndex
  import opened AigSearch

  // ---------------------------------------------------------------------------
  // The code table
  // ---------------------------------------------------------------------------

  /** The table holds the codes given out so far, and 0 elsewhere. */
  ghost predicate Table(code: seq<nat>, g: Graph, order: seq<nat>) {
    && |code| == 2 * (g.maxvar + 1)
    && forall l :: 0 <= l < |code| ==> code[l] == CodeLit(g, order, l)
  }

  /** The next free code. */
  function Fresh(g: Graph, order: seq<nat>): nat { 2 * (Base(g) + |order|) }

  lemma CodeExtended(g: Graph, order: seq<nat>, v: nat, l: nat)
    requires Distinct(order) && v !in order && v != 0 && !IsInputVar(g, v) && !IsLatchVar(g, v)
    ensures CodeLit(g, order + [v], l) ==
            if Var(l) == v then Fresh(g, order) + l % 2 else CodeLit(g, order, l)
  {
    var o := order + [v];
    assert Distinct(o);
    if Var(l) == v {
      assert o[|order|] == v;
      IndexOfDistinct(o, |order|);
    } else if Var(l) in order {
      IndexOfPrefix(order, o, Var(l));
    }
  }

  /** The table after variable v got the codes c and c + 1. */
  ghost function WithCode(code: seq<nat>, v: nat, c: nat): seq<nat> {
    if 2 * v + 1 < |code| then code[2 * v := c][2 * v + 1 := c + 1] else code
  }

  /** Giving a gate the next code. */
  lemma TableExtended(code: seq<nat>, g: Graph, order: seq<nat>, v: nat)
    requires Table(code, g, order) && Distinct(order) && v !in order && 0 < v <= g.maxvar
    requires !IsInputVar(g, v) && !IsLatchVar(g, v)
    ensures Table(WithCode(code, v, Fresh(g, order)), g, order + [v])
  {
    hide CodeLit;
    var c := WithCode(code, v, Fresh(g, order));
    forall l | 0 <= l < |c| ensures c[l] == CodeLit(g, order + [v], l) {
      CodeExtended(g, order, v, l);
    }
  }

  /** What the table says about a gate variable. */
  lemma TableGate(code: seq<nat>, g: Graph, order: seq<nat>, v: nat)
    requires WellFormed(g) && Table(code, g, order) && v in Gates(g, true)
    ensures 2 * v + 1 < |code| && 0 < v && !IsInputVar(g, v) && !IsLatchVar(g, v)
    ensures code[2 * v] != 0 <==> v in order
  {
    DefinedOnce(g, v);
    assert code[2 * v] == CodeLit(g, order, 2 * v);
  }

  /** A defined literal without a code belongs to an unlisted gate. */
  lemma UncodedGate(g: Graph, order: seq<nat>, lit: nat)
    requires WellFormed(g) && Defined(g, lit) && lit >= 2 && CodeLit(g, order, lit) == 0
    ensures Var(lit) in Gates(g, true) && Var(lit) !in order && IsAndVar(g, Var(lit))
  {
    DefinedOnce(g, Var(lit));
  }

  /** A literal with a code needs no search. */
  lemma CodedIdle(g: Graph, order: seq<nat>, lit: nat)
    requires WellFormed(g) && Coded(g, order, lit)
    ensures Visit(Gates(g, true), Var(lit), {}, order) == Done(order)
    ensures Next(Gates(g, true), Var(lit), order) == order
  {
    DefinedOnce(g, Var(lit));
  }

  // ---------------------------------------------------------------------------
  // The search
  // ---------------------------------------------------------------------------

  ghost function Stacked(types0: seq<TypeInfo>, open: set<nat>): (r: seq<TypeInfo>)
    ensures |r| == |types0|
    ensures forall v :: 0 <= v < |r| ==> r[v] == types0[v].(onstack := v in open)
  {
    seq(|types0|, v requires 0 <= v < |types0| => types0[v].(onstack := v in open))
  }

  lemma StackedNone(types0: seq<TypeInfo>)
    requires NoneOpen(types0)
    ensures Stacked(types0, {}) == types0
  {
  }

  lemma StackedOpen(types0: seq<TypeInfo>, open: set<nat>, v: nat)
    requires v < |types0|
    ensures Stacked(types0, open)[v := Stacked(types0, open)[v].(onstack := true)] == Stacked(types0, open + {v})
  {
  }

  lemma StackedClose(types0: seq<TypeInfo>, open: set<nat>, v: nat)
    requires v < |types0| && v !in open
    ensures Stacked(types0, open + {v})[v := Stacked(types0, open + {v})[v].(onstack := false)] == Stacked(types0, open)
  {
  }

  /** How the index describes a gate: its operands, larger variable first. */
  lemma GateEntry(g: Graph, types: seq<TypeInfo>, v: nat)
    requires WellFormed(g) && RhsDefined(g) && Indexed(g, types) && v in Gates(g, true)
    ensures 0 < v <= g.maxvar < |types| && types[v].and && types[v].idx < |g.ands|
    ensures var a, b := Max(Var(g.ands[types[v].idx].rhs0), Var(g.ands[types[v].idx].rhs1)),
                        Min(Var(g.ands[types[v].idx].rhs0), Var(g.ands[types[v].idx].rhs1));
      && a <= g.maxvar && b <= g.maxvar
      && Gates(g, true)[v] == NonZero(b) + NonZero(a)
      && (a != 0 ==> Operand(g, types, a)) && (b != 0 ==> Operand(g, types, b))
  {
    DefinedOnce(g, v);
    Lookup(g, types, v);
    var c := g.ands[types[v].idx];
    assert c == GateOf(g, v);
    OperandEntry(g, types, c.rhs0);
    OperandEntry(g, types, c.rhs1);
  }

  function Min(a: nat, b: nat): nat { if a < b then a else b }

  /** A variable that a search can meet: an input, a latch or a gate, and the index says which. */
  ghost predicate Operand(g: Graph, types: seq<TypeInfo>, k: nat) {
    0 < k <= g.maxvar < |types| && (types[k].input || types[k].latch <==> k !in Gates(g, true))
  }

  lemma OperandEntry(g: Graph, types: seq<TypeInfo>, rhs: nat)
    requires WellFormed(g) && Indexed(g, types) && Defined(g, rhs) && Var(rhs) <= g.maxvar
    ensures Var(rhs) != 0 ==> Operand(g, types, Var(rhs))
  {
    if Var(rhs) != 0 {
      Lookup(g, types, Var(rhs));
      DefinedOnce(g, Var(rhs));
    }
  }

  ghost function Larger(g: Graph, types: seq<TypeInfo>, v: nat): nat {
    if v < |types| && types[v].idx < |g.ands| then
      Max(Var(g.ands[types[v].idx].rhs0), Var(g.ands[types[v].idx].rhs1))
    else 0
  }

  ghost function Smaller(g: Graph, types: seq<TypeInfo>, v: nat): nat {
    if v < |types| && types[v].idx < |g.ands| then
      Min(Var(g.ands[types[v].idx].rhs0), Var(g.ands[types[v].idx].rhs1))
    else 0
  }

  /** What the search pushes for operand k. */
  ghost function Pushes(g: Graph, types: seq<TypeInfo>, open: set<nat>, k: nat): seq<nat> {
    if k == 0 || k >= |types| || types[k].input || types[k].latch || k in open then [] else [k]
  }

  /** Operands of a gate whose expansion completes are not open. */
  lemma OperandsIdle(g: Graph, types: seq<TypeInfo>, stack: seq<nat>, order: seq<nat>, v: nat)
    requires WellFormed(g) && RhsDefined(g) && Indexed(g, types)
    requires Searching(g, Gates(g, true), stack, order) && stack != [] && v == stack[|stack| - 1] != 0
    requires v in Gates(g, true) && v !in order && v !in OpenOf(stack) && Resume(Gates(g, true), stack, order).Done?
    ensures Larger(g, types, v) !in OpenOf(stack) + {v} && Smaller(g, types, v) !in OpenOf(stack) + {v}
  {
    hide WellFormed, RhsDefined, Indexed, Gates, Resume, OpenOf, WellStacked;
    var below := stack[..|stack| - 1];
    assert stack == below + [v];
    GateEntry(g, types, v);
    NoZero(g);
    SamePending(stack);
    OperandsNotOpen(Gates(g, true), below, v, Larger(g, types, v), Smaller(g, types, v), order);
  }

  /** The prefix step of the renumbering search. */
  lemma OperandsPushed(g: Graph, types: seq<TypeInfo>, stack: seq<nat>, order: seq<nat>, v: nat)
    requires WellFormed(g) && RhsDefined(g) && Indexed(g, types)
    requires Searching(g, Gates(g, true), stack, order) && stack != [] && v == stack[|stack| - 1] != 0
    requires Gated(Gates(g, true), stack)
    requires v in Gates(g, true) && v !in order && v !in OpenOf(stack)
    requires Larger(g, types, v) !in OpenOf(stack) + {v} && Smaller(g, types, v) !in OpenOf(stack) + {v}
    ensures var adj, open := Gates(g, true), OpenOf(stack) + {v};
      var stack' := stack + [0] + Pushes(g, types, open, Larger(g, types, v)) + Pushes(g, types, open, Smaller(g, types, v));
      && Searching(g, adj, stack', order) && Gated(adj, stack')
      && OpenOf(stack') == open
      && Resume(adj, stack', order) == Resume(adj, stack, order)
      && Left(adj, stack', order) < Left(adj, stack, order)
  {
    hide WellFormed, RhsDefined, Indexed, Gates, Resume, OpenOf, WellStacked, Left;
    var adj, open, a, b := Gates(g, true), OpenOf(stack) + {v}, Larger(g, types, v), Smaller(g, types, v);
    GateEntry(g, types, v);
    NoZero(g);
    OpenStep(g, adj, stack, order, v, a, b, Pushes(g, types, open, a), Pushes(g, types, open, b));
  }

  lemma StartSearch(g: Graph, types: seq<TypeInfo>, v: nat, order: seq<nat>)
    requires WellFormed(g) && v in Gates(g, true) && NoneOpen(types)
    ensures Searching(g, Gates(g, true), [v], order) && Gated(Gates(g, true), [v])
    ensures Resume(Gates(g, true), [v], order) == Visit(Gates(g, true), v, {}, order)
    ensures Stacked(types, OpenOf([v])) == types
  {
    hide Resume, Visit, OpenOf, WellStacked;
    NoZero(g);
    Start(Gates(g, true), v, order);
    StackedNone(types);
  }

  lemma StopSearch(adj: Adj<nat>, types: seq<TypeInfo>, order: seq<nat>)
    requires NoneOpen(types)
    ensures Resume(adj, [], order) == Done(order) && Stacked(types, OpenOf([])) == types
  {
    hide Resume, OpenOf;
    Stop(adj, order);
    StackedNone(types);
  }

  /** The pending variable on top is a gate that is not open, coded exactly if listed. */
  lemma TopGate(g: Graph, types: seq<TypeInfo>, code: seq<nat>, stack: seq<nat>, order: seq<nat>)
    requires WellFormed(g) && RhsDefined(g) && Indexed(g, types) && Table(code, g, order)
    requires stack != [] && stack[|stack| - 1] != 0 && Gated(Gates(g, true), stack)
    requires Resume(Gates(g, true), stack, order).Done?
    ensures var v := stack[|stack| - 1];
      && v in Gates(g, true) && v !in OpenOf(stack) && v < |types| && 2 * v + 1 < |code|
      && (code[2 * v] != 0 <==> v in order)
  {
    hide WellFormed, RhsDefined, Indexed, Gates, Resume, OpenOf;
    var v := stack[|stack| - 1];
    assert v in Gates(g, true);
    TableGate(code, g, order, v);
    NotOpenWhenDone(Gates(g, true), stack, order);
    SamePending(stack);
    GateEntry(g, types, v);
  }

  lemma DropTop(g: Graph, adj: Adj<nat>, stack: seq<nat>, order: seq<nat>)
    requires Searching(g, adj, stack, order) && Gated(adj, stack)
    requires stack != [] && stack[|stack| - 1] != 0 && stack[|stack| - 1] !in OpenOf(stack) && stack[|stack| - 1] in order
    ensures var s := stack[..|stack| - 1];
      && Searching(g, adj, s, order) && Gated(adj, s) && Resume(adj, s, order) == Resume(adj, stack, order)
      && OpenOf(s) == OpenOf(stack) && Left(adj, s, order) == Left(adj, stack, order)
  {
    hide Resume, OpenOf, WellStacked, Left;
    Skip(adj, stack, order);
    SameLeft(adj, stack, stack[..|stack| - 1], order);
  }

  /** The postfix step of the renumbering search: the gate under the marker gets the next code. */
  lemma CloseTop(g: Graph, types: seq<TypeInfo>, code: seq<nat>, stack: seq<nat>, order: seq<nat>)
    requires WellFormed(g) && RhsDefined(g) && Indexed(g, types) && Table(code, g, order) && Distinct(order)
    requires Searching(g, Gates(g, true), stack, order) && Gated(Gates(g, true), stack)
    requires stack != [] && stack[|stack| - 1] == 0
    ensures |stack| >= 2
    ensures var adj, stack', j := Gates(g, true), stack[..|stack| - 2], stack[|stack| - 2];
      && j < |types| && j !in OpenOf(stack') && OpenOf(stack) == OpenOf(stack') + {j}
      && Searching(g, adj, stack', order + [j]) && Gated(adj, stack') && Distinct(order + [j])
      && Resume(adj, stack', order + [j]) == Resume(adj, stack, order)
      && Left(adj, stack', order + [j]) == Left(adj, stack, order)
      && 2 * j + 1 < |code| && code[2 * j] == 0
      && Table(WithCode(code, j, Fresh(g, order)), g, order + [j])
      && Fresh(g, order + [j]) == Fresh(g, order) + 2
  {
    hide WellFormed, RhsDefined, Indexed, Gates, Resume, OpenOf, WellStacked, Left, Table;
    CloseStep(g, Gates(g, true), stack, order);
    var j := stack[|stack| - 2];
    GateEntry(g, types, j);
    TableGate(code, g, order, j);
    TableExtended(code, g, order, j);
  }

  lemma ConstantCode(g: Graph, order: seq<nat>, lit: nat)
    requires lit < 2
    ensures Coded(g, order, lit) && CodeLit(g, order, lit) == lit
  {
  }

  lemma CodedNonZero(g: Graph, order: seq<nat>, lit: nat)
    requires CodeLit(g, order, lit) != 0
    ensures Coded(g, order, lit)
  {
  }

  lemma NoZero(g: Graph)
    requires WellFormed(g)
    ensures 0 !in Gates(g, true)
  {
    DefinedOnce(g, 0);
  }

  /** Every pending variable is a gate. */
  ghost predicate Gated(adj: Adj<nat>, stack: seq<nat>) {
    forall k :: 0 <= k < |stack| && stack[k] != 0 ==> stack[k] in adj
  }

  lemma SamePending(stack: seq<nat>)
    requires stack != [] && stack[|stack| - 1] != 0
    ensures OpenOf(stack[..|stack| - 1]) == OpenOf(stack)
  {
  }

  /** In a checked graph every search completes. */
  lemma NextRuns(g: Graph, v: nat, order: seq<nat>)
    requires Checked(g)
    ensures Visit(Gates(g, true), v, {}, order) == Done(Next(Gates(g, true), v, order))
  {
    SortingKeepsCycles(g);
    NextExtends(Gates(g, true), v, order);
  }

  /** After its search a gate literal is coded. */
  lemma NextCodes(g: Graph, v: nat, order: seq<nat>, lit: nat)
    requires Checked(g) && v in Gates(g, true) && Var(lit) == v && Topological<nat>(Gates(g, true), order)
    ensures Coded(g, Next(Gates(g, true), v, order), lit)
    ensures Topological<nat>(Gates(g, true), Next(Gates(g, true), v, order))
  {
    SortingKeepsCycles(g);
    NextExtends(Gates(g, true), v, order);
  }

  // ---------------------------------------------------------------------------
  // Compaction and sorting
  // ---------------------------------------------------------------------------

  /** The coded gates, recoded, in their old order. */
  ghost function Compact(g: Graph, order: seq<nat>, ands: seq<And>): (r: seq<And>)
    ensures |r| <= |ands|
  {
    if ands == [] then []
    else
      var rest, a := Compact(g, order, ands[..|ands| - 1]), ands[|ands| - 1];
      if CodeLit(g, order, a.lhs) == 0 then rest else rest + [CodeGate(g, order, a)]
  }

  lemma {:induction false} CompactMembers(g: Graph, order: seq<nat>, ands: seq<And>, c: And)
    ensures c in Compact(g, order, ands) <==>
      exists a :: a in ands && CodeLit(g, order, a.lhs) != 0 && c == CodeGate(g, order, a)
  {
    if ands != [] {
      var init, last := ands[..|ands| - 1], ands[|ands| - 1];
      CompactMembers(g, order, init, c);
      assert ands == init + [last];
      assert forall a :: a in ands <==> a in init || a == last;
    }
  }

  lemma {:induction false} CompactDistinct(g: Graph, order: seq<nat>, n: nat)
    requires GoodOrder(g, order) && n <= |g.ands|
    ensures Distinct(AndLits(Compact(g, order, g.ands[..n])))
  {
    hide GoodOrder, CodeGate, CodeLit;
    if n > 0 {
      var init, a := g.ands[..n - 1], g.ands[n - 1];
      assert g.ands[..n][..n - 1] == init;
      CompactDistinct(g, order, n - 1);
      var rest := Compact(g, order, init);
      if CodeLit(g, order, a.lhs) != 0 {
        CodeGateLhs(g, order, a);
        forall i | 0 <= i < |rest| ensures rest[i].lhs != CodeLit(g, order, a.lhs) {
          EarlierGate(g, order, n - 1, rest[i]);
        }
      }
    }
  }

  lemma CodeGateLhs(g: Graph, order: seq<nat>, a: And)
    ensures CodeGate(g, order, a).lhs == CodeLit(g, order, a.lhs)
  {
  }

  lemma EarlierGate(g: Graph, order: seq<nat>, n: nat, c: And)
    requires GoodOrder(g, order) && n < |g.ands| && CodeLit(g, order, g.ands[n].lhs) != 0
    requires c in Compact(g, order, g.ands[..n])
    ensures c.lhs != CodeLit(g, order, g.ands[n].lhs)
  {
    hide GoodOrder, CodeGate, CodeLit, Compact;
    CompactMembers(g, order, g.ands[..n], c);
    var b :| b in g.ands[..n] && CodeLit(g, order, b.lhs) != 0 && c == CodeGate(g, order, b);
    CodeGateLhs(g, order, b);
    var k :| 0 <= k < n && g.ands[k] == b;
    OtherGate(g, order, k, n);
  }

  lemma OtherGate(g: Graph, order: seq<nat>, i: nat, j: nat)
    requires GoodOrder(g, order) && i < j < |g.ands|
    requires CodeLit(g, order, g.ands[i].lhs) != 0 && CodeLit(g, order, g.ands[j].lhs) != 0
    ensures CodeLit(g, order, g.ands[i].lhs) != CodeLit(g, order, g.ands[j].lhs)
  {
    assert DefiningLit(g, g.ands[i].lhs) && DefiningLit(g, g.ands[j].lhs);
    assert AndLits(g.ands)[i] != AndLits(g.ands)[j];
    CodeInjective(g, order, g.ands[i].lhs, g.ands[j].lhs);
  }

  /** The two's-complement reading of a literal. */
  function ToInt32(x: nat): int { if x < 0x8000_0000 then x else x - WORD }

  /** The comparison handed to qsort; nothing where the int subtraction overflows, which C leaves undefined. */
  function CmpLhs(a: And, b: And): Option<int> {
    var d := ToInt32(a.lhs) - ToInt32(b.lhs);
    if -0x8000_0000 <= d < 0x8000_0000 then Some(d) else None
  }

  /** Both left-hand sides below 2^31, or none. */
  predicate SameSide(a: And, b: And) {
    a.lhs < 0x8000_0000 <==> b.lhs < 0x8000_0000
  }

  /** The comparison is defined and orders two literals as numbers exactly when they are on the same side of 2^31. */
  lemma CmpLhsExact(a: And, b: And)
    requires a.lhs < b.lhs < WORD
    ensures CmpLhs(a, b).Some? && CmpLhs(a, b).value < 0 <==> SameSide(a, b)
    ensures CmpLhs(b, a).Some? && CmpLhs(b, a).value > 0 <==> SameSide(a, b)
  {
  }

  ghost predicate SortedByLhs(ands: seq<And>) {
    forall i, j :: 0 <= i < j < |ands| ==> ToInt32(ands[i].lhs) <= ToInt32(ands[j].lhs)
  }

  /** What qsort leaves behind: a permutation in the order of the comparison. */
  ghost predicate Sorts(ands: seq<And>, sorted: seq<And>) {
    multiset(ands) == multiset(sorted) && SortedByLhs(sorted)
  }

  function Insert(ands: seq<And>, a: And): Option<seq<And>> {
    if ands == [] then Some([a])
    else
      var init, last := ands[..|ands| - 1], ands[|ands| - 1];
      match CmpLhs(last, a)
      case None => None
      case Some(d) =>
        if d <= 0 then Some(ands + [a])
        else
          match Insert(init, a)
          case None => None
          case Some(r) => Some(r + [last])
  }

  /** The sorted gates, or nothing when a comparison overflows. */
  function QSort(ands: seq<And>): Option<seq<And>> {
    if ands == [] then Some([])
    else
      match QSort(ands[..|ands| - 1])
      case None => None
      case Some(r) => Insert(r, ands[|ands| - 1])
  }

  lemma {:induction false} InsertPermutes(ands: seq<And>, a: And)
    requires Insert(ands, a).Some?
    ensures multiset(Insert(ands, a).value) == multiset(ands) + multiset{a}
  {
    if ands != [] && CmpLhs(ands[|ands| - 1], a).value > 0 {
      InsertPermutes(ands[..|ands| - 1], a);
      assert ands == ands[..|ands| - 1] + [ands[|ands| - 1]];
    }
  }

  lemma {:induction false} InsertSorts(ands: seq<And>, a: And)
    requires SortedByLhs(ands) && Insert(ands, a).Some?
    ensures SortedByLhs(Insert(ands, a).value)
  {
    hide ToInt32;
    if ands != [] && CmpLhs(ands[|ands| - 1], a).value > 0 {
      var init, last := ands[..|ands| - 1], ands[|ands| - 1];
      InsertSorts(init, a);
      InsertPermutes(init, a);
      var r := Insert(init, a).value;
      forall i | 0 <= i < |r| ensures ToInt32(r[i].lhs) <= ToInt32(last.lhs) {
        assert r[i] in multiset(r);
        if r[i] != a {
          var k :| 0 <= k < |init| && init[k] == r[i];
        }
      }
    }
  }

  lemma {:induction false} InsertKeepsSorts(ands: seq<And>, sorted: seq<And>, a: And)
    requires Sorts(ands, sorted) && Insert(sorted, a).Some?
    ensures Sorts(ands + [a], Insert(sorted, a).value)
  {
    hide Insert, SortedByLhs;
    InsertSorts(sorted, a);
    InsertPermutes(sorted, a);
  }

  lemma {:induction false} QSortSorts(ands: seq<And>)
    requires QSort(ands).Some?
    ensures Sorts(ands, QSort(ands).value)
  {
    if ands != [] {
      hide Insert, Sorts;
      var init, last := ands[..|ands| - 1], ands[|ands| - 1];
      QSortSorts(init);
      InsertKeepsSorts(init, QSort(init).value, last);
      assert ands == init + [last];
    }
  }

  /** All left-hand sides are words on the same side of 2^31. */
  ghost predicate OneSided(ands: seq<And>, low: bool) {
    forall a :: a in ands ==> a.lhs < WORD && (a.lhs < 0x8000_0000 <==> low)
  }

  lemma {:induction false} InsertDefined(ands: seq<And>, a: And, low: bool)
    requires OneSided(ands, low) && OneSided([a], low)
    ensures Insert(ands, a).Some?
  {
    if ands != [] {
      assert a in [a];
      InsertDefined(ands[..|ands| - 1], a, low);
    }
  }

  /** On one side of 2^31 no comparison overflows. */
  lemma {:induction false} QSortDefined(ands: seq<And>, low: bool)
    requires OneSided(ands, low)
    ensures QSort(ands).Some?
  {
    if ands != [] {
      hide Insert, Sorts;
      var init, last := ands[..|ands| - 1], ands[|ands| - 1];
      QSortDefined(init, low);
      SortedMembers(init);
      assert last in ands;
      assert OneSided([last], low);
      assert OneSided(QSort(init).value, low);
      InsertDefined(QSort(init).value, last, low);
    }
  }

  lemma SortedMembers(ands: seq<And>)
    requires QSort(ands).Some?
    ensures forall a :: a in QSort(ands).value <==> a in ands
  {
    hide QSort, SortedByLhs;
    QSortSorts(ands);
    forall a ensures a in QSort(ands).value <==> a in ands {
      assert a in multiset(ands) <==> a in multiset(QSort(ands).value);
    }
  }

  ghost predicate Increasing(ands: seq<And>) {
    forall i, j :: 0 <= i < j < |ands| ==> ands[i].lhs < ands[j].lhs
  }

  /** A strictly increasing list is determined by its members. */
  lemma {:induction false} IncreasingUnique(a: seq<And>, b: seq<And>)
    requires Increasing(a) && Increasing(b) && forall c :: c in a <==> c in b
    ensures a == b
    decreases |a|
  {
    if b != [] {
      assert b[0] in b;
    }
    if a != [] {
      var n, m := |a| - 1, |b| - 1;
      assert a[n] in a && b[m] in b by {
        assert a[0] in b;
      }
      var i :| 0 <= i < |b| && b[i] == a[n];
      var j :| 0 <= j < |a| && a[j] == b[m];
      assert i == m && j == n;
      forall c ensures c in a[..n] <==> c in b[..m] {
        WithoutLast(a, c);
        WithoutLast(b, c);
      }
      IncreasingUnique(a[..n], b[..m]);
    }
  }

  lemma WithoutLast(a: seq<And>, c: And)
    requires Increasing(a) && a != []
    ensures c in a[..|a| - 1] <==> c in a && c != a[|a| - 1]
  {
    var n := |a| - 1;
    assert a == a[..n] + [a[n]];
    assert a[n] !in a[..n];
  }

  /** Sorting gates with different left-hand sides on one side of 2^31 makes them strictly increasing. */
  lemma SortsIncreasing(a: seq<And>, b: seq<And>, low: bool)
    requires Sorts(a, b) && Distinct(AndLits(a)) && OneSided(a, low)
    ensures Increasing(b) && forall c :: c in a <==> c in b
  {
    forall c ensures c in a <==> c in b {
      assert c in multiset(a) <==> c in multiset(b);
    }
    forall i, j | 0 <= i < j < |b| ensures b[i].lhs < b[j].lhs {
      assert b[i] in a && b[j] in a;
      if b[i].lhs == b[j].lhs {
        SameLhsSameGate(a, b[i], b[j]);
        TwiceInMultiset(b, i, j);
        OnceInMultiset(a, b[i]);
        assert false;
      }
    }
  }

  lemma SameLhsSameGate(a: seq<And>, c: And, d: And)
    requires Distinct(AndLits(a)) && c in a && d in a && c.lhs == d.lhs
    ensures c == d
  {
    var i :| 0 <= i < |a| && a[i] == c;
    var j :| 0 <= j < |a| && a[j] == d;
    assert AndLits(a)[i] == AndLits(a)[j];
  }

  lemma TwiceInMultiset(s: seq<And>, i: nat, j: nat)
    requires i < j < |s| && s[i] == s[j]
    ensures multiset(s)[s[i]] >= 2
  {
    assert s == s[..i] + [s[i]] + s[i + 1..j] + [s[j]] + s[j + 1..];
  }

  lemma OnceInMultiset(s: seq<And>, c: And)
    requires Distinct(AndLits(s)) && c in s
    ensures multiset(s)[c] == 1
  {
    var i :| 0 <= i < |s| && s[i] == c;
    assert s == s[..i] + [s[i]] + s[i + 1..];
    assert c !in s[..i] && c !in s[i + 1..] by {
      forall k | 0 <= k < |s| && k != i ensures s[k] != c {
        assert AndLits(s)[k] != AndLits(s)[i];
      }
    }
    assert multiset(s[..i])[c] == 0 && multiset(s[i + 1..])[c] == 0;
  }

  lemma CompactIsKept(g: Graph, order: seq<nat>, c: And)
    requires GoodOrder(g, order)
    ensures c in Compact(g, order, g.ands) <==> c in CodeGates(g, order)
  {
    CompactMembers(g, order, g.ands, c);
    if c in CodeGates(g, order) {
      var k :| 0 <= k < |order| && CodeGates(g, order)[k] == c;
      GateCode(g, order, k);
    }
    if c in Compact(g, order, g.ands) {
      var a :| a in g.ands && CodeLit(g, order, a.lhs) != 0 && c == CodeGate(g, order, a);
      var i :| 0 <= i < |g.ands| && g.ands[i] == a;
      var v := Var(a.lhs);
      GatePosition(g, i);
      DefinedOnce(g, v);
      assert CodeGates(g, order)[IndexOf(order, v)] == c;
    }
  }

  /** n gates numbered from b on: none, all below 2^31, or all from there on. */
  predicate SortRange(b: nat, n: nat) {
    n == 0 || 2 * (b + n - 1) < 0x8000_0000 || 2 * b >= 0x8000_0000
  }

  /** Compacting and sorting yields the kept gates in their new order exactly when they are on one side of 2^31. */
  lemma SortExact(g: Graph, order: seq<nat>)
    requires GoodOrder(g, order)
    ensures QSort(Compact(g, order, g.ands)) == Some(CodeGates(g, order)) <==> SortRange(Base(g), |order|)
  {
    hide GoodOrder, Compact, CodeGate, QSort;
    if SortRange(Base(g), |order|) {
      SortedCompact(g, order);
    } else if QSort(Compact(g, order, g.ands)) == Some(CodeGates(g, order)) {
      QSortSorts(Compact(g, order, g.ands));
      GatesInOrder(g, order, 0);
      GatesInOrder(g, order, |order| - 1);
      GateWords(g, order);
      assert false;
    }
  }

  lemma GateWords(g: Graph, order: seq<nat>)
    requires GoodOrder(g, order)
    ensures 2 * (Base(g) + |order| - 1) < WORD
  {
    EnoughVariables(g, order);
  }

  lemma SortedCompact(g: Graph, order: seq<nat>)
    requires GoodOrder(g, order) && SortRange(Base(g), |order|)
    ensures QSort(Compact(g, order, g.ands)) == Some(CodeGates(g, order))
  {
    hide GoodOrder, Sorts, Compact, CodeGate, QSort;
    var c, k := Compact(g, order, g.ands), CodeGates(g, order);
    var low := 2 * Base(g) < 0x8000_0000;
    assert g.ands[..|g.ands|] == g.ands;
    CompactDistinct(g, order, |g.ands|);
    CompactOneSided(g, order, low);
    QSortDefined(c, low);
    QSortSorts(c);
    SortsIncreasing(c, QSort(c).value, low);
    KeptIncreasing(g, order);
    forall a ensures a in QSort(c).value <==> a in k {
      CompactIsKept(g, order, a);
    }
    IncreasingUnique(QSort(c).value, k);
  }

  lemma KeptIncreasing(g: Graph, order: seq<nat>)
    requires GoodOrder(g, order)
    ensures Increasing(CodeGates(g, order))
  {
    hide GoodOrder, CodeGate;
    var k := CodeGates(g, order);
    forall i | 0 <= i < |k| ensures k[i].lhs == 2 * (Base(g) + i) {
      GatesInOrder(g, order, i);
    }
  }

  lemma CompactOneSided(g: Graph, order: seq<nat>, low: bool)
    requires GoodOrder(g, order) && SortRange(Base(g), |order|) && low == (2 * Base(g) < 0x8000_0000)
    ensures OneSided(Compact(g, order, g.ands), low)
  {
    hide GoodOrder, Compact, CodeGate;
    var k := CodeGates(g, order);
    GateWords(g, order);
    forall a | a in Compact(g, order, g.ands) ensures a.lhs < WORD && (a.lhs < 0x8000_0000 <==> low) {
      CompactIsKept(g, order, a);
      var i :| 0 <= i < |k| && k[i] == a;
      GatesInOrder(g, order, i);
    }
  }

  // ---------------------------------------------------------------------------
  // The rebuilt index
  // ---------------------------------------------------------------------------

  /** The entry that reencoding leaves for variable v of a graph in normal form. */
  function Retype(r: Graph, t: TypeInfo, v: nat): TypeInfo {
    var c := t.(input := false, latch := false, and := false, idx := 0);
    if v == 0 || v > r.maxvar then t
    else if v <= |r.inputs| then c.(input := true, idx := v - 1)
    else if v <= |r.inputs| + |r.latches| then c.(latch := true, idx := v - 1 - |r.inputs|)
    else c.(and := true, idx := v - 1 - |r.inputs| - |r.latches|)
  }

  ghost function Retyped(r: Graph, types: seq<TypeInfo>): (q: seq<TypeInfo>)
    ensures |q| == |types| && forall v :: 0 <= v < |q| ==> q[v] == Retype(r, types[v], v)
  {
    seq(|types|, v requires 0 <= v < |types| => Retype(r, types[v], v))
  }

  lemma RetypedIndexed(r: Graph, types: seq<TypeInfo>)
    requires InNormalForm(r) && r.maxvar == |r.inputs| + |r.latches| + |r.ands| && r.maxvar < |types|
    requires !types[0].input && !types[0].latch && !types[0].and
    ensures Indexed(r, Retyped(r, types))
  {
    var q := Retyped(r, types);
    forall v | 0 <= v < |q| && v <= r.maxvar ensures EntryOk(r, q[v], v) {
    }
  }

  lemma RetypedConsistent(r: Graph, types: seq<TypeInfo>)
    requires Checked(r) && InNormalForm(r) && r.maxvar == |r.inputs| + |r.latches| + |r.ands| && r.maxvar < |types|
    requires !types[0].input && !types[0].latch && !types[0].and
    requires NoneOpen(types) && MarksDefined(types)
    ensures Consistent(r, Retyped(r, types))
  {
    hide InNormalForm, WellFormed, EverythingDefined;
    RetypedIndexed(r, types);
    CheckedSettled(r, Retyped(r, types));
  }

  /** After reencoding, what is clear above the new maxvar is what was not defined before. */
  lemma ClearAfterReencode(g: Graph, types: seq<TypeInfo>, r: Graph, n: nat)
    requires WellFormed(g) && Indexed(g, types) && ClearTo(g, types, n) && r.maxvar <= g.maxvar
    ensures ClearTo(r, Retyped(r, types), n) <==> forall v: nat :: r.maxvar < v <= n ==> !Defined(g, 2 * v)
  {
    hide WellFormed, Indexed, Defined;
    var q := Retyped(r, types);
    forall v: nat | r.maxvar < v <= n ensures Unused(q, v) <==> !Defined(g, 2 * v) {
      UnusedAfterReencode(g, types, r, n, v);
    }
  }

  lemma UnusedAfterReencode(g: Graph, types: seq<TypeInfo>, r: Graph, n: nat, v: nat)
    requires WellFormed(g) && Indexed(g, types) && ClearTo(g, types, n) && r.maxvar < v <= n
    ensures Unused(Retyped(r, types), v) <==> !Defined(g, 2 * v)
  {
    hide WellFormed;
    DefinedOnce(g, v);
    if v <= g.maxvar {
      Lookup(g, types, v);
    } else {
      assert Unused(types, v);
    }
  }

  /**
   After gates were dropped, entries beyond the new maxvar are stale.  Referring to
   a variable up there again, wherever the old maxvar was, keeps the index right
   exactly when none of the variables brought back was defined before.
   */
  lemma StaleIndex(g: Graph, types: seq<TypeInfo>, r: Graph, types': seq<TypeInfo>, lit: nat)
    requires WellFormed(g) && Indexed(g, types) && ClearTo(g, types, Var(lit))
    requires WellFormed(r) && InNormalForm(r) && lit < WORD
    requires r.maxvar == |r.inputs| + |r.latches| + |r.ands| <= g.maxvar && r.maxvar < Var(lit)
    requires Grown(Retyped(r, types), types') && Var(lit) < |types'|
    ensures Indexed(Import(r, lit), types') <==> forall v: nat :: r.maxvar < v <= Var(lit) ==> !Defined(g, 2 * v)
  {
    var q := Retyped(r, types);
    ClearAfterReencode(g, types, r, Var(lit));
    if ClearTo(r, q, Var(lit)) {
      CoversAfterReencode(g, types, r);
      ImportKeeps(r, q, types', lit);
    } else {
      hide WellFormed, Defined, InNormalForm;
      var v: nat :| r.maxvar < v <= Var(lit) && !Unused(q, v);
      StaleEntry(r, Import(r, lit), types'[v], v);
    }
  }

  lemma CoversAfterReencode(g: Graph, types: seq<TypeInfo>, r: Graph)
    requires WellFormed(g) && Indexed(g, types) && InNormalForm(r)
    requires r.maxvar == |r.inputs| + |r.latches| + |r.ands| <= g.maxvar
    ensures Indexed(r, Retyped(r, types))
  {
    if types == [] {
      EmptyTables(r);
    } else {
      Lookup(g, types, 0);
      DefinedOnce(g, 0);
      RetypedIndexed(r, types);
    }
  }

  lemma EmptyTables(r: Graph)
    requires r.maxvar == |r.inputs| + |r.latches| + |r.ands| == 0
    ensures Indexed(r, [])
  {
  }

  /** An entry in use beyond the old maxvar points nowhere. */
  lemma StaleEntry(r: Graph, h: Graph, t: TypeInfo, v: nat)
    requires WellFormed(r) && r.maxvar < v && (t.input || t.latch || t.and)
    requires h.inputs == r.inputs && h.latches == r.latches && h.ands == r.ands
    ensures !EntryOk(h, t, v)
  {
    assert t.idx < |r.inputs| ==> DefiningLit(r, r.inputs[t.idx]);
    assert t.idx < |r.latches| ==> DefiningLit(r, r.latches[t.idx].lit);
    assert t.idx < |r.ands| ==> DefiningLit(r, r.ands[t.idx].lhs);
  }

  /** A checked graph with an unused gate, and its index. */
  const UNUSEDGATE := Graph(2, [4], [], [4], [], [], [], [], [And(2, 4, 4)])

  const UNUSEDINDEX := [CLEAR, TypeInfo(false, false, true, false, false, 0), TypeInfo(true, false, false, false, false, 0)]

  lemma UnusedGateFacts()
    ensures InputAt(UNUSEDGATE, 2) == 0 && IsInputVar(UNUSEDGATE, 2) && !IsAndVar(UNUSEDGATE, 2)
    ensures forall v: nat :: IsAndVar(UNUSEDGATE, v) <==> v == 1
    ensures !InNormalForm(UNUSEDGATE)
  {
    var g := UNUSEDGATE;
    assert g.inputs[0] == 4 && AndLits(g.ands)[0] == 2;
    assert AndAt(g, 1) == 0;
  }

  lemma UnusedGateWellFormed()
    ensures WellFormed(UNUSEDGATE)
  {
  }

  lemma UnusedGateChecked()
    ensures Checked(UNUSEDGATE)
  {
    var g := UNUSEDGATE;
    hide WellFormed, DefiningLit;
    UnusedGateFacts();
    UnusedGateWellFormed();
    assert Defined(g, 4);
    assert EverythingDefined(g);
    var adj := Gates(g, false);
    assert Topological<nat>(adj, [1]);
    TopologicalAcyclic<nat>(adj, [1]);
  }

  lemma UnusedGateConsistent()
    ensures Consistent(UNUSEDGATE, UNUSEDINDEX) && Clean(UNUSEDGATE, UNUSEDINDEX)
  {
    hide WellFormed, Settled;
    var g, types := UNUSEDGATE, UNUSEDINDEX;
    UnusedGateWellFormed();
    assert forall v :: 0 <= v < |types| ==> EntryOk(g, types[v], v);
    ClearSettled(g, types);
  }

  lemma UnusedGateDropped()
    ensures Reencoded(UNUSEDGATE) == Graph(1, [2], [], [2], [], [], [], [], [])
  {
    hide WellFormed;
    var g := UNUSEDGATE;
    UnusedGateFacts();
    assert Roots(g) == [4];
    assert [4][..0] == [];
    assert KeptOrder(g) == [];
    assert CodeLit(g, [], 4) == 2;
  }

  /** Reencoding drops the gate and renumbers the input; importing variable 2 again revives its old entry. */
  lemma StaleInstance()
    ensures Consistent(UNUSEDGATE, UNUSEDINDEX) && Clean(UNUSEDGATE, UNUSEDINDEX) && Checked(UNUSEDGATE)
    ensures Reencoded(UNUSEDGATE) == Graph(1, [2], [], [2], [], [], [], [], [])
    ensures !Indexed(Import(Reencoded(UNUSEDGATE), 4), Retyped(Reencoded(UNUSEDGATE), UNUSEDINDEX))
  {
    hide Checked, Reencoded, Indexed, Defined, WellFormed, Retyped, NoneOpen, MarksDefined, Settled, InNormalForm;
    UnusedGateChecked();
    UnusedGateConsistent();
    UnusedGateDropped();
    UnusedGateInput();
    InputAlone();
    var r := Reencoded(UNUSEDGATE);
    CleanClears(UNUSEDGATE, UNUSEDINDEX, 2);
    StaleIndex(UNUSEDGATE, UNUSEDINDEX, r, Retyped(r, UNUSEDINDEX), 4);
  }

  lemma UnusedGateInput()
    ensures Defined(UNUSEDGATE, 2 * 2)
  {
    UnusedGateFacts();
  }

  lemma InputAlone()
    ensures var r := Graph(1, [2], [], [2], [], [], [], [], []); WellFormed(r) && InNormalForm(r)
  {
  }

  // ---------------------------------------------------------------------------
  // Lists of roots
  // ---------------------------------------------------------------------------

  ghost predicate AllCoded(g: Graph, order: seq<nat>, lits: seq<nat>) {
    forall l :: l in lits ==> Coded(g, order, l)
  }

  lemma AfterNone(adj: Adj<nat>, order: seq<nat>)
    ensures After(adj, [], order) == order
  {
  }

  /** One more literal of a list. */
  lemma AfterOne(adj: Adj<nat>, lits: seq<nat>, i: nat, order: seq<nat>)
    requires i < |lits|
    ensures After(adj, lits[..i + 1], order) == Next(adj, Var(lits[i]), After(adj, lits[..i], order))
  {
    assert lits[..i + 1][..i] == lits[..i];
  }

  /** Codes of a list stay the same while the order grows. */
  lemma CodesStable(g: Graph, order: seq<nat>, order': seq<nat>, lits: seq<nat>)
    requires order <= order' && Distinct(order') && AllCoded(g, order, lits)
    ensures AllCoded(g, order', lits) && CodeAll(g, order', lits) == CodeAll(g, order, lits)
  {
    forall i | 0 <= i < |lits|
      ensures Coded(g, order', lits[i]) && CodeLit(g, order', lits[i]) == CodeLit(g, order, lits[i])
    {
      CodeStable(g, order, order', lits[i]);
    }
  }

  lemma AfterGrows(g: Graph, lits: seq<nat>, order: seq<nat>)
    requires Checked(g) && Topological<nat>(Gates(g, true), order)
    ensures order <= After(Gates(g, true), lits, order)
    ensures Topological<nat>(Gates(g, true), After(Gates(g, true), lits, order))
    ensures Distinct(After(Gates(g, true), lits, order))
  {
    hide WellFormed, EverythingDefined, Gates;
    SortingKeepsCycles(g);
    AfterExtends(Gates(g, true), lits, order);
  }

  lemma NextGrows(g: Graph, v: nat, order: seq<nat>)
    requires Checked(g) && Topological<nat>(Gates(g, true), order)
    ensures order <= Next(Gates(g, true), v, order)
    ensures Topological<nat>(Gates(g, true), Next(Gates(g, true), v, order))
    ensures Distinct(Next(Gates(g, true), v, order))
  {
    hide WellFormed, EverythingDefined, Gates;
    SortingKeepsCycles(g);
    NextExtends(Gates(g, true), v, order);
  }

  /** Extending the codes of a prefix by one literal. */
  lemma CodesGrow(g: Graph, order: seq<nat>, order': seq<nat>, lits: seq<nat>, i: nat)
    requires i < |lits| && order <= order' && Distinct(order') && AllCoded(g, order, lits[..i]) && Coded(g, order', lits[i])
    ensures AllCoded(g, order', lits[..i + 1])
    ensures CodeAll(g, order', lits[..i + 1]) == CodeAll(g, order, lits[..i]) + [CodeLit(g, order', lits[i])]
  {
    CodesStable(g, order, order', lits[..i]);
    assert lits[..i + 1] == lits[..i] + [lits[i]];
  }

  lemma NextLatch(adj: Adj<nat>, latches: seq<Latch>, i: nat, order: seq<nat>)
    requires i < |latches|
    ensures After(adj, LatchRoots(latches[..i + 1]), order) ==
      Next(adj, Var(latches[i].reset), Next(adj, Var(latches[i].next), After(adj, LatchRoots(latches[..i]), order)))
  {
    var r, x, y := LatchRoots(latches[..i]), latches[i].next, latches[i].reset;
    assert latches[..i + 1][..i] == latches[..i];
    assert LatchRoots(latches[..i + 1]) == r + [x, y];
    assert (r + [x, y])[..|r| + 1] == r + [x];
    assert (r + [x])[..|r|] == r;
  }

  lemma NextRow(adj: Adj<nat>, rows: seq<seq<nat>>, i: nat, order: seq<nat>)
    requires i < |rows|
    ensures After(adj, Flatten(rows[..i + 1]), order) == After(adj, rows[i], After(adj, Flatten(rows[..i]), order))
  {
    assert rows[..i + 1][..i] == rows[..i];
    AfterConcat(adj, Flatten(rows[..i]), rows[i], order);
  }

  /** The latches with the references of the first i replaced by codes. */
  ghost function LatchesSoFar(g: Graph, order: seq<nat>, i: nat): (r: seq<Latch>)
    ensures |r| == |g.latches|
    ensures forall k :: 0 <= k < |r| ==>
      r[k] == (
        if k < i then g.latches[k].(next := CodeLit(g, order, g.latches[k].next), reset := CodeLit(g, order, g.latches[k].reset))
        else g.latches[k])
  {
    seq(|g.latches|, k requires 0 <= k < |g.latches| =>
      if k < i then g.latches[k].(next := CodeLit(g, order, g.latches[k].next), reset := CodeLit(g, order, g.latches[k].reset))
      else g.latches[k])
  }

  ghost predicate LatchesCoded(g: Graph, order: seq<nat>, i: nat)
    requires i <= |g.latches|
  {
    forall k :: 0 <= k < i ==> Coded(g, order, g.latches[k].next) && Coded(g, order, g.latches[k].reset)
  }

  lemma LatchesStable(g: Graph, order: seq<nat>, order': seq<nat>, i: nat)
    requires i <= |g.latches| && order <= order' && Distinct(order') && LatchesCoded(g, order, i)
    ensures LatchesCoded(g, order', i) && LatchesSoFar(g, order', i) == LatchesSoFar(g, order, i)
  {
    forall k | 0 <= k < i
      ensures Coded(g, order', g.latches[k].next) && CodeLit(g, order', g.latches[k].next) == CodeLit(g, order, g.latches[k].next)
      ensures Coded(g, order', g.latches[k].reset) && CodeLit(g, order', g.latches[k].reset) == CodeLit(g, order, g.latches[k].reset)
    {
      CodeStable(g, order, order', g.latches[k].next);
      CodeStable(g, order, order', g.latches[k].reset);
    }
  }

  /** One more latch recoded. */
  lemma LatchesGrow(g: Graph, o: seq<nat>, o1: seq<nat>, o2: seq<nat>, i: nat)
    requires i < |g.latches| && LatchesCoded(g, o, i)
    requires o <= o1 <= o2 && Distinct(o1) && Distinct(o2)
    requires Coded(g, o1, g.latches[i].next) && Coded(g, o2, g.latches[i].reset)
    ensures LatchesCoded(g, o2, i + 1)
    ensures LatchesSoFar(g, o2, i + 1) ==
      LatchesSoFar(g, o, i)[i := g.latches[i].(next := CodeLit(g, o1, g.latches[i].next), reset := CodeLit(g, o2, g.latches[i].reset))]
  {
    LatchesStable(g, o, o2, i);
    CodeStable(g, o1, o2, g.latches[i].next);
  }

  ghost predicate RowsCoded(g: Graph, order: seq<nat>, rows: seq<seq<nat>>) {
    forall i :: 0 <= i < |rows| ==> AllCoded(g, order, rows[i])
  }

  lemma RowsStable(g: Graph, order: seq<nat>, order': seq<nat>, rows: seq<seq<nat>>)
    requires order <= order' && Distinct(order') && RowsCoded(g, order, rows)
    ensures RowsCoded(g, order', rows) && CodeRows(g, order', rows) == CodeRows(g, order, rows)
  {
    forall i | 0 <= i < |rows|
      ensures AllCoded(g, order', rows[i]) && CodeAll(g, order', rows[i]) == CodeAll(g, order, rows[i])
    {
      CodesStable(g, order, order', rows[i]);
    }
  }

  lemma RowsGrow(g: Graph, order: seq<nat>, order': seq<nat>, rows: seq<seq<nat>>, i: nat)
    requires i < |rows| && order <= order' && Distinct(order') && RowsCoded(g, order, rows[..i]) && AllCoded(g, order', rows[i])
    ensures RowsCoded(g, order', rows[..i + 1])
    ensures CodeRows(g, order', rows[..i + 1]) == CodeRows(g, order, rows[..i]) + [CodeAll(g, order', rows[i])]
  {
    RowsStable(g, order, order', rows[..i]);
    assert rows[..i + 1] == rows[..i] + [rows[i]];
  }

  // ---------------------------------------------------------------------------
  // The initial table
  // ---------------------------------------------------------------------------

  /** The table after the first i inputs and the first j latches got their codes. */
  ghost predicate Seeded(code: seq<nat>, g: Graph, i: nat, j: nat) {
    && |code| == 2 * (g.maxvar + 1)
    && forall l :: 0 <= l < |code| ==> code[l] == SeedCode(g, i, j, l)
  }

  ghost function SeedCode(g: Graph, i: nat, j: nat, l: nat): nat {
    if l < 2 then l
    else if InputAt(g, Var(l)) < i then 2 * (1 + InputAt(g, Var(l))) + l % 2
    else if LatchAt(g, Var(l)) < j then 2 * (1 + |g.inputs| + LatchAt(g, Var(l))) + l % 2
    else 0
  }

  lemma SeedInput(code: seq<nat>, g: Graph, i: nat)
    requires WellFormed(g) && i < |g.inputs| && Seeded(code, g, i, 0)
    ensures 2 * Var(g.inputs[i]) + 1 < |code| && g.inputs[i] == 2 * Var(g.inputs[i]) >= 2
    ensures Seeded(WithCode(code, Var(g.inputs[i]), 2 * (1 + i)), g, i + 1, 0)
  {
    var v := Var(g.inputs[i]);
    InputPosition(g, i);
    DefinedOnce(g, v);
    var c := WithCode(code, v, 2 * (1 + i));
  }

  lemma SeedLatch(code: seq<nat>, g: Graph, j: nat)
    requires WellFormed(g) && j < |g.latches| && Seeded(code, g, |g.inputs|, j)
    ensures 2 * Var(g.latches[j].lit) + 1 < |code| && g.latches[j].lit == 2 * Var(g.latches[j].lit) >= 2
    ensures Seeded(WithCode(code, Var(g.latches[j].lit), 2 * (1 + |g.inputs| + j)), g, |g.inputs|, j + 1)
  {
    var v := Var(g.latches[j].lit);
    LatchPosition(g, j);
    DefinedOnce(g, v);
    var c := WithCode(code, v, 2 * (1 + |g.inputs| + j));
  }

  lemma SeededTable(code: seq<nat>, g: Graph)
    requires WellFormed(g) && Seeded(code, g, |g.inputs|, |g.latches|)
    ensures Table(code, g, []) && Fresh(g, []) == 2 * (1 + |g.inputs| + |g.latches|)
  {
    forall l | 0 <= l < |code| ensures code[l] == CodeLit(g, [], l) {
      DefinedOnce(g, Var(l));
    }
  }

  lemma SeededNone(code: seq<nat>, g: Graph)
    requires WellFormed(g) && |code| == 2 * (g.maxvar + 1) && code[1] == 1
    requires forall l :: 0 <= l < |code| && l != 1 ==> code[l] == 0
    ensures Seeded(code, g, 0, 0)
  {
  }

  lemma NoLatches(g: Graph)
    ensures LatchesCoded(g, [], 0) && LatchesSoFar(g, [], 0) == g.latches && LatchRoots(g.latches[..0]) == []
  {
  }

  /** The searches of one latch extend the order step by step. */
  lemma LatchOrder(g: Graph, i: nat, o: seq<nat>)
    requires Checked(g) && i < |g.latches| && o == After(Gates(g, true), LatchRoots(g.latches[..i]), [])
    ensures Topological<nat>(Gates(g, true), o)
    ensures Defined(g, g.latches[i].next) && Var(g.latches[i].next) <= g.maxvar
    ensures Defined(g, g.latches[i].reset) && Var(g.latches[i].reset) <= g.maxvar
    ensures var o1 := Next(Gates(g, true), Var(g.latches[i].next), o);
      var o2 := Next(Gates(g, true), Var(g.latches[i].reset), o1);
      && o <= o1 <= o2 && Distinct(o1) && Distinct(o2) && Topological<nat>(Gates(g, true), o1)
  {
    hide EverythingDefined, Gates, Next, After;
    AfterGrows(g, LatchRoots(g.latches[..i]), []);
    NextGrows(g, Var(g.latches[i].next), o);
    NextGrows(g, Var(g.latches[i].reset), Next(Gates(g, true), Var(g.latches[i].next), o));
    LatchRefs(g, i);
  }

  lemma LatchRefs(g: Graph, i: nat)
    requires Checked(g) && i < |g.latches|
    ensures Defined(g, g.latches[i].next) && Var(g.latches[i].next) <= g.maxvar
    ensures Defined(g, g.latches[i].reset) && Var(g.latches[i].reset) <= g.maxvar
  {
    LatchPosition(g, i);
    assert DefiningLit(g, g.latches[i].lit);
  }

  lemma RowOrder(g: Graph, i: nat, order: seq<nat>, o: seq<nat>)
    requires Checked(g) && i < |g.justice| && Topological<nat>(Gates(g, true), order)
    requires o == After(Gates(g, true), Flatten(g.justice[..i]), order)
    ensures Topological<nat>(Gates(g, true), o)
    ensures AllDefined(g, g.justice[i]) && InRange(g, g.justice[i])
    ensures var o1 := After(Gates(g, true), g.justice[i], o); o <= o1 && Distinct(o1)
  {
    hide Gates, After;
    AfterGrows(g, Flatten(g.justice[..i]), order);
    AfterGrows(g, g.justice[i], o);
  }

  // ---------------------------------------------------------------------------
  // Putting the stages together
  // ---------------------------------------------------------------------------

  /** The order after each group of roots. */
  ghost function Order1(g: Graph): seq<nat> { After(Gates(g, true), LatchRoots(g.latches), []) }

  ghost function Order2(g: Graph): seq<nat> { After(Gates(g, true), g.outputs, Order1(g)) }

  ghost function Order3(g: Graph): seq<nat> { After(Gates(g, true), g.bad, Order2(g)) }

  ghost function Order4(g: Graph): seq<nat> { After(Gates(g, true), g.constraints, Order3(g)) }

  ghost function Order5(g: Graph): seq<nat> { After(Gates(g, true), Flatten(g.justice), Order4(g)) }

  ghost function Order6(g: Graph): seq<nat> { After(Gates(g, true), g.fairness, Order5(g)) }

  lemma StagesMakeOrder(g: Graph)
    ensures Order6(g) == KeptOrder(g)
  {
    var adj, a := Gates(g, true), LatchRoots(g.latches);
    AfterConcat(adj, a, g.outputs, []);
    AfterConcat(adj, a + g.outputs, g.bad, []);
    AfterConcat(adj, a + g.outputs + g.bad, g.constraints, []);
    AfterConcat(adj, a + g.outputs + g.bad + g.constraints, Flatten(g.justice), []);
    AfterConcat(adj, a + g.outputs + g.bad + g.constraints + Flatten(g.justice), g.fairness, []);
  }

  lemma StagesGrow(g: Graph)
    requires Checked(g)
    ensures Order1(g) <= Order2(g) <= Order3(g) <= Order4(g) <= Order5(g) <= Order6(g)
    ensures Distinct(Order6(g))
    ensures Topological<nat>(Gates(g, true), Order1(g)) && Topological<nat>(Gates(g, true), Order2(g))
    ensures Topological<nat>(Gates(g, true), Order3(g)) && Topological<nat>(Gates(g, true), Order4(g))
    ensures Topological<nat>(Gates(g, true), Order5(g))
  {
    hide Checked, Gates, After;
    AfterGrows(g, LatchRoots(g.latches), []);
    AfterGrows(g, g.outputs, Order1(g));
    AfterGrows(g, g.bad, Order2(g));
    AfterGrows(g, g.constraints, Order3(g));
    AfterGrows(g, Flatten(g.justice), Order4(g));
    AfterGrows(g, g.fairness, Order5(g));
  }

  /** The tables with every reference recoded, before inputs, latches and gates are renumbered. */
  ghost function RootsRewritten(g: Graph): Graph {
    Graph(
      g.maxvar,
      g.inputs,
      LatchesSoFar(g, KeptOrder(g), |g.latches|),
      CodeAll(g, KeptOrder(g), g.outputs),
      CodeAll(g, KeptOrder(g), g.bad),
      CodeAll(g, KeptOrder(g), g.constraints),
      CodeRows(g, KeptOrder(g), g.justice),
      CodeAll(g, KeptOrder(g), g.fairness),
      g.ands)
  }

  lemma StagesRewrite(g: Graph)
    requires Checked(g)
    requires LatchesCoded(g, Order1(g), |g.latches|) && AllCoded(g, Order2(g), g.outputs) && AllCoded(g, Order3(g), g.bad)
    requires AllCoded(g, Order4(g), g.constraints) && RowsCoded(g, Order5(g), g.justice) && AllCoded(g, Order6(g), g.fairness)
    ensures RootsRewritten(g) == Graph(
      g.maxvar,
      g.inputs,
      LatchesSoFar(g, Order1(g), |g.latches|),
      CodeAll(g, Order2(g), g.outputs),
      CodeAll(g, Order3(g), g.bad),
      CodeAll(g, Order4(g), g.constraints),
      CodeRows(g, Order5(g), g.justice),
      CodeAll(g, Order6(g), g.fairness),
      g.ands)
  {
    hide Checked, Gates, After, CodeLit, Coded, Order1, Order2, Order3, Order4, Order5, Order6, KeptOrder;
    StagesMakeOrder(g);
    StagesGrow(g);
    LatchesStable(g, Order1(g), Order6(g), |g.latches|);
    CodesStable(g, Order2(g), Order6(g), g.outputs);
    CodesStable(g, Order3(g), Order6(g), g.bad);
    CodesStable(g, Order4(g), Order6(g), g.constraints);
    RowsStable(g, Order5(g), Order6(g), g.justice);
  }

  /** One more gate of the compaction. */
  lemma CompactNext(g: Graph, order: seq<nat>, i: nat)
    requires i < |g.ands|
    ensures Compact(g, order, g.ands[..i + 1]) ==
      (if CodeLit(g, order, g.ands[i].lhs) == 0 then Compact(g, order, g.ands[..i])
       else Compact(g, order, g.ands[..i]) + [CodeGate(g, order, g.ands[i])])
  {
    assert g.ands[..i + 1][..i] == g.ands[..i];
  }

  lemma GateLits(g: Graph, code: seq<nat>, order: seq<nat>, i: nat)
    requires WellFormed(g) && Table(code, g, order) && i < |g.ands|
    ensures g.ands[i].lhs < |code| && g.ands[i].rhs0 < |code| && g.ands[i].rhs1 < |code|
    ensures code[g.ands[i].lhs] == CodeLit(g, order, g.ands[i].lhs)
    ensures code[g.ands[i].rhs0] == CodeLit(g, order, g.ands[i].rhs0)
    ensures code[g.ands[i].rhs1] == CodeLit(g, order, g.ands[i].rhs1)
  {
    assert DefiningLit(g, g.ands[i].lhs);
  }

  /** The codes of inputs and latches are their new literals. */
  lemma TableInputs(g: Graph, code: seq<nat>, order: seq<nat>, i: nat)
    requires WellFormed(g) && Table(code, g, order) && i < |g.inputs|
    ensures g.inputs[i] < |code| && code[g.inputs[i]] == 2 * (1 + i)
  {
    InputPosition(g, i);
    assert DefiningLit(g, g.inputs[i]);
  }

  lemma TableLatches(g: Graph, code: seq<nat>, order: seq<nat>, i: nat)
    requires WellFormed(g) && Table(code, g, order) && i < |g.latches|
    ensures g.latches[i].lit < |code| && code[g.latches[i].lit] == 2 * (1 + |g.inputs| + i)
  {
    LatchPosition(g, i);
    DefinedOnce(g, Var(g.latches[i].lit));
    assert DefiningLit(g, g.latches[i].lit);
  }

  /** The index while it is rebuilt: cleared, then the first a gates, i inputs and l latches entered. */
  function Partly(r: Graph, t: TypeInfo, v: nat, a: nat, i: nat, l: nat): TypeInfo {
    var c := t.(input := false, latch := false, and := false, idx := 0);
    var b := |r.inputs| + |r.latches|;
    if v == 0 || v > r.maxvar then t
    else if v <= |r.inputs| then if v <= i then c.(input := true, idx := v - 1) else c
    else if v <= b then if v <= |r.inputs| + l then c.(latch := true, idx := v - 1 - |r.inputs|) else c
    else if v <= b + a then c.(and := true, idx := v - 1 - b) else c
  }

  ghost predicate PartlyTyped(r: Graph, types0: seq<TypeInfo>, types: seq<TypeInfo>, a: nat, i: nat, l: nat) {
    |types| == |types0| && forall v :: 0 <= v < |types| ==> types[v] == Partly(r, types0[v], v, a, i, l)
  }

  lemma FullyTyped(r: Graph, types0: seq<TypeInfo>, types: seq<TypeInfo>)
    requires PartlyTyped(r, types0, types, |r.ands|, |r.inputs|, |r.latches|)
    requires r.maxvar == |r.inputs| + |r.latches| + |r.ands|
    ensures types == Retyped(r, types0)
  {
  }

  lemma CompactNone(g: Graph, order: seq<nat>)
    ensures Compact(g, order, []) == [] && Compact(g, order, g.ands[..0]) == []
  {
  }

  lemma RootRanges(g: Graph)
    requires Checked(g)
    ensures InRange(g, g.outputs) && InRange(g, g.bad) && InRange(g, g.constraints) && InRange(g, g.fairness)
    ensures AllDefined(g, g.outputs) && AllDefined(g, g.bad) && AllDefined(g, g.constraints) && AllDefined(g, g.fairness)
  {
  }

  /** The largest defining literal of inputs and latches that are already numbered in order. */
  lemma TopDefined(g: Graph, m: nat)
    requires forall i :: 0 <= i < |g.inputs| ==> g.inputs[i] == 2 * (1 + i) && g.inputs[i] <= m
    requires forall i :: 0 <= i < |g.latches| ==> g.latches[i].lit == 2 * (1 + |g.inputs| + i) && g.latches[i].lit <= m
    requires m == 0 || m in g.inputs || m in LatchLits(g.latches)
    ensures m == 2 * (|g.inputs| + |g.latches|)
  {
    if |g.latches| > 0 {
      assert g.latches[|g.latches| - 1].lit <= m;
    } else if |g.inputs| > 0 {
      assert g.inputs[|g.inputs| - 1] <= m;
    }
  }

  lemma RewrittenTables(g: Graph)
    ensures RootsRewritten(g).ands == g.ands && RootsRewritten(g).inputs == g.inputs
    ensures LatchLits(RootsRewritten(g).latches) == LatchLits(g.latches)
  {
  }

  /** What reencoding asks for unless it returns early: a code table that can be sized, and gates that sort. */
  ghost predicate Sortable(g: Graph) {
    g.maxvar + 1 < 0x8000_0000 && SortRange(Base(g), |KeptOrder(g)|)
  }

  /** The sort of aiger_reencode brings the kept gates into their order exactly when none of them straddles 2^31. */
  lemma GatesSorted(g: Graph)
    requires Checked(g)
    ensures QSort(Compact(g, KeptOrder(g), g.ands)) == Some(Renumbered(g).ands) <==> SortRange(Base(g), |KeptOrder(g)|)
    ensures Renumbered(g).ands == CodeGates(g, KeptOrder(g))
  {
    hide WellFormed, EverythingDefined, Compact, KeptOrder, GoodOrder, Topological, SortRange, QSort;
    RootsCoded(g);
    SortExact(g, KeptOrder(g));
  }

  /** Half a word of inputs and two gates, listed against their order: the first has literal 2^31. */
  function Straddling(): Graph {
    var n := 0x3FFF_FFFE;
    Graph(n + 2, FirstLits(n), [], [2 * n + 4], [], [], [], [], [And(2 * n + 4, 2 * n + 2, 2 * n + 2), And(2 * n + 2, 2, 2)])
  }

  lemma StraddlingGates()
    ensures var g, v := Straddling(), 0x3FFF_FFFF;
      && AndAt(g, v) == 1 && AndAt(g, v + 1) == 0 && InputAt(g, 1) < |g.inputs|
      && forall u: nat :: IsAndVar(g, u) <==> u == v || u == v + 1
  {
    var g := Straddling();
    assert g.inputs[0] == 2;
    assert AndLits(g.ands)[0] == 0x8000_0000 && AndLits(g.ands)[1] == 0x7FFF_FFFE;
  }

  lemma StraddlingWellFormed()
    ensures WellFormed(Straddling()) && !InNormalForm(Straddling())
  {
    var g := Straddling();
    assert g.ands[0].lhs != 2 * Base(g);
    assert Distinct(AndLits(g.ands)) && Distinct(LatchLits(g.latches)) && Distinct(g.inputs);
    hide Distinct, AndLits, LatchLits, Base;
  }

  lemma StraddlingEdges()
    ensures var g, v := Straddling(), 0x3FFF_FFFF;
      && Edge<nat>(Gates(g, true), v + 1, v)
      && forall u: nat, w: nat :: Edge<nat>(Gates(g, false), u, w) ==> w < u
  {
    hide WellFormed;
    StraddlingGates();
  }

  lemma StraddlingDefined()
    ensures EverythingDefined(Straddling())
  {
    hide InputAt, AndAt;
    var g, v := Straddling(), 0x3FFF_FFFF;
    StraddlingGates();
    assert Defined(g, 2) && Defined(g, 2 * v) && Defined(g, 2 * (v + 1));
  }

  lemma StraddlingChecked()
    ensures Checked(Straddling())
  {
    hide WellFormed, EverythingDefined, Straddling, Gates, Edge, Cyclic;
    StraddlingWellFormed();
    StraddlingDefined();
    StraddlingEdges();
    DescendingAcyclic(Gates(Straddling(), false));
  }

  lemma StraddlingKept()
    ensures |KeptOrder(Straddling())| >= 2
  {
    hide WellFormed, EverythingDefined, KeptOrder, Edge, Reach, ReachPlus, InputAt, AndAt, Cyclic, FirstLits;
    var g, v := Straddling(), 0x3FFF_FFFF;
    var adj := Gates(g, true);
    StraddlingChecked();
    StraddlingGates();
    StraddlingEdges();
    KeptExact(g);
    var l := 2 * v + 2;
    assert Roots(g) == [l];
    assert Var(l) == v + 1 && v in adj && v + 1 in adj;
    ReachSelf(adj, Var(l));
    EdgeReaches(adj, Var(l), v);
    assert v + 1 in KeptOrder(g) && v in KeptOrder(g);
  }

  /** A checked graph whose kept gates are not sorted, since they straddle 2^31. */
  lemma SortInstance()
    ensures var g := Straddling();
      && Checked(g) && !InNormalForm(g) && !SortRange(Base(g), |KeptOrder(g)|)
      && QSort(Compact(g, KeptOrder(g), g.ands)) != Some(Renumbered(g).ands)
  {
    hide Checked, KeptOrder, QSort, Compact, Renumbered, WellFormed;
    StraddlingChecked();
    StraddlingWellFormed();
    StraddlingKept();
    GatesSorted(Straddling());
  }

  lemma RenumberedShape(g: Graph, types: seq<TypeInfo>)
    requires Checked(g) && Indexed(g, types) && !InNormalForm(g)
    ensures var r := Renumbered(g);
      && Checked(r) && InNormalForm(r) && |r.inputs| == |g.inputs| && |r.latches| == |g.latches|
      && r.maxvar == |r.inputs| + |r.latches| + |r.ands| == Var(Fresh(g, KeptOrder(g)) - 1) < |types|
      && r.ands == CodeGates(g, KeptOrder(g))
    ensures Fresh(g, KeptOrder(g)) > 0
    ensures !types[0].input && !types[0].latch && !types[0].and
  {
    hide WellFormed, EverythingDefined, KeptOrder, InNormalForm;
    ReencodeNormalizes(g);
    IndexNonEmpty(g, types);
  }

  lemma IndexNonEmpty(g: Graph, types: seq<TypeInfo>)
    requires WellFormed(g) && Indexed(g, types) && !InNormalForm(g)
    ensures g.maxvar < |types| && !types[0].input && !types[0].latch && !types[0].and
  {
    Lookup(g, types, 0);
    DefinedOnce(g, 0);
  }

  lemma RebuiltIsRenumbered(g: Graph, h: Graph)
    requires |h.latches| == |g.latches|
    requires h == RootsRewritten(g).(maxvar := Renumbered(g).maxvar, inputs := Renumbered(g).inputs, latches := h.latches, ands := CodeGates(g, KeptOrder(g)))
    requires forall i :: 0 <= i < |g.latches| ==>
      h.latches[i] == RootsRewritten(g).latches[i].(lit := 2 * (1 + |g.inputs| + i))
    ensures h == Renumbered(g)
  {
  }

  lemma CheckedParts(g: Graph)
    requires Checked(g)
    ensures WellFormed(g) && RhsDefined(g)
  {
  }

  lemma RenumberedInputs(g: Graph)
    ensures Renumbered(g).inputs == CodeInputs(g)
  {
  }

  /** Writing at or before the reading position of a compaction. */
  lemma InPlace(s: seq<And>, j: nat, i: nat, x: And)
    requires j <= i < |s|
    ensures s[j := x][..j + 1] == s[..j] + [x]
    ensures s[j := x][i + 1..] == s[i + 1..]
  {
  }
}
