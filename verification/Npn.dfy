/**
 NPN transformations of circuits: input negation, input permutation and output
 negation (src/util/kitty_utils.cpp, src/util/npn_transformation.cpp).
 */
module Npn {
  import opened Bits

  /** One mask bit per input and one more for the output; the permutation lists old inputs. */
  datatype Transformation = Transformation(negationMask: nat, permutation: seq<nat>)

  datatype Link = Link(idx: nat, inv: bool)

  datatype Kind = In | Out | Gate(op: nat)

  datatype Cell = Cell(kind: Kind, links: seq<Link>)

  /** Cells in the order in which a builder appended them. */
  type Circuit = seq<Cell>

  predicate IsPermutation(p: seq<nat>) {
    && (forall i :: 0 <= i < |p| ==> p[i] < |p|)
    && (forall i, j :: 0 <= i < j < |p| ==> p[i] != p[j])
  }

  /** The inputs come first; links lead back to inputs and gates; outputs have one link. */
  predicate WellFormed(c: Circuit, n: nat) {
    n <= |c| && forall i :: 0 <= i < |c| ==> CellOk(c, n, i)
  }

  predicate CellOk(c: Circuit, n: nat, i: nat)
    requires i < |c|
  {
    && (c[i].kind == In <==> i < n)
    && (c[i].kind == Out ==> |c[i].links| == 1)
    && (i < n ==> c[i].links == [])
    && forall k :: 0 <= k < |c[i].links| ==> LinkOk(c, i, c[i].links[k])
  }

  lemma CellAt(c: Circuit, n: nat, i: nat)
    requires WellFormed(c, n) && i < |c|
    ensures n <= |c| && CellOk(c, n, i)
  {
  }

  predicate LinkOk(c: Circuit, i: nat, l: Link) {
    l.idx < i && l.idx < |c| && c[l.idx].kind != Out
  }

  // ---------------------------------------------------------------------------
  // Meaning
  // ---------------------------------------------------------------------------

  /** What the gate types compute. */
  type Library = (nat, seq<bool>) -> bool

  /** The value of cell i when the inputs are x. */
  function Eval(lib: Library, c: Circuit, x: seq<bool>, i: nat): bool
    decreases i, 1
  {
    if i >= |c| then false
    else
      match c[i].kind
      case In => i < |x| && x[i]
      case Out => c[i].links != [] && EvalLinks(lib, c, x, i, c[i].links)[0]
      case Gate(op) => lib(op, EvalLinks(lib, c, x, i, c[i].links))
  }

  /** The values that arrive over the links of cell i. */
  function EvalLinks(lib: Library, c: Circuit, x: seq<bool>, i: nat, links: seq<Link>): (r: seq<bool>)
    ensures |r| == |links|
    decreases i, 0, |links|
  {
    if links == [] then []
    else
      var l := links[|links| - 1];
      var v := l.idx < i && Eval(lib, c, x, l.idx);
      EvalLinks(lib, c, x, i, links[..|links| - 1]) + [v != l.inv]
  }

  // ---------------------------------------------------------------------------
  // The transformation
  // ---------------------------------------------------------------------------

  /** The mask is kept in a uint16_t. */
  predicate Negates(t: Transformation, i: nat) {
    Bit(t.negationMask % 0x1_0000, i)
  }

  /** Some cell links to input i: its reference count is not zero. */
  predicate Referenced(c: Circuit, i: nat) {
    exists k :: 0 <= k < |c| && exists m :: 0 <= m < |c[k].links| && c[k].links[m].idx == i
  }

  /** How many of the inputs at positions j and above are dropped: the first unreferenced ones from above. */
  function Removed(c: Circuit, p: seq<nat>, notUsed: nat, j: nat): (r: nat)
    requires j <= |p|
    ensures r <= notUsed && r <= |p| - j
    decreases |p| - j
  {
    if j == |p| then 0
    else
      var r := Removed(c, p, notUsed, j + 1);
      if Referenced(c, p[j]) || r == notUsed then r else r + 1
  }

  predicate Kept(c: Circuit, p: seq<nat>, notUsed: nat, j: nat)
    requires j < |p|
  {
    Removed(c, p, notUsed, j) == Removed(c, p, notUsed, j + 1)
  }

  function NotUsed(n: nat, nInUsed: nat): nat {
    if n <= nInUsed then 0 else n - nInUsed
  }

  /** The new number of the input at position j; the code keeps it in a uint8_t. */
  function NewInput(c: Circuit, p: seq<nat>, notUsed: nat, j: nat): int
    requires j < |p|
  {
    j + Removed(c, p, notUsed, j + 1) - notUsed
  }

  /** r maps the old inputs at positions i and above to the new ones. */
  predicate RenumbersFrom(c: Circuit, p: seq<nat>, notUsed: nat, r: seq<nat>, i: nat) {
    && |r| == |p|
    && forall j :: i <= j < |p| && p[j] < |r| ==> r[p[j]] == NewInput(c, p, notUsed, j) % 0x100
  }

  predicate Renumbers(c: Circuit, p: seq<nat>, notUsed: nat, r: seq<nat>) {
    RenumbersFrom(c, p, notUsed, r, 0)
  }

  /** A link of the new circuit. */
  function MapLink(t: Transformation, r: seq<nat>, notUsed: nat, isOut: bool, l: Link): Link {
    if l.idx < |r| then
      Link(r[l.idx], (l.inv != Negates(t, l.idx)) != (isOut && Negates(t, |r|)))
    else
      Link(if l.idx >= notUsed then l.idx - notUsed else 0, l.inv != (isOut && Negates(t, |r|)))
  }

  function MapLinks(t: Transformation, r: seq<nat>, notUsed: nat, isOut: bool, links: seq<Link>): (m: seq<Link>)
    ensures |m| == |links|
  {
    if links == [] then []
    else MapLinks(t, r, notUsed, isOut, links[..|links| - 1]) + [MapLink(t, r, notUsed, isOut, links[|links| - 1])]
  }

  function MapCell(t: Transformation, r: seq<nat>, notUsed: nat, cell: Cell): Cell {
    Cell(cell.kind, MapLinks(t, r, notUsed, cell.kind == Out, cell.links))
  }

  function MapCells(t: Transformation, r: seq<nat>, notUsed: nat, cells: Circuit): (m: Circuit)
    ensures |m| == |cells|
    ensures forall i :: 0 <= i < |cells| ==> m[i] == MapCell(t, r, notUsed, cells[i])
  {
    if cells == [] then []
    else MapCells(t, r, notUsed, cells[..|cells| - 1]) + [MapCell(t, r, notUsed, cells[|cells| - 1])]
  }

  /** The kept inputs and the remaining cells. */
  function Transformed(c: Circuit, t: Transformation, r: seq<nat>, notUsed: nat): Circuit
    requires notUsed <= |r| <= |c|
  {
    c[..|r| - notUsed] + MapCells(t, r, notUsed, c[|r|..])
  }

  // ---------------------------------------------------------------------------
  // Renumbering
  // ---------------------------------------------------------------------------

  function Upto(n: nat): (r: set<nat>)
    ensures |r| == n && forall i: nat :: i in r <==> i < n
  {
    if n == 0 then {} else Upto(n - 1) + {n - 1}
  }

  /** Every input occurs in the permutation. */
  lemma {:induction false} PermutationHits(p: seq<nat>, v: nat)
    requires IsPermutation(p) && v < |p|
    ensures exists j :: 0 <= j < |p| && p[j] == v
  {
    if v !in p {
      Pigeons(p, Upto(|p|) - {v});
      assert false;
    }
  }

  lemma {:induction false} Pigeons(p: seq<nat>, r: set<nat>)
    requires forall i :: 0 <= i < |p| ==> p[i] in r
    requires forall i, j :: 0 <= i < j < |p| ==> p[i] != p[j]
    ensures |p| <= |r|
  {
    if p != [] {
      var n := |p| - 1;
      Pigeons(p[..n], r - {p[n]});
    }
  }

  /** Positions below j can only be dropped one at a time. */
  lemma {:induction false} RemovedBelow(c: Circuit, p: seq<nat>, notUsed: nat, j: nat)
    requires j <= |p|
    ensures Removed(c, p, notUsed, j) <= Removed(c, p, notUsed, 0) <= Removed(c, p, notUsed, j) + j
    decreases j
  {
    if j > 0 {
      RemovedBelow(c, p, notUsed, j - 1);
    }
  }

  /** A referenced input is kept and gets a number among the new inputs. */
  lemma ReferencedKept(c: Circuit, p: seq<nat>, notUsed: nat, j: nat)
    requires j < |p| && notUsed <= |p| && Removed(c, p, notUsed, 0) == notUsed
    ensures Referenced(c, p[j]) ==> Kept(c, p, notUsed, j)
    ensures Kept(c, p, notUsed, j) ==> 0 <= NewInput(c, p, notUsed, j) < |p| - notUsed
  {
    hide Referenced;
    RemovedBelow(c, p, notUsed, j);
  }

  /** The kept inputs are numbered in the order of their positions. */
  lemma {:induction false} KeptOrdered(c: Circuit, p: seq<nat>, notUsed: nat, i: nat, j: nat)
    requires i < j < |p| && Kept(c, p, notUsed, j)
    ensures NewInput(c, p, notUsed, i) < NewInput(c, p, notUsed, j)
    decreases j - i
  {
    hide Referenced;
    RemovedRange(c, p, notUsed, i + 1, j);
  }

  lemma {:induction false} RemovedRange(c: Circuit, p: seq<nat>, notUsed: nat, i: nat, j: nat)
    requires i <= j <= |p|
    ensures Removed(c, p, notUsed, j) <= Removed(c, p, notUsed, i) <= Removed(c, p, notUsed, j) + (j - i)
    decreases j - i
  {
    hide Referenced;
    if i < j {
      RemovedRange(c, p, notUsed, i + 1, j);
    }
  }

  // ---------------------------------------------------------------------------
  // Which inputs are dropped
  // ---------------------------------------------------------------------------

  /** The positions from j on whose inputs no cell links to. */
  ghost function Idle(c: Circuit, p: seq<nat>, j: nat): set<nat> {
    set k | j <= k < |p| && !Referenced(c, p[k])
  }

  /** An input stays if it is referenced, or if enough others that are not lie above it. */
  ghost predicate Stays(c: Circuit, p: seq<nat>, notUsed: nat, j: nat) {
    j < |p| && (Referenced(c, p[j]) || |Idle(c, p, j + 1)| >= notUsed)
  }

  /** The positions below j whose inputs stay. */
  ghost function StayBelow(c: Circuit, p: seq<nat>, notUsed: nat, j: nat): set<nat> {
    set k | 0 <= k < j && Stays(c, p, notUsed, k)
  }

  lemma {:induction false} RemovedCount(c: Circuit, p: seq<nat>, notUsed: nat, j: nat)
    requires j <= |p|
    ensures Removed(c, p, notUsed, j) == if |Idle(c, p, j)| <= notUsed then |Idle(c, p, j)| else notUsed
    decreases |p| - j
  {
    hide Referenced;
    if j == |p| {
      assert Idle(c, p, j) == {};
    } else {
      RemovedCount(c, p, notUsed, j + 1);
      assert Idle(c, p, j) == Idle(c, p, j + 1) + if Referenced(c, p[j]) then {} else {j};
    }
  }

  /** The dropped inputs are the unreferenced ones at the highest positions. */
  lemma KeptExact(c: Circuit, p: seq<nat>, notUsed: nat, j: nat)
    requires j < |p|
    ensures Kept(c, p, notUsed, j) <==> Stays(c, p, notUsed, j)
  {
    hide Referenced, Idle;
    RemovedCount(c, p, notUsed, j + 1);
  }

  /** Enough inputs can be dropped exactly when enough are not referenced. */
  lemma DroppableExact(c: Circuit, p: seq<nat>, notUsed: nat)
    ensures Removed(c, p, notUsed, 0) == notUsed <==> |Idle(c, p, 0)| >= notUsed
  {
    hide Idle, Removed;
    RemovedCount(c, p, notUsed, 0);
  }

  lemma {:induction false} StayCount(c: Circuit, p: seq<nat>, notUsed: nat, j: nat)
    requires j <= |p|
    ensures |StayBelow(c, p, notUsed, j)| + Removed(c, p, notUsed, 0) == j + Removed(c, p, notUsed, j)
    decreases j
  {
    hide Referenced, Stays;
    if j == 0 {
      assert StayBelow(c, p, notUsed, j) == {};
    } else {
      StayCount(c, p, notUsed, j - 1);
      KeptExact(c, p, notUsed, j - 1);
      var below := StayBelow(c, p, notUsed, j - 1);
      assert StayBelow(c, p, notUsed, j) == below + if Stays(c, p, notUsed, j - 1) then {j - 1} else {};
    }
  }

  /** An input that stays is numbered by how many below it stay. */
  lemma NewInputExact(c: Circuit, p: seq<nat>, notUsed: nat, j: nat)
    requires Removed(c, p, notUsed, 0) == notUsed && Stays(c, p, notUsed, j)
    ensures NewInput(c, p, notUsed, j) == |StayBelow(c, p, notUsed, j)|
  {
    hide Stays, Referenced;
    assert j < |p| by {
      StaysInside(c, p, notUsed, j);
    }
    StayCount(c, p, notUsed, j);
    KeptExact(c, p, notUsed, j);
  }

  lemma StaysInside(c: Circuit, p: seq<nat>, notUsed: nat, j: nat)
    requires Stays(c, p, notUsed, j)
    ensures j < |p|
  {
  }

  // ---------------------------------------------------------------------------
  // The loops
  // ---------------------------------------------------------------------------

  /**
   What npnTransform asks for: a permutation of the inputs, fewer than 32 so that every
   shift of the mask is defined, and enough unreferenced ones to drop.
   */
  predicate Applicable(c: Circuit, t: Transformation, nInUsed: nat) {
    var p := t.permutation;
    && 0 < |p| < 32
    && IsPermutation(p)
    && WellFormed(c, |p|)
    && Removed(c, p, NotUsed(|p|, nInUsed), 0) == NotUsed(|p|, nInUsed)
  }

  /** The loop from the last position down. */
  method Renumber(c: Circuit, p: seq<nat>, notUsed: nat) returns (r: array<nat>)
    requires 0 < |p| && IsPermutation(p) && notUsed <= |p|
    ensures fresh(r) && r.Length == |p| && Renumbers(c, p, notUsed, r[..])
  {
    hide Referenced, RenumbersFrom;
    r := new nat[|p|];
    var inputID := (|p| - notUsed - 1) % 0x100;
    var nRemoved := 0;
    var j: nat := |p|;
    RenumbersNone(c, p, notUsed, r[..]);
    while j > 0
      invariant j <= |p| && nRemoved == Removed(c, p, notUsed, j)
      invariant inputID == (j - 1 + nRemoved - notUsed) % 0x100
      invariant RenumbersFrom(c, p, notUsed, r[..], j)
    {
      j := j - 1;
      RenumbersOne(c, p, notUsed, r[..], j, inputID);
      r[p[j]] := inputID;
      if Referenced(c, p[j]) || nRemoved == notUsed {
        Decremented(j + nRemoved - notUsed);
        inputID := (inputID + 0xFF) % 0x100;
      } else {
        nRemoved := nRemoved + 1;
      }
    }
  }

  lemma RenumbersNone(c: Circuit, p: seq<nat>, notUsed: nat, r: seq<nat>)
    requires |r| == |p|
    ensures RenumbersFrom(c, p, notUsed, r, |p|)
  {
  }

  lemma RenumbersOne(c: Circuit, p: seq<nat>, notUsed: nat, r: seq<nat>, j: nat, v: nat)
    requires IsPermutation(p) && j < |p| && RenumbersFrom(c, p, notUsed, r, j + 1)
    requires v == NewInput(c, p, notUsed, j) % 0x100
    ensures RenumbersFrom(c, p, notUsed, r[p[j] := v], j)
  {
    hide Removed;
  }

  lemma Decremented(x: int)
    ensures (x % 0x100 + 0xFF) % 0x100 == (x - 1) % 0x100
  {
  }

  /** The first i entries, transformed. */
  function Built(c: Circuit, t: Transformation, r: seq<nat>, notUsed: nat, i: nat): Circuit
    requires notUsed <= |r| <= |c| && i <= |c|
  {
    if i <= |r| - notUsed then c[..i]
    else c[..|r| - notUsed] + (if i <= |r| then [] else MapCells(t, r, notUsed, c[|r|..i]))
  }

  lemma MapCellsMore(t: Transformation, r: seq<nat>, notUsed: nat, cells: Circuit, cell: Cell)
    ensures MapCells(t, r, notUsed, cells + [cell]) == MapCells(t, r, notUsed, cells) + [MapCell(t, r, notUsed, cell)]
  {
    hide MapCell;
    assert (cells + [cell])[..|cells|] == cells;
  }

  lemma NoCells(t: Transformation, r: seq<nat>, notUsed: nat)
    ensures MapCells(t, r, notUsed, []) == []
  {
  }

  lemma InputUnchanged(c: Circuit, t: Transformation, r: seq<nat>, notUsed: nat, i: nat)
    requires WellFormed(c, |r|) && i < |r|
    ensures i < |c| && MapCell(t, r, notUsed, c[i]) == c[i]
  {
    CellAt(c, |r|, i);
  }

  lemma BuiltStep(c: Circuit, t: Transformation, r: seq<nat>, notUsed: nat, i: nat)
    requires WellFormed(c, |r|) && notUsed <= |r| && i < |c|
    ensures Built(c, t, r, notUsed, i + 1) == Built(c, t, r, notUsed, i)
            + if |r| - notUsed <= i < |r| then [] else [MapCell(t, r, notUsed, c[i])]
  {
    hide MapLink, MapCell, MapCells, CellOk;
    if i < |r| {
      InputUnchanged(c, t, r, notUsed, i);
      if i < |r| - notUsed {
        assert c[..i + 1] == c[..i] + [c[i]];
      }
    } else {
      assert c[|r|..i + 1] == c[|r|..i] + [c[i]];
      MapCellsMore(t, r, notUsed, c[|r|..i], c[i]);
      if i == |r| {
        assert c[|r|..i] == [];
        NoCells(t, r, notUsed);
      }
    }
  }

  /** The loop over the links of a cell, rewritten in place. */
  method TransformCell(cell: Cell, t: Transformation, r: array<nat>, notUsed: nat) returns (d: Cell)
    requires r.Length == |t.permutation| && notUsed <= r.Length
    ensures d == MapCell(t, r[..], notUsed, cell)
  {
    hide Negates;
    var n := |t.permutation|;
    var links := cell.links;
    var k := 0;
    while k < |links|
      invariant k <= |links| == |cell.links|
      invariant links[..k] == MapLinks(t, r[..], notUsed, cell.kind == Out, cell.links[..k])
      invariant links[k..] == cell.links[k..]
    {
      assert cell.links[..k + 1][..k] == cell.links[..k];
      assert links[k] == links[k..][0] == cell.links[k..][0];
      ghost var before := links;
      var idx, inv := links[k].idx, links[k].inv;
      if idx < n {
        inv := if Negates(t, idx) then !inv else inv;
        idx := r[idx];
      } else {
        idx := idx - notUsed;
      }
      if cell.kind == Out && Negates(t, n) {
        inv := !inv;
      }
      links := links[k := Link(idx, inv)];
      assert links[..k + 1] == before[..k] + [Link(idx, inv)];
      assert links[k + 1..] == before[k..][1..];
      k := k + 1;
    }
    assert links[..k] == links && cell.links[..k] == cell.links;
    d := Cell(cell.kind, links);
  }

  /** d is the transformed circuit, for the renumbering of the inputs. */
  ghost predicate IsResult(c: Circuit, t: Transformation, nInUsed: nat, d: Circuit) {
    exists r :: Renumbers(c, t.permutation, NotUsed(|t.permutation|, nInUsed), r) && d == ResultOf(c, t, nInUsed, r)
  }

  method NpnTransform(c: Circuit, t: Transformation, nInUsed: nat) returns (d: Circuit)
    requires Applicable(c, t, nInUsed)
    ensures IsResult(c, t, nInUsed, d)
  {
    hide Referenced, Negates, Built, WellFormed, MapCell, MapCells, Renumbers;
    var n := |t.permutation|;
    var notUsed := NotUsed(n, nInUsed);
    var rPermutation := Renumber(c, t.permutation, notUsed);
    ghost var r := rPermutation[..];
    d := [];
    var i := 0;
    SizeOf(c, n);
    BuiltEnds(c, t, r, notUsed);
    while i < |c|
      invariant i <= |c| && rPermutation[..] == r
      invariant d == Built(c, t, r, notUsed, i)
    {
      BuiltStep(c, t, r, notUsed, i);
      if i < n && i >= nInUsed {
        i := i + 1;
        continue;
      }
      var cell := TransformCell(c[i], t, rPermutation, notUsed);
      d := d + [cell];
      i := i + 1;
    }
  }

  lemma SizeOf(c: Circuit, n: nat)
    requires WellFormed(c, n)
    ensures n <= |c|
  {
  }

  lemma BuiltEnds(c: Circuit, t: Transformation, r: seq<nat>, notUsed: nat)
    requires notUsed <= |r| <= |c|
    ensures Built(c, t, r, notUsed, 0) == []
    ensures Built(c, t, r, notUsed, |c|) == Transformed(c, t, r, notUsed)
  {
    assert c[|r|..|c|] == c[|r|..];
  }

  // ---------------------------------------------------------------------------
  // Preserved meaning
  // ---------------------------------------------------------------------------

  /** The old inputs x that the new inputs y stand for: each kept one is a new one, negated as told. */
  predicate Matches(c: Circuit, t: Transformation, notUsed: nat, x: seq<bool>, y: seq<bool>) {
    var p := t.permutation;
    && |x| == |p| && |y| == |p| - notUsed
    && forall j :: 0 <= j < |p| && Kept(c, p, notUsed, j) ==> MatchesAt(c, t, notUsed, x, y, j)
  }

  predicate MatchesAt(c: Circuit, t: Transformation, notUsed: nat, x: seq<bool>, y: seq<bool>, j: nat)
    requires j < |t.permutation|
  {
    var v, k := t.permutation[j], NewInput(c, t.permutation, notUsed, j);
    v < |x| && 0 <= k < |y| && x[v] == (y[k] != Negates(t, v))
  }

  /** A transformation of c that was carried out, and inputs that go together. */
  predicate Setting(c: Circuit, t: Transformation, nInUsed: nat, r: seq<nat>, x: seq<bool>, y: seq<bool>) {
    && Applicable(c, t, nInUsed)
    && Renumbers(c, t.permutation, NotUsed(|t.permutation|, nInUsed), r)
    && Matches(c, t, NotUsed(|t.permutation|, nInUsed), x, y)
  }

  /** The result of a carried-out transformation. */
  function ResultOf(c: Circuit, t: Transformation, nInUsed: nat, r: seq<nat>): Circuit {
    var notUsed := NotUsed(|t.permutation|, nInUsed);
    if notUsed <= |r| <= |c| then Transformed(c, t, r, notUsed) else c
  }

  /** An input that some cell links to has its number among the new inputs. */
  lemma InputRenumbered(c: Circuit, t: Transformation, nInUsed: nat, r: seq<nat>, v: nat) returns (j: nat)
    requires Applicable(c, t, nInUsed) && Renumbers(c, t.permutation, NotUsed(|t.permutation|, nInUsed), r)
    requires v < |t.permutation| && Referenced(c, v)
    ensures j < |t.permutation| && t.permutation[j] == v
    ensures Kept(c, t.permutation, NotUsed(|t.permutation|, nInUsed), j)
    ensures |r| == |t.permutation| && r[v] == NewInput(c, t.permutation, NotUsed(|t.permutation|, nInUsed), j)
    ensures r[v] < |r| - NotUsed(|t.permutation|, nInUsed)
    ensures v < |c| && c[v].kind == In
  {
    hide Referenced, LinkOk, Removed, Kept, NewInput;
    var p := t.permutation;
    PermutationHits(p, v);
    j :| 0 <= j < |p| && p[j] == v;
    ReferencedKept(c, p, NotUsed(|p|, nInUsed), j);
    CellAt(c, |p|, v);
  }

  lemma LinkReferences(c: Circuit, n: nat, i: nat, k: nat)
    requires WellFormed(c, n) && i < |c| && k < |c[i].links|
    ensures LinkOk(c, i, c[i].links[k]) && Referenced(c, c[i].links[k].idx)
  {
    CellAt(c, n, i);
  }

  /** Cells of the result. */
  lemma ResultCells(c: Circuit, t: Transformation, nInUsed: nat, r: seq<nat>, i: nat)
    requires Applicable(c, t, nInUsed) && |r| == |t.permutation| && i < |c|
    ensures var u := NotUsed(|r|, nInUsed);
            var d := ResultOf(c, t, nInUsed, r);
            && u <= |r| <= |c| && |d| == |c| - u
            && (i < |r| - u ==> d[i] == c[i] && c[i].kind == In)
            && (i >= |r| ==> d[i - u] == MapCell(t, r, u, c[i]) && c[i].kind != In)
  {
    hide Referenced, LinkOk, Removed, MapCell;
    CellAt(c, |r|, i);
  }

  /** The link of the result delivers what the link did, up to the output negation. */
  predicate LinkKept(lib: Library, c: Circuit, t: Transformation, nInUsed: nat, r: seq<nat>, x: seq<bool>, y: seq<bool>,
                     i: nat, l: Link, isOut: bool)
  {
    var u := NotUsed(|r|, nInUsed);
    var d, m := ResultOf(c, t, nInUsed, r), MapLink(t, r, u, isOut, l);
    && m.idx < i - u
    && (Eval(lib, d, y, m.idx) != m.inv) == ((Eval(lib, c, x, l.idx) != l.inv) != (isOut && Negates(t, |r|)))
  }

  /** One link of cell i delivers the same value before and after, up to the output negation. */
  lemma LinkMeans(lib: Library, c: Circuit, t: Transformation, nInUsed: nat, r: seq<nat>, x: seq<bool>, y: seq<bool>,
                  i: nat, l: Link, isOut: bool)
    requires Setting(c, t, nInUsed, r, x, y) && |r| <= i < |c|
    requires LinkOk(c, i, l) && Referenced(c, l.idx)
    ensures LinkKept(lib, c, t, nInUsed, r, x, y, i, l, isOut)
    decreases l.idx, 2
  {
    SettingSize(c, t, nInUsed, r, x, y);
    assert l.idx < i;
    hide Referenced, Applicable, Removed, Negates, MapLink, Eval, EvalLinks, ResultOf, Matches, LinkOk, NotUsed, Renumbers, LinkKept;
    if l.idx < |r| {
      InputLinkMeans(lib, c, t, nInUsed, r, x, y, i, l, isOut);
    } else {
      CellMeans(lib, c, t, nInUsed, r, x, y, l.idx);
      CellLinkMeans(lib, c, t, nInUsed, r, x, y, i, l, isOut);
    }
  }

  lemma InputLinkMeans(lib: Library, c: Circuit, t: Transformation, nInUsed: nat, r: seq<nat>, x: seq<bool>, y: seq<bool>,
                       i: nat, l: Link, isOut: bool)
    requires Setting(c, t, nInUsed, r, x, y) && |r| <= i < |c|
    requires LinkOk(c, i, l) && Referenced(c, l.idx) && l.idx < |r|
    ensures LinkKept(lib, c, t, nInUsed, r, x, y, i, l, isOut)
  {
    hide Referenced, Applicable, Removed, Negates, EvalLinks, NewInput, ResultOf, LinkOk, Renumbers, Kept;
    var u := NotUsed(|r|, nInUsed);
    SettingSize(c, t, nInUsed, r, x, y);
    var j := InputRenumbered(c, t, nInUsed, r, l.idx);
    assert MatchesAt(c, t, u, x, y, j);
    ResultCells(c, t, nInUsed, r, r[l.idx]);
  }

  lemma CellLinkMeans(lib: Library, c: Circuit, t: Transformation, nInUsed: nat, r: seq<nat>, x: seq<bool>, y: seq<bool>,
                      i: nat, l: Link, isOut: bool)
    requires NotUsed(|r|, nInUsed) <= |r| <= i < |c|
    requires LinkOk(c, i, l) && l.idx >= |r|
    requires Eval(lib, ResultOf(c, t, nInUsed, r), y, l.idx - NotUsed(|r|, nInUsed))
          == (Eval(lib, c, x, l.idx) != (c[l.idx].kind == Out && Negates(t, |r|)))
    ensures LinkKept(lib, c, t, nInUsed, r, x, y, i, l, isOut)
  {
    hide Eval, EvalLinks, ResultOf, Negates, NotUsed;
  }

  lemma {:induction false} EvalLinksAt(lib: Library, c: Circuit, x: seq<bool>, i: nat, links: seq<Link>, k: nat)
    requires k < |links|
    ensures EvalLinks(lib, c, x, i, links)[k] == ((links[k].idx < i && Eval(lib, c, x, links[k].idx)) != links[k].inv)
  {
    if k < |links| - 1 {
      EvalLinksAt(lib, c, x, i, links[..|links| - 1], k);
    }
  }

  lemma {:induction false} MapLinksAt(t: Transformation, r: seq<nat>, notUsed: nat, isOut: bool, links: seq<Link>, k: nat)
    requires k < |links|
    ensures MapLinks(t, r, notUsed, isOut, links)[k] == MapLink(t, r, notUsed, isOut, links[k])
  {
    hide MapLink;
    if k < |links| - 1 {
      MapLinksAt(t, r, notUsed, isOut, links[..|links| - 1], k);
    }
  }

  /** The values over all links of cell i. */
  lemma LinkValueMeans(lib: Library, c: Circuit, t: Transformation, nInUsed: nat, r: seq<nat>, x: seq<bool>, y: seq<bool>,
                       i: nat, k: nat)
    requires Setting(c, t, nInUsed, r, x, y) && |r| <= i < |c| && k < |c[i].links|
    ensures var u := NotUsed(|r|, nInUsed);
            var isOut := c[i].kind == Out;
            && u <= i
            && EvalLinks(lib, ResultOf(c, t, nInUsed, r), y, i - u, MapLinks(t, r, u, isOut, c[i].links))[k]
            == (EvalLinks(lib, c, x, i, c[i].links)[k] != (isOut && Negates(t, |r|)))
    decreases i, 0
  {
    hide Referenced, Removed, Negates, Eval, EvalLinks, MapLinks, MapLink, ResultOf, Renumbers, Matches, WellFormed;
    var u, isOut, d := NotUsed(|r|, nInUsed), c[i].kind == Out, ResultOf(c, t, nInUsed, r);
    SettingSize(c, t, nInUsed, r, x, y);
    LinkReferences(c, |r|, i, k);
    LinkMeans(lib, c, t, nInUsed, r, x, y, i, c[i].links[k], isOut);
    EvalLinksAt(lib, c, x, i, c[i].links, k);
    MapLinksAt(t, r, u, isOut, c[i].links, k);
    EvalLinksAt(lib, d, y, i - u, MapLinks(t, r, u, isOut, c[i].links), k);
  }

  lemma SettingSize(c: Circuit, t: Transformation, nInUsed: nat, r: seq<nat>, x: seq<bool>, y: seq<bool>)
    requires Setting(c, t, nInUsed, r, x, y)
    ensures |r| == |t.permutation| && NotUsed(|r|, nInUsed) <= |r|
  {
    hide Referenced, Removed, Matches, WellFormed;
  }

  /** Every cell but an input computes the same as before; outputs are negated as told. */
  lemma CellMeans(lib: Library, c: Circuit, t: Transformation, nInUsed: nat, r: seq<nat>, x: seq<bool>, y: seq<bool>,
                  i: nat)
    requires Setting(c, t, nInUsed, r, x, y) && |r| <= i < |c|
    ensures var u := NotUsed(|r|, nInUsed);
            && u <= i
            && Eval(lib, ResultOf(c, t, nInUsed, r), y, i - u)
            == (Eval(lib, c, x, i) != (c[i].kind == Out && Negates(t, |r|)))
    decreases i, 1
  {
    SettingSize(c, t, nInUsed, r, x, y);
    CellAt(c, |r|, i);
    hide Referenced, Removed, Negates, EvalLinks, MapLinks, MapLink, ResultOf, Renumbers, Matches, WellFormed, LinkOk;
    var u, d := NotUsed(|r|, nInUsed), ResultOf(c, t, nInUsed, r);
    var isOut := c[i].kind == Out;
    SettingSize(c, t, nInUsed, r, x, y);
    ResultCells(c, t, nInUsed, r, i);
    var before := EvalLinks(lib, c, x, i, c[i].links);
    var after := EvalLinks(lib, d, y, i - u, d[i - u].links);
    forall k | 0 <= k < |c[i].links| ensures after[k] == (before[k] != (isOut && Negates(t, |r|))) {
      LinkValueMeans(lib, c, t, nInUsed, r, x, y, i, k);
    }
    if !isOut {
      assert after == before;
    }
  }

  /** The result is again a circuit, over the kept inputs. */
  lemma ResultWellFormed(c: Circuit, t: Transformation, nInUsed: nat, r: seq<nat>)
    requires Applicable(c, t, nInUsed) && Renumbers(c, t.permutation, NotUsed(|t.permutation|, nInUsed), r)
    ensures WellFormed(ResultOf(c, t, nInUsed, r), |r| - NotUsed(|r|, nInUsed))
  {
    hide Referenced, Removed, ResultOf, CellOk, Renumbers;
    var u, d := NotUsed(|r|, nInUsed), ResultOf(c, t, nInUsed, r);
    SizesOf(c, t, nInUsed, r);
    var n := |r| - u;
    forall i | 0 <= i < |d| ensures CellOk(d, n, i) {
      CellWellFormed(c, t, nInUsed, r, i);
    }
  }

  lemma SizesOf(c: Circuit, t: Transformation, nInUsed: nat, r: seq<nat>)
    requires Applicable(c, t, nInUsed) && Renumbers(c, t.permutation, NotUsed(|t.permutation|, nInUsed), r)
    ensures var u := NotUsed(|r|, nInUsed); u <= |r| == |t.permutation| <= |c| && |ResultOf(c, t, nInUsed, r)| == |c| - u
  {
    hide Referenced, Removed, CellOk, MapCell;
  }

  lemma CellWellFormed(c: Circuit, t: Transformation, nInUsed: nat, r: seq<nat>, i: nat)
    requires Applicable(c, t, nInUsed) && Renumbers(c, t.permutation, NotUsed(|t.permutation|, nInUsed), r)
    requires i < |ResultOf(c, t, nInUsed, r)|
    ensures NotUsed(|r|, nInUsed) <= |r|
    ensures CellOk(ResultOf(c, t, nInUsed, r), |r| - NotUsed(|r|, nInUsed), i)
  {
    hide Referenced, Removed, ResultOf, MapLink, LinkOk, Negates;
    var u, d := NotUsed(|r|, nInUsed), ResultOf(c, t, nInUsed, r);
    var n := |r| - u;
    ResultCells(c, t, nInUsed, r, 0);
    if i < n {
      ResultCells(c, t, nInUsed, r, i);
      CellAt(c, |r|, i);
    } else {
      ResultCells(c, t, nInUsed, r, i + u);
      CellAt(c, |r|, i + u);
      forall k | 0 <= k < |d[i].links| ensures LinkOk(d, i, d[i].links[k]) {
        LinkReferences(c, |r|, i + u, k);
        MapLinksAt(t, r, u, c[i + u].kind == Out, c[i + u].links, k);
        MappedLinkOk(c, t, nInUsed, r, i + u, c[i + u].links[k], c[i + u].kind == Out);
      }
    }
  }

  lemma MappedLinkOk(c: Circuit, t: Transformation, nInUsed: nat, r: seq<nat>, i: nat, l: Link, isOut: bool)
    requires Applicable(c, t, nInUsed) && Renumbers(c, t.permutation, NotUsed(|t.permutation|, nInUsed), r)
    requires |r| <= i < |c| && LinkOk(c, i, l) && Referenced(c, l.idx)
    ensures var u := NotUsed(|r|, nInUsed);
            u <= i && LinkOk(ResultOf(c, t, nInUsed, r), i - u, MapLink(t, r, u, isOut, l))
  {
    hide Referenced, Removed, ResultOf, Negates;
    var u := NotUsed(|r|, nInUsed);
    ResultCells(c, t, nInUsed, r, 0);
    if l.idx < |r| {
      var j := InputRenumbered(c, t, nInUsed, r, l.idx);
      ResultCells(c, t, nInUsed, r, r[l.idx]);
    } else {
      ResultCells(c, t, nInUsed, r, l.idx);
    }
  }

  /** The result has at most nInUsed inputs; nothing else is left out. */
  lemma ResultInputs(c: Circuit, t: Transformation, nInUsed: nat, d: Circuit)
    requires Applicable(c, t, nInUsed) && IsResult(c, t, nInUsed, d)
    ensures var n := |t.permutation|;
            var m := if n <= nInUsed then n else nInUsed;
            WellFormed(d, m) && |d| - m == |c| - n
  {
    hide Applicable, Renumbers, ResultOf, WellFormed;
    var r :| Renumbers(c, t.permutation, NotUsed(|t.permutation|, nInUsed), r) && d == ResultOf(c, t, nInUsed, r);
    SizesOf(c, t, nInUsed, r);
    ResultWellFormed(c, t, nInUsed, r);
  }

  /** A link to the input at position j leads to the input whose number is how many below j stay. */
  lemma ResultLink(c: Circuit, t: Transformation, nInUsed: nat, d: Circuit, i: nat, k: nat, j: nat)
    requires Applicable(c, t, nInUsed) && IsResult(c, t, nInUsed, d)
    requires |t.permutation| <= i < |c| && k < |c[i].links| && j < |t.permutation|
    requires c[i].links[k].idx == t.permutation[j]
    ensures var u := NotUsed(|t.permutation|, nInUsed);
            && Stays(c, t.permutation, u, j) && u <= i && i - u < |d| && k < |d[i - u].links|
            && d[i - u].links[k].idx == |StayBelow(c, t.permutation, u, j)|
  {
    hide Renumbers, ResultOf, Referenced, Negates, Removed, Kept, NewInput, Stays, StayBelow;
    var p, u := t.permutation, NotUsed(|t.permutation|, nInUsed);
    var r :| Renumbers(c, p, u, r) && d == ResultOf(c, t, nInUsed, r);
    SizesOf(c, t, nInUsed, r);
    ResultCells(c, t, nInUsed, r, i);
    LinkReferences(c, |p|, i, k);
    MapLinksAt(t, r, u, c[i].kind == Out, c[i].links, k);
    var j' := InputRenumbered(c, t, nInUsed, r, p[j]);
    assert j' == j;
    KeptExact(c, p, u, j);
    NewInputExact(c, p, u, j);
  }

  /** Three inputs and an output that shows the second one. */
  const MIDDLE: Circuit := [Cell(In, []), Cell(In, []), Cell(In, []), Cell(Out, [Link(1, false)])]

  /** Of two unreferenced inputs, when one has to go, it is the last one: the link stays at input 1. */
  lemma DroppedInstance(d: Circuit)
    requires IsResult(MIDDLE, Transformation(0, [0, 1, 2]), 2, d)
    ensures Applicable(MIDDLE, Transformation(0, [0, 1, 2]), 2)
    ensures |d| == 3 && d[2].links != [] && d[2].links[0].idx == 1
  {
    hide IsResult, Stays, Removed;
    var c, t := MIDDLE, Transformation(0, [0, 1, 2]);
    MiddleIdle();
    DroppableExact(c, t.permutation, 1);
    ResultInputs(c, t, 2, d);
    ResultLink(c, t, 2, d, 3, 0, 1);
  }

  lemma MiddleIdle()
    ensures Idle(MIDDLE, [0, 1, 2], 0) == {0, 2}
    ensures StayBelow(MIDDLE, [0, 1, 2], 1, 1) == {0}
  {
    var c, p := MIDDLE, [0, 1, 2];
    assert c[3].links[0].idx == 1;
    assert Referenced(c, 1) && !Referenced(c, 0) && !Referenced(c, 2);
    assert Idle(c, p, 1) == {2};
  }

  // ---------------------------------------------------------------------------
  // All inputs kept
  // ---------------------------------------------------------------------------

  /** x is y permuted and negated. */
  predicate Permutes(t: Transformation, x: seq<bool>, y: seq<bool>) {
    var p := t.permutation;
    && |x| == |p| && |y| == |p|
    && forall j :: 0 <= j < |p| && p[j] < |p| ==> x[p[j]] == (y[j] != Negates(t, p[j]))
  }

  lemma AllKept(c: Circuit, t: Transformation, x: seq<bool>, y: seq<bool>)
    requires IsPermutation(t.permutation) && Permutes(t, x, y)
    ensures Matches(c, t, 0, x, y) && Removed(c, t.permutation, 0, 0) == 0
  {
    hide Removed, Negates;
    forall j | 0 <= j < |t.permutation| ensures MatchesAt(c, t, 0, x, y, j) {
      assert NewInput(c, t.permutation, 0, j) == j;
    }
  }

  lemma PermutationOf(c: Circuit, t: Transformation, nInUsed: nat)
    requires Applicable(c, t, nInUsed)
    ensures IsPermutation(t.permutation)
  {
  }

  /** With all inputs kept the result on y computes what the circuit computes on the permuted and negated inputs. */
  lemma TransformMeans(lib: Library, c: Circuit, t: Transformation, nInUsed: nat, d: Circuit, x: seq<bool>, y: seq<bool>, i: nat)
    requires Applicable(c, t, nInUsed) && IsResult(c, t, nInUsed, d)
    requires |t.permutation| <= nInUsed && Permutes(t, x, y)
    requires |t.permutation| <= i < |c|
    ensures Eval(lib, d, y, i) == (Eval(lib, c, x, i) != (c[i].kind == Out && Negates(t, |t.permutation|)))
  {
    hide Applicable, Renumbers, RenumbersFrom, Eval, ResultOf, Matches, Negates;
    PermutationOf(c, t, nInUsed);
    AllKept(c, t, x, y);
    assert NotUsed(|t.permutation|, nInUsed) == 0;
    var r :| Renumbers(c, t.permutation, NotUsed(|t.permutation|, nInUsed), r) && d == ResultOf(c, t, nInUsed, r);
    SettingSize(c, t, nInUsed, r, x, y);
    CellMeans(lib, c, t, nInUsed, r, x, y, i);
  }

  // ---------------------------------------------------------------------------
  // Inverse
  // ---------------------------------------------------------------------------

  /** s undoes t: the inverse permutation, each negation moved along, the output negation kept. */
  predicate IsInverse(t: Transformation, s: Transformation) {
    var n := |t.permutation|;
    && |s.permutation| == n
    && (forall i :: 0 <= i < n ==> InverseAt(t, s, i))
    && (Bit(s.negationMask, n) <==> Bit(t.negationMask, n))
  }

  predicate InverseAt(t: Transformation, s: Transformation, i: nat)
    requires i < |t.permutation|
  {
    var v := t.permutation[i];
    && v < |s.permutation| && s.permutation[v] == i
    && (Bit(s.negationMask, i) <==> Bit(t.negationMask, v))
  }

  /** Testing one bit with a mask. */
  lemma BitTested(x: nat, i: nat)
    ensures And(x, Power2(i)) == if Bit(x, i) then Power2(i) else 0
  {
    hide Bit, And, Power2;
    var a, b := And(x, Power2(i)), if Bit(x, i) then Power2(i) else 0;
    forall j: nat ensures Bit(a, j) <==> Bit(b, j) {
      AndBit(x, Power2(i), j);
      PowerBit(i, j);
      ZeroBits(j);
    }
    SameBits(a, b);
  }

  lemma BitSet(x: nat, i: nat, j: nat)
    ensures Bit(Or(x, Power2(i)), j) <==> Bit(x, j) || i == j
  {
    OrBit(x, Power2(i), j);
    PowerBit(i, j);
  }

  method Inverse(t: Transformation) returns (s: Transformation)
    requires IsPermutation(t.permutation) && |t.permutation| < 32
    ensures IsInverse(t, s)
    ensures forall i: nat :: i > |t.permutation| ==> !Bit(s.negationMask, i)
  {
    hide Bit, And, Or, Power2;
    var n := |t.permutation|;
    var mask: nat := 0;
    var permutation: seq<nat> := seq(n, k => 0);
    var i := 0;
    NoBits(t);
    while i < n
      invariant i <= n == |permutation|
      invariant forall k :: 0 <= k < i ==> permutation[t.permutation[k]] == k
      invariant BitsMoved(t, mask, i)
    {
      var v := t.permutation[i];
      permutation := permutation[v := i];
      BitTested(t.negationMask, v);
      MoveBit(t, mask, i);
      if And(t.negationMask, Power2(v)) != 0 {
        mask := Or(mask, Power2(i));
      }
      i := i + 1;
    }
    s := Transformation(Or(mask, And(t.negationMask, Power2(n))), permutation);
    forall k | 0 <= k < n ensures InverseAt(t, s, k) {
      LastBit(t, mask, k);
    }
    forall k: nat | k >= n ensures Bit(s.negationMask, k) <==> k == n && Bit(t.negationMask, n) {
      LastBit(t, mask, k);
    }
  }

  /** The bits of the first i positions, and no others. */
  ghost predicate BitsMoved(t: Transformation, mask: nat, i: nat)
    requires i <= |t.permutation|
  {
    forall k: nat :: Bit(mask, k) <==> k < i && Bit(t.negationMask, t.permutation[k])
  }

  lemma NoBits(t: Transformation)
    ensures BitsMoved(t, 0, 0)
  {
    forall k: nat ensures !Bit(0, k) {
      ZeroBits(k);
    }
  }

  lemma MoveBit(t: Transformation, mask: nat, i: nat)
    requires i < |t.permutation| && BitsMoved(t, mask, i)
    ensures BitsMoved(t, if Bit(t.negationMask, t.permutation[i]) then Or(mask, Power2(i)) else mask, i + 1)
  {
    hide Bit, Or, Power2;
    var v := t.permutation[i];
    var mask' := if Bit(t.negationMask, v) then Or(mask, Power2(i)) else mask;
    forall k: nat ensures Bit(mask', k) <==> k < i + 1 && Bit(t.negationMask, t.permutation[k]) {
      BitSet(mask, i, k);
    }
  }

  lemma LastBit(t: Transformation, mask: nat, k: nat)
    requires BitsMoved(t, mask, |t.permutation|)
    ensures var n := |t.permutation|;
            Bit(Or(mask, And(t.negationMask, Power2(n))), k)
            <==> if k < n then Bit(t.negationMask, t.permutation[k]) else k == n && Bit(t.negationMask, n)
  {
    hide Bit, Or, Power2, And;
    var n := |t.permutation|;
    BitTested(t.negationMask, n);
    BitSet(mask, n, k);
    OrBit(mask, 0, k);
    ZeroBits(k);
  }

  /** Inverting twice restores the permutation and the low n + 1 bits. */
  lemma InverseInvolution(t: Transformation, s: Transformation, u: Transformation)
    requires IsPermutation(t.permutation) && IsInverse(t, s) && IsInverse(s, u)
    ensures u.permutation == t.permutation
    ensures forall i: nat :: i <= |t.permutation| ==> (Bit(u.negationMask, i) <==> Bit(t.negationMask, i))
  {
    hide Bit;
    var n := |t.permutation|;
    forall i: nat | i < n
      ensures u.permutation[i] == t.permutation[i] && (Bit(u.negationMask, i) <==> Bit(t.negationMask, i))
    {
      PermutationHits(t.permutation, i);
      var k :| 0 <= k < n && t.permutation[k] == i;
      assert InverseAt(t, s, k) && InverseAt(t, s, i);
      assert InverseAt(s, u, i) && InverseAt(s, u, t.permutation[i]);
    }
  }

  lemma InversePermutation(t: Transformation, s: Transformation)
    requires IsPermutation(t.permutation) && IsInverse(t, s)
    ensures IsPermutation(s.permutation)
  {
    hide Bit;
    var n := |t.permutation|;
    forall i | 0 <= i < n ensures s.permutation[i] < n && t.permutation[s.permutation[i]] == i {
      PermutationHits(t.permutation, i);
      var k :| 0 <= k < n && t.permutation[k] == i;
      assert InverseAt(t, s, k);
    }
  }

  // ---------------------------------------------------------------------------
  // The 16-bit mask
  // ---------------------------------------------------------------------------

  lemma Multiple(p: int, k: int)
    requires p >= 0
    ensures k >= 1 ==> p * k >= p
    ensures k <= -1 ==> p * k <= 0 - p
  {
    if k >= 1 {
      assert p * k == p + p * (k - 1) && p * (k - 1) >= 0;
    } else if k <= -1 {
      assert p * k == p * (k + 1) - p && p * (k + 1) <= 0;
    }
  }

  lemma ModUnique(a: nat, p: nat, q: nat, r: nat)
    requires a == p * q + r && r < p
    ensures a % p == r
  {
    var q', r' := a / p, a % p;
    assert a == p * q' + r';
    assert p * (q' - q) == p * q' - p * q;
    Multiple(p, q' - q);
  }

  lemma HalfOf(x: nat, z: nat, r: nat)
    requires x == 2 * z + r
    ensures x / 2 == z + r / 2 && x % 2 == r % 2
  {
  }

  lemma HalfMod(x: nat, p: nat)
    requires p > 0
    ensures x % (2 * p) / 2 == x / 2 % p && x % (2 * p) % 2 == x % 2
  {
    var q, r := x / (2 * p), x % (2 * p);
    var z := p * q;
    assert x == (2 * p) * q + r;
    HalfOf(x, z, r);
    ModUnique(x / 2, p, q, r / 2);
  }

  /** Cutting a word to m bits keeps exactly the bits below m. */
  lemma {:induction false} BitsBelow(x: nat, m: nat, i: nat)
    ensures Bit(x % Power2(m), i) <==> i < m && Bit(x, i)
    decreases i
  {
    if m == 0 {
      ZeroBits(i);
    } else {
      HalfMod(x, Power2(m - 1));
      if i > 0 {
        BitsBelow(x / 2, m - 1, i - 1);
      }
    }
  }

  /** The transformation sees the mask bits below 16 only. */
  lemma NegatesLow(t: Transformation, i: nat)
    ensures Negates(t, i) <==> i < 16 && Bit(t.negationMask, i)
  {
    Bit16();
    BitsBelow(t.negationMask, 16, i);
  }

  // ---------------------------------------------------------------------------
  // There and back
  // ---------------------------------------------------------------------------

  /** The inputs between the two transformations. */
  function Between(t: Transformation, s: Transformation, z: seq<bool>): (y: seq<bool>)
    requires IsPermutation(t.permutation) && |z| == |t.permutation|
    ensures |y| == |z|
  {
    seq(|z|, k requires 0 <= k < |z| => z[t.permutation[k]] != Negates(s, k))
  }

  /** The inputs that reach the circuit through both: each negation bit may act in one direction only. */
  function RoundTrip(t: Transformation, s: Transformation, z: seq<bool>): (x: seq<bool>)
    requires IsInverse(t, s) && IsPermutation(s.permutation) && |z| == |t.permutation|
    ensures |x| == |z|
  {
    seq(|z|, v requires 0 <= v < |z| => z[v] != (Negates(t, v) != Negates(s, s.permutation[v])))
  }

  lemma BetweenPermutes(t: Transformation, s: Transformation, z: seq<bool>)
    requires IsPermutation(t.permutation) && IsInverse(t, s) && |z| == |t.permutation|
    ensures IsPermutation(s.permutation)
    ensures Permutes(t, RoundTrip(t, s, z), Between(t, s, z)) && Permutes(s, Between(t, s, z), z)
  {
    hide Negates, Bit;
    InversePermutation(t, s);
    var n, y, x := |z|, Between(t, s, z), RoundTrip(t, s, z);
    forall k | 0 <= k < n ensures x[t.permutation[k]] == (y[k] != Negates(t, t.permutation[k])) {
      assert InverseAt(t, s, k);
    }
    forall j | 0 <= j < n ensures y[s.permutation[j]] == (z[j] != Negates(s, s.permutation[j])) {
      PermutationHits(t.permutation, j);
      var k :| 0 <= k < n && t.permutation[k] == j;
      assert InverseAt(t, s, k);
    }
  }

  /**
   A transformation followed by its inverse computes, for every gate library, what the
   circuit computes on the inputs that come through both.
   */
  lemma ThereAndBackMeans(lib: Library, c: Circuit, t: Transformation, nInUsed: nat, d: Circuit,
                          s: Transformation, e: Circuit, z: seq<bool>, i: nat)
    requires |t.permutation| <= nInUsed && |z| == |t.permutation| <= i < |c|
    requires Applicable(c, t, nInUsed) && IsResult(c, t, nInUsed, d)
    requires IsInverse(t, s) && IsPermutation(s.permutation) && IsResult(d, s, nInUsed, e)
    ensures Eval(lib, e, z, i) == Eval(lib, c, RoundTrip(t, s, z), i)
  {
    hide Applicable, Eval, Negates, Between, RoundTrip, Permutes, Bit, IsResult;
    var n := |t.permutation|;
    PermutationOf(c, t, nInUsed);
    BetweenPermutes(t, s, z);
    InverseApplicable(c, t, nInUsed, d, s);
    ResultShape(c, t, nInUsed, d, i);
    TransformMeans(lib, c, t, nInUsed, d, RoundTrip(t, s, z), Between(t, s, z), i);
    TransformMeans(lib, d, s, nInUsed, e, Between(t, s, z), z, i);
    NegatesLow(t, n);
    NegatesLow(s, n);
  }

  /** Every negation bit in use is on the same side of 16 before and after it is moved along. */
  predicate MaskKept(t: Transformation) {
    forall k :: 0 <= k < |t.permutation| ==> MaskKeptAt(t, k)
  }

  predicate MaskKeptAt(t: Transformation, k: nat)
    requires k < |t.permutation|
  {
    Bit(t.negationMask, t.permutation[k]) ==> (t.permutation[k] < 16 <==> k < 16)
  }

  /** The inputs come through unchanged exactly when no negation bit moves across the 16-bit border. */
  lemma RoundTripExact(t: Transformation, s: Transformation, z: seq<bool>)
    requires IsPermutation(t.permutation) && IsInverse(t, s) && IsPermutation(s.permutation)
    requires |z| == |t.permutation|
    ensures RoundTrip(t, s, z) == z <==> MaskKept(t)
  {
    hide Negates, Bit, RoundTrip, IsInverse, MaskKeptAt;
    var x, p := RoundTrip(t, s, z), t.permutation;
    if MaskKept(t) {
      forall v | 0 <= v < |z| ensures x[v] == z[v] {
        PermutationHits(p, v);
        var k :| 0 <= k < |z| && p[k] == v;
        RoundTripAt(t, s, z, k);
      }
    } else {
      var k :| 0 <= k < |z| && !MaskKeptAt(t, k);
      RoundTripAt(t, s, z, k);
    }
  }

  lemma RoundTripAt(t: Transformation, s: Transformation, z: seq<bool>, k: nat)
    requires IsPermutation(t.permutation) && IsInverse(t, s) && IsPermutation(s.permutation)
    requires k < |z| == |t.permutation|
    ensures var v := t.permutation[k]; RoundTrip(t, s, z)[v] == z[v] <==> MaskKeptAt(t, k)
  {
    hide Negates, Bit;
    assert InverseAt(t, s, k);
    NegatesLow(t, t.permutation[k]);
    NegatesLow(s, k);
  }

  /** Up to 16 inputs the border is never crossed. */
  lemma SmallMaskKept(t: Transformation)
    requires IsPermutation(t.permutation) && |t.permutation| <= 16
    ensures MaskKept(t)
  {
    hide Bit;
  }

  /** If no negation bit crosses the border, a transformation and its inverse give back the function. */
  lemma ThereAndBack(lib: Library, c: Circuit, t: Transformation, nInUsed: nat, d: Circuit,
                     s: Transformation, e: Circuit, z: seq<bool>, i: nat)
    requires |t.permutation| <= nInUsed && |z| == |t.permutation| <= i < |c|
    requires Applicable(c, t, nInUsed) && IsResult(c, t, nInUsed, d)
    requires IsInverse(t, s) && IsResult(d, s, nInUsed, e)
    requires MaskKept(t)
    ensures Eval(lib, e, z, i) == Eval(lib, c, z, i)
  {
    hide Applicable, Eval, Negates, RoundTrip, Bit, IsResult, MaskKept, IsInverse;
    PermutationOf(c, t, nInUsed);
    InversePermutation(t, s);
    ThereAndBackMeans(lib, c, t, nInUsed, d, s, e, z, i);
    RoundTripExact(t, s, z);
  }

  /** n inputs and an output that shows one of them. */
  function Wire(n: nat, v: nat): (c: Circuit)
    ensures |c| == n + 1
  {
    seq(n, i => Cell(In, [])) + [Cell(Out, [Link(v, false)])]
  }

  lemma WireShows(lib: Library, n: nat, v: nat, x: seq<bool>)
    requires v < n == |x|
    ensures WellFormed(Wire(n, v), n) && Eval(lib, Wire(n, v), x, n) == x[v]
  {
    var c := Wire(n, v);
    assert Eval(lib, c, x, v) == x[v];
    assert c[n].links[..0] == [];
    EvalLinksAt(lib, c, x, n, c[n].links, 0);
  }

  /** If a negation bit crosses the border, the wire of its input comes back negated, whatever the inputs are. */
  lemma NegationLost(lib: Library, t: Transformation, nInUsed: nat, d: Circuit, s: Transformation, e: Circuit,
                     z: seq<bool>, k: nat)
    requires k < |z| == |t.permutation| < 32 && |z| <= nInUsed && IsPermutation(t.permutation) && !MaskKeptAt(t, k)
    requires IsInverse(t, s)
    requires IsResult(Wire(|z|, t.permutation[k]), t, nInUsed, d) && IsResult(d, s, nInUsed, e)
    ensures Applicable(Wire(|z|, t.permutation[k]), t, nInUsed)
    ensures Eval(lib, e, z, |z|) != Eval(lib, Wire(|z|, t.permutation[k]), z, |z|)
  {
    hide Eval, Negates, Bit, IsResult, IsInverse, WellFormed, Wire;
    var n, v := |z|, t.permutation[k];
    var c := Wire(n, v);
    InversePermutation(t, s);
    WireShows(lib, n, v, z);
    WireShows(lib, n, v, RoundTrip(t, s, z));
    ThereAndBackMeans(lib, c, t, nInUsed, d, s, e, z, n);
    RoundTripAt(t, s, z, k);
  }

  /** Seventeen inputs, the last of them negated and exchanged with the first. */
  function Seventeen(): Transformation {
    Transformation(0x1_0000, seq(17, i => if i == 0 then 16 else if i == 16 then 0 else i))
  }

  lemma SeventeenLost()
    ensures IsPermutation(Seventeen().permutation) && !MaskKept(Seventeen())
  {
    hide Bit;
    Bit16();
    assert !MaskKeptAt(Seventeen(), 0);
  }

  lemma Bit16()
    ensures Power2(16) == 0x1_0000 && Bit(0x1_0000, 16)
  {
    hide Bit;
    Power16(4);
    Power16(3);
    Power16(2);
    Power16(1);
    PowerBit(16, 16);
  }

  /** With all inputs kept the cells stay at their places. */
  lemma ResultShape(c: Circuit, t: Transformation, nInUsed: nat, d: Circuit, i: nat)
    requires |t.permutation| <= nInUsed && |t.permutation| <= i < |c|
    requires Applicable(c, t, nInUsed) && IsResult(c, t, nInUsed, d)
    ensures |d| == |c| && d[i].kind == c[i].kind
  {
    hide Applicable, Renumbers, ResultOf, Negates;
    var r :| Renumbers(c, t.permutation, NotUsed(|t.permutation|, nInUsed), r) && d == ResultOf(c, t, nInUsed, r);
    SizesOf(c, t, nInUsed, r);
    ResultCells(c, t, nInUsed, r, i);
  }

  /** The inverse can be applied to the result. */
  lemma InverseApplicable(c: Circuit, t: Transformation, nInUsed: nat, d: Circuit, s: Transformation)
    requires |t.permutation| <= nInUsed && IsInverse(t, s)
    requires Applicable(c, t, nInUsed) && IsResult(c, t, nInUsed, d)
    ensures Applicable(d, s, nInUsed)
  {
    hide Renumbers, ResultOf, Bit, WellFormed, IsInverse;
    var r :| Renumbers(c, t.permutation, NotUsed(|t.permutation|, nInUsed), r) && d == ResultOf(c, t, nInUsed, r);
    SizesOf(c, t, nInUsed, r);
    ResultWellFormed(c, t, nInUsed, r);
    InversePermutation(t, s);
    SamePositions(t, s);
  }

  lemma SamePositions(t: Transformation, s: Transformation)
    requires IsInverse(t, s)
    ensures |s.permutation| == |t.permutation|
  {
  }
}
