/**
 Capacity-bounded sorted sets with a double buffer and a residue signature, as
 kept by src/util/bounded_set.h.
 */
module BoundedSets {
  import opened Bits
  import opened Collections
  import opened SortedSets

  /** SizeType is uint16_t. */
  const SIZES: nat := 0x1_0000

  class BoundedSet {
    const maxSize: nat
    const isImmutable: bool
    var buf: array<nat>
    var offset: nat
    var setSize: nat
    var signature: nat

    /** The two halves of a mutable set, the exact cells of an immutable one. */
    predicate Allocated()
      reads this
    {
      && 0 < maxSize < SIZES
      && setSize <= maxSize
      && offset + setSize <= buf.Length
      && (if isImmutable then offset == 0 else buf.Length == 2 * maxSize && (offset == 0 || offset == maxSize))
    }

    /** The live cells, from begin() to end(). */
    function Cells(): (s: seq<nat>)
      requires Allocated()
      reads this, buf
      ensures |s| == setSize
    {
      buf[offset..offset + setSize]
    }

    /** setPtr[i] */
    function At(i: nat): (v: nat)
      requires Allocated() && i < setSize
      reads this, buf
      ensures v == Cells()[i]
    {
      buf[offset + i]
    }

    ghost predicate Valid()
      reads this, buf
    {
      && Allocated()
      && Increasing(Cells())
      && signature == Signature(Cells())
    }

    /** The set that is stored. */
    ghost function Model(): set<nat>
      requires Allocated()
      reads this, buf
    {
      Members(Cells())
    }

    constructor (maxSize: nat, isImmutable: bool)
      requires 0 < maxSize < SIZES
      ensures this.maxSize == maxSize && this.isImmutable == isImmutable
      ensures Valid() && fresh(buf) && Model() == {}
    {
      this.maxSize := maxSize;
      this.isImmutable := isImmutable;
      offset := 0;
      setSize := 0;
      signature := 0;
      buf := new nat[if isImmutable then 0 else 2 * maxSize];
    }

    constructor Singleton(maxSize: nat, element: nat, isImmutable: bool)
      requires 0 < maxSize < SIZES
      ensures this.maxSize == maxSize && this.isImmutable == isImmutable
      ensures Valid() && fresh(buf) && Model() == {element}
    {
      this.maxSize := maxSize;
      this.isImmutable := isImmutable;
      offset := 0;
      setSize := 1;
      signature := Mark(element);
      buf := new nat[if isImmutable then 1 else 2 * maxSize];
      new;
      buf[0] := element;
      assert Cells() == [element];
      SingletonSignature(element);
    }

    constructor FromSet(maxSize: nat, elements: set<nat>, isImmutable: bool)
      requires 0 < maxSize < SIZES && |elements| <= maxSize
      ensures this.maxSize == maxSize && this.isImmutable == isImmutable
      ensures Valid() && fresh(buf) && Model() == elements
    {
      this.maxSize := maxSize;
      this.isImmutable := isImmutable;
      offset := 0;
      setSize := 0;
      signature := 0;
      buf := new nat[if isImmutable then |elements| else 2 * maxSize];
      new;
      InsertAll(elements);
    }

    constructor Copy(other: BoundedSet)
      requires other.Valid()
      ensures maxSize == other.maxSize && isImmutable == other.isImmutable
      ensures Valid() && fresh(buf) && Model() == other.Model()
    {
      maxSize := other.maxSize;
      isImmutable := other.isImmutable;
      offset := 0;
      setSize := other.setSize;
      signature := other.signature;
      buf := new nat[if other.isImmutable then other.setSize else 2 * other.maxSize];
      new;
      CopyCells(other);
    }

    /** memcpy of the live cells. */
    method CopyCells(other: BoundedSet)
      requires Allocated() && other.Allocated() && setSize == other.setSize && buf != other.buf && offset == 0
      modifies buf
      ensures Cells() == other.Cells()
    {
      forall k | 0 <= k < setSize {
        buf[k] := other.At(k);
      }
      assert forall k :: 0 <= k < setSize ==> Cells()[k] == other.Cells()[k];
    }

    /** std::lower_bound over the live cells. */
    method LowerBound(num: nat) returns (r: nat)
      requires Valid()
      ensures PlaceOf(Cells(), num, r)
    {
      hide Signature;
      r := 0;
      var len := setSize;
      while len > 0
        invariant r + len <= setSize
        invariant forall k :: 0 <= k < r ==> Cells()[k] < num
        invariant forall k :: r + len <= k < setSize ==> num <= Cells()[k]
      {
        var half := len / 2;
        var mid := r + half;
        if At(mid) < num {
          assert forall k :: 0 <= k < mid ==> Cells()[k] < Cells()[mid];
          r := mid + 1;
          len := len - half - 1;
        } else {
          assert forall k :: mid < k < setSize ==> Cells()[mid] < Cells()[k];
          len := half;
        }
      }
    }

    /** The position of num, or setSize for end(). */
    method Find(num: nat) returns (r: nat)
      requires Valid()
      ensures r < setSize ==> Cells()[r] == num
      ensures r < setSize <==> num in Model()
      ensures r <= setSize
    {
      hide Signature;
      r := LowerBound(num);
      PlaceExact(Cells(), num, r);
      if r < setSize {
        if At(r) == num {
          return;
        }
      }
      r := setSize;
    }

    /** Includes the other set, decided with the signature as a filter. */
    method Contains(other: BoundedSet) returns (b: bool)
      requires Valid() && other.Valid()
      ensures b <==> other.Model() <= Model()
    {
      hide Signature, Or, Members, Increasing;
      SubsetFilters(Cells(), other.Cells());
      if other.setSize > setSize {
        return false;
      }
      if signature != Or(signature, other.signature) {
        return false;
      }
      b := FindsAll(other);
    }

    /** The loop of contains: every element of the other set is found. */
    method FindsAll(other: BoundedSet) returns (b: bool)
      requires Valid() && other.Valid()
      ensures b <==> other.Model() <= Model()
    {
      hide Signature, Increasing;
      ghost var t := other.Cells();
      var i := 0;
      while i < other.setSize
        invariant i <= other.setSize
        invariant forall k :: 0 <= k < i ==> t[k] in Model()
      {
        var r := Find(other.At(i));
        if r == setSize {
          assert t[i] in Members(t);
          return false;
        }
        i := i + 1;
      }
      return true;
    }

    /** Has the same elements, decided with the signature as a filter. */
    method Equals(other: BoundedSet) returns (b: bool)
      requires Valid() && other.Valid()
      ensures b <==> other.Model() == Model()
    {
      hide Signature;
      var s, t := Cells(), other.Cells();
      if Members(t) == Members(s) {
        SameElements(s, t);
      }
      if setSize != other.setSize {
        return false;
      }
      if signature != other.signature {
        return false;
      }
      var i := 0;
      while i < setSize
        invariant i <= setSize
        invariant forall k :: 0 <= k < i ==> s[k] == t[k]
      {
        if At(i) != other.At(i) {
          return false;
        }
        i := i + 1;
      }
      assert s == t;
      return true;
    }

    /** Puts an element in its place, unless the set is full or (checked here on request) has it. */
    method InsertRaw(e: nat, isChecked: bool) returns (ok: bool)
      requires Valid()
      requires isChecked && setSize < maxSize ==> e !in Model()
      requires setSize < maxSize && e !in Model() ==> offset + setSize < buf.Length
      modifies `setSize, `signature, buf
      ensures Valid()
      ensures ok <==> old(setSize) < maxSize && e !in old(Model())
      ensures Model() == old(Model()) + if ok then {e} else {}
      ensures setSize == old(setSize) + if ok then 1 else 0
    {
      hide Signature, Or;
      ok := false;
      if setSize + 1 <= maxSize {
        var absent := isChecked;
        if !absent {
          var r := Find(e);
          absent := r == setSize;
        }
        if absent {
          Place(e);
          ok := true;
        }
      }
    }

    /** Shifts the larger elements and stores the new one. */
    method Place(e: nat)
      requires Valid() && setSize < maxSize && e !in Model()
      requires offset + setSize < buf.Length
      modifies `setSize, `signature, buf
      ensures Valid()
      ensures Model() == old(Model()) + {e}
      ensures setSize == old(setSize) + 1
    {
      hide Signature, Or, Members, Increasing, PlaceOf, Shifted, Inserted, Cells, At, Mark;
      ghost var s, was := Cells(), buf[..];
      CellsAre(was);
      var i := FirstNotBelow(e);
      MakeRoom(i);
      buf[offset + i] := e;
      setSize := setSize + 1;
      signature := Or(signature, Mark(e));
      CellsAre(buf[..]);
      ShiftedCells(was, offset, offset + i, offset + setSize - 1, e);
      InsertedExact(s, e, i);
    }

    lemma CellsAre(b: seq<nat>)
      requires Allocated() && b == buf[..]
      ensures Cells() == b[offset..offset + setSize]
    {
    }

    /** Moves the elements from i on one cell up. */
    method MakeRoom(i: nat)
      requires Allocated() && i <= setSize && offset + setSize < buf.Length
      modifies buf
      ensures buf[..] == Shifted(old(buf[..]), offset + i, offset + setSize)
    {
      hide Shifted;
      var j := setSize;
      ghost var was := buf[..];
      ShiftedNone(was, offset + j);
      while j > i
        invariant i <= j <= setSize
        invariant buf[..] == Shifted(was, offset + j, offset + setSize)
      {
        ShiftedStep(was, offset + j, offset + setSize);
        buf[offset + j] := buf[offset + j - 1];
        j := j - 1;
      }
    }

    method FirstNotBelow(e: nat) returns (i: nat)
      requires Valid()
      ensures i <= setSize && PlaceOf(Cells(), e, i)
    {
      hide Signature;
      i := 0;
      while i < setSize && At(i) < e
        invariant i <= setSize
        invariant forall k :: 0 <= k < i ==> Cells()[k] < e
      {
        i := i + 1;
      }
    }

    method Insert(e: nat, isChecked: bool) returns (ok: bool)
      requires Valid() && !isImmutable
      requires isChecked && setSize < maxSize ==> e !in Model()
      modifies `setSize, `signature, buf
      ensures Valid()
      ensures ok <==> old(setSize) < maxSize && e !in old(Model())
      ensures Model() == old(Model()) + if ok then {e} else {}
    {
      ok := InsertRaw(e, isChecked);
    }

    method InsertAll(elements: set<nat>)
      requires Valid() && setSize == 0 && |elements| <= maxSize
      requires offset + |elements| <= buf.Length
      modifies `setSize, `signature, buf
      ensures Valid() && Model() == elements
    {
      hide Signature, Increasing, Members;
      var rest := elements;
      assert Cells() == [];
      NoElements();
      while rest != {}
        invariant Valid() && rest <= elements && Model() == elements - rest
        invariant setSize + |rest| == |elements|
        invariant offset == old(offset) && buf == old(buf)
      {
        var e :| e in rest;
        var _ := InsertRaw(e, true);
        rest := rest - {e};
      }
    }

    /** The union slips through the check although it is too large. */
    ghost predicate Overruns(other: BoundedSet)
      requires Allocated() && other.Allocated()
      reads this, buf, other, other.buf
    {
      SlipsThrough(Cells(), other.Cells(), maxSize)
    }

    /**
     Whether the union fits, decided by the counts, the signatures or a merging count.
     The count is a SizeType, so it is exact for unions below SIZES and wraps above.
     */
    method UnionCheck(other: BoundedSet) returns (ok: bool)
      requires Valid() && other.Valid()
      ensures ok <==> |Model() + other.Model()| <= maxSize || Overruns(other)
      ensures setSize + other.setSize < SIZES ==> (ok <==> |Model() + other.Model()| <= maxSize)
    {
      hide Signature, Increasing, Members, And, Or, Union, CountUnits64;
      UnionFacts(Cells(), other.Cells());
      if setSize + other.setSize <= maxSize {
        return true;
      }
      if And(signature, other.signature) == 0 {
        return false;
      }
      if CountUnits64(Or(signature, other.signature)) > maxSize {
        return false;
      }
      var k := UnionSize(other);
      ok := k <= maxSize;
    }

    /** The counting loop of unionCheck. */
    method UnionSize(other: BoundedSet) returns (k: nat)
      requires Allocated() && other.Allocated()
      ensures k == |Union(Cells(), other.Cells())| % SIZES
    {
      hide Union, Remaining, Cells, At;
      ghost var s, t := Cells(), other.Cells();
      ghost var count := 0;
      var i, j := 0, 0;
      k := 0;
      RemainingAll(s, t);
      while i < setSize && j < other.setSize
        invariant i <= setSize && j <= other.setSize
        invariant count + |Remaining(s, t, i, j)| == |Union(s, t)|
        invariant k == count % SIZES
      {
        RemainingStep(s, t, i, j);
        if At(i) == other.At(j) {
          i, j := i + 1, j + 1;
        } else if At(i) < other.At(j) {
          i := i + 1;
        } else {
          j := j + 1;
        }
        k := (k + 1) % SIZES;
        Wrapped(count, 1);
        count := count + 1;
      }
      RemainingOne(s, t, i, j);
      k := (k + (setSize - i) + (other.setSize - j)) % SIZES;
      Wrapped(count, setSize - i + (other.setSize - j));
    }

    /** Joins the other set in if the union fits: the union is built in the unused half. */
    method Merge(other: BoundedSet) returns (ok: bool)
      requires Valid() && other.Valid() && !isImmutable
      requires other == this || other.buf != buf
      requires !Overruns(other)
      modifies this, buf
      ensures Valid() && buf == old(buf)
      ensures ok <==> |old(Model()) + old(other.Model())| <= maxSize
      ensures Model() == if ok then old(Model()) + old(other.Model()) else old(Model())
      ensures offset == if ok then maxSize - old(offset) else old(offset)
    {
      hide Signature, Increasing, Members, And, Or, Union, CountUnits64, Cells, At, Overruns;
      ok := UnionCheck(other);
      if !ok {
        return;
      }
      ghost var s, t := Cells(), other.Cells();
      UnionFacts(s, t);
      OtherHalf(offset, maxSize);
      var newOffset := (offset + maxSize) % (2 * maxSize);
      var k := WriteUnion(other, newOffset);
      UnionElements(s, t);
      UnionIncreasing(s, t);
      SignatureOfUnion(s, t);
      offset, setSize, signature := newOffset, k, Or(signature, other.signature);
      CellsAre(buf[..]);
    }

    /** The three loops of merge. */
    method WriteUnion(other: BoundedSet, p: nat) returns (k: nat)
      requires Allocated() && other.Allocated() && !isImmutable
      requires other == this || other.buf != buf
      requires p == maxSize - offset
      requires |Union(Cells(), other.Cells())| <= maxSize
      modifies buf
      ensures k == |Union(old(Cells()), old(other.Cells()))|
      ensures p + k <= buf.Length && buf[p..p + k] == Union(old(Cells()), old(other.Cells()))
      ensures Cells() == old(Cells())
    {
      hide Union, Remaining, Pending, Written, Cells;
      ghost var s, t := Cells(), other.Cells();
      ghost var u := Union(s, t);
      RemainingAll(s, t);
      WriteNone(u, p);
      var i, j;
      i, j, k := WriteBoth(other, s, t, u, p);
      i, k := WriteRest(other, s, t, u, p, i, j, k);
      j, k := WriteOthersRest(other, s, t, u, p, i, j, k);
      RemainingOne(s, t, |s|, |t|);
      AllWritten(u, p, k, Remaining(s, t, |s|, |t|));
    }

    method WriteBoth(other: BoundedSet, ghost s: seq<nat>, ghost t: seq<nat>, ghost u: seq<nat>, p: nat)
        returns (i: nat, j: nat, k: nat)
      requires Allocated() && other.Allocated() && !isImmutable
      requires other == this || other.buf != buf
      requires p == maxSize - offset && |u| <= maxSize
      requires Cells() == s && other.Cells() == t
      requires Written(u, p, 0) && Pending(u, 0, Remaining(s, t, 0, 0))
      modifies buf
      ensures Cells() == s && other.Cells() == t
      ensures i <= setSize && j <= other.setSize && (i == setSize || j == other.setSize)
      ensures Written(u, p, k) && Pending(u, k, Remaining(s, t, i, j))
    {
      hide Union, Remaining, Pending, Written, Cells, At;
      i, j, k := 0, 0, 0;
      while i < setSize && j < other.setSize
        invariant i <= setSize && j <= other.setSize
        invariant Cells() == s && other.Cells() == t
        invariant Written(u, p, k) && Pending(u, k, Remaining(s, t, i, j))
      {
        RemainingStep(s, t, i, j);
        if At(i) == other.At(j) {
          WriteCell(u, p, k, At(i), Remaining(s, t, i + 1, j + 1));
          i, j := i + 1, j + 1;
        } else if At(i) < other.At(j) {
          WriteCell(u, p, k, At(i), Remaining(s, t, i + 1, j));
          i := i + 1;
        } else {
          WriteCell(u, p, k, other.At(j), Remaining(s, t, i, j + 1));
          j := j + 1;
        }
        k := k + 1;
      }
    }

    method WriteRest(other: BoundedSet, ghost s: seq<nat>, ghost t: seq<nat>, ghost u: seq<nat>,
                     p: nat, i0: nat, ghost j: nat, k0: nat) returns (i: nat, k: nat)
      requires Allocated() && other.Allocated() && !isImmutable
      requires other == this || other.buf != buf
      requires p == maxSize - offset && |u| <= maxSize
      requires i0 <= setSize && j <= other.setSize && (i0 == setSize || j == other.setSize)
      requires Cells() == s && other.Cells() == t
      requires Written(u, p, k0) && Pending(u, k0, Remaining(s, t, i0, j))
      modifies buf
      ensures Cells() == s && other.Cells() == t
      ensures i == setSize && Written(u, p, k) && Pending(u, k, Remaining(s, t, i, j))
    {
      hide Union, Remaining, Pending, Written, Cells, At;
      i, k := i0, k0;
      while i < setSize
        invariant i <= setSize && (i == setSize || j == other.setSize)
        invariant Cells() == s && other.Cells() == t
        invariant Written(u, p, k) && Pending(u, k, Remaining(s, t, i, j))
      {
        RemainingLeft(s, t, i);
        WriteCell(u, p, k, At(i), Remaining(s, t, i + 1, j));
        i, k := i + 1, k + 1;
      }
    }

    method WriteOthersRest(other: BoundedSet, ghost s: seq<nat>, ghost t: seq<nat>, ghost u: seq<nat>,
                           p: nat, ghost i: nat, j0: nat, k0: nat) returns (j: nat, k: nat)
      requires Allocated() && other.Allocated() && !isImmutable
      requires other == this || other.buf != buf
      requires p == maxSize - offset && |u| <= maxSize
      requires i == setSize && j0 <= other.setSize
      requires Cells() == s && other.Cells() == t
      requires Written(u, p, k0) && Pending(u, k0, Remaining(s, t, i, j0))
      modifies buf
      ensures Cells() == s && other.Cells() == t
      ensures j == other.setSize && Written(u, p, k) && Pending(u, k, Remaining(s, t, i, j))
    {
      hide Union, Remaining, Pending, Written, Cells, At;
      j, k := j0, k0;
      while j < other.setSize
        invariant j <= other.setSize
        invariant Cells() == s && other.Cells() == t
        invariant Written(u, p, k) && Pending(u, k, Remaining(s, t, i, j))
      {
        RemainingRight(s, t, j);
        WriteCell(u, p, k, other.At(j), Remaining(s, t, i, j + 1));
        j, k := j + 1, k + 1;
      }
    }

    /** The first k cells from p on hold the beginning of u. */
    ghost predicate Written(u: seq<nat>, p: nat, k: nat)
      reads this, buf
    {
      k <= |u| && p + k <= buf.Length && buf[p..p + k] == u[..k]
    }

    lemma WriteNone(u: seq<nat>, p: nat)
      requires p <= buf.Length
      ensures Written(u, p, 0) && Pending(u, 0, u)
    {
    }

    lemma AllWritten(u: seq<nat>, p: nat, k: nat, rest: seq<nat>)
      requires Written(u, p, k) && Pending(u, k, rest) && |rest| == 0
      ensures p + k <= buf.Length && k == |u| && buf[p..p + k] == u
    {
    }

    /** newPtr[k] := v, in the unused half. */
    method WriteCell(ghost u: seq<nat>, p: nat, k: nat, v: nat, ghost rest: seq<nat>)
      requires Allocated() && !isImmutable && p == maxSize - offset && |u| <= maxSize
      requires Written(u, p, k) && Pending(u, k, [v] + rest)
      modifies buf
      ensures Written(u, p, k + 1) && Pending(u, k + 1, rest)
      ensures Cells() == old(Cells())
    {
      assert k < |u| by {
        assert |[v] + rest| == 1 + |rest|;
      }
      TakeOne(u, k);
      assert u[k] == v && u[k + 1..] == rest;
      PutCell(p, k, v);
    }

    method PutCell(p: nat, k: nat, v: nat)
      requires Allocated() && !isImmutable && p == maxSize - offset && k < maxSize
      modifies buf
      ensures buf[p..p + k + 1] == old(buf[p..p + k]) + [v]
      ensures Cells() == old(Cells())
    {
      buf[p + k] := v;
    }

    /** Refills the half in use. */
    method Assign(elements: set<nat>)
      requires Valid() && !isImmutable && |elements| <= maxSize
      modifies `setSize, `signature, buf
      ensures Valid() && Model() == elements
    {
      setSize := 0;
      signature := 0;
      assert Cells() == [];
      InsertAll(elements);
    }
  }

  /** What the shortcuts of unionCheck rely on. */
  lemma UnionFacts(s: seq<nat>, t: seq<nat>)
    requires Increasing(s) && Increasing(t)
    ensures |Union(s, t)| == |Members(s) + Members(t)| <= |s| + |t|
    ensures And(Signature(s), Signature(t)) == 0 ==> |Union(s, t)| == |s| + |t|
    ensures CountUnits64(Or(Signature(s), Signature(t))) <= |Union(s, t)|
  {
    hide Signature, Increasing, Members, And, Or, Union, CountUnits64;
    UnionCount(s, t);
    UnionBounds(s, t);
    CountFilterExact(s, t);
    if And(Signature(s), Signature(t)) == 0 {
      ApartExact(s, t);
      DisjointCount(s, t);
    }
  }

  lemma OtherHalf(o: nat, m: nat)
    requires 0 < m && (o == 0 || o == m)
    ensures (o + m) % (2 * m) == m - o
  {
    Below(o + m - if o == m then 2 * m else 0, 2 * m);
    if o == m {
      Around(2 * m);
    }
  }

  lemma Below(x: nat, d: nat)
    requires x < d
    ensures x % d == x
  {
  }

  lemma Around(d: nat)
    requires d > 0
    ensures d % d == 0
  {
  }

  lemma Wrapped(count: nat, d: nat)
    ensures (count % SIZES + d) % SIZES == (count + d) % SIZES
  {
  }

  /** rest is what is left of u from k on. */
  ghost predicate Pending(u: seq<nat>, k: nat, rest: seq<nat>) {
    k <= |u| && u[k..] == rest
  }

  lemma TakeOne(u: seq<nat>, k: nat)
    requires k < |u|
    ensures u[..k + 1] == u[..k] + [u[k]] && u[k..] == [u[k]] + u[k + 1..]
  {
  }

  lemma NoElements()
    ensures Members<nat>([]) == {}
  {
  }

  /** Both shortcuts of contains hold of every subset. */
  lemma SubsetFilters(s: seq<nat>, t: seq<nat>)
    requires Increasing(s) && Increasing(t)
    ensures Members(t) <= Members(s) ==> |t| <= |s| && Signature(s) == Or(Signature(s), Signature(t))
  {
    hide Signature, Or, Members, Increasing;
    if Members(t) <= Members(s) {
      ElementCount(s);
      ElementCount(t);
      SubsetCount(Members(t), Members(s));
      SubsetSignature(s, t);
    }
  }

  lemma SingletonSignature(e: nat)
    ensures Signature([e]) == Mark(e)
  {
    assert [e][..0] == [];
  }

  // ---------------------------------------------------------------------------
  // The wrapping count
  // ---------------------------------------------------------------------------

  /** 64, 128, …, 64n: elements of one residue. */
  function Multiples(n: nat): seq<nat> {
    if n == 0 then [] else Multiples(n - 1) + [64 * n]
  }

  lemma {:induction false} MultiplesGrow(n: nat)
    ensures |Multiples(n)| == n
    ensures forall k :: 0 <= k < n ==> 0 < Multiples(n)[k] <= 64 * n
    ensures Increasing(Multiples(n))
  {
    if n > 0 {
      MultiplesGrow(n - 1);
    }
  }

  lemma MultipleMark(n: nat)
    ensures Mark(64 * n) == 1 && Or(1, 1) == 1 && Or(0, 1) == 1
  {
    assert 64 * n % 64 == 0;
  }

  lemma {:induction false} MultiplesMark(n: nat)
    ensures Signature(Multiples(n)) == if n == 0 then 0 else 1
  {
    hide Or, Mark;
    if n > 0 {
      MultiplesMark(n - 1);
      assert Multiples(n)[..|Multiples(n)| - 1] == Multiples(n - 1);
      MultipleMark(n);
    }
  }

  /** A union too large for a 16-bit count that passes both filters and whose wrapped count is within the bound. */
  ghost predicate SlipsThrough(s: seq<nat>, t: seq<nat>, bound: nat) {
    var n := |Members(s) + Members(t)|;
    && n >= SIZES
    && And(Signature(s), Signature(t)) != 0
    && CountUnits64(Or(Signature(s), Signature(t))) <= bound
    && n - SIZES <= bound
  }

  /** Sets whose sizes add up to less than 2^16, and sets of bounds below 2^15, are always checked right. */
  lemma SmallUnions(s: seq<nat>, t: seq<nat>, bound: nat)
    requires Increasing(s) && Increasing(t)
    ensures |s| + |t| < SIZES ==> !SlipsThrough(s, t, bound)
    ensures |s| <= bound && |t| <= bound < SIZES / 2 ==> !SlipsThrough(s, t, bound)
  {
    hide Signature, Increasing, Members, And, Or, Union, CountUnits64;
    UnionFacts(s, t);
  }

  /**
   A union of 0x1_0000 elements whose count wraps to 0: unionCheck of a set bounded
   to one element accepts it.
   */
  lemma WrappedUnion(n: nat)
    requires n == SIZES - 1
    ensures Increasing([0]) && Increasing(Multiples(n))
    ensures |Members([0]) + Members(Multiples(n))| == SIZES
    ensures SlipsThrough([0], Multiples(n), 1)
  {
    hide CountUnits64, Multiples, Signature, And, Or, Members;
    var t := Multiples(n);
    MultiplesGrow(n);
    MultiplesMark(n);
    ElementCount([0] + t);
    ElementsCons(0, t);
    ElementsCons(0, []);
    NoElements();
    assert [0] + [] == [0];
    SingletonSignature(0);
    OneBit();
  }

  lemma OneBit()
    ensures Mark(0) == 1 && And(1, 1) == 1 && Or(1, 1) == 1 && CountUnits64(1) == 1
  {
    hide CountUnits64;
    PowerGrows(0, 64);
    CountUnits64Exact(1);
  }

  /** Equal sets have equal hashes: the hash of a set is its signature. */
  lemma EqualHashes(s: seq<nat>, t: seq<nat>)
    requires Members(s) == Members(t)
    ensures Signature(s) == Signature(t)
  {
    hide Signature;
    SignatureMarks(s);
    SignatureMarks(t);
    MarksUnique(Signature(s), Signature(t), Members(s));
  }
}
