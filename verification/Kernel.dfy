/**
 The bitwise laws of 32-bit words that the cube operations rest on.
 */
module Masks {

  function And(a: bv32, b: bv32): bv32 {
    a & b
  }

  function Or(a: bv32, b: bv32): bv32 {
    a | b
  }

  function Not(a: bv32): bv32 {
    !a
  }

  /** Exactly one bit. */
  predicate Single(b: bv32) {
    b != 0 && b & (b - 1) == 0
  }

  /** FIRST_ONE_BIT */
  function FirstOneBit(x: bv32): bv32 {
    x - (x & (x - 1))
  }

  lemma FirstIsSingle(x: bv32)
    requires x != 0
    ensures Single(FirstOneBit(x))
  {
  }

  lemma FirstIsIn(x: bv32)
    ensures And(x, FirstOneBit(x)) == FirstOneBit(x)
  {
  }

  lemma SingleNonzero(b: bv32)
    requires Single(b)
    ensures b != 0
  {
  }

  lemma SingleMeets(m: bv32, b: bv32)
    requires Single(b) && And(m, b) != 0
    ensures And(m, b) == b
  {
  }

  lemma AndSelf(a: bv32)
    ensures And(a, a) == a
  {
  }

  lemma AndZero(a: bv32)
    ensures And(a, 0) == 0 && And(0, a) == 0
  {
  }

  lemma AndCommutes(a: bv32, b: bv32)
    ensures And(a, b) == And(b, a)
  {
  }

  lemma AndAssociates(a: bv32, b: bv32, c: bv32)
    ensures And(And(a, b), c) == And(a, And(b, c))
  {
  }

  lemma OrZero(a: bv32)
    ensures Or(a, 0) == a && Or(0, a) == a
  {
  }

  lemma OrMeets(a: bv32, b: bv32, c: bv32)
    ensures And(Or(a, b), c) == Or(And(a, c), And(b, c))
  {
  }

  lemma MeetsOr(k: bv32, c: bv32, d: bv32)
    ensures And(k, Or(c, d)) == Or(And(k, c), And(k, d))
  {
    hide And, Or;
    OrMeets(c, d, k);
    AndCommutes(k, Or(c, d));
    AndCommutes(k, c);
    AndCommutes(k, d);
  }

  lemma OrAbsorbs(k: bv32, c: bv32, d: bv32)
    ensures And(And(k, Or(c, d)), c) == And(k, c) && And(And(k, Or(c, d)), d) == And(k, d)
  {
    FirstAbsorbs(k, c, d);
    SecondAbsorbs(k, c, d);
  }

  lemma FirstAbsorbs(k: bv32, c: bv32, d: bv32)
    ensures And(And(k, Or(c, d)), c) == And(k, c)
  {
    hide And, Or;
    AndAssociates(k, Or(c, d), c);
    OrKeeps(c, d);
  }

  lemma OrKeeps(c: bv32, d: bv32)
    ensures And(Or(c, d), c) == c && And(Or(c, d), d) == d
  {
  }

  lemma SecondAbsorbs(k: bv32, c: bv32, d: bv32)
    ensures And(And(k, Or(c, d)), d) == And(k, d)
  {
    hide And, Or;
    AndAssociates(k, Or(c, d), d);
    OrKeeps(c, d);
  }

  lemma NotZero(k: bv32)
    ensures And(k, Not(0)) == k
  {
  }

  lemma NotApart(k: bv32, c: bv32)
    ensures And(And(k, Not(c)), c) == 0
  {
  }

  lemma NotOr(k: bv32, c: bv32, d: bv32)
    ensures And(And(k, Not(c)), Not(d)) == And(k, Not(Or(c, d)))
  {
  }

  /** Cutting a disjoint mask away changes nothing below d. */
  lemma CutApart(k: bv32, c: bv32, d: bv32)
    requires And(c, d) == 0
    ensures And(And(k, Not(c)), d) == And(k, d)
  {
  }

  /** A word below d meets nothing of what d does not meet. */
  lemma ApartBelow(b: bv32, d: bv32, c: bv32)
    requires And(c, d) == 0 && And(b, d) == b
    ensures And(b, c) == 0
  {
    hide And;
    AndAssociates(b, d, c);
    AndCommutes(c, d);
    AndZero(b);
  }

  /** Meeting the union of disjoint masks is meeting both. */
  lemma MeetsBoth(k: bv32, a: bv32, c: bv32, b: bv32, d: bv32)
    requires And(c, d) == 0 && And(a, c) == a && And(b, d) == b
    ensures And(k, Or(c, d)) == Or(a, b) <==> And(k, c) == a && And(k, d) == b
  {
    hide And, Or;
    MeetsOr(k, c, d);
    OrAbsorbs(k, c, d);
    AndCommutes(c, d);
    ApartBelow(a, c, d);
    ApartBelow(b, d, c);
    OrMeets(a, b, c);
    OrMeets(a, b, d);
    OrZero(a);
    OrZero(b);
  }

  lemma OrBelow(a: bv32, c: bv32, b: bv32, d: bv32)
    requires And(a, c) == a && And(b, d) == b
    ensures And(Or(a, b), Or(c, d)) == Or(a, b)
  {
    hide And, Or;
    OrMeets(a, b, Or(c, d));
    MeetsOr(a, c, d);
    MeetsOr(b, c, d);
    Absorbed(a, d);
    Absorbed(b, c);
    AbsorbedToo(b, c);
  }

  lemma Absorbed(a: bv32, d: bv32)
    ensures Or(a, And(a, d)) == a
  {
  }

  lemma AbsorbedToo(b: bv32, c: bv32)
    ensures Or(And(b, c), b) == b
  {
  }
}

/**
 Sums of products and their level-0 kernels (src/util/kitty_utils.cpp).  A cube
 keeps one bit per variable: mask tells which variables occur, bits their
 polarity.
 */
module Kernel {
  import opened Masks

  datatype Cube = Cube(bits: bv32, mask: bv32)

  type SOP = seq<Cube>

  /** The positive and the negative literals of a cube. */
  function OnesOf(c: Cube): bv32 {
    And(c.bits, c.mask)
  }

  function ZerosOf(c: Cube): bv32 {
    And(Not(c.bits), c.mask)
  }

  /** A cube of one literal, without bits outside its mask. */
  predicate IsLiteral(l: Cube) {
    Single(l.mask) && (l.bits == 0 || l.bits == l.mask)
  }

  predicate Normal(c: Cube) {
    And(c.bits, c.mask) == c.bits
  }

  function CubeHasLiteral(c: Cube, l: Cube): bool {
    And(c.mask, l.mask) != 0 && And(c.bits, l.mask) == l.bits
  }

  function CubeContain(large: Cube, small: Cube): bool {
    And(large.mask, small.mask) == small.mask && And(large.bits, small.mask) == small.bits
  }

  function CutCube(large: Cube, small: Cube): Cube {
    Cube(And(large.bits, Not(small.mask)), And(large.mask, Not(small.mask)))
  }

  /** The cubes that contain c, in order, with c cut. */
  function Quotient(sop: SOP, c: Cube): SOP {
    if sop == [] then []
    else
      var x := sop[|sop| - 1];
      var rest := Quotient(sop[..|sop| - 1], c);
      if CubeContain(x, c) then rest + [CutCube(x, c)] else rest
  }

  /** No literal occurs in two cubes. */
  ghost predicate NoRepeat(sop: SOP) {
    forall i, j, l :: 0 <= i < j < |sop| && IsLiteral(l) ==>
      !(CubeHasLiteral(sop[i], l) && CubeHasLiteral(sop[j], l))
  }

  /** Having a literal is containing it as a cube. */
  lemma LiteralContained(c: Cube, l: Cube)
    requires IsLiteral(l)
    ensures CubeHasLiteral(c, l) <==> CubeContain(c, l)
  {
    hide Single, And;
    if And(c.mask, l.mask) != 0 {
      SingleMeets(c.mask, l.mask);
    }
    SingleNonzero(l.mask);
  }

  lemma LiteralNormal(l: Cube)
    requires IsLiteral(l)
    ensures Normal(l)
  {
    hide Single, And;
    AndSelf(l.mask);
    AndZero(l.mask);
  }

  // ---------------------------------------------------------------------------
  // Dividing twice
  // ---------------------------------------------------------------------------

  function Join(c: Cube, d: Cube): Cube {
    Cube(Or(c.bits, d.bits), Or(c.mask, d.mask))
  }

  lemma JoinNormal(c: Cube, d: Cube)
    requires Normal(c) && Normal(d)
    ensures Normal(Join(c, d))
  {
    hide And, Or;
    OrBelow(c.bits, c.mask, d.bits, d.mask);
  }

  lemma CutTwice(x: Cube, c: Cube, d: Cube)
    ensures CutCube(CutCube(x, c), d) == CutCube(x, Join(c, d))
  {
    hide And, Or, Not;
    NotOr(x.bits, c.mask, d.mask);
    NotOr(x.mask, c.mask, d.mask);
  }

  lemma ContainTwice(x: Cube, c: Cube, d: Cube)
    requires Normal(c) && Normal(d) && And(c.mask, d.mask) == 0
    ensures CubeContain(x, Join(c, d)) <==> CubeContain(x, c) && CubeContain(CutCube(x, c), d)
  {
    hide And, Or, Not;
    CutApart(x.mask, c.mask, d.mask);
    CutApart(x.bits, c.mask, d.mask);
    AndSelf(c.mask);
    AndSelf(d.mask);
    MeetsBoth(x.mask, c.mask, c.mask, d.mask, d.mask);
    MeetsBoth(x.bits, c.bits, c.mask, d.bits, d.mask);
  }

  /** A cube contained after a cut shares no variable with it. */
  lemma ContainApart(x: Cube, c: Cube, d: Cube)
    requires CubeContain(CutCube(x, c), d)
    ensures And(c.mask, d.mask) == 0
  {
    hide And, Not;
    var m := And(x.mask, Not(c.mask));
    NotApart(x.mask, c.mask);
    AndAssociates(c.mask, m, d.mask);
    AndCommutes(c.mask, m);
    AndZero(d.mask);
  }

  lemma {:induction false} QuotientMember(sop: SOP, c: Cube, y: Cube)
    requires y in Quotient(sop, c)
    ensures exists x :: x in sop && CubeContain(x, c) && y == CutCube(x, c)
  {
    hide CubeContain, CutCube, And;
    var n := |sop| - 1;
    var x := sop[n];
    assert sop == sop[..n] + [x];
    if y in Quotient(sop[..n], c) {
      QuotientMember(sop[..n], c, y);
      var z :| z in sop[..n] && CubeContain(z, c) && y == CutCube(z, c);
      assert z in sop;
    } else {
      assert x in sop && CubeContain(x, c) && y == CutCube(x, c);
    }
  }

  /** Dividing by c and then by d is dividing by both at once. */
  lemma {:induction false} QuotientTwice(sop: SOP, c: Cube, d: Cube)
    requires Normal(c) && Normal(d) && And(c.mask, d.mask) == 0
    ensures Quotient(Quotient(sop, c), d) == Quotient(sop, Join(c, d))
  {
    hide CubeContain, CutCube, Normal, Join, And;
    if sop != [] {
      var n := |sop| - 1;
      var x := sop[n];
      QuotientTwice(sop[..n], c, d);
      ContainTwice(x, c, d);
      CutTwice(x, c, d);
      var q := Quotient(sop[..n], c);
      assert (q + [CutCube(x, c)])[..|q|] == q;
    }
  }

  /** A quotient that is not empty was taken by a cube apart from the first divisor. */
  lemma QuotientApart(sop: SOP, c: Cube, d: Cube)
    requires Quotient(Quotient(sop, c), d) != []
    ensures And(c.mask, d.mask) == 0
  {
    hide CubeContain, CutCube, And;
    var y := Quotient(Quotient(sop, c), d)[0];
    QuotientMember(Quotient(sop, c), d, y);
    var z :| z in Quotient(sop, c) && CubeContain(z, d);
    QuotientMember(sop, c, z);
    var x :| x in sop && CubeContain(x, c) && z == CutCube(x, c);
    ContainApart(x, c, d);
  }

  /** Dividing by nothing. */
  lemma {:induction false} QuotientByNothing(sop: SOP)
    ensures Quotient(sop, Cube(0, 0)) == sop
  {
    hide And, Not;
    if sop != [] {
      var x := sop[|sop| - 1];
      QuotientByNothing(sop[..|sop| - 1]);
      NotZero(x.bits);
      NotZero(x.mask);
      AndZero(x.bits);
      AndZero(x.mask);
      assert sop == sop[..|sop| - 1] + [x];
    }
  }

  // ---------------------------------------------------------------------------
  // Repeated literals
  // ---------------------------------------------------------------------------

  /** A common positive literal, or a common negative one. */
  predicate Shares(c: Cube, d: Cube) {
    And(OnesOf(c), OnesOf(d)) != 0 || And(ZerosOf(c), ZerosOf(d)) != 0
  }

  /** Two cubes share a literal exactly when their words meet. */
  lemma SharesLiteral(c: Cube, d: Cube, l: Cube)
    requires IsLiteral(l) && CubeHasLiteral(c, l) && CubeHasLiteral(d, l)
    ensures Shares(c, d)
  {
    hide And, Single, Not;
    LiteralWords(c, l);
    LiteralWords(d, l);
    SingleNonzero(l.mask);
    if l.bits == l.mask {
      BothMeet(OnesOf(c), OnesOf(d), l.mask);
    } else {
      BothMeet(ZerosOf(c), ZerosOf(d), l.mask);
    }
  }

  lemma BothMeet(a: bv32, b: bv32, m: bv32)
    requires And(a, m) == m && And(b, m) == m && m != 0
    ensures And(a, b) != 0
  {
  }

  /** A literal in terms of the words of a cube. */
  lemma LiteralWords(c: Cube, l: Cube)
    requires IsLiteral(l)
    ensures l.bits == l.mask ==> (CubeHasLiteral(c, l) <==> And(OnesOf(c), l.mask) == l.mask)
    ensures l.bits == 0 ==> (CubeHasLiteral(c, l) <==> And(ZerosOf(c), l.mask) == l.mask)
  {
    hide And, Single, Not;
    LiteralContained(c, l);
    BothBelow(c.bits, c.mask, l.mask);
    BothBelow(Not(c.bits), c.mask, l.mask);
    NotBelow(c.bits, l.mask);
  }

  lemma BothBelow(a: bv32, b: bv32, m: bv32)
    ensures And(And(a, b), m) == m <==> And(a, m) == m && And(b, m) == m
  {
    hide And;
    AndAssociates(a, b, m);
    if And(And(a, b), m) == m {
      BelowFirst(a, b, m);
      AndCommutes(a, b);
      BelowFirst(b, a, m);
    }
  }

  lemma BelowFirst(a: bv32, b: bv32, m: bv32)
    requires And(And(a, b), m) == m
    ensures And(a, m) == m
  {
  }

  lemma NotBelow(a: bv32, m: bv32)
    ensures And(Not(a), m) == m <==> And(a, m) == 0
  {
  }

  /** The literals met so far. */
  function OnesBuf(sop: SOP): bv32 {
    if sop == [] then 0 else Or(OnesBuf(sop[..|sop| - 1]), OnesOf(sop[|sop| - 1]))
  }

  function ZerosBuf(sop: SOP): bv32 {
    if sop == [] then 0 else Or(ZerosBuf(sop[..|sop| - 1]), ZerosOf(sop[|sop| - 1]))
  }

  /** A recorded bit comes from some cube. */
  lemma {:induction false} OnesRecorded(sop: SOP, b: bv32) returns (i: nat)
    requires Single(b) && And(OnesBuf(sop), b) == b
    ensures i < |sop| && And(OnesOf(sop[i]), b) == b
  {
    hide And, Or, Not, Single, OnesOf;
    SingleNonzero(b);
    AndZero(b);
    var n := |sop| - 1;
    BitOfOr(OnesBuf(sop[..n]), OnesOf(sop[n]), b);
    if And(OnesOf(sop[n]), b) == b {
      i := n;
    } else {
      i := OnesRecorded(sop[..n], b);
    }
  }

  lemma {:induction false} ZerosRecorded(sop: SOP, b: bv32) returns (i: nat)
    requires Single(b) && And(ZerosBuf(sop), b) == b
    ensures i < |sop| && And(ZerosOf(sop[i]), b) == b
  {
    hide And, Or, Not, Single, ZerosOf;
    SingleNonzero(b);
    AndZero(b);
    var n := |sop| - 1;
    BitOfOr(ZerosBuf(sop[..n]), ZerosOf(sop[n]), b);
    if And(ZerosOf(sop[n]), b) == b {
      i := n;
    } else {
      i := ZerosRecorded(sop[..n], b);
    }
  }

  lemma BitOfOr(a: bv32, c: bv32, b: bv32)
    requires Single(b) && And(Or(a, c), b) == b
    ensures And(a, b) == b || And(c, b) == b
  {
    hide And, Or, Single;
    OrMeets(a, c, b);
    if And(a, b) != 0 {
      SingleMeets(a, b);
    } else {
      OrZero(And(c, b));
    }
  }

  /** A cube that meets nothing recorded shares no literal with any earlier cube. */
  lemma {:induction false} NothingRecorded(sop: SOP, c: Cube, i: nat)
    requires i < |sop|
    requires And(OnesBuf(sop), OnesOf(c)) == 0 && And(ZerosBuf(sop), ZerosOf(c)) == 0
    ensures !Shares(sop[i], c)
  {
    hide And, Or, Not, OnesOf, ZerosOf;
    var n := |sop| - 1;
    OrApart(OnesBuf(sop[..n]), OnesOf(sop[n]), OnesOf(c));
    OrApart(ZerosBuf(sop[..n]), ZerosOf(sop[n]), ZerosOf(c));
    if i < n {
      NothingRecorded(sop[..n], c, i);
    }
  }

  lemma OrApart(a: bv32, b: bv32, c: bv32)
    requires And(Or(a, b), c) == 0
    ensures And(a, c) == 0 && And(b, c) == 0
  {
    hide And, Or;
    OrMeets(a, b, c);
    OrEmpty(And(a, c), And(b, c));
  }

  lemma OrEmpty(a: bv32, b: bv32)
    requires Or(a, b) == 0
    ensures a == 0 && b == 0
  {
  }

  /** Two cubes at different places have the literal. */
  ghost predicate Repeats(sop: SOP, l: Cube) {
    exists i, j :: 0 <= i < j < |sop| && CubeHasLiteral(sop[i], l) && CubeHasLiteral(sop[j], l)
  }

  ghost predicate NoneShare(sop: SOP, n: nat)
    requires n <= |sop|
  {
    forall i, j :: 0 <= i < j < n ==> !Shares(sop[i], sop[j])
  }

  lemma NoneShareLiteral(sop: SOP)
    requires NoneShare(sop, |sop|)
    ensures NoRepeat(sop)
  {
    hide IsLiteral, CubeHasLiteral, Shares;
    forall i, j, l | 0 <= i < j < |sop| && IsLiteral(l)
      ensures !(CubeHasLiteral(sop[i], l) && CubeHasLiteral(sop[j], l))
    {
      if CubeHasLiteral(sop[i], l) && CubeHasLiteral(sop[j], l) {
        SharesLiteral(sop[i], sop[j], l);
      }
    }
  }

  /** A literal that occurs in two cubes, or the empty cube when there is none. */
  method FindAnyRepeatLiteral(sop: SOP) returns (l: Cube)
    ensures l.mask == 0 ==> NoRepeat(sop)
    ensures l.mask != 0 ==> IsLiteral(l) && Repeats(sop, l)
  {
    hide And, Or, Not, Single, OnesOf, ZerosOf, Shares, FirstOneBit, NoRepeat, Repeats, IsLiteral;
    var onesBuf: bv32, zerosBuf: bv32 := 0, 0;
    var n := 0;
    while n < |sop|
      invariant n <= |sop|
      invariant onesBuf == OnesBuf(sop[..n]) && zerosBuf == ZerosBuf(sop[..n])
      invariant NoneShare(sop, n)
    {
      var ones, zeros := OnesOf(sop[n]), ZerosOf(sop[n]);
      var repeatOnes, repeatZeros := And(onesBuf, ones), And(zerosBuf, zeros);
      if repeatOnes != 0 {
        var bit := FirstOneBit(repeatOnes);
        OnesFound(sop, n, bit);
        return Cube(bit, bit);
      }
      if repeatZeros != 0 {
        var bit := FirstOneBit(repeatZeros);
        ZerosFound(sop, n, bit);
        return Cube(0, bit);
      }
      forall i | 0 <= i < n ensures !Shares(sop[i], sop[n]) {
        NothingRecorded(sop[..n], sop[n], i);
      }
      assert sop[..n + 1][..n] == sop[..n];
      onesBuf, zerosBuf := Or(onesBuf, ones), Or(zerosBuf, zeros);
      n := n + 1;
    }
    NoneShareLiteral(sop);
    return Cube(0, 0);
  }

  lemma OnesFound(sop: SOP, n: nat, bit: bv32)
    requires n < |sop| && And(OnesBuf(sop[..n]), OnesOf(sop[n])) != 0
    requires bit == FirstOneBit(And(OnesBuf(sop[..n]), OnesOf(sop[n])))
    ensures bit != 0 && IsLiteral(Cube(bit, bit)) && Repeats(sop, Cube(bit, bit))
  {
    hide And, Or, Not, Single, OnesOf, OnesBuf, CubeHasLiteral, FirstOneBit;
    var a, b := OnesBuf(sop[..n]), OnesOf(sop[n]);
    FirstIsSingle(And(a, b));
    FirstIsIn(And(a, b));
    BothBelow(a, b, bit);
    SingleNonzero(bit);
    var i := OnesRecorded(sop[..n], bit);
    LiteralWords(sop[i], Cube(bit, bit));
    LiteralWords(sop[n], Cube(bit, bit));
  }

  lemma ZerosFound(sop: SOP, n: nat, bit: bv32)
    requires n < |sop| && And(ZerosBuf(sop[..n]), ZerosOf(sop[n])) != 0
    requires bit == FirstOneBit(And(ZerosBuf(sop[..n]), ZerosOf(sop[n])))
    ensures bit != 0 && IsLiteral(Cube(0, bit)) && Repeats(sop, Cube(0, bit))
  {
    hide And, Or, Not, Single, ZerosOf, ZerosBuf, CubeHasLiteral, FirstOneBit;
    var a, b := ZerosBuf(sop[..n]), ZerosOf(sop[n]);
    FirstIsSingle(And(a, b));
    FirstIsIn(And(a, b));
    BothBelow(a, b, bit);
    SingleNonzero(bit);
    var i := ZerosRecorded(sop[..n], bit);
    LiteralWords(sop[i], Cube(0, bit));
    LiteralWords(sop[n], Cube(0, bit));
  }

  // ---------------------------------------------------------------------------
  // Division and common cubes
  // ---------------------------------------------------------------------------

  /** The cubes with the literal, without it. */
  method FindDivideByLiteralQuotient(sop: SOP, l: Cube) returns (q: SOP)
    requires IsLiteral(l)
    ensures q == Quotient(sop, l)
  {
    hide And, Not, Single, IsLiteral, CubeContain, CubeHasLiteral;
    q := [];
    var n := 0;
    while n < |sop|
      invariant n <= |sop| && q == Quotient(sop[..n], l)
    {
      assert sop[..n + 1][..n] == sop[..n];
      LiteralContained(sop[n], l);
      if CubeHasLiteral(sop[n], l) {
        q := q + [Cube(And(sop[n].bits, Not(l.mask)), And(sop[n].mask, Not(l.mask)))];
      }
      n := n + 1;
    }
    assert sop[..n] == sop;
  }

  /** Every cube contains c. */
  ghost predicate Common(sop: SOP, c: Cube) {
    forall i :: 0 <= i < |sop| ==> CubeContain(sop[i], c)
  }

  /** The bits of w that all the cubes have as positive, or as negative, literals. */
  function CommonOnes(sop: SOP, w: bv32): bv32 {
    if sop == [] then w else And(CommonOnes(sop[..|sop| - 1], w), OnesOf(sop[|sop| - 1]))
  }

  function CommonZeros(sop: SOP, w: bv32): bv32 {
    if sop == [] then w else And(CommonZeros(sop[..|sop| - 1], w), ZerosOf(sop[|sop| - 1]))
  }

  /** A literal is kept when it is among the bits started from and every cube has it. */
  lemma {:induction false} CommonOnesExact(sop: SOP, w: bv32, m: bv32)
    ensures And(CommonOnes(sop, w), m) == m <==>
            And(w, m) == m && forall i :: 0 <= i < |sop| ==> And(OnesOf(sop[i]), m) == m
  {
    hide And, Not, OnesOf;
    if sop != [] {
      var n := |sop| - 1;
      assert forall i :: 0 <= i < n ==> sop[..n][i] == sop[i];
      CommonOnesExact(sop[..n], w, m);
      BothBelow(CommonOnes(sop[..n], w), OnesOf(sop[n]), m);
    }
  }

  lemma {:induction false} CommonZerosExact(sop: SOP, w: bv32, m: bv32)
    ensures And(CommonZeros(sop, w), m) == m <==>
            And(w, m) == m && forall i :: 0 <= i < |sop| ==> And(ZerosOf(sop[i]), m) == m
  {
    hide And, Not, ZerosOf;
    if sop != [] {
      var n := |sop| - 1;
      assert forall i :: 0 <= i < n ==> sop[..n][i] == sop[i];
      CommonZerosExact(sop[..n], w, m);
      BothBelow(CommonZeros(sop[..n], w), ZerosOf(sop[n]), m);
    }
  }

  /** Positive literals p and negative literals q of a cube make up a cube that it contains. */
  lemma WordsContained(c: Cube, p: bv32, q: bv32)
    requires And(OnesOf(c), p) == p && And(ZerosOf(c), q) == q
    ensures CubeContain(c, Cube(p, Or(p, q)))
  {
    hide And, Or, Not;
    BothBelow(c.bits, c.mask, p);
    BothBelow(Not(c.bits), c.mask, q);
    NotBelow(c.bits, q);
    MeetsOr(c.mask, p, q);
    MeetsOr(c.bits, p, q);
    OrZero(p);
  }

  lemma WordsNormal(p: bv32, q: bv32)
    ensures Normal(Cube(p, Or(p, q)))
  {
    hide And, Or;
    OrKeeps(p, q);
    AndCommutes(p, Or(p, q));
  }

  /** The literals of the first variable that all cubes have: both words start from 1. */
  method FindCommonCube(sop: SOP) returns (c: Cube)
    ensures Normal(c) && Common(sop, c)
    ensures c.bits == CommonOnes(sop, 1)
    ensures c.mask == Or(CommonOnes(sop, 1), CommonZeros(sop, 1))
  {
    hide And, Or, Not, OnesOf, ZerosOf, CubeContain, Normal;
    var ones: bv32, zeros: bv32 := 1, 1;
    var n := 0;
    while n < |sop|
      invariant n <= |sop|
      invariant ones == CommonOnes(sop[..n], 1) && zeros == CommonZeros(sop[..n], 1)
    {
      assert sop[..n + 1][..n] == sop[..n];
      ones, zeros := And(ones, OnesOf(sop[n])), And(zeros, ZerosOf(sop[n]));
      n := n + 1;
    }
    assert sop[..n] == sop;
    AndSelf(ones);
    AndSelf(zeros);
    CommonOnesExact(sop, 1, ones);
    CommonZerosExact(sop, 1, zeros);
    forall i | 0 <= i < |sop| ensures CubeContain(sop[i], Cube(ones, Or(ones, zeros))) {
      WordsContained(sop[i], ones, zeros);
    }
    WordsNormal(ones, zeros);
    c := Cube(ones, Or(ones, zeros));
  }

  lemma {:induction false} CommonQuotient(sop: SOP, c: Cube)
    requires Common(sop, c)
    ensures |Quotient(sop, c)| == |sop|
    ensures forall i :: 0 <= i < |sop| ==> Quotient(sop, c)[i] == CutCube(sop[i], c)
  {
    hide CubeContain, CutCube;
    if sop != [] {
      var n := |sop| - 1;
      assert forall i :: 0 <= i < n ==> sop[..n][i] == sop[i];
      CommonQuotient(sop[..n], c);
    }
  }

  lemma CutNothing(sop: SOP, c: Cube)
    requires Normal(c) && c.mask == 0
    ensures Quotient(sop, c) == sop
  {
    hide And;
    AndZero(c.bits);
    QuotientByNothing(sop);
  }

  /** Cuts the common cube, if there is one, out of every cube. */
  method MakeCubeFree(sop: SOP) returns (q: SOP, ghost c: Cube)
    ensures Normal(c) && Common(sop, c)
    ensures c.mask == Or(CommonOnes(sop, 1), CommonZeros(sop, 1))
    ensures q == Quotient(sop, c) && |q| == |sop|
  {
    hide And, Or, Not, CubeContain, Normal;
    var common := FindCommonCube(sop);
    c := common;
    q := sop;
    CommonQuotient(sop, c);
    if common.mask != 0 {
      var n := 0;
      while n < |q|
        invariant n <= |q| == |sop|
        invariant forall i :: 0 <= i < n ==> q[i] == CutCube(sop[i], common)
        invariant forall i :: n <= i < |q| ==> q[i] == sop[i]
      {
        q := q[n := Cube(And(q[n].bits, Not(common.mask)), And(q[n].mask, Not(common.mask)))];
        n := n + 1;
      }
      assert q == Quotient(sop, c);
    } else {
      CutNothing(sop, c);
    }
  }

  // ---------------------------------------------------------------------------
  // Kernels
  // ---------------------------------------------------------------------------

  lemma {:induction false} QuotientOne(sop: SOP, c: Cube, i: nat)
    requires i < |sop| && CubeContain(sop[i], c)
    ensures |Quotient(sop, c)| >= 1
  {
    hide CubeContain;
    var n := |sop| - 1;
    if i < n {
      QuotientOne(sop[..n], c, i);
    }
  }

  lemma {:induction false} QuotientTwo(sop: SOP, c: Cube, i: nat, j: nat)
    requires i < j < |sop| && CubeContain(sop[i], c) && CubeContain(sop[j], c)
    ensures |Quotient(sop, c)| >= 2
  {
    hide CubeContain;
    var n := |sop| - 1;
    if j < n {
      QuotientTwo(sop[..n], c, i, j);
    } else {
      QuotientOne(sop[..n], c, i);
    }
  }

  lemma RepeatsQuotient(sop: SOP, l: Cube)
    requires IsLiteral(l) && Repeats(sop, l)
    ensures |Quotient(sop, l)| >= 2
  {
    hide IsLiteral, CubeContain, CubeHasLiteral;
    var i, j :| 0 <= i < j < |sop| && CubeHasLiteral(sop[i], l) && CubeHasLiteral(sop[j], l);
    LiteralContained(sop[i], l);
    LiteralContained(sop[j], l);
    QuotientTwo(sop, l, i, j);
  }

  /** The variables that occur. */
  function Support(sop: SOP): bv32 {
    if sop == [] then 0 else Or(Support(sop[..|sop| - 1]), sop[|sop| - 1].mask)
  }

  /** The variables of a quotient occur before, and those of the divisor no longer do. */
  lemma {:induction false} QuotientSupport(sop: SOP, c: Cube)
    ensures And(Support(Quotient(sop, c)), Support(sop)) == Support(Quotient(sop, c))
    ensures And(Support(Quotient(sop, c)), c.mask) == 0
  {
    hide And, Or, Not, CubeContain;
    if sop == [] {
      AndZero(0);
      AndZero(c.mask);
    } else {
      var n := |sop| - 1;
      var x, q, s := sop[n], Quotient(sop[..n], c), Support(sop[..n]);
      QuotientSupport(sop[..n], c);
      BelowOr(Support(q), s, x.mask);
      if CubeContain(x, c) {
        assert (q + [CutCube(x, c)])[..|q|] == q;
        var m := And(x.mask, Not(c.mask));
        CutBelow(x.mask, c.mask);
        OrBelow(Support(q), s, m, x.mask);
        NotApart(x.mask, c.mask);
        OrMeets(Support(q), m, c.mask);
        OrZero(0);
      }
    }
  }

  lemma BelowOr(a: bv32, b: bv32, c: bv32)
    requires And(a, b) == a
    ensures And(a, Or(b, c)) == a
  {
    hide And, Or;
    MeetsOr(a, b, c);
    Absorbed(a, c);
  }

  lemma CutBelow(a: bv32, c: bv32)
    ensures And(And(a, Not(c)), a) == And(a, Not(c))
  {
    hide And, Not;
    AndCommutes(And(a, Not(c)), a);
    AndAssociates(a, a, Not(c));
    AndSelf(a);
  }

  predicate Less(a: bv32, b: bv32) {
    a < b
  }

  lemma SmallerWord(a: bv32, b: bv32, m: bv32)
    requires And(a, b) == a && And(a, m) == 0 && And(b, m) == m && m != 0
    ensures Less(a, b)
  {
  }

  lemma {:induction false} SupportOf(sop: SOP, i: nat)
    requires i < |sop|
    ensures And(Support(sop), sop[i].mask) == sop[i].mask
  {
    hide And, Or;
    var n := |sop| - 1;
    OrKeeps(Support(sop[..n]), sop[n].mask);
    if i < n {
      SupportOf(sop[..n], i);
      var m := sop[i].mask;
      AndCommutes(Support(sop[..n]), m);
      BelowOr(m, Support(sop[..n]), sop[n].mask);
      AndCommutes(Support(sop), m);
    }
  }

  lemma BelowTrans(s: bv32, x: bv32, m: bv32)
    requires And(s, x) == x && And(x, m) == m
    ensures And(s, m) == m
  {
    hide And;
    AndAssociates(s, x, m);
  }

  /** The variable of a repeated literal occurs. */
  lemma RepeatedOccurs(sop: SOP, l: Cube)
    requires IsLiteral(l) && Repeats(sop, l)
    ensures And(Support(sop), l.mask) == l.mask && l.mask != 0
  {
    hide And, IsLiteral, CubeHasLiteral, Support;
    var i, j :| 0 <= i < j < |sop| && CubeHasLiteral(sop[i], l) && CubeHasLiteral(sop[j], l);
    LiteralContained(sop[i], l);
    SupportOf(sop, i);
    BelowTrans(Support(sop), sop[i].mask, l.mask);
    LiteralMask(l);
  }

  /** Every division by a repeated literal leaves fewer variables. */
  lemma SupportFalls(sop: SOP, l: Cube, c: Cube)
    requires IsLiteral(l) && Repeats(sop, l)
    ensures Less(Support(Quotient(Quotient(sop, l), c)), Support(sop))
  {
    hide And, IsLiteral, Repeats, Support, Quotient, Less;
    var q := Quotient(sop, l);
    var s1, s2 := Support(q), Support(Quotient(q, c));
    RepeatedOccurs(sop, l);
    QuotientSupport(sop, l);
    QuotientSupport(q, c);
    AndAssociates(s2, s1, Support(sop));
    AndAssociates(s2, s1, l.mask);
    AndZero(s2);
    SmallerWord(s2, Support(sop), l.mask);
  }

  lemma LiteralMask(l: Cube)
    requires IsLiteral(l)
    ensures l.mask != 0 && Single(l.mask)
  {
    SingleNonzero(l.mask);
  }

  /** q is the quotient of the sum by some cube. */
  ghost predicate IsQuotient(sop: SOP, q: SOP) {
    exists c :: Normal(c) && q == Quotient(sop, c)
  }

  /**
   The kernel search: divide by a repeated literal, cut the common cube, go on.  The
   result is the quotient of the sum by a cube, and no literal occurs in two of its
   cubes.
   */
  method FindAnyLevel0Kernel(sop: SOP) returns (k: SOP)
    ensures IsQuotient(sop, k) && NoRepeat(k)
    ensures |sop| >= 2 ==> |k| >= 2
    decreases Support(sop)
  {
    hide And, Or, IsLiteral, Normal, NoRepeat, Repeats, Common, Support, Quotient, Join;
    var l := FindAnyRepeatLiteral(sop);
    if l.mask == 0 {
      QuotientByNothing(sop);
      NothingNormal();
      assert Normal(Cube(0, 0)) && sop == Quotient(sop, Cube(0, 0));
      return sop;
    }
    var q := FindDivideByLiteralQuotient(sop, l);
    RepeatsQuotient(sop, l);
    var q', common := MakeCubeFree(q);
    SupportFalls(sop, l, common);
    k := FindAnyLevel0Kernel(q');
    ghost var d :| Normal(d) && k == Quotient(q', d);
    LiteralNormal(l);
    Compose(sop, l, common);
    Compose(sop, Join(l, common), d);
    assert Normal(Join(Join(l, common), d)) && k == Quotient(sop, Join(Join(l, common), d));
  }

  lemma NothingNormal()
    ensures Normal(Cube(0, 0))
  {
    AndZero(0);
  }

  lemma Compose(sop: SOP, c: Cube, d: Cube)
    requires Normal(c) && Normal(d) && |Quotient(Quotient(sop, c), d)| > 0
    ensures Normal(Join(c, d)) && Quotient(Quotient(sop, c), d) == Quotient(sop, Join(c, d))
  {
    hide And, Normal, Join, Quotient;
    QuotientApart(sop, c, d);
    QuotientTwice(sop, c, d);
    JoinNormal(c, d);
  }

  /** Two cubes without a repeated literal have none in common: such a kernel is cube-free. */
  lemma KernelCubeFree(k: SOP, l: Cube)
    requires NoRepeat(k) && |k| >= 2 && IsLiteral(l)
    ensures !Common(k, l)
  {
    hide CubeContain, CubeHasLiteral, IsLiteral;
    if Common(k, l) {
      LiteralContained(k[0], l);
      LiteralContained(k[1], l);
      assert false;
    }
  }

  // ---------------------------------------------------------------------------
  // Meaning
  // ---------------------------------------------------------------------------

  /** The product under the variable values a: the values agree with all literals. */
  predicate Product(c: Cube, a: bv32) {
    And(c.bits, c.mask) == And(a, c.mask)
  }

  predicate Sum(sop: SOP, a: bv32) {
    sop != [] && (Sum(sop[..|sop| - 1], a) || Product(sop[|sop| - 1], a))
  }

  /** The cubes that do not contain c. */
  function Remainder(sop: SOP, c: Cube): SOP {
    if sop == [] then []
    else
      var x := sop[|sop| - 1];
      var rest := Remainder(sop[..|sop| - 1], c);
      if CubeContain(x, c) then rest else rest + [x]
  }

  lemma MaskParts(k: bv32, m: bv32, n: bv32)
    requires And(m, n) == n
    ensures And(k, m) == Or(And(k, n), And(k, And(m, Not(n))))
  {
  }

  lemma CutMeets(k: bv32, m: bv32, n: bv32)
    ensures And(And(k, Not(n)), And(m, Not(n))) == And(k, And(m, Not(n)))
  {
  }

  /** A product that contains c is c times the rest. */
  lemma ProductSplit(x: Cube, c: Cube, a: bv32)
    requires Normal(c) && CubeContain(x, c)
    ensures Product(x, a) <==> Product(c, a) && Product(CutCube(x, c), a)
  {
    hide And, Or, Not;
    var m, n := x.mask, c.mask;
    MaskParts(x.bits, m, n);
    MaskParts(a, m, n);
    CutMeets(x.bits, m, n);
    AndAssociates(x.bits, m, n);
    AndAssociates(a, m, n);
    AndAssociates(x.bits, m, Not(n));
    AndAssociates(a, m, Not(n));
  }

  /** Algebraic division keeps the meaning: the sum is c times the quotient plus the remainder. */
  lemma {:induction false} DivisionMeans(sop: SOP, c: Cube, a: bv32)
    requires Normal(c)
    ensures Sum(sop, a) <==> (Product(c, a) && Sum(Quotient(sop, c), a)) || Sum(Remainder(sop, c), a)
  {
    hide And, Normal, Product, CubeContain, CutCube;
    if sop != [] {
      var n := |sop| - 1;
      var x, q, r := sop[n], Quotient(sop[..n], c), Remainder(sop[..n], c);
      DivisionMeans(sop[..n], c, a);
      if CubeContain(x, c) {
        ProductSplit(x, c, a);
        assert (q + [CutCube(x, c)])[..|q|] == q;
      } else {
        assert (r + [x])[..|r|] == r;
      }
    }
  }
}
