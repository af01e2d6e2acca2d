/**
 Unsigned words as naturals, with the bitwise operators spelled out, and the
 counting of ones in src/util/bits.h.
 */
module Bits {

  // ---------------------------------------------------------------------------
  // Bitwise operators
  // ---------------------------------------------------------------------------

  /** x & y */
  function And(x: nat, y: nat): (r: nat)
    ensures r <= x
    decreases x
  {
    if x == 0 || y == 0 then 0 else (if x % 2 == 1 && y % 2 == 1 then 1 else 0) + 2 * And(x / 2, y / 2)
  }

  /** x | y */
  function Or(x: nat, y: nat): nat
    decreases x + y
  {
    if x == 0 then y
    else if y == 0 then x
    else (if x % 2 == 1 || y % 2 == 1 then 1 else 0) + 2 * Or(x / 2, y / 2)
  }

  function Power2(i: nat): (r: nat)
    ensures r > 0
  {
    if i == 0 then 1 else 2 * Power2(i - 1)
  }

  /** Bit i of x. */
  predicate Bit(x: nat, i: nat)
    decreases i
  {
    if i == 0 then x % 2 == 1 else Bit(x / 2, i - 1)
  }

  /** The number of ones. */
  function Ones(x: nat): nat {
    if x == 0 then 0 else x % 2 + Ones(x / 2)
  }

  lemma {:induction false} ZeroBits(i: nat)
    ensures !Bit(0, i)
  {
    if i > 0 {
      ZeroBits(i - 1);
    }
  }

  lemma {:induction false} AndBit(x: nat, y: nat, i: nat)
    ensures Bit(And(x, y), i) <==> Bit(x, i) && Bit(y, i)
    decreases i
  {
    if x == 0 || y == 0 {
      ZeroBits(i);
    } else if i > 0 {
      assert And(x, y) / 2 == And(x / 2, y / 2);
      AndBit(x / 2, y / 2, i - 1);
    }
  }

  lemma OrHalves(x: nat, y: nat)
    ensures Or(x, y) % 2 == 1 <==> x % 2 == 1 || y % 2 == 1
    ensures Or(x, y) / 2 == Or(x / 2, y / 2)
  {
    if x == 0 {
      assert Or(0, y / 2) == y / 2;
    } else if y == 0 {
      assert Or(x / 2, 0) == x / 2;
    }
  }

  lemma {:induction false} OrBit(x: nat, y: nat, i: nat)
    ensures Bit(Or(x, y), i) <==> Bit(x, i) || Bit(y, i)
    decreases i
  {
    OrHalves(x, y);
    if i > 0 {
      OrBit(x / 2, y / 2, i - 1);
    }
  }

  lemma {:induction false} PowerBit(i: nat, j: nat)
    ensures Bit(Power2(i), j) <==> i == j
    decreases j
  {
    if j > 0 {
      if i == 0 {
        ZeroBits(j - 1);
      } else {
        assert Power2(i) / 2 == Power2(i - 1);
        PowerBit(i - 1, j - 1);
      }
    }
  }

  /** Words with the same bits are equal. */
  lemma {:induction false} SameBits(x: nat, y: nat)
    requires forall i: nat :: Bit(x, i) <==> Bit(y, i)
    ensures x == y
    decreases x + y
  {
    if x != 0 || y != 0 {
      assert Bit(x, 0) <==> Bit(y, 0);
      forall i: nat ensures Bit(x / 2, i) <==> Bit(y / 2, i) {
        assert Bit(x, i + 1) <==> Bit(y, i + 1);
      }
      SameBits(x / 2, y / 2);
    }
  }

  lemma {:induction false} OrBounded(x: nat, y: nat, n: nat)
    requires x < Power2(n) && y < Power2(n)
    ensures Or(x, y) < Power2(n)
    decreases n
  {
    if x != 0 && y != 0 {
      OrBounded(x / 2, y / 2, n - 1);
    }
  }

  /** Setting one bit adds at most one to the count. */
  lemma {:induction false} OnesOfOr(x: nat, i: nat)
    ensures Ones(Or(x, Power2(i))) <= Ones(x) + 1
    decreases i
  {
    var p := Power2(i);
    if x == 0 {
      OnesOfPower(i);
    } else if i == 0 {
      assert Or(x / 2, 0) == x / 2;
      assert Or(x, 1) / 2 == x / 2;
    } else {
      assert p % 2 == 0 && p / 2 == Power2(i - 1);
      OnesOfOr(x / 2, i - 1);
      assert Or(x, p) % 2 == x % 2 && Or(x, p) / 2 == Or(x / 2, p / 2);
    }
  }

  lemma {:induction false} OnesOfPower(i: nat)
    ensures Ones(Power2(i)) == 1
  {
    if i > 0 {
      assert Power2(i) % 2 == 0 && Power2(i) / 2 == Power2(i - 1);
      OnesOfPower(i - 1);
    }
  }

  // ---------------------------------------------------------------------------
  // Splitting a word into nibbles and bytes
  // ---------------------------------------------------------------------------

  lemma AndSplit4(x: nat, y: nat)
    ensures And(x, y) == And(x % 4, y % 4) + 4 * And(x / 4, y / 4)
  {
    hide And;
    AndSplit2(x, y);
    AndSplit2(x / 2, y / 2);
    AndSplit2(x % 4, y % 4);
    Quotients(x);
    Quotients(y);
  }

  lemma AndSplit2(x: nat, y: nat)
    ensures And(x, y) == And(x % 2, y % 2) + 2 * And(x / 2, y / 2)
  {
    SmallAnd(x % 2, y % 2);
  }

  lemma SmallAnd(a: nat, b: nat)
    requires a < 2 && b < 2
    ensures And(a, b) == if a == 1 && b == 1 then 1 else 0
  {
  }

  lemma Quotients(x: nat)
    ensures x % 4 % 2 == x % 2 && x % 4 / 2 == x / 2 % 2 && x / 2 / 2 == x / 4
  {
  }

  lemma AndSplit16(x: nat, y: nat)
    ensures And(x, y) == And(x % 16, y % 16) + 16 * And(x / 16, y / 16)
  {
    hide And;
    AndSplit4(x, y);
    AndSplit4(x / 4, y / 4);
    AndSplit4(x % 16, y % 16);
    Quotients4(x);
    Quotients4(y);
  }

  lemma Quotients4(x: nat)
    ensures x % 16 % 4 == x % 4 && x % 16 / 4 == x / 4 % 4 && x / 4 / 4 == x / 16
  {
  }

  lemma AndSplit256(x: nat, y: nat)
    ensures And(x, y) == And(x % 256, y % 256) + 256 * And(x / 256, y / 256)
  {
    hide And;
    AndSplit16(x, y);
    AndSplit16(x / 16, y / 16);
    AndSplit16(x % 256, y % 256);
    Quotients16(x);
    Quotients16(y);
  }

  lemma Quotients16(x: nat)
    ensures x % 256 % 16 == x % 16 && x % 256 / 16 == x / 16 % 16 && x / 16 / 16 == x / 256
  {
  }

  lemma OnesSplit16(x: nat)
    ensures Ones(x) == Ones(x % 16) + Ones(x / 16)
  {
    hide Ones;
    OnesSplit4(x);
    OnesSplit4(x / 4);
    OnesSplit4(x % 16);
    Quotients4(x);
  }

  lemma OnesSplit4(x: nat)
    ensures Ones(x) == Ones(x % 4) + Ones(x / 4)
  {
    hide Ones;
    OnesSplit2(x);
    OnesSplit2(x / 2);
    OnesSplit2(x % 4);
    SmallOnes(x % 4 / 2);
    Quotients(x);
  }

  lemma OnesSplit2(x: nat)
    ensures Ones(x) == x % 2 + Ones(x / 2)
  {
  }

  lemma SmallOnes(a: nat)
    requires a < 2
    ensures Ones(a) == a
  {
  }

  // ---------------------------------------------------------------------------
  // The fields of a word
  // ---------------------------------------------------------------------------

  /** n nibbles d. */
  function Nibbles(d: nat, n: nat): nat {
    if n == 0 then 0 else d + 16 * Nibbles(d, n - 1)
  }

  /** n bytes d. */
  function Bytes(d: nat, n: nat): nat {
    if n == 0 then 0 else d + 256 * Bytes(d, n - 1)
  }

  /** Every nibble replaced by its number of ones. */
  function NibbleCounts(x: nat, n: nat): nat {
    if n == 0 then 0 else Ones(x % 16) + 16 * NibbleCounts(x / 16, n - 1)
  }

  /** Every byte replaced by its number of ones. */
  function ByteCounts(x: nat, n: nat): nat {
    if n == 0 then 0 else Ones(x % 256) + 256 * ByteCounts(x / 256, n - 1)
  }

  lemma OnesSplit256(x: nat)
    ensures Ones(x) == Ones(x % 256) + Ones(x / 256)
  {
    hide Ones;
    OnesSplit16(x);
    OnesSplit16(x / 16);
    OnesSplit16(x % 256);
    Quotients16(x);
  }

  // ---------------------------------------------------------------------------
  // The three masking steps
  // ---------------------------------------------------------------------------

  /** The first step: the ones of every pair. */
  function PairStep(x: nat, m: nat): nat {
    x - And(x / 2, m)
  }

  /** The second step: the ones of every nibble. */
  function NibbleStep(x: nat, m: nat): nat {
    And(x, m) + And(x / 4, m)
  }

  /** The third step: the ones of every byte. */
  function ByteStep(x: nat, m: nat): nat {
    And(x + x / 16, m)
  }

  /** The first step keeps to the nibbles: nothing crosses their borders. */
  lemma PairStepSplit(x: nat, m: nat)
    ensures PairStep(x, 5 + 16 * m) == PairStep(x % 16, 5) + 16 * PairStep(x / 16, m)
  {
    hide And;
    AndSplit16(x / 2, 5 + 16 * m);
    HalfQuotients(x);
    HalvedNibble(x / 2 % 16, x % 16 / 2);
    assert (5 + 16 * m) / 16 == m && (5 + 16 * m) % 16 == 5;
  }

  lemma HalfQuotients(x: nat)
    ensures x / 2 / 16 == x / 16 / 2
    ensures x / 2 % 16 % 8 == x % 16 / 2 % 8
  {
    var q, r := x / 16, x % 16;
    assert x == 16 * q + r && x / 2 == 8 * q + r / 2;
    assert x / 2 % 8 == r / 2;
    EighthOf(x / 2);
  }

  lemma EighthOf(y: nat)
    ensures y % 16 % 8 == y % 8
  {
  }

  /** The mask 0101 does not see the top bit. */
  lemma HalvedNibble(a: nat, b: nat)
    requires a < 16 && b < 16 && a % 8 == b % 8
    ensures And(a, 5) == And(b, 5)
  {
    hide And;
    Masked5(a);
    Masked5(b);
    Quotients8(a);
    Quotients8(b);
  }

  lemma Quotients8(a: nat)
    requires a < 16
    ensures a % 2 == a % 8 % 2 && a / 4 % 2 == a % 8 / 4
  {
    var r := if a < 8 then a else a - 8;
    assert a % 8 == r;
    assert a / 4 == if a < 8 then r / 4 else 2 + r / 4;
  }

  lemma Masked5(a: nat)
    requires a < 16
    ensures And(a, 5) == a % 2 + 4 * (a / 4 % 2)
  {
    hide And;
    AndSplit4(a, 5);
    SmallMask(a % 4);
    SmallMask(a / 4);
    assert a % 4 % 2 == a % 2;
  }

  lemma SmallMask(a: nat)
    requires a < 4
    ensures And(a, 1) == a % 2 && And(a, 3) == a
  {
    assert a / 2 < 2 && And(a / 2, 0) == 0;
    SmallAnd(a / 2, 1);
  }

  /** The second step keeps to the nibbles as well. */
  lemma NibbleStepSplit(x: nat, m: nat)
    ensures NibbleStep(x, 3 + 16 * m) == x % 4 + x / 4 % 4 + 16 * NibbleStep(x / 16, m)
  {
    hide And;
    Masked3(x, m);
    Masked3(x / 4, m);
    assert x / 4 / 16 == x / 16 / 4;
  }

  lemma Masked3(x: nat, m: nat)
    ensures And(x, 3 + 16 * m) == x % 4 + 16 * And(x / 16, m)
  {
    hide And;
    AndSplit16(x, 3 + 16 * m);
    AndSplit4(x % 16, 3);
    SmallMask(x % 4);
    AndZero(x % 16 / 4);
  }

  lemma AndZero(x: nat)
    ensures And(x, 0) == 0
  {
  }

  /** The first two steps count the ones of a nibble. */
  lemma NibbleCounted(l: nat)
    requires l < 16
    ensures PairStep(l, 5) < 16
    ensures PairStep(l, 5) % 4 + PairStep(l, 5) / 4 == Ones(l)
  {
    hide And, Ones;
    Masked5(l / 2);
    OnesSplit4(l);
    OnesOfPair(l % 4);
    OnesOfPair(l / 4);
    NibblePairs(l % 4, l / 4, l);
  }

  lemma NibblePairs(r: nat, q: nat, l: nat)
    requires r < 4 && q < 4 && l == r + 4 * q
    ensures l / 2 % 2 == r / 2 && l / 2 / 4 % 2 == q / 2
    ensures var p := l - (l / 2 % 2 + 4 * (l / 2 / 4 % 2)); p % 4 == r - r / 2 && p / 4 == q - q / 2
  {
    assert l / 2 == r / 2 + 2 * q;
    assert (r / 2 + 2 * q) / 4 == q / 2;
    assert q / 2 % 2 == q / 2;
    var a, b := r - r / 2, q - q / 2;
    assert (a + 4 * b) % 4 == a && (a + 4 * b) / 4 == b;
  }

  lemma OnesOfPair(a: nat)
    requires a < 4
    ensures Ones(a) == a - a / 2
  {
  }

  /** One more nibble through both steps. */
  lemma NibbleStepped(x: nat, a: nat, b: nat)
    ensures NibbleStep(PairStep(x, 5 + 16 * a), 3 + 16 * b)
         == Ones(x % 16) + 16 * NibbleStep(PairStep(x / 16, a), b)
  {
    hide And, Ones, PairStep, NibbleStep;
    NibbleCounted(x % 16);
    PairStepSplit(x, a);
    var p, q, r := PairStep(x, 5 + 16 * a), PairStep(x / 16, a), PairStep(x % 16, 5);
    assert p % 16 == r && p / 16 == q;
    NibbleStepSplit(p, b);
    Quotients4(p);
    assert r / 4 % 4 == r / 4;
  }

  lemma {:induction false} NibblesCounted(x: nat, n: nat)
    requires x < Power2(4 * n)
    ensures NibbleStep(PairStep(x, Nibbles(5, n)), Nibbles(3, n)) == NibbleCounts(x, n)
  {
    hide And, Ones;
    if n == 0 {
      AndZero(0);
      assert Power2(0) == 1;
      assert x == 0;
    } else {
      hide PairStep, NibbleStep, Power2, NibbleCounts, Nibbles;
      Power16(n);
      SixteenthBelow(x, Power2(4 * (n - 1)));
      NibblesCounted(x / 16, n - 1);
      NibbleStepped(x, Nibbles(5, n - 1), Nibbles(3, n - 1));
      MoreNibbles(x, n);
    }
  }

  lemma SixteenthBelow(x: nat, p: nat)
    requires x < 16 * p
    ensures x / 16 < p
  {
  }

  lemma MoreNibbles(x: nat, n: nat)
    requires n > 0
    ensures Nibbles(5, n) == 5 + 16 * Nibbles(5, n - 1) && Nibbles(3, n) == 3 + 16 * Nibbles(3, n - 1)
    ensures NibbleCounts(x, n) == Ones(x % 16) + 16 * NibbleCounts(x / 16, n - 1)
  {
  }

  lemma Power16(n: nat)
    requires n > 0
    ensures Power2(4 * n) == 16 * Power2(4 * (n - 1))
  {
    assert Power2(4 * n) == 2 * Power2(4 * n - 1);
    assert Power2(4 * n - 1) == 2 * Power2(4 * n - 2);
    assert Power2(4 * n - 2) == 2 * Power2(4 * n - 3);
    assert Power2(4 * n - 3) == 2 * Power2(4 * n - 4);
  }

  /** The third step adds the two nibbles of every byte. */
  lemma ByteStepSplit(l: nat, h: nat, y: nat, m: nat)
    requires l <= 4 && h <= 4 && y % 16 <= 4
    ensures ByteStep(l + 16 * h + 256 * y, 15 + 256 * m) == l + h + 256 * ByteStep(y, m)
  {
    hide And;
    var x := l + 16 * h + 256 * y;
    assert x / 16 == h + 16 * y;
    var s := x + x / 16;
    var low := l + h + 16 * (h + y % 16);
    assert s == low + 256 * (y + y / 16);
    AndSplit256(s, 15 + 256 * m);
    assert s % 256 == low && s / 256 == y + y / 16;
    AndSplit16(low, 15);
    AndZero(low / 16);
    assert low % 16 == l + h;
    Masked15(l + h);
  }

  lemma Masked15(a: nat)
    requires a < 16
    ensures And(a, 15) == a
  {
    hide And;
    AndSplit4(a, 15);
    SmallMask(a % 4);
    SmallMask(a / 4);
  }

  lemma OnesOfNibble(l: nat)
    requires l < 16
    ensures Ones(l) <= 4
  {
    hide Ones;
    OnesSplit4(l);
    OnesOfPair(l % 4);
    OnesOfPair(l / 4);
  }

  lemma {:induction false} BytesCounted(x: nat, n: nat)
    ensures ByteStep(NibbleCounts(x, 2 * n), Bytes(15, n)) == ByteCounts(x, n)
  {
    hide And, Ones;
    if n == 0 {
      AndZero(0);
    } else {
      var y := NibbleCounts(x / 256, 2 * (n - 1));
      BytesCounted(x / 256, n - 1);
      Quotients16(x);
      assert NibbleCounts(x / 16, 2 * n - 1) == Ones(x / 16 % 16) + 16 * y;
      LowNibble(x / 256, 2 * (n - 1));
      OnesOfNibble(x % 16);
      OnesOfNibble(x / 16 % 16);
      ByteStepSplit(Ones(x % 16), Ones(x / 16 % 16), y, Bytes(15, n - 1));
      OnesSplit16(x % 256);
    }
  }

  lemma LowNibble(x: nat, n: nat)
    ensures NibbleCounts(x, n) % 16 <= 4
  {
    hide Ones;
    if n > 0 {
      OnesOfNibble(x % 16);
      NibbleOf(Ones(x % 16), NibbleCounts(x / 16, n - 1));
    }
  }

  lemma NibbleOf(a: nat, b: nat)
    requires a < 16
    ensures (a + 16 * b) % 16 == a
  {
  }

  // ---------------------------------------------------------------------------
  // Counting
  // ---------------------------------------------------------------------------

  function CountUnits8(x: nat): nat {
    var y := NibbleStep(PairStep(x, 0x55), 0x33);
    ByteStep(y, 0x0F)
  }

  function CountUnits16(x: nat): nat {
    var y := NibbleStep(PairStep(x, 0x5555), 0x3333);
    ByteStep(y, 0x0F0F) * 0x0101 % 0x1_0000 / 0x100
  }

  function CountUnits32(x: nat): nat {
    var y := NibbleStep(PairStep(x, 0x5555_5555), 0x3333_3333);
    ByteStep(y, 0x0F0F_0F0F) * 0x0101_0101 % 0x1_0000_0000 / 0x100_0000
  }

  function CountUnits64(x: nat): nat {
    var y := NibbleStep(PairStep(x, 0x5555_5555_5555_5555), 0x3333_3333_3333_3333);
    ByteStep(y, 0x0F0F_0F0F_0F0F_0F0F) * 0x0101_0101_0101_0101 % 0x1_0000_0000_0000_0000 / 0x100_0000_0000_0000
  }

  lemma StepsCounted(x: nat, n: nat)
    requires x < Power2(8 * n)
    ensures ByteStep(NibbleStep(PairStep(x, Nibbles(5, 2 * n)), Nibbles(3, 2 * n)), Bytes(15, n)) == ByteCounts(x, n)
  {
    assert 4 * (2 * n) == 8 * n;
    NibblesCounted(x, 2 * n);
    BytesCounted(x, n);
  }

  /** The ones of n bytes, added up. */
  function ByteSum(x: nat, n: nat): nat {
    if n == 0 then 0 else Ones(x % 256) + ByteSum(x / 256, n - 1)
  }

  lemma {:induction false} OnesOfBytes(x: nat, n: nat)
    requires x < Power2(8 * n)
    ensures ByteSum(x, n) == Ones(x)
  {
    if n > 0 {
      hide Ones;
      assert 4 * (2 * n) == 8 * n;
      Power16(2 * n);
      Power16(2 * n - 1);
      OnesOfBytes(x / 256, n - 1);
      OnesSplit256(x);
    }
  }

  /** What a product with 0x0101… looks like: the sum of the bytes, above and below it partial sums. */
  lemma Product64(z: nat, a: nat, b: nat, c: nat, d: nat, e: nat, f: nat, g: nat, h: nat)
      returns (low: nat, high: nat)
    requires a + b + c + d + e + f + g + h < 256
    requires z == a + 0x100 * b + 0x1_0000 * c + 0x100_0000 * d + 0x1_0000_0000 * e
                + 0x100_0000_0000 * f + 0x1_0000_0000_0000 * g + 0x100_0000_0000_0000 * h
    ensures low < 0x100_0000_0000_0000
    ensures z * 0x0101_0101_0101_0101
         == low + 0x100_0000_0000_0000 * (a + b + c + d + e + f + g + h) + 0x1_0000_0000_0000_0000 * high
  {
    low := a + 0x100 * (a + b) + 0x1_0000 * (a + b + c) + 0x100_0000 * (a + b + c + d)
      + 0x1_0000_0000 * (a + b + c + d + e) + 0x100_0000_0000 * (a + b + c + d + e + f)
      + 0x1_0000_0000_0000 * (a + b + c + d + e + f + g);
    high := b + c + d + e + f + g + h + 0x100 * (c + d + e + f + g + h) + 0x1_0000 * (d + e + f + g + h)
      + 0x100_0000 * (e + f + g + h) + 0x1_0000_0000 * (f + g + h) + 0x100_0000_0000 * (g + h)
      + 0x1_0000_0000_0000 * h;
    assert low <= 255 * 0x1_0101_0101_0101;
  }

  lemma TopByte64(w: nat, low: nat, top: nat, high: nat)
    requires low < 0x100_0000_0000_0000 && top < 0x100
    requires w == low + 0x100_0000_0000_0000 * top + 0x1_0000_0000_0000_0000 * high
    ensures w % 0x1_0000_0000_0000_0000 / 0x100_0000_0000_0000 == top
  {
    var r := low + 0x100_0000_0000_0000 * top;
    assert r < 0x1_0000_0000_0000_0000;
    assert w % 0x1_0000_0000_0000_0000 == r;
  }

  lemma TopByte32(z: nat, a: nat, b: nat, c: nat, d: nat)
    requires a + b + c + d < 256
    requires z == a + 0x100 * b + 0x1_0000 * c + 0x100_0000 * d
    ensures z * 0x0101_0101 % 0x1_0000_0000 / 0x100_0000 == a + b + c + d
  {
    var low := a + 0x100 * (a + b) + 0x1_0000 * (a + b + c);
    var r := low + 0x100_0000 * (a + b + c + d);
    var high := b + c + d + 0x100 * (c + d) + 0x1_0000 * d;
    assert low < 0x100_0000 && r < 0x1_0000_0000;
    assert z * 0x0101_0101 == r + 0x1_0000_0000 * high;
    assert z * 0x0101_0101 % 0x1_0000_0000 == r;
  }

  lemma TopByte16(z: nat, a: nat, b: nat)
    requires a + b < 256
    requires z == a + 0x100 * b
    ensures z * 0x0101 % 0x1_0000 / 0x100 == a + b
  {
    var r := a + 0x100 * (a + b);
    assert z * 0x0101 == r + 0x1_0000 * b;
    assert z * 0x0101 % 0x1_0000 == r;
  }

  lemma OnesOfByte(b: nat)
    requires b < 256
    ensures Ones(b) <= 8
  {
    hide Ones;
    OnesSplit16(b);
    OnesOfNibble(b % 16);
    OnesOfNibble(b / 16);
  }

  /** The bytes of a word. */
  function ByteAt(x: nat, i: nat): (b: nat)
    ensures b < 256
  {
    if i == 0 then x % 256 else ByteAt(x / 256, i - 1)
  }

  /** The ones of byte i. */
  function CountAt(x: nat, i: nat): nat {
    Ones(ByteAt(x, i))
  }

  lemma CountBound(x: nat, i: nat)
    ensures CountAt(x, i) <= 8
  {
    OnesOfByte(ByteAt(x, i));
  }

  lemma TwoBytes(x: nat)
    ensures ByteCounts(x, 2) == CountAt(x, 0) + 0x100 * CountAt(x, 1)
    ensures ByteSum(x, 2) == CountAt(x, 0) + CountAt(x, 1)
  {
    hide Ones;
    assert ByteCounts(x / 256, 1) == Ones(x / 256 % 256);
    assert ByteSum(x / 256, 1) == Ones(x / 256 % 256);
    assert ByteAt(x, 1) == ByteAt(x / 256, 0);
  }

  lemma FourBytes(x: nat)
    ensures ByteCounts(x, 4) == CountAt(x, 0) + 0x100 * CountAt(x, 1) + 0x1_0000 * CountAt(x, 2) + 0x100_0000 * CountAt(x, 3)
    ensures ByteSum(x, 4) == CountAt(x, 0) + CountAt(x, 1) + CountAt(x, 2) + CountAt(x, 3)
  {
    hide Ones;
    var y := x / 256 / 256;
    TwoBytes(y);
    assert ByteCounts(x / 256, 3) == Ones(x / 256 % 256) + 256 * ByteCounts(y, 2);
    assert ByteSum(x / 256, 3) == Ones(x / 256 % 256) + ByteSum(y, 2);
    assert ByteAt(x, 1) == x / 256 % 256;
    assert ByteAt(x, 2) == ByteAt(x / 256, 1) == ByteAt(y, 0);
    assert ByteAt(x, 3) == ByteAt(x / 256, 2) == ByteAt(y, 1);
  }

  lemma {:induction false} LaterBytes(x: nat, i: nat)
    ensures ByteAt(x, 4 + i) == ByteAt(x / 256 / 256 / 256 / 256, i)
  {
    assert ByteAt(x, 4 + i) == ByteAt(x / 256, 3 + i);
    assert ByteAt(x / 256, 3 + i) == ByteAt(x / 256 / 256, 2 + i);
    assert ByteAt(x / 256 / 256, 2 + i) == ByteAt(x / 256 / 256 / 256, 1 + i);
  }

  lemma LaterCounts(x: nat, n: nat)
    ensures ByteCounts(x, 4 + n) == ByteCounts(x, 4) + 0x1_0000_0000 * ByteCounts(x / 256 / 256 / 256 / 256, n)
    ensures ByteSum(x, 4 + n) == ByteSum(x, 4) + ByteSum(x / 256 / 256 / 256 / 256, n)
  {
    hide Ones;
    var y, z, w := x / 256, x / 256 / 256, x / 256 / 256 / 256;
    assert ByteCounts(w, 1 + n) == Ones(w % 256) + 256 * ByteCounts(w / 256, n);
    assert ByteCounts(w, 1) == Ones(w % 256);
    assert ByteSum(w, 1) == Ones(w % 256);
    assert ByteCounts(z, 2 + n) == Ones(z % 256) + 256 * ByteCounts(w, 1 + n);
    assert ByteCounts(z, 2) == Ones(z % 256) + 256 * ByteCounts(w, 1);
    assert ByteCounts(y, 3 + n) == Ones(y % 256) + 256 * ByteCounts(z, 2 + n);
    assert ByteCounts(y, 3) == Ones(y % 256) + 256 * ByteCounts(z, 2);
    assert ByteSum(z, 2 + n) == Ones(z % 256) + ByteSum(w, 1 + n);
    assert ByteSum(z, 2) == Ones(z % 256) + ByteSum(w, 1);
    assert ByteSum(y, 3 + n) == Ones(y % 256) + ByteSum(z, 2 + n);
    assert ByteSum(y, 3) == Ones(y % 256) + ByteSum(z, 2);
  }

  lemma EightBytes(x: nat)
    ensures ByteCounts(x, 8) == CountAt(x, 0) + 0x100 * CountAt(x, 1) + 0x1_0000 * CountAt(x, 2) + 0x100_0000 * CountAt(x, 3)
                              + 0x1_0000_0000 * CountAt(x, 4) + 0x100_0000_0000 * CountAt(x, 5)
                              + 0x1_0000_0000_0000 * CountAt(x, 6) + 0x100_0000_0000_0000 * CountAt(x, 7)
    ensures ByteSum(x, 8) == CountAt(x, 0) + CountAt(x, 1) + CountAt(x, 2) + CountAt(x, 3)
                           + CountAt(x, 4) + CountAt(x, 5) + CountAt(x, 6) + CountAt(x, 7)
  {
    hide Ones, ByteCounts, ByteSum, ByteAt;
    var y := x / 256 / 256 / 256 / 256;
    FourBytes(x);
    FourBytes(y);
    LaterCounts(x, 4);
    LaterBytes(x, 0);
    LaterBytes(x, 1);
    LaterBytes(x, 2);
    LaterBytes(x, 3);
  }

  lemma Masks()
    ensures Nibbles(5, 2) == 0x55 && Nibbles(3, 2) == 0x33 && Bytes(15, 1) == 0x0F
    ensures Nibbles(5, 4) == 0x5555 && Nibbles(3, 4) == 0x3333 && Bytes(15, 2) == 0x0F0F
    ensures Nibbles(5, 8) == 0x5555_5555 && Nibbles(3, 8) == 0x3333_3333 && Bytes(15, 4) == 0x0F0F_0F0F
    ensures Nibbles(5, 16) == 0x5555_5555_5555_5555 && Nibbles(3, 16) == 0x3333_3333_3333_3333
    ensures Bytes(15, 8) == 0x0F0F_0F0F_0F0F_0F0F
  {
  }

  /** count_units on an 8-bit word. */
  lemma CountUnits8Exact(x: nat)
    requires x < Power2(8)
    ensures CountUnits8(x) == Ones(x)
  {
    hide And, Ones, PairStep, NibbleStep, ByteStep, Power2;
    StepsCounted(x, 1);
    Masks();
    OnesOfBytes(x, 1);
    assert ByteSum(x / 256, 0) == 0 && ByteCounts(x / 256, 0) == 0;
  }

  /** count_units on a 16-bit word. */
  lemma CountUnits16Exact(x: nat)
    requires x < Power2(16)
    ensures CountUnits16(x) == Ones(x)
  {
    hide And, Ones, PairStep, NibbleStep, ByteStep, Power2, CountAt, ByteSum, ByteCounts, Nibbles, Bytes;
    StepsCounted(x, 2);
    Masks();
    OnesOfBytes(x, 2);
    TwoBytes(x);
    CountBound(x, 0);
    CountBound(x, 1);
    TopByte16(ByteCounts(x, 2), CountAt(x, 0), CountAt(x, 1));
  }

  /** count_units on a 32-bit word. */
  lemma CountUnits32Exact(x: nat)
    requires x < Power2(32)
    ensures CountUnits32(x) == Ones(x)
  {
    hide And, Ones, PairStep, NibbleStep, ByteStep, Power2, CountAt, ByteSum, ByteCounts, Nibbles, Bytes;
    StepsCounted(x, 4);
    Masks();
    OnesOfBytes(x, 4);
    FourBytes(x);
    CountBound(x, 0);
    CountBound(x, 1);
    CountBound(x, 2);
    CountBound(x, 3);
    TopByte32(ByteCounts(x, 4), CountAt(x, 0), CountAt(x, 1), CountAt(x, 2), CountAt(x, 3));
  }

  /** count_units on a 64-bit word. */
  lemma CountUnits64Exact(x: nat)
    requires x < Power2(64)
    ensures CountUnits64(x) == Ones(x)
  {
    hide And, Ones, PairStep, NibbleStep, ByteStep, Power2, CountAt, ByteSum, ByteCounts, Nibbles, Bytes;
    StepsCounted(x, 8);
    Masks();
    OnesOfBytes(x, 8);
    EightBytes(x);
    EightBounds(x);
    var z, top := ByteCounts(x, 8), ByteSum(x, 8);
    var low, high := Product64(z, CountAt(x, 0), CountAt(x, 1), CountAt(x, 2), CountAt(x, 3),
                               CountAt(x, 4), CountAt(x, 5), CountAt(x, 6), CountAt(x, 7));
    TopByte64(z * 0x0101_0101_0101_0101, low, top, high);
  }

  lemma EightBounds(x: nat)
    ensures CountAt(x, 0) + CountAt(x, 1) + CountAt(x, 2) + CountAt(x, 3)
          + CountAt(x, 4) + CountAt(x, 5) + CountAt(x, 6) + CountAt(x, 7) < 256
  {
    hide CountAt;
    CountBound(x, 0);
    CountBound(x, 1);
    CountBound(x, 2);
    CountBound(x, 3);
    CountBound(x, 4);
    CountBound(x, 5);
    CountBound(x, 6);
    CountBound(x, 7);
  }
}
