/**
 Byte-level codes shared by the AIGER writers and readers: decimal numbers and
 the delta code of the binary format.
 */
module Bytes {
  import opened Words

  type Byte = x: nat | x < 256

  const SPACE: Byte := 32
  const NEWLINE: Byte := 10

  /** The bytes of a string of 8-bit characters. */
  function Ascii(s: string): (r: seq<Byte>)
    ensures |r| == |s|
  {
    seq(|s|, i requires 0 <= i < |s| => s[i] as int % 256)
  }

  lemma AsciiJoin(s: string, t: string)
    ensures Ascii(s + t) == Ascii(s) + Ascii(t)
  {
  }

  predicate IsDigit(b: Byte) { 48 <= b <= 57 }

  // ---------------------------------------------------------------------------
  // Decimal numbers
  // ---------------------------------------------------------------------------

  /** The digits that "%u" prints. */
  function Decimal(u: nat): (r: seq<Byte>)
    ensures r != [] && IsDigit(r[0])
  {
    if u < 10 then [48 + u] else Decimal(u / 10) + [48 + u % 10]
  }

  /** Reads digits as long as there are any, in arithmetic modulo 2^32. */
  function NumberFrom(acc: nat, s: seq<Byte>): (nat, seq<Byte>)
    decreases |s|
  {
    if s != [] && IsDigit(s[0]) then NumberFrom((10 * acc + (s[0] - 48)) % WORD, s[1..]) else (acc, s)
  }

  predicate AllDigits(d: seq<Byte>) {
    forall i :: 0 <= i < |d| ==> IsDigit(d[i])
  }

  /** The number that a string of decimal digits stands for. */
  function Value(d: seq<Byte>): (v: int) {
    if d == [] then 0 else 10 * Value(d[..|d| - 1]) + (d[|d| - 1] as int - 48)
  }

  lemma NumberStep(acc: nat, b: Byte, s: seq<Byte>)
    requires IsDigit(b)
    ensures NumberFrom(acc, [b] + s) == NumberFrom((10 * acc + (b - 48)) % WORD, s)
  {
    assert ([b] + s)[1..] == s;
  }

  lemma TenMod(x: nat, k: nat)
    ensures (10 * (x % WORD) + k) % WORD == (10 * x + k) % WORD
  {
  }

  /** Digits that are read contribute their value, in arithmetic modulo 2^32. */
  lemma {:induction false} NumberContinues(d: seq<Byte>, s: seq<Byte>)
    requires AllDigits(d)
    ensures Value(d) >= 0
    ensures NumberFrom(0, d + s) == NumberFrom(Value(d) % WORD, s)
    decreases |d|
  {
    hide NumberFrom;
    if d == [] {
      assert d + s == s;
    } else {
      var n := |d| - 1;
      var t := [d[n]] + s;
      assert d + s == d[..n] + t;
      NumberContinues(d[..n], t);
      NumberStep(Value(d[..n]) % WORD, d[n], s);
      TenMod(Value(d[..n]), d[n] - 48);
    }
  }

  /** Reading stops behind the digits. */
  lemma NumberExact(d: seq<Byte>, s: seq<Byte>)
    requires AllDigits(d) && (s == [] || !IsDigit(s[0]))
    ensures Value(d) >= 0 && NumberFrom(0, d + s) == (Value(d) % WORD, s)
  {
    NumberContinues(d, s);
  }

  /** A number is printed with digits only, without leading zeros, and with its value. */
  lemma {:induction false} DecimalExact(u: nat)
    ensures AllDigits(Decimal(u)) && Value(Decimal(u)) == u
    ensures |Decimal(u)| > 1 ==> Decimal(u)[0] != 48
  {
    if u < 10 {
      assert Decimal(u)[..0] == [];
    } else {
      DecimalExact(u / 10);
      assert Decimal(u)[..|Decimal(u)| - 1] == Decimal(u / 10);
      assert u / 10 >= 10 || Decimal(u / 10) == [48 + u / 10];
    }
  }

  /** No other string of digits without leading zeros has the value. */
  lemma {:induction false} DecimalUnique(d: seq<Byte>)
    requires d != [] && AllDigits(d) && (|d| > 1 ==> d[0] != 48)
    ensures Value(d) >= 0 && Decimal(Value(d)) == d
    ensures d[0] != 48 ==> Value(d) > 0
    decreases |d|
  {
    var n := |d| - 1;
    if n == 0 {
      assert d[..0] == [];
    } else {
      DecimalUnique(d[..n]);
      assert d == d[..n] + [d[n]];
    }
  }

  /** A printed number is read back, and reading stops behind it. */
  lemma DecimalRoundTrip(u: nat, s: seq<Byte>)
    requires u < WORD && (s == [] || !IsDigit(s[0]))
    ensures NumberFrom(0, Decimal(u) + s) == (u, s)
  {
    DecimalExact(u);
    NumberExact(Decimal(u), s);
  }

  // ---------------------------------------------------------------------------
  // Delta code
  // ---------------------------------------------------------------------------

  /** The bytes for a difference: seven bits a byte, low end first, top bit set on all but the last. */
  function WriteDelta(u: nat): (r: seq<Byte>)
    ensures r != []
  {
    if u < 128 then [u] else [128 + u % 128] + WriteDelta(u / 128)
  }

  datatype DeltaResult =
    | Delta(value: nat, rest: seq<Byte>)
    | EndOfFile
    | InvalidCode
    | Overshift  // a shift by 35 on 32-bit words, which C leaves undefined

  function Power128(i: nat): nat {
    if i == 0 then 1 else 128 * Power128(i - 1)
  }

  /** res | (bits << 7 i) on 32-bit words, for res below 2^(7 i). */
  function OrShifted(res: nat, bits: nat, i: nat): nat {
    (res + bits * Power128(i)) % WORD
  }

  /** The reading loop after i continuation bytes. */
  function DeltaFrom(s: seq<Byte>, i: nat, res: nat): DeltaResult
    decreases |s|
  {
    if s == [] then EndOfFile
    else if s[0] >= 128 then
      if i == 5 then InvalidCode else DeltaFrom(s[1..], i + 1, OrShifted(res, s[0] % 128, i))
    else if i == 5 then
      if s[0] >= 8 then InvalidCode else Overshift
    else Delta(OrShifted(res, s[0], i), s[1..])
  }

  function ReadDelta(s: seq<Byte>): DeltaResult {
    DeltaFrom(s, 0, 0)
  }

  /** An unsigned LEB128 code: a last byte below 128 behind bytes of at least 128. */
  predicate IsCode(c: seq<Byte>) {
    && c != [] && c[|c| - 1] < 128
    && forall i :: 0 <= i < |c| - 1 ==> c[i] >= 128
  }

  /** The number that an unsigned LEB128 code stands for. */
  function Leb(c: seq<Byte>): nat {
    if c == [] then 0 else c[0] % 128 + 128 * Leb(c[1..])
  }

  lemma CodeCons(b: Byte, c: seq<Byte>)
    requires b >= 128 && IsCode(c)
    ensures IsCode([b] + c) && Leb([b] + c) == b % 128 + 128 * Leb(c)
  {
    var d := [b] + c;
    assert d[1..] == c;
    forall i | 0 <= i < |d| - 1 ensures d[i] >= 128 {
      assert i > 0 ==> d[i] == c[i - 1];
    }
  }

  lemma {:induction false} WriteDeltaIsCode(u: nat)
    ensures IsCode(WriteDelta(u)) && Leb(WriteDelta(u)) == u
  {
    if u < 128 {
      assert [u as Byte][1..] == [];
    } else {
      hide IsCode, Leb;
      WriteDeltaIsCode(u / 128);
      CodeCons(128 + u % 128, WriteDelta(u / 128));
    }
  }

  lemma {:induction false} WriteDeltaLength(u: nat, n: nat)
    requires n >= 1 && u < Power128(n)
    ensures |WriteDelta(u)| <= n
    decreases n
  {
    if u >= 128 {
      assert Power128(1) == 128;
      WriteDeltaLength(u / 128, n - 1);
    }
  }

  lemma ModAbsorbs(a: nat, b: nat)
    ensures (a % WORD + b) % WORD == (a + b) % WORD
  {
  }

  lemma Distributes(d: nat, x: nat, p: nat)
    ensures d * p + x * (128 * p) == (d + 128 * x) * p
  {
  }

  /** One digit, then the rest of the code. */
  lemma Horner(res: nat, d: nat, x: nat, i: nat)
    ensures (OrShifted(res, d, i) + x * Power128(i + 1)) % WORD == (res + (d + 128 * x) * Power128(i)) % WORD
  {
    var p := Power128(i);
    assert Power128(i + 1) == 128 * p;
    Distributes(d, x, p);
    ModAbsorbs(res + d * p, x * (128 * p));
  }

  /** The loop on a code: it adds the remaining digits at their places, modulo 2^32. */
  lemma {:induction false} DeltaFromCode(c: seq<Byte>, rest: seq<Byte>, i: nat, res: nat)
    requires IsCode(c) && |c| + i <= 5
    ensures DeltaFrom(c + rest, i, res) == Delta((res + Leb(c) * Power128(i)) % WORD, rest)
    decreases |c|
  {
    hide Power128;
    var s := c + rest;
    if |c| == 1 {
      assert s[1..] == rest;
      assert Leb(c) == c[0] by {
        assert c[1..] == [];
      }
    } else {
      hide OrShifted;
      var t, d := c[1..], c[0] % 128;
      assert c[0] >= 128;
      assert s[1..] == t + rest;
      DeltaFromCode(t, rest, i + 1, OrShifted(res, d, i));
      Horner(res, d, Leb(t), i);
    }
  }

  /** Exactly what the reader makes of any LEB128 code followed by anything. */
  lemma {:induction false} ReadDeltaExact(c: seq<Byte>, rest: seq<Byte>)
    requires IsCode(c)
    ensures |c| <= 5 ==> ReadDelta(c + rest) == Delta(Leb(c) % WORD, rest)
    ensures |c| == 6 ==> ReadDelta(c + rest) == if c[5] >= 8 then InvalidCode else Overshift
    ensures |c| > 6 ==> ReadDelta(c + rest) == InvalidCode
  {
    if |c| <= 5 {
      DeltaFromCode(c, rest, 0, 0);
    } else {
      LongCode(c + rest, 0, 0);
      assert (c + rest)[5] == c[5];
    }
  }

  lemma {:induction false} LongCode(s: seq<Byte>, i: nat, res: nat)
    requires i <= 5 && |s| >= 6 - i && forall k :: 0 <= k < 5 - i ==> s[k] >= 128
    ensures DeltaFrom(s, i, res) ==
      if s[5 - i] >= 8 then InvalidCode else Overshift
    decreases 5 - i
  {
    if i < 5 {
      assert s[1..][5 - (i + 1)] == s[5 - i];
      LongCode(s[1..], i + 1, OrShifted(res, s[0] % 128, i));
    }
  }

  lemma FourDigits()
    ensures Power128(0) == 1 && Power128(1) == 128 && Power128(2) == 0x4000
    ensures Power128(3) == 0x20_0000 && Power128(4) == 0x1000_0000
  {
    assert Power128(1) == 128;
    assert Power128(2) == 0x4000;
    assert Power128(3) == 0x20_0000;
  }

  /** Five seven-bit digits hold a word. */
  lemma FiveDigits()
    ensures WORD <= Power128(5)
  {
    FourDigits();
  }

  /** What was written is read back, consuming exactly the written bytes, at most five. */
  lemma DeltaRoundTrip(u: nat, rest: seq<Byte>)
    requires u < WORD
    ensures |WriteDelta(u)| <= 5
    ensures ReadDelta(WriteDelta(u) + rest) == Delta(u, rest)
  {
    hide IsCode, Leb, Power128, ReadDelta, WriteDelta;
    WriteDeltaIsCode(u);
    FiveDigits();
    WriteDeltaLength(u, 5);
    ReadDeltaExact(WriteDelta(u), rest);
  }

  /** A fifth byte of 16 or more is not rejected: its high bits are lost. */
  lemma FifthByteTruncated()
    ensures IsCode([128, 128, 128, 128, 16]) && Leb([128, 128, 128, 128, 16]) == WORD
    ensures ReadDelta([128, 128, 128, 128, 16]) == Delta(0, [])
  {
    var c: seq<Byte> := [128, 128, 128, 128, 16];
    assert c[1..] == [128, 128, 128, 16] && c[1..][1..] == [128, 128, 16];
    assert [128, 128, 16][1..] == [128, 16] && [128, 16][1..] == [16] && [16][1..] == [];
    assert Leb([16]) == 16;
    assert Leb([128, 16]) == 2048;
    assert Leb([128, 128, 16]) == 262144;
    assert Leb([128, 128, 128, 16]) == 33554432;
    ReadDeltaExact(c, []);
    assert c + [] == c;
  }

  /** No shift of the reader leaves the range of int, the type of its shifted operand. */
  predicate ShiftsFit(c: seq<Byte>) {
    forall i :: 0 <= i < |c| ==> ShiftFits(c[i], i)
  }

  predicate ShiftFits(b: Byte, i: nat) {
    b % 128 * Power128(i) < 0x8000_0000
  }

  /** The last byte of a code apart from the ones before it. */
  lemma {:induction false} LebSplit(c: seq<Byte>, b: Byte)
    ensures Leb(c + [b]) == Leb(c) + b % 128 * Power128(|c|)
    ensures Leb(c) < Power128(|c|)
  {
    if c == [] {
      assert [b][1..] == [];
    } else {
      hide Power128;
      LebSplit(c[1..], b);
      assert (c + [b])[1..] == c[1..] + [b];
      assert Power128(|c|) == 128 * Power128(|c| - 1) by {
        PowerStep(|c| - 1);
      }
      Scales(b % 128, Power128(|c| - 1));
    }
  }

  lemma PowerStep(i: nat)
    ensures Power128(i + 1) == 128 * Power128(i)
  {
  }

  lemma Scales(x: nat, p: nat)
    ensures 128 * (x * p) == x * (128 * p)
  {
  }

  /** A code of at most five bytes is read without a shift out of range exactly when its value is below 2^31. */
  lemma ShiftsExact(c: seq<Byte>)
    requires IsCode(c) && |c| <= 5
    ensures ShiftsFit(c) <==> Leb(c) < 0x8000_0000
  {
    hide Leb, Power128;
    FourDigits();
    var n := |c| - 1;
    assert c == c[..n] + [c[n]];
    LebSplit(c[..n], c[n]);
    forall i | 0 <= i < |c| && i < 4 ensures ShiftFits(c[i], i) {
    }
    assert ShiftsFit(c) <==> |c| < 5 || ShiftFits(c[4], 4);
  }
}
