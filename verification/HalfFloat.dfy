/** Widening binary16 to binary32 keeps the value. */
module HalfFloat {
  /*
   `f16_to_f32`: widening a binary16 number to binary32 keeps its class and its exact value.
   Values are integers in units of the smallest positive binary32 number, two to the -149.
   An `|` of disjoint bit fields is a sum, a shift a product or a quotient. The loop that
   normalises a subnormal significand is proved against the exponent it has counted down to, so
   that subnormal inputs come out as normal binary32 numbers of the same value, while infinities
   and the payloads of NaNs are carried over.
   */

  const SIGN16: nat := 0x8000
  const SIGN32: nat := 0x8000_0000
  const INFINITY32: nat := 0x7f80_0000
  const UNIT32: nat := 0x80_0000

  /** Sign, exponent and mantissa of a binary16 pattern. */
  function Negative16(half: nat): bool {
    half / SIGN16 % 2 == 1
  }

  function Exponent16(half: nat): (e: nat)
    ensures e < 32
  {
    half / 0x400 % 32
  }

  function Mantissa16(half: nat): (m: nat)
    ensures m < 0x400
  {
    half % 0x400
  }

  function Negative32(bits: nat): bool {
    bits / SIGN32 % 2 == 1
  }

  function Exponent32(bits: nat): (e: nat)
    ensures e < 256
  {
    bits / UNIT32 % 256
  }

  function Mantissa32(bits: nat): (m: nat)
    ensures m < UNIT32
  {
    bits % UNIT32
  }

  function Pow2(n: nat): (p: nat)
    ensures p > 0
  {
    if n == 0 then 1 else 2 * Pow2(n - 1)
  }

  function Signed(negative: bool, magnitude: int): int {
    if negative then -magnitude else magnitude
  }

  /** The value of a finite binary16 number. */
  function Value16(half: nat): int {
    var e, m := Exponent16(half), Mantissa16(half);
    Signed(Negative16(half), if e == 0 then m * Pow2(125) else (0x400 + m) * Pow2(e + 124))
  }

  /** The value of a finite binary32 number. */
  function Value32(bits: nat): int {
    var e, m := Exponent32(bits), Mantissa32(bits);
    Signed(Negative32(bits), if e == 0 then m else (UNIT32 + m) * Pow2(e - 1))
  }

  function Fields(negative: bool, exponent: nat, mantissa: nat): nat {
    (if negative then SIGN32 else 0) + exponent * UNIT32 + mantissa
  }

  lemma FieldsAre(negative: bool, exponent: nat, mantissa: nat)
    requires exponent < 256 && mantissa < UNIT32
    ensures var bits := Fields(negative, exponent, mantissa);
            && bits < 2 * SIGN32
            && Negative32(bits) == negative && Exponent32(bits) == exponent && Mantissa32(bits) == mantissa
  {
    var bits := Fields(negative, exponent, mantissa);
    var high := (if negative then 256 else 0) + exponent;
    assert bits == high * UNIT32 + mantissa;
    assert bits / UNIT32 == high && bits % UNIT32 == mantissa;
    assert high % 256 == exponent && high / 256 == if negative then 1 else 0;
    assert bits / SIGN32 == high / 256;
  }

  /** How far a subnormal mantissa moves until bit 10 is set. */
  function ShiftOf(mantissa: nat): nat
    requires 0 < mantissa < 0x800
    decreases 0x800 - mantissa
  {
    if mantissa >= 0x400 then 0 else 1 + ShiftOf(2 * mantissa)
  }

  /** The mantissa when it has moved. */
  function Normal(mantissa: nat): (n: nat)
    requires 0 < mantissa < 0x800
    ensures 0x400 <= n < 0x800
    decreases 0x800 - mantissa
  {
    if mantissa >= 0x400 then mantissa else Normal(2 * mantissa)
  }

  lemma {:induction false} NormalIsShifted(mantissa: nat)
    requires 0 < mantissa < 0x800
    ensures Normal(mantissa) == mantissa * Pow2(ShiftOf(mantissa))
    decreases 0x800 - mantissa
  {
    if mantissa < 0x400 {
      NormalIsShifted(2 * mantissa);
      DoubleThenShift(mantissa, Pow2(ShiftOf(2 * mantissa)));
    }
  }

  lemma DoubleThenShift(m: nat, p: nat)
    ensures 2 * m * p == m * (2 * p)
  {
  }

  lemma {:induction false} ShiftBound(mantissa: nat, k: nat)
    requires 0 < mantissa < 0x800 && 0x400 <= mantissa * Pow2(k)
    ensures ShiftOf(mantissa) <= k
    decreases k
  {
    if mantissa < 0x400 {
      DoubleThenShift(mantissa, Pow2(k - 1));
      ShiftBound(2 * mantissa, k - 1);
    }
  }

  lemma ShiftIsSmall(mantissa: nat)
    requires 0 < mantissa < 0x800
    ensures ShiftOf(mantissa) <= 10
  {
    assert Pow2(4) == 16 && Pow2(8) == 256 && Pow2(10) == 0x400;
    ShiftBound(mantissa, 10);
  }

  /** The binary32 pattern that `f16_to_f32` builds. */
  function Widened(half: nat): nat {
    var e, m := Exponent16(half), Mantissa16(half);
    if e == 0 && m == 0 then Fields(Negative16(half), 0, 0)
    else if e == 0 then
      ShiftIsSmall(m);
      Fields(Negative16(half), 113 - ShiftOf(m), (Normal(m) - 0x400) * 0x2000)
    else if e == 31 then Fields(Negative16(half), 255, m * 0x2000)
    else Fields(Negative16(half), e + 112, m * 0x2000)
  }

  /** `f16_to_f32`, with its normalising loop. */
  method F16ToF32(half: nat) returns (bits: nat)
    requires half < 0x1_0000
    ensures bits == Widened(half)
  {
    hide Fields, Negative16, Exponent16, Mantissa16;
    var negative, exp, mant := Negative16(half), Exponent16(half), Mantissa16(half);
    if exp == 0 {
      if mant == 0 {
        return Fields(negative, 0, 0);
      }
      var frac: nat, shift: nat := mant, 0;
      while frac < 0x400
        invariant 0 < frac < 0x800 && Normal(mant) == Normal(frac)
        invariant ShiftOf(mant) == shift + ShiftOf(frac)
        decreases 0x800 - frac
      {
        frac := 2 * frac;
        shift := shift + 1;
      }
      ShiftIsSmall(mant);
      assert frac % 0x400 == frac - 0x400;
      return Fields(negative, 113 - shift, frac % 0x400 * 0x2000);
    } else if exp == 31 {
      return Fields(negative, 255, mant * 0x2000);
    }
    return Fields(negative, exp + 112, mant * 0x2000);
  }

  lemma {:induction false} Pow2Add(a: nat, b: nat)
    ensures Pow2(a + b) == Pow2(a) * Pow2(b)
  {
    if a > 0 {
      Pow2Add(a - 1, b);
    }
  }

  lemma SubnormalValue(m: nat)
    requires 0 < m < 0x400
    ensures ShiftOf(m) <= 10
    ensures (UNIT32 + (Normal(m) - 0x400) * 0x2000) * Pow2(112 - ShiftOf(m)) == m * Pow2(125)
  {
    hide Pow2, Normal, ShiftOf;
    ShiftIsSmall(m);
    var s := ShiftOf(m);
    NormalIsShifted(m);
    Pow2Thirteen();
    Pow2Add(s, 125 - s);
    Pow2Add(13, 112 - s);
    SubnormalProduct(m, Pow2(s), Pow2(112 - s), Pow2(125 - s));
  }

  lemma NormalValue(e: nat, m: nat)
    ensures (UNIT32 + m * 0x2000) * Pow2(e + 111) == (0x400 + m) * Pow2(e + 124)
  {
    hide Pow2;
    Pow2Thirteen();
    Pow2Add(13, e + 111);
    NormalProduct(m, Pow2(e + 111));
  }

  /** Every finite binary16 number keeps its exact value. */
  lemma WideningKeepsValue(half: nat)
    requires half < 0x1_0000 && Exponent16(half) < 31
    ensures Exponent32(Widened(half)) < 255
    ensures Value32(Widened(half)) == Value16(half)
  {
    hide Pow2, Fields, Negative16, Exponent16, Mantissa16, Negative32, Exponent32, Mantissa32, Normal, ShiftOf;
    var e, m := Exponent16(half), Mantissa16(half);
    if e == 0 && m == 0 {
      FieldsAre(Negative16(half), 0, 0);
    } else if e == 0 {
      SubnormalValue(m);
      FieldsAre(Negative16(half), 113 - ShiftOf(m), (Normal(m) - 0x400) * 0x2000);
    } else {
      NormalValue(e, m);
      FieldsAre(Negative16(half), e + 112, m * 0x2000);
    }
  }

  lemma Pow2Thirteen()
    ensures Pow2(13) == 0x2000
  {
    assert Pow2(4) == 16 && Pow2(8) == 256;
  }

  lemma NormalProduct(m: nat, p: nat)
    ensures (UNIT32 + m * 0x2000) * p == (0x400 + m) * (0x2000 * p)
  {
    assert UNIT32 + m * 0x2000 == (0x400 + m) * 0x2000;
  }

  lemma SubnormalProduct(m: nat, shifted: nat, low: nat, high: nat)
    requires high == 0x2000 * low && m * shifted >= 0x400
    ensures (UNIT32 + (m * shifted - 0x400) * 0x2000) * low == m * (shifted * high)
  {
    var frac := m * shifted;
    assert UNIT32 + (frac - 0x400) * 0x2000 == frac * 0x2000;
    assert frac * 0x2000 * low == frac * high;
  }

  /** Infinities and NaNs stay what they are, payload included, and no finite number becomes one. */
  lemma WideningKeepsClass(half: nat)
    requires half < 0x1_0000
    ensures var bits := Widened(half);
            && Negative32(bits) == Negative16(half)
            && (Exponent32(bits) == 255 <==> Exponent16(half) == 31)
            && (Exponent16(half) == 31 ==> Mantissa32(bits) == Mantissa16(half) * 0x2000)
  {
    hide Pow2, Fields;
    var e, m := Exponent16(half), Mantissa16(half);
    if e == 0 && m == 0 {
      FieldsAre(Negative16(half), 0, 0);
    } else if e == 0 {
      ShiftIsSmall(m);
      FieldsAre(Negative16(half), 113 - ShiftOf(m), (Normal(m) - 0x400) * 0x2000);
    } else if e == 31 {
      FieldsAre(Negative16(half), 255, m * 0x2000);
    } else {
      FieldsAre(Negative16(half), e + 112, m * 0x2000);
    }
  }
}
