/**
 `dequant.rs`: the loops that expand GGUF blocks, proved against one formula per element.
 Floating-point results are terms: what the code multiplies and subtracts, in which order,
 whatever the operations return. Which terms are finite is a parameter.
 */
module Dequant {
  import opened Wrappers
  import opened Bytes
  import opened QuantBits
  import opened GgufTypes

  datatype Float =
    | Zero
    | Single(bits: nat)
    | Half(bits: nat)
    | OfInt(n: int)
    | Mul(left: Float, right: Float)
    | Sub(left: Float, right: Float)

  type Finite = Float -> bool

  datatype DequantError = PayloadLength | Overflow | OutputTooLarge | NonFinite

  function AsSigned(b: Byte): int {
    if b < 128 then b else b - 256
  }

  function HalfAt(block: seq<Byte>, at: nat): Float
    requires at + 2 <= |block|
  {
    var low: int, high: int := block[at], block[at + 1];
    Half(low + 256 * high)
  }

  // ---------------------------------------------------------------- one formula per element

  /** `d * scale * code - dmin * min`, the scale and the min of group `i / 32`. */
  function Q4Value(block: seq<Byte>, i: nat): Float
    requires |block| == 144 && i < 256
  {
    var (scale, min) := ScaleMin(i / 32, block[4..16]);
    Sub(Mul(Mul(HalfAt(block, 0), OfInt(scale)), OfInt(Nibble(block[16..144], i))),
        Mul(HalfAt(block, 2), OfInt(min)))
  }

  function Q5Value(block: seq<Byte>, i: nat): Float
    requires |block| == 176 && i < 256
  {
    var (scale, min) := ScaleMin(i / 32, block[4..16]);
    Sub(Mul(Mul(HalfAt(block, 0), OfInt(scale)), OfInt(FiveBit(block[16..48], block[48..176], i))),
        Mul(HalfAt(block, 2), OfInt(min)))
  }

  /** `d * scale * (code - 32)`, the signed scale of group `i / 16`. */
  function Q6Value(block: seq<Byte>, i: nat): Float
    requires |block| == 210 && i < 256
  {
    Mul(Mul(HalfAt(block, 208), OfInt(AsSigned(block[192 + i / 16]))),
        OfInt(SixBit(block[..128], block[128..192], i) - 32))
  }

  function Value(t: TensorType, block: seq<Byte>, i: nat): Float
    requires |block| == TypeSize(t) && i < BlockElements(t)
  {
    match t
    case F32 => Single(FromLittleEndian(block))
    case F16 => HalfAt(block, 0)
    case Q8_0 => Mul(HalfAt(block, 0), OfInt(AsSigned(block[2 + i])))
    case Q4_K => Q4Value(block, i)
    case Q5_K => Q5Value(block, i)
    case Q6_K => Q6Value(block, i)
  }

  /** The factors that a block is refused for, before any element is computed. */
  predicate FactorsFinite(t: TensorType, block: seq<Byte>, finite: Finite)
    requires |block| == TypeSize(t)
  {
    match t
    case Q8_0 => finite(HalfAt(block, 0))
    case Q4_K => finite(HalfAt(block, 0)) && finite(HalfAt(block, 2))
    case Q5_K => finite(HalfAt(block, 0)) && finite(HalfAt(block, 2))
    case Q6_K => finite(HalfAt(block, 208))
    case _ => true
  }

  function Values(t: TensorType, block: seq<Byte>): (vs: seq<Float>)
    requires |block| == TypeSize(t)
    ensures |vs| == BlockElements(t)
  {
    seq(BlockElements(t), i requires 0 <= i < BlockElements(t) => Value(t, block, i))
  }

  predicate AllFinite(vs: seq<Float>, finite: Finite) {
    forall i :: 0 <= i < |vs| ==> finite(vs[i])
  }

  /** `dequant_block`. */
  function Block(t: TensorType, block: seq<Byte>, finite: Finite): (r: Result<seq<Float>, DequantError>)
    requires |block| == TypeSize(t)
    ensures r.Ok? ==> |r.value| == BlockElements(t)
  {
    if FactorsFinite(t, block, finite) && AllFinite(Values(t, block), finite) then Ok(Values(t, block))
    else Err(NonFinite)
  }

  // ---------------------------------------------------------------- where the loops write

  lemma Q4Place(block: seq<Byte>, chunk: nat, l: nat)
    requires |block| == 144 && chunk < 4 && l < 32
    ensures var (qs, scales) := (block[16..144], block[4..16]);
            var (low, high) := (ScaleMin(chunk * 2, scales), ScaleMin(chunk * 2 + 1, scales));
            && Q4Value(block, chunk * 64 + l) ==
               Sub(Mul(Mul(HalfAt(block, 0), OfInt(low.0)), OfInt(LowNibble(qs[chunk * 32 + l]))),
                   Mul(HalfAt(block, 2), OfInt(low.1)))
            && Q4Value(block, chunk * 64 + 32 + l) ==
               Sub(Mul(Mul(HalfAt(block, 0), OfInt(high.0)), OfInt(HighNibble(qs[chunk * 32 + l]))),
                   Mul(HalfAt(block, 2), OfInt(high.1)))
  {
    hide ScaleMin;
    PlaceIndex(chunk, l);
  }

  lemma PlaceIndex(chunk: nat, l: nat)
    requires chunk < 4 && l < 32
    ensures var i := chunk * 64 + l;
            i < 256 && i / 32 == chunk * 2 && i % 32 == l && i / 64 == chunk && i % 64 == l
    ensures var i := chunk * 64 + 32 + l;
            i < 256 && i / 32 == chunk * 2 + 1 && i % 32 == l && i / 64 == chunk && i % 64 == 32 + l
  {
  }

  lemma Q5Place(block: seq<Byte>, chunk: nat, l: nat)
    requires |block| == 176 && chunk < 4 && l < 32
    ensures var (qh, qs, scales) := (block[16..48], block[48..176], block[4..16]);
            var (low, high) := (ScaleMin(chunk * 2, scales), ScaleMin(chunk * 2 + 1, scales));
            && Q5Value(block, chunk * 64 + l) ==
               Sub(Mul(Mul(HalfAt(block, 0), OfInt(low.0)),
                       OfInt(LowNibble(qs[chunk * 32 + l]) + 16 * Digit(qh[l], 2, chunk * 2))),
                   Mul(HalfAt(block, 2), OfInt(low.1)))
            && Q5Value(block, chunk * 64 + 32 + l) ==
               Sub(Mul(Mul(HalfAt(block, 0), OfInt(high.0)),
                       OfInt(HighNibble(qs[chunk * 32 + l]) + 16 * Digit(qh[l], 2, chunk * 2 + 1))),
                   Mul(HalfAt(block, 2), OfInt(high.1)))
  {
    hide ScaleMin, Digit;
    PlaceIndex(chunk, l);
  }

  function LowNibble(b: Byte): nat {
    b % 16
  }

  function HighNibble(b: Byte): nat {
    b / 16
  }

  /** `q6_k_quant`: four low bits, two high bits, minus 32. */
  function Quant6(low: nat, high: nat): int {
    low % 16 + high % 4 * 16 - 32
  }

  lemma Q6Index(half: nat, q: nat, l: nat)
    requires half < 2 && q < 4 && l < 32
    ensures var i := half * 128 + 32 * q + l;
            && i < 256 && i / 16 == half * 8 + l / 16 + 2 * q
            && i / 128 == half && i % 128 / 32 == q && i % 32 == l
            && i % 64 == 32 * (q % 2) + l && (i % 128 < 64 <==> q < 2)
  {
    var i := half * 128 + 32 * q + l;
    assert i % 128 == 32 * q + l;
    assert i % 64 == 32 * (q % 2) + l;
  }

  lemma Digit4(x: nat, q: nat)
    requires q < 4
    ensures Digit(x, 4, q) == (if q == 0 then x else if q == 1 then x / 4 else if q == 2 then x / 16 else x / 64) % 4
  {
    assert Shift(x, 4) == x / 4 && Shift(x / 4, 4) == x / 16 && Shift(x / 16, 4) == x / 64;
    assert q > 0 ==> Digit(x, 4, q) == Digit(x / 4, 4, q - 1);
    assert q > 1 ==> Digit(x / 4, 4, q - 1) == Digit(x / 16, 4, q - 2);
    assert q > 2 ==> Digit(x / 16, 4, q - 2) == Digit(x / 64, 4, q - 3);
  }

  /** The low source of a quarter: the byte itself, or its high nibble. */
  function LowSource(ql: seq<Byte>, q: nat, l: nat): nat
    requires |ql| == 64 && q < 4 && l < 32
  {
    if q == 0 then ql[l]
    else if q == 1 then ql[l + 32]
    else if q == 2 then HighNibble(ql[l])
    else HighNibble(ql[l + 32])
  }

  lemma Q6Low(low: seq<Byte>, half: nat, q: nat, l: nat)
    requires |low| == 128 && half < 2 && q < 4 && l < 32
    ensures Low6(low, half * 128 + 32 * q + l) == LowSource(low[half * 64..half * 64 + 64], q, l) % 16
  {
    Q6Index(half, q, l);
    assert low[half * 64..half * 64 + 64][32 * (q % 2) + l] == low[half * 64 + 32 * (q % 2) + l];
  }

  lemma Q6High(high: seq<Byte>, half: nat, q: nat, l: nat)
    requires |high| == 64 && half < 2 && q < 4 && l < 32
    ensures High6(high, half * 128 + 32 * q + l) == Digit(high[half * 32..half * 32 + 32][l], 4, q)
  {
    hide Digit;
    Q6Index(half, q, l);
  }

  lemma Q6Place(block: seq<Byte>, half: nat, q: nat, l: nat)
    requires |block| == 210 && half < 2 && q < 4 && l < 32
    ensures var ql, qh := block[half * 64..half * 64 + 64], block[128 + half * 32..128 + half * 32 + 32];
            var scale := block[192 + half * 8 + l / 16 + 2 * q];
            Q6Value(block, half * 128 + 32 * q + l) ==
            Mul(Mul(HalfAt(block, 208), OfInt(AsSigned(scale))), OfInt(Quant6(LowSource(ql, q, l), Digit(qh[l], 4, q))))
  {
    hide Digit, HalfAt, AsSigned, LowSource, Low6, High6;
    Q6Index(half, q, l);
    Q6Low(block[..128], half, q, l);
    Q6High(block[128..192], half, q, l);
    assert block[..128][half * 64..half * 64 + 64] == block[half * 64..half * 64 + 64];
    assert block[128..192][half * 32..half * 32 + 32] == block[128 + half * 32..128 + half * 32 + 32];
  }

  /** Testing a bit against a moving mask reads a binary digit. */
  lemma {:induction false} BitTest(x: nat, k: nat)
    ensures x / Power(2, k) % 2 == Digit(x, 2, k)
  {
    if k > 0 {
      BitTest(x / 2, k - 1);
      DivideTwice(x, Power(2, k - 1));
    }
  }

  lemma DivideTwice(x: nat, p: nat)
    requires p > 0
    ensures x / (2 * p) == x / 2 / p
  {
    var q, r := x / 2 / p, x / 2 % p;
    assert x / 2 == q * p + r;
    assert x == q * (2 * p) + (2 * r + x % 2);
    Quotient(x, 2 * p, q, 2 * r + x % 2);
  }

  lemma Quotient(n: nat, d: nat, q: nat, r: nat)
    requires d > 0 && r < d && n == q * d + r
    ensures n / d == q
  {
    var e := n / d - q;
    assert n == n / d * d + n % d;
    assert e * d == r - n % d;
    assert e >= 1 ==> e * d >= d;
    assert e <= -1 ==> e * d <= -1 * d;
  }

  // ---------------------------------------------------------------- the loops

  /** `write_row`: refuses a row with a value that is not finite. */
  method CheckRow(row: array<Float>, finite: Finite) returns (r: Result<seq<Float>, DequantError>)
    ensures r == if AllFinite(row[..], finite) then Ok(row[..]) else Err(NonFinite)
  {
    for i := 0 to row.Length
      invariant AllFinite(row[..i], finite)
    {
      if !finite(row[i]) {
        assert row[..][i] == row[i];
        return Err(NonFinite);
      }
      assert row[..i + 1] == row[..i] + [row[i]];
    }
    assert row[..row.Length] == row[..];
    return Ok(row[..]);
  }

  method DequantQ4K(block: seq<Byte>, finite: Finite) returns (r: Result<seq<Float>, DequantError>)
    requires |block| == 144
    ensures r == Block(Q4_K, block, finite)
  {
    hide Q4Value, AllFinite, HalfAt;
    var d, dmin := HalfAt(block, 0), HalfAt(block, 2);
    if !finite(d) || !finite(dmin) {
      return Err(NonFinite);
    }
    var row := new Float[256](_ => Zero);
    for chunk := 0 to 4
      invariant forall i :: 0 <= i < chunk * 64 ==> row[i] == Q4Value(block, i)
    {
      FillQ4(row, block, chunk);
    }
    assert row[..] == Values(Q4_K, block);
    r := CheckRow(row, finite);
  }

  /** One chunk of a `Q4_K` row: 32 bytes give 64 elements. */
  method FillQ4(row: array<Float>, block: seq<Byte>, chunk: nat)
    requires row.Length == 256 && |block| == 144 && chunk < 4
    modifies row
    ensures forall i :: 0 <= i < 256 ==>
              row[i] == if chunk * 64 <= i < chunk * 64 + 64 then Q4Value(block, i) else old(row[i])
  {
    hide Q4Value, ScaleMin, HalfAt, LowNibble, HighNibble;
    var d, dmin := HalfAt(block, 0), HalfAt(block, 2);
    var scales, qs := block[4..16], block[16..144];
    var (scaleLow, minLow) := ScaleMin(chunk * 2, scales);
    var (scaleHigh, minHigh) := ScaleMin(chunk * 2 + 1, scales);
    var dLow, mLow := Mul(d, OfInt(scaleLow)), Mul(dmin, OfInt(minLow));
    var dHigh, mHigh := Mul(d, OfInt(scaleHigh)), Mul(dmin, OfInt(minHigh));
    var ql := qs[chunk * 32..chunk * 32 + 32];
    var base := chunk * 64;
    for l := 0 to 32
      invariant forall i :: 0 <= i < 256 ==>
                  row[i] == if base <= i < base + l || base + 32 <= i < base + 32 + l then Q4Value(block, i)
                            else old(row[i])
    {
      Q4Place(block, chunk, l);
      row[base + l] := Sub(Mul(dLow, OfInt(LowNibble(ql[l]))), mLow);
      row[base + 32 + l] := Sub(Mul(dHigh, OfInt(HighNibble(ql[l]))), mHigh);
    }
  }

  method DequantQ5K(block: seq<Byte>, finite: Finite) returns (r: Result<seq<Float>, DequantError>)
    requires |block| == 176
    ensures r == Block(Q5_K, block, finite)
  {
    hide Q5Value, AllFinite, HalfAt, Power;
    var d, dmin := HalfAt(block, 0), HalfAt(block, 2);
    if !finite(d) || !finite(dmin) {
      return Err(NonFinite);
    }
    var row := new Float[256](_ => Zero);
    Masks();
    var lowBit, highBit := 1, 2;
    for chunk := 0 to 4
      invariant chunk < 4 ==> lowBit == Power(2, chunk * 2) && highBit == Power(2, chunk * 2 + 1)
      invariant forall i :: 0 <= i < chunk * 64 ==> row[i] == Q5Value(block, i)
    {
      FillQ5(row, block, chunk, lowBit, highBit);
      lowBit := lowBit * 4 % 256;
      highBit := highBit * 4 % 256;
    }
    assert row[..] == Values(Q5_K, block);
    r := CheckRow(row, finite);
  }

  /** One chunk of a `Q5_K` row; the masks select the two bits of the chunk in every high byte. */
  method FillQ5(row: array<Float>, block: seq<Byte>, chunk: nat, lowBit: nat, highBit: nat)
    requires row.Length == 256 && |block| == 176 && chunk < 4
    requires lowBit == Power(2, chunk * 2) && highBit == Power(2, chunk * 2 + 1)
    modifies row
    ensures forall i :: 0 <= i < 256 ==>
              row[i] == if chunk * 64 <= i < chunk * 64 + 64 then Q5Value(block, i) else old(row[i])
  {
    hide Q5Value, ScaleMin, HalfAt, LowNibble, HighNibble, Digit, Power;
    var d, dmin := HalfAt(block, 0), HalfAt(block, 2);
    var scales, qh, qs := block[4..16], block[16..48], block[48..176];
    var (scaleLow, minLow) := ScaleMin(chunk * 2, scales);
    var (scaleHigh, minHigh) := ScaleMin(chunk * 2 + 1, scales);
    var dLow, mLow := Mul(d, OfInt(scaleLow)), Mul(dmin, OfInt(minLow));
    var dHigh, mHigh := Mul(d, OfInt(scaleHigh)), Mul(dmin, OfInt(minHigh));
    var ql := qs[chunk * 32..chunk * 32 + 32];
    var base := chunk * 64;
    for l := 0 to 32
      invariant forall i :: 0 <= i < 256 ==>
                  row[i] == if base <= i < base + l || base + 32 <= i < base + 32 + l then Q5Value(block, i)
                            else old(row[i])
    {
      BitTest(qh[l], chunk * 2);
      BitTest(qh[l], chunk * 2 + 1);
      var low := LowNibble(ql[l]) + (if qh[l] / lowBit % 2 != 0 then 16 else 0);
      var high := HighNibble(ql[l]) + (if qh[l] / highBit % 2 != 0 then 16 else 0);
      Q5Place(block, chunk, l);
      row[base + l] := Sub(Mul(dLow, OfInt(low)), mLow);
      row[base + 32 + l] := Sub(Mul(dHigh, OfInt(high)), mHigh);
    }
  }

  lemma Masks()
    ensures Power(2, 0) == 1 && Power(2, 1) == 2 && Power(2, 2) == 4 && Power(2, 3) == 8
    ensures Power(2, 4) == 16 && Power(2, 5) == 32 && Power(2, 6) == 64 && Power(2, 7) == 128
  {
    assert Power(2, 2) == 4 && Power(2, 4) == 16;
  }

  method DequantQ6K(block: seq<Byte>, finite: Finite) returns (r: Result<seq<Float>, DequantError>)
    requires |block| == 210
    ensures r == Block(Q6_K, block, finite)
  {
    hide Q6Value, AllFinite, HalfAt;
    var d := HalfAt(block, 208);
    if !finite(d) {
      return Err(NonFinite);
    }
    var row := new Float[256](_ => Zero);
    for half := 0 to 2
      invariant forall i :: 0 <= i < half * 128 ==> row[i] == Q6Value(block, i)
    {
      FillQ6(row, block, half);
    }
    assert row[..] == Values(Q6_K, block);
    r := CheckRow(row, finite);
  }

  /** One half of a `Q6_K` row: every column gives four elements, 32 apart. */
  method FillQ6(row: array<Float>, block: seq<Byte>, half: nat)
    requires row.Length == 256 && |block| == 210 && half < 2
    modifies row
    ensures forall i :: 0 <= i < 256 ==>
              row[i] == if half * 128 <= i < half * 128 + 128 then Q6Value(block, i) else old(row[i])
  {
    hide Q6Value, HalfAt, AsSigned, HighNibble, Quant6;
    var d := HalfAt(block, 208);
    var ql, qh := block[half * 64..half * 64 + 64], block[128 + half * 32..128 + half * 32 + 32];
    var scales := block[192 + half * 8..192 + half * 8 + 8];
    var base := half * 128;
    for l := 0 to 32
      invariant forall i :: 0 <= i < 256 ==>
                  row[i] == if base <= i < base + l || base + 32 <= i < base + 32 + l
                               || base + 64 <= i < base + 64 + l || base + 96 <= i < base + 96 + l
                            then Q6Value(block, i) else old(row[i])
    {
      var group := l / 16;
      var q1 := Quant6(ql[l], qh[l]);
      var q2 := Quant6(ql[l + 32], qh[l] / 4);
      var q3 := Quant6(HighNibble(ql[l]), qh[l] / 16);
      var q4 := Quant6(HighNibble(ql[l + 32]), qh[l] / 64);
      Q6Quarters(block, half, l);
      row[base + l] := Mul(Mul(d, OfInt(AsSigned(scales[group]))), OfInt(q1));
      row[base + l + 32] := Mul(Mul(d, OfInt(AsSigned(scales[group + 2]))), OfInt(q2));
      row[base + l + 64] := Mul(Mul(d, OfInt(AsSigned(scales[group + 4]))), OfInt(q3));
      row[base + l + 96] := Mul(Mul(d, OfInt(AsSigned(scales[group + 6]))), OfInt(q4));
    }
  }

  /** The four elements that share column `l` of one half. */
  lemma Q6Quarters(block: seq<Byte>, half: nat, l: nat)
    requires |block| == 210 && half < 2 && l < 32
    ensures var ql, qh := block[half * 64..half * 64 + 64], block[128 + half * 32..128 + half * 32 + 32];
            var scales, d := block[192 + half * 8..192 + half * 8 + 8], HalfAt(block, 208);
            && Q6Value(block, half * 128 + l) ==
               Mul(Mul(d, OfInt(AsSigned(scales[l / 16]))), OfInt(Quant6(ql[l], qh[l])))
            && Q6Value(block, half * 128 + l + 32) ==
               Mul(Mul(d, OfInt(AsSigned(scales[l / 16 + 2]))), OfInt(Quant6(ql[l + 32], qh[l] / 4)))
            && Q6Value(block, half * 128 + l + 64) ==
               Mul(Mul(d, OfInt(AsSigned(scales[l / 16 + 4]))), OfInt(Quant6(HighNibble(ql[l]), qh[l] / 16)))
            && Q6Value(block, half * 128 + l + 96) ==
               Mul(Mul(d, OfInt(AsSigned(scales[l / 16 + 6]))), OfInt(Quant6(HighNibble(ql[l + 32]), qh[l] / 64)))
  {
    hide HalfAt, Digit, AsSigned, HighNibble, Q6Value, Quant6;
    Q6Place(block, half, 0, l);
    Q6Place(block, half, 1, l);
    Q6Place(block, half, 2, l);
    Q6Place(block, half, 3, l);
    var ql, x := block[half * 64..half * 64 + 64], block[128 + half * 32..128 + half * 32 + 32][l];
    Quant6Digits(ql[l], x);
    Quant6Digits(ql[l + 32], x);
    Quant6Digits(HighNibble(ql[l]), x);
    Quant6Digits(HighNibble(ql[l + 32]), x);
  }

  lemma Quant6Digits(low: nat, x: nat)
    ensures Quant6(low, x) == Quant6(low, Digit(x, 4, 0)) && Quant6(low, x / 4) == Quant6(low, Digit(x, 4, 1))
    ensures Quant6(low, x / 16) == Quant6(low, Digit(x, 4, 2)) && Quant6(low, x / 64) == Quant6(low, Digit(x, 4, 3))
  {
    hide Digit;
    Digit4(x, 0);
    Digit4(x, 1);
    Digit4(x, 2);
    Digit4(x, 3);
  }

  method DequantQ8(block: seq<Byte>, finite: Finite) returns (r: Result<seq<Float>, DequantError>)
    requires |block| == 34
    ensures r == Block(Q8_0, block, finite)
  {
    hide HalfAt, AsSigned;
    var scale := HalfAt(block, 0);
    if !finite(scale) {
      return Err(NonFinite);
    }
    var row := new Float[32](_ => Zero);
    for index := 0 to 32
      invariant forall i :: 0 <= i < index ==> row[i] == Value(Q8_0, block, i) && finite(row[i])
    {
      var value := Mul(scale, OfInt(AsSigned(block[2 + index])));
      if !finite(value) {
        assert Values(Q8_0, block)[index] == value;
        return Err(NonFinite);
      }
      row[index] := value;
    }
    assert row[..] == Values(Q8_0, block);
    return Ok(row[..]);
  }

  /** `dequant_block`. */
  method DequantBlock(t: TensorType, block: seq<Byte>, finite: Finite) returns (r: Result<seq<Float>, DequantError>)
    requires |block| == TypeSize(t)
    ensures r == Block(t, block, finite)
  {
    hide HalfAt, Q4Value, Q5Value, Q6Value;
    match t {
      case Q8_0 => r := DequantQ8(block, finite);
      case Q4_K => r := DequantQ4K(block, finite);
      case Q5_K => r := DequantQ5K(block, finite);
      case Q6_K => r := DequantQ6K(block, finite);
      case F32 =>
        assert Values(t, block) == [Single(FromLittleEndian(block))];
        assert Values(t, block)[0] == Single(FromLittleEndian(block));
        r := OneValue(Single(FromLittleEndian(block)), finite);
      case F16 =>
        assert Values(t, block) == [HalfAt(block, 0)];
        assert Values(t, block)[0] == HalfAt(block, 0);
        r := OneValue(HalfAt(block, 0), finite);
    }
  }

  /** `write_finite` into a single slot. */
  method OneValue(value: Float, finite: Finite) returns (r: Result<seq<Float>, DequantError>)
    ensures r == if finite(value) then Ok([value]) else Err(NonFinite)
  {
    return if finite(value) then Ok([value]) else Err(NonFinite);
  }

  // ---------------------------------------------------------------- whole payloads

  /** `dequant_output_bytes_limited`. */
  function OutputBytes(t: TensorType, length: nat, limit: nat): Result<nat, DequantError> {
    if length == 0 || length % TypeSize(t) != 0 then Err(PayloadLength)
    else if length / TypeSize(t) * BlockElements(t) * 4 >= TWO_64 then Err(Overflow)
    else if length / TypeSize(t) * BlockElements(t) * 4 > limit then Err(OutputTooLarge)
    else Ok(length / TypeSize(t) * BlockElements(t) * 4)
  }

  function Blocks(t: TensorType, bytes: seq<Byte>, finite: Finite): Result<seq<Float>, DequantError> {
    if |bytes| < TypeSize(t) then Ok([])
    else
      var first :- Block(t, bytes[..TypeSize(t)], finite);
      var rest :- Blocks(t, bytes[TypeSize(t)..], finite);
      Ok(first + rest)
  }

  /** `dequant_gguf_limited`. */
  function Dequantized(t: TensorType, bytes: seq<Byte>, limit: nat, finite: Finite): Result<seq<Float>, DequantError> {
    var _ :- OutputBytes(t, |bytes|, limit);
    Blocks(t, bytes, finite)
  }

  lemma NextMultiple(n: nat, w: nat)
    requires n > 0
    ensures n * w == (n - 1) * w + w
  {
  }

  lemma {:induction false} BlocksLength(t: TensorType, bytes: seq<Byte>, n: nat, finite: Finite)
    requires |bytes| == n * TypeSize(t) && Blocks(t, bytes, finite).Ok?
    ensures var out := Blocks(t, bytes, finite).value;
            |out| == n * BlockElements(t) && AllFinite(out, finite)
  {
    if n > 0 {
      NextMultiple(n, TypeSize(t));
      NextMultiple(n, BlockElements(t));
      BlocksLength(t, bytes[TypeSize(t)..], n - 1, finite);
    }
  }

  lemma BlockRange(b: nat, n: nat, w: nat, j: nat)
    requires b < n && j < w
    ensures 0 <= b * w && b * w + w <= n * w && b * w + j < n * w
  {
    assert (b + 1) * w <= n * w;
  }

  /** Element `j` of block `b` is the formula applied to that block of the payload. */
  lemma {:induction false} ElementMeaning(t: TensorType, bytes: seq<Byte>, n: nat, finite: Finite, b: nat, j: nat)
    requires |bytes| == n * TypeSize(t) && Blocks(t, bytes, finite).Ok? && b < n && j < BlockElements(t)
    ensures var out, w := Blocks(t, bytes, finite).value, TypeSize(t);
            && 0 <= b * w && b * w + w <= |bytes|
            && 0 <= b * BlockElements(t) + j < |out|
            && out[b * BlockElements(t) + j] == Value(t, bytes[b * w..b * w + w], j)
    decreases n
  {
    hide Value, Block, TypeSize, BlockElements;
    var w, e := TypeSize(t), BlockElements(t);
    BlocksLength(t, bytes, n, finite);
    BlockRange(b, n, w, 0);
    BlockRange(b, n, e, j);
    NextMultiple(n, w);
    FirstBlock(t, bytes, finite);
    var head, tail := bytes[..w], bytes[w..];
    var out, rest := Blocks(t, bytes, finite).value, Blocks(t, tail, finite).value;
    if b == 0 {
      assert bytes[0..w] == head;
      assert out[j] == Values(t, head)[j];
    } else {
      ElementMeaning(t, tail, n - 1, finite, b - 1, j);
      NextMultiple(b, w);
      NextMultiple(b, e);
      assert tail[(b - 1) * w..(b - 1) * w + w] == bytes[b * w..b * w + w];
      assert out[b * e + j] == rest[(b - 1) * e + j];
    }
  }

  lemma FirstBlock(t: TensorType, bytes: seq<Byte>, finite: Finite)
    requires |bytes| >= TypeSize(t) && Blocks(t, bytes, finite).Ok?
    ensures TypeSize(t) > 0
    ensures Blocks(t, bytes[TypeSize(t)..], finite).Ok?
    ensures Blocks(t, bytes, finite).value ==
            Values(t, bytes[..TypeSize(t)]) + Blocks(t, bytes[TypeSize(t)..], finite).value
  {
    hide Values;
  }

  function Both(a: Result<seq<Float>, DequantError>, b: Result<seq<Float>, DequantError>)
    : Result<seq<Float>, DequantError>
  {
    if a.Err? then a else Prepend(a.value, b)
  }

  lemma BlocksOfNothing(t: TensorType, finite: Finite)
    ensures Blocks(t, [], finite) == Ok([])
  {
  }

  /** The blocks of a payload are expanded independently of each other. */
  lemma {:induction false} BlocksConcat(t: TensorType, a: seq<Byte>, n: nat, b: seq<Byte>, finite: Finite)
    requires |a| == n * TypeSize(t)
    ensures Blocks(t, a + b, finite) == Both(Blocks(t, a, finite), Blocks(t, b, finite))
    decreases n
  {
    hide Block, Blocks, TypeSize;
    var w := TypeSize(t);
    if n == 0 {
      assert a == [] && a + b == b;
      BlocksOfNothing(t, finite);
      PrependNothing(Blocks(t, b, finite));
    } else {
      NextMultiple(n, w);
      assert (a + b)[..w] == a[..w] && (a + b)[w..] == a[w..] + b;
      BlocksConcat(t, a[w..], n - 1, b, finite);
      BlocksStep(t, a, finite, []);
      BlocksStep(t, a + b, finite, []);
      PrependNothing(Blocks(t, a, finite));
      PrependNothing(Blocks(t, a + b, finite));
      var first := Block(t, a[..w], finite);
      if first.Ok? {
        assert [] + first.value == first.value;
        PrependBoth(first.value, Blocks(t, a[w..], finite), Blocks(t, b, finite));
      }
    }
  }

  lemma PrependBoth(first: seq<Float>, a: Result<seq<Float>, DequantError>, b: Result<seq<Float>, DequantError>)
    ensures Prepend(first, Both(a, b)) == Both(Prepend(first, a), b)
  {
    if a.Ok? && b.Ok? {
      ConcatAssociative(first, a.value, b.value);
    }
  }

  /** `dequant_gguf_limited` as it runs: one block at a time onto the output. */
  method DequantGguf(t: TensorType, bytes: seq<Byte>, limit: nat, finite: Finite)
    returns (r: Result<seq<Float>, DequantError>)
    ensures r == Dequantized(t, bytes, limit, finite)
    ensures r.Ok? ==> |r.value| * 4 <= limit && forall k :: 0 <= k < |r.value| ==> finite(r.value[k])
  {
    hide Block, BlockElements, Blocks, Prepend;
    var estimate :- OutputBytes(t, |bytes|, limit);
    var count := estimate / 4;
    var w := TypeSize(t);
    var out: seq<Float> := [];
    var at := 0;
    assert bytes[0..] == bytes;
    PrependNothing(Blocks(t, bytes, finite));
    while at + w <= |bytes|
      invariant 0 <= at <= |bytes|
      invariant Blocks(t, bytes, finite) == Prepend(out, Blocks(t, bytes[at..], finite))
    {
      assert bytes[at..][..w] == bytes[at..at + w] && bytes[at..][w..] == bytes[at + w..];
      BlocksStep(t, bytes[at..], finite, out);
      var decoded :- DequantBlock(t, bytes[at..at + w], finite);
      out := out + decoded;
      at := at + w;
    }
    NoBlocks(t, bytes[at..], finite, out);
    WholeBlocks(t, |bytes|, limit);
    BlocksLength(t, bytes, |bytes| / w, finite);
    assert |out| == count;
    return Ok(out);
  }

  function Prepend(done: seq<Float>, rest: Result<seq<Float>, DequantError>): Result<seq<Float>, DequantError> {
    match rest
    case Ok(vs) => Ok(done + vs)
    case Err(error) => Err(error)
  }

  lemma PrependNothing(rest: Result<seq<Float>, DequantError>)
    ensures Prepend([], rest) == rest
  {
    if rest.Ok? {
      assert [] + rest.value == rest.value;
    }
  }

  lemma NoBlocks(t: TensorType, bytes: seq<Byte>, finite: Finite, done: seq<Float>)
    requires |bytes| < TypeSize(t)
    ensures Prepend(done, Blocks(t, bytes, finite)) == Ok(done)
  {
    assert done + [] == done;
  }

  /** The estimate counts the elements of whole blocks. */
  lemma WholeBlocks(t: TensorType, length: nat, limit: nat)
    requires OutputBytes(t, length, limit).Ok?
    ensures length == length / TypeSize(t) * TypeSize(t)
    ensures OutputBytes(t, length, limit).value / 4 == length / TypeSize(t) * BlockElements(t)
    ensures OutputBytes(t, length, limit).value <= limit
  {
    hide BlockElements;
  }

  lemma BlocksStep(t: TensorType, bytes: seq<Byte>, finite: Finite, done: seq<Float>)
    requires |bytes| >= TypeSize(t)
    ensures var first := Block(t, bytes[..TypeSize(t)], finite);
            && (first.Err? ==> Prepend(done, Blocks(t, bytes, finite)) == Err(first.error))
            && (first.Ok? ==> Prepend(done, Blocks(t, bytes, finite)) ==
                              Prepend(done + first.value, Blocks(t, bytes[TypeSize(t)..], finite)))
  {
    hide Block;
    var first, rest := Block(t, bytes[..TypeSize(t)], finite), Blocks(t, bytes[TypeSize(t)..], finite);
    if first.Ok? && rest.Ok? {
      ConcatAssociative(done, first.value, rest.value);
    }
  }

  /** Concatenated payloads expand to concatenated outputs, up to the output limit. */
  lemma DequantizedConcat(t: TensorType, a: seq<Byte>, b: seq<Byte>, limit: nat, finite: Finite)
    requires Dequantized(t, a, limit, finite).Ok? && Dequantized(t, b, limit, finite).Ok?
    requires OutputBytes(t, |a + b|, limit).Ok?
    ensures Dequantized(t, a + b, limit, finite) ==
            Ok(Dequantized(t, a, limit, finite).value + Dequantized(t, b, limit, finite).value)
  {
    hide Blocks;
    WholeBlocks(t, |a|, limit);
    BlocksConcat(t, a, |a| / TypeSize(t), b, finite);
  }
}
