/**
 The bit layouts of the K-quant super-blocks in `dequant.rs`: where the loops find the scale,
 the min and the code of each element, and the proof that every layout is a bijection.
 A mask of low bits is a remainder, a shift is a quotient, and an `|` of disjoint fields a sum.
 Three layouts are treated: twelve bytes for eight six-bit scales and eight six-bit mins, the
 nibbles of Q4_K with the extra bit plane of Q5_K, and the low nibbles and high bit pairs of
 Q6_K. Each has a packer written here as the specification.
 */
module QuantBits {
  import opened Bytes

  /** Sequences of `n` codes below `limit`. */
  predicate Codes(cs: seq<nat>, n: nat, limit: nat) {
    |cs| == n && forall i :: 0 <= i < n ==> cs[i] < limit
  }

  // ---------------------------------------------------------------- scales and mins

  /** `k4_scale_min`. */
  function ScaleMin(group: nat, scales: seq<Byte>): (r: (nat, nat))
    requires group < 8 && |scales| == 12
    ensures r.0 < 64 && r.1 < 64
  {
    if group < 4 then (scales[group] % 64, scales[group + 4] % 64)
    else
      (scales[group + 4] % 16 + scales[group - 4] / 64 * 16,
       scales[group + 4] / 16 + scales[group] / 64 * 16)
  }

  function Scales(bytes: seq<Byte>): (cs: seq<nat>)
    requires |bytes| == 12
    ensures Codes(cs, 8, 64)
  {
    seq(8, i requires 0 <= i < 8 => ScaleMin(i, bytes).0)
  }

  function Mins(bytes: seq<Byte>): (cs: seq<nat>)
    requires |bytes| == 12
    ensures Codes(cs, 8, 64)
  {
    seq(8, i requires 0 <= i < 8 => ScaleMin(i, bytes).1)
  }

  function ScaleByte(s: seq<nat>, m: seq<nat>, k: nat): Byte
    requires Codes(s, 8, 64) && Codes(m, 8, 64) && k < 12
  {
    if k < 4 then s[k] + 64 * (s[k + 4] / 16)
    else if k < 8 then m[k - 4] + 64 * (m[k] / 16)
    else s[k - 4] % 16 + 16 * (m[k - 4] % 16)
  }

  /** Eight six-bit scales and eight six-bit mins in twelve bytes. */
  function PackScales(s: seq<nat>, m: seq<nat>): (bytes: seq<Byte>)
    requires Codes(s, 8, 64) && Codes(m, 8, 64)
    ensures |bytes| == 12
  {
    seq(12, k requires 0 <= k < 12 => ScaleByte(s, m, k))
  }

  lemma Fields64(low: nat, high: nat)
    requires low < 64
    ensures (low + 64 * high) % 64 == low && (low + 64 * high) / 64 == high
  {
  }

  lemma Fields16(low: nat, high: nat)
    requires low < 16
    ensures (low + 16 * high) % 16 == low && (low + 16 * high) / 16 == high
  {
  }

  /** Groups `j` and `j + 4` share three bytes. */
  lemma UnpackPackedPair(s: seq<nat>, m: seq<nat>, j: nat)
    requires Codes(s, 8, 64) && Codes(m, 8, 64) && j < 4
    ensures ScaleMin(j, PackScales(s, m)) == (s[j], m[j])
    ensures ScaleMin(j + 4, PackScales(s, m)) == (s[j + 4], m[j + 4])
  {
    var bytes := PackScales(s, m);
    var x: int, y: int, z: int := bytes[j], bytes[j + 4], bytes[j + 8];
    Fields64(s[j], s[j + 4] / 16);
    Fields64(m[j], m[j + 4] / 16);
    Fields16(s[j + 4] % 16, m[j + 4] % 16);
    assert x == s[j] + 64 * (s[j + 4] / 16);
    assert y == m[j] + 64 * (m[j + 4] / 16);
    assert z == s[j + 4] % 16 + 16 * (m[j + 4] % 16);
  }

  /** Every set of scales and mins is what some twelve bytes unpack to. */
  lemma UnpackPackedScales(s: seq<nat>, m: seq<nat>)
    requires Codes(s, 8, 64) && Codes(m, 8, 64)
    ensures Scales(PackScales(s, m)) == s && Mins(PackScales(s, m)) == m
  {
    hide PackScales, ScaleMin;
    var bytes := PackScales(s, m);
    forall j | 0 <= j < 8
      ensures Scales(bytes)[j] == s[j] && Mins(bytes)[j] == m[j]
    {
      UnpackPackedPair(s, m, j % 4);
    }
  }

  lemma PackUnpackedTriple(bytes: seq<Byte>, j: nat)
    requires |bytes| == 12 && j < 4
    ensures var s, m := Scales(bytes), Mins(bytes);
            ScaleByte(s, m, j) == bytes[j] && ScaleByte(s, m, j + 4) == bytes[j + 4]
            && ScaleByte(s, m, j + 8) == bytes[j + 8]
  {
    var x: int, y: int, z: int := bytes[j], bytes[j + 4], bytes[j + 8];
    var s, m := Scales(bytes), Mins(bytes);
    Fields16(z % 16, x / 64);
    Fields16(z / 16, y / 64);
    assert s[j] == x % 64 && m[j] == y % 64;
    assert s[j + 4] == z % 16 + x / 64 * 16 && m[j + 4] == z / 16 + y / 64 * 16;
  }

  /** Twelve bytes are determined by the scales and mins they unpack to. */
  lemma PackUnpackedScales(bytes: seq<Byte>)
    requires |bytes| == 12
    ensures PackScales(Scales(bytes), Mins(bytes)) == bytes
  {
    hide Scales, Mins, ScaleByte;
    var s, m := Scales(bytes), Mins(bytes);
    forall k | 0 <= k < 12
      ensures ScaleByte(s, m, k) == bytes[k]
    {
      PackUnpackedTriple(bytes, k % 4);
    }
  }

  // ---------------------------------------------------------------- four-bit codes

  /** The code of element `i` of a `Q4_K` block: low nibbles first, high nibbles 32 later. */
  function Nibble(qs: seq<Byte>, i: nat): (c: nat)
    requires |qs| == 128 && i < 256
    ensures c < 16
  {
    var at := i / 64 * 32 + i % 32;
    if i % 64 < 32 then qs[at] % 16 else qs[at] / 16
  }

  function NibbleByte(cs: seq<nat>, k: nat): Byte
    requires Codes(cs, 256, 16) && k < 128
  {
    var at := k / 32 * 64 + k % 32;
    cs[at] + 16 * cs[at + 32]
  }

  function Nibbles(qs: seq<Byte>): (cs: seq<nat>)
    requires |qs| == 128
    ensures Codes(cs, 256, 16)
  {
    seq(256, i requires 0 <= i < 256 => Nibble(qs, i))
  }

  function PackNibbles(cs: seq<nat>): (qs: seq<Byte>)
    requires Codes(cs, 256, 16)
    ensures |qs| == 128
  {
    seq(128, k requires 0 <= k < 128 => NibbleByte(cs, k))
  }

  /** Where element `i` and byte `k` of a nibble plane meet. */
  lemma NibbleIndex(i: nat)
    requires i < 256
    ensures var k := i / 64 * 32 + i % 32;
            k < 128 && k / 32 * 64 + k % 32 == i / 64 * 64 + i % 32
    ensures i % 64 < 32 ==> i / 64 * 64 + i % 32 == i
    ensures i % 64 >= 32 ==> i / 64 * 64 + i % 32 + 32 == i
  {
    var c, r := i / 64, i % 64;
    assert i == 64 * c + r && c < 4;
    assert i % 32 == if r < 32 then r else r - 32;
  }

  lemma NibbleByteIndex(k: nat)
    requires k < 128
    ensures var i := k / 32 * 64 + k % 32;
            && i + 32 < 256 && i % 64 < 32 && (i + 32) % 64 >= 32
            && i / 64 * 32 + i % 32 == k && (i + 32) / 64 * 32 + (i + 32) % 32 == k
  {
  }

  lemma NibbleOfByte(cs: seq<nat>, i: nat)
    requires Codes(cs, 256, 16) && i < 256
    ensures Nibble(PackNibbles(cs), i) == cs[i]
  {
    NibbleIndex(i);
    var at := i / 64 * 64 + i % 32;
    Fields16(cs[at], cs[at + 32]);
  }

  lemma ByteOfNibbles(qs: seq<Byte>, k: nat)
    requires |qs| == 128 && k < 128
    ensures NibbleByte(Nibbles(qs), k) == qs[k]
  {
    NibbleByteIndex(k);
  }

  lemma UnpackPackedNibbles(cs: seq<nat>)
    requires Codes(cs, 256, 16)
    ensures Nibbles(PackNibbles(cs)) == cs
  {
    hide Nibble, PackNibbles;
    forall i | 0 <= i < 256
      ensures Nibble(PackNibbles(cs), i) == cs[i]
    {
      NibbleOfByte(cs, i);
    }
  }

  lemma PackUnpackedNibbles(qs: seq<Byte>)
    requires |qs| == 128
    ensures PackNibbles(Nibbles(qs)) == qs
  {
    hide Nibbles, NibbleByte;
    forall k | 0 <= k < 128
      ensures NibbleByte(Nibbles(qs), k) == qs[k]
    {
      ByteOfNibbles(qs, k);
    }
  }

  // ---------------------------------------------------------------- digits of a byte

  /** The width of the fields that a byte is cut into: one bit or two. */
  type Base = b: nat | b == 2 || b == 4 witness 2

  function Low(x: nat, base: Base): nat {
    if base == 2 then x % 2 else x % 4
  }

  function Shift(x: nat, base: Base): nat {
    if base == 2 then x / 2 else x / 4
  }

  function Power(base: Base, k: nat): (p: nat)
    ensures p > 0
  {
    if k == 0 then 1 else if base == 2 then 2 * Power(base, k - 1) else 4 * Power(base, k - 1)
  }

  function Digit(x: nat, base: Base, k: nat): (d: nat)
    ensures d < base
  {
    if k == 0 then Low(x, base) else Digit(Shift(x, base), base, k - 1)
  }

  predicate Digits(ds: seq<nat>, base: Base) {
    forall k :: 0 <= k < |ds| ==> ds[k] < base
  }

  function FromDigits(ds: seq<nat>, base: Base): (x: nat)
    requires Digits(ds, base)
    ensures x < Power(base, |ds|)
  {
    if ds == [] then 0 else Join(ds[0], FromDigits(ds[1..], base), base)
  }

  function Join(d: nat, rest: nat, base: Base): nat {
    if base == 2 then d + 2 * rest else d + 4 * rest
  }

  lemma SplitJoin(d: nat, rest: nat, base: Base)
    requires d < base
    ensures Low(Join(d, rest, base), base) == d && Shift(Join(d, rest, base), base) == rest
  {
  }

  lemma JoinSplit(x: nat, base: Base)
    ensures Join(Low(x, base), Shift(x, base), base) == x && Low(x, base) < base
  {
  }

  lemma {:induction false} DigitOfDigits(ds: seq<nat>, base: Base, k: nat)
    requires Digits(ds, base) && k < |ds|
    ensures Digit(FromDigits(ds, base), base, k) == ds[k]
  {
    hide Low, Shift, Join;
    SplitJoin(ds[0], FromDigits(ds[1..], base), base);
    if k > 0 {
      DigitOfDigits(ds[1..], base, k - 1);
    }
  }

  function DigitsOf(x: nat, base: Base, n: nat): (ds: seq<nat>)
    ensures |ds| == n && Digits(ds, base)
    ensures forall k :: 0 <= k < n ==> ds[k] == Digit(x, base, k)
  {
    if n == 0 then [] else [Low(x, base)] + DigitsOf(Shift(x, base), base, n - 1)
  }

  lemma {:induction false} DigitsOfInverse(x: nat, base: Base, n: nat)
    requires x < Power(base, n)
    ensures FromDigits(DigitsOf(x, base, n), base) == x
  {
    hide Low, Join;
    if n > 0 {
      JoinSplit(x, base);
      DigitsOfInverse(Shift(x, base), base, n - 1);
      assert DigitsOf(x, base, n)[1..] == DigitsOf(Shift(x, base), base, n - 1);
    }
  }

  lemma BytePowers()
    ensures Power(2, 8) == 256 && Power(4, 4) == 256
  {
    assert Power(2, 2) == 4 && Power(2, 4) == 16 && Power(2, 6) == 64;
    assert Power(4, 2) == 16;
  }

  // ---------------------------------------------------------------- five-bit codes

  /** The code of element `i` of a `Q5_K` block: its nibble and bit `i / 32` of its high byte. */
  function FiveBit(qh: seq<Byte>, qs: seq<Byte>, i: nat): (c: nat)
    requires |qh| == 32 && |qs| == 128 && i < 256
    ensures c < 32
  {
    Nibble(qs, i) + 16 * Digit(qh[i % 32], 2, i / 32)
  }

  function FiveBits(qh: seq<Byte>, qs: seq<Byte>): (cs: seq<nat>)
    requires |qh| == 32 && |qs| == 128
    ensures Codes(cs, 256, 32)
  {
    seq(256, i requires 0 <= i < 256 => FiveBit(qh, qs, i))
  }

  function LowNibbles(cs: seq<nat>): (r: seq<nat>)
    requires |cs| == 256
    ensures Codes(r, 256, 16)
  {
    seq(256, i requires 0 <= i < 256 => cs[i] % 16)
  }

  /** The bits of byte `l` of the high plane. */
  function HighBits(cs: seq<nat>, l: nat): (ds: seq<nat>)
    requires Codes(cs, 256, 32) && l < 32
    ensures |ds| == 8 && Digits(ds, 2)
  {
    seq(8, k requires 0 <= k < 8 => cs[32 * k + l] / 16)
  }

  function HighBitByte(cs: seq<nat>, l: nat): Byte
    requires Codes(cs, 256, 32) && l < 32
  {
    BytePowers();
    FromDigits(HighBits(cs, l), 2)
  }

  function PackHighBits(cs: seq<nat>): (qh: seq<Byte>)
    requires Codes(cs, 256, 32)
    ensures |qh| == 32
  {
    seq(32, l requires 0 <= l < 32 => HighBitByte(cs, l))
  }

  lemma UnpackPackedFiveBits(cs: seq<nat>)
    requires Codes(cs, 256, 32)
    ensures FiveBits(PackHighBits(cs), PackNibbles(LowNibbles(cs))) == cs
  {
    hide PackNibbles, Digit, FromDigits, Nibble, Nibbles;
    var qh, qs := PackHighBits(cs), PackNibbles(LowNibbles(cs));
    forall i | 0 <= i < 256
      ensures FiveBit(qh, qs, i) == cs[i]
    {
      NibbleOfByte(LowNibbles(cs), i);
      DigitOfDigits(HighBits(cs, i % 32), 2, i / 32);
      assert HighBits(cs, i % 32)[i / 32] == cs[i] / 16;
    }
  }

  /** The 160 bytes of a `Q5_K` block are determined by its 256 codes. */
  lemma PackUnpackedFiveBits(qh: seq<Byte>, qs: seq<Byte>)
    requires |qh| == 32 && |qs| == 128
    ensures PackHighBits(FiveBits(qh, qs)) == qh && PackNibbles(LowNibbles(FiveBits(qh, qs))) == qs
  {
    hide PackNibbles, Digit, FromDigits, Nibble, Nibbles, DigitsOf;
    var cs := FiveBits(qh, qs);
    assert LowNibbles(cs) == Nibbles(qs) by {
      NibblesAre(qs);
    }
    PackUnpackedNibbles(qs);
    forall l | 0 <= l < 32
      ensures HighBitByte(cs, l) == qh[l]
    {
      BytePowers();
      assert HighBits(cs, l) == DigitsOf(qh[l], 2, 8);
      DigitsOfInverse(qh[l], 2, 8);
    }
  }

  lemma NibblesAre(qs: seq<Byte>)
    requires |qs| == 128
    ensures forall i :: 0 <= i < 256 ==> Nibbles(qs)[i] == Nibble(qs, i)
  {
  }

  // ---------------------------------------------------------------- six-bit codes

  /** The low four bits of element `i` of a `Q6_K` block: low nibbles first, high nibbles 64 later. */
  function Low6(ql: seq<Byte>, i: nat): (c: nat)
    requires |ql| == 128 && i < 256
    ensures c < 16
  {
    var low := ql[i / 128 * 64 + i % 64];
    if i % 128 < 64 then low % 16 else low / 16
  }

  /** The high two bits: pair `i % 128 / 32` of the byte its column shares. */
  function High6(qh: seq<Byte>, i: nat): (c: nat)
    requires |qh| == 64 && i < 256
    ensures c < 4
  {
    Digit(qh[i / 128 * 32 + i % 32], 4, i % 128 / 32)
  }

  /** The code of element `i` of a `Q6_K` block, before the bias of 32. */
  function SixBit(ql: seq<Byte>, qh: seq<Byte>, i: nat): (c: nat)
    requires |ql| == 128 && |qh| == 64 && i < 256
    ensures c < 64
  {
    Low6(ql, i) + 16 * High6(qh, i)
  }

  lemma SixBitParts(ql: seq<Byte>, qh: seq<Byte>, i: nat)
    requires |ql| == 128 && |qh| == 64 && i < 256
    ensures SixBits(ql, qh)[i] % 16 == Low6(ql, i) && SixBits(ql, qh)[i] / 16 == High6(qh, i)
  {
    hide Low6, High6;
    Fields16(Low6(ql, i), High6(qh, i));
  }

  function SixBits(ql: seq<Byte>, qh: seq<Byte>): (cs: seq<nat>)
    requires |ql| == 128 && |qh| == 64
    ensures Codes(cs, 256, 64)
  {
    seq(256, i requires 0 <= i < 256 => SixBit(ql, qh, i))
  }

  function LowByte6(cs: seq<nat>, k: nat): Byte
    requires Codes(cs, 256, 64) && k < 128
  {
    var at := k / 64 * 128 + k % 64;
    cs[at] % 16 + 16 * (cs[at + 64] % 16)
  }

  function HighPairs(cs: seq<nat>, k: nat): (ds: seq<nat>)
    requires Codes(cs, 256, 64) && k < 64
    ensures |ds| == 4 && Digits(ds, 4)
  {
    seq(4, q requires 0 <= q < 4 => cs[k / 32 * 128 + 32 * q + k % 32] / 16)
  }

  function HighByte6(cs: seq<nat>, k: nat): Byte
    requires Codes(cs, 256, 64) && k < 64
  {
    BytePowers();
    FromDigits(HighPairs(cs, k), 4)
  }

  function PackLow6(cs: seq<nat>): (ql: seq<Byte>)
    requires Codes(cs, 256, 64)
    ensures |ql| == 128
  {
    seq(128, k requires 0 <= k < 128 => LowByte6(cs, k))
  }

  function PackHigh6(cs: seq<nat>): (qh: seq<Byte>)
    requires Codes(cs, 256, 64)
    ensures |qh| == 64
  {
    seq(64, k requires 0 <= k < 64 => HighByte6(cs, k))
  }

  /** Where element `i` and the bytes of the two `Q6_K` planes meet. */
  lemma LowIndex6(i: nat)
    requires i < 256
    ensures var k := i / 128 * 64 + i % 64;
            k < 128 && k / 64 * 128 + k % 64 == i / 128 * 128 + i % 64
    ensures i % 128 < 64 ==> i / 128 * 128 + i % 64 == i
    ensures i % 128 >= 64 ==> i / 128 * 128 + i % 64 + 64 == i
  {
    var c, r := i / 128, i % 128;
    assert i == 128 * c + r && c < 2;
    assert i % 64 == if r < 64 then r else r - 64;
  }

  lemma HighIndex6(i: nat)
    requires i < 256
    ensures var k := i / 128 * 32 + i % 32;
            k < 64 && k / 32 * 128 + 32 * (i % 128 / 32) + k % 32 == i
  {
    var c, r := i / 128, i % 128;
    var q, l := r / 32, r % 32;
    assert i == 128 * c + 32 * q + l && c < 2 && q < 4;
    assert i % 32 == l;
    assert (c * 32 + l) / 32 == c && (c * 32 + l) % 32 == l;
  }

  lemma LowByteIndex6(k: nat)
    requires k < 128
    ensures var i := k / 64 * 128 + k % 64;
            && i + 64 < 256 && i % 128 < 64 && (i + 64) % 128 >= 64
            && i / 128 * 64 + i % 64 == k && (i + 64) / 128 * 64 + (i + 64) % 64 == k
  {
  }

  lemma HighPairIndex6(k: nat, q: nat)
    requires k < 64 && q < 4
    ensures var i := k / 32 * 128 + 32 * q + k % 32;
            i < 256 && i / 128 * 32 + i % 32 == k && i % 128 / 32 == q
  {
    var c, l := k / 32, k % 32;
    var i := c * 128 + 32 * q + l;
    assert k == 32 * c + l && c < 2;
    assert i / 128 == c && i % 128 == 32 * q + l && i % 32 == l;
  }

  lemma LowOfPacked6(cs: seq<nat>, i: nat)
    requires Codes(cs, 256, 64) && i < 256
    ensures Low6(PackLow6(cs), i) == cs[i] % 16
  {
    LowIndex6(i);
    var at := i / 128 * 128 + i % 64;
    Fields16(cs[at] % 16, cs[at + 64] % 16);
  }

  lemma HighOfPacked6(cs: seq<nat>, i: nat)
    requires Codes(cs, 256, 64) && i < 256
    ensures High6(PackHigh6(cs), i) == cs[i] / 16
  {
    hide Digit, FromDigits;
    HighIndex6(i);
    var k := i / 128 * 32 + i % 32;
    DigitOfDigits(HighPairs(cs, k), 4, i % 128 / 32);
  }

  lemma UnpackPackedSixBits(cs: seq<nat>)
    requires Codes(cs, 256, 64)
    ensures SixBits(PackLow6(cs), PackHigh6(cs)) == cs
  {
    hide PackLow6, PackHigh6, Low6, High6;
    var ql, qh := PackLow6(cs), PackHigh6(cs);
    forall i | 0 <= i < 256
      ensures SixBits(ql, qh)[i] == cs[i]
    {
      LowOfPacked6(cs, i);
      HighOfPacked6(cs, i);
    }
  }

  lemma LowOfUnpacked6(ql: seq<Byte>, qh: seq<Byte>, k: nat)
    requires |ql| == 128 && |qh| == 64 && k < 128
    ensures LowByte6(SixBits(ql, qh), k) == ql[k]
  {
    hide High6, SixBits;
    var at := k / 64 * 128 + k % 64;
    SixBitParts(ql, qh, at);
    SixBitParts(ql, qh, at + 64);
    LowByteIndex6(k);
  }

  lemma HighPairOf(ql: seq<Byte>, qh: seq<Byte>, k: nat, q: nat)
    requires |ql| == 128 && |qh| == 64 && k < 64 && q < 4
    ensures HighPairs(SixBits(ql, qh), k)[q] == Digit(qh[k], 4, q)
  {
    hide Low6, SixBits, Digit;
    var i := k / 32 * 128 + 32 * q + k % 32;
    HighPairIndex6(k, q);
    SixBitParts(ql, qh, i);
  }

  lemma HighOfUnpacked6(ql: seq<Byte>, qh: seq<Byte>, k: nat)
    requires |ql| == 128 && |qh| == 64 && k < 64
    ensures HighByte6(SixBits(ql, qh), k) == qh[k]
  {
    hide Digit, FromDigits, DigitsOf, HighPairs, SixBits;
    BytePowers();
    var ds := HighPairs(SixBits(ql, qh), k);
    forall q | 0 <= q < 4
      ensures ds[q] == Digit(qh[k], 4, q)
    {
      HighPairOf(ql, qh, k, q);
    }
    assert ds == DigitsOf(qh[k], 4, 4);
    DigitsOfInverse(qh[k], 4, 4);
  }

  /** The 192 bytes of a `Q6_K` block are determined by its 256 codes. */
  lemma PackUnpackedSixBits(ql: seq<Byte>, qh: seq<Byte>)
    requires |ql| == 128 && |qh| == 64
    ensures PackLow6(SixBits(ql, qh)) == ql && PackHigh6(SixBits(ql, qh)) == qh
  {
    hide SixBits, LowByte6, HighByte6;
    forall k | 0 <= k < 128
      ensures LowByte6(SixBits(ql, qh), k) == ql[k]
    {
      LowOfUnpacked6(ql, qh, k);
    }
    forall k | 0 <= k < 64
      ensures HighByte6(SixBits(ql, qh), k) == qh[k]
    {
      HighOfUnpacked6(ql, qh, k);
    }
  }
}
