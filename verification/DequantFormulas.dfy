/** Every element of a block, from its bytes. */
module DequantFormulas {
  /*
   The value of every element of a GGUF block in plain arithmetic on the bytes of the block:
   which bytes hold the factors, in which byte order, which are signed, and which bits make the
   scale, the min and the code. Nothing here uses the unpacking functions the loops share.
   */
  import opened Wrappers
  import opened Bytes
  import opened QuantBits
  import opened GgufTypes
  import opened Dequant

  const TWO_TO: seq<nat> := [1, 2, 4, 8, 16, 32, 64, 128]

  /** `n` is the byte `b` read as an `i8`. */
  predicate Signed(b: Byte, n: int) {
    -128 <= n < 128 && (n - b) % 256 == 0
  }

  lemma SignedMeaning(b: Byte, n: int)
    ensures AsSigned(b) == n <==> Signed(b, n)
  {
    assert Signed(b, AsSigned(b));
    if Signed(b, n) {
      assert (n - AsSigned(b)) % 256 == 0 && -256 < n - AsSigned(b) < 256;
    }
  }

  /** The binary16 factor of two bytes, the low byte first. */
  function Factor(block: seq<Byte>, at: nat): Float
    requires at + 2 <= |block|
  {
    Half(FromLittleEndian(block[at..at + 2]))
  }

  lemma FactorMeaning(block: seq<Byte>, at: nat)
    requires at + 2 <= |block|
    ensures HalfAt(block, at) == Factor(block, at)
    ensures var low: int, high: int := block[at], block[at + 1];
            HalfAt(block, at) == Half(low + 256 * high)
  {
    var bs := block[at..at + 2];
    assert bs[1..] == [block[at + 1]] && bs[1..][1..] == [];
    assert FromLittleEndian(bs[1..]) == block[at + 1];
  }

  // ---------------------------------------------------------------- plain elements

  /** The four bytes of an `f32`, the low byte first. */
  lemma F32Formula(block: seq<Byte>)
    requires |block| == 4
    ensures var a: int, b: int, c: int, d: int := block[0], block[1], block[2], block[3];
            Dequant.Value(F32, block, 0) == Single(a + 0x100 * b + 0x1_0000 * c + 0x100_0000 * d)
  {
    var b: int, c: int, d: int := block[1], block[2], block[3];
    assert block[1..][1..] == block[2..] && block[2..][1..] == block[3..] && block[3..][1..] == [];
    assert FromLittleEndian(block[3..]) == d;
    assert FromLittleEndian(block[2..]) == c + 256 * d;
    assert FromLittleEndian(block[1..]) == b + 256 * (c + 256 * d);
  }

  lemma F16Formula(block: seq<Byte>)
    requires |block| == 2
    ensures Dequant.Value(F16, block, 0) == Factor(block, 0)
  {
    FactorMeaning(block, 0);
  }

  /** The scale in the first two bytes times the signed byte of the element. */
  lemma Q8Formula(block: seq<Byte>, i: nat, n: int)
    requires |block| == 34 && i < 32 && Signed(block[2 + i], n)
    ensures Dequant.Value(Q8_0, block, i) == Mul(Factor(block, 0), OfInt(n))
  {
    hide HalfAt, AsSigned;
    FactorMeaning(block, 0);
    SignedMeaning(block[2 + i], n);
  }

  // ---------------------------------------------------------------- Q4_K and Q5_K

  /** The six-bit scale and min of a group, in the twelve bytes from the fourth on. */
  function Scale(block: seq<Byte>, group: nat): int
    requires |block| >= 16 && group < 8
  {
    var s := block[4..16];
    if group < 4 then s[group] % 64 else s[group + 4] % 16 + 16 * (s[group - 4] / 64)
  }

  function Min(block: seq<Byte>, group: nat): int
    requires |block| >= 16 && group < 8
  {
    var s := block[4..16];
    if group < 4 then s[group + 4] % 64 else s[group + 4] / 16 + 16 * (s[group] / 64)
  }

  /** Element `i` in nibbles from byte `at` on: 32 low nibbles, then the 32 high nibbles of the same bytes. */
  function Code4(block: seq<Byte>, at: nat, i: nat): int
    requires at + 128 <= |block| && i < 256
  {
    var b := block[at + 32 * (i / 64) + i % 32];
    if i % 64 < 32 then b % 16 else b / 16
  }

  lemma ScaleMinMeaning(block: seq<Byte>, group: nat)
    requires |block| >= 16 && group < 8
    ensures ScaleMin(group, block[4..16]) == (Scale(block, group), Min(block, group))
  {
  }

  /** `d * scale * code - dmin * min`, with `d` in bytes 0 and 1, `dmin` in bytes 2 and 3. */
  lemma Q4Formula(block: seq<Byte>, i: nat)
    requires |block| == 144 && i < 256
    ensures Dequant.Value(Q4_K, block, i) ==
            Sub(Mul(Mul(Factor(block, 0), OfInt(Scale(block, i / 32))), OfInt(Code4(block, 16, i))),
                Mul(Factor(block, 2), OfInt(Min(block, i / 32))))
  {
    hide HalfAt, ScaleMin, Scale, Min;
    FactorMeaning(block, 0);
    FactorMeaning(block, 2);
    ScaleMinMeaning(block, i / 32);
    NibbleMeaning(block, 16, i);
    assert block[16..144] == block[16..16 + 128];
  }

  lemma NibbleMeaning(block: seq<Byte>, at: nat, i: nat)
    requires at + 128 <= |block| && i < 256
    ensures Nibble(block[at..at + 128], i) == Code4(block, at, i)
  {
    assert i / 64 * 32 + i % 32 == 32 * (i / 64) + i % 32 < 128;
  }

  /** The fifth bit is bit `i / 32` of byte `i % 32` of the plane before the nibbles. */
  lemma Q5Formula(block: seq<Byte>, i: nat)
    requires |block| == 176 && i < 256
    ensures Dequant.Value(Q5_K, block, i) ==
            Sub(Mul(Mul(Factor(block, 0), OfInt(Scale(block, i / 32))),
                    OfInt(Code4(block, 48, i) + 16 * (block[16 + i % 32] / TWO_TO[i / 32] % 2))),
                Mul(Factor(block, 2), OfInt(Min(block, i / 32))))
  {
    hide HalfAt, ScaleMin, Scale, Min, Digit, Nibble, Code4;
    FactorMeaning(block, 0);
    FactorMeaning(block, 2);
    ScaleMinMeaning(block, i / 32);
    NibbleMeaning(block, 48, i);
    assert block[48..176] == block[48..48 + 128];
    assert block[16..48][i % 32] == block[16 + i % 32];
    BitMeaning(block[16 + i % 32], i / 32);
  }

  lemma BitMeaning(b: nat, k: nat)
    requires k < 8
    ensures Digit(b, 2, k) == b / TWO_TO[k] % 2
  {
    hide Digit;
    BitTest(b, k);
    assert Power(2, 1) == 2 && Power(2, 2) == 4 && Power(2, 3) == 8 && Power(2, 4) == 16;
    assert Power(2, 5) == 32 && Power(2, 6) == 64 && Power(2, 7) == 128;
  }

  // ---------------------------------------------------------------- Q6_K

  /** Four low bits in the first 128 bytes, two high bits in the next 64. */
  function Code6(block: seq<Byte>, i: nat): int
    requires |block| == 210 && i < 256
  {
    var low := block[64 * (i / 128) + i % 64];
    var high := block[128 + 32 * (i / 128) + i % 32];
    (if i % 128 < 64 then low % 16 else low / 16) + 16 * (high / TWO_TO[2 * (i % 128 / 32)] % 4)
  }

  /** `d * scale * (code - 32)`, the scale a signed byte, `d` in the last two bytes. */
  lemma Q6Formula(block: seq<Byte>, i: nat, scale: int)
    requires |block| == 210 && i < 256 && Signed(block[192 + i / 16], scale)
    ensures Dequant.Value(Q6_K, block, i) == Mul(Mul(Factor(block, 208), OfInt(scale)), OfInt(Code6(block, i) - 32))
  {
    hide HalfAt, AsSigned, SixBit, Code6, Digit;
    FactorMeaning(block, 208);
    SignedMeaning(block[192 + i / 16], scale);
    SixBitMeaning(block, i);
  }

  lemma SixBitMeaning(block: seq<Byte>, i: nat)
    requires |block| == 210 && i < 256
    ensures SixBit(block[..128], block[128..192], i) == Code6(block, i)
  {
    hide Digit;
    var high := block[128 + 32 * (i / 128) + i % 32];
    assert block[128..192][i / 128 * 32 + i % 32] == high;
    PairMeaning(high, i % 128 / 32);
  }

  lemma PairMeaning(b: nat, k: nat)
    requires k < 4
    ensures Digit(b, 4, k) == b / TWO_TO[2 * k] % 4
  {
    hide Digit;
    Digit4(b, k);
  }

  // ---------------------------------------------------------------- what a block is refused for

  /** A block is refused exactly for a factor or an element that is not finite. */
  lemma BlockMeaning(t: TensorType, block: seq<Byte>, finite: Finite)
    requires |block| == TypeSize(t)
    ensures Block(t, block, finite).Ok? <==>
            && (t in {Q8_0, Q4_K, Q5_K} ==> finite(Factor(block, 0)))
            && (t in {Q4_K, Q5_K} ==> finite(Factor(block, 2)))
            && (t == Q6_K ==> finite(Factor(block, 208)))
            && forall i :: 0 <= i < BlockElements(t) ==> finite(Dequant.Value(t, block, i))
    ensures Block(t, block, finite).Ok? ==>
            forall i :: 0 <= i < BlockElements(t) ==> Block(t, block, finite).value[i] == Dequant.Value(t, block, i)
  {
    hide HalfAt, Dequant.Value, Factor;
    if |block| >= 4 {
      FactorMeaning(block, 0);
      FactorMeaning(block, 2);
    }
    if |block| >= 210 {
      FactorMeaning(block, 208);
    }
    assert forall i :: 0 <= i < BlockElements(t) ==> Values(t, block)[i] == Dequant.Value(t, block, i);
  }

  /** The output of whole blocks, four bytes an element; other lengths and longer outputs are refused. */
  lemma OutputMeaning(t: TensorType, length: nat, limit: nat, n: nat)
    ensures OutputBytes(t, length, limit) == Ok(n) <==>
            && n <= limit && n < 0x1_0000_0000_0000_0000
            && exists blocks :: 0 < blocks && length == blocks * TypeSize(t) && n == blocks * BlockElements(t) * 4
  {
    hide BlockElements;
    var blocks := length / TypeSize(t);
    assert length % TypeSize(t) == 0 ==> length == blocks * TypeSize(t);
    forall k | 0 < k && length == k * TypeSize(t)
      ensures k == blocks && length > 0 && length % TypeSize(t) == 0
    {
    }
  }

  /** The block sizes and element counts of the tensor types. */
  lemma TypeTable()
    ensures (TypeSize(F32), BlockElements(F32)) == (4, 1) && (TypeSize(F16), BlockElements(F16)) == (2, 1)
    ensures (TypeSize(Q8_0), BlockElements(Q8_0)) == (34, 32)
    ensures (TypeSize(Q4_K), BlockElements(Q4_K)) == (144, 256) && (TypeSize(Q5_K), BlockElements(Q5_K)) == (176, 256)
    ensures (TypeSize(Q6_K), BlockElements(Q6_K)) == (210, 256)
  {
  }
}
