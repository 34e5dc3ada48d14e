/**
 UTF-8 as `String::as_bytes` writes it and `std::str::from_utf8` checks it. A Rust
 `String` is a Dafny `string`: both are sequences of Unicode scalar values. The encoder gives
 one to four bytes for each character. The decoder refuses what section 3 of RFC 3629 refuses:
 a stray continuation byte, a sequence that is cut short, a form longer than needed, a surrogate
 and a number above the last code point. The two are shown to be inverse, so that a byte string
 is valid exactly when it is the encoding of a string, and that string is unique. Text that is
 all ASCII is its own encoding, which is what the fixed keys and file names of the repository
 rely on, and the encoding of two strings in a row is their encodings in a row.
 */
module Utf8 {
  import opened Wrappers
  import opened Bytes

  function EncodeChar(c: char): (bs: seq<Byte>)
    ensures 1 <= |bs| <= 4
  {
    var n := c as int;
    if n < 0x80 then [n]
    else if n < 0x800 then [0xC0 + n / 0x40, 0x80 + n % 0x40]
    else if n < 0x10000 then [0xE0 + n / 0x1000, 0x80 + n / 0x40 % 0x40, 0x80 + n % 0x40]
    else [0xF0 + n / 0x40000, 0x80 + n / 0x1000 % 0x40, 0x80 + n / 0x40 % 0x40, 0x80 + n % 0x40]
  }

  function Encode(s: string): (bs: seq<Byte>)
    ensures |s| <= |bs|
  {
    if s == [] then [] else EncodeChar(s[0]) + Encode(s[1..])
  }

  predicate Continuation(b: Byte) {
    0x80 <= b < 0xC0
  }

  predicate IsScalar(n: int) {
    0 <= n < 0xD800 || 0xE000 <= n < 0x11_0000
  }

  /**
   The scalar value and width of the character that starts `bs`, or nothing when the
   bytes there are not the shortest form of a scalar value.
   */
  function DecodeChar(bs: seq<Byte>): (r: Option<(char, nat)>)
    requires bs != []
    ensures r.Some? ==> 1 <= r.value.1 <= |bs|
  {
    var b: int := bs[0];
    if b < 0x80 then
      Some((b as char, 1))
    else if 0xC2 <= b < 0xE0 && |bs| >= 2 && Continuation(bs[1]) then
      var b1: int := bs[1];
      Some((((b - 0xC0) * 0x40 + (b1 - 0x80)) as char, 2))
    else if 0xE0 <= b < 0xF0 && |bs| >= 3 && Continuation(bs[1]) && Continuation(bs[2]) then
      var b1: int, b2: int := bs[1], bs[2];
      var n := (b - 0xE0) * 0x1000 + (b1 - 0x80) * 0x40 + (b2 - 0x80);
      if n >= 0x800 && IsScalar(n) then Some((n as char, 3)) else None
    else if 0xF0 <= b < 0xF5 && |bs| >= 4 && Continuation(bs[1]) && Continuation(bs[2]) && Continuation(bs[3]) then
      var b1: int, b2: int, b3: int := bs[1], bs[2], bs[3];
      var n := (b - 0xF0) * 0x40000 + (b1 - 0x80) * 0x1000 + (b2 - 0x80) * 0x40 + (b3 - 0x80);
      if n >= 0x10000 && IsScalar(n) then Some((n as char, 4)) else None
    else None
  }

  lemma Digits2(n: int, q: int, r: int)
    requires 0 <= r < 0x40
    ensures (q * 0x40 + r) / 0x40 == q && (q * 0x40 + r) % 0x40 == r
    ensures n == n / 0x40 * 0x40 + n % 0x40
  {
  }

  /** Splitting into base-64 digits and putting them together are inverse. */
  lemma Digits3(n: int, p: int, q: int, r: int)
    requires 0 <= q < 0x40 && 0 <= r < 0x40
    ensures (p * 0x1000 + q * 0x40 + r) / 0x1000 == p
    ensures (p * 0x1000 + q * 0x40 + r) / 0x40 % 0x40 == q
    ensures (p * 0x1000 + q * 0x40 + r) % 0x40 == r
    ensures n == n / 0x1000 * 0x1000 + n / 0x40 % 0x40 * 0x40 + n % 0x40
  {
    var u := p * 0x40 + q;
    Digits2(n, u, r);
    Digits2(n / 0x40, p, q);
    TwoShifts(u * 0x40 + r);
    TwoShifts(n);
  }

  lemma TwoShifts(n: int)
    ensures n / 0x40 / 0x40 == n / 0x1000
  {
  }

  lemma Digits4(n: int, o: int, p: int, q: int, r: int)
    requires 0 <= p < 0x40 && 0 <= q < 0x40 && 0 <= r < 0x40
    ensures (o * 0x40000 + p * 0x1000 + q * 0x40 + r) / 0x40000 == o
    ensures (o * 0x40000 + p * 0x1000 + q * 0x40 + r) / 0x1000 % 0x40 == p
    ensures (o * 0x40000 + p * 0x1000 + q * 0x40 + r) / 0x40 % 0x40 == q
    ensures (o * 0x40000 + p * 0x1000 + q * 0x40 + r) % 0x40 == r
    ensures n == n / 0x40000 * 0x40000 + n / 0x1000 % 0x40 * 0x1000 + n / 0x40 % 0x40 * 0x40 + n % 0x40
  {
    var m := (o * 0x40 + p) * 0x1000 + q * 0x40 + r;
    Digits3(n, o * 0x40 + p, q, r);
    Digits2(n / 0x1000, o, p);
    ThreeShifts(m);
    ThreeShifts(n);
  }

  lemma ThreeShifts(n: int)
    ensures n / 0x1000 / 0x40 == n / 0x40000
  {
  }

  lemma DecodeEncodedChar(c: char, rest: seq<Byte>)
    ensures DecodeChar(EncodeChar(c) + rest) == Some((c, |EncodeChar(c)|))
  {
    var n := c as int;
    var head := EncodeChar(c);
    var bs := head + rest;
    assert forall i :: 0 <= i < |head| ==> bs[i] == head[i];
    if 0x800 <= n < 0x10000 {
      Digits3(n, 0, 0, 0);
    } else if n >= 0x10000 {
      Digits4(n, 0, 0, 0, 0);
    }
  }

  lemma EncodeDecodedChar2(bs: seq<Byte>)
    requires bs != [] && DecodeChar(bs).Some? && DecodeChar(bs).value.1 == 2
    ensures EncodeChar(DecodeChar(bs).value.0) == bs[..2]
  {
    var q: int, r: int := bs[0] - 0xC0, bs[1] - 0x80;
    Digits2(0, q, r);
    assert DecodeChar(bs).value.0 as int == q * 0x40 + r;
  }

  lemma EncodeDecodedChar3(bs: seq<Byte>)
    requires bs != [] && DecodeChar(bs).Some? && DecodeChar(bs).value.1 == 3
    ensures EncodeChar(DecodeChar(bs).value.0) == bs[..3]
  {
    var p: int, q: int, r: int := bs[0] - 0xE0, bs[1] - 0x80, bs[2] - 0x80;
    Digits3(0, p, q, r);
    var n := DecodeChar(bs).value.0 as int;
    assert n == p * 0x1000 + q * 0x40 + r && 0x800 <= n < 0x10000;
    assert EncodeChar(DecodeChar(bs).value.0) == [0xE0 + p, 0x80 + q, 0x80 + r];
  }

  lemma EncodeDecodedChar4(bs: seq<Byte>)
    requires bs != [] && DecodeChar(bs).Some? && DecodeChar(bs).value.1 == 4
    ensures EncodeChar(DecodeChar(bs).value.0) == bs[..4]
  {
    var o: int, p: int, q: int, r: int := bs[0] - 0xF0, bs[1] - 0x80, bs[2] - 0x80, bs[3] - 0x80;
    Digits4(0, o, p, q, r);
    var n := DecodeChar(bs).value.0 as int;
    assert n == o * 0x40000 + p * 0x1000 + q * 0x40 + r && n >= 0x10000;
    assert EncodeChar(DecodeChar(bs).value.0) == [0xF0 + o, 0x80 + p, 0x80 + q, 0x80 + r];
  }

  lemma EncodeDecodedChar(bs: seq<Byte>)
    requires bs != [] && DecodeChar(bs).Some?
    ensures EncodeChar(DecodeChar(bs).value.0) == bs[..DecodeChar(bs).value.1]
  {
    var w := DecodeChar(bs).value.1;
    if w == 2 {
      EncodeDecodedChar2(bs);
    } else if w == 3 {
      EncodeDecodedChar3(bs);
    } else if w == 4 {
      EncodeDecodedChar4(bs);
    }
  }

  function Decode(bs: seq<Byte>): (r: Option<string>)
    decreases |bs|
  {
    if bs == [] then Some([])
    else match DecodeChar(bs)
      case None => None
      case Some((c, w)) =>
        match Decode(bs[w..])
        case None => None
        case Some(tail) => Some([c] + tail)
  }

  /** Decoding what was encoded gives the text back. */
  lemma {:induction false} DecodeEncode(s: string)
    ensures Decode(Encode(s)) == Some(s)
  {
    hide DecodeChar, EncodeChar;
    if s != [] {
      var head := EncodeChar(s[0]);
      DecodeEncodedChar(s[0], Encode(s[1..]));
      assert Encode(s)[|head|..] == Encode(s[1..]);
      DecodeEncode(s[1..]);
      assert s == [s[0]] + s[1..];
    }
  }

  /** A byte string that decodes is exactly the encoding of the text it decodes to. */
  lemma {:induction false} EncodeDecode(bs: seq<Byte>)
    requires Decode(bs).Some?
    ensures Encode(Decode(bs).value) == bs
    decreases |bs|
  {
    hide DecodeChar, EncodeChar;
    if bs != [] {
      var (c, w) := DecodeChar(bs).value;
      EncodeDecodedChar(bs);
      EncodeDecode(bs[w..]);
      assert Decode(bs).value[1..] == Decode(bs[w..]).value;
      assert bs == bs[..w] + bs[w..];
    }
  }

  lemma EncodeInjective(s: string, t: string)
    requires Encode(s) == Encode(t)
    ensures s == t
  {
    DecodeEncode(s);
    DecodeEncode(t);
  }

  lemma {:induction false} EncodeAppend(s: string, t: string)
    ensures Encode(s + t) == Encode(s) + Encode(t)
  {
    hide EncodeChar;
    if s == [] {
      assert s + t == t;
    } else {
      assert (s + t)[0] == s[0] && (s + t)[1..] == s[1..] + t;
      EncodeAppend(s[1..], t);
    }
  }

  /** ASCII text is its own encoding. */
  lemma {:induction false} EncodeAscii(s: string)
    requires forall i :: 0 <= i < |s| ==> s[i] as int < 0x80
    ensures |Encode(s)| == |s| && forall i :: 0 <= i < |s| ==> Encode(s)[i] == s[i] as int
  {
    if s != [] {
      EncodeAscii(s[1..]);
    }
  }
}
