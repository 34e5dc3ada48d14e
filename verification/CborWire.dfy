/** The bytes of canonical CBOR, as RFC 8949 writes them. */
module CborWire {
  /*
   The bytes of canonical CBOR as RFC 8949 writes them: initial bytes by major type (section 3.1),
   arguments in the shortest of five forms (section 4.2.1), and the simple values (section 3.3).
   Nothing here speaks of the functions the encoder and the decoder share.
   */
  import opened Wrappers
  import opened Bytes
  import opened Cbor
  import Utf8

  /** The bytes of an argument below 2^32 after the initial byte of its major type. */
  function Argument(initial: nat, n: nat): seq<int>
    requires n < 0x1_0000_0000
  {
    if n < 24 then [initial + n]
    else if n < 0x100 then [initial + 24, n]
    else if n < 0x1_0000 then [initial + 25, n / 0x100, n % 0x100]
    else [initial + 26, n / 0x100_0000, n / 0x1_0000 % 0x100, n / 0x100 % 0x100, n % 0x100]
  }

  lemma LastByte(n: nat, w: nat)
    ensures BigEndian(n, w + 1) == BigEndian(n / 0x100, w) + [n % 0x100]
  {
  }

  lemma TwoBytes(n: nat)
    requires n < 0x1_0000
    ensures BigEndian(n, 2) == [n / 0x100, n % 0x100]
  {
    hide BigEndian;
    LastByte(n, 1);
    LastByte(n / 0x100, 0);
    assert BigEndian(0, 0) == [];
  }

  lemma FourBytes(n: nat)
    requires n < 0x1_0000_0000
    ensures BigEndian(n, 4) == [n / 0x100_0000, n / 0x1_0000 % 0x100, n / 0x100 % 0x100, n % 0x100]
  {
    hide BigEndian;
    LastByte(n, 3);
    LastByte(n / 0x100, 2);
    TwoBytes(n / 0x100 / 0x100);
    assert n / 0x100 / 0x100 == n / 0x1_0000;
  }

  lemma HeadMeaning(major: nat, n: nat)
    requires major < 8 && n < 0x1_0000_0000
    ensures Head(major, n) == Argument(0x20 * major, n)
  {
    hide BigEndian;
    if 0xff < n <= 0xffff {
      TwoBytes(n);
    } else if 0xffff < n {
      FourBytes(n);
    }
  }

  /** The bytes of every value, kind by kind. */
  lemma ValueBytes(v: Value)
    requires Cbor.Argument(v) < 0x1_0000_0000
    ensures match v
            case Null => Encode(v) == [0xf6]
            case Bool(b) => Encode(v) == [if b then 0xf5 else 0xf4]
            case Integer(n) => Encode(v) == if n >= 0 then Argument(0x00, n) else Argument(0x20, -1 - n)
            case Bytes(bytes) => Encode(v) == Argument(0x40, |bytes|) + bytes
            case Text(text) => Encode(v) == Argument(0x60, |Utf8.Encode(text)|) + Utf8.Encode(text)
            case Array(items) => Encode(v) == Argument(0x80, |items|) + EncodeItems(items)
            case Map(entries) => Encode(v) == Argument(0xa0, |entries|) + EncodeEntries(entries)
  {
    hide Head, EncodeItems, EncodeEntries, Utf8.Encode;
    HeadMeaning(Major(v), Cbor.Argument(v));
  }

  /** Documents are read up to 32 MiB, exactly when they are the encoding of a canonical value. */
  lemma DocumentMeaning(bytes: seq<Byte>)
    ensures Decode(bytes).Ok? <==> |bytes| <= 33_554_432 && exists v :: Canonical(v, 0) && bytes == Encode(v)
    ensures |bytes| > 33_554_432 ==> Decode(bytes) == Err(DocumentTooLarge)
    ensures bytes == [] ==> Decode(bytes) == Err(EmptyInput)
  {
    hide Encode, Canonical, ReadValue;
    if Decode(bytes).Ok? {
      DecodeExactlyEncoding(bytes, Decode(bytes).value);
    }
    if |bytes| <= 33_554_432 {
      forall v | Canonical(v, 0) && bytes == Encode(v)
        ensures Decode(bytes).Ok?
      {
        DecodeExactlyEncoding(bytes, v);
      }
    }
  }
}
