/**
 The codec as the source runs it: an encoder that pushes into a buffer and a decoder
 whose `offset` and `depth` fields advance. Both are proved against `Cbor`.
 */
module CborCodec {
  import opened Wrappers
  import opened Bytes
  import opened Cbor
  import Utf8

  // ---------------------------------------------------------------- encoder

  method EncodeLength(major: nat, length: nat, out: Buffer)
    requires major < 8
    modifies out
    ensures out.data == old(out.data) + Head(major, length)
  {
    var head := major * 32;
    if length < 24 {
      out.Push(head + length);
    } else if length <= 0xff {
      out.Push(head + 24);
      out.Push(length);
    } else if length <= 0xffff {
      out.Push(head + 25);
      out.Push(length / 256 % 256);
      out.Push(length % 256);
      assert BigEndian(length, 2) == [length / 256 % 256, length % 256] by {
        assert BigEndian(length / 256, 1) == BigEndian(length / 256 / 256, 0) + [length / 256 % 256];
      }
    } else if length <= 0xffff_ffff {
      out.Push(head + 26);
      out.Extend(BigEndian(length, 4));
    } else {
      out.Push(head + 27);
      out.Extend(BigEndian(length, 8));
    }
  }

  method EncodeInto(value: Value, out: Buffer)
    modifies out
    ensures out.data == old(out.data) + Encode(value)
    decreases value
  {
    hide Head, EncodeItems, EncodeEntries, Utf8.Encode;
    match value
    case Null => out.Push(0xf6);
    case Bool(b) => out.Push(if b then 0xf5 else 0xf4);
    case Integer(n) =>
      if n >= 0 {
        EncodeLength(0, n, out);
      } else {
        EncodeLength(1, -1 - n, out);
      }
    case Bytes(bytes) =>
      EncodeLength(2, |bytes|, out);
      out.Extend(bytes);
    case Text(text) =>
      EncodeLength(3, |Utf8.Encode(text)|, out);
      out.Extend(Utf8.Encode(text));
    case Array(items) =>
      EncodeLength(4, |items|, out);
      EncodeElements(items, out);
    case Map(entries) =>
      EncodeLength(5, |entries|, out);
      EncodePairs(entries, out);
  }

  /** The array loop of `encode`. */
  method EncodeElements(items: seq<Value>, out: Buffer)
    modifies out
    ensures out.data == old(out.data) + EncodeItems(items)
    decreases items
  {
    hide Encode;
    assert items[0..] == items;
    for i := 0 to |items|
      invariant out.data + EncodeItems(items[i..]) == old(out.data) + EncodeItems(items)
    {
      ghost var before := out.data;
      EncodeInto(items[i], out);
      assert items[i..][1..] == items[i + 1..];
      ConcatAssociative(before, Encode(items[i]), EncodeItems(items[i + 1..]));
    }
  }

  /** The map loop of `encode`. */
  method EncodePairs(entries: seq<Entry>, out: Buffer)
    modifies out
    ensures out.data == old(out.data) + EncodeEntries(entries)
    decreases entries
  {
    hide Encode;
    assert entries[0..] == entries;
    for i := 0 to |entries|
      invariant out.data + EncodeEntries(entries[i..]) == old(out.data) + EncodeEntries(entries)
    {
      ghost var before := out.data;
      EncodeText(entries[i].key, out);
      ghost var between := out.data;
      EncodeInto(entries[i].value, out);
      assert entries[i..][1..] == entries[i + 1..];
      EntryStep(before, between, out.data, entries[i..]);
    }
  }

  lemma EntryStep(before: seq<Byte>, between: seq<Byte>, after: seq<Byte>, es: seq<Entry>)
    requires es != []
    requires between == before + Cbor.EncodeText(es[0].key) && after == between + Encode(es[0].value)
    ensures after + EncodeEntries(es[1..]) == before + EncodeEntries(es)
  {
    var k, v, tail := Cbor.EncodeText(es[0].key), Encode(es[0].value), EncodeEntries(es[1..]);
    ConcatAssociative(before, k, v);
    ConcatAssociative(before, k + v, tail);
  }

  /** The text value that a map key is encoded as. */
  method EncodeText(text: string, out: Buffer)
    modifies out
    ensures out.data == old(out.data) + Cbor.EncodeText(text)
  {
    EncodeLength(3, |Utf8.Encode(text)|, out);
    out.Extend(Utf8.Encode(text));
  }

  // ---------------------------------------------------------------- decoder

  /** A method outcome and the bytes it left agree with what the reader returns. */
  ghost predicate Agrees<T>(spec: Result<(T, seq<Byte>), Error>, r: Result<T, Error>, rest: seq<Byte>) {
    match r
    case Ok(v) => spec == Ok((v, rest))
    case Err(e) => spec == Err(e)
  }

  /** What remains of a loop that has already produced `done`. */
  function Prepend<T>(done: seq<T>, r: Result<(seq<T>, seq<Byte>), Error>): Result<(seq<T>, seq<Byte>), Error> {
    match r
    case Ok((vs, rest)) => Ok((done + vs, rest))
    case Err(e) => Err(e)
  }

  class Decoder {
    const bytes: seq<Byte>
    var offset: nat
    var depth: nat

    constructor (bytes: seq<Byte>)
      ensures this.bytes == bytes && offset == 0 && depth == 0
    {
      this.bytes := bytes;
      offset := 0;
      depth := 0;
    }

    ghost predicate Valid()
      reads this
    {
      offset <= |bytes|
    }

    ghost function Rest(): seq<Byte>
      requires Valid()
      reads this
    {
      bytes[offset..]
    }

    method ReadByte() returns (r: Result<Byte, Error>)
      requires Valid()
      modifies this`offset
      ensures Valid() && offset >= old(offset) && (r.Ok? ==> offset > old(offset))
      ensures Agrees(Cbor.ReadByte(old(Rest())), r, Rest())
    {
      if offset >= |bytes| {
        return Err(Truncated);
      }
      r := Ok(bytes[offset]);
      offset := offset + 1;
      assert Rest() == old(Rest())[1..];
    }

    method ReadBytes(length: nat) returns (r: Result<seq<Byte>, Error>)
      requires Valid()
      modifies this`offset
      ensures Valid() && offset >= old(offset)
      ensures Agrees(Cbor.ReadBytes(old(Rest()), length), r, Rest())
    {
      var end := offset + length;
      if end > |bytes| {
        return Err(Truncated);
      }
      r := Ok(bytes[offset..end]);
      assert old(Rest())[..length] == bytes[offset..end] && old(Rest())[length..] == bytes[end..];
      offset := end;
    }

    method ReadBigEndian(width: nat) returns (r: Result<nat, Error>)
      requires Valid()
      modifies this`offset
      ensures Valid() && offset >= old(offset)
      ensures Agrees(Cbor.ReadBigEndian(old(Rest()), width), r, Rest())
    {
      var slice := ReadBytes(width);
      if slice.Err? {
        return Err(slice.error);
      }
      var value: nat := 0;
      for i := 0 to |slice.value|
        invariant value == FromBigEndian(slice.value[..i])
      {
        value := 256 * value + slice.value[i];
        assert slice.value[..i + 1][..i] == slice.value[..i];
      }
      assert slice.value[..|slice.value|] == slice.value;
      r := Ok(value);
    }

    method ReadArgument(ai: nat) returns (r: Result<nat, Error>)
      requires Valid()
      modifies this`offset
      ensures Valid() && offset >= old(offset)
      ensures Agrees(Cbor.ReadArgument(old(Rest()), ai), r, Rest())
    {
      if ai < 24 {
        return Ok(ai);
      }
      if ai > 27 {
        return Err(if ai < 31 then Reserved else Indefinite);
      }
      var value := ReadBigEndian(if ai == 24 then 1 else if ai == 25 then 2 else if ai == 26 then 4 else 8);
      if value.Err? {
        return value;
      }
      if value.value < MinimalArgument(ai) {
        return Err(NotShortest);
      }
      if value.value >= TWO_64 {
        return Err(IntegerOutOfRange);
      }
      r := value;
    }

    method CollectionLen(ai: nat) returns (r: Result<nat, Error>)
      requires Valid()
      modifies this`offset
      ensures Valid() && offset >= old(offset)
      ensures Agrees(Cbor.ReadCount(old(Rest()), ai), r, Rest())
    {
      var length := ReadArgument(ai);
      if length.Err? {
        return length;
      }
      if length.value > MAX_ITEMS {
        return Err(TooManyItems);
      }
      if length.value > |bytes| - offset {
        return Err(TruncatedCollection);
      }
      r := length;
    }

    /** `Decoder::read`. A success restores `depth`; a failure ends the whole decoding. */
    method Read() returns (r: Result<Value, Error>)
      requires Valid()
      modifies this
      ensures Valid() && offset >= old(offset)
      ensures r.Ok? ==> offset > old(offset) && depth == old(depth)
      ensures Agrees(ReadValue(old(Rest()), old(depth)), r, Rest())
      decreases |bytes| - offset, 0
    {
      hide Cbor.ReadByte, Cbor.ReadArgument, ReadCount, Cbor.ReadBytes, ReadItems, ReadEntries, Utf8.Decode;
      if depth > MAX_DEPTH {
        return Err(TooDeep);
      }
      var initial := ReadByte();
      if initial.Err? {
        return Err(initial.error);
      }
      var major, ai := initial.value / 32, initial.value % 32;
      if major <= 1 {
        var n := ReadArgument(ai);
        if n.Err? {
          return Err(n.error);
        }
        var argument: int := n.value;
        return Ok(Integer(if major == 0 then argument else -1 - argument));
      } else if major <= 3 {
        var n := ReadArgument(ai);
        if n.Err? {
          return Err(n.error);
        }
        var slice := ReadBytes(n.value);
        if slice.Err? {
          return Err(slice.error);
        }
        if major == 2 {
          return Ok(Bytes(slice.value));
        }
        match Utf8.Decode(slice.value)
        case None => return Err(NotUtf8);
        case Some(text) => return Ok(Text(text));
      } else if major == 4 {
        var n := CollectionLen(ai);
        if n.Err? {
          return Err(n.error);
        }
        var items := ReadArray(n.value);
        match items
        case Err(e) => return Err(e);
        case Ok(vs) => return Ok(Array(vs));
      } else if major == 5 {
        var n := CollectionLen(ai);
        if n.Err? {
          return Err(n.error);
        }
        var entries := ReadMap(n.value);
        match entries
        case Err(e) => return Err(e);
        case Ok(es) => return Ok(Map(es));
      } else if major == 7 {
        if ai == 20 {
          return Ok(Bool(false));
        } else if ai == 21 {
          return Ok(Bool(true));
        } else if ai == 22 {
          return Ok(Null);
        }
        return Err(if ai == 31 then Indefinite else UnsupportedSimple);
      }
      return Err(UnsupportedTag);
    }

    /** The array branch of `read`: `length` items one level deeper. */
    method ReadArray(length: nat) returns (r: Result<seq<Value>, Error>)
      requires Valid()
      modifies this
      ensures Valid() && offset >= old(offset)
      ensures r.Ok? ==> depth == old(depth)
      ensures Agrees(ReadItems(old(Rest()), old(depth) + 1, length), r, Rest())
      decreases |bytes| - offset, 1
    {
      hide ReadValue;
      depth := depth + 1;
      var items := [];
      PrependNothing(ReadItems(Rest(), depth, length));
      for i := 0 to length
        invariant Valid() && offset >= old(offset) && depth == old(depth) + 1
        invariant ReadItems(old(Rest()), depth, length) == Prepend(items, ReadItems(Rest(), depth, length - i))
      {
        ghost var before, sofar := Rest(), items;
        var item := Read();
        if item.Err? {
          return Err(item.error);
        }
        items := items + [item.value];
        PrependStep(sofar, item.value, ReadItems(Rest(), depth, length - i - 1));
      }
      assert items + [] == items;
      depth := depth - 1;
      r := Ok(items);
    }

    /** The map branch of `read`: text keys that strictly increase, each with a value. */
    method ReadMap(length: nat) returns (r: Result<seq<Entry>, Error>)
      requires Valid()
      modifies this
      ensures Valid() && offset >= old(offset)
      ensures r.Ok? ==> depth == old(depth)
      ensures Agrees(ReadEntries(old(Rest()), old(depth) + 1, length, None), r, Rest())
      decreases |bytes| - offset, 1
    {
      hide ReadValue, Follows;
      depth := depth + 1;
      var entries := [];
      var previous: Option<string> := None;
      PrependNothing(ReadEntries(Rest(), depth, length, None));
      for i := 0 to length
        invariant Valid() && offset >= old(offset) && depth == old(depth) + 1
        invariant ReadEntries(old(Rest()), depth, length, None)
               == Prepend(entries, ReadEntries(Rest(), depth, length - i, previous))
      {
        ghost var sofar := entries;
        var key := Read();
        if key.Err? {
          return Err(key.error);
        }
        if !key.value.Text? {
          return Err(KeyNotText);
        }
        if !Follows(previous, key.value.text) {
          return Err(KeysNotIncreasing);
        }
        previous := Some(key.value.text);
        var value := Read();
        if value.Err? {
          return Err(value.error);
        }
        entries := entries + [Entry(key.value.text, value.value)];
        PrependStep(sofar, Entry(key.value.text, value.value), ReadEntries(Rest(), depth, length - i - 1, previous));
      }
      assert entries + [] == entries;
      depth := depth - 1;
      r := Ok(entries);
    }
  }

  lemma PrependNothing<T>(r: Result<(seq<T>, seq<Byte>), Error>)
    ensures Prepend([], r) == r
  {
    if r.Ok? {
      assert [] + r.value.0 == r.value.0;
    }
  }

  lemma PrependStep<T>(done: seq<T>, x: T, r: Result<(seq<T>, seq<Byte>), Error>)
    ensures Prepend(done + [x], r) == Prepend(done, Prepend([x], r))
  {
    if r.Ok? {
      ConcatAssociative(done, [x], r.value.0);
    }
  }

  method EncodeCanonical(value: Value) returns (bytes: seq<Byte>)
    ensures bytes == Encode(value)
    ensures forall w | Encodable(value) && Encodable(w) && Encode(w) == bytes :: w == value
  {
    var out := new Buffer();
    EncodeInto(value, out);
    bytes := out.data;
    forall w | Encodable(value) && Encodable(w) && Encode(w) == bytes
      ensures w == value
    {
      EncodeInjective(w, value);
    }
  }

  method DecodeCanonical(bytes: seq<Byte>) returns (r: Result<Value, Error>)
    ensures r == Decode(bytes)
    ensures r.Ok? ==> Canonical(r.value, 0) && Encode(r.value) == bytes
  {
    if bytes == [] {
      return Err(EmptyInput);
    }
    if |bytes| > MAX_DOCUMENT_BYTES {
      return Err(DocumentTooLarge);
    }
    var decoder := new Decoder(bytes);
    assert decoder.Rest() == bytes;
    var value := decoder.Read();
    if value.Err? {
      return value;
    }
    if decoder.offset != |bytes| {
      return Err(TrailingBytes);
    }
    var out := new Buffer();
    EncodeInto(value.value, out);
    if out.data != bytes {
      return Err(NotCanonical);
    }
    DecodeExactlyEncoding(bytes, value.value);
    r := value;
  }
}
