/** The byte format of GGUF metadata values. */
module GgufFormat {
  /*
   The byte format of GGUF values, metadata and tensor descriptors: writers, readers, and
   the three facts the file-level theorems rest on. A reader returns a value exactly where
   the writer's bytes for it stand, and more bytes at the end of the input change no
   outcome except `Truncated`. Arrays are nested up to the limit of the source, and the count of
   an array is checked against the bytes that are left.
   */
  import opened Wrappers
  import opened Bytes
  import opened GgufTypes
  import Utf8

  // ---------------------------------------------------------------- writers

  function WriteString(text: string): (bs: seq<Byte>)
    ensures |bs| >= 8
  {
    LittleEndian(|Utf8.Encode(text)|, 8) + Utf8.Encode(text)
  }

  /** Byte width of the types that are stored as one little-endian integer. */
  function Width(t: ValueType): nat
    requires t != TString && t != TArray
  {
    MinBytes(t)
  }

  function ToBits(v: Value): nat
    requires !v.String? && !v.Array?
  {
    match v
    case Uint8(n) => n
    case Int8(n) => if n < 0 then n + 0x100 else n
    case Uint16(n) => n
    case Int16(n) => if n < 0 then n + 0x1_0000 else n
    case Uint32(n) => n
    case Int32(n) => if n < 0 then n + 0x1_0000_0000 else n
    case Float32(n) => n
    case Bool(b) => if b then 1 else 0
    case Uint64(n) => n
    case Int64(n) => if n < 0 then n + 0x1_0000_0000_0000_0000 else n
    case Float64(n) => n
  }

  function FromBits(t: ValueType, n: nat): Result<Value, Error>
    requires t != TString && t != TArray && n < Pow256(Width(t))
  {
    Pow256Values();
    match t
    case TUint8 => Ok(Uint8(n))
    case TInt8 => Ok(Int8(if n >= 0x80 then n - 0x100 else n))
    case TUint16 => Ok(Uint16(n))
    case TInt16 => Ok(Int16(if n >= 0x8000 then n - 0x1_0000 else n))
    case TUint32 => Ok(Uint32(n))
    case TInt32 => Ok(Int32(if n >= 0x8000_0000 then n - 0x1_0000_0000 else n))
    case TFloat32 => Ok(Float32(n))
    case TBool => if n == 0 then Ok(Bool(false)) else if n == 1 then Ok(Bool(true)) else Err(BadBoolean)
    case TUint64 => Ok(Uint64(n))
    case TInt64 => Ok(Int64(if n >= 0x8000_0000_0000_0000 then n - 0x1_0000_0000_0000_0000 else n))
    case TFloat64 => Ok(Float64(n))
  }

  /** The two's-complement bits of a scalar and the scalar itself determine each other. */
  lemma BitsInverse(t: ValueType, n: nat, v: Value)
    requires t != TString && t != TArray && n < Pow256(Width(t))
    ensures FromBits(t, n) == Ok(v) <==> TypeOf(v) == t && !v.String? && !v.Array? && ToBits(v) == n
    ensures FromBits(t, n).Err? ==> FromBits(t, n) == Err(BadBoolean)
  {
    Pow256Values();
  }

  lemma ToBitsFits(v: Value)
    requires !v.String? && !v.Array?
    ensures ToBits(v) < Pow256(Width(TypeOf(v)))
  {
    Pow256Values();
  }

  function WriteValue(v: Value): (bs: seq<Byte>)
    ensures |bs| >= MinBytes(TypeOf(v)) >= 1
    decreases v, 0
  {
    match v
    case String(text) => WriteString(text)
    case Array(element, items) =>
      LittleEndian(ValueTypeCode(element), 4) + (LittleEndian(|items|, 8) + WriteItems(items))
    case _ => LittleEndian(ToBits(v), Width(TypeOf(v)))
  }

  function WriteItems(items: seq<Value>): (bs: seq<Byte>)
    decreases items, 1
  {
    if items == [] then [] else WriteValue(items[0]) + WriteItems(items[1..])
  }

  function WriteMetadata(items: seq<Metadata>): (bs: seq<Byte>)
    ensures |bs| >= |items|
  {
    if items == [] then []
    else
      WriteString(items[0].key)
      + (LittleEndian(ValueTypeCode(TypeOf(items[0].value)), 4)
         + (WriteValue(items[0].value) + WriteMetadata(items[1..])))
  }

  // ---------------------------------------------------------------- readers

  type Read<T> = Result<(T, seq<Byte>), Error>

  function Take(s: seq<Byte>, n: nat): (r: Read<seq<Byte>>)
    ensures r.Ok? ==> |r.value.1| == |s| - n
  {
    if n > |s| then Err(Truncated) else Ok((s[..n], s[n..]))
  }

  function ReadUint(s: seq<Byte>, width: nat): (r: Read<nat>)
    ensures r.Ok? ==> |r.value.1| == |s| - width && r.value.0 < Pow256(width)
  {
    var (bs, rest) :- Take(s, width);
    Ok((FromLittleEndian(bs), rest))
  }

  function ReadString(s: seq<Byte>, limit: nat): (r: Read<string>)
    ensures r.Ok? ==> |r.value.1| < |s|
  {
    var (n, s1) :- ReadUint(s, 8);
    if n > limit then Err(StringTooLong)
    else
      var (bs, rest) :- Take(s1, n);
      match Utf8.Decode(bs)
      case None => Err(StringNotUtf8)
      case Some(text) => if 0 in bs then Err(StringHasNul) else Ok((text, rest))
  }

  function ReadScalar(s: seq<Byte>, t: ValueType): (r: Read<Value>)
    requires t != TString && t != TArray
    ensures r.Ok? ==> |r.value.1| < |s|
  {
    var (n, rest) :- ReadUint(s, Width(t));
    var v :- FromBits(t, n);
    Ok((v, rest))
  }

  function ReadValue(s: seq<Byte>, t: ValueType, depth: nat): (r: Read<Value>)
    ensures r.Ok? ==> |r.value.1| < |s|
    decreases |s|, 1
  {
    if t == TString then
      var (text, rest) :- ReadString(s, MAX_STRING);
      Ok((String(text), rest))
    else if t == TArray then ReadArray(s, depth)
    else ReadScalar(s, t)
  }

  /** The element type and length that open an array, once the limits allow them. */
  function ReadArrayHead(s: seq<Byte>, depth: nat): (r: Read<(ValueType, nat)>)
    ensures r.Ok? ==> |r.value.1| == |s| - 12
  {
    if depth >= MAX_ARRAY_DEPTH then Err(ArrayTooDeep)
    else
      var (code, s1) :- ReadUint(s, 4);
      var element :- ValueTypeOf(code);
      var (count, s2) :- ReadUint(s1, 8);
      if count > MAX_ARRAY then Err(ArrayTooLong)
      else if count > |s2| / MinBytes(element) then Err(Truncated)
      else Ok(((element, count), s2))
  }

  function ReadArray(s: seq<Byte>, depth: nat): (r: Read<Value>)
    ensures r.Ok? ==> |r.value.1| < |s|
    decreases |s|, 0
  {
    var ((element, count), s2) :- ReadArrayHead(s, depth);
    var (items, rest) :- ReadItems(s2, element, depth + 1, count);
    Ok((Array(element, items), rest))
  }

  function ReadItems(s: seq<Byte>, element: ValueType, depth: nat, count: nat): (r: Read<seq<Value>>)
    ensures r.Ok? ==> |r.value.1| <= |s|
    decreases |s|, 2
  {
    if count == 0 then Ok(([], s))
    else
      var (v, s1) :- ReadValue(s, element, depth);
      var (vs, rest) :- ReadItems(s1, element, depth, count - 1);
      Ok(([v] + vs, rest))
  }

  function ReadPair(s: seq<Byte>, seen: set<string>): (r: Read<Metadata>)
    ensures r.Ok? ==> |r.value.1| < |s|
  {
    var (key, s1) :- ReadString(s, MAX_KEY_BYTES);
    if !ValidKey(key) then Err(BadKey)
    else if key in seen then Err(DuplicateKey)
    else
      var (code, s2) :- ReadUint(s1, 4);
      var t :- ValueTypeOf(code);
      var (value, rest) :- ReadValue(s2, t, 0);
      Ok((Metadata(key, value), rest))
  }

  function ReadMetadata(s: seq<Byte>, count: nat, seen: set<string>): (r: Read<seq<Metadata>>)
    ensures r.Ok? ==> |r.value.1| <= |s|
    decreases |s|
  {
    if count == 0 then Ok(([], s))
    else
      var (item, s1) :- ReadPair(s, seen);
      var (items, rest) :- ReadMetadata(s1, count - 1, seen + {item.key});
      Ok(([item] + items, rest))
  }

  // ---------------------------------------------------------------- integers and strings

  lemma UintExact(s: seq<Byte>, width: nat, n: nat, rest: seq<Byte>)
    ensures ReadUint(s, width) == Ok((n, rest)) <==> n < Pow256(width) && s == LittleEndian(n, width) + rest
  {
    if ReadUint(s, width) == Ok((n, rest)) {
      FromLittleEndianInverse(s[..width]);
    }
    if n < Pow256(width) && s == LittleEndian(n, width) + rest {
      LittleEndianInverse(n, width);
      SplitConcat(LittleEndian(n, width), rest);
    }
  }

  predicate FitsString(text: string, limit: nat) {
    |Utf8.Encode(text)| <= limit && !HasNul(text)
  }

  lemma StringExact(s: seq<Byte>, limit: nat, text: string, rest: seq<Byte>)
    requires limit < TWO_64
    ensures ReadString(s, limit) == Ok((text, rest)) <==> FitsString(text, limit) && s == WriteString(text) + rest
  {
    hide Utf8.Encode, Utf8.Decode;
    Pow256Values();
    var body := Utf8.Encode(text);
    if ReadString(s, limit) == Ok((text, rest)) {
      var (n, s1) := ReadUint(s, 8).value;
      UintExact(s, 8, n, s1);
      Utf8.EncodeDecode(s1[..n]);
      assert s1 == body + rest;
      ConcatAssociative(LittleEndian(n, 8), body, rest);
    }
    if FitsString(text, limit) && s == WriteString(text) + rest {
      ConcatAssociative(LittleEndian(|body|, 8), body, rest);
      UintExact(s, 8, |body|, body + rest);
      SplitConcat(body, rest);
      Utf8.DecodeEncode(text);
    }
  }

  // ---------------------------------------------------------------- values

  predicate Readable(v: Value, t: ValueType, depth: nat) {
    TypeOf(v) == t && ValidateValue(v, depth).Pass?
  }

  lemma ScalarExact(s: seq<Byte>, t: ValueType, v: Value, rest: seq<Byte>)
    requires t != TString && t != TArray
    ensures ReadScalar(s, t) == Ok((v, rest)) <==> TypeOf(v) == t && s == WriteValue(v) + rest
  {
    hide FromBits, ToBits;
    if ReadScalar(s, t) == Ok((v, rest)) {
      var n := ReadUint(s, Width(t)).value.0;
      UintExact(s, Width(t), n, rest);
      BitsInverse(t, n, v);
    }
    if TypeOf(v) == t && s == WriteValue(v) + rest {
      ToBitsFits(v);
      UintExact(s, Width(t), ToBits(v), rest);
      BitsInverse(t, ToBits(v), v);
    }
  }

  lemma {:induction false} WriteItemsLength(items: seq<Value>, element: ValueType)
    requires forall i :: 0 <= i < |items| ==> TypeOf(items[i]) == element
    ensures |WriteItems(items)| >= |items| * MinBytes(element)
  {
    if items != [] {
      WriteItemsLength(items[1..], element);
    }
  }

  lemma {:induction false} ValidItemsAreTyped(items: seq<Value>, element: ValueType, depth: nat)
    requires ValidateItems(items, element, depth).Pass?
    ensures forall i :: 0 <= i < |items| ==> TypeOf(items[i]) == element
  {
    if items != [] {
      ValidItemsAreTyped(items[1..], element, depth);
      assert forall i :: 0 < i < |items| ==> items[i] == items[1..][i - 1];
    }
  }

  lemma ArrayHeadExact(s: seq<Byte>, depth: nat, element: ValueType, count: nat, rest: seq<Byte>)
    ensures ReadArrayHead(s, depth) == Ok(((element, count), rest)) <==>
            && depth < MAX_ARRAY_DEPTH && count <= MAX_ARRAY && count <= |rest| / MinBytes(element)
            && s == LittleEndian(ValueTypeCode(element), 4) + (LittleEndian(count, 8) + rest)
  {
    hide Pow256, LittleEndian, FromLittleEndian;
    Pow256Values();
    var code := ValueTypeCode(element);
    if ReadArrayHead(s, depth) == Ok(((element, count), rest)) {
      var s1 := ReadUint(s, 4).value.1;
      UintExact(s, 4, code, s1);
      UintExact(s1, 8, count, rest);
    }
    if count <= MAX_ARRAY && s == LittleEndian(code, 4) + (LittleEndian(count, 8) + rest) {
      UintExact(s, 4, code, LittleEndian(count, 8) + rest);
      UintExact(LittleEndian(count, 8) + rest, 8, count, rest);
    }
  }

  /** Whatever the value reader accepts is valid and is written back to the same bytes. */
  lemma {:induction false} ReadThenWrite(s: seq<Byte>, t: ValueType, depth: nat)
    requires ReadValue(s, t, depth).Ok?
    ensures var (v, rest) := ReadValue(s, t, depth).value;
            Readable(v, t, depth) && s == WriteValue(v) + rest
    decreases |s|, 1
  {
    var (v, rest) := ReadValue(s, t, depth).value;
    if t == TString {
      StringExact(s, MAX_STRING, v.text, rest);
    } else if t == TArray {
      ReadThenWriteArray(s, depth);
    } else {
      ScalarExact(s, t, v, rest);
    }
  }

  lemma {:induction false} ReadThenWriteArray(s: seq<Byte>, depth: nat)
    requires ReadArray(s, depth).Ok?
    ensures var (v, rest) := ReadArray(s, depth).value;
            Readable(v, TArray, depth) && s == WriteValue(v) + rest
    decreases |s|, 0
  {
    hide LittleEndian;
    var (v, rest) := ReadArray(s, depth).value;
    var ((element, count), s2) := ReadArrayHead(s, depth).value;
    ArrayHeadExact(s, depth, element, count, s2);
    ReadThenWriteItems(s2, element, depth + 1, count);
    var head, len := LittleEndian(ValueTypeCode(element), 4), LittleEndian(count, 8);
    ConcatAssociative(head, len + WriteItems(v.items), rest);
    ConcatAssociative(len, WriteItems(v.items), rest);
  }

  lemma {:induction false} ReadThenWriteItems(s: seq<Byte>, element: ValueType, depth: nat, count: nat)
    requires ReadItems(s, element, depth, count).Ok?
    ensures var (vs, rest) := ReadItems(s, element, depth, count).value;
            && |vs| == count && ValidateItems(vs, element, depth).Pass?
            && s == WriteItems(vs) + rest
    decreases |s|, 2
  {
    hide ReadValue, WriteValue, ValidateValue;
    if count > 0 {
      var (v, s1) := ReadValue(s, element, depth).value;
      var (vs, rest) := ReadItems(s1, element, depth, count - 1).value;
      ReadThenWrite(s, element, depth);
      ReadThenWriteItems(s1, element, depth, count - 1);
      assert ([v] + vs)[1..] == vs;
      ConcatAssociative(WriteValue(v), WriteItems(vs), rest);
    }
  }

  /** Every valid value is read back from the bytes it is written as. */
  lemma {:induction false} WriteThenRead(v: Value, depth: nat, rest: seq<Byte>)
    requires ValidateValue(v, depth).Pass?
    ensures ReadValue(WriteValue(v) + rest, TypeOf(v), depth) == Ok((v, rest))
    decreases v, 0
  {
    hide ReadString, ReadScalar, WriteString, ReadArray, WriteItems, LittleEndian, Utf8.Encode;
    match v
    case String(text) =>
      assert FitsString(text, MAX_STRING);
      StringExact(WriteValue(v) + rest, MAX_STRING, text, rest);
    case Array(element, items) =>
      WriteThenReadItems(items, element, depth + 1, rest);
      ArrayFromItems(element, items, depth, rest);
    case _ =>
      ScalarExact(WriteValue(v) + rest, TypeOf(v), v, rest);
  }

  lemma DivideBound(a: nat, b: nat, m: nat)
    requires m in {1, 2, 4, 8, 12} && b >= a * m
    ensures a <= b / m
  {
    if m == 1 {
    } else if m == 2 {
    } else if m == 4 {
    } else if m == 8 {
    } else {
    }
  }

  lemma DivideMonotone(a: nat, b: nat, m: nat)
    requires m in {1, 2, 4, 8, 12} && a <= b
    ensures a / m <= b / m
  {
    if m == 1 {
    } else if m == 2 {
    } else if m == 4 {
    } else if m == 8 {
    } else {
    }
  }

  lemma ArrayFromItems(element: ValueType, items: seq<Value>, depth: nat, rest: seq<Byte>)
    requires ValidateValue(Array(element, items), depth).Pass?
    requires ReadItems(WriteItems(items) + rest, element, depth + 1, |items|) == Ok((items, rest))
    ensures ReadArray(WriteValue(Array(element, items)) + rest, depth) == Ok((Array(element, items), rest))
  {
    hide LittleEndian, ReadItems, WriteItems, ReadArrayHead;
    var head, len, body := LittleEndian(ValueTypeCode(element), 4), LittleEndian(|items|, 8), WriteItems(items);
    ConcatAssociative(head, len + body, rest);
    ConcatAssociative(len, body, rest);
    ValidItemsAreTyped(items, element, depth + 1);
    WriteItemsLength(items, element);
    DivideBound(|items|, |body + rest|, MinBytes(element));
    ArrayHeadExact(head + (len + (body + rest)), depth, element, |items|, body + rest);
  }

  lemma {:induction false} WriteThenReadItems(items: seq<Value>, element: ValueType, depth: nat, rest: seq<Byte>)
    requires ValidateItems(items, element, depth).Pass?
    ensures ReadItems(WriteItems(items) + rest, element, depth, |items|) == Ok((items, rest))
    decreases items, 1
  {
    hide ReadValue, WriteValue, ValidateValue;
    if items == [] {
      assert WriteItems(items) + rest == rest;
    } else {
      var tail := WriteItems(items[1..]) + rest;
      ConcatAssociative(WriteValue(items[0]), WriteItems(items[1..]), rest);
      WriteThenRead(items[0], depth, tail);
      WriteThenReadItems(items[1..], element, depth, rest);
      assert items == [items[0]] + items[1..];
    }
  }

  // ---------------------------------------------------------------- metadata

  lemma PairExact(s: seq<Byte>, seen: set<string>, item: Metadata, rest: seq<Byte>)
    ensures ReadPair(s, seen) == Ok((item, rest)) <==>
            && ValidKey(item.key) && item.key !in seen && ValidateValue(item.value, 0).Pass?
            && s == WriteString(item.key)
                    + (LittleEndian(ValueTypeCode(TypeOf(item.value)), 4) + (WriteValue(item.value) + rest))
  {
    if ReadPair(s, seen) == Ok((item, rest)) {
      PairSound(s, seen);
    }
    if && ValidKey(item.key) && item.key !in seen && ValidateValue(item.value, 0).Pass?
       && s == WriteString(item.key)
               + (LittleEndian(ValueTypeCode(TypeOf(item.value)), 4) + (WriteValue(item.value) + rest)) {
      PairComplete(seen, item, rest);
    }
  }

  lemma PairSound(s: seq<Byte>, seen: set<string>)
    requires ReadPair(s, seen).Ok?
    ensures var (item, rest) := ReadPair(s, seen).value;
            && ValidKey(item.key) && item.key !in seen && ValidateValue(item.value, 0).Pass?
            && s == WriteString(item.key)
                    + (LittleEndian(ValueTypeCode(TypeOf(item.value)), 4) + (WriteValue(item.value) + rest))
  {
    hide ReadValue, WriteValue, WriteString, ReadString, ReadUint, ValidKey, ValidateValue, LittleEndian;
    var (item, rest) := ReadPair(s, seen).value;
    var s1 := ReadString(s, MAX_KEY_BYTES).value.1;
    var (code, s2) := ReadUint(s1, 4).value;
    StringExact(s, MAX_KEY_BYTES, item.key, s1);
    UintExact(s1, 4, code, s2);
    ReadThenWrite(s2, ValueTypeOf(code).value, 0);
  }

  lemma {:induction false} KeyCharsAreNotNul(key: string, nonempty: bool)
    requires KeySegments(key, nonempty).Some?
    ensures 0 !in Utf8.Encode(key)
  {
    if key != [] {
      KeyCharsAreNotNul(key[1..], key[0] != '.');
      assert 0 !in Utf8.EncodeChar(key[0]);
    }
  }

  lemma PairComplete(seen: set<string>, item: Metadata, rest: seq<Byte>)
    requires ValidKey(item.key) && item.key !in seen && ValidateValue(item.value, 0).Pass?
    ensures ReadPair(WriteString(item.key)
                     + (LittleEndian(ValueTypeCode(TypeOf(item.value)), 4) + (WriteValue(item.value) + rest)), seen)
         == Ok((item, rest))
  {
    hide ReadValue, WriteValue, WriteString, ReadString, ReadUint, ValidateValue, LittleEndian, KeySegments,
      Utf8.Encode;
    Pow256Values();
    var t := TypeOf(item.value);
    var s2 := WriteValue(item.value) + rest;
    var s1 := LittleEndian(ValueTypeCode(t), 4) + s2;
    KeyCharsAreNotNul(item.key, false);
    StringExact(WriteString(item.key) + s1, MAX_KEY_BYTES, item.key, s1);
    UintExact(s1, 4, ValueTypeCode(t), s2);
    WriteThenRead(item.value, 0, rest);
  }

  lemma WriteMetadataCons(items: seq<Metadata>, rest: seq<Byte>)
    requires items != []
    ensures WriteMetadata(items) + rest ==
            WriteString(items[0].key)
            + (LittleEndian(ValueTypeCode(TypeOf(items[0].value)), 4)
               + (WriteValue(items[0].value) + (WriteMetadata(items[1..]) + rest)))
  {
    hide WriteValue, WriteString, LittleEndian;
    var a, b, c, d := WriteString(items[0].key), LittleEndian(ValueTypeCode(TypeOf(items[0].value)), 4),
                      WriteValue(items[0].value), WriteMetadata(items[1..]);
    ConcatAssociative(a, b + (c + d), rest);
    ConcatAssociative(b, c + d, rest);
    ConcatAssociative(c, d, rest);
  }

  lemma {:induction false} MetadataSound(s: seq<Byte>, count: nat, seen: set<string>)
    requires ReadMetadata(s, count, seen).Ok?
    ensures var (items, rest) := ReadMetadata(s, count, seen).value;
            && |items| == count && ValidateItemsOfMetadata(items, seen).Pass?
            && s == WriteMetadata(items) + rest
    decreases |s|
  {
    hide ReadPair, ValidateValue, ValidKey, WriteMetadata;
    if count > 0 {
      var (item, s1) := ReadPair(s, seen).value;
      PairExact(s, seen, item, s1);
      MetadataSound(s1, count - 1, seen + {item.key});
      var (tail, rest) := ReadMetadata(s1, count - 1, seen + {item.key}).value;
      var items := [item] + tail;
      assert items[1..] == tail;
      WriteMetadataCons(items, rest);
    } else {
      assert WriteMetadata([]) == [] by { EmptyMetadata(); }
    }
  }

  lemma EmptyMetadata()
    ensures WriteMetadata([]) == []
  {
  }

  lemma {:induction false} MetadataComplete(items: seq<Metadata>, seen: set<string>, rest: seq<Byte>)
    requires ValidateItemsOfMetadata(items, seen).Pass?
    ensures ReadMetadata(WriteMetadata(items) + rest, |items|, seen) == Ok((items, rest))
  {
    hide ReadPair, ValidateValue, ValidKey, WriteMetadata;
    if items == [] {
      EmptyMetadata();
      assert WriteMetadata(items) + rest == rest;
    } else {
      WriteMetadataCons(items, rest);
      var tail := WriteMetadata(items[1..]) + rest;
      PairExact(WriteMetadata(items) + rest, seen, items[0], tail);
      MetadataComplete(items[1..], seen + {items[0].key}, rest);
      assert items == [items[0]] + items[1..];
    }
  }

  // ---------------------------------------------------------------- more input

  /**
   How a reading of `s` must relate to the reading of `s + more`: the same value with
   `more` left over, or the same error. Only `Truncated` may turn into something else.
   */
  ghost predicate Stable<T>(short: Read<T>, long: Read<T>, more: seq<Byte>) {
    match short
    case Ok((v, rest)) => long == Ok((v, rest + more))
    case Err(e) => e == Truncated || long == Err(e)
  }

  lemma TakeStable(s: seq<Byte>, n: nat, more: seq<Byte>)
    ensures Stable(Take(s, n), Take(s + more, n), more)
  {
    if n <= |s| {
      assert (s + more)[..n] == s[..n] && (s + more)[n..] == s[n..] + more;
    }
  }

  lemma UintStable(s: seq<Byte>, width: nat, more: seq<Byte>)
    ensures Stable(ReadUint(s, width), ReadUint(s + more, width), more)
  {
    TakeStable(s, width, more);
  }

  lemma StringStable(s: seq<Byte>, limit: nat, more: seq<Byte>)
    ensures Stable(ReadString(s, limit), ReadString(s + more, limit), more)
  {
    hide ReadUint, Take, Utf8.Decode;
    UintStable(s, 8, more);
    if ReadUint(s, 8).Ok? {
      var (n, s1) := ReadUint(s, 8).value;
      TakeStable(s1, n, more);
    }
  }

  lemma ArrayHeadStable(s: seq<Byte>, depth: nat, more: seq<Byte>)
    ensures Stable(ReadArrayHead(s, depth), ReadArrayHead(s + more, depth), more)
  {
    hide ReadUint;
    UintStable(s, 4, more);
    if ReadUint(s, 4).Ok? {
      var (code, s1) := ReadUint(s, 4).value;
      UintStable(s1, 8, more);
      if ReadUint(s1, 8).Ok? && ValueTypeOf(code).Ok? {
        var s2 := ReadUint(s1, 8).value.1;
        DivideMonotone(|s2|, |s2 + more|, MinBytes(ValueTypeOf(code).value));
      }
    }
  }

  lemma {:induction false} ValueStable(s: seq<Byte>, t: ValueType, depth: nat, more: seq<Byte>)
    ensures Stable(ReadValue(s, t, depth), ReadValue(s + more, t, depth), more)
    decreases |s|, 1
  {
    hide ReadUint, ReadString, FromBits, ReadItems, ReadArrayHead;
    if t == TString {
      StringStable(s, MAX_STRING, more);
    } else if t == TArray {
      ArrayHeadStable(s, depth, more);
      if ReadArrayHead(s, depth).Ok? {
        var ((element, count), s2) := ReadArrayHead(s, depth).value;
        ItemsStable(s2, element, depth + 1, count, more);
      }
    } else {
      UintStable(s, Width(t), more);
    }
  }

  lemma {:induction false} ItemsStable(s: seq<Byte>, element: ValueType, depth: nat, count: nat, more: seq<Byte>)
    ensures Stable(ReadItems(s, element, depth, count), ReadItems(s + more, element, depth, count), more)
    decreases |s|, 2
  {
    hide ReadValue;
    if count > 0 {
      ValueStable(s, element, depth, more);
      if ReadValue(s, element, depth).Ok? {
        var s1 := ReadValue(s, element, depth).value.1;
        ItemsStable(s1, element, depth, count - 1, more);
      }
    }
  }

  lemma PairStable(s: seq<Byte>, seen: set<string>, more: seq<Byte>)
    ensures Stable(ReadPair(s, seen), ReadPair(s + more, seen), more)
  {
    hide ReadUint, ReadString, ReadValue, ValidKey;
    StringStable(s, MAX_KEY_BYTES, more);
    if ReadString(s, MAX_KEY_BYTES).Ok? {
      var s1 := ReadString(s, MAX_KEY_BYTES).value.1;
      UintStable(s1, 4, more);
      if ReadUint(s1, 4).Ok? {
        var (code, s2) := ReadUint(s1, 4).value;
        if ValueTypeOf(code).Ok? {
          ValueStable(s2, ValueTypeOf(code).value, 0, more);
        }
      }
    }
  }

  lemma {:induction false} MetadataStable(s: seq<Byte>, count: nat, seen: set<string>, more: seq<Byte>)
    ensures Stable(ReadMetadata(s, count, seen), ReadMetadata(s + more, count, seen), more)
    decreases |s|
  {
    hide ReadPair;
    if count > 0 {
      PairStable(s, seen, more);
      if ReadPair(s, seen).Ok? {
        var (item, s1) := ReadPair(s, seen).value;
        MetadataStable(s1, count - 1, seen + {item.key}, more);
      }
    }
  }
}
