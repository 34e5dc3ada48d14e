/** Canonical CBOR: encoder and decoder. */
module Cbor {
  /*
   The canonical CBOR subset of section 3 of RFC 8949 that every contract of the
   repository is written in: what `encode` appends, what `Decoder::read` accepts, and
   the proof that the two are inverse on exactly the canonical values.

   Readers take the bytes that are left and return a value with the bytes after it.
   */
  import opened Wrappers
  import opened Bytes
  import Utf8

  const MAX_DOCUMENT_BYTES: nat := 32 * 1024 * 1024
  const MAX_DEPTH: nat := 32
  const MAX_ITEMS: nat := 1_048_576
  const TWO_64: nat := 0x1_0000_0000_0000_0000

  datatype Value =
    | Null
    | Bool(b: bool)
    | Integer(n: int)
    | Bytes(bytes: seq<Byte>)
    | Text(text: string)
    | Array(items: seq<Value>)
    | Map(entries: seq<Entry>)

  datatype Entry = Entry(key: string, value: Value)

  /** The reasons `decode_canonical` gives; all carry the code `CANONICAL_CBOR_INVALID`. */
  datatype Error =
    | EmptyInput | DocumentTooLarge | TrailingBytes | NotCanonical
    | TooDeep | Truncated | TruncatedCollection | TooManyItems
    | NotUtf8 | KeyNotText | KeysNotIncreasing
    | Indefinite | Reserved | NotShortest | IntegerOutOfRange
    | UnsupportedSimple | UnsupportedTag

  // ---------------------------------------------------------------- encoding

  /** `encode_length`: a major type and its argument in shortest form, cut to 64 bits. */
  function Head(major: nat, n: nat): (h: seq<Byte>)
    requires major < 8
    ensures |h| >= 1
  {
    if n < 24 then [major * 32 + n]
    else if n <= 0xff then [major * 32 + 24, n]
    else if n <= 0xffff then [major * 32 + 25] + BigEndian(n, 2)
    else if n <= 0xffff_ffff then [major * 32 + 26] + BigEndian(n, 4)
    else [major * 32 + 27] + BigEndian(n, 8)
  }

  function EncodeText(text: string): (bs: seq<Byte>)
    ensures |bs| >= 1
  {
    Head(3, |Utf8.Encode(text)|) + Utf8.Encode(text)
  }

  function Encode(v: Value): (bs: seq<Byte>)
    ensures |bs| >= 1
    decreases v, 0
  {
    match v
    case Null => [0xf6]
    case Bool(b) => [if b then 0xf5 else 0xf4]
    case Integer(n) => if n >= 0 then Head(0, n) else Head(1, -1 - n)
    case Bytes(bytes) => Head(2, |bytes|) + bytes
    case Text(text) => EncodeText(text)
    case Array(items) => Head(4, |items|) + EncodeItems(items)
    case Map(entries) => Head(5, |entries|) + EncodeEntries(entries)
  }

  function EncodeItems(items: seq<Value>): (bs: seq<Byte>)
    ensures |bs| >= |items|
    decreases items, 1
  {
    if items == [] then [] else Encode(items[0]) + EncodeItems(items[1..])
  }

  function EncodeEntries(entries: seq<Entry>): (bs: seq<Byte>)
    ensures |bs| >= |entries|
    decreases entries, 1
  {
    if entries == [] then []
    else EncodeText(entries[0].key) + Encode(entries[0].value) + EncodeEntries(entries[1..])
  }

  // ---------------------------------------------------------------- decoding

  function ReadByte(s: seq<Byte>): (r: Result<(Byte, seq<Byte>), Error>)
    ensures r.Ok? ==> |r.value.1| < |s|
  {
    if s == [] then Err(Truncated) else Ok((s[0], s[1..]))
  }

  function ReadBytes(s: seq<Byte>, n: nat): (r: Result<(seq<Byte>, seq<Byte>), Error>)
    ensures r.Ok? ==> |r.value.1| <= |s|
  {
    if n > |s| then Err(Truncated) else Ok((s[..n], s[n..]))
  }

  function ReadBigEndian(s: seq<Byte>, width: nat): (r: Result<(nat, seq<Byte>), Error>)
    ensures r.Ok? ==> |r.value.1| <= |s|
  {
    var (bs, rest) :- ReadBytes(s, width);
    Ok((FromBigEndian(bs), rest))
  }

  /** The argument that additional information `ai` announces, in shortest form only. */
  function ReadArgument(s: seq<Byte>, ai: nat): (r: Result<(nat, seq<Byte>), Error>)
    ensures r.Ok? ==> |r.value.1| <= |s|
  {
    if ai < 24 then Ok((ai, s))
    else
      var (n, rest) :-
        if ai == 24 then ReadBigEndian(s, 1)
        else if ai == 25 then ReadBigEndian(s, 2)
        else if ai == 26 then ReadBigEndian(s, 4)
        else if ai == 27 then ReadBigEndian(s, 8)
        else if ai < 31 then Err(Reserved)
        else Err(Indefinite);
      if n < MinimalArgument(ai) then Err(NotShortest)
      else if n >= TWO_64 then Err(IntegerOutOfRange)
      else Ok((n, rest))
  }

  function MinimalArgument(ai: nat): nat {
    if ai == 24 then 24
    else if ai == 25 then 0x100
    else if ai == 26 then 0x1_0000
    else 0x1_0000_0000
  }

  function ReadCount(s: seq<Byte>, ai: nat): (r: Result<(nat, seq<Byte>), Error>)
    ensures r.Ok? ==> |r.value.1| <= |s|
  {
    var (n, rest) :- ReadArgument(s, ai);
    if n > MAX_ITEMS then Err(TooManyItems)
    else if n > |rest| then Err(TruncatedCollection)
    else Ok((n, rest))
  }

  function ReadValue(s: seq<Byte>, depth: nat): (r: Result<(Value, seq<Byte>), Error>)
    ensures r.Ok? ==> |r.value.1| < |s|
    decreases |s|, 0
  {
    if depth > MAX_DEPTH then Err(TooDeep)
    else
      var (initial, s1) :- ReadByte(s);
      var major, ai := initial / 32, initial % 32;
      match major
      case 0 =>
        var (n, rest) :- ReadArgument(s1, ai);
        Ok((Integer(n), rest))
      case 1 =>
        var (n, rest) :- ReadArgument(s1, ai);
        Ok((Integer(-1 - n), rest))
      case 2 =>
        var (n, s2) :- ReadArgument(s1, ai);
        var (bytes, rest) :- ReadBytes(s2, n);
        Ok((Bytes(bytes), rest))
      case 3 =>
        var (n, s2) :- ReadArgument(s1, ai);
        var (bytes, rest) :- ReadBytes(s2, n);
        (match Utf8.Decode(bytes)
         case None => Err(NotUtf8)
         case Some(text) => Ok((Text(text), rest)))
      case 4 =>
        var (n, s2) :- ReadCount(s1, ai);
        var (items, rest) :- ReadItems(s2, depth + 1, n);
        Ok((Array(items), rest))
      case 5 =>
        var (n, s2) :- ReadCount(s1, ai);
        var (entries, rest) :- ReadEntries(s2, depth + 1, n, None);
        Ok((Map(entries), rest))
      case 7 =>
        if ai == 20 then Ok((Bool(false), s1))
        else if ai == 21 then Ok((Bool(true), s1))
        else if ai == 22 then Ok((Null, s1))
        else if ai == 31 then Err(Indefinite)
        else Err(UnsupportedSimple)
      case _ => Err(UnsupportedTag)
  }

  function ReadItems(s: seq<Byte>, depth: nat, count: nat): (r: Result<(seq<Value>, seq<Byte>), Error>)
    ensures r.Ok? ==> |r.value.1| <= |s|
    decreases |s|, 1
  {
    if count == 0 then Ok(([], s))
    else
      var (v, s1) :- ReadValue(s, depth);
      var (vs, rest) :- ReadItems(s1, depth, count - 1);
      Ok(([v] + vs, rest))
  }

  predicate Follows(previous: Option<string>, key: string) {
    previous.Some? ==> Less(Utf8.Encode(previous.value), Utf8.Encode(key))
  }

  function ReadEntries(s: seq<Byte>, depth: nat, count: nat, previous: Option<string>)
    : (r: Result<(seq<Entry>, seq<Byte>), Error>)
    ensures r.Ok? ==> |r.value.1| <= |s|
    decreases |s|, 1
  {
    if count == 0 then Ok(([], s))
    else
      var (k, s1) :- ReadValue(s, depth);
      if !k.Text? then Err(KeyNotText)
      else if !Follows(previous, k.text) then Err(KeysNotIncreasing)
      else
        var (v, s2) :- ReadValue(s1, depth);
        var (entries, rest) :- ReadEntries(s2, depth, count - 1, Some(k.text));
        Ok(([Entry(k.text, v)] + entries, rest))
  }

  /** `decode_canonical`: one value, no trailing bytes, and the bytes are its encoding. */
  function Decode(bytes: seq<Byte>): Result<Value, Error> {
    if bytes == [] then Err(EmptyInput)
    else if |bytes| > MAX_DOCUMENT_BYTES then Err(DocumentTooLarge)
    else
      var (v, rest) :- ReadValue(bytes, 0);
      if rest != [] then Err(TrailingBytes)
      else if Encode(v) != bytes then Err(NotCanonical)
      else Ok(v)
  }

  // ---------------------------------------------------------------- domains

  /** Values whose integers and lengths fit the 64-bit argument of a CBOR head. */
  predicate Encodable(v: Value)
    decreases v, 0
  {
    match v
    case Integer(n) => -(TWO_64 as int) <= n < TWO_64
    case Bytes(bytes) => |bytes| < TWO_64
    case Text(text) => |Utf8.Encode(text)| < TWO_64
    case Array(items) => |items| < TWO_64 && EncodableItems(items)
    case Map(entries) => |entries| < TWO_64 && EncodableEntries(entries)
    case _ => true
  }

  predicate EncodableItems(items: seq<Value>)
    decreases items, 1
  {
    items != [] ==> Encodable(items[0]) && EncodableItems(items[1..])
  }

  predicate EncodableEntries(entries: seq<Entry>)
    decreases entries, 1
  {
    entries != [] ==>
      && |Utf8.Encode(entries[0].key)| < TWO_64
      && Encodable(entries[0].value)
      && EncodableEntries(entries[1..])
  }

  /** Values that the decoder returns from nesting level `depth`. */
  predicate Canonical(v: Value, depth: nat)
    decreases v, 0
  {
    && depth <= MAX_DEPTH
    && match v
       case Integer(n) => -(TWO_64 as int) <= n < TWO_64
       case Bytes(bytes) => |bytes| < TWO_64
       case Text(text) => |Utf8.Encode(text)| < TWO_64
       case Array(items) => |items| <= MAX_ITEMS && CanonicalItems(items, depth + 1)
       case Map(entries) => |entries| <= MAX_ITEMS && CanonicalEntries(entries, depth + 1, None)
       case _ => true
  }

  predicate CanonicalItems(items: seq<Value>, depth: nat)
    decreases items, 1
  {
    items != [] ==> Canonical(items[0], depth) && CanonicalItems(items[1..], depth)
  }

  /** Keys strictly increase in the byte order of their text, after `previous`. */
  predicate CanonicalEntries(entries: seq<Entry>, depth: nat, previous: Option<string>)
    decreases entries, 1
  {
    entries != [] ==>
      && |Utf8.Encode(entries[0].key)| < TWO_64
      && Follows(previous, entries[0].key)
      && Canonical(entries[0].value, depth)
      && CanonicalEntries(entries[1..], depth, Some(entries[0].key))
  }

  // ---------------------------------------------------------------- heads

  lemma OneByte(n: nat)
    requires n < 0x100
    ensures BigEndian(n, 1) == [n]
  {
    assert BigEndian(n / 0x100, 0) == [];
  }

  lemma {:induction false} HeadThenRead(major: nat, n: nat, rest: seq<Byte>)
    requires major < 8 && n < TWO_64
    ensures var s := Head(major, n) + rest;
            && s[0] / 32 == major
            && ReadArgument(s[1..], s[0] % 32) == Ok((n, rest))
  {
    hide BigEndian, FromBigEndian, Pow256;
    Pow256Values();
    var s := Head(major, n) + rest;
    var ai := s[0] % 32;
    if n < 24 {
      assert s[1..] == rest;
    } else {
      var w := if n <= 0xff then 1 else if n <= 0xffff then 2 else if n <= 0xffff_ffff then 4 else 8;
      if n <= 0xff {
        OneByte(n);
      }
      assert s[1..] == BigEndian(n, w) + rest;
      assert s[1..][..w] == BigEndian(n, w) && s[1..][w..] == rest;
      BigEndianInverse(n, w);
    }
  }

  /** An argument that reads is written back by `Head` to the same bytes. */
  lemma {:induction false} ReadThenHead(s: seq<Byte>)
    requires s != [] && ReadArgument(s[1..], s[0] % 32).Ok?
    ensures var (n, rest) := ReadArgument(s[1..], s[0] % 32).value;
            n < TWO_64 && s == Head(s[0] / 32, n) + rest
  {
    hide BigEndian, FromBigEndian, Pow256;
    Pow256Values();
    var ai, t := s[0] % 32, s[1..];
    var (n, rest) := ReadArgument(t, ai).value;
    if ai >= 24 {
      var w := if ai == 24 then 1 else if ai == 25 then 2 else if ai == 26 then 4 else 8;
      FromBigEndianInverse(t[..w]);
      assert n == FromBigEndian(t[..w]) && t == BigEndian(n, w) + rest;
      if ai == 24 {
        OneByte(n);
      }
    }
    assert s == [s[0]] + t;
  }

  // ---------------------------------------------------------------- head, argument and body

  function Major(v: Value): nat {
    match v
    case Integer(n) => if n >= 0 then 0 else 1
    case Bytes(_) => 2
    case Text(_) => 3
    case Array(_) => 4
    case Map(_) => 5
    case _ => 7
  }

  function Argument(v: Value): nat {
    match v
    case Integer(n) => if n >= 0 then n else -1 - n
    case Bytes(bytes) => |bytes|
    case Text(text) => |Utf8.Encode(text)|
    case Array(items) => |items|
    case Map(entries) => |entries|
    case Null => 22
    case Bool(b) => if b then 21 else 20
  }

  function Body(v: Value): seq<Byte> {
    match v
    case Bytes(bytes) => bytes
    case Text(text) => Utf8.Encode(text)
    case Array(items) => EncodeItems(items)
    case Map(entries) => EncodeEntries(entries)
    case _ => []
  }

  lemma EncodeIsHeadAndBody(v: Value)
    ensures Encode(v) == Head(Major(v), Argument(v)) + Body(v)
  {
  }

  lemma SplitFirstEntry(es: seq<Entry>, s: seq<Byte>)
    requires es != []
    ensures EncodeEntries(es) + s ==
            EncodeText(es[0].key) + (Encode(es[0].value) + (EncodeEntries(es[1..]) + s))
  {
    var k, v, tail := EncodeText(es[0].key), Encode(es[0].value), EncodeEntries(es[1..]);
    ConcatAssociative(k + v, tail, s);
    ConcatAssociative(k, v, tail + s);
  }

  // ---------------------------------------------------------------- the decoder is canonical

  /** One head and body: how the parts of `s` fit together again. */
  lemma HeadAndBodyJoin(v: Value, s: seq<Byte>, rest: seq<Byte>)
    requires s != [] && ReadArgument(s[1..], s[0] % 32).Ok?
    requires ReadArgument(s[1..], s[0] % 32).value == (Argument(v), Body(v) + rest)
    requires Major(v) == s[0] / 32
    ensures Argument(v) < TWO_64 && s == Encode(v) + rest
  {
    ReadThenHead(s);
    EncodeIsHeadAndBody(v);
    ConcatAssociative(Head(Major(v), Argument(v)), Body(v), rest);
  }

  lemma StringIsCanonical(s: seq<Byte>, depth: nat)
    requires ReadValue(s, depth).Ok? && s[0] / 32 in {2, 3}
    ensures var (v, rest) := ReadValue(s, depth).value;
            Canonical(v, depth) && s == Encode(v) + rest
  {
    hide Utf8.Decode, Utf8.Encode, MinimalArgument, ReadBigEndian;
    var (v, rest) := ReadValue(s, depth).value;
    ReadThenHead(s);
    var (n, s2) := ReadArgument(s[1..], s[0] % 32).value;
    if s[0] / 32 == 3 {
      Utf8.EncodeDecode(s2[..n]);
    }
    assert s2 == Body(v) + rest;
    HeadAndBodyJoin(v, s, rest);
  }

  lemma LeafIsCanonical(s: seq<Byte>, depth: nat)
    requires ReadValue(s, depth).Ok? && s[0] / 32 !in {4, 5}
    ensures var (v, rest) := ReadValue(s, depth).value;
            Canonical(v, depth) && s == Encode(v) + rest
  {
    var (v, rest) := ReadValue(s, depth).value;
    var major := s[0] / 32;
    if major == 7 {
      assert s == [s[0]] + s[1..];
    } else if major < 2 {
      ReadThenHead(s);
      assert rest == Body(v) + rest;
      HeadAndBodyJoin(v, s, rest);
    } else {
      StringIsCanonical(s, depth);
    }
  }

  /** Every value the decoder reads encodes to exactly the bytes it was read from. */
  lemma {:induction false} ReadIsCanonical(s: seq<Byte>, depth: nat)
    requires ReadValue(s, depth).Ok?
    ensures var (v, rest) := ReadValue(s, depth).value;
            Canonical(v, depth) && s == Encode(v) + rest
    decreases |s|, 0
  {
    var major := s[0] / 32;
    if major == 4 {
      ReadArrayIsCanonical(s, depth);
    } else if major == 5 {
      ReadMapIsCanonical(s, depth);
    } else {
      LeafIsCanonical(s, depth);
    }
  }

  lemma {:induction false} ReadArrayIsCanonical(s: seq<Byte>, depth: nat)
    requires ReadValue(s, depth).Ok? && s[0] / 32 == 4
    ensures var (v, rest) := ReadValue(s, depth).value;
            Canonical(v, depth) && s == Encode(v) + rest
    decreases |s|, 0, 0
  {
    var (v, rest) := ReadValue(s, depth).value;
    var (n, s2) := ReadArgument(s[1..], s[0] % 32).value;
    ItemsAreCanonical(s2, depth + 1, n);
    HeadAndBodyJoin(v, s, rest);
  }

  lemma {:induction false} ReadMapIsCanonical(s: seq<Byte>, depth: nat)
    requires ReadValue(s, depth).Ok? && s[0] / 32 == 5
    ensures var (v, rest) := ReadValue(s, depth).value;
            Canonical(v, depth) && s == Encode(v) + rest
    decreases |s|, 0, 0
  {
    var (v, rest) := ReadValue(s, depth).value;
    var (n, s2) := ReadArgument(s[1..], s[0] % 32).value;
    EntriesAreCanonical(s2, depth + 1, n, None);
    HeadAndBodyJoin(v, s, rest);
  }

  lemma {:induction false} ItemsAreCanonical(s: seq<Byte>, depth: nat, count: nat)
    requires ReadItems(s, depth, count).Ok?
    ensures var (vs, rest) := ReadItems(s, depth, count).value;
            |vs| == count && CanonicalItems(vs, depth) && s == EncodeItems(vs) + rest
    decreases |s|, 1
  {
    if count > 0 {
      var (v, s1) := ReadValue(s, depth).value;
      var (vs, rest) := ReadItems(s1, depth, count - 1).value;
      ReadIsCanonical(s, depth);
      ItemsAreCanonical(s1, depth, count - 1);
      assert ([v] + vs)[1..] == vs;
      ConcatAssociative(Encode(v), EncodeItems(vs), rest);
    }
  }

  /** What one turn of the map loop reads. */
  lemma ReadEntriesStep(s: seq<Byte>, depth: nat, count: nat, previous: Option<string>)
    requires count > 0 && ReadEntries(s, depth, count, previous).Ok?
    ensures ReadValue(s, depth).Ok? && ReadValue(s, depth).value.0.Text?
    ensures var (k, s1) := ReadValue(s, depth).value;
            && Follows(previous, k.text)
            && ReadValue(s1, depth).Ok?
            && var (v, s2) := ReadValue(s1, depth).value;
            && ReadEntries(s2, depth, count - 1, Some(k.text)).Ok?
            && var (es, rest) := ReadEntries(s2, depth, count - 1, Some(k.text)).value;
            && ReadEntries(s, depth, count, previous).value == ([Entry(k.text, v)] + es, rest)
  {
    hide ReadValue, Follows;
  }

  lemma JoinFirstEntry(k: string, v: Value, es: seq<Entry>, s1: seq<Byte>, s2: seq<Byte>, rest: seq<Byte>,
                       depth: nat, previous: Option<string>)
    requires s1 == Encode(v) + s2 && s2 == EncodeEntries(es) + rest
    requires Canonical(Text(k), depth) && Canonical(v, depth) && Follows(previous, k)
    requires CanonicalEntries(es, depth, Some(k))
    ensures CanonicalEntries([Entry(k, v)] + es, depth, previous)
    ensures Encode(Text(k)) + s1 == EncodeEntries([Entry(k, v)] + es) + rest
  {
    var entries := [Entry(k, v)] + es;
    assert entries[1..] == es;
    SplitFirstEntry(entries, rest);
  }

  lemma {:induction false} EntriesAreCanonical(s: seq<Byte>, depth: nat, count: nat, previous: Option<string>)
    requires ReadEntries(s, depth, count, previous).Ok?
    ensures var (es, rest) := ReadEntries(s, depth, count, previous).value;
            |es| == count && CanonicalEntries(es, depth, previous) && s == EncodeEntries(es) + rest
    decreases |s|, 1
  {
    hide ReadValue, Encode, EncodeText, Follows;
    if count > 0 {
      ReadEntriesStep(s, depth, count, previous);
      var (k, s1) := ReadValue(s, depth).value;
      var (v, s2) := ReadValue(s1, depth).value;
      ReadIsCanonical(s, depth);
      ReadIsCanonical(s1, depth);
      EntriesAreCanonical(s2, depth, count - 1, Some(k.text));
      var (es, rest) := ReadEntries(s2, depth, count - 1, Some(k.text)).value;
      JoinFirstEntry(k.text, v, es, s1, s2, rest, depth, previous);
    }
  }

  // ---------------------------------------------------------------- the decoder inverts the encoder

  lemma {:induction false} ReadTextEncoding(text: string, depth: nat, rest: seq<Byte>)
    requires depth <= MAX_DEPTH && |Utf8.Encode(text)| < TWO_64
    ensures ReadValue(EncodeText(text) + rest, depth) == Ok((Text(text), rest))
  {
    var body := Utf8.Encode(text);
    ConcatAssociative(Head(3, |body|), body, rest);
    HeadThenRead(3, |body|, body + rest);
    SplitConcat(body, rest);
    Utf8.DecodeEncode(text);
  }

  lemma ReadLeafEncoding(v: Value, depth: nat, rest: seq<Byte>)
    requires Canonical(v, depth) && !v.Array? && !v.Map?
    ensures ReadValue(Encode(v) + rest, depth) == Ok((v, rest))
  {
    var s, body := Encode(v) + rest, Body(v);
    EncodeIsHeadAndBody(v);
    ConcatAssociative(Head(Major(v), Argument(v)), body, rest);
    HeadThenRead(Major(v), Argument(v), body + rest);
    SplitConcat(body, rest);
    if v.Text? {
      Utf8.DecodeEncode(v.text);
    } else if !v.Bytes? {
      assert body + rest == rest;
    }
  }

  /** Every canonical value is read back from its encoding, whatever follows it. */
  lemma {:induction false} ReadEncoding(v: Value, depth: nat, rest: seq<Byte>)
    requires Canonical(v, depth)
    ensures ReadValue(Encode(v) + rest, depth) == Ok((v, rest))
    decreases v, 0
  {
    match v
    case Array(items) =>
      ReadItemsEncoding(items, depth + 1, rest);
      ReadArrayFromItems(items, depth, rest);
    case Map(entries) =>
      ReadEntriesEncoding(entries, depth + 1, None, rest);
      ReadMapFromEntries(entries, depth, rest);
    case _ =>
      ReadLeafEncoding(v, depth, rest);
  }

  lemma ReadArrayFromItems(items: seq<Value>, depth: nat, rest: seq<Byte>)
    requires depth <= MAX_DEPTH && |items| <= MAX_ITEMS
    requires ReadItems(EncodeItems(items) + rest, depth + 1, |items|) == Ok((items, rest))
    ensures ReadValue(Encode(Array(items)) + rest, depth) == Ok((Array(items), rest))
  {
    hide ReadItems, ReadEntries, EncodeItems, EncodeEntries, MinimalArgument, ReadBigEndian, EncodeText;
    ConcatAssociative(Head(4, |items|), EncodeItems(items), rest);
    HeadThenRead(4, |items|, EncodeItems(items) + rest);
  }

  lemma ReadMapFromEntries(entries: seq<Entry>, depth: nat, rest: seq<Byte>)
    requires depth <= MAX_DEPTH && |entries| <= MAX_ITEMS
    requires ReadEntries(EncodeEntries(entries) + rest, depth + 1, |entries|, None) == Ok((entries, rest))
    ensures ReadValue(Encode(Map(entries)) + rest, depth) == Ok((Map(entries), rest))
  {
    hide ReadItems, ReadEntries, EncodeItems, EncodeEntries, MinimalArgument, ReadBigEndian, EncodeText;
    ConcatAssociative(Head(5, |entries|), EncodeEntries(entries), rest);
    HeadThenRead(5, |entries|, EncodeEntries(entries) + rest);
  }

  lemma {:induction false} ReadItemsEncoding(items: seq<Value>, depth: nat, rest: seq<Byte>)
    requires CanonicalItems(items, depth)
    ensures ReadItems(EncodeItems(items) + rest, depth, |items|) == Ok((items, rest))
    decreases items, 1
  {
    if items == [] {
      assert EncodeItems(items) + rest == rest;
    } else {
      var tail := EncodeItems(items[1..]) + rest;
      ConcatAssociative(Encode(items[0]), EncodeItems(items[1..]), rest);
      ReadEncoding(items[0], depth, tail);
      ReadItemsEncoding(items[1..], depth, rest);
      assert items == [items[0]] + items[1..];
    }
  }

  lemma ReadEntriesCons(s: seq<Byte>, depth: nat, entries: seq<Entry>, previous: Option<string>,
                        s1: seq<Byte>, s2: seq<Byte>, rest: seq<Byte>)
    requires entries != [] && Follows(previous, entries[0].key)
    requires ReadValue(s, depth) == Ok((Text(entries[0].key), s1))
    requires ReadValue(s1, depth) == Ok((entries[0].value, s2))
    requires ReadEntries(s2, depth, |entries| - 1, Some(entries[0].key)) == Ok((entries[1..], rest))
    ensures ReadEntries(s, depth, |entries|, previous) == Ok((entries, rest))
  {
    hide ReadValue, Follows;
    assert entries == [entries[0]] + entries[1..];
  }

  lemma {:induction false} ReadEntriesEncoding(entries: seq<Entry>, depth: nat, previous: Option<string>,
                                               rest: seq<Byte>)
    requires CanonicalEntries(entries, depth, previous)
    ensures ReadEntries(EncodeEntries(entries) + rest, depth, |entries|, previous) == Ok((entries, rest))
    decreases entries, 1
  {
    if entries == [] {
      assert EncodeEntries(entries) + rest == rest;
    } else {
      var Entry(k, v) := entries[0];
      var tail := EncodeEntries(entries[1..]) + rest;
      SplitFirstEntry(entries, rest);
      ReadTextEncoding(k, depth, Encode(v) + tail);
      ReadEncoding(v, depth, tail);
      ReadEntriesEncoding(entries[1..], depth, Some(k), rest);
      ReadEntriesCons(EncodeEntries(entries) + rest, depth, entries, previous, Encode(v) + tail, tail, rest);
    }
  }

  // ---------------------------------------------------------------- main results

  /**
   The reader accepts a canonical value exactly where that value's encoding stands,
   and leaves exactly the bytes after it.
   */
  lemma ReadExactlyEncoding(s: seq<Byte>, v: Value, depth: nat, rest: seq<Byte>)
    ensures ReadValue(s, depth) == Ok((v, rest)) <==> Canonical(v, depth) && s == Encode(v) + rest
  {
    if ReadValue(s, depth) == Ok((v, rest)) {
      ReadIsCanonical(s, depth);
    }
    if Canonical(v, depth) && s == Encode(v) + rest {
      ReadEncoding(v, depth, rest);
    }
  }

  /**
   `decode_canonical` returns `v` on exactly one input, the encoding of `v`, and does so
   exactly for canonical values within the size limit.
   */
  lemma DecodeExactlyEncoding(bytes: seq<Byte>, v: Value)
    ensures Decode(bytes) == Ok(v) <==>
            Canonical(v, 0) && bytes == Encode(v) && |bytes| <= MAX_DOCUMENT_BYTES
  {
    ReadExactlyEncoding(bytes, v, 0, []);
    assert Encode(v) + [] == Encode(v);
  }

  /** The comparison with the re-encoded value never rejects: the decoder is canonical by itself. */
  lemma RecodeNeverRejects(bytes: seq<Byte>, v: Value)
    requires ReadValue(bytes, 0) == Ok((v, []))
    ensures Encode(v) == bytes
    ensures |bytes| <= MAX_DOCUMENT_BYTES ==> Decode(bytes) == Ok(v)
  {
    ReadIsCanonical(bytes, 0);
    assert Encode(v) + [] == Encode(v);
  }

  /** Distinct documents never decode to the same value. */
  lemma DecodeInjective(a: seq<Byte>, b: seq<Byte>)
    requires Decode(a).Ok? && Decode(a) == Decode(b)
    ensures a == b
  {
    DecodeExactlyEncoding(a, Decode(a).value);
    DecodeExactlyEncoding(b, Decode(a).value);
  }

  // ---------------------------------------------------------------- prefix freedom

  lemma HeadPrefixFree(m1: nat, n1: nat, s: seq<Byte>, m2: nat, n2: nat, t: seq<Byte>)
    requires m1 < 8 && m2 < 8 && n1 < TWO_64 && n2 < TWO_64
    requires Head(m1, n1) + s == Head(m2, n2) + t
    ensures m1 == m2 && n1 == n2 && s == t
  {
    HeadThenRead(m1, n1, s);
    HeadThenRead(m2, n2, t);
  }

  /**
   No encoding is a proper prefix of another, and encodings determine their values:
   for all values whose integers and lengths fit 64 bits, nested to any depth.
   */
  lemma {:induction false} EncodePrefixFree(v: Value, s: seq<Byte>, w: Value, t: seq<Byte>)
    requires Encodable(v) && Encodable(w)
    requires Encode(v) + s == Encode(w) + t
    ensures v == w && s == t
    decreases v, 0
  {
    EncodeIsHeadAndBody(v);
    EncodeIsHeadAndBody(w);
    ConcatAssociative(Head(Major(v), Argument(v)), Body(v), s);
    ConcatAssociative(Head(Major(w), Argument(w)), Body(w), t);
    HeadPrefixFree(Major(v), Argument(v), Body(v) + s, Major(w), Argument(w), Body(w) + t);
    if v.Array? {
      ItemsPrefixFree(v.items, s, w.items, t);
    } else if v.Map? {
      EntriesPrefixFree(v.entries, s, w.entries, t);
    } else {
      assert |Body(v)| == |Body(w)|;
      SplitConcat(Body(v), s);
      SplitConcat(Body(w), t);
      if v.Text? {
        Utf8.EncodeInjective(v.text, w.text);
      }
    }
  }

  lemma {:induction false} ItemsPrefixFree(vs: seq<Value>, s: seq<Byte>, ws: seq<Value>, t: seq<Byte>)
    requires EncodableItems(vs) && EncodableItems(ws) && |vs| == |ws|
    requires EncodeItems(vs) + s == EncodeItems(ws) + t
    ensures vs == ws && s == t
    decreases vs, 1
  {
    if vs == [] {
      assert EncodeItems(vs) + s == s && EncodeItems(ws) + t == t;
    } else {
      var s1, t1 := EncodeItems(vs[1..]) + s, EncodeItems(ws[1..]) + t;
      ConcatAssociative(Encode(vs[0]), EncodeItems(vs[1..]), s);
      ConcatAssociative(Encode(ws[0]), EncodeItems(ws[1..]), t);
      EncodePrefixFree(vs[0], s1, ws[0], t1);
      ItemsPrefixFree(vs[1..], s, ws[1..], t);
      assert vs == [vs[0]] + vs[1..] && ws == [ws[0]] + ws[1..];
    }
  }

  lemma TextPrefixFree(k: string, s: seq<Byte>, l: string, t: seq<Byte>)
    requires |Utf8.Encode(k)| < TWO_64 && |Utf8.Encode(l)| < TWO_64
    requires EncodeText(k) + s == EncodeText(l) + t
    ensures k == l && s == t
  {
    var b, c := Utf8.Encode(k), Utf8.Encode(l);
    ConcatAssociative(Head(3, |b|), b, s);
    ConcatAssociative(Head(3, |c|), c, t);
    HeadPrefixFree(3, |b|, b + s, 3, |c|, c + t);
    SplitConcat(b, s);
    SplitConcat(c, t);
    Utf8.EncodeInjective(k, l);
  }

  lemma {:induction false} EntriesPrefixFree(es: seq<Entry>, s: seq<Byte>, fs: seq<Entry>, t: seq<Byte>)
    requires EncodableEntries(es) && EncodableEntries(fs) && |es| == |fs|
    requires EncodeEntries(es) + s == EncodeEntries(fs) + t
    ensures es == fs && s == t
    decreases es, 1
  {
    hide Encode, EncodeText, Encodable;
    if es == [] {
      assert EncodeEntries(es) + s == s && EncodeEntries(fs) + t == t;
    } else {
      var s1, t1 := EncodeEntries(es[1..]) + s, EncodeEntries(fs[1..]) + t;
      var s2, t2 := Encode(es[0].value) + s1, Encode(fs[0].value) + t1;
      SplitFirstEntry(es, s);
      SplitFirstEntry(fs, t);
      TextPrefixFree(es[0].key, s2, fs[0].key, t2);
      EncodePrefixFree(es[0].value, s1, fs[0].value, t1);
      EntriesPrefixFree(es[1..], s, fs[1..], t);
      assert es == [es[0]] + es[1..] && fs == [fs[0]] + fs[1..];
    }
  }

  lemma EncodeInjective(v: Value, w: Value)
    requires Encodable(v) && Encodable(w)
    requires Encode(v) == Encode(w)
    ensures v == w
  {
    EncodePrefixFree(v, [], w, []);
  }

  // ---------------------------------------------------------------- canonical values

  predicate DistinctKeys(es: seq<Entry>) {
    forall i, j :: 0 <= i < j < |es| ==> es[i].key != es[j].key
  }

  lemma {:induction false} SortedAfter(es: seq<Entry>, depth: nat, previous: string, i: nat)
    requires CanonicalEntries(es, depth, Some(previous)) && i < |es|
    ensures Less(Utf8.Encode(previous), Utf8.Encode(es[i].key))
  {
    hide Utf8.Encode, Less;
    if i > 0 {
      SortedAfter(es[1..], depth, es[0].key, i - 1);
      LessTransitive(Utf8.Encode(previous), Utf8.Encode(es[0].key), Utf8.Encode(es[i].key));
    }
  }

  /** The keys of a canonical map strictly increase over any distance. */
  lemma {:induction false} SortedKeys(es: seq<Entry>, depth: nat, previous: Option<string>, i: nat, j: nat)
    requires CanonicalEntries(es, depth, previous) && i < j < |es|
    ensures Less(Utf8.Encode(es[i].key), Utf8.Encode(es[j].key)) && es[i].key != es[j].key
  {
    hide Utf8.Encode, Less;
    if i == 0 {
      SortedAfter(es[1..], depth, es[0].key, j - 1);
    } else {
      SortedKeys(es[1..], depth, Some(es[0].key), i - 1, j - 1);
    }
    LessIrreflexive(Utf8.Encode(es[i].key));
  }

  lemma CanonicalKeysDistinct(es: seq<Entry>, depth: nat, previous: Option<string>)
    requires CanonicalEntries(es, depth, previous)
    ensures DistinctKeys(es)
  {
    forall i, j | 0 <= i < j < |es|
      ensures es[i].key != es[j].key
    {
      SortedKeys(es, depth, previous, i, j);
    }
  }

  lemma {:induction false} CanonicalEncodable(v: Value, depth: nat)
    requires Canonical(v, depth)
    ensures Encodable(v)
    decreases v, 0
  {
    match v
    case Array(items) => CanonicalItemsEncodable(items, depth + 1);
    case Map(entries) => CanonicalEntriesEncodable(entries, depth + 1, None);
    case _ =>
  }

  lemma {:induction false} CanonicalItemsEncodable(items: seq<Value>, depth: nat)
    requires CanonicalItems(items, depth)
    ensures EncodableItems(items)
    decreases items, 1
  {
    if items != [] {
      CanonicalEncodable(items[0], depth);
      CanonicalItemsEncodable(items[1..], depth);
    }
  }

  lemma {:induction false} CanonicalEntriesEncodable(entries: seq<Entry>, depth: nat, previous: Option<string>)
    requires CanonicalEntries(entries, depth, previous)
    ensures EncodableEntries(entries)
    decreases entries, 1
  {
    if entries != [] {
      CanonicalEncodable(entries[0].value, depth);
      CanonicalEntriesEncodable(entries[1..], depth, Some(entries[0].key));
    }
  }

  /** Replacing the value under one key of a canonical map leaves the rest as it is. */
  lemma {:induction false} OtherValue(before: seq<Entry>, key: string, v: Value, w: Value,
                                      after: seq<Entry>, depth: nat, previous: Option<string>)
    requires CanonicalEntries(before + [Entry(key, v)] + after, depth, previous)
    ensures CanonicalEntries(before + [Entry(key, w)] + after, depth, previous) <==> Canonical(w, depth)
    decreases |before|
  {
    hide Canonical, Follows, Utf8.Encode;
    var a, b := before + [Entry(key, v)] + after, before + [Entry(key, w)] + after;
    if before == [] {
      assert a[0].key == b[0].key == key && a[1..] == b[1..] == after;
    } else {
      assert a[0] == b[0] == before[0];
      assert a[1..] == before[1..] + [Entry(key, v)] + after;
      assert b[1..] == before[1..] + [Entry(key, w)] + after;
      OtherValue(before[1..], key, v, w, after, depth, Some(before[0].key));
    }
  }
}
