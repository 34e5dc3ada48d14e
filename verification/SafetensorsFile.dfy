/** Writing and reading whole safetensors files: `encode_safetensors`, `parse_safetensors_bytes`. */
module SafetensorsFile {
  import opened Wrappers
  import opened Bytes
  import opened Safetensors
  import opened Sorting
  import Utf8

  const METADATA: string := "__metadata__"
  const U32_LIMIT: nat := 0x1_0000_0000

  datatype Tensor = Tensor(name: string, dtype: string, shape: seq<nat>, bytes: seq<Byte>)

  /** The JSON value of one header key: a tensor, an object of strings, or anything else. */
  datatype Item =
    | TensorItem(tag: string, shape: seq<nat>, start: nat, end: nat)
    | TextItems(texts: seq<(string, string)>)
    | OtherItem

  datatype HeaderEntry = HeaderEntry(name: string, item: Item)

  datatype File = File(header: seq<HeaderEntry>, data: seq<Byte>)

  // ---------------------------------------------------------------- shapes and types

  function Width(dtype: string): Option<nat> {
    if dtype == "f32" || dtype == "i32" then Some(4)
    else if dtype == "f16" || dtype == "bf16" then Some(2)
    else if dtype == "u8" then Some(1)
    else None
  }

  /** `safetensors_dtype`. */
  function Tag(dtype: string): Option<string> {
    if dtype == "f32" then Some("F32")
    else if dtype == "f16" then Some("F16")
    else if dtype == "bf16" then Some("BF16")
    else if dtype == "i32" then Some("I32")
    else if dtype == "u8" then Some("U8")
    else None
  }

  /** `knolo_dtype`. */
  function Untag(tag: string): Option<string> {
    if tag == "F32" then Some("f32")
    else if tag == "F16" then Some("f16")
    else if tag == "BF16" then Some("bf16")
    else if tag == "I32" then Some("i32")
    else if tag == "U8" then Some("u8")
    else None
  }

  lemma TagsAreInverse(dtype: string)
    ensures Tag(dtype).Some? <==> Width(dtype).Some?
    ensures Tag(dtype).Some? ==> Untag(Tag(dtype).value) == Some(dtype)
  {
  }

  function ProductFrom(product: nat, shape: seq<nat>): Result<nat, Error>
    decreases |shape|
  {
    if shape == [] then Ok(product)
    else if product * shape[0] >= TWO_64 then Err(Overflow)
    else ProductFrom(product * shape[0], shape[1..])
  }

  function ByteLength(shape: seq<nat>, dtype: string): (r: Result<nat, Error>)
    ensures r.Ok? ==> Width(dtype).Some? && r.value < TWO_64
  {
    match Width(dtype)
    case None => Err(UnsupportedDtype)
    case Some(width) =>
      var product :- ProductFrom(1, shape);
      if product * width >= TWO_64 then Err(Overflow) else Ok(product * width)
  }

  predicate NameChar(c: char) {
    'a' <= c <= 'z' || 'A' <= c <= 'Z' || '0' <= c <= '9' || c == '.' || c == '_' || c == '-'
  }

  predicate ValidName(name: string) {
    && 1 <= |name| <= 256
    && (forall i :: 0 <= i < |name| ==> NameChar(name[i]))
    && (forall i :: 0 <= i < |name| - 1 ==> !(name[i] == '.' && name[i + 1] == '.'))
  }

  const PRECISIONS: set<string> := {"bf16", "f16", "f32", "i32", "q4_k_m", "q5_k_m", "q6_k", "q8_0", "u8"}

  /** `TensorSpecV1::validate`. */
  predicate ValidSpec(name: string, dtype: string, shape: seq<nat>) {
    && ValidName(name)
    && dtype in PRECISIONS
    && 1 <= |shape| <= 8
    && 0 !in shape
    && ProductFrom(1, shape).Ok?
  }

  // ---------------------------------------------------------------- writing

  function NameKey(t: Tensor): seq<Byte> {
    Utf8.Encode(t.name)
  }

  /** What the type holds: dimensions are 32-bit. */
  predicate Sized(t: Tensor) {
    forall dim <- t.shape :: dim < U32_LIMIT
  }

  function CheckTensor(t: Tensor, seen: set<string>): Outcome<Error> {
    if t.name in seen then Fail(DuplicateTensor)
    else if !ValidSpec(t.name, t.dtype, t.shape) then Fail(InvalidSpec)
    else
      match ByteLength(t.shape, t.dtype)
      case Err(error) => Fail(error)
      case Ok(nbytes) => if |t.bytes| != nbytes then Fail(LengthMismatch) else Pass
  }

  /** One tensor placed after `cursor` bytes. */
  function ViewAt(t: Tensor, cursor: nat): View {
    View(t.name, t.dtype, t.shape, Align8(cursor), Align8(cursor) + |t.bytes|)
  }

  function EntryOf(v: View): HeaderEntry {
    HeaderEntry(v.name, TensorItem(if Tag(v.dtype).Some? then Tag(v.dtype).value else "", v.shape, v.start, v.end))
  }

  function EncodeFrom(ts: seq<Tensor>, seen: set<string>, data: seq<Byte>): Result<File, Error> {
    if ts == [] then Ok(File([], data))
    else
      var t := ts[0];
      match CheckTensor(t, seen)
      case Fail(error) => Err(error)
      case Pass =>
        var start :- CheckedAlign8(|data|);
        if start + |t.bytes| >= TWO_64 then Err(Overflow)
        else
          var rest :- EncodeFrom(ts[1..], seen + {t.name}, data + Zeros(start - |data|) + t.bytes);
          Ok(File([EntryOf(ViewAt(t, |data|))] + rest.header, rest.data))
  }

  /** `encode_safetensors`. */
  function Encode(ts: seq<Tensor>): Result<File, Error> {
    if ts == [] || |ts| > MAX_TENSORS then Err(EmptyOrTooMany)
    else EncodeFrom(Sort(ts, NameKey), {}, [])
  }

  // ---------------------------------------------------------------- reading

  function ParseMetadata(item: Item): Outcome<Error> {
    if item.TextItems? && |item.texts| <= 64
       && forall t <- item.texts :: |Utf8.Encode(t.0)| <= 256 && |Utf8.Encode(t.1)| <= 4096
    then Pass else Fail(MetadataInvalid)
  }

  function ParseTensor(name: string, item: Item): Result<View, Error> {
    if !item.TensorItem? then Err(EntryMalformed)
    else
      match Untag(item.tag)
      case None => Err(UnsupportedDtype)
      case Some(dtype) =>
        if !(1 <= |item.shape| <= 8) || exists dim <- item.shape :: dim == 0 || dim >= U32_LIMIT then Err(ShapeInvalid)
        else if item.start >= TWO_64 || item.end >= TWO_64 then Err(EntryMalformed)
        else if item.end < item.start then Err(OffsetsReversed)
        else if !ValidSpec(name, dtype, item.shape) then Err(InvalidSpec)
        else
          var nbytes :- ByteLength(item.shape, dtype);
          if item.end - item.start != nbytes then Err(LengthMismatch)
          else Ok(View(name, dtype, item.shape, item.start, item.end))
  }

  function ParseEntries(header: seq<HeaderEntry>): Result<seq<View>, Error> {
    if header == [] then Ok([])
    else if header[0].name == METADATA then
      match ParseMetadata(header[0].item)
      case Fail(error) => Err(error)
      case Pass => ParseEntries(header[1..])
    else
      var first :- ParseTensor(header[0].name, header[0].item);
      var rest :- ParseEntries(header[1..]);
      Ok([first] + rest)
  }

  /** `parse_safetensors_bytes`, from the decoded header on. */
  function Parse(f: File): Result<seq<View>, Error> {
    var views :- ParseEntries(f.header);
    if views == [] || |views| > MAX_TENSORS then Err(EmptyOrTooMany)
    else
      match CheckLayout(views, |f.data|)
      case Fail(error) => Err(error)
      case Pass =>
        match RejectNonzeroSlack(views, f.data)
        case Fail(error) => Err(error)
        case Pass => Ok(views)
  }

  lemma ParsedMeasured(name: string, item: Item)
    ensures ParseTensor(name, item).Ok? ==> Measured(ParseTensor(name, item).value)
  {
    hide ValidSpec, ByteLength, Untag;
  }

  lemma {:induction false} ParsedEntriesMeasured(header: seq<HeaderEntry>)
    requires ParseEntries(header).Ok?
    ensures forall v <- ParseEntries(header).value :: Measured(v)
  {
    hide ParseTensor, Measured, ParseMetadata;
    if header != [] {
      ParsedEntriesMeasured(header[1..]);
      if header[0].name != METADATA {
        ParsedMeasured(header[0].name, header[0].item);
      }
    }
  }

  // ---------------------------------------------------------------- what was written

  function ViewsFrom(ts: seq<Tensor>, cursor: nat): (vs: seq<View>)
    ensures |vs| == |ts|
    ensures forall i :: 0 <= i < |ts| ==> vs[i].name == ts[i].name
  {
    if ts == [] then [] else [ViewAt(ts[0], cursor)] + ViewsFrom(ts[1..], Align8(cursor) + |ts[0].bytes|)
  }

  lemma FirstView(ts: seq<Tensor>, cursor: nat)
    requires ts != []
    ensures var vs := ViewsFrom(ts, cursor);
            vs[0] == ViewAt(ts[0], cursor) && vs[1..] == ViewsFrom(ts[1..], Align8(cursor) + |ts[0].bytes|)
  {
  }

  function Laid(ts: seq<Tensor>, data: seq<Byte>): (r: seq<Byte>)
    ensures data <= r
  {
    if ts == [] then data else Laid(ts[1..], data + Zeros(Align8(|data|) - |data|) + ts[0].bytes)
  }

  function EntriesOf(vs: seq<View>): (r: seq<HeaderEntry>)
    ensures |r| == |vs|
  {
    if vs == [] then [] else [EntryOf(vs[0])] + EntriesOf(vs[1..])
  }

  /** Every tensor passed its checks and its view is a 64-bit range. */
  ghost predicate Written(ts: seq<Tensor>, cursor: nat) {
    if ts == [] then true
    else
      && CheckTensor(ts[0], {}).Pass?
      && Align8(cursor) + |ts[0].bytes| < TWO_64
      && Written(ts[1..], Align8(cursor) + |ts[0].bytes|)
  }

  lemma FreshNames(t: Tensor, seen: set<string>)
    ensures CheckTensor(t, seen).Pass? ==> t.name !in seen && CheckTensor(t, {}).Pass?
  {
    hide ValidSpec, ByteLength;
  }

  lemma {:induction false} EncodeFromMeaning(ts: seq<Tensor>, seen: set<string>, data: seq<Byte>)
    requires EncodeFrom(ts, seen, data).Ok?
    ensures Written(ts, |data|)
    ensures EncodeFrom(ts, seen, data).value == File(EntriesOf(ViewsFrom(ts, |data|)), Laid(ts, data))
    ensures forall i :: 0 <= i < |ts| ==> ts[i].name !in seen
    ensures DistinctBy(ts, NameKey)
  {
    hide CheckTensor, EntryOf, Utf8.Encode, ViewsFrom, ViewAt, AllZero;
    if ts != [] {
      var next := data + Zeros(Align8(|data|) - |data|) + ts[0].bytes;
      EncodeFromMeaning(ts[1..], seen + {ts[0].name}, next);
      FirstView(ts, |data|);
      FreshNames(ts[0], seen);
      forall i, j | 0 <= i < j < |ts|
        ensures NameKey(ts[i]) != NameKey(ts[j])
      {
        assert ts[j] == ts[1..][j - 1];
        if i > 0 {
          assert ts[i] == ts[1..][i - 1];
        } else if NameKey(ts[0]) == NameKey(ts[j]) {
          Utf8.EncodeInjective(ts[0].name, ts[j].name);
        }
      }
      forall i | 0 <= i < |ts|
        ensures ts[i].name !in seen
      {
        if i > 0 {
          assert ts[i] == ts[1..][i - 1];
        }
      }
    }
  }

  lemma {:induction false} ViewsPacked(ts: seq<Tensor>, data: seq<Byte>)
    requires Written(ts, |data|)
    ensures Packed(ViewsFrom(ts, |data|), |data|, |Laid(ts, data)|)
    ensures forall v <- ViewsFrom(ts, |data|) :: Measured(v)
  {
    hide CheckTensor;
    if ts != [] {
      var next := data + Zeros(Align8(|data|) - |data|) + ts[0].bytes;
      ViewsPacked(ts[1..], next);
      var vs := ViewsFrom(ts, |data|);
      assert vs[1..] == ViewsFrom(ts[1..], |next|);
    }
  }

  lemma SliceOfPrefix(a: seq<Byte>, b: seq<Byte>, r: seq<Byte>)
    requires a + b <= r
    ensures |a| + |b| <= |r| && r[|a|..|a| + |b|] == b
  {
    assert r[..|a + b|] == a + b;
    assert r[|a|..|a| + |b|] == (a + b)[|a|..];
  }

  /** The bytes of every tensor stand where its view says. */
  lemma {:induction false} ViewsHoldBytes(ts: seq<Tensor>, data: seq<Byte>, i: nat)
    requires i < |ts|
    ensures var v := ViewsFrom(ts, |data|)[i];
            v.start <= v.end <= |Laid(ts, data)| && Laid(ts, data)[v.start..v.end] == ts[i].bytes
  {
    hide ViewsFrom, AllZero, Align8;
    FirstView(ts, |data|);
    var padded := data + Zeros(Align8(|data|) - |data|);
    if i == 0 {
      SliceOfPrefix(padded, ts[0].bytes, Laid(ts, data));
    } else {
      var vs := ViewsFrom(ts, |data|);
      assert vs[i] == vs[1..][i - 1];
      ViewsHoldBytes(ts[1..], padded + ts[0].bytes, i - 1);
    }
  }

  lemma PaddingAt(data: seq<Byte>, t: Tensor, i: nat)
    requires |data| <= i < Align8(|data|)
    ensures (data + Zeros(Align8(|data|) - |data|) + t.bytes)[i] == 0
  {
  }

  /** What no tensor covers was written as zero. */
  lemma {:induction false} LaidSlackIsZero(ts: seq<Tensor>, data: seq<Byte>, i: nat)
    requires |data| <= i < |Laid(ts, data)| && !InTensor(ViewsFrom(ts, |data|), i)
    ensures Laid(ts, data)[i] == 0
  {
    hide ViewsFrom, AllZero, Align8;
    var start := Align8(|data|);
    var next := data + Zeros(start - |data|) + ts[0].bytes;
    var vs := ViewsFrom(ts, |data|);
    FirstView(ts, |data|);
    assert vs[0] in vs && vs[0].start == start && vs[0].end == |next|;
    if i < |next| {
      PaddingAt(data, ts[0], i);
      assert Laid(ts, data)[i] == next[i];
    } else {
      assert forall v <- vs[1..] :: v in vs;
      LaidSlackIsZero(ts[1..], next, i);
    }
  }

  lemma {:induction false} ViewsInOrder(ts: seq<Tensor>, cursor: nat, i: nat)
    requires Increasing(ts, NameKey) && i + 1 < |ts|
    ensures Precedes(ViewsFrom(ts, cursor)[i], ViewsFrom(ts, cursor)[i + 1])
  {
    hide Utf8.Encode, Less, ViewsFrom;
    var next := Align8(cursor) + |ts[0].bytes|;
    var vs := ViewsFrom(ts, cursor);
    FirstView(ts, cursor);
    if i == 0 {
      FirstView(ts[1..], next);
      assert vs[1] == vs[1..][0];
      assert Less(NameKey(ts[0]), NameKey(ts[1]));
    } else {
      ViewsInOrder(ts[1..], next, i - 1);
      assert vs[i] == vs[1..][i - 1] && vs[i + 1] == vs[1..][i];
    }
  }

  lemma CheckedParses(t: Tensor, cursor: nat)
    requires Sized(t) && CheckTensor(t, {}).Pass? && Align8(cursor) + |t.bytes| < TWO_64
    ensures var e := EntryOf(ViewAt(t, cursor));
            ParseTensor(e.name, e.item) == Ok(ViewAt(t, cursor))
  {
    hide ValidName, ProductFrom, Width, Untag, Tag;
    TagsAreInverse(t.dtype);
  }

  lemma EntryKeepsName(v: View)
    ensures EntryOf(v).name == v.name && EntryOf(v).item.TensorItem?
  {
  }

  ghost predicate UsesMetadataName(ts: seq<Tensor>) {
    exists t <- ts :: t.name == METADATA
  }

  lemma {:induction false} EntriesParse(ts: seq<Tensor>, cursor: nat)
    requires (forall t <- ts :: Sized(t)) && Written(ts, cursor)
    ensures ParseEntries(EntriesOf(ViewsFrom(ts, cursor))).Ok? <==> !UsesMetadataName(ts)
    ensures !UsesMetadataName(ts) ==> ParseEntries(EntriesOf(ViewsFrom(ts, cursor))) == Ok(ViewsFrom(ts, cursor))
  {
    hide CheckTensor, ParseTensor, ViewsFrom, ViewAt, EntryOf, Sized;
    if ts != [] {
      assert ts[0] in ts && forall t :: t in ts <==> t == ts[0] || t in ts[1..];
      var next := Align8(cursor) + |ts[0].bytes|;
      EntriesParse(ts[1..], next);
      var vs := ViewsFrom(ts, cursor);
      FirstView(ts, cursor);
      EntryKeepsName(vs[0]);
      CheckedParses(ts[0], cursor);
      var header := EntriesOf(vs);
      assert header[0] == EntryOf(vs[0]) && header[1..] == EntriesOf(vs[1..]);
      assert vs == [vs[0]] + vs[1..];
    }
  }

  /**
   Every layout the encoder computes is accepted back, each tensor at the bytes of its
   payload, unless a tensor is named like the metadata key: that name is valid for a tensor,
   and such a file is always refused.
   */
  lemma EncodedParses(ts: seq<Tensor>)
    requires (forall t <- ts :: Sized(t)) && Encode(ts).Ok?
    ensures var f := Encode(ts).value;
            var ordered := Sort(ts, NameKey);
            var views := ViewsFrom(ordered, 0);
            && CheckLayout(views, |f.data|).Pass?
            && RejectNonzeroSlack(views, f.data).Pass?
            && (Parse(f).Ok? <==> !UsesMetadataName(ts))
            && (Parse(f).Ok? ==> Parse(f).value == views)
            && forall i :: 0 <= i < |ordered| ==>
                 views[i].start <= views[i].end <= |f.data| && f.data[views[i].start..views[i].end] == ordered[i].bytes
  {
    hide Sort, EncodeFrom, Written, Packed, CheckLayout, RejectNonzeroSlack, Sized, InStartOrder, ViewsFrom, Laid,
      EntriesOf, ParseEntries;
    var ordered := Sort(ts, NameKey);
    SortKeeps(ts, NameKey);
    SameMembers(ordered, ts);
    EncodeFromMeaning(ordered, {}, []);
    ViewsPacked(ordered, []);
    var f, views := Encode(ts).value, ViewsFrom(ordered, 0);
    SortAscending(ts, NameKey);
    AscendingDistinct(ordered, NameKey);
    forall i | 0 <= i < |views| - 1
      ensures Precedes(views[i], views[i + 1])
    {
      ViewsInOrder(ordered, 0, i);
    }
    OrderedStays(views);
    CheckLayoutMeaning(views, |f.data|);
    forall i | 0 <= i < |f.data| && !InTensor(views, i)
      ensures f.data[i] == 0
    {
      LaidSlackIsZero(ordered, [], i);
    }
    SlackCheckMeaning(views, f.data);
    EntriesParse(ordered, 0);
    forall i | 0 <= i < |ordered|
      ensures views[i].start <= views[i].end <= |f.data| && f.data[views[i].start..views[i].end] == ordered[i].bytes
    {
      ViewsHoldBytes(ordered, [], i);
    }
  }

  /** The concrete name for which the round trip fails. */
  lemma MetadataTensorIsRefused()
    ensures var t := Tensor(METADATA, "u8", [1], [7]);
            Encode([t]).Ok? && Parse(Encode([t]).value) == Err(MetadataInvalid)
  {
    hide EntryOf, Sort, ParseEntries, EncodeFrom;
    var t := Tensor(METADATA, "u8", [1], [7]);
    SortOne(t);
    assert ProductFrom(1, [1]) == Ok(1) by {
      assert ProductFrom(1, [1][1..]) == Ok(1);
    }
    assert CheckTensor(t, {}).Pass?;
    EncodeOne(t);
    EntryKeepsName(ViewAt(t, 0));
    var f := Encode([t]).value;
    assert f.header == [EntryOf(ViewAt(t, 0))];
    TensorIsNoMetadata(f.header);
  }

  lemma SortOne(t: Tensor)
    ensures Sort([t], NameKey) == [t]
  {
    assert Sort([t][1..], NameKey) == [];
  }

  lemma TensorIsNoMetadata(header: seq<HeaderEntry>)
    requires header != [] && header[0].name == METADATA && header[0].item.TensorItem?
    ensures ParseEntries(header) == Err(MetadataInvalid)
  {
  }

  lemma EncodeOne(t: Tensor)
    requires CheckTensor(t, {}).Pass? && |t.bytes| < TWO_64
    ensures EncodeFrom([t], {}, []) == Ok(File([EntryOf(ViewAt(t, 0))], t.bytes))
  {
    hide CheckTensor, EntryOf, ViewAt;
    var ts := [t];
    assert ts[0] == t && ts[1..] == [];
    var data: seq<Byte> := [];
    assert data + Zeros(0) + t.bytes == t.bytes;
    var e := EntryOf(ViewAt(t, 0));
    assert [e] + [] == [e];
    assert EncodeFrom(ts[1..], {} + {t.name}, t.bytes) == Ok(File([], t.bytes));
  }

  /**
   The header and the tensors determine the data: two accepted files with one header whose
   tensors hold the same bytes differ by fewer than eight trailing zeros.
   */
  lemma NoHiddenWeightBytes(header: seq<HeaderEntry>, a: seq<Byte>, b: seq<Byte>)
    requires Parse(File(header, a)).Ok? && Parse(File(header, b)).Ok? && |a| <= |b|
    requires forall v <- ParseEntries(header).value :: v.start <= v.end <= |a| && a[v.start..v.end] == b[v.start..v.end]
    ensures b == a + Zeros(|b| - |a|) && |b| - |a| < 8
  {
    hide ParseEntries, CheckLayout, RejectNonzeroSlack, InStartOrder, Packed;
    var views := ParseEntries(header).value;
    ParsedEntriesMeasured(header);
    SlackCheckMeaning(views, a);
    SlackCheckMeaning(views, b);
    CheckLayoutMeaning(views, |a|);
    CheckLayoutMeaning(views, |b|);
    PackedLengths(InStartOrder(views), 0, |a|, |b|);
    forall i | 0 <= i < |b|
      ensures b[i] == (a + Zeros(|b| - |a|))[i]
    {
      if InTensor(views, i) {
        var v :| v in views && v.start <= i < v.end;
        assert a[v.start..v.end][i - v.start] == a[i] && b[v.start..v.end][i - v.start] == b[i];
      }
    }
  }

  lemma {:induction false} PackedLengths(vs: seq<View>, cursor: nat, m: nat, n: nat)
    requires Packed(vs, cursor, m) && Packed(vs, cursor, n)
    ensures m - 8 < n < m + 8
  {
    if vs != [] {
      PackedLengths(vs[1..], vs[0].end, m, n);
    }
  }

  // ---------------------------------------------------------------- as it runs

  function PrependHeader(header: seq<HeaderEntry>, rest: Result<File, Error>): Result<File, Error> {
    match rest
    case Ok(f) => Ok(File(header + f.header, f.data))
    case Err(error) => Err(error)
  }

  lemma EncodeStep(header: seq<HeaderEntry>, ts: seq<Tensor>, seen: set<string>, data: seq<Byte>)
    requires ts != []
    ensures var t := ts[0];
            var all := PrependHeader(header, EncodeFrom(ts, seen, data));
            && (CheckTensor(t, seen).Fail? ==> all == Err(CheckTensor(t, seen).error))
            && (CheckTensor(t, seen).Pass? && Align8(|data|) + |t.bytes| >= TWO_64 ==> all == Err(Overflow))
            && (CheckTensor(t, seen).Pass? && Align8(|data|) + |t.bytes| < TWO_64 ==>
                  all == PrependHeader(header + [EntryOf(ViewAt(t, |data|))],
                                       EncodeFrom(ts[1..], seen + {t.name},
                                           data + Zeros(Align8(|data|) - |data|) + t.bytes)))
  {
    hide CheckTensor, EntryOf, ViewAt, Align8, AllZero;
    var next := EncodeFrom(ts[1..], seen + {ts[0].name}, data + Zeros(Align8(|data|) - |data|) + ts[0].bytes);
    if next.Ok? {
      ConcatAssociative(header, [EntryOf(ViewAt(ts[0], |data|))], next.value.header);
    }
  }

  lemma EncodeDone(header: seq<HeaderEntry>, seen: set<string>, data: seq<Byte>)
    ensures PrependHeader(header, EncodeFrom([], seen, data)) == Ok(File(header, data))
    ensures forall r :: PrependHeader([], r) == r
  {
    assert header + [] == header;
    forall r: Result<File, Error>
      ensures PrependHeader([], r) == r
    {
      if r.Ok? {
        assert [] + r.value.header == r.value.header;
      }
    }
  }

  /** `encode_safetensors`: the data buffer grows tensor by tensor, padded to eight each time. */
  method EncodeSafetensors(ts: seq<Tensor>) returns (r: Result<File, Error>)
    ensures r == Encode(ts)
  {
    hide Sort, EncodeFrom, PrependHeader, EntryOf, ViewAt, CheckTensor, AllZero;
    if ts == [] || |ts| > MAX_TENSORS {
      return Err(EmptyOrTooMany);
    }
    var ordered := Sort(ts, NameKey);
    var data := new Buffer();
    var header: seq<HeaderEntry> := [];
    var seen: set<string> := {};
    EncodeDone([], {}, []);
    assert ordered[0..] == ordered;
    for i := 0 to |ordered|
      invariant fresh(data)
      invariant Encode(ts) == PrependHeader(header, EncodeFrom(ordered[i..], seen, data.data))
    {
      assert ordered[i..][0] == ordered[i] && ordered[i..][1..] == ordered[i + 1..];
      EncodeStep(header, ordered[i..], seen, data.data);
      var t := ordered[i];
      var checked := CheckTensor(t, seen);
      if checked.Fail? {
        return Err(checked.error);
      }
      var start := Align8(|data.data|);
      if start + |t.bytes| >= TWO_64 {
        return Err(Overflow);
      }
      header := header + [EntryOf(ViewAt(t, |data.data|))];
      seen := seen + {t.name};
      data.Extend(Zeros(start - |data.data|));
      data.Extend(t.bytes);
    }
    assert ordered[|ordered|..] == [];
    EncodeDone(header, seen, data.data);
    return Ok(File(header, data.data));
  }
}
