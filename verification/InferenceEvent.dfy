/** One journal event and its canonical bytes. */
module InferenceEvent {
  /*
   One journal event and its canonical bytes: `InferenceEventV1::to_cbor`, `from_cbor`,
   `to_bytes` and `root`.
   */
  import opened Wrappers
  import opened Bytes
  import opened Cbor
  import opened Digests
  import Utf8

  const KIND: string := "knolo.infer.inference-event"
  const U32_LIMIT: nat := 0x1_0000_0000

  datatype Event = Event(
    requestId: string,
    attempt: nat,
    name: string,
    previous: Option<Digest>,
    payload: Digest,
    extensions: seq<Entry>)

  predicate RequestIdChar(c: char) {
    'a' <= c <= 'z' || 'A' <= c <= 'Z' || '0' <= c <= '9' || c == '_' || c == '-'
  }

  predicate ValidRequestId(id: string) {
    1 <= |id| <= 64 && forall i :: 0 <= i < |id| ==> RequestIdChar(id[i])
  }

  predicate KnownName(name: string) {
    name in {"accepted", "cancelled", "completed", "failed", "prefill", "token"}
  }

  predicate Terminal(name: string) {
    name == "completed" || name == "failed" || name == "cancelled"
  }

  /** `validate`. */
  predicate Valid(e: Event) {
    ValidRequestId(e.requestId) && KnownName(e.name) && e.attempt <= 16
  }

  /** A dot-separated extension key; segments after the first may hold hyphens. */
  predicate ExtensionSegments(key: string, start: bool, hyphens: bool) {
    if key == [] then !start && hyphens
    else if key[0] == '.' then !start && ExtensionSegments(key[1..], true, true)
    else if 'a' <= key[0] <= 'z' then ExtensionSegments(key[1..], false, hyphens)
    else !start && ('0' <= key[0] <= '9' || (hyphens && key[0] == '-')) && ExtensionSegments(key[1..], false, hyphens)
  }

  predicate ValidExtensionKey(key: string) {
    |Utf8.Encode(key)| <= 64 && ExtensionSegments(key, true, false)
  }

  predicate ValidExtensions(es: seq<Entry>) {
    |es| <= 32 && forall e <- es :: ValidExtensionKey(e.key)
  }

  // ---------------------------------------------------------------- encoding

  /** The fields in key order; `previousEventRoot` is left out of the first event. */
  function Fields(e: Event): seq<Entry> {
    [Entry("attempt", Integer(e.attempt)),
     Entry("extensions", Map(e.extensions)),
     Entry("kind", Text(KIND)),
     Entry("name", Text(e.name)),
     Entry("payloadRoot", Text(e.payload))]
    + (if e.previous.Some? then [Entry("previousEventRoot", Text(e.previous.value))] else [])
    + [Entry("requestId", Text(e.requestId)),
       Entry("version", Integer(1))]
  }

  function ToCbor(e: Event): Value {
    Map(Fields(e))
  }

  function EventBytes(e: Event): seq<Byte> {
    Encode(ToCbor(e))
  }

  /** What the event root hashes: the event and, once more, the root before it. */
  function RootInput(e: Event): seq<Byte> {
    Encode(Map([Entry("event", ToCbor(e)),
                Entry("previousEventRoot", if e.previous.Some? then Text(e.previous.value) else Null)]))
  }

  function Root(h: Hash, e: Event): Digest {
    h(RootInput(e))
  }

  // ---------------------------------------------------------------- decoding

  function Lookup(es: seq<Entry>, key: string): Option<Value> {
    if es == [] then None
    else if es[0].key == key then Some(es[0].value)
    else Lookup(es[1..], key)
  }

  predicate KnownField(key: string) {
    key in {"attempt", "extensions", "kind", "name", "payloadRoot", "previousEventRoot", "requestId", "version"}
  }

  function AsDigest(v: Option<Value>): Option<Digest> {
    if v.Some? && v.value.Text? && ValidDigest(v.value.text) then Some(v.value.text) else None
  }

  /** `from_cbor`: every field of its type, no field unknown, and the event valid. */
  function FromCbor(v: Value): Option<Event> {
    if !v.Map? || !DistinctKeys(v.entries) || exists e <- v.entries :: !KnownField(e.key) then None
    else
      var es := v.entries;
      var kind, version, attempt := Lookup(es, "kind"), Lookup(es, "version"), Lookup(es, "attempt");
      var extensions, name := Lookup(es, "extensions"), Lookup(es, "name");
      var payload, previous := Lookup(es, "payloadRoot"), Lookup(es, "previousEventRoot");
      var requestId := Lookup(es, "requestId");
      if kind != Some(Text(KIND)) || version != Some(Integer(1)) then None
      else if !(attempt.Some? && attempt.value.Integer? && 0 <= attempt.value.n < U32_LIMIT) then None
      else if !(extensions.Some? && extensions.value.Map? && ValidExtensions(extensions.value.entries)) then None
      else if !(name.Some? && name.value.Text? && requestId.Some? && requestId.value.Text?) then None
      else if AsDigest(payload).None? || (previous.Some? && AsDigest(previous).None?) then None
      else
        var e := Event(requestId.value.text, attempt.value.n, name.value.text,
                       AsDigest(previous), AsDigest(payload).value, extensions.value.entries);
        if Valid(e) then Some(e) else None
  }

  /** What `read_chain` does with one file: decode, read the fields, compare the re-encoding. */
  function ParseEvent(bytes: seq<Byte>): (r: Option<Event>)
    ensures r.Some? ==> Valid(r.value) && EventBytes(r.value) == bytes
  {
    match Decode(bytes)
    case Err(_) => None
    case Ok(v) =>
      match FromCbor(v)
      case None => None
      case Some(e) => if EventBytes(e) != bytes then None else Some(e)
  }

  // ---------------------------------------------------------------- round trip

  lemma LessByFirstChar(s: string, t: string)
    requires s != [] && t != [] && s[0] < t[0] && t[0] as int < 0x80
    ensures Less(Utf8.Encode(s), Utf8.Encode(t))
  {
  }

  lemma KeysInOrder()
    ensures Less(Utf8.Encode("attempt"), Utf8.Encode("extensions"))
    ensures Less(Utf8.Encode("extensions"), Utf8.Encode("kind"))
    ensures Less(Utf8.Encode("kind"), Utf8.Encode("name"))
    ensures Less(Utf8.Encode("name"), Utf8.Encode("payloadRoot"))
    ensures Less(Utf8.Encode("payloadRoot"), Utf8.Encode("previousEventRoot"))
    ensures Less(Utf8.Encode("payloadRoot"), Utf8.Encode("requestId"))
    ensures Less(Utf8.Encode("previousEventRoot"), Utf8.Encode("requestId"))
    ensures Less(Utf8.Encode("requestId"), Utf8.Encode("version"))
  {
    hide Utf8.Encode, Less;
    LessByFirstChar("attempt", "extensions");
    LessByFirstChar("extensions", "kind");
    LessByFirstChar("kind", "name");
    LessByFirstChar("name", "payloadRoot");
    LessByFirstChar("payloadRoot", "requestId");
    LessByFirstChar("previousEventRoot", "requestId");
    LessByFirstChar("requestId", "version");
    LessAfterFirstChar('p', "ayloadRoot", "reviousEventRoot");
    assert ['p'] + "ayloadRoot" == "payloadRoot" && ['p'] + "reviousEventRoot" == "previousEventRoot";
  }

  lemma LessAfterFirstChar(c: char, s: string, t: string)
    requires s != [] && t != [] && c as int < 0x80 && s[0] < t[0] && t[0] as int < 0x80
    ensures Less(Utf8.Encode([c] + s), Utf8.Encode([c] + t))
  {
    LessByFirstChar(s, t);
    assert ([c] + s)[1..] == s && ([c] + t)[1..] == t;
    assert Utf8.Encode([c] + s)[1..] == Utf8.Encode(s) && Utf8.Encode([c] + t)[1..] == Utf8.Encode(t);
  }

  lemma {:induction false} Utf8Length(s: string)
    ensures |Utf8.Encode(s)| <= 4 * |s|
  {
    if s != [] {
      Utf8Length(s[1..]);
    }
  }

  /** A text of at most 100 characters is canonical and short. */
  lemma ShortText(s: string, depth: nat)
    requires |s| <= 100 && depth <= MAX_DEPTH
    ensures Canonical(Text(s), depth) && |EncodeText(s)| <= 410 && Encode(Text(s)) == EncodeText(s)
  {
    hide Utf8.Encode;
    Utf8Length(s);
  }

  lemma OneEntry(k: string, v: Value, es: seq<Entry>, previous: Option<string>, bound: nat)
    requires |k| <= 100 && Canonical(v, 1) && |Encode(v)| <= 410
    requires CanonicalEntries(es, 1, Some(k)) && |EncodeEntries(es)| <= bound
    requires Follows(previous, k)
    ensures CanonicalEntries([Entry(k, v)] + es, 1, previous)
    ensures |EncodeEntries([Entry(k, v)] + es)| <= bound + 820
  {
    hide Utf8.Encode, Encode, Follows;
    ShortText(k, 1);
    var entries := [Entry(k, v)] + es;
    assert entries[0] == Entry(k, v) && entries[1..] == es;
  }

  lemma FieldsEncode(e: Event)
    requires Valid(e) && e.extensions == []
    ensures CanonicalEntries(Fields(e), 1, None) && |EncodeEntries(Fields(e))| <= 6560
  {
    hide Utf8.Encode, CanonicalEntries, EncodeEntries, Less, EncodeText, Encode, Canonical;
    KeysInOrder();
    ShortText(KIND, 1);
    ShortText(e.name, 1);
    ShortText(e.payload, 1);
    ShortText(e.requestId, 1);
    SmallValues(e.attempt);
    var version := [Entry("version", Integer(1))];
    assert CanonicalEntries([], 1, Some("version")) && |EncodeEntries([])| == 0 by {
      NoEntries("version");
    }
    OneEntry("version", Integer(1), [], Some("requestId"), 0);
    assert [Entry("version", Integer(1))] + [] == version;
    var tail := [Entry("requestId", Text(e.requestId))] + version;
    var before := if e.previous.Some? then Some("previousEventRoot") else Some("payloadRoot");
    OneEntry("requestId", Text(e.requestId), version, before, 820);
    var middle := tail;
    if e.previous.Some? {
      ShortText(e.previous.value, 1);
      OneEntry("previousEventRoot", Text(e.previous.value), tail, Some("payloadRoot"), 1640);
      middle := [Entry("previousEventRoot", Text(e.previous.value))] + tail;
    }
    OneEntry("payloadRoot", Text(e.payload), middle, Some("name"), 2460);
    var m1 := [Entry("payloadRoot", Text(e.payload))] + middle;
    OneEntry("name", Text(e.name), m1, Some("kind"), 3280);
    var m2 := [Entry("name", Text(e.name))] + m1;
    OneEntry("kind", Text(KIND), m2, Some("extensions"), 4100);
    var m3 := [Entry("kind", Text(KIND))] + m2;
    OneEntry("extensions", Map([]), m3, Some("attempt"), 4920);
    var m4 := [Entry("extensions", Map([]))] + m3;
    OneEntry("attempt", Integer(e.attempt), m4, None, 5740);
    assert Fields(e) == [Entry("attempt", Integer(e.attempt))] + m4;
  }

  lemma NoEntries(key: string)
    ensures CanonicalEntries([], 1, Some(key)) && |EncodeEntries([])| == 0
  {
  }

  lemma SmallValues(attempt: nat)
    requires attempt <= 16
    ensures Canonical(Integer(attempt), 1) && |Encode(Integer(attempt))| <= 410
    ensures Canonical(Integer(1), 1) && |Encode(Integer(1))| <= 410
    ensures Canonical(Map([]), 1) && |Encode(Map([]))| <= 410
  {
    NoEntries("");
  }

  lemma {:induction false} LookupFirst(es: seq<Entry>, i: nat)
    requires i < |es| && forall j :: 0 <= j < i ==> es[j].key != es[i].key
    ensures Lookup(es, es[i].key) == Some(es[i].value)
  {
    if i > 0 {
      LookupFirst(es[1..], i - 1);
    }
  }

  lemma {:induction false} LookupNothing(es: seq<Entry>, key: string)
    requires forall j :: 0 <= j < |es| ==> es[j].key != key
    ensures Lookup(es, key) == None
  {
    if es != [] {
      LookupNothing(es[1..], key);
    }
  }

  lemma LookupFixedFields(e: Event)
    requires DistinctKeys(Fields(e))
    ensures var es := Fields(e);
            && Lookup(es, "attempt") == Some(Integer(e.attempt))
            && Lookup(es, "extensions") == Some(Map(e.extensions))
            && Lookup(es, "kind") == Some(Text(KIND))
            && Lookup(es, "name") == Some(Text(e.name))
            && Lookup(es, "payloadRoot") == Some(Text(e.payload))
  {
    hide Lookup, DistinctKeys;
    var es := Fields(e);
    LookupField(es, 0, "attempt", Integer(e.attempt));
    LookupField(es, 1, "extensions", Map(e.extensions));
    LookupField(es, 2, "kind", Text(KIND));
    LookupField(es, 3, "name", Text(e.name));
    LookupField(es, 4, "payloadRoot", Text(e.payload));
  }

  lemma LookupLastFields(e: Event)
    requires DistinctKeys(Fields(e))
    ensures var es := Fields(e);
            && Lookup(es, "previousEventRoot") == (if e.previous.Some? then Some(Text(e.previous.value)) else None)
            && Lookup(es, "requestId") == Some(Text(e.requestId))
            && Lookup(es, "version") == Some(Integer(1))
  {
    hide Lookup, DistinctKeys;
    var es := Fields(e);
    if e.previous.Some? {
      LookupField(es, 5, "previousEventRoot", Text(e.previous.value));
      LookupField(es, 6, "requestId", Text(e.requestId));
      LookupField(es, 7, "version", Integer(1));
    } else {
      LookupField(es, 5, "requestId", Text(e.requestId));
      LookupField(es, 6, "version", Integer(1));
      assert forall j :: 0 <= j < |es| ==> |es[j].key| < 17;
      LookupNothing(es, "previousEventRoot");
    }
  }

  lemma FromToCbor(e: Event)
    requires Valid(e) && ValidExtensions(e.extensions) && DistinctKeys(Fields(e))
    ensures FromCbor(ToCbor(e)) == Some(e)
  {
    hide Lookup, DistinctKeys, ValidExtensionKey, Valid, KnownField, Fields;
    FieldsKnown(e);
    LookupFixedFields(e);
    LookupLastFields(e);
    AttemptFits(e);
  }

  lemma AttemptFits(e: Event)
    requires Valid(e)
    ensures e.attempt <= 16
  {
  }

  lemma FieldsKnown(e: Event)
    ensures forall x <- Fields(e) :: KnownField(x.key)
  {
  }

  lemma LookupField(es: seq<Entry>, i: nat, key: string, value: Value)
    requires DistinctKeys(es) && i < |es| && es[i] == Entry(key, value)
    ensures Lookup(es, key) == Some(value)
  {
    LookupFirst(es, i);
  }

  /** The fields are canonical as soon as the extensions are. */
  lemma FieldsCanonical(e: Event)
    requires Valid(e) && Canonical(Map(e.extensions), 1)
    ensures CanonicalEntries(Fields(e), 1, None)
  {
    hide Utf8.Encode, CanonicalEntries, EncodeEntries, Canonical;
    var plain := e.(extensions := []);
    FieldsEncode(plain);
    var first, rest := [Entry("attempt", Integer(e.attempt))], Fields(e)[2..];
    assert Fields(plain) == first + [Entry("extensions", Map([]))] + rest;
    assert Fields(e) == first + [Entry("extensions", Map(e.extensions))] + rest;
    OtherValue(first, "extensions", Map([]), Map(e.extensions), rest, 1, None);
  }

  lemma {:induction false} LookupCanonical(es: seq<Entry>, depth: nat, previous: Option<string>, key: string)
    requires CanonicalEntries(es, depth, previous) && Lookup(es, key).Some?
    ensures Canonical(Lookup(es, key).value, depth)
  {
    hide Canonical, Utf8.Encode, Follows;
    if es[0].key != key {
      LookupCanonical(es[1..], depth, Some(es[0].key), key);
    }
  }

  /** What a decoded value says about the event read from it. */
  lemma ReadExtensions(v: Value, e: Event)
    requires Canonical(v, 0) && FromCbor(v) == Some(e)
    ensures Valid(e) && ValidExtensions(e.extensions) && Canonical(Map(e.extensions), 1)
  {
    hide CanonicalEntries, Utf8.Encode, ValidExtensions, Valid, Lookup, DistinctKeys;
    LookupCanonical(v.entries, 1, None, "extensions");
  }

  /**
   An event is read back from its bytes exactly when it is valid, its extensions are at most
   32 canonical entries under valid keys, and the bytes are within the document limit.
   */
  lemma EventRoundTrip(e: Event)
    ensures ParseEvent(EventBytes(e)) == Some(e) <==>
            && Valid(e) && ValidExtensions(e.extensions) && Canonical(Map(e.extensions), 1)
            && |EventBytes(e)| <= MAX_DOCUMENT_BYTES
  {
    hide Fields, FromCbor, CanonicalEntries, Canonical, Valid, ValidExtensions, Decode;
    var bytes := EventBytes(e);
    if Valid(e) && ValidExtensions(e.extensions) && Canonical(Map(e.extensions), 1) && |bytes| <= MAX_DOCUMENT_BYTES {
      FieldsCanonical(e);
      CanonicalKeysDistinct(Fields(e), 1, None);
      FromToCbor(e);
      FewFields(e);
      DecodeExactlyEncoding(bytes, ToCbor(e));
    }
    if ParseEvent(bytes) == Some(e) {
      var v := Decode(bytes).value;
      DecodeExactlyEncoding(bytes, v);
      ReadExtensions(v, e);
    }
  }

  lemma FewFields(e: Event)
    requires CanonicalEntries(Fields(e), 1, None)
    ensures Canonical(ToCbor(e), 0)
  {
  }

  /** In particular every event the journal appends is read back. */
  lemma PlainEventRoundTrip(e: Event)
    requires Valid(e) && e.extensions == []
    ensures ParseEvent(EventBytes(e)) == Some(e)
  {
    hide Fields, ParseEvent, CanonicalEntries;
    FieldsEncode(e);
    SmallValues(e.attempt);
    EventRoundTrip(e);
  }

  /** The bytes a root hashes hold the event's own bytes behind a fixed head. */
  lemma RootInputHoldsEvent(e: Event)
    ensures exists tail :: RootInput(e) == Head(5, 2) + (EncodeText("event") + (EventBytes(e) + tail))
  {
    hide Fields, EncodeText;
    var second := Entry("previousEventRoot", if e.previous.Some? then Text(e.previous.value) else Null);
    var first := Entry("event", ToCbor(e));
    var tail := EncodeEntries([second]);
    EncodeTwo(first, second);
    ConcatAssociative(EncodeText("event"), EventBytes(e), tail);
    assert RootInput(e) == Head(5, 2) + (EncodeText("event") + (EventBytes(e) + tail));
  }

  lemma EncodeTwo(first: Entry, second: Entry)
    ensures Encode(Map([first, second])) ==
            Head(5, 2) + (EncodeText(first.key) + Encode(first.value) + EncodeEntries([second]))
  {
    hide EncodeText, Head;
    var es := [first, second];
    assert es[0] == first && es[1..] == [second];
  }

  /** Two stored events whose roots hash the same bytes are the same event, byte for byte. */
  lemma RootInputInjective(a: seq<Byte>, b: seq<Byte>)
    requires ParseEvent(a).Some? && ParseEvent(b).Some?
    requires RootInput(ParseEvent(a).value) == RootInput(ParseEvent(b).value)
    ensures a == b
  {
    hide Fields, EncodeText, Encode, FromCbor, RootInput;
    var d, e := ParseEvent(a).value, ParseEvent(b).value;
    RootInputHoldsEvent(d);
    RootInputHoldsEvent(e);
    var s :| RootInput(d) == Head(5, 2) + (EncodeText("event") + (a + s));
    var t :| RootInput(e) == Head(5, 2) + (EncodeText("event") + (b + t));
    SplitConcat(Head(5, 2), EncodeText("event") + (a + s));
    SplitConcat(Head(5, 2), EncodeText("event") + (b + t));
    SplitConcat(EncodeText("event"), a + s);
    SplitConcat(EncodeText("event"), b + t);
    var v, w := Decode(a).value, Decode(b).value;
    DecodeExactlyEncoding(a, v);
    DecodeExactlyEncoding(b, w);
    CanonicalEncodable(v, 0);
    CanonicalEncodable(w, 0);
    EncodePrefixFree(v, s, w, t);
  }
}
