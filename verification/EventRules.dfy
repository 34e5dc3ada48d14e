/** The rules of journal events, in literal terms. */
module EventRules {
  /*
   The rules of journal events in literal terms: request ids, event names, extension keys, digests,
   the fields of an event and of the input of its root, and the names of the files in a journal.
   They are stated without the functions that the reader and the writer share.
   */
  import opened Wrappers
  import opened Bytes
  import opened Cbor
  import opened Digests
  import opened DottedText
  import opened InferenceEvent
  import opened JournalSpec
  import opened JournalRuns
  import Utf8

  // ---------------------------------------------------------------- events

  predicate IsRequestId(id: string) {
    && 1 <= |id| <= 64
    && forall c <- id :: 'a' <= c <= 'z' || 'A' <= c <= 'Z' || '0' <= c <= '9' || c == '-' || c == '_'
  }

  lemma RequestIdMeaning(id: string)
    ensures ValidRequestId(id) <==> IsRequestId(id)
  {
    if IsRequestId(id) {
      assert forall i :: 0 <= i < |id| ==> id[i] in id;
    }
  }

  const EVENT_NAMES: set<string> := {"accepted", "prefill", "token", "completed", "failed", "cancelled"}

  lemma EventMeaning(e: InferenceEvent.Event)
    ensures InferenceEvent.Valid(e) <==>
            && IsRequestId(e.requestId) && e.attempt <= 16
            && e.name in EVENT_NAMES
  {
    hide ValidRequestId, IsRequestId;
    RequestIdMeaning(e.requestId);
  }

  /** A digest is the tag of its algorithm and 64 lower-case hexadecimal digits. */
  lemma DigestMeaning(s: string)
    ensures ValidDigest(s) <==>
            exists hex :: s == "sha256-" + hex && |hex| == 64
                          && forall c <- hex :: '0' <= c <= '9' || 'a' <= c <= 'f'
  {
    if ValidDigest(s) {
      var hex := s[7..];
      assert s == "sha256-" + hex;
      assert forall c <- hex :: '0' <= c <= '9' || 'a' <= c <= 'f';
    }
    if hex :| s == "sha256-" + hex && |hex| == 64 && forall c <- hex :: '0' <= c <= '9' || 'a' <= c <= 'f' {
      assert s[..7] == "sha256-";
      assert forall i :: 7 <= i < 71 ==> s[i] == hex[i - 7] && hex[i - 7] in hex;
    }
  }

  // ---------------------------------------------------------------- extension keys

  predicate Plain(c: char) {
    'a' <= c <= 'z' || '0' <= c <= '9'
  }

  /** One part of a key; only the parts after the first may hold hyphens. */
  predicate Part(p: string, hyphens: bool) {
    p != "" && 'a' <= p[0] <= 'z' && forall c <- p :: Plain(c) || (hyphens && c == '-')
  }

  predicate Parts(parts: seq<string>) {
    |parts| >= 2 && Part(parts[0], false) && forall p <- parts[1..] :: Part(p, true)
  }

  ghost predicate IsExtensionKey(key: string) {
    |Utf8.Encode(key)| <= 64 && exists parts :: Parts(parts) && key == Dotted(parts)
  }

  /** What remains of a part that began before. */
  predicate Tail(p: string, hyphens: bool) {
    forall c <- p :: Plain(c) || (hyphens && c == '-')
  }

  lemma {:induction false} PartsOfKey(key: string, start: bool, hyphens: bool) returns (parts: seq<string>)
    requires ExtensionSegments(key, start, hyphens)
    ensures parts != [] && key == Dotted(parts) && (hyphens || |parts| >= 2)
    ensures if start then Part(parts[0], hyphens) else Tail(parts[0], hyphens)
    ensures forall p <- parts[1..] :: Part(p, true)
  {
    if key == [] {
      parts := [""];
    } else if key[0] == '.' {
      var rest := PartsOfKey(key[1..], true, true);
      parts := [""] + rest;
      assert parts[1..] == rest && rest == [rest[0]] + rest[1..];
      assert key == ['.'] + key[1..];
    } else {
      var rest := PartsOfKey(key[1..], false, hyphens);
      parts := [[key[0]] + rest[0]] + rest[1..];
      assert parts[1..] == rest[1..];
      assert key == [key[0]] + key[1..];
    }
  }

  lemma {:induction false} TailSegments(p: string, rest: string, hyphens: bool)
    requires Tail(p, hyphens)
    ensures ExtensionSegments(p + rest, false, hyphens) == ExtensionSegments(rest, false, hyphens)
  {
    var s := p + rest;
    if p == "" {
      assert s == rest;
    } else {
      assert p[0] in p && s[0] == p[0] && s[1..] == p[1..] + rest;
      assert forall c <- p[1..] :: c in p;
      TailSegments(p[1..], rest, hyphens);
    }
  }

  lemma PartSegments(p: string, rest: string, hyphens: bool)
    requires Part(p, hyphens)
    ensures ExtensionSegments(p + rest, true, hyphens) == ExtensionSegments(rest, false, hyphens)
  {
    var s := p + rest;
    assert s[0] == p[0] && s[1..] == p[1..] + rest;
    assert forall c <- p[1..] :: c in p;
    TailSegments(p[1..], rest, hyphens);
  }

  lemma {:induction false} DottedSegments(parts: seq<string>, hyphens: bool)
    requires parts != [] && Part(parts[0], hyphens) && forall p <- parts[1..] :: Part(p, true)
    ensures ExtensionSegments(Dotted(parts), true, hyphens) <==> hyphens || |parts| >= 2
  {
    if |parts| == 1 {
      assert parts[0] == parts[0] + [];
      PartSegments(parts[0], [], hyphens);
    } else {
      var rest := ['.'] + Dotted(parts[1..]);
      assert Dotted(parts) == parts[0] + rest && rest[1..] == Dotted(parts[1..]);
      PartSegments(parts[0], rest, hyphens);
      assert parts[1] in parts[1..];
      assert forall p <- parts[1..][1..] :: p in parts[1..];
      DottedSegments(parts[1..], true);
    }
  }

  lemma ExtensionKeyMeaning(key: string)
    ensures ValidExtensionKey(key) <==> IsExtensionKey(key)
  {
    hide Utf8.Encode, ExtensionSegments;
    if ValidExtensionKey(key) {
      var parts := PartsOfKey(key, true, false);
      assert Parts(parts);
    }
    if IsExtensionKey(key) {
      var parts :| Parts(parts) && key == Dotted(parts);
      DottedSegments(parts, false);
    }
  }

  lemma ExtensionsMeaning(es: seq<Entry>)
    ensures ValidExtensions(es) <==> |es| <= 32 && forall e <- es :: IsExtensionKey(e.key)
  {
    hide ValidExtensionKey, IsExtensionKey;
    forall e | e in es
      ensures ValidExtensionKey(e.key) <==> IsExtensionKey(e.key)
    {
      ExtensionKeyMeaning(e.key);
    }
  }

  // ---------------------------------------------------------------- fields

  const FIELD_NAMES: set<string> :=
    {"kind", "version", "requestId", "attempt", "name", "previousEventRoot", "payloadRoot", "extensions"}

  /** The fields of an event by name. */
  lemma FieldsMeaning(e: InferenceEvent.Event, key: string)
    requires CanonicalEntries(Fields(e), 1, None)
    ensures Lookup(Fields(e), key) ==
            match key
            case "kind" => Some(Text("knolo.infer.inference-event"))
            case "version" => Some(Integer(1))
            case "requestId" => Some(Text(e.requestId))
            case "attempt" => Some(Integer(e.attempt))
            case "name" => Some(Text(e.name))
            case "previousEventRoot" => if e.previous.Some? then Some(Text(e.previous.value)) else None
            case "payloadRoot" => Some(Text(e.payload))
            case "extensions" => Some(Map(e.extensions))
            case _ => None
  {
    hide Lookup, Fields, CanonicalEntries;
    CanonicalKeysDistinct(Fields(e), 1, None);
    LookupFixedFields(e);
    LookupLastFields(e);
    if key !in FIELD_NAMES {
      OtherKey(e, key);
    }
  }

  lemma OtherKey(e: InferenceEvent.Event, key: string)
    requires key !in FIELD_NAMES
    ensures Lookup(Fields(e), key) == None
  {
    hide Lookup;
    LookupNothing(Fields(e), key);
  }

  /** A root hashes a map of two entries: the event and the root before it. */
  lemma RootInputMeaning(e: InferenceEvent.Event) returns (es: seq<Entry>)
    ensures RootInput(e) == Encode(Map(es)) && |es| == 2 && DistinctKeys(es)
    ensures Lookup(es, "event") == Some(Map(Fields(e)))
    ensures Lookup(es, "previousEventRoot") == Some(if e.previous.Some? then Text(e.previous.value) else Null)
  {
    hide Encode, Fields, Lookup;
    es := [Entry("event", ToCbor(e)),
           Entry("previousEventRoot", if e.previous.Some? then Text(e.previous.value) else Null)];
    assert |es[0].key| == 5 && |es[1].key| == 17;
    LookupFirst(es, 0);
    LookupFirst(es, 1);
  }

  // ---------------------------------------------------------------- file names

  function DigitChar(d: nat): char
    requires d < 10
  {
    ('0' as int + d) as char
  }

  /** Six decimal digits. */
  function Six(n: nat): (s: string)
    requires n < 1_000_000
    ensures |s| == 6
  {
    [DigitChar(n / 100_000), DigitChar(n / 10_000 % 10), DigitChar(n / 1000 % 10),
     DigitChar(n / 100 % 10), DigitChar(n / 10 % 10), DigitChar(n % 10)]
  }

  lemma OneDigit(n: nat, width: nat)
    ensures Digits(n, width + 1) == Digits(n / 10, width) + [0x30 + n % 10]
  {
  }

  lemma SixMeaning(n: nat)
    requires n < 1_000_000
    ensures Digits(n, 6) == Utf8.Encode(Six(n))
  {
    hide Digits, Utf8.Encode;
    var a, b, c, d, e := n / 10, n / 100, n / 1000, n / 10_000, n / 100_000;
    assert a / 10 == b && b / 10 == c && c / 10 == d && d / 10 == e && e / 10 == 0 && e % 10 == e;
    OneDigit(n, 5);
    OneDigit(a, 4);
    OneDigit(b, 3);
    OneDigit(c, 2);
    OneDigit(d, 1);
    OneDigit(e, 0);
    assert Digits(0, 0) == [] by {
      NoDigits();
    }
    Utf8.EncodeAscii(Six(n));
    assert Digits(n, 6) == Utf8.Encode(Six(n));
  }

  lemma NoDigits()
    ensures Digits(0, 0) == []
  {
  }

  /** The name of an event file, for example `000002.token.cbor`. */
  lemma FileNameMeaning(index: nat, name: string)
    requires index < 1_000_000
    ensures FileName(index, name) == Utf8.Encode(Six(index) + "." + name + ".cbor")
  {
    hide Digits, Utf8.Encode;
    SixMeaning(index);
    Utf8.EncodeAscii(".");
    Utf8.EncodeAscii(".cbor");
    assert Utf8.Encode(".") == [DOT] && Utf8.Encode(".cbor") == SUFFIX;
    Utf8.EncodeAppend(Six(index) + "." + name, ".cbor");
    Utf8.EncodeAppend(Six(index) + ".", name);
    Utf8.EncodeAppend(Six(index), ".");
  }

  /** An event file is any name with a dot after its first six bytes and `.cbor` at its end. */
  lemma EventNameMeaning(n: Name)
    ensures EventName(n) <==>
            && |n| >= 7 && n[6..7] == Utf8.Encode(".")
            && exists head :: n == head + Utf8.Encode(".cbor")
  {
    hide Utf8.Encode;
    Utf8.EncodeAscii(".");
    Utf8.EncodeAscii(".cbor");
    assert Utf8.Encode(".") == [DOT] && Utf8.Encode(".cbor") == SUFFIX;
    if |n| >= 5 && n[|n| - 5..] == SUFFIX {
      assert n == n[..|n| - 5] + SUFFIX;
    }
    if head :| n == head + SUFFIX {
      assert n[|n| - 5..] == SUFFIX;
    }
  }

  /** The sampler file is no event file. */
  lemma SamplerMeaning()
    ensures SAMPLER == Utf8.Encode("sampler-plan.cbor") && !EventName(SAMPLER)
  {
    hide Utf8.Encode;
    var text := "sampler-plan.cbor";
    Utf8.EncodeAscii(text);
    assert SAMPLER[6] == 0x72;
    assert SAMPLER == Utf8.Encode(text);
  }

  /** What the journal appends: the first attempt, no extensions, the root before it. */
  lemma AppendedMeaning(h: Hash, id: string, st: State, name: string, payload: Digest)
    ensures var r := JournalRuns.Append(h, id, st, name, payload);
            && (r.Ok? <==> IsRequestId(id) && name in EVENT_NAMES)
            && (r.Ok? && st.nextIndex < 1_000_000 ==>
                  var file := Utf8.Encode(Six(st.nextIndex) + "." + name + ".cbor");
                  && r.value.dir.Keys == st.dir.Keys + {file}
                  && ParseEvent(r.value.dir[file]) == Some(InferenceEvent.Event(id, 1, name, st.previous, payload, []))
                  && (forall n <- st.dir :: n != file ==> r.value.dir[n] == st.dir[n]))
  {
    hide FileName, Utf8.Encode, IsRequestId, EventBytes, ParseEvent, InferenceEvent.Valid, Root;
    var e := InferenceEvent.Event(id, 1, name, st.previous, payload, []);
    EventMeaning(e);
    if InferenceEvent.Valid(e) && st.nextIndex < 1_000_000 {
      FileNameMeaning(st.nextIndex, name);
      PlainEventRoundTrip(e);
    }
  }
}
