/** Manifest extensions inside a model image. */
module ImageExtensions {
  /*
   Manifest extensions inside a model image: `build_image` translates each extension as if it
   stood alone, `to_bytes` puts them two maps deep, and the compiler decodes what it encoded
   before it writes it. Here is when that decoding succeeds, for JSON and for YAML manifests.
   */
  import opened Wrappers
  import opened Bytes
  import opened Sorting
  import opened JsonToCbor
  import J = JsonValue
  import Cbor
  import InferenceEvent
  import Json
  import StrictJson
  import Utf8

  // ---------------------------------------------------------------- height

  /** How far below a value its deepest value lies. */
  function Height(v: J.Json): nat
    decreases v, 0
  {
    match v
    case Array(items) => ItemsHeight(items)
    case Object(members) => MembersHeight(members)
    case _ => 0
  }

  function ItemsHeight(items: seq<J.Json>): nat
    decreases items, 1
  {
    if items == [] then 0 else StrictJson.Larger(1 + Height(items[0]), ItemsHeight(items[1..]))
  }

  function MembersHeight(members: seq<J.Member>): nat
    decreases members, 1
  {
    if members == [] then 0 else StrictJson.Larger(1 + Height(members[0].value), MembersHeight(members[1..]))
  }

  /** Depth enters the translation through the height alone. */
  lemma {:induction false} HeightMeaning(v: J.Json, a: nat, b: nat)
    requires Translate(v, a).Ok?
    ensures a + Height(v) <= 32
    ensures Translate(v, b).Ok? <==> b + Height(v) <= 32
    ensures Translate(v, b).Ok? ==> Translate(v, b) == Translate(v, a)
    decreases v, 0
  {
    match v
    case Array(items) => ItemsHeightMeaning(items, a + 1, b + 1);
    case Object(members) => MembersHeightMeaning(members, a + 1, b + 1);
    case _ =>
  }

  lemma {:induction false} ItemsHeightMeaning(items: seq<J.Json>, a: nat, b: nat)
    requires TranslateItems(items, a).Ok? && a > 0 && b > 0
    ensures items != [] ==> a - 1 + ItemsHeight(items) <= 32
    ensures TranslateItems(items, b).Ok? <==> items == [] || b - 1 + ItemsHeight(items) <= 32
    ensures TranslateItems(items, b).Ok? ==> TranslateItems(items, b) == TranslateItems(items, a)
    decreases items, 1
  {
    hide Translate;
    if items != [] {
      HeightMeaning(items[0], a, b);
      ItemsHeightMeaning(items[1..], a, b);
    }
  }

  lemma {:induction false} MembersHeightMeaning(members: seq<J.Member>, a: nat, b: nat)
    requires TranslateMembers(members, a).Ok? && a > 0 && b > 0
    ensures members != [] ==> a - 1 + MembersHeight(members) <= 32
    ensures TranslateMembers(members, b).Ok? <==> members == [] || b - 1 + MembersHeight(members) <= 32
    ensures TranslateMembers(members, b).Ok? ==> TranslateMembers(members, b) == TranslateMembers(members, a)
    decreases members, 1
  {
    hide Translate;
    if members != [] {
      HeightMeaning(members[0].value, a, b);
      MembersHeightMeaning(members[1..], a, b);
    }
  }

  // ---------------------------------------------------------------- the image

  datatype Failure = Untranslated(error: JsonToCbor.Error) | BadExtensions | Refused

  /** A model image: its extensions among its other fields, in key order. */
  function Image(before: seq<Cbor.Entry>, extensions: seq<Cbor.Entry>, after: seq<Cbor.Entry>): Cbor.Value {
    Cbor.Map(before + [Cbor.Entry("extensions", Cbor.Map(extensions))] + after)
  }

  /**
   The compiler, as far as extensions go: each is translated at depth 0, the map of them is
   checked and put into the image, and the bytes are decoded before they are written.
   */
  function Compile(before: seq<Cbor.Entry>, members: seq<J.Member>, after: seq<Cbor.Entry>)
    : Result<seq<Byte>, Failure>
  {
    match TranslateMembers(members, 0)
    case Err(error) => Err(Untranslated(error))
    case Ok(out) =>
      var extensions := Sort(out, EntryKey);
      if !InferenceEvent.ValidExtensions(extensions) then Err(BadExtensions)
      else
        var bytes := Cbor.Encode(Image(before, extensions, after));
        if Cbor.Decode(bytes).Ok? then Ok(bytes) else Err(Refused)
  }

  /** Extensions that translate and have at most 32 valid keys, each of them once. */
  ghost predicate Wellformed(members: seq<J.Member>) {
    && J.DistinctNames(members) && J.MembersWellFormed(members)
    && |members| <= 32 && (forall m <- members :: InferenceEvent.ValidExtensionKey(m.key))
    && TranslateMembers(members, 0).Ok?
  }

  /** The guard that the compiler does not have: no extension is higher than 30. */
  predicate LowEnough(members: seq<J.Member>) {
    forall m <- members :: Height(m.value) <= 30
  }

  lemma {:induction false} DeeperTranslates(members: seq<J.Member>)
    requires TranslateMembers(members, 0).Ok?
    ensures TranslateMembers(members, 2).Ok? <==> LowEnough(members)
    ensures TranslateMembers(members, 2).Ok? ==> TranslateMembers(members, 2) == TranslateMembers(members, 0)
    decreases members, 1
  {
    hide Translate, Height;
    if members != [] {
      HeightMeaning(members[0].value, 0, 2);
      DeeperTranslates(members[1..]);
      assert forall m :: m in members <==> m == members[0] || m in members[1..];
    }
  }

  lemma {:induction false} OtherEncodable(before: seq<Cbor.Entry>, key: string, v: Cbor.Value, w: Cbor.Value,
                                          after: seq<Cbor.Entry>)
    requires Cbor.EncodableEntries(before + [Cbor.Entry(key, v)] + after) && Cbor.Encodable(w)
    ensures Cbor.EncodableEntries(before + [Cbor.Entry(key, w)] + after)
    decreases |before|
  {
    hide Cbor.Encodable, Utf8.Encode;
    var a, b := before + [Cbor.Entry(key, v)] + after, before + [Cbor.Entry(key, w)] + after;
    if before == [] {
      assert a[0].key == b[0].key == key && a[1..] == b[1..] == after;
    } else {
      assert a[0] == b[0] == before[0];
      assert a[1..] == before[1..] + [Cbor.Entry(key, v)] + after;
      assert b[1..] == before[1..] + [Cbor.Entry(key, w)] + after;
      OtherEncodable(before[1..], key, v, w, after);
    }
  }

  /** The map of the extensions alone: canonical one level down exactly when none is too high. */
  lemma ExtensionsCanonical(members: seq<J.Member>)
    requires Wellformed(members)
    ensures var extensions := Sort(TranslateMembers(members, 0).value, EntryKey);
            && InferenceEvent.ValidExtensions(extensions)
            && Cbor.Encodable(Cbor.Map(extensions))
            && (Cbor.Canonical(Cbor.Map(extensions), 1) <==> LowEnough(members))
  {
    hide Sort, Translate, Plain, Expressible, Cbor.Canonical, Cbor.Encodable, LowEnough,
      InferenceEvent.ValidExtensionKey, J.DistinctNames, J.MembersWellFormed, PlainMembers,
      TranslateMembers, MembersExpressible;
    var v := J.Object(members);
    TranslateMembersMeaning(members, 0);
    var es := PlainMembers(members);
    var extensions := Sort(es, EntryKey);
    SortKeeps(es, EntryKey);
    SameMembers(extensions, es);
    forall e | e in extensions
      ensures InferenceEvent.ValidExtensionKey(e.key)
    {
      var i :| 0 <= i < |es| && es[i] == e;
      assert members[i] in members && es[i].key == members[i].key;
    }
    DeeperTranslates(members);
    ObjectTranslates(members);
    assert Cbor.Canonical(Cbor.Map(extensions), 1) <==> Translate(v, 1).Ok? by {
      WellFormedObject(members);
      TranslateMeaning(v, 1);
      PlainObject(members);
    }
    ExtensionsEncodable(members);
  }

  lemma WellFormedObject(members: seq<J.Member>)
    requires J.DistinctNames(members) && J.MembersWellFormed(members)
    ensures J.WellFormed(J.Object(members))
  {
  }

  lemma PlainObject(members: seq<J.Member>)
    ensures Plain(J.Object(members)) == Cbor.Map(Sort(PlainMembers(members), EntryKey))
    ensures Expressible(J.Object(members)) == MembersExpressible(members)
  {
  }

  lemma ObjectTranslates(members: seq<J.Member>)
    requires |members| <= 32
    ensures Translate(J.Object(members), 1).Ok? <==> TranslateMembers(members, 2).Ok?
  {
  }

  lemma ExtensionsEncodable(members: seq<J.Member>)
    requires Wellformed(members)
    ensures Cbor.Encodable(Cbor.Map(Sort(PlainMembers(members), EntryKey)))
  {
    hide Sort, Translate, Plain, Cbor.Canonical, Utf8.Encode, EntryKey;
    TranslateMembersMeaning(members, 0);
    PlainKeysCounted(members);
    var es := PlainMembers(members);
    var extensions := Sort(es, EntryKey);
    SortKeeps(es, EntryKey);
    SameMembers(extensions, es);
    forall e | e in extensions
      ensures |EntryKey(e)| < Cbor.TWO_64 && Cbor.Encodable(e.value)
    {
      Cbor.CanonicalEncodable(e.value, 0);
    }
    EntriesEncodable(extensions);
  }

  lemma {:induction false} EntriesEncodable(es: seq<Cbor.Entry>)
    requires forall e <- es :: |EntryKey(e)| < Cbor.TWO_64 && Cbor.Encodable(e.value)
    ensures Cbor.EncodableEntries(es)
  {
    hide Cbor.Encodable, Utf8.Encode;
    if es != [] {
      assert es[0] in es && forall e <- es[1..] :: e in es;
      EntriesEncodable(es[1..]);
    }
  }

  /**
   The compiler accepts extensions that translate exactly when none is higher than 30 and the
   image is within 32 MiB, whatever the other fields of the image are. It never writes an
   image that its own decoder refuses: a higher extension is refused at compilation.
   */
  lemma CompileMeaning(before: seq<Cbor.Entry>, members: seq<J.Member>, after: seq<Cbor.Entry>)
    requires Wellformed(members) && Cbor.Canonical(Image(before, [], after), 0)
    ensures var bytes := Cbor.Encode(Image(before, Sort(TranslateMembers(members, 0).value, EntryKey), after));
            Compile(before, members, after) ==
            if LowEnough(members) && |bytes| <= Cbor.MAX_DOCUMENT_BYTES then Ok(bytes) else Err(Refused)
  {
    hide Sort, Wellformed, LowEnough, TranslateMembers, Cbor.Encode, Cbor.Decode, InferenceEvent.ValidExtensions,
      Cbor.Canonical, Cbor.Encodable;
    assert TranslateMembers(members, 0).Ok? by {
      WellformedTranslates(members);
    }
    var extensions := Sort(TranslateMembers(members, 0).value, EntryKey);
    ExtensionsCanonical(members);
    ImageCanonical(before, extensions, after);
    DecodesOnlyItself(Image(before, extensions, after));
  }

  lemma WellformedTranslates(members: seq<J.Member>)
    requires Wellformed(members)
    ensures TranslateMembers(members, 0).Ok?
  {
  }

  lemma ImageCanonical(before: seq<Cbor.Entry>, extensions: seq<Cbor.Entry>, after: seq<Cbor.Entry>)
    requires Cbor.Canonical(Image(before, [], after), 0) && Cbor.Encodable(Cbor.Map(extensions))
    ensures Cbor.Encodable(Image(before, extensions, after))
    ensures Cbor.Canonical(Image(before, extensions, after), 0) <==> Cbor.Canonical(Cbor.Map(extensions), 1)
  {
    hide Cbor.CanonicalEntries, Cbor.EncodableEntries, Utf8.Encode;
    Cbor.CanonicalEncodable(Image(before, [], after), 0);
    Cbor.OtherValue(before, "extensions", Cbor.Map([]), Cbor.Map(extensions), after, 1, None);
    OtherEncodable(before, "extensions", Cbor.Map([]), Cbor.Map(extensions), after);
  }

  lemma DecodesOnlyItself(v: Cbor.Value)
    requires Cbor.Encodable(v)
    ensures Cbor.Decode(Cbor.Encode(v)).Ok? <==> Cbor.Canonical(v, 0) && |Cbor.Encode(v)| <= Cbor.MAX_DOCUMENT_BYTES
  {
    hide Cbor.Encodable, Cbor.Canonical, Cbor.Encode, Cbor.Decode;
    Cbor.DecodeExactlyEncoding(Cbor.Encode(v), v);
    if Cbor.Decode(Cbor.Encode(v)).Ok? {
      var w := Cbor.Decode(Cbor.Encode(v)).value;
      Cbor.DecodeExactlyEncoding(Cbor.Encode(v), w);
      Cbor.CanonicalEncodable(w, 0);
      Cbor.EncodeInjective(v, w);
    }
  }

  // ---------------------------------------------------------------- JSON manifests

  lemma {:induction false} MemberAdmissible(members: seq<J.Member>, depth: nat, nulls: bool, keys: set<string>,
                                            m: J.Member)
    requires Json.MembersAdmissible(members, depth, nulls, keys) && m in members
    ensures Json.Admissible(m.value, depth, nulls) && Json.Count(m.value) <= Json.CountMembers(members)
    decreases members
  {
    hide Json.Admissible, Utf8.Encode, Json.Count;
    if m != members[0] {
      MemberAdmissible(members[1..], depth, nulls, keys + {members[0].key}, m);
    }
  }

  lemma {:induction false} AllTranslate(members: seq<J.Member>)
    requires forall m <- members :: Translate(m.value, 0).Ok?
    ensures TranslateMembers(members, 0).Ok?
  {
    hide Translate;
    if members != [] {
      assert members[0] in members && forall m <- members[1..] :: m in members;
      AllTranslate(members[1..]);
    }
  }

  /**
   Every extension of every strict JSON manifest translates and is low enough: the parser's
   own depth limit, spent on the manifest and its map of extensions, is the guard.
   */
  lemma JsonExtensionsFit(text: string, top: seq<J.Member>, extensions: seq<J.Member>)
    requires Json.Parse(text, false) == Ok(J.Object(top))
    requires J.Member("extensions", J.Object(extensions)) in top
    ensures TranslateMembers(extensions, 0).Ok? && LowEnough(extensions)
    ensures J.DistinctNames(extensions) && J.MembersWellFormed(extensions)
  {
    hide Json.Parse, Json.Admissible, Json.Writes, Utf8.Encode, Translate, TranslateMembers, Json.Count, Height,
      J.WellFormed;
    var v, m := J.Object(top), J.Member("extensions", J.Object(extensions));
    Json.ParseMeaning(text, v, false);
    AdmissibleInside(top, m, 0);
    AdmissibleNames(extensions, 1);
    forall e | e in extensions
      ensures Translate(e.value, 0).Ok? && Height(e.value) <= 30
    {
      AdmissibleInside(extensions, e, 1);
      StrictJson.AdmissibleTranslates(e.value, 2);
      HeightMeaning(e.value, 2, 0);
    }
    AllTranslate(extensions);
  }

  lemma AdmissibleInside(members: seq<J.Member>, m: J.Member, depth: nat)
    requires Json.Admissible(J.Object(members), depth, false) && m in members
    ensures Json.Admissible(m.value, depth + 1, false) && Json.Count(m.value) <= Json.Count(J.Object(members))
  {
    MemberAdmissible(members, depth + 1, false, {}, m);
  }

  lemma AdmissibleNames(members: seq<J.Member>, depth: nat)
    requires Json.Admissible(J.Object(members), depth, false) && depth < Json.MAX_DEPTH
    ensures J.DistinctNames(members) && J.MembersWellFormed(members)
  {
    StrictJson.AdmissibleTree(J.Object(members), depth, false);
  }

  /** So a JSON manifest is never refused for the depth of an extension. */
  lemma JsonManifestCompiles(text: string, top: seq<J.Member>, extensions: seq<J.Member>,
                             before: seq<Cbor.Entry>, after: seq<Cbor.Entry>)
    requires Json.Parse(text, false) == Ok(J.Object(top))
    requires J.Member("extensions", J.Object(extensions)) in top
    requires |extensions| <= 32 && forall m <- extensions :: InferenceEvent.ValidExtensionKey(m.key)
    requires Cbor.Canonical(Image(before, [], after), 0)
    ensures TranslateMembers(extensions, 0).Ok?
    ensures var bytes := Cbor.Encode(Image(before, Sort(TranslateMembers(extensions, 0).value, EntryKey), after));
            Compile(before, extensions, after) ==
            if |bytes| <= Cbor.MAX_DOCUMENT_BYTES then Ok(bytes) else Err(Refused)
  {
    hide Json.Parse, Sort, LowEnough, TranslateMembers, Cbor.Encode, Cbor.Canonical, Compile, J.DistinctNames,
      J.MembersWellFormed, InferenceEvent.ValidExtensionKey;
    JsonExtensionsFit(text, top, extensions);
    CompileMeaning(before, extensions, after);
  }
}
