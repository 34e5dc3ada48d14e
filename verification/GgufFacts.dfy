/** What GGUF metadata says about its file. */
module GgufFacts {
  /*
   What the metadata of a GGUF file says about the file: the architecture, the alignment and the
   quantization version are the values stored under their keys, for every order of the items.
   */
  import opened Wrappers
  import opened Bytes
  import opened GgufTypes
  import opened GgufHeader
  import opened GgufFile
  import opened GgufData

  const ARCHITECTURE_KEY: string := "general.architecture"
  const ALIGNMENT_KEY: string := "general.alignment"
  const QUANT_VERSION_KEY: string := "general.quantization_version"

  /** The types that need a quantization version. */
  const QUANTIZED: set<TensorType> := {Q8_0, Q4_K, Q5_K, Q6_K}

  predicate DistinctKeys(items: seq<Metadata>) {
    forall i, j :: 0 <= i < j < |items| ==> items[i].key != items[j].key
  }

  predicate HasKey(items: seq<Metadata>, key: string) {
    exists item <- items :: item.key == key
  }

  /**
   The facts in the words of the format: one string of 1 to 64 lower-case letters and digits,
   a multiple of 8 from 8 to 4096 or 32 by default, and version 2 where a tensor is quantized.
   */
  predicate Says(items: seq<Metadata>, quantized: bool, f: HeaderFacts) {
    && Metadata(ARCHITECTURE_KEY, GgufTypes.String(f.architecture)) in items
    && 1 <= |f.architecture| <= 64
    && (forall c <- f.architecture :: 'a' <= c <= 'z' || '0' <= c <= '9')
    && 8 <= f.alignment <= 4096 && f.alignment % 8 == 0
    && (if HasKey(items, ALIGNMENT_KEY) then Metadata(ALIGNMENT_KEY, Uint32(f.alignment)) in items
        else f.alignment == 32)
    && (if HasKey(items, QUANT_VERSION_KEY)
        then f.quantVersion.Some? && f.quantVersion.value < 0x1_0000_0000
             && Metadata(QUANT_VERSION_KEY, Uint32(f.quantVersion.value)) in items
        else f.quantVersion == None)
    && (quantized ==> f.quantVersion == Some(2))
  }

  // ---------------------------------------------------------------- the scan

  /** The value under a key. */
  function ValueUnder(items: seq<Metadata>, key: string): Option<Value> {
    if items == [] then None
    else if items[0].key == key then Some(items[0].value)
    else ValueUnder(items[1..], key)
  }

  lemma {:induction false} UnderIsMember(items: seq<Metadata>, key: string, v: Value)
    requires DistinctKeys(items)
    ensures ValueUnder(items, key) == Some(v) <==> Metadata(key, v) in items
    ensures ValueUnder(items, key).Some? <==> HasKey(items, key)
  {
    if items != [] {
      TailDistinct(items);
      UnderIsMember(items[1..], key, v);
      assert forall m :: m in items <==> m == items[0] || m in items[1..];
    }
  }

  lemma TailDistinct(items: seq<Metadata>)
    requires DistinctKeys(items) && items != []
    ensures DistinctKeys(items[1..]) && !HasKey(items[1..], items[0].key)
  {
    var tail := items[1..];
    forall i, j | 0 <= i < j < |tail|
      ensures tail[i].key != tail[j].key
    {
      assert items[i + 1].key != items[j + 1].key;
    }
  }

  predicate TextFact(v: Option<Value>) {
    v.Some? ==> v.value.String? && ValidArchitecture(v.value.text)
  }

  predicate AlignmentFact(v: Option<Value>) {
    v.Some? ==> v.value.Uint32? && ValidAlignment(v.value.u32)
  }

  predicate VersionFact(v: Option<Value>) {
    v.Some? ==> v.value.Uint32?
  }

  /** The scan accepts items whose special values are sound, and keeps the last of each key. */
  lemma {:induction false} ScanMeaning(items: seq<Metadata>, facts: Facts)
    requires DistinctKeys(items)
    ensures var a, l, q := ValueUnder(items, ARCHITECTURE_KEY), ValueUnder(items, ALIGNMENT_KEY),
                           ValueUnder(items, QUANT_VERSION_KEY);
            var r := ScanFacts(items, facts);
            && (r.Ok? <==> TextFact(a) && AlignmentFact(l) && VersionFact(q))
            && (r.Ok? ==>
                  r.value == Facts(if a.Some? then Some(a.value.text) else facts.architecture,
                                   if l.Some? then Some(l.value.u32) else facts.alignment,
                                   if q.Some? then Some(q.value.u32) else facts.quantVersion))
  {
    hide ValidArchitecture, ValidAlignment;
    if items != [] {
      TailDistinct(items);
      var item, tail := items[0], items[1..];
      Absent(tail, item.key);
      var next :=
        if item.key == ARCHITECTURE_KEY && item.value.String? then facts.(architecture := Some(item.value.text))
        else if item.key == ALIGNMENT_KEY && item.value.Uint32? then facts.(alignment := Some(item.value.u32))
        else if item.key == QUANT_VERSION_KEY && item.value.Uint32? then facts.(quantVersion := Some(item.value.u32))
        else facts;
      ScanMeaning(tail, next);
    }
  }

  lemma {:induction false} Absent(items: seq<Metadata>, key: string)
    requires !HasKey(items, key)
    ensures ValueUnder(items, key) == None
  {
    if items != [] {
      assert items[0] in items && forall m <- items[1..] :: m in items;
      Absent(items[1..], key);
    }
  }

  lemma ArchitectureChars(text: string)
    ensures ValidArchitecture(text) <==>
            1 <= |text| <= 64 && forall c <- text :: 'a' <= c <= 'z' || '0' <= c <= '9'
  {
    if 1 <= |text| <= 64 && forall c <- text :: 'a' <= c <= 'z' || '0' <= c <= '9' {
      assert forall i :: 0 <= i < |text| ==> text[i] in text;
    }
  }

  /** `interpret` succeeds with the facts the metadata says, and only with those. */
  lemma InterpretMeaning(items: seq<Metadata>, quantized: bool, f: HeaderFacts)
    requires DistinctKeys(items)
    ensures Interpret(items, quantized) == Ok(f) <==> Says(items, quantized, f)
  {
    hide ScanFacts, ValidArchitecture, DistinctKeys, HasKey, ValueUnder;
    var a, l, q := ValueUnder(items, ARCHITECTURE_KEY), ValueUnder(items, ALIGNMENT_KEY),
                   ValueUnder(items, QUANT_VERSION_KEY);
    ScanMeaning(items, Facts(None, None, None));
    ArchitectureChars(f.architecture);
    UnderIsMember(items, ARCHITECTURE_KEY, GgufTypes.String(f.architecture));
    if 0 <= f.alignment < 0x1_0000_0000 {
      UnderIsMember(items, ALIGNMENT_KEY, Uint32(f.alignment));
    }
    if f.quantVersion.Some? && f.quantVersion.value < 0x1_0000_0000 {
      UnderIsMember(items, QUANT_VERSION_KEY, Uint32(f.quantVersion.value));
    }
    UnderIsKey(items, ALIGNMENT_KEY);
    UnderIsKey(items, QUANT_VERSION_KEY);
  }

  /** The loop of `interpret`. */
  method InterpretItems(items: seq<Metadata>, quantized: bool) returns (r: Result<HeaderFacts, Error>)
    ensures r == Interpret(items, quantized)
    ensures DistinctKeys(items) && r.Ok? ==> Says(items, quantized, r.value)
  {
    hide Says, DistinctKeys;
    var architecture: Option<string>, alignment: Option<nat>, version: Option<nat> := None, None, None;
    assert items[0..] == items;
    for i := 0 to |items|
      invariant ScanFacts(items, Facts(None, None, None)) ==
                ScanFacts(items[i..], Facts(architecture, alignment, version))
    {
      assert items[i..][0] == items[i] && items[i..][1..] == items[i + 1..];
      var Metadata(key, value) := items[i];
      if key == ARCHITECTURE_KEY {
        if !value.String? {
          return Err(ArchitectureNotString);
        }
        if !ValidArchitecture(value.text) {
          return Err(BadArchitecture);
        }
        architecture := Some(value.text);
      } else if key == ALIGNMENT_KEY {
        if !value.Uint32? {
          return Err(AlignmentNotU32);
        }
        if !ValidAlignment(value.u32) {
          return Err(BadAlignment);
        }
        alignment := Some(value.u32);
      } else if key == QUANT_VERSION_KEY {
        if !value.Uint32? {
          return Err(QuantVersionNotU32);
        }
        version := Some(value.u32);
      }
    }
    assert items[|items|..] == [];
    if architecture.None? {
      return Err(MissingArchitecture);
    }
    if quantized {
      if version.None? {
        return Err(MissingQuantVersion);
      }
      if version.value != QUANT_VERSION {
        return Err(WrongQuantVersion);
      }
    }
    var facts := HeaderFacts(
      architecture.value, if alignment.Some? then alignment.value else DEFAULT_ALIGNMENT, version);
    assert Interpret(items, quantized) == Ok(facts);
    FactsAreSaid(items, quantized, facts);
    return Ok(facts);
  }

  lemma FactsAreSaid(items: seq<Metadata>, quantized: bool, f: HeaderFacts)
    requires Interpret(items, quantized) == Ok(f)
    ensures DistinctKeys(items) ==> Says(items, quantized, f)
  {
    if DistinctKeys(items) {
      InterpretMeaning(items, quantized, f);
    }
  }

  lemma UnderIsKey(items: seq<Metadata>, key: string)
    requires DistinctKeys(items)
    ensures ValueUnder(items, key).Some? <==> HasKey(items, key)
  {
    UnderIsMember(items, key, GgufTypes.Bool(true));
  }

  // ---------------------------------------------------------------- whole files

  lemma {:induction false} ValidIsDistinct(items: seq<Metadata>, seen: set<string>)
    requires ValidateItemsOfMetadata(items, seen).Pass?
    ensures DistinctKeys(items) && forall item <- items :: item.key !in seen
  {
    hide ValidKey, ValidateValue;
    if items != [] {
      var tail := items[1..];
      ValidIsDistinct(tail, seen + {items[0].key});
      forall i, j | 0 <= i < j < |items|
        ensures items[i].key != items[j].key
      {
        assert items[j] == tail[j - 1] && items[j] in tail;
        if i > 0 {
          assert items[i] == tail[i - 1];
        }
      }
      assert forall m :: m in items <==> m == items[0] || m in tail;
    }
  }

  /** The facts of a file, and with them where its data and its tensors start, are what its metadata says. */
  predicate FactsFollow(f: File) {
    && DistinctKeys(f.metadata)
    && Says(f.metadata, exists t <- f.tensors :: t.tensorType in QUANTIZED,
            HeaderFacts(f.architecture, f.alignment, f.quantVersion))
    && f.alignment > 0
    && f.dataStart % f.alignment == 0
    && forall t <- f.tensors :: t.offset % f.alignment == 0
  }

  lemma ParsedFacts(bytes: seq<Byte>, maxFile: nat, runCaps: bool, f: File)
    requires ParseMax(bytes, maxFile, runCaps) == Ok(f)
    ensures FactsFollow(f)
  {
    hide ParseMax, Interpret, Says, ValidInfos, HeaderOf, SlicedFrom, InfosOf, InData, DistinctKeys;
    ParseMeaning(bytes, maxFile, runCaps, f);
    ValidIsDistinct(f.metadata, {});
    InterpretMeaning(f.metadata, AnyQuantized(InfosOf(f.tensors)),
                     HeaderFacts(f.architecture, f.alignment, f.quantVersion));
    SlicedAligned(f.tensors, bytes[f.dataStart..], f.alignment);
    QuantizedInfos(f.tensors);
  }

  lemma {:induction false} QuantizedInfos(ts: seq<Tensor>)
    ensures AnyQuantized(InfosOf(ts)) <==> exists t <- ts :: t.tensorType in QUANTIZED
  {
    if ts != [] {
      QuantizedInfos(ts[1..]);
      assert forall t :: t in ts <==> t == ts[0] || t in ts[1..];
      assert forall info :: info in InfosOf(ts) <==> info == InfoOf(ts[0]) || info in InfosOf(ts[1..]);
    }
  }

  lemma QuantizedDrafts(ts: seq<Draft>)
    ensures AnyQuantizedDraft(ts) <==> exists t <- ts :: t.tensorType in QUANTIZED
  {
  }

  lemma {:induction false} SlicedAligned(ts: seq<Tensor>, data: seq<Byte>, alignment: nat)
    requires alignment > 0 && SlicedFrom(ts, data, alignment)
    ensures forall t <- ts :: t.offset % alignment == 0
  {
    if ts != [] {
      SlicedAligned(ts[1..], data, alignment);
      assert forall t :: t in ts <==> t == ts[0] || t in ts[1..];
    }
  }

  /** What the writer is given decides the layout: the alignment its metadata says, or 32. */
  lemma EncodedFacts(metadata: seq<Metadata>, ts: seq<Draft>)
    requires EncodeFile(metadata, ts).Ok?
    ensures DistinctKeys(metadata)
    ensures exists facts :: Says(metadata, exists t <- ts :: t.tensorType in QUANTIZED, facts)
              && Parse(EncodeFile(metadata, ts).value).Ok?
              && Parse(EncodeFile(metadata, ts).value).value.alignment == facts.alignment
              && Parse(EncodeFile(metadata, ts).value).value.architecture == facts.architecture
              && Parse(EncodeFile(metadata, ts).value).value.quantVersion == facts.quantVersion
  {
    hide EncodeFile, ParseMax, Interpret, Says, HeaderOf, Layout, DistinctKeys;
    EncodeThenParse(metadata, ts);
    var facts := Interpret(metadata, AnyQuantizedDraft(ts)).value;
    EncodedIsValid(metadata, ts);
    ValidIsDistinct(metadata, {});
    InterpretMeaning(metadata, AnyQuantizedDraft(ts), facts);
    QuantizedDrafts(ts);
  }

  lemma EncodedIsValid(metadata: seq<Metadata>, ts: seq<Draft>)
    requires EncodeFile(metadata, ts).Ok?
    ensures ValidateItemsOfMetadata(metadata, {}).Pass?
  {
    hide CheckDrafts, Interpret, Layout, HeaderOf;
  }
}
