/** The rules of the GGUF container, in literal terms. */
module GgufRules {
  /*
   The rules of the GGUF container in literal terms: which keys, names, values and descriptors are
   valid, which numbers stand for which types, how a file begins, and what the size limits do.
   They are stated without the functions that the reader and the writer share.
   */
  import opened Wrappers
  import opened Bytes
  import opened DottedText
  import opened GgufTypes
  import opened GgufFormat
  import opened GgufHeader
  import opened GgufFile
  import opened GgufFacts
  import Utf8

  // ---------------------------------------------------------------- text

  const NUL: char := 0 as char

  lemma {:induction false} NulMeaning(text: string)
    ensures HasNul(text) <==> NUL in text
  {
    if text != [] {
      NulMeaning(text[1..]);
      assert text == [text[0]] + text[1..];
      var first, rest := Utf8.EncodeChar(text[0]), Utf8.Encode(text[1..]);
      assert 0 in first + rest <==> 0 in first || 0 in rest;
      NulChar(text[0]);
    }
  }

  lemma NulChar(c: char)
    ensures 0 in Utf8.EncodeChar(c) <==> c == NUL
  {
    if c == NUL {
      assert Utf8.EncodeChar(c)[0] == 0;
    }
  }

  // ---------------------------------------------------------------- keys

  /** One part of a key. */
  predicate Part(p: string) {
    p != "" && forall c <- p :: 'a' <= c <= 'z' || '0' <= c <= '9' || c == '_'
  }

  /** A valid key is two parts or more with dots between them, of at most 65535 bytes. */
  ghost predicate IsKey(key: string) {
    && |Utf8.Encode(key)| <= 65535
    && exists parts: seq<string> :: |parts| >= 2 && key == Dotted(parts) && forall p <- parts :: Part(p)
  }

  lemma KeyMeaning(key: string)
    ensures ValidKey(key) <==> IsKey(key)
  {
    hide Utf8.Encode, KeySegments;
    if ValidKey(key) {
      var parts := PartsOfKey(key, false);
      assert parts[0] in parts && forall p <- parts :: Part(p);
    }
    if IsKey(key) {
      var parts: seq<string> :| |parts| >= 2 && key == Dotted(parts) && forall p <- parts :: Part(p);
      DottedSegments(parts);
    }
  }

  lemma {:induction false} PartsOfKey(key: string, nonempty: bool) returns (parts: seq<string>)
    requires KeySegments(key, nonempty).Some?
    ensures |parts| == KeySegments(key, nonempty).value > 0 && key == Dotted(parts)
    ensures forall p <- parts[1..] :: Part(p)
    ensures Part(parts[0]) || (nonempty && parts[0] == "")
  {
    if key == [] {
      parts := [""];
    } else if key[0] == '.' {
      var rest := PartsOfKey(key[1..], false);
      parts := [""] + rest;
      assert parts[1..] == rest && rest == [rest[0]] + rest[1..];
      assert key == ['.'] + key[1..];
    } else {
      var rest := PartsOfKey(key[1..], true);
      parts := [[key[0]] + rest[0]] + rest[1..];
      assert parts[1..] == rest[1..];
      assert key == [key[0]] + key[1..];
    }
  }

  lemma {:induction false} PartSegments(p: string, rest: string, nonempty: bool)
    requires Part(p)
    ensures KeySegments(p + rest, nonempty) == KeySegments(rest, true)
  {
    var s := p + rest;
    assert p[0] in p && s[0] == p[0] && s[1..] == p[1..] + rest;
    if |p| == 1 {
      assert s[1..] == rest;
    } else {
      assert forall c <- p[1..] :: c in p;
      PartSegments(p[1..], rest, true);
    }
  }

  lemma {:induction false} DottedSegments(parts: seq<string>)
    requires parts != [] && forall p <- parts :: Part(p)
    ensures KeySegments(Dotted(parts), false) == Some(|parts|)
  {
    assert parts[0] in parts;
    if |parts| == 1 {
      assert parts[0] == parts[0] + [];
      PartSegments(parts[0], [], false);
    } else {
      var rest := ['.'] + Dotted(parts[1..]);
      assert Dotted(parts) == parts[0] + rest && rest[1..] == Dotted(parts[1..]);
      PartSegments(parts[0], rest, false);
      DottedSegments(parts[1..]);
    }
  }

  // ---------------------------------------------------------------- values

  /** `w` lies `k` arrays deep inside `v`. */
  ghost predicate Within(v: Value, w: Value, k: nat) {
    if k == 0 then v == w else v.Array? && exists item <- v.items :: Within(item, w, k - 1)
  }

  /** The bounds on one value `depth` arrays deep. */
  predicate Bounded(w: Value, depth: nat) {
    && (w.String? ==> |Utf8.Encode(w.text)| <= 1024 * 1024 && NUL !in w.text)
    && (w.Array? ==> depth < 4 && |w.items| <= 1_048_576 && forall item <- w.items :: TypeOf(item) == w.element)
  }

  ghost predicate BoundedWithin(v: Value, depth: nat) {
    forall w, k: nat :: Within(v, w, k) ==> Bounded(w, depth + k)
  }

  /** A value is valid exactly when every value inside it keeps the bounds at its depth. */
  lemma {:induction false} ValueMeaning(v: Value, depth: nat)
    ensures ValidateValue(v, depth).Pass? <==> BoundedWithin(v, depth)
    decreases v, 0
  {
    hide Utf8.Encode, HasNul;
    if v.String? {
      NulMeaning(v.text);
    }
    if BoundedWithin(v, depth) {
      assert Within(v, v, 0);
      assert Bounded(v, depth + 0);
    }
    if v.Array? {
      ItemsMeaning(v.items, v.element, depth + 1);
      ItemsWithin(v, depth);
    }
  }

  lemma ItemsWithin(v: Value, depth: nat)
    requires v.Array?
    ensures BoundedWithin(v, depth) <==>
            Bounded(v, depth) && forall item <- v.items :: BoundedWithin(item, depth + 1)
  {
    hide Bounded;
    if BoundedWithin(v, depth) {
      assert Within(v, v, 0);
      assert Bounded(v, depth + 0);
      forall item, w, k: nat | item in v.items && Within(item, w, k)
        ensures Bounded(w, depth + 1 + k)
      {
        assert Within(v, w, k + 1);
        assert Bounded(w, depth + (k + 1));
      }
    }
    if Bounded(v, depth) && forall item <- v.items :: BoundedWithin(item, depth + 1) {
      forall w, k: nat | Within(v, w, k)
        ensures Bounded(w, depth + k)
      {
        if k > 0 {
          var item :| item in v.items && Within(item, w, k - 1);
          assert Bounded(w, depth + 1 + (k - 1));
        }
      }
    }
  }

  lemma {:induction false} ItemsMeaning(items: seq<Value>, element: ValueType, depth: nat)
    ensures ValidateItems(items, element, depth).Pass? <==>
            forall item <- items :: TypeOf(item) == element && BoundedWithin(item, depth)
    decreases items, 1
  {
    hide BoundedWithin, TypeOf;
    if items != [] {
      ValueMeaning(items[0], depth);
      ItemsMeaning(items[1..], element, depth);
      assert forall v :: v in items <==> v == items[0] || v in items[1..];
    }
  }

  // ---------------------------------------------------------------- metadata and prefix

  lemma {:induction false} ItemsOfMetadataMeaning(items: seq<Metadata>, seen: set<string>)
    ensures ValidateItemsOfMetadata(items, seen).Pass? <==>
            && DistinctKeys(items)
            && forall item <- items :: item.key !in seen && ValidKey(item.key) && ValidateValue(item.value, 0).Pass?
  {
    hide ValidKey, ValidateValue;
    if items != [] {
      var tail := items[1..];
      ItemsOfMetadataMeaning(tail, seen + {items[0].key});
      assert forall m :: m in items <==> m == items[0] || m in tail;
      if DistinctKeys(items) {
        TailDistinct(items);
      } else if DistinctKeys(tail) && !HasKey(tail, items[0].key) {
        HeadDistinct(items);
      }
    }
  }

  lemma HeadDistinct(items: seq<Metadata>)
    requires items != [] && DistinctKeys(items[1..]) && !HasKey(items[1..], items[0].key)
    ensures DistinctKeys(items)
  {
    var tail := items[1..];
    forall i, j | 0 <= i < j < |items|
      ensures items[i].key != items[j].key
    {
      assert items[j] == tail[j - 1] && items[j] in tail;
      if i > 0 {
        assert items[i] == tail[i - 1];
      }
    }
  }

  /** The prefixes that are written and read back: the two limits, the keys and the values. */
  lemma PrefixMeaning(p: Prefix)
    ensures ValidPrefix(p) <==>
            && p.tensorCount <= 100_000 && |p.metadata| <= 4096
            && DistinctKeys(p.metadata)
            && forall item <- p.metadata :: IsKey(item.key) && BoundedWithin(item.value, 0)
  {
    hide ValidKey, ValidateValue, IsKey, BoundedWithin, DistinctKeys;
    ItemsOfMetadataMeaning(p.metadata, {});
    forall item | item in p.metadata
      ensures ValidKey(item.key) <==> IsKey(item.key)
      ensures ValidateValue(item.value, 0).Pass? <==> BoundedWithin(item.value, 0)
    {
      KeyMeaning(item.key);
      ValueMeaning(item.value, 0);
    }
  }

  lemma OneByte(n: nat, w: nat)
    ensures LittleEndian(n, w + 1) == [n % 0x100] + LittleEndian(n / 0x100, w)
  {
  }

  /** The bytes of a number below 2^32, the low byte first. */
  lemma Eight(n: nat)
    requires n < 0x1_0000_0000
    ensures LittleEndian(n, 4) == [n % 0x100, n / 0x100 % 0x100, n / 0x1_0000 % 0x100, n / 0x100_0000]
    ensures LittleEndian(n, 8) == LittleEndian(n, 4) + [0, 0, 0, 0]
  {
    hide LittleEndian;
    var a, b, c := n / 0x100, n / 0x1_0000, n / 0x100_0000;
    assert a / 0x100 == b && b / 0x100 == c && c / 0x100 == 0;
    FourBytes(n, 0);
    FourBytes(n, 4);
    FourBytes(0, 0);
    assert LittleEndian(0, 0) == [];
  }

  lemma FourBytes(n: nat, w: nat)
    requires n < 0x1_0000_0000
    ensures LittleEndian(n, 4 + w) ==
            [n % 0x100, n / 0x100 % 0x100, n / 0x1_0000 % 0x100, n / 0x100_0000] + LittleEndian(0, w)
  {
    hide LittleEndian;
    var a, b, c := n / 0x100, n / 0x1_0000, n / 0x100_0000;
    assert a / 0x100 == b && b / 0x100 == c && c / 0x100 == 0 && c % 0x100 == c;
    OneByte(n, 3 + w);
    OneByte(a, 2 + w);
    OneByte(b, 1 + w);
    OneByte(c, w);
  }

  /** A file begins with the letters GGUF, the version 3 and the two counts, the low byte first. */
  lemma FirstBytes(p: Prefix)
    requires ValidPrefix(p)
    ensures |WritePrefix(p)| >= 24 && WritePrefix(p)[..4] == Utf8.Encode("GGUF") && WritePrefix(p)[4..8] == [3, 0, 0, 0]
    ensures WritePrefix(p)[8..16] ==
            [p.tensorCount % 0x100, p.tensorCount / 0x100 % 0x100, p.tensorCount / 0x1_0000, 0, 0, 0, 0, 0]
    ensures WritePrefix(p)[16..24] == [|p.metadata| % 0x100, |p.metadata| / 0x100, 0, 0, 0, 0, 0, 0]
    ensures WritePrefix(p)[24..] == WriteMetadata(p.metadata)
  {
    hide WriteMetadata, ValidateMetadata, Utf8.Encode, LittleEndian;
    PrefixMeaning(p);
    Eight(p.tensorCount);
    Eight(|p.metadata|);
    Eight(GGUF_VERSION);
    Utf8.EncodeAscii("GGUF");
    assert MAGIC == Utf8.Encode("GGUF");
    var counts := LittleEndian(p.tensorCount, 8) + (LittleEndian(|p.metadata|, 8) + WriteMetadata(p.metadata));
    assert WritePrefix(p) == MAGIC + (LittleEndian(GGUF_VERSION, 4) + counts);
    assert WritePrefix(p)[8..] == counts;
  }

  // ---------------------------------------------------------------- type numbers

  const VALUE_TYPES: set<(nat, ValueType)> :=
    {(0, TUint8), (1, TInt8), (2, TUint16), (3, TInt16), (4, TUint32), (5, TInt32), (6, TFloat32),
     (7, TBool), (8, TString), (9, TArray), (10, TUint64), (11, TInt64), (12, TFloat64)}

  /** The number, the elements of a block and the bytes of a block of each tensor type. */
  const TENSOR_TYPES: set<(nat, TensorType, nat, nat)> :=
    {(0, F32, 1, 4), (1, F16, 1, 2), (8, Q8_0, 32, 34), (12, Q4_K, 256, 144),
     (13, Q5_K, 256, 176), (14, Q6_K, 256, 210)}

  lemma ValueTypeMeaning(code: nat, t: ValueType)
    ensures ValueTypeOf(code) == Ok(t) <==> (code, t) in VALUE_TYPES
    ensures ValueTypeCode(t) == code <==> (code, t) in VALUE_TYPES
  {
  }

  lemma TensorTypeMeaning(code: nat, t: TensorType, elements: nat, size: nat)
    ensures (TensorTypeOf(code), BlockElements(t), TypeSize(t)) == (Ok(t), elements, size) <==>
            (code, t, elements, size) in TENSOR_TYPES
    ensures TensorTypeCode(t) == code && (BlockElements(t), TypeSize(t)) == (elements, size) <==>
            (code, t, elements, size) in TENSOR_TYPES
  {
  }

  // ---------------------------------------------------------------- descriptors

  /** A descriptor that is read and written: its name, its shape, its length and its offset. */
  lemma InfoMeaning(info: Info, seen: set<string>, runCaps: bool, elements: nat, size: nat)
    requires exists code :: (code, info.tensorType, elements, size) in TENSOR_TYPES
    ensures ValidInfo(info, seen, runCaps) <==>
            && info.name != "" && |Utf8.Encode(info.name)| <= 64 && NUL !in info.name && info.name !in seen
            && 1 <= |info.shape| <= 4 && 0 !in info.shape && info.shape[0] % elements == 0
            && info.nbytes * elements == Product(info.shape) * size
            && info.nbytes < 0x1_0000_0000_0000_0000 && info.offset < 0x1_0000_0000_0000_0000
            && (runCaps ==> info.nbytes <= 2 * 1024 * 1024 * 1024)
  {
    hide NBytes, Utf8.Encode, HasNul, Product;
    var code :| (code, info.tensorType, elements, size) in TENSOR_TYPES;
    TensorTypeMeaning(code, info.tensorType, elements, size);
    NulMeaning(info.name);
    NBytesMeaning(info.tensorType, info.shape, info.nbytes);
  }

  // ---------------------------------------------------------------- file limits

  /** The size limit of a file does nothing else than refuse longer ones: 32 MiB, or 8 GiB to run. */
  lemma FileLimits(bytes: seq<Byte>)
    ensures Parse(bytes) ==
            if |bytes| <= 32 * 1024 * 1024 then ParseMax(bytes, |bytes|, false) else Err(FileTooLarge)
    ensures ParseCapped(bytes) ==
            if |bytes| <= 8 * 1024 * 1024 * 1024 then ParseMax(bytes, |bytes|, true) else Err(FileTooLarge)
  {
    hide ReadPrefix, ReadInfos, ParseData;
  }
}
