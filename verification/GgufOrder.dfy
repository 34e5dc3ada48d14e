/** A GGUF file that parses but is not in layout order, so that it does not encode back. */
module GgufOrder {
  import opened Wrappers
  import opened Bytes
  import opened GgufTypes
  import opened GgufFormat
  import opened GgufHeader
  import opened GgufData
  import opened GgufFile
  import Utf8

  const ARCHITECTURE: seq<Metadata> := [Metadata("general.architecture", GgufTypes.String("llama"))]

  /** One float each; the first tensor stands after the second. */
  const LATER: Tensor := Tensor("a", F32, [1], 32, [1, 0, 0, 0])
  const SOONER: Tensor := Tensor("b", F32, [1], 0, [2, 0, 0, 0])
  const SWAPPED: seq<Tensor> := [LATER, SOONER]

  function SwappedData(): seq<Byte> {
    SOONER.bytes + Zeros(28) + LATER.bytes
  }

  lemma {:induction false} Segments(key: string, nonempty: bool)
    requires forall i :: 0 <= i < |key| ==> KeyChar(key[i])
    requires key != [] || nonempty
    ensures KeySegments(key, nonempty) == Some(1)
  {
    if key != [] {
      Segments(key[1..], true);
    }
  }

  lemma {:induction false} TwoSegments(first: string, second: string, nonempty: bool)
    requires forall i :: 0 <= i < |first| ==> KeyChar(first[i])
    requires forall i :: 0 <= i < |second| ==> KeyChar(second[i])
    requires (first != [] || nonempty) && second != []
    ensures KeySegments(first + ['.'] + second, nonempty) == Some(2)
  {
    var key := first + ['.'] + second;
    if first == [] {
      assert key[1..] == second;
      Segments(second, false);
    } else {
      assert key[1..] == first[1..] + ['.'] + second;
      TwoSegments(first[1..], second, true);
    }
  }

  lemma {:induction false} NoNul(text: string)
    requires forall i :: 0 <= i < |text| ==> 0 < text[i] as int < 0x80
    ensures |Utf8.Encode(text)| == |text| && !HasNul(text)
  {
    Utf8.EncodeAscii(text);
  }

  lemma ArchitectureSegments()
    ensures KeySegments("general" + ['.'] + "architecture", false) == Some(2)
  {
    hide KeySegments;
    var first, second := "general", "architecture";
    assert forall i :: 0 <= i < |first| ==> KeyChar(first[i]);
    assert forall i :: 0 <= i < |second| ==> KeyChar(second[i]);
    TwoSegments(first, second, false);
  }

  lemma ArchitectureKey()
    ensures ValidKey("general.architecture") && |Utf8.Encode("general.architecture")| == 20
  {
    hide Utf8.Encode, KeySegments;
    var key := "general.architecture";
    NoNul(key);
    assert key == "general" + ['.'] + "architecture";
    ArchitectureSegments();
  }

  lemma ArchitectureIsValid(count: nat)
    requires count <= MAX_TENSORS
    ensures ValidPrefix(Prefix(count, ARCHITECTURE))
    ensures Interpret(ARCHITECTURE, false) == Ok(HeaderFacts("llama", 32, None))
  {
    hide Utf8.Encode, ValidKey, HasNul;
    ArchitectureKey();
    NoNul("llama");
    assert ARCHITECTURE[1..] == [];
    assert ScanFacts([], Facts(Some("llama"), None, None)) == Ok(Facts(Some("llama"), None, None));
  }

  lemma ArchitectureIsShort(count: nat)
    ensures |WritePrefix(Prefix(count, ARCHITECTURE))| < 1000
  {
    hide Utf8.Encode, LittleEndian, ValidKey;
    ArchitectureKey();
    NoNul("llama");
    var items := ARCHITECTURE;
    assert items[1..] == [] && WriteMetadata([]) == [];
    assert |WriteMetadata(items)| < 900;
  }

  lemma DescriptorIsValid(t: Tensor, seen: set<string>)
    requires t == LATER || t == SOONER
    requires t.name !in seen
    ensures ValidInfo(InfoOf(t), seen, false) && |WriteInfo(InfoOf(t))| < 1000
  {
    hide Utf8.Encode, LittleEndian;
    NoNul(t.name);
    assert CheckTensorName(t.name).Pass?;
    assert NBytes(F32, [1]) == Ok(4) by {
      assert Product([1]) == 1 * Product([]);
      NBytesMeaning(F32, [1], 4);
    }
  }

  lemma SwappedInfos()
    ensures InfosOf(SWAPPED) == [InfoOf(LATER), InfoOf(SOONER)]
    ensures TensorRanges(SWAPPED) == [Range(32, 36), Range(0, 4)]
  {
    assert SWAPPED[1..] == [SOONER] && [SOONER][1..] == [];
    assert InfosOf([SOONER]) == [InfoOf(SOONER)] && TensorRanges([SOONER]) == [Range(0, 4)];
  }

  lemma TwoInfos(a: Info, b: Info)
    requires ValidInfo(a, {}, false) && ValidInfo(b, {a.name}, false)
    ensures ValidInfos([a, b], {}, false) && |WriteInfos([a, b])| == |WriteInfo(a)| + |WriteInfo(b)|
  {
    hide ValidInfo, WriteInfo;
    var infos := [a, b];
    var seen: set<string> := {};
    assert infos[1..] == [b] && [b][1..] == [] && seen + {a.name} == {a.name};
    assert ValidInfos([b], {a.name}, false);
    assert WriteInfos([b]) == WriteInfo(b) + [];
  }

  lemma SwappedIsValid()
    ensures ValidInfos(InfosOf(SWAPPED), {}, false) && !AnyQuantized(InfosOf(SWAPPED))
    ensures |WriteInfos(InfosOf(SWAPPED))| < 2000
  {
    hide ValidInfo, WriteInfo, ValidInfos, WriteInfos;
    SwappedInfos();
    DescriptorIsValid(LATER, {});
    DescriptorIsValid(SOONER, {"a"});
    TwoInfos(InfoOf(LATER), InfoOf(SOONER));
  }

  /** Slicing gives tensors back that hold their own slices. */
  lemma {:induction false} SlicedAgain(ts: seq<Tensor>, data: seq<Byte>, alignment: nat)
    requires alignment > 0 && |data| < TWO_64 && SlicedFrom(ts, data, alignment)
    ensures SliceTensors(InfosOf(ts), data, alignment) == Ok(ts)
  {
    if ts != [] {
      var t, infos := ts[0], InfosOf(ts);
      SlicedAgain(ts[1..], data, alignment);
      assert infos[0] == InfoOf(t) && infos[1..] == InfosOf(ts[1..]);
      assert Tensor(t.name, t.tensorType, t.shape, t.offset, data[t.offset..t.offset + |t.bytes|]) == t;
      assert ts == [t] + ts[1..];
    }
  }

  lemma SwappedSlices()
    ensures SliceTensors(InfosOf(SWAPPED), SwappedData(), 32) == Ok(SWAPPED)
    ensures InData(TensorRanges(SWAPPED), |SwappedData()|)
    ensures CheckDataPadding(SwappedData(), TensorRanges(SWAPPED)).Pass?
  {
    hide SliceTensors, CheckDataPadding;
    SwappedInfos();
    SwappedPadding();
    var data := SwappedData();
    assert data[32..36] == LATER.bytes && data[0..4] == SOONER.bytes;
    assert SWAPPED[1..] == [SOONER] && [SOONER][1..] == [];
    assert SlicedFrom([SOONER], data, 32);
    SlicedAgain(SWAPPED, data, 32);
  }

  lemma SwappedPadding()
    ensures var rs := [Range(32, 36), Range(0, 4)];
            InData(rs, |SwappedData()|) && CheckDataPadding(SwappedData(), rs).Pass?
  {
    var rs := [Range(32, 36), Range(0, 4)];
    var data := SwappedData();
    assert rs[1..] == [Range(0, 4)] && rs[1..][1..] == [];
    assert PairwiseApart(rs);
    forall i | 0 <= i < |data| && !Covered(rs, i)
      ensures data[i] == 0
    {
      assert rs[0] in rs && rs[1] in rs;
      assert 4 <= i < 32;
    }
    CheckDataPaddingMeaning(data, rs);
  }

  /** The file of the two tensors. */
  function SwappedFile(dataStart: nat): File {
    File(GGUF_VERSION, 32, "llama", None, ARCHITECTURE, SWAPPED, |HeaderOf(ARCHITECTURE, SWAPPED)|, dataStart)
  }

  lemma SwappedNotInOrder(dataStart: nat)
    ensures !InLayoutOrder(SwappedFile(dataStart))
  {
    assert DraftsOf(SWAPPED)[0].bytes == LATER.bytes;
    assert OffsetsOf(SWAPPED)[0] == 32;
    assert Layout(Payloads(DraftsOf(SWAPPED)), 32, []).0[0] == 0;
  }

  /** Some bytes parse to the file of the swapped tensors, and writing its contents gives other bytes. */
  lemma SwappedDoesNotEncodeBack() returns (bytes: seq<Byte>, f: File)
    ensures Parse(bytes) == Ok(f) && f.tensors == SWAPPED
    ensures var out := EncodeFile(f.metadata, DraftsOf(f.tensors)); out.Err? || !(out.value <= bytes)
  {
    hide CheckDataPadding, SliceTensors, ValidInfos, ValidPrefix, Interpret, InLayoutOrder, WritePrefix, WriteInfos,
      ParseMax, EncodeFile;
    ArchitectureIsValid(2);
    ArchitectureIsShort(2);
    SwappedIsValid();
    SwappedSlices();
    var head := HeaderOf(ARCHITECTURE, SWAPPED);
    assert |head| < 3000;
    var dataStart := AlignUp(|head|, 32).value;
    AssembledParses(ARCHITECTURE, SWAPPED, HeaderFacts("llama", 32, None), dataStart, SwappedData(),
                    MAX_FILE_BYTES, false);
    bytes := head + Zeros(dataStart - |head|) + SwappedData();
    f := SwappedFile(dataStart);
    SwappedNotInOrder(dataStart);
    ParseThenEncode(bytes, f);
  }
}
