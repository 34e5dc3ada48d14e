/** Whole GGUF files, read and written. */
module GgufFile {
  /*
   Whole GGUF files: what `parse_gguf_bytes_max` accepts, what `encode_gguf` writes, and
   three theorems about them. A file is determined by what it parses to, up to zero bytes
   at its end; every file that is written parses back to what was written; and a parsed
   file whose tensors stand where the writer would put them is written back unchanged.
   */
  import opened Wrappers
  import opened Bytes
  import opened GgufTypes
  import opened GgufHeader
  import opened GgufData

  datatype Tensor = Tensor(name: string, tensorType: TensorType, shape: seq<u64>, offset: nat, bytes: seq<Byte>)

  datatype Draft = Draft(name: string, tensorType: TensorType, shape: seq<u64>, bytes: seq<Byte>)

  datatype File = File(
    version: nat,
    alignment: nat,
    architecture: string,
    quantVersion: Option<nat>,
    metadata: seq<Metadata>,
    tensors: seq<Tensor>,
    infoEnd: nat,
    dataStart: nat)

  // ---------------------------------------------------------------- parsing

  predicate AnyQuantized(infos: seq<Info>) {
    exists info <- infos :: RequiresQuantVersion(info.tensorType)
  }

  /** Cut the payloads out of the data section, checking each offset. */
  function SliceTensors(infos: seq<Info>, data: seq<Byte>, alignment: nat): Result<seq<Tensor>, Error>
    requires alignment > 0
  {
    if infos == [] then Ok([])
    else
      var info := infos[0];
      var end := info.offset + info.nbytes;
      if info.offset % alignment != 0 then Err(MisalignedOffset)
      else if end >= TWO_64 then Err(LengthOverflow)
      else if end > |data| then Err(TensorOutsideFile)
      else
        var rest :- SliceTensors(infos[1..], data, alignment);
        Ok([Tensor(info.name, info.tensorType, info.shape, info.offset, data[info.offset..end])] + rest)
  }

  function TensorRange(t: Tensor): Range {
    Range(t.offset, t.offset + |t.bytes|)
  }

  function TensorRanges(ts: seq<Tensor>): (rs: seq<Range>)
    ensures |rs| == |ts|
  {
    if ts == [] then [] else [TensorRange(ts[0])] + TensorRanges(ts[1..])
  }

  /** The descriptor that announces a tensor. */
  function InfoOf(t: Tensor): Info {
    Info(t.name, t.tensorType, t.shape, t.offset, |t.bytes|)
  }

  function InfosOf(ts: seq<Tensor>): (infos: seq<Info>)
    ensures |infos| == |ts|
  {
    if ts == [] then [] else [InfoOf(ts[0])] + InfosOf(ts[1..])
  }

  lemma {:induction false} SliceMeaning(infos: seq<Info>, data: seq<Byte>, alignment: nat)
    requires alignment > 0 && SliceTensors(infos, data, alignment).Ok?
    ensures var ts := SliceTensors(infos, data, alignment).value;
            && InfosOf(ts) == infos && InData(TensorRanges(ts), |data|)
            && SlicedFrom(ts, data, alignment)
  {
    if infos != [] {
      var ts := SliceTensors(infos, data, alignment).value;
      SliceMeaning(infos[1..], data, alignment);
      assert ts[1..] == SliceTensors(infos[1..], data, alignment).value;
      assert infos == [infos[0]] + infos[1..];
      assert TensorRanges(ts)[1..] == TensorRanges(ts[1..]);
    }
  }

  predicate SlicedFrom(ts: seq<Tensor>, data: seq<Byte>, alignment: nat)
    requires alignment > 0
  {
    ts != [] ==>
      && ts[0].offset % alignment == 0
      && ts[0].offset + |ts[0].bytes| <= |data|
      && data[ts[0].offset..ts[0].offset + |ts[0].bytes|] == ts[0].bytes
      && SlicedFrom(ts[1..], data, alignment)
  }

  lemma {:induction false} SlicedInData(ts: seq<Tensor>, data: seq<Byte>, alignment: nat)
    requires alignment > 0 && SlicedFrom(ts, data, alignment)
    ensures InData(TensorRanges(ts), |data|)
  {
    if ts != [] {
      SlicedInData(ts[1..], data, alignment);
      assert TensorRanges(ts)[1..] == TensorRanges(ts[1..]);
    }
  }

  /** Everything after the descriptors. */
  function ParseData(bytes: seq<Byte>, metadata: seq<Metadata>, infos: seq<Info>, infoEnd: nat): Result<File, Error>
    requires infoEnd <= |bytes|
  {
    var facts :- Interpret(metadata, AnyQuantized(infos));
    var dataStart :- AlignUp(infoEnd, facts.alignment);
    if dataStart > |bytes| then Err(DataOutsideFile)
    else if !AllZero(bytes[infoEnd..dataStart]) then Err(PaddingNotZero)
    else
      var data := bytes[dataStart..];
      var tensors :- SliceTensors(infos, data, facts.alignment);
      SliceMeaning(infos, data, facts.alignment);
      match CheckDataPadding(data, TensorRanges(tensors))
      case Fail(e) => Err(e)
      case Pass =>
        Ok(File(GGUF_VERSION, facts.alignment, facts.architecture, facts.quantVersion,
                metadata, tensors, infoEnd, dataStart))
  }

  function ParseMax(bytes: seq<Byte>, maxFile: nat, runCaps: bool): Result<File, Error> {
    if |bytes| > maxFile then Err(FileTooLarge)
    else
      var (prefix, s1) :- ReadPrefix(bytes);
      if prefix.tensorCount > |s1| then Err(Truncated)
      else
        var (infos, s2) :- ReadInfos(s1, prefix.tensorCount, {}, runCaps);
        ParseData(bytes, prefix.metadata, infos, |bytes| - |s2|)
  }

  /** `parse_gguf_bytes`: the cold reader. */
  function Parse(bytes: seq<Byte>): Result<File, Error> {
    ParseMax(bytes, MAX_FILE_BYTES, false)
  }

  /** `parse_gguf_bytes_capped`: the run path. */
  function ParseCapped(bytes: seq<Byte>): Result<File, Error> {
    ParseMax(bytes, RUN_MAX_FILE_BYTES, true)
  }

  // ---------------------------------------------------------------- no hidden bytes

  function HeaderOf(metadata: seq<Metadata>, tensors: seq<Tensor>): seq<Byte> {
    WritePrefix(Prefix(|tensors|, metadata)) + WriteInfos(InfosOf(tensors))
  }

  /** The byte that the tensors put at index `i` of the data section; zero outside them. */
  function DataAt(ts: seq<Tensor>, i: nat): Byte {
    if ts == [] then 0
    else if Covers(TensorRange(ts[0]), i) then ts[0].bytes[i - ts[0].offset]
    else DataAt(ts[1..], i)
  }

  /** The byte that a parsed file says stands at index `i`, whatever the file's length. */
  function ByteAt(f: File, i: nat): Byte {
    var header := HeaderOf(f.metadata, f.tensors);
    if i < |header| then header[i]
    else if i < f.dataStart then 0
    else DataAt(f.tensors, i - f.dataStart)
  }

  lemma {:induction false} DataAtIs(ts: seq<Tensor>, data: seq<Byte>, alignment: nat, i: nat)
    requires alignment > 0 && SlicedFrom(ts, data, alignment)
    ensures Covered(TensorRanges(ts), i) ==> i < |data| && DataAt(ts, i) == data[i]
    ensures !Covered(TensorRanges(ts), i) ==> DataAt(ts, i) == 0
  {
    if ts != [] {
      var rs, t := TensorRanges(ts), ts[0];
      DataAtIs(ts[1..], data, alignment, i);
      assert rs[0] == TensorRange(t) && rs[1..] == TensorRanges(ts[1..]);
      assert forall r :: r in rs <==> r == rs[0] || r in rs[1..];
      assert Covered(rs, i) <==> Covers(rs[0], i) || Covered(rs[1..], i);
      if Covers(rs[0], i) {
        assert t.bytes[i - t.offset] == data[t.offset..t.offset + |t.bytes|][i - t.offset];
      }
    }
  }

  /** What acceptance tells: the parts of the file and where they stand. */
  lemma ParseMeaning(bytes: seq<Byte>, maxFile: nat, runCaps: bool, f: File)
    requires ParseMax(bytes, maxFile, runCaps) == Ok(f)
    ensures var header := HeaderOf(f.metadata, f.tensors);
            && |bytes| <= maxFile && f.version == GGUF_VERSION
            && ValidPrefix(Prefix(|f.tensors|, f.metadata))
            && ValidInfos(InfosOf(f.tensors), {}, runCaps)
            && f.infoEnd == |header| && header <= bytes
            && Interpret(f.metadata, AnyQuantized(InfosOf(f.tensors)))
               == Ok(HeaderFacts(f.architecture, f.alignment, f.quantVersion))
            && AlignUp(f.infoEnd, f.alignment) == Ok(f.dataStart)
            && f.infoEnd <= f.dataStart <= |bytes|
            && f.alignment > 0
            && SlicedFrom(f.tensors, bytes[f.dataStart..], f.alignment)
            && InData(TensorRanges(f.tensors), |bytes| - f.dataStart)
            && CheckDataPadding(bytes[f.dataStart..], TensorRanges(f.tensors)).Pass?
            && AllZero(bytes[f.infoEnd..f.dataStart])
  {
    hide ReadPrefix, ReadInfos, WritePrefix, WriteInfos, ValidPrefix, ValidInfos, Interpret, CheckDataPadding,
      SliceTensors;
    var (prefix, s1) := ReadPrefix(bytes).value;
    var (infos, s2) := ReadInfos(s1, prefix.tensorCount, {}, runCaps).value;
    PrefixExact(bytes, prefix, s1);
    InfosSound(s1, prefix.tensorCount, {}, runCaps);
    SliceMeaning(infos, bytes[f.dataStart..], f.alignment);
    ConcatAssociative(WritePrefix(prefix), WriteInfos(infos), s2);
  }

  /** A data section that passes the check holds the tensors' bytes and zeros. */
  lemma CheckedDataAt(ts: seq<Tensor>, data: seq<Byte>, alignment: nat, i: nat)
    requires alignment > 0 && SlicedFrom(ts, data, alignment)
    requires InData(TensorRanges(ts), |data|) && CheckDataPadding(data, TensorRanges(ts)).Pass?
    ensures DataAt(ts, i) == if i < |data| then data[i] else 0
  {
    hide SlicedFrom, CheckDataPadding, DataAt, PairwiseApart;
    CheckDataPaddingMeaning(data, TensorRanges(ts));
    DataAtIs(ts, data, alignment, i);
  }

  /** The bytes of an accepted file, and zeros after them, are what its parsed form names. */
  lemma ParsedByte(bytes: seq<Byte>, maxFile: nat, runCaps: bool, f: File, i: nat)
    requires ParseMax(bytes, maxFile, runCaps) == Ok(f)
    ensures ByteAt(f, i) == if i < |bytes| then bytes[i] else 0
  {
    hide ParseMax, HeaderOf, CheckDataPadding, InData, SlicedFrom, DataAt, ValidPrefix, ValidInfos, Interpret, AlignUp;
    ParseMeaning(bytes, maxFile, runCaps, f);
    if f.infoEnd <= i < f.dataStart {
      assert bytes[i] == bytes[f.infoEnd..f.dataStart][i - f.infoEnd];
    } else if f.dataStart <= i {
      CheckedDataAt(f.tensors, bytes[f.dataStart..], f.alignment, i - f.dataStart);
    }
  }

  /**
   A GGUF file has no hidden bytes. Two files that parse to the same value, on either
   reading path, are the same up to zero bytes at the end of the longer one.
   */
  lemma NoHiddenBytes(a: seq<Byte>, maxA: nat, capsA: bool, b: seq<Byte>, maxB: nat, capsB: bool, f: File)
    requires ParseMax(a, maxA, capsA) == Ok(f) && ParseMax(b, maxB, capsB) == Ok(f)
    requires |a| <= |b|
    ensures b == a + Zeros(|b| - |a|)
  {
    hide ParseMax, ByteAt;
    forall i | 0 <= i < |b|
      ensures b[i] == (a + Zeros(|b| - |a|))[i]
    {
      ParsedByte(b, maxB, capsB, f, i);
      ParsedByte(a, maxA, capsA, f, i);
    }
  }

  lemma {:induction false} ApartAt(rs: seq<Range>, j: nat, k: nat)
    requires PairwiseApart(rs) && j < k < |rs|
    ensures Apart(rs[j], rs[k])
  {
    assert rs[k] == rs[1..][k - 1];
    if j > 0 {
      ApartAt(rs[1..], j - 1, k - 1);
    }
  }

  /** A nonzero data byte belongs to exactly one tensor of the accepted file. */
  lemma DataByteBelongsToOneTensor(bytes: seq<Byte>, maxFile: nat, runCaps: bool, f: File, i: nat)
    requires ParseMax(bytes, maxFile, runCaps) == Ok(f) && f.dataStart <= i < |bytes|
    ensures bytes[i] != 0 ==> Covered(TensorRanges(f.tensors), i - f.dataStart)
    ensures forall j, k | 0 <= j < k < |f.tensors| ::
              !Covers(TensorRanges(f.tensors)[j], i - f.dataStart)
              || !Covers(TensorRanges(f.tensors)[k], i - f.dataStart)
  {
    hide ParseMax, HeaderOf, CheckDataPadding, ValidPrefix, ValidInfos, Interpret, AlignUp, SlicedFrom;
    ParseMeaning(bytes, maxFile, runCaps, f);
    var data, rs := bytes[f.dataStart..], TensorRanges(f.tensors);
    CheckDataPaddingMeaning(data, rs);
    assert bytes[i] == data[i - f.dataStart];
    forall j, k | 0 <= j < k < |rs|
      ensures !Covers(rs[j], i - f.dataStart) || !Covers(rs[k], i - f.dataStart)
    {
      ApartAt(rs, j, k);
    }
  }

  // ---------------------------------------------------------------- writing

  function Payloads(ts: seq<Draft>): (ps: seq<seq<Byte>>)
    ensures |ps| == |ts|
  {
    if ts == [] then [] else [ts[0].bytes] + Payloads(ts[1..])
  }

  /** The drafts as tensors at the given offsets. */
  function At(ts: seq<Draft>, offsets: seq<nat>): (r: seq<Tensor>)
    requires |ts| == |offsets|
    ensures |r| == |ts|
  {
    if ts == [] then []
    else
      [Tensor(ts[0].name, ts[0].tensorType, ts[0].shape, offsets[0], ts[0].bytes)] + At(ts[1..], offsets[1..])
  }

  /** The checks `encode_gguf` makes on each draft, after the names in `seen`. */
  function CheckDrafts(ts: seq<Draft>, seen: set<string>): Outcome<Error> {
    if ts == [] then Pass
    else match CheckTensorName(ts[0].name)
      case Fail(e) => Fail(e)
      case Pass =>
        if ts[0].name in seen then Fail(DuplicateTensor)
        else match NBytes(ts[0].tensorType, ts[0].shape)
          case Err(e) => Fail(e)
          case Ok(n) =>
            if |ts[0].bytes| != n then Fail(PayloadLengthMismatch)
            else CheckDrafts(ts[1..], seen + {ts[0].name})
  }

  predicate AnyQuantizedDraft(ts: seq<Draft>) {
    exists t <- ts :: RequiresQuantVersion(t.tensorType)
  }

  function EncodeFile(metadata: seq<Metadata>, ts: seq<Draft>): Result<seq<Byte>, Error> {
    if |ts| > MAX_TENSORS then Err(TooManyTensors)
    else match ValidateMetadata(metadata)
      case Fail(e) => Err(e)
      case Pass =>
        match CheckDrafts(ts, {})
        case Fail(e) => Err(e)
        case Pass =>
          var facts :- Interpret(metadata, AnyQuantizedDraft(ts));
          var (offsets, data) := Layout(Payloads(ts), facts.alignment, []);
          var head := HeaderOf(metadata, At(ts, offsets));
          var dataStart :- AlignUp(|head|, facts.alignment);
          var out := head + Zeros(dataStart - |head|) + data;
          if |out| > MAX_FILE_BYTES then Err(FileTooLarge) else Ok(out)
  }

  // ---------------------------------------------------------------- round trip

  lemma {:induction false} DraftsAreValidInfos(ts: seq<Draft>, offsets: seq<nat>, seen: set<string>)
    requires |ts| == |offsets| && CheckDrafts(ts, seen).Pass?
    requires forall k :: 0 <= k < |offsets| ==> offsets[k] < TWO_64
    ensures ValidInfos(InfosOf(At(ts, offsets)), seen, false)
  {
    hide CheckTensorName, NBytes;
    if ts != [] {
      var tensors := At(ts, offsets);
      DraftsAreValidInfos(ts[1..], offsets[1..], seen + {ts[0].name});
      assert tensors[1..] == At(ts[1..], offsets[1..]);
      assert InfosOf(tensors)[1..] == InfosOf(tensors[1..]);
    }
  }

  lemma {:induction false} QuantizedAgree(ts: seq<Draft>, offsets: seq<nat>)
    requires |ts| == |offsets|
    ensures AnyQuantized(InfosOf(At(ts, offsets))) <==> AnyQuantizedDraft(ts)
  {
    if ts != [] {
      var tensors := At(ts, offsets);
      var infos := InfosOf(tensors);
      QuantizedAgree(ts[1..], offsets[1..]);
      assert tensors[1..] == At(ts[1..], offsets[1..]);
      assert infos[1..] == InfosOf(tensors[1..]);
      assert infos[0].tensorType == ts[0].tensorType;
      assert forall x :: x in infos <==> x == infos[0] || x in infos[1..];
      assert forall x :: x in ts <==> x == ts[0] || x in ts[1..];
    }
  }

  lemma {:induction false} PlacedSlices(ts: seq<Draft>, offsets: seq<nat>, alignment: nat, data: seq<Byte>, from: nat)
    requires alignment > 0 && |data| < TWO_64
    requires Placed(offsets, Payloads(ts), alignment, data, from)
    ensures SliceTensors(InfosOf(At(ts, offsets)), data, alignment) == Ok(At(ts, offsets))
    ensures TensorRanges(At(ts, offsets)) == RangesOf(offsets, Payloads(ts))
    ensures forall k :: 0 <= k < |offsets| ==> offsets[k] <= |data|
    decreases |ts|
  {
    if ts != [] {
      var tensors := At(ts, offsets);
      assert Payloads(ts)[1..] == Payloads(ts[1..]);
      PlacedSlices(ts[1..], offsets[1..], alignment, data, offsets[0] + |ts[0].bytes|);
      assert tensors[1..] == At(ts[1..], offsets[1..]);
      assert InfosOf(tensors)[1..] == InfosOf(tensors[1..]);
      assert forall k :: 0 < k < |offsets| ==> offsets[k] == offsets[1..][k - 1];
    }
  }

  /** The parsed form of the file `encode_gguf` writes. */
  function Written(metadata: seq<Metadata>, ts: seq<Draft>, facts: HeaderFacts, dataStart: nat): File
    requires facts.alignment > 0
  {
    var tensors := At(ts, Layout(Payloads(ts), facts.alignment, []).0);
    File(GGUF_VERSION, facts.alignment, facts.architecture, facts.quantVersion, metadata, tensors,
         |HeaderOf(metadata, tensors)|, dataStart)
  }

  /**
   A file that is put together from a valid prefix, valid descriptors, zero padding and
   a data section that slices and checks parses to those parts.
   */
  lemma AssembledParses(metadata: seq<Metadata>, tensors: seq<Tensor>, facts: HeaderFacts,
                        dataStart: nat, data: seq<Byte>, maxFile: nat, runCaps: bool)
    requires ValidPrefix(Prefix(|tensors|, metadata)) && ValidInfos(InfosOf(tensors), {}, runCaps)
    requires Interpret(metadata, AnyQuantized(InfosOf(tensors))) == Ok(facts)
    requires AlignUp(|HeaderOf(metadata, tensors)|, facts.alignment) == Ok(dataStart)
    requires SliceTensors(InfosOf(tensors), data, facts.alignment) == Ok(tensors)
    requires InData(TensorRanges(tensors), |data|) && CheckDataPadding(data, TensorRanges(tensors)).Pass?
    requires dataStart + |data| <= maxFile
    ensures var head := HeaderOf(metadata, tensors);
            ParseMax(head + Zeros(dataStart - |head|) + data, maxFile, runCaps)
            == Ok(File(GGUF_VERSION, facts.alignment, facts.architecture, facts.quantVersion, metadata, tensors,
                       |head|, dataStart))
  {
    hide ReadPrefix, ReadInfos, WritePrefix, WriteInfos, ValidPrefix, ValidInfos, Interpret, CheckDataPadding,
      SliceTensors;
    var prefix, infos := Prefix(|tensors|, metadata), InfosOf(tensors);
    var head := HeaderOf(metadata, tensors);
    var pad := Zeros(dataStart - |head|);
    var out := head + pad + data;
    var s2 := pad + data;
    var s1 := WriteInfos(infos) + s2;
    ConcatAssociative(head, pad, data);
    ConcatAssociative(WritePrefix(prefix), WriteInfos(infos), s2);
    assert out == WritePrefix(prefix) + s1;
    PrefixExact(out, prefix, s1);
    InfosComplete(infos, {}, runCaps, s2);
    assert out[|head|..dataStart] == pad && out[dataStart..] == data;
  }

  /**
   Whatever `encode_gguf` writes, `parse_gguf_bytes` reads back: the metadata in order,
   every tensor with its payload, and the offsets of the layout, for every valid alignment.
   */
  lemma EncodeThenParse(metadata: seq<Metadata>, ts: seq<Draft>)
    requires EncodeFile(metadata, ts).Ok?
    ensures var facts := Interpret(metadata, AnyQuantizedDraft(ts));
            && facts.Ok?
            && var head := HeaderOf(metadata, At(ts, Layout(Payloads(ts), facts.value.alignment, []).0));
            && var dataStart := AlignUp(|head|, facts.value.alignment);
            && dataStart.Ok?
            && Parse(EncodeFile(metadata, ts).value) == Ok(Written(metadata, ts, facts.value, dataStart.value))
  {
    hide CheckDrafts, Interpret, HeaderOf, CheckDataPadding, SliceTensors, ParseMax;
    var facts := Interpret(metadata, AnyQuantizedDraft(ts)).value;
    var (offsets, data) := Layout(Payloads(ts), facts.alignment, []);
    var tensors := At(ts, offsets);
    var dataStart := AlignUp(|HeaderOf(metadata, tensors)|, facts.alignment).value;
    LayoutPlaces(Payloads(ts), facts.alignment, []);
    PlacedSlices(ts, offsets, facts.alignment, data, 0);
    LayoutPassesCheck(Payloads(ts), facts.alignment);
    DraftsAreValidInfos(ts, offsets, {});
    QuantizedAgree(ts, offsets);
    AssembledParses(metadata, tensors, facts, dataStart, data, MAX_FILE_BYTES, false);
  }

  // ---------------------------------------------------------------- writing what was parsed

  function DraftsOf(ts: seq<Tensor>): (r: seq<Draft>)
    ensures |r| == |ts|
  {
    if ts == [] then [] else [Draft(ts[0].name, ts[0].tensorType, ts[0].shape, ts[0].bytes)] + DraftsOf(ts[1..])
  }

  function OffsetsOf(ts: seq<Tensor>): (r: seq<nat>)
    ensures |r| == |ts|
  {
    if ts == [] then [] else [ts[0].offset] + OffsetsOf(ts[1..])
  }

  lemma {:induction false} DraftsAtOffsets(ts: seq<Tensor>)
    ensures At(DraftsOf(ts), OffsetsOf(ts)) == ts
  {
    if ts != [] {
      DraftsAtOffsets(ts[1..]);
      assert DraftsOf(ts)[1..] == DraftsOf(ts[1..]) && OffsetsOf(ts)[1..] == OffsetsOf(ts[1..]);
      assert ts == [ts[0]] + ts[1..];
    }
  }

  lemma {:induction false} DraftsOfAt(ts: seq<Draft>, offsets: seq<nat>)
    requires |ts| == |offsets|
    ensures DraftsOf(At(ts, offsets)) == ts
  {
    if ts != [] {
      DraftsOfAt(ts[1..], offsets[1..]);
      assert At(ts, offsets)[1..] == At(ts[1..], offsets[1..]);
      assert ts == [ts[0]] + ts[1..];
    }
  }

  lemma {:induction false} OffsetsOfAt(ts: seq<Draft>, offsets: seq<nat>)
    requires |ts| == |offsets|
    ensures OffsetsOf(At(ts, offsets)) == offsets
  {
    if ts != [] {
      OffsetsOfAt(ts[1..], offsets[1..]);
      assert At(ts, offsets)[1..] == At(ts[1..], offsets[1..]);
      assert offsets == [offsets[0]] + offsets[1..];
    }
  }

  /** Nothing is lost or reordered: the parsed file has the metadata and the drafts that were written. */
  lemma EncodeKeepsContents(metadata: seq<Metadata>, ts: seq<Draft>)
    requires EncodeFile(metadata, ts).Ok?
    ensures var f := Parse(EncodeFile(metadata, ts).value);
            f.Ok? && f.value.metadata == metadata && DraftsOf(f.value.tensors) == ts && InLayoutOrder(f.value)
  {
    hide Parse, EncodeFile, Interpret, HeaderOf, Layout;
    EncodeThenParse(metadata, ts);
    var offsets := Layout(Payloads(ts), Interpret(metadata, AnyQuantizedDraft(ts)).value.alignment, []).0;
    DraftsOfAt(ts, offsets);
    OffsetsOfAt(ts, offsets);
  }

  lemma {:induction false} ValidInfosAreDrafts(ts: seq<Tensor>, seen: set<string>, runCaps: bool)
    requires ValidInfos(InfosOf(ts), seen, runCaps)
    ensures CheckDrafts(DraftsOf(ts), seen).Pass?
  {
    hide CheckTensorName, NBytes;
    if ts != [] {
      assert InfosOf(ts)[1..] == InfosOf(ts[1..]);
      ValidInfosAreDrafts(ts[1..], seen + {ts[0].name}, runCaps);
      assert DraftsOf(ts)[1..] == DraftsOf(ts[1..]);
    }
  }

  /** The writer's data section ends with the last payload. */
  lemma {:induction false} LayoutEnds(payloads: seq<seq<Byte>>, alignment: nat, data: seq<Byte>)
    requires alignment > 0
    ensures var (offsets, out) := Layout(payloads, alignment, data);
            |out| == if payloads == [] then |data| else offsets[|payloads| - 1] + |payloads[|payloads| - 1]|
    decreases |payloads|
  {
    if payloads != [] {
      var padded := PadTo(data, alignment);
      LayoutEnds(payloads[1..], alignment, padded + payloads[0]);
    }
  }

  lemma {:induction false} SlicedEnds(ts: seq<Tensor>, data: seq<Byte>, alignment: nat)
    requires alignment > 0 && SlicedFrom(ts, data, alignment) && ts != []
    ensures var last := |ts| - 1;
            && OffsetsOf(ts)[last] + |Payloads(DraftsOf(ts))[last]| <= |data|
  {
    assert DraftsOf(ts)[1..] == DraftsOf(ts[1..]);
    if |ts| > 1 {
      SlicedEnds(ts[1..], data, alignment);
    }
  }

  predicate InLayoutOrder(f: File) {
    f.alignment > 0 && OffsetsOf(f.tensors) == Layout(Payloads(DraftsOf(f.tensors)), f.alignment, []).0
  }

  /**
   A parsed file whose tensors stand where the writer lays them out is written back to the
   same bytes, less the zeros after its last tensor.
   */
  lemma LayoutOrderEncodesBack(bytes: seq<Byte>, f: File)
    requires Parse(bytes) == Ok(f) && InLayoutOrder(f)
    ensures var out := EncodeFile(f.metadata, DraftsOf(f.tensors));
            out.Ok? && out.value <= bytes && AllZero(bytes[|out.value|..])
  {
    hide CheckDrafts, Interpret, HeaderOf, CheckDataPadding, ParseMax, ValidInfos, InfosOf, SlicedFrom, NBytes;
    ParseMeaning(bytes, MAX_FILE_BYTES, false, f);
    var ts := DraftsOf(f.tensors);
    var (offsets, data) := Layout(Payloads(ts), f.alignment, []);
    DraftsAtOffsets(f.tensors);
    ValidInfosAreDrafts(f.tensors, {}, false);
    QuantizedAgree(ts, offsets);
    LayoutEnds(Payloads(ts), f.alignment, []);
    if f.tensors != [] {
      SlicedEnds(f.tensors, bytes[f.dataStart..], f.alignment);
    }
    var out := EncodeFile(f.metadata, ts);
    assert out.Ok?;
    EncodeThenParse(f.metadata, ts);
    NoHiddenBytes(out.value, MAX_FILE_BYTES, false, bytes, MAX_FILE_BYTES, false, f);
  }

  /** The bytes after the prefix start with the descriptors of one list of tensors only. */
  lemma HeaderHasOneList(bytes: seq<Byte>, metadata: seq<Metadata>, as_: seq<Tensor>, bs: seq<Tensor>)
    requires |as_| == |bs| && HeaderOf(metadata, as_) <= bytes && HeaderOf(metadata, bs) <= bytes
    requires ValidInfos(InfosOf(as_), {}, false) && ValidInfos(InfosOf(bs), {}, false)
    ensures InfosOf(as_) == InfosOf(bs)
  {
    hide WritePrefix, WriteInfos, ValidInfos, ReadInfos, InfosOf;
    var prefix := WritePrefix(Prefix(|as_|, metadata));
    var s := bytes[|prefix|..];
    var n, m := |HeaderOf(metadata, as_)|, |HeaderOf(metadata, bs)|;
    assert bytes == HeaderOf(metadata, as_) + bytes[n..] == HeaderOf(metadata, bs) + bytes[m..];
    ConcatAssociative(prefix, WriteInfos(InfosOf(as_)), bytes[n..]);
    ConcatAssociative(prefix, WriteInfos(InfosOf(bs)), bytes[m..]);
    assert s == WriteInfos(InfosOf(as_)) + bytes[n..] == WriteInfos(InfosOf(bs)) + bytes[m..];
    InfosComplete(InfosOf(as_), {}, false, bytes[n..]);
    InfosComplete(InfosOf(bs), {}, false, bytes[m..]);
  }

  lemma {:induction false} SameInfosSameOffsets(as_: seq<Tensor>, bs: seq<Tensor>)
    requires InfosOf(as_) == InfosOf(bs) && |as_| == |bs|
    ensures OffsetsOf(as_) == OffsetsOf(bs)
  {
    if as_ != [] {
      assert InfosOf(as_)[0] == InfosOf(bs)[0];
      assert InfosOf(as_)[1..] == InfosOf(as_[1..]) && InfosOf(bs)[1..] == InfosOf(bs[1..]);
      SameInfosSameOffsets(as_[1..], bs[1..]);
    }
  }

  lemma SameFactsSameOrder(f: File, g: File)
    requires DraftsOf(f.tensors) == DraftsOf(g.tensors) && OffsetsOf(f.tensors) == OffsetsOf(g.tensors)
    requires f.alignment == g.alignment && InLayoutOrder(g)
    ensures InLayoutOrder(f)
  {
    hide Layout;
  }

  /** Only a file in layout order starts with what the writer makes of its contents. */
  lemma EncodeBackForcesLayout(bytes: seq<Byte>, f: File)
    requires Parse(bytes) == Ok(f)
    requires EncodeFile(f.metadata, DraftsOf(f.tensors)).Ok?
    requires EncodeFile(f.metadata, DraftsOf(f.tensors)).value <= bytes
    ensures InLayoutOrder(f)
  {
    hide CheckDrafts, Interpret, HeaderOf, ParseMax, EncodeFile, InLayoutOrder, ValidInfos, InfosOf, SlicedFrom,
      CheckDataPadding, Layout, OffsetsOf, Payloads, ValidPrefix, AlignUp, InData;
    var ts := DraftsOf(f.tensors);
    var out := EncodeFile(f.metadata, ts).value;
    EncodeKeepsContents(f.metadata, ts);
    var g := Parse(out).value;
    ParseMeaning(bytes, MAX_FILE_BYTES, false, f);
    ParseMeaning(out, MAX_FILE_BYTES, false, g);
    HeaderHasOneList(bytes, f.metadata, f.tensors, g.tensors);
    SameInfosSameOffsets(f.tensors, g.tensors);
    SameFactsSameOrder(f, g);
  }

  /**
   When `encode_gguf` undoes `parse_gguf_bytes`, and exactly when: writing the contents of a
   parsed file gives its bytes back, up to zeros at its end, if and only if its tensors
   stand in the order and at the offsets the writer would choose.
   */
  lemma ParseThenEncode(bytes: seq<Byte>, f: File)
    requires Parse(bytes) == Ok(f)
    ensures var out := EncodeFile(f.metadata, DraftsOf(f.tensors));
            && (InLayoutOrder(f) <==> out.Ok? && out.value <= bytes)
            && (InLayoutOrder(f) ==> AllZero(bytes[|out.value|..]))
  {
    hide EncodeFile, Parse, InLayoutOrder;
    if InLayoutOrder(f) {
      LayoutOrderEncodesBack(bytes, f);
    }
    var out := EncodeFile(f.metadata, DraftsOf(f.tensors));
    if out.Ok? && out.value <= bytes {
      EncodeBackForcesLayout(bytes, f);
    }
  }
}
