/** The GGUF writer as the source runs it: checks, then pushes into one growing buffer. */
module GgufWriter {
  import opened Wrappers
  import opened Bytes
  import opened GgufTypes
  import opened GgufFormat
  import opened GgufHeader
  import opened GgufData
  import opened GgufFile
  import opened GgufFacts
  import Utf8

  /** `push_u16`, `push_u32`, `push_u64`. */
  method PushUint(out: Buffer, value: nat, width: nat)
    modifies out
    ensures out.data == old(out.data) + LittleEndian(value, width)
  {
    out.Extend(LittleEndian(value, width));
  }

  method PushString(out: Buffer, text: string)
    modifies out
    ensures out.data == old(out.data) + WriteString(text)
  {
    ghost var before := out.data;
    PushUint(out, |Utf8.Encode(text)|, 8);
    out.Extend(Utf8.Encode(text));
    ConcatAssociative(before, LittleEndian(|Utf8.Encode(text)|, 8), Utf8.Encode(text));
  }

  method WriteInto(out: Buffer, value: Value)
    modifies out
    ensures out.data == old(out.data) + WriteValue(value)
    decreases value
  {
    hide LittleEndian, WriteString, WriteItems;
    ghost var before := out.data;
    match value
    case String(text) => PushString(out, text);
    case Array(element, items) =>
      PushUint(out, ValueTypeCode(element), 4);
      PushUint(out, |items|, 8);
      WriteElements(out, items);
      JoinArray(before, element, items);
    case _ => PushUint(out, ToBits(value), Width(TypeOf(value)));
  }

  lemma JoinArray(before: seq<Byte>, element: ValueType, items: seq<Value>)
    ensures before + LittleEndian(ValueTypeCode(element), 4) + LittleEndian(|items|, 8) + WriteItems(items)
         == before + WriteValue(Array(element, items))
  {
    hide LittleEndian, WriteItems;
    var a, b, c := LittleEndian(ValueTypeCode(element), 4), LittleEndian(|items|, 8), WriteItems(items);
    ConcatAssociative(before + a, b, c);
    ConcatAssociative(before, a, b + c);
  }

  method WriteElements(out: Buffer, items: seq<Value>)
    modifies out
    ensures out.data == old(out.data) + WriteItems(items)
    decreases items
  {
    hide WriteValue;
    assert items[0..] == items;
    for i := 0 to |items|
      invariant out.data + WriteItems(items[i..]) == old(out.data) + WriteItems(items)
    {
      ghost var before := out.data;
      WriteInto(out, items[i]);
      assert items[i..][1..] == items[i + 1..];
      ConcatAssociative(before, WriteValue(items[i]), WriteItems(items[i + 1..]));
    }
  }

  method PushMetadata(out: Buffer, metadata: seq<Metadata>)
    modifies out
    ensures out.data == old(out.data) + WriteMetadata(metadata)
  {
    hide WriteValue, WriteString, LittleEndian;
    assert metadata[0..] == metadata;
    for i := 0 to |metadata|
      invariant out.data + WriteMetadata(metadata[i..]) == old(out.data) + WriteMetadata(metadata)
    {
      ghost var before := out.data;
      var item := metadata[i];
      PushString(out, item.key);
      PushUint(out, ValueTypeCode(TypeOf(item.value)), 4);
      WriteInto(out, item.value);
      assert metadata[i..][1..] == metadata[i + 1..];
      JoinPair(before, item, WriteMetadata(metadata[i + 1..]));
    }
  }

  lemma JoinPair(before: seq<Byte>, item: Metadata, tail: seq<Byte>)
    ensures before + WriteString(item.key) + LittleEndian(ValueTypeCode(TypeOf(item.value)), 4)
            + WriteValue(item.value) + tail
         == before + (WriteString(item.key)
                      + (LittleEndian(ValueTypeCode(TypeOf(item.value)), 4) + (WriteValue(item.value) + tail)))
  {
    hide WriteValue, WriteString, LittleEndian;
    var a, b, c := WriteString(item.key), LittleEndian(ValueTypeCode(TypeOf(item.value)), 4), WriteValue(item.value);
    ConcatAssociative(before + a + b, c, tail);
    ConcatAssociative(before + a, b, c + tail);
    ConcatAssociative(before, a, b + (c + tail));
  }

  method PushDims(out: Buffer, dims: seq<u64>)
    modifies out
    ensures out.data == old(out.data) + WriteDims(dims)
  {
    hide LittleEndian;
    assert dims[0..] == dims;
    for i := 0 to |dims|
      invariant out.data + WriteDims(dims[i..]) == old(out.data) + WriteDims(dims)
    {
      ghost var before := out.data;
      PushUint(out, dims[i], 8);
      assert dims[i..][1..] == dims[i + 1..];
      ConcatAssociative(before, LittleEndian(dims[i], 8), WriteDims(dims[i + 1..]));
    }
  }

  method PushDescriptor(out: Buffer, info: Info)
    modifies out
    ensures out.data == old(out.data) + WriteInfo(info)
  {
    hide LittleEndian, WriteString, WriteDims;
    ghost var before := out.data;
    PushString(out, info.name);
    PushUint(out, |info.shape|, 4);
    PushDims(out, info.shape);
    PushUint(out, TensorTypeCode(info.tensorType), 4);
    PushUint(out, info.offset, 8);
    ghost var a, b, c, d, e := WriteString(info.name), LittleEndian(|info.shape|, 4), WriteDims(info.shape),
                               LittleEndian(TensorTypeCode(info.tensorType), 4), LittleEndian(info.offset, 8);
    ConcatAssociative(before + a + b + c, d, e);
    ConcatAssociative(before + a + b, c, d + e);
    ConcatAssociative(before + a, b, c + (d + e));
    ConcatAssociative(before, a, b + (c + (d + e)));
  }

  method PushDescriptors(out: Buffer, infos: seq<Info>)
    modifies out
    ensures out.data == old(out.data) + WriteInfos(infos)
  {
    hide WriteInfo;
    assert infos[0..] == infos;
    for i := 0 to |infos|
      invariant out.data + WriteInfos(infos[i..]) == old(out.data) + WriteInfos(infos)
    {
      ghost var before := out.data;
      PushDescriptor(out, infos[i]);
      assert infos[i..][1..] == infos[i + 1..];
      ConcatAssociative(before, WriteInfo(infos[i]), WriteInfos(infos[i + 1..]));
    }
  }

  method PushHeader(out: Buffer, metadata: seq<Metadata>, tensors: seq<Tensor>)
    modifies out
    ensures out.data == old(out.data) + HeaderOf(metadata, tensors)
  {
    hide LittleEndian, WriteMetadata, WriteInfos;
    ghost var before := out.data;
    out.Extend(MAGIC);
    PushUint(out, GGUF_VERSION, 4);
    PushUint(out, |tensors|, 8);
    PushUint(out, |metadata|, 8);
    PushMetadata(out, metadata);
    ghost var v, t, k, m := LittleEndian(GGUF_VERSION, 4), LittleEndian(|tensors|, 8),
                            LittleEndian(|metadata|, 8), WriteMetadata(metadata);
    ConcatAssociative(before + MAGIC + v + t, k, m);
    ConcatAssociative(before + MAGIC + v, t, k + m);
    ConcatAssociative(before + MAGIC, v, t + (k + m));
    ConcatAssociative(before, MAGIC, v + (t + (k + m)));
    ghost var prefix := WritePrefix(Prefix(|tensors|, metadata));
    assert out.data == before + prefix;
    PushDescriptors(out, InfosOf(tensors));
    ConcatAssociative(before, prefix, WriteInfos(InfosOf(tensors)));
  }

  /** The draft loop of `encode_gguf`. */
  method CheckAllDrafts(tensors: seq<Draft>) returns (r: Outcome<Error>)
    ensures r == CheckDrafts(tensors, {})
  {
    hide CheckTensorName, NBytes;
    var names: set<string> := {};
    assert tensors[0..] == tensors;
    for i := 0 to |tensors|
      invariant CheckDrafts(tensors, {}) == CheckDrafts(tensors[i..], names)
    {
      var t := tensors[i];
      assert tensors[i..][1..] == tensors[i + 1..];
      var named := CheckTensorName(t.name);
      if named.Fail? {
        return named;
      }
      if t.name in names {
        return Fail(DuplicateTensor);
      }
      var nbytes := NBytes(t.tensorType, t.shape);
      if nbytes.Err? {
        return Fail(nbytes.error);
      }
      if |t.bytes| != nbytes.value {
        return Fail(PayloadLengthMismatch);
      }
      names := names + {t.name};
    }
    r := Pass;
  }

  /** `encode_gguf`. */
  method EncodeGguf(metadata: seq<Metadata>, tensors: seq<Draft>) returns (r: Result<seq<Byte>, Error>)
    ensures r == EncodeFile(metadata, tensors)
  {
    hide CheckDrafts, Interpret, HeaderOf, Layout, ValidateMetadata, AlignUp;
    if |tensors| > MAX_TENSORS {
      return Err(TooManyTensors);
    }
    var valid := ValidateMetadata(metadata);
    if valid.Fail? {
      return Err(valid.error);
    }
    var checked := CheckAllDrafts(tensors);
    if checked.Fail? {
      return Err(checked.error);
    }
    var facts := InterpretItems(metadata, AnyQuantizedDraft(tensors));
    if facts.Err? {
      return Err(facts.error);
    }
    var offsets, data := LayoutData(Payloads(tensors), facts.value.alignment);
    r := WriteFile(metadata, At(tensors, offsets), facts.value.alignment, data);
  }

  /** The writing half of `encode_gguf`: header, zero padding, data section, size limit. */
  method WriteFile(metadata: seq<Metadata>, tensors: seq<Tensor>, alignment: nat, data: seq<Byte>)
    returns (r: Result<seq<Byte>, Error>)
    ensures r == var head := HeaderOf(metadata, tensors);
                 match AlignUp(|head|, alignment)
                 case Err(e) => Err(e)
                 case Ok(dataStart) =>
                   var out := head + Zeros(dataStart - |head|) + data;
                   if |out| > MAX_FILE_BYTES then Err(FileTooLarge) else Ok(out)
  {
    hide HeaderOf;
    var out := new Buffer();
    PushHeader(out, metadata, tensors);
    assert out.data == HeaderOf(metadata, tensors);
    var dataStart := AlignUp(|out.data|, alignment);
    if dataStart.Err? {
      return Err(dataStart.error);
    }
    out.Extend(Zeros(dataStart.value - |out.data|));
    out.Extend(data);
    if |out.data| > MAX_FILE_BYTES {
      return Err(FileTooLarge);
    }
    r := Ok(out.data);
  }
}
