/** The GGUF prefix and tensor descriptors. */
module GgufHeader {
  /*
   The GGUF header: the magic, the version, the two counts and the metadata (the prefix), and
   the tensor descriptors after it. Each reader takes the bytes that are left and returns what it
   read with the bytes after it. The prefix and the descriptors are each shown to be readable
   exactly when the bytes start with the encoding of a valid value, and a reader that was not cut
   short answers the same when more bytes follow.
   */
  import opened Wrappers
  import opened Bytes
  import opened GgufTypes
  import opened GgufFormat
  import Utf8

  // ---------------------------------------------------------------- prefix

  const MAGIC: seq<Byte> := [0x47, 0x47, 0x55, 0x46]

  datatype Prefix = Prefix(tensorCount: nat, metadata: seq<Metadata>)

  /** `read_gguf_prefix`: header and metadata, not the tensor section. */
  function ReadPrefix(s: seq<Byte>): (r: Read<Prefix>)
    ensures r.Ok? ==> |r.value.1| < |s|
  {
    var (magic, s1) :- Take(s, 4);
    if magic != MAGIC then Err(BadMagic)
    else
      var (version, s2) :- ReadUint(s1, 4);
      if version != GGUF_VERSION then Err(BadVersion)
      else
        var (tensorCount, s3) :- ReadUint(s2, 8);
        var (kvCount, s4) :- ReadUint(s3, 8);
        ReadPrefixBody(s4, tensorCount, kvCount)
  }

  function ReadPrefixBody(s: seq<Byte>, tensorCount: nat, kvCount: nat): (r: Read<Prefix>)
    ensures r.Ok? ==> |r.value.1| <= |s|
  {
    if kvCount > MAX_METADATA then Err(TooManyMetadata)
    else if tensorCount > MAX_TENSORS then Err(TooManyTensors)
    else if kvCount > |s| then Err(Truncated)
    else
      var (metadata, rest) :- ReadMetadata(s, kvCount, {});
      match ValidateMetadata(metadata)
      case Fail(e) => Err(e)
      case Pass => Ok((Prefix(tensorCount, metadata), rest))
  }

  function WritePrefix(p: Prefix): (bs: seq<Byte>)
  {
    MAGIC + (LittleEndian(GGUF_VERSION, 4)
             + (LittleEndian(p.tensorCount, 8) + (LittleEndian(|p.metadata|, 8) + WriteMetadata(p.metadata))))
  }

  predicate ValidPrefix(p: Prefix) {
    p.tensorCount <= MAX_TENSORS && ValidateMetadata(p.metadata).Pass?
  }

  /** The second validation, after the loop has read every pair, never fails. */
  lemma MetadataReadIsValid(s: seq<Byte>, count: nat)
    requires count <= MAX_METADATA && ReadMetadata(s, count, {}).Ok?
    ensures ValidateMetadata(ReadMetadata(s, count, {}).value.0).Pass?
  {
    MetadataSound(s, count, {});
  }

  lemma WritePrefixThen(p: Prefix, rest: seq<Byte>)
    ensures WritePrefix(p) + rest ==
            MAGIC + (LittleEndian(GGUF_VERSION, 4)
                     + (LittleEndian(p.tensorCount, 8)
                        + (LittleEndian(|p.metadata|, 8) + (WriteMetadata(p.metadata) + rest))))
  {
    hide LittleEndian, WriteMetadata;
    var v, t, k, m := LittleEndian(GGUF_VERSION, 4), LittleEndian(p.tensorCount, 8),
                      LittleEndian(|p.metadata|, 8), WriteMetadata(p.metadata);
    ConcatAssociative(MAGIC, v + (t + (k + m)), rest);
    ConcatAssociative(v, t + (k + m), rest);
    ConcatAssociative(t, k + m, rest);
    ConcatAssociative(k, m, rest);
  }

  /** The prefix reader inverts the prefix writer on exactly the valid prefixes. */
  lemma PrefixExact(s: seq<Byte>, p: Prefix, rest: seq<Byte>)
    ensures ReadPrefix(s) == Ok((p, rest)) <==> ValidPrefix(p) && s == WritePrefix(p) + rest
  {
    if ReadPrefix(s) == Ok((p, rest)) {
      PrefixSound(s, p, rest);
    }
    if ValidPrefix(p) && s == WritePrefix(p) + rest {
      PrefixComplete(p, rest);
    }
  }

  lemma PrefixSound(s: seq<Byte>, p: Prefix, rest: seq<Byte>)
    requires ReadPrefix(s) == Ok((p, rest))
    ensures ValidPrefix(p) && s == WritePrefix(p) + rest
  {
    hide LittleEndian, ReadMetadata, WriteMetadata, ValidateMetadata, ReadUint;
    var s1 := Take(s, 4).value.1;
    var (version, s2) := ReadUint(s1, 4).value;
    var (tensorCount, s3) := ReadUint(s2, 8).value;
    var (kvCount, s4) := ReadUint(s3, 8).value;
    assert s == MAGIC + s1;
    UintExact(s1, 4, version, s2);
    UintExact(s2, 8, tensorCount, s3);
    UintExact(s3, 8, kvCount, s4);
    MetadataSound(s4, kvCount, {});
    WritePrefixThen(p, rest);
  }

  lemma PrefixComplete(p: Prefix, rest: seq<Byte>)
    requires ValidPrefix(p)
    ensures ReadPrefix(WritePrefix(p) + rest) == Ok((p, rest))
  {
    hide LittleEndian, ReadMetadata, WriteMetadata, ReadUint, Pow256;
    Pow256Values();
    var s4 := WriteMetadata(p.metadata) + rest;
    var s3 := LittleEndian(|p.metadata|, 8) + s4;
    var s2 := LittleEndian(p.tensorCount, 8) + s3;
    var s1 := LittleEndian(GGUF_VERSION, 4) + s2;
    WritePrefixThen(p, rest);
    SplitConcat(MAGIC, s1);
    UintExact(s1, 4, GGUF_VERSION, s2);
    UintExact(s2, 8, p.tensorCount, s3);
    UintExact(s3, 8, |p.metadata|, s4);
    MetadataComplete(p.metadata, {}, rest);
  }

  /** Appending bytes changes no outcome of the prefix reader but `Truncated`. */
  lemma PrefixStable(s: seq<Byte>, more: seq<Byte>)
    ensures Stable(ReadPrefix(s), ReadPrefix(s + more), more)
  {
    hide ReadMetadata, ValidateMetadata, ReadUint, Take;
    TakeStable(s, 4, more);
    if Take(s, 4).Ok? {
      var s1 := Take(s, 4).value.1;
      UintStable(s1, 4, more);
      if ReadUint(s1, 4).Ok? {
        var s2 := ReadUint(s1, 4).value.1;
        UintStable(s2, 8, more);
        if ReadUint(s2, 8).Ok? {
          var (tensorCount, s3) := ReadUint(s2, 8).value;
          UintStable(s3, 8, more);
          if ReadUint(s3, 8).Ok? {
            var (kvCount, s4) := ReadUint(s3, 8).value;
            MetadataStable(s4, kvCount, {}, more);
          }
        }
      }
    }
  }

  // ---------------------------------------------------------------- tensor descriptors

  datatype Info = Info(name: string, tensorType: TensorType, shape: seq<u64>, offset: nat, nbytes: nat)

  function ReadDim(s: seq<Byte>): (r: Read<u64>)
    ensures r.Ok? ==> |s| == |r.value.1| + 8
  {
    Pow256Values();
    var (dim, rest) :- ReadUint(s, 8);
    Ok((dim, rest))
  }

  function ReadDims(s: seq<Byte>, count: nat): (r: Read<seq<u64>>)
    ensures r.Ok? ==> |r.value.1| <= |s| && |r.value.0| == count
  {
    if count == 0 then Ok(([], s))
    else
      var (dim, s1) :- ReadDim(s);
      var (dims, rest) :- ReadDims(s1, count - 1);
      Ok(([dim] + dims, rest))
  }

  function WriteDims(dims: seq<u64>): (bs: seq<Byte>)
    ensures |bs| == 8 * |dims|
  {
    if dims == [] then [] else LittleEndian(dims[0], 8) + WriteDims(dims[1..])
  }

  /** One turn of the descriptor loop of `parse_gguf_bytes_max`. */
  function ReadInfo(s: seq<Byte>, seen: set<string>, runCaps: bool): (r: Read<Info>)
    ensures r.Ok? ==> |r.value.1| < |s|
  {
    var (name, s1) :- ReadString(s, MAX_TENSOR_NAME);
    match CheckTensorName(name)
    case Fail(e) => Err(e)
    case Pass =>
      if name in seen then Err(DuplicateTensor)
      else
        var (shape, s3) :- ReadShape(s1);
        var (code, s4) :- ReadUint(s3, 4);
        var tensorType :- TensorTypeOf(code);
        var (offset, rest) :- ReadUint(s4, 8);
        var nbytes :- NBytes(tensorType, shape);
        if runCaps && nbytes > RUN_MAX_TENSOR_BYTES then Err(TensorTooLarge)
        else Ok((Info(name, tensorType, shape, offset, nbytes), rest))
  }

  function ReadShape(s: seq<Byte>): (r: Read<seq<u64>>)
    ensures r.Ok? ==> |r.value.1| <= |s|
  {
    var (n, s1) :- ReadUint(s, 4);
    if n == 0 || n > MAX_DIMENSIONS then Err(BadDimensionCount)
    else if n > |s1| / 8 then Err(Truncated)
    else ReadDims(s1, n)
  }

  function WriteInfo(info: Info): (bs: seq<Byte>)
    ensures |bs| >= 1
  {
    WriteString(info.name)
    + (LittleEndian(|info.shape|, 4)
       + (WriteDims(info.shape)
          + (LittleEndian(TensorTypeCode(info.tensorType), 4) + LittleEndian(info.offset, 8))))
  }

  predicate ValidInfo(info: Info, seen: set<string>, runCaps: bool) {
    && CheckTensorName(info.name).Pass? && info.name !in seen
    && NBytes(info.tensorType, info.shape) == Ok(info.nbytes)
    && info.offset < TWO_64
    && (runCaps ==> info.nbytes <= RUN_MAX_TENSOR_BYTES)
  }

  function ReadInfos(s: seq<Byte>, count: nat, seen: set<string>, runCaps: bool): (r: Read<seq<Info>>)
    ensures r.Ok? ==> |r.value.1| <= |s|
    decreases |s|
  {
    if count == 0 then Ok(([], s))
    else
      var (info, s1) :- ReadInfo(s, seen, runCaps);
      var (infos, rest) :- ReadInfos(s1, count - 1, seen + {info.name}, runCaps);
      Ok(([info] + infos, rest))
  }

  function WriteInfos(infos: seq<Info>): (bs: seq<Byte>)
    ensures |bs| >= |infos|
  {
    if infos == [] then [] else WriteInfo(infos[0]) + WriteInfos(infos[1..])
  }

  predicate ValidInfos(infos: seq<Info>, seen: set<string>, runCaps: bool) {
    infos != [] ==> ValidInfo(infos[0], seen, runCaps) && ValidInfos(infos[1..], seen + {infos[0].name}, runCaps)
  }

  lemma {:induction false} DimsSound(s: seq<Byte>, count: nat)
    requires ReadDims(s, count).Ok?
    ensures var (dims, rest) := ReadDims(s, count).value; s == WriteDims(dims) + rest
    decreases count
  {
    hide LittleEndian, ReadUint;
    if count > 0 {
      var (dim, s1) := ReadUint(s, 8).value;
      UintExact(s, 8, dim, s1);
      DimsSound(s1, count - 1);
      var (dims, rest) := ReadDims(s1, count - 1).value;
      assert ([dim] + dims)[1..] == dims;
      ConcatAssociative(LittleEndian(dim, 8), WriteDims(dims), rest);
    }
  }

  lemma {:induction false} DimsComplete(dims: seq<u64>, rest: seq<Byte>)
    ensures ReadDims(WriteDims(dims) + rest, |dims|) == Ok((dims, rest))
  {
    hide LittleEndian, ReadUint, Pow256;
    if dims == [] {
      assert WriteDims(dims) + rest == rest;
    } else {
      Pow256Values();
      var tail := WriteDims(dims[1..]) + rest;
      ConcatAssociative(LittleEndian(dims[0], 8), WriteDims(dims[1..]), rest);
      UintExact(LittleEndian(dims[0], 8) + tail, 8, dims[0], tail);
      DimsComplete(dims[1..], rest);
      assert dims == [dims[0]] + dims[1..];
    }
  }

  lemma ShapeExact(s: seq<Byte>, shape: seq<u64>, rest: seq<Byte>)
    ensures ReadShape(s) == Ok((shape, rest)) <==>
            1 <= |shape| <= MAX_DIMENSIONS && s == LittleEndian(|shape|, 4) + (WriteDims(shape) + rest)
  {
    hide LittleEndian, ReadUint, ReadDims, WriteDims;
    Pow256Values();
    if ReadShape(s) == Ok((shape, rest)) {
      var (n, s1) := ReadUint(s, 4).value;
      UintExact(s, 4, n, s1);
      DimsSound(s1, n);
    }
    if 1 <= |shape| <= MAX_DIMENSIONS && s == LittleEndian(|shape|, 4) + (WriteDims(shape) + rest) {
      UintExact(s, 4, |shape|, WriteDims(shape) + rest);
      DimsComplete(shape, rest);
    }
  }

  lemma WriteInfoThen(info: Info, rest: seq<Byte>)
    ensures WriteInfo(info) + rest ==
            WriteString(info.name)
            + (LittleEndian(|info.shape|, 4)
               + (WriteDims(info.shape)
                  + (LittleEndian(TensorTypeCode(info.tensorType), 4) + (LittleEndian(info.offset, 8) + rest))))
  {
    hide LittleEndian, WriteString, WriteDims;
    var a, b, c, d, e := WriteString(info.name), LittleEndian(|info.shape|, 4), WriteDims(info.shape),
                         LittleEndian(TensorTypeCode(info.tensorType), 4), LittleEndian(info.offset, 8);
    ConcatAssociative(a, b + (c + (d + e)), rest);
    ConcatAssociative(b, c + (d + e), rest);
    ConcatAssociative(c, d + e, rest);
    ConcatAssociative(d, e, rest);
  }

  lemma InfoSound(s: seq<Byte>, seen: set<string>, runCaps: bool)
    requires ReadInfo(s, seen, runCaps).Ok?
    ensures var (info, rest) := ReadInfo(s, seen, runCaps).value;
            ValidInfo(info, seen, runCaps) && s == WriteInfo(info) + rest
  {
    hide LittleEndian, WriteString, WriteDims, ReadString, ReadShape, ReadUint, NBytes, CheckTensorName, Pow256;
    Pow256Values();
    var (info, rest) := ReadInfo(s, seen, runCaps).value;
    var s1 := ReadString(s, MAX_TENSOR_NAME).value.1;
    var s3 := ReadShape(s1).value.1;
    var (code, s4) := ReadUint(s3, 4).value;
    StringExact(s, MAX_TENSOR_NAME, info.name, s1);
    ShapeExact(s1, info.shape, s3);
    UintExact(s3, 4, code, s4);
    UintExact(s4, 8, info.offset, rest);
    WriteInfoThen(info, rest);
  }

  lemma InfoComplete(info: Info, seen: set<string>, runCaps: bool, rest: seq<Byte>)
    requires ValidInfo(info, seen, runCaps)
    ensures ReadInfo(WriteInfo(info) + rest, seen, runCaps) == Ok((info, rest))
  {
    hide LittleEndian, WriteString, WriteDims, ReadString, ReadShape, ReadUint, Pow256, Utf8.Encode;
    Pow256Values();
    var s4 := LittleEndian(info.offset, 8) + rest;
    var s3 := LittleEndian(TensorTypeCode(info.tensorType), 4) + s4;
    var s1 := LittleEndian(|info.shape|, 4) + (WriteDims(info.shape) + s3);
    WriteInfoThen(info, rest);
    StringExact(WriteString(info.name) + s1, MAX_TENSOR_NAME, info.name, s1);
    ShapeExact(s1, info.shape, s3);
    UintExact(s3, 4, TensorTypeCode(info.tensorType), s4);
    UintExact(s4, 8, info.offset, rest);
  }

  lemma {:induction false} InfosSound(s: seq<Byte>, count: nat, seen: set<string>, runCaps: bool)
    requires ReadInfos(s, count, seen, runCaps).Ok?
    ensures var (infos, rest) := ReadInfos(s, count, seen, runCaps).value;
            |infos| == count && ValidInfos(infos, seen, runCaps) && s == WriteInfos(infos) + rest
    decreases |s|
  {
    hide ReadInfo, WriteInfo, ValidInfo;
    if count > 0 {
      var (info, s1) := ReadInfo(s, seen, runCaps).value;
      InfoSound(s, seen, runCaps);
      InfosSound(s1, count - 1, seen + {info.name}, runCaps);
      var (infos, rest) := ReadInfos(s1, count - 1, seen + {info.name}, runCaps).value;
      assert ([info] + infos)[1..] == infos;
      ConcatAssociative(WriteInfo(info), WriteInfos(infos), rest);
    }
  }

  lemma {:induction false} InfosComplete(infos: seq<Info>, seen: set<string>, runCaps: bool, rest: seq<Byte>)
    requires ValidInfos(infos, seen, runCaps)
    ensures ReadInfos(WriteInfos(infos) + rest, |infos|, seen, runCaps) == Ok((infos, rest))
  {
    hide ReadInfo, WriteInfo, ValidInfo;
    if infos == [] {
      assert WriteInfos(infos) + rest == rest;
    } else {
      var tail := WriteInfos(infos[1..]) + rest;
      ConcatAssociative(WriteInfo(infos[0]), WriteInfos(infos[1..]), rest);
      InfoComplete(infos[0], seen, runCaps, tail);
      InfosComplete(infos[1..], seen + {infos[0].name}, runCaps, rest);
      assert infos == [infos[0]] + infos[1..];
    }
  }
}
