/**
 The GGUF reader as the source runs it: a cursor whose position advances, loops that grow
 vectors, and a metadata reader that retries with a longer buffer until the prefix parses.
 */
module GgufReader {
  import opened Wrappers
  import opened Bytes
  import opened GgufTypes
  import opened GgufFormat
  import opened GgufHeader
  import opened GgufData
  import opened GgufFile
  import opened GgufFacts
  import Utf8

  /** A method outcome and the bytes it left agree with what the reader returns. */
  ghost predicate Agrees<T>(spec: Read<T>, r: Result<T, Error>, rest: seq<Byte>) {
    match r
    case Ok(v) => spec == Ok((v, rest))
    case Err(e) => spec == Err(e)
  }

  /** What remains of a loop that has already produced `done`. */
  function Prepend<T>(done: seq<T>, r: Read<seq<T>>): Read<seq<T>> {
    match r
    case Ok((vs, rest)) => Ok((done + vs, rest))
    case Err(e) => Err(e)
  }

  lemma PrependNothing<T>(r: Read<seq<T>>)
    ensures Prepend([], r) == r
  {
    if r.Ok? {
      assert [] + r.value.0 == r.value.0;
    }
  }

  lemma PrependStep<T>(done: seq<T>, x: T, r: Read<seq<T>>)
    ensures Prepend(done + [x], r) == Prepend(done, Prepend([x], r))
  {
    if r.Ok? {
      ConcatAssociative(done, [x], r.value.0);
    }
  }

  class Cursor {
    const bytes: seq<Byte>
    var pos: nat

    constructor (bytes: seq<Byte>)
      ensures this.bytes == bytes && pos == 0
    {
      this.bytes := bytes;
      pos := 0;
    }

    ghost predicate Valid()
      reads this
    {
      pos <= |bytes|
    }

    ghost function Rest(): seq<Byte>
      requires Valid()
      reads this
    {
      bytes[pos..]
    }

    method Remaining() returns (n: nat)
      requires Valid()
      ensures n == |Rest()|
    {
      n := |bytes| - pos;
    }

    method TakeBytes(len: nat) returns (r: Result<seq<Byte>, Error>)
      requires Valid()
      modifies this
      ensures Valid() && pos >= old(pos)
      ensures Agrees(Take(old(Rest()), len), r, Rest())
    {
      var end := pos + len;
      if end > |bytes| {
        return Err(Truncated);
      }
      r := Ok(bytes[pos..end]);
      assert old(Rest())[..len] == bytes[pos..end] && old(Rest())[len..] == bytes[end..];
      pos := end;
    }

    /** `u8`, `u16`, `u32` and `u64`: a little-endian integer of `width` bytes. */
    method Uint(width: nat) returns (r: Result<nat, Error>)
      requires Valid()
      modifies this
      ensures Valid() && pos >= old(pos) && (r.Ok? ==> pos == old(pos) + width && r.value < Pow256(width))
      ensures Agrees(ReadUint(old(Rest()), width), r, Rest())
    {
      var slice := TakeBytes(width);
      match slice
      case Err(e) => return Err(e);
      case Ok(bs) => return Ok(FromLittleEndian(bs));
    }

    method Text(limit: nat) returns (r: Result<string, Error>)
      requires Valid()
      modifies this
      ensures Valid() && pos >= old(pos) && (r.Ok? ==> pos > old(pos))
      ensures Agrees(ReadString(old(Rest()), limit), r, Rest())
    {
      hide ReadUint, Take, Utf8.Decode;
      var len := Uint(8);
      if len.Err? {
        return Err(len.error);
      }
      if len.value > limit {
        return Err(StringTooLong);
      }
      var slice := TakeBytes(len.value);
      if slice.Err? {
        return Err(slice.error);
      }
      match Utf8.Decode(slice.value)
      case None => return Err(StringNotUtf8);
      case Some(text) =>
        if 0 in slice.value {
          return Err(StringHasNul);
        }
        return Ok(text);
    }

    method ReadTyped(t: ValueType, depth: nat) returns (r: Result<Value, Error>)
      requires Valid()
      modifies this
      ensures Valid() && pos >= old(pos) && (r.Ok? ==> pos > old(pos))
      ensures Agrees(ReadValue(old(Rest()), t, depth), r, Rest())
      decreases |bytes| - pos, 1
    {
      hide ReadUint, ReadString, FromBits;
      if t == TString {
        var text := Text(MAX_STRING);
        match text
        case Err(e) => return Err(e);
        case Ok(s) => return Ok(String(s));
      } else if t == TArray {
        r := ReadTypedArray(depth);
      } else {
        var n := Uint(Width(t));
        if n.Err? {
          return Err(n.error);
        }
        r := FromBits(t, n.value);
      }
    }

    method ReadTypedArray(depth: nat) returns (r: Result<Value, Error>)
      requires Valid()
      modifies this
      ensures Valid() && pos >= old(pos) && (r.Ok? ==> pos > old(pos))
      ensures Agrees(ReadArray(old(Rest()), depth), r, Rest())
      decreases |bytes| - pos, 0
    {
      var head := ArrayHead(depth);
      if head.Err? {
        return Err(head.error);
      }
      var (element, count) := head.value;
      var items := Elements(element, depth + 1, count);
      match items
      case Err(e) => return Err(e);
      case Ok(vs) => return Ok(Array(element, vs));
    }

    method ArrayHead(depth: nat) returns (r: Result<(ValueType, nat), Error>)
      requires Valid()
      modifies this
      ensures Valid() && pos >= old(pos) && (r.Ok? ==> pos > old(pos))
      ensures Agrees(ReadArrayHead(old(Rest()), depth), r, Rest())
    {
      hide ReadUint;
      if depth >= MAX_ARRAY_DEPTH {
        return Err(ArrayTooDeep);
      }
      var code := Uint(4);
      if code.Err? {
        return Err(code.error);
      }
      var element := ValueTypeOf(code.value);
      if element.Err? {
        return Err(element.error);
      }
      var count := Uint(8);
      if count.Err? {
        return Err(count.error);
      }
      if count.value > MAX_ARRAY {
        return Err(ArrayTooLong);
      }
      var remaining := Remaining();
      if count.value > remaining / MinBytes(element.value) {
        return Err(Truncated);
      }
      r := Ok((element.value, count.value));
    }

    /** The element loop of `array`. */
    method Elements(element: ValueType, depth: nat, count: nat) returns (r: Result<seq<Value>, Error>)
      requires Valid()
      modifies this
      ensures Valid() && pos >= old(pos)
      ensures Agrees(ReadItems(old(Rest()), element, depth, count), r, Rest())
      decreases |bytes| - pos, 2
    {
      hide ReadValue;
      var items: seq<Value> := [];
      PrependNothing(ReadItems(Rest(), element, depth, count));
      for i := 0 to count
        invariant Valid() && pos >= old(pos)
        invariant ReadItems(old(Rest()), element, depth, count)
               == Prepend(items, ReadItems(Rest(), element, depth, count - i))
      {
        ghost var sofar := items;
        var item := ReadTyped(element, depth);
        if item.Err? {
          return Err(item.error);
        }
        items := items + [item.value];
        PrependStep(sofar, item.value, ReadItems(Rest(), element, depth, count - i - 1));
      }
      assert items + [] == items;
      r := Ok(items);
    }

    /** The key and value loop of `read_gguf_prefix`, with the keys already seen. */
    method Pairs(count: nat) returns (r: Result<seq<Metadata>, Error>)
      requires Valid()
      modifies this
      ensures Valid() && pos >= old(pos)
      ensures Agrees(ReadMetadata(old(Rest()), count, {}), r, Rest())
    {
      hide ReadPair;
      var items: seq<Metadata> := [];
      var seen: set<string> := {};
      PrependNothing(ReadMetadata(Rest(), count, {}));
      for i := 0 to count
        invariant Valid() && pos >= old(pos)
        invariant ReadMetadata(old(Rest()), count, {}) == Prepend(items, ReadMetadata(Rest(), count - i, seen))
      {
        ghost var sofar := items;
        var item := Pair(seen);
        if item.Err? {
          return Err(item.error);
        }
        seen := seen + {item.value.key};
        items := items + [item.value];
        PrependStep(sofar, item.value, ReadMetadata(Rest(), count - i - 1, seen));
      }
      assert items + [] == items;
      r := Ok(items);
    }

    method Pair(seen: set<string>) returns (r: Result<Metadata, Error>)
      requires Valid()
      modifies this
      ensures Valid() && pos >= old(pos)
      ensures Agrees(ReadPair(old(Rest()), seen), r, Rest())
    {
      hide ReadUint, ReadString, ReadValue, ValidKey;
      var key := Text(MAX_KEY_BYTES);
      if key.Err? {
        return Err(key.error);
      }
      if !ValidKey(key.value) {
        return Err(BadKey);
      }
      if key.value in seen {
        return Err(DuplicateKey);
      }
      var code := Uint(4);
      if code.Err? {
        return Err(code.error);
      }
      var t := ValueTypeOf(code.value);
      if t.Err? {
        return Err(t.error);
      }
      var value := ReadTyped(t.value, 0);
      match value
      case Err(e) => return Err(e);
      case Ok(v) => return Ok(Metadata(key.value, v));
    }

    method PrefixFields() returns (r: Result<(nat, nat), Error>)
      requires Valid()
      modifies this
      ensures Valid() && pos >= old(pos)
      ensures r.Ok? ==> ReadPrefix(old(Rest())) == ReadPrefixBody(Rest(), r.value.0, r.value.1)
      ensures r.Err? ==> ReadPrefix(old(Rest())) == Err(r.error)
    {
      hide ReadUint, Take, ReadPrefixBody;
      var magic := TakeBytes(4);
      if magic.Err? {
        return Err(magic.error);
      }
      if magic.value != MAGIC {
        return Err(BadMagic);
      }
      var version := Uint(4);
      if version.Err? {
        return Err(version.error);
      }
      if version.value != GGUF_VERSION {
        return Err(BadVersion);
      }
      var tensorCount := Uint(8);
      if tensorCount.Err? {
        return Err(tensorCount.error);
      }
      var kvCount := Uint(8);
      if kvCount.Err? {
        return Err(kvCount.error);
      }
      r := Ok((tensorCount.value, kvCount.value));
    }

    method ReadWholePrefix() returns (r: Result<Prefix, Error>)
      requires Valid()
      modifies this
      ensures Valid() && pos >= old(pos)
      ensures Agrees(ReadPrefix(old(Rest())), r, Rest())
    {
      hide ReadPrefix, ReadMetadata, ValidateMetadata;
      var fields := PrefixFields();
      if fields.Err? {
        return Err(fields.error);
      }
      var (tensorCount, kvCount) := fields.value;
      if kvCount > MAX_METADATA {
        return Err(TooManyMetadata);
      }
      if tensorCount > MAX_TENSORS {
        return Err(TooManyTensors);
      }
      var remaining := Remaining();
      if kvCount > remaining {
        return Err(Truncated);
      }
      var metadata := Pairs(kvCount);
      if metadata.Err? {
        return Err(metadata.error);
      }
      match ValidateMetadata(metadata.value)
      case Fail(e) => return Err(e);
      case Pass => return Ok(Prefix(tensorCount, metadata.value));
    }

    method Dims(count: nat) returns (r: Result<seq<u64>, Error>)
      requires Valid()
      modifies this
      ensures Valid() && pos >= old(pos)
      ensures Agrees(ReadDims(old(Rest()), count), r, Rest())
    {
      hide ReadUint, Pow256;
      Pow256Values();
      var shape: seq<u64> := [];
      PrependNothing(ReadDims(Rest(), count));
      for i := 0 to count
        invariant Valid() && pos >= old(pos)
        invariant ReadDims(old(Rest()), count) == Prepend(shape, ReadDims(Rest(), count - i))
      {
        ghost var sofar := shape;
        var dim := Uint(8);
        if dim.Err? {
          return Err(dim.error);
        }
        shape := shape + [dim.value];
        PrependStep(sofar, dim.value, ReadDims(Rest(), count - i - 1));
      }
      assert shape + [] == shape;
      r := Ok(shape);
    }

    method Shape() returns (r: Result<seq<u64>, Error>)
      requires Valid()
      modifies this
      ensures Valid() && pos >= old(pos)
      ensures Agrees(ReadShape(old(Rest())), r, Rest())
    {
      hide ReadUint, ReadDims;
      var n := Uint(4);
      if n.Err? {
        return Err(n.error);
      }
      if n.value == 0 || n.value > MAX_DIMENSIONS {
        return Err(BadDimensionCount);
      }
      var remaining := Remaining();
      if n.value > remaining / 8 {
        return Err(Truncated);
      }
      r := Dims(n.value);
    }

    method Descriptor(seen: set<string>, runCaps: bool) returns (r: Result<Info, Error>)
      requires Valid()
      modifies this
      ensures Valid() && pos >= old(pos)
      ensures Agrees(ReadInfo(old(Rest()), seen, runCaps), r, Rest())
    {
      hide ReadUint, ReadString, ReadShape, NBytes, CheckTensorName;
      var name := Text(MAX_TENSOR_NAME);
      if name.Err? {
        return Err(name.error);
      }
      var named := CheckTensorName(name.value);
      if named.Fail? {
        return Err(named.error);
      }
      if name.value in seen {
        return Err(DuplicateTensor);
      }
      var shape := Shape();
      if shape.Err? {
        return Err(shape.error);
      }
      var code := Uint(4);
      if code.Err? {
        return Err(code.error);
      }
      var tensorType := TensorTypeOf(code.value);
      if tensorType.Err? {
        return Err(tensorType.error);
      }
      var offset := Uint(8);
      if offset.Err? {
        return Err(offset.error);
      }
      var nbytes := NBytes(tensorType.value, shape.value);
      if nbytes.Err? {
        return Err(nbytes.error);
      }
      if runCaps && nbytes.value > RUN_MAX_TENSOR_BYTES {
        return Err(TensorTooLarge);
      }
      r := Ok(Info(name.value, tensorType.value, shape.value, offset.value, nbytes.value));
    }

    /** The descriptor loop of `parse_gguf_bytes_max`. */
    method Descriptors(count: nat, runCaps: bool) returns (r: Result<seq<Info>, Error>)
      requires Valid()
      modifies this
      ensures Valid() && pos >= old(pos)
      ensures Agrees(ReadInfos(old(Rest()), count, {}, runCaps), r, Rest())
    {
      hide ReadInfo;
      var infos: seq<Info> := [];
      var seen: set<string> := {};
      PrependNothing(ReadInfos(Rest(), count, {}, runCaps));
      for i := 0 to count
        invariant Valid() && pos >= old(pos)
        invariant ReadInfos(old(Rest()), count, {}, runCaps)
               == Prepend(infos, ReadInfos(Rest(), count - i, seen, runCaps))
      {
        ghost var sofar := infos;
        var info := Descriptor(seen, runCaps);
        if info.Err? {
          return Err(info.error);
        }
        seen := seen + {info.value.name};
        infos := infos + [info.value];
        PrependStep(sofar, info.value, ReadInfos(Rest(), count - i - 1, seen, runCaps));
      }
      assert infos + [] == infos;
      r := Ok(infos);
    }
  }

  method ReadGgufPrefix(bytes: seq<Byte>) returns (r: Result<Prefix, Error>)
    ensures r == MapValue(ReadPrefix(bytes))
  {
    var cursor := new Cursor(bytes);
    assert cursor.Rest() == bytes;
    r := cursor.ReadWholePrefix();
  }

  /** The outcome of a reader without the bytes it left. */
  function MapValue<T>(r: Read<T>): Result<T, Error> {
    match r
    case Ok((v, _)) => Ok(v)
    case Err(e) => Err(e)
  }

  // ---------------------------------------------------------------- incremental metadata

  const CHUNK: nat := 65_536
  const READ_CAP: nat := 64 * 1024 * 1024

  function Min(a: nat, b: nat): nat {
    if a <= b then a else b
  }

  /** A prefix that reads from the first `n` bytes of a file reads the same from more of them. */
  lemma LongerPrefixAgrees(file: seq<Byte>, n: nat, m: nat)
    requires n <= m <= |file| && ReadPrefix(file[..n]) != Err(Truncated)
    ensures MapValue(ReadPrefix(file[..m])) == MapValue(ReadPrefix(file[..n]))
    ensures ReadPrefix(file[..m]) != Err(Truncated)
  {
    hide ReadPrefix;
    PrefixStable(file[..n], file[n..m]);
    assert file[..n] + file[n..m] == file[..m];
  }

  /**
   What reading the metadata of a file incrementally must return: the answer of the whole
   file, unless the file is longer than the cap and its first `READ_CAP` bytes are not
   enough to answer.
   */
  function MetadataOfFile(file: seq<Byte>): Result<seq<Metadata>, Error> {
    if |file| > RUN_MAX_FILE_BYTES then Err(FileTooLarge)
    else if |file| > READ_CAP && ReadPrefix(file[..READ_CAP]) == Err(Truncated) then Err(ReadCapExceeded)
    else match ReadPrefix(file)
      case Ok((p, _)) => Ok(p.metadata)
      case Err(e) => Err(e)
  }

  /** `read_gguf_metadata`: grow the buffer chunk by chunk while the prefix is truncated. */
  method ReadGgufMetadata(file: seq<Byte>) returns (r: Result<seq<Metadata>, Error>)
    ensures r == MetadataOfFile(file)
  {
    hide ReadPrefix;
    if |file| > RUN_MAX_FILE_BYTES {
      return Err(FileTooLarge);
    }
    assert file[..|file|] == file;
    var buf: seq<Byte> := [];
    while true
      invariant |buf| <= Min(|file|, READ_CAP) && buf == file[..|buf|]
      decreases |file| - |buf|
    {
      var prefix := ReadGgufPrefix(buf);
      if prefix != Err(Truncated) {
        LongerPrefixAgrees(file, |buf|, |file|);
        if |file| > READ_CAP {
          LongerPrefixAgrees(file, |buf|, READ_CAP);
        }
        match prefix
        case Ok(p) => return Ok(p.metadata);
        case Err(e) => return Err(e);
      }
      if |buf| >= |file| {
        return Err(Truncated);
      }
      var next := Min(Min(|buf| + CHUNK, |file|), READ_CAP);
      if next <= |buf| {
        return Err(ReadCapExceeded);
      }
      buf := file[..next];
    }
  }

  /**
   For a file that parses as a whole, under any limits, the chunked reader returns its
   metadata, and exactly when the prefix that holds it fits under the read cap.
   */
  lemma MetadataMatchesParse(file: seq<Byte>, maxFile: nat, runCaps: bool, f: File)
    requires ParseMax(file, maxFile, runCaps) == Ok(f)
    ensures MetadataOfFile(file) ==
            if |file| > 8 * 1024 * 1024 * 1024 then Err(FileTooLarge)
            else if |WritePrefix(Prefix(|f.tensors|, f.metadata))| > 64 * 1024 * 1024 then Err(ReadCapExceeded)
            else Ok(f.metadata)
  {
    hide ReadPrefix, ReadInfos, Interpret, CheckDataPadding, SliceTensors, WritePrefix, WriteInfos, ParseMax,
      ValidPrefix, ValidInfos, InfosOf;
    ParseMeaning(file, maxFile, runCaps, f);
    var p := Prefix(|f.tensors|, f.metadata);
    var n := |WritePrefix(p)|;
    assert WritePrefix(p) <= HeaderOf(f.metadata, f.tensors) <= file;
    assert file == WritePrefix(p) + file[n..];
    PrefixExact(file, p, file[n..]);
    if |file| > READ_CAP {
      var short := file[..READ_CAP];
      if n <= READ_CAP {
        assert short == WritePrefix(p) + short[n..];
        PrefixExact(short, p, short[n..]);
      } else if ReadPrefix(short) != Err(Truncated) {
        LongerPrefixAgrees(file, READ_CAP, |file|);
        assert file[..|file|] == file;
        var rest := ReadPrefix(short).value.1;
        PrefixExact(short, p, rest);
        assert false;
      }
    }
  }

  // ---------------------------------------------------------------- whole files

  /** The payload loop of `parse_gguf_bytes_max`. */
  method CutTensors(infos: seq<Info>, data: seq<Byte>, alignment: nat) returns (r: Result<seq<Tensor>, Error>)
    requires alignment > 0
    ensures r == SliceTensors(infos, data, alignment)
    ensures r.Ok? ==> InfosOf(r.value) == infos && SlicedFrom(r.value, data, alignment)
  {
    if SliceTensors(infos, data, alignment).Ok? {
      SliceMeaning(infos, data, alignment);
      assert [] + SliceTensors(infos, data, alignment).value == SliceTensors(infos, data, alignment).value;
    }
    var tensors: seq<Tensor> := [];
    assert infos[0..] == infos;
    for i := 0 to |infos|
      invariant SliceTensors(infos, data, alignment)
             == match SliceTensors(infos[i..], data, alignment)
                case Ok(ts) => Ok(tensors + ts)
                case Err(e) => Err(e)
    {
      var info := infos[i];
      assert infos[i..][1..] == infos[i + 1..];
      if info.offset % alignment != 0 {
        return Err(MisalignedOffset);
      }
      var end := info.offset + info.nbytes;
      if end >= TWO_64 {
        return Err(LengthOverflow);
      }
      if end > |data| {
        return Err(TensorOutsideFile);
      }
      var tensor := Tensor(info.name, info.tensorType, info.shape, info.offset, data[info.offset..end]);
      if SliceTensors(infos[i + 1..], data, alignment).Ok? {
        ConcatAssociative(tensors, [tensor], SliceTensors(infos[i + 1..], data, alignment).value);
      }
      tensors := tensors + [tensor];
    }
    assert tensors + [] == tensors;
    r := Ok(tensors);
  }

  method ParseGgufBytesMax(bytes: seq<Byte>, maxFile: nat, runCaps: bool) returns (r: Result<File, Error>)
    ensures r == ParseMax(bytes, maxFile, runCaps)
    ensures r.Ok? ==> FactsFollow(r.value)
  {
    hide ReadPrefix, ReadInfos, Interpret, CheckDataPadding, SliceTensors, FactsFollow;
    if |bytes| > maxFile {
      return Err(FileTooLarge);
    }
    var cursor := new Cursor(bytes);
    assert cursor.Rest() == bytes;
    var prefix := cursor.ReadWholePrefix();
    if prefix.Err? {
      return Err(prefix.error);
    }
    var remaining := cursor.Remaining();
    if prefix.value.tensorCount > remaining {
      return Err(Truncated);
    }
    var infos := cursor.Descriptors(prefix.value.tensorCount, runCaps);
    if infos.Err? {
      return Err(infos.error);
    }
    assert cursor.pos == |bytes| - |cursor.Rest()|;
    r := ParseDataSection(bytes, prefix.value.metadata, infos.value, cursor.pos);
    if r.Ok? {
      ParsedFacts(bytes, maxFile, runCaps, r.value);
    }
  }

  method ParseDataSection(bytes: seq<Byte>, metadata: seq<Metadata>, infos: seq<Info>, infoEnd: nat)
    returns (r: Result<File, Error>)
    requires infoEnd <= |bytes|
    ensures r == ParseData(bytes, metadata, infos, infoEnd)
  {
    hide Interpret, CheckDataPadding, SliceTensors;
    var facts := InterpretItems(metadata, AnyQuantized(infos));
    if facts.Err? {
      return Err(facts.error);
    }
    var dataStart := AlignUp(infoEnd, facts.value.alignment);
    if dataStart.Err? {
      return Err(dataStart.error);
    }
    if dataStart.value > |bytes| {
      return Err(DataOutsideFile);
    }
    if !AllZero(bytes[infoEnd..dataStart.value]) {
      return Err(PaddingNotZero);
    }
    var data := bytes[dataStart.value..];
    var tensors := CutTensors(infos, data, facts.value.alignment);
    if tensors.Err? {
      return Err(tensors.error);
    }
    SlicedInData(tensors.value, data, facts.value.alignment);
    var padding := CheckPadding(data, TensorRanges(tensors.value));
    if padding.Fail? {
      return Err(padding.error);
    }
    r := Ok(File(GGUF_VERSION, facts.value.alignment, facts.value.architecture, facts.value.quantVersion,
                 metadata, tensors.value, infoEnd, dataStart.value));
  }
}
