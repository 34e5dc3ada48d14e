/**
 The GGUF data model: value types, tensor types, metadata and their validity rules, with the
 limits of `gguf.rs` as named constants. Element counts and byte lengths follow the checked
 arithmetic of the source: a product that leaves 64 bits is an error, a row whose length is not
 a multiple of the block size is an error, and a length that is accepted is never zero. The
 alignment is the value of `general.alignment` when it is there and 32 otherwise, and need not
 be a power of two; rounding up to it is shown to give the least multiple that is not below the
 value rounded.
 */
module GgufTypes {
  import opened Wrappers
  import Utf8

  const GGUF_VERSION: nat := 3
  const DEFAULT_ALIGNMENT: nat := 32
  const QUANT_VERSION: nat := 2
  const MAX_FILE_BYTES: nat := 32 * 1024 * 1024
  const RUN_MAX_FILE_BYTES: nat := 8 * 1024 * 1024 * 1024
  const RUN_MAX_TENSOR_BYTES: nat := 2 * 1024 * 1024 * 1024
  const MAX_METADATA: nat := 4096
  const MAX_ARRAY: nat := 1_048_576
  const MAX_STRING: nat := 1024 * 1024
  const MAX_TENSORS: nat := 100_000
  const MAX_TENSOR_NAME: nat := 64
  const MAX_DIMENSIONS: nat := 4
  const MAX_ARRAY_DEPTH: nat := 4
  const MAX_KEY_BYTES: nat := 65535
  const TWO_64: nat := 0x1_0000_0000_0000_0000

  type u8 = x: int | 0 <= x < 0x100
  type u16 = x: int | 0 <= x < 0x1_0000
  type u32 = x: int | 0 <= x < 0x1_0000_0000
  type u64 = x: int | 0 <= x < 0x1_0000_0000_0000_0000
  type i8 = x: int | -0x80 <= x < 0x80
  type i16 = x: int | -0x8000 <= x < 0x8000
  type i32 = x: int | -0x8000_0000 <= x < 0x8000_0000
  type i64 = x: int | -0x8000_0000_0000_0000 <= x < 0x8000_0000_0000_0000

  /** The reasons the reader and the writer give. `Truncated` is the one retried with more bytes. */
  datatype Error =
    | Truncated
    | BadMagic | BadVersion
    | TooManyMetadata | TooManyTensors
    | StringTooLong | StringNotUtf8 | StringHasNul
    | BadValueType | BadBoolean
    | ArrayTooDeep | ArrayTooLong | ElementTypeMismatch
    | BadKey | DuplicateKey
    | TensorNameTooLong | BadTensorName | DuplicateTensor
    | BadDimensionCount | ZeroDimension | BlockMismatch | LengthOverflow
    | UnsupportedTensorType
    | TensorTooLarge | FileTooLarge
    | ArchitectureNotString | BadArchitecture | MissingArchitecture
    | BadAlignment | AlignmentNotU32
    | QuantVersionNotU32 | WrongQuantVersion | MissingQuantVersion
    | DataOutsideFile | PaddingNotZero | MisalignedOffset | TensorOutsideFile | RangesOverlap
    | PayloadLengthMismatch
    | ReadCapExceeded

  datatype ValueType =
    | TUint8 | TInt8 | TUint16 | TInt16 | TUint32 | TInt32 | TFloat32 | TBool
    | TString | TArray | TUint64 | TInt64 | TFloat64

  function ValueTypeCode(t: ValueType): u32 {
    match t
    case TUint8 => 0
    case TInt8 => 1
    case TUint16 => 2
    case TInt16 => 3
    case TUint32 => 4
    case TInt32 => 5
    case TFloat32 => 6
    case TBool => 7
    case TString => 8
    case TArray => 9
    case TUint64 => 10
    case TInt64 => 11
    case TFloat64 => 12
  }

  function ValueTypeOf(code: nat): (r: Result<ValueType, Error>)
    ensures r.Ok? ==> ValueTypeCode(r.value) == code
    ensures r.Err? ==> r.error == BadValueType && code > 12
  {
    match code
    case 0 => Ok(TUint8)
    case 1 => Ok(TInt8)
    case 2 => Ok(TUint16)
    case 3 => Ok(TInt16)
    case 4 => Ok(TUint32)
    case 5 => Ok(TInt32)
    case 6 => Ok(TFloat32)
    case 7 => Ok(TBool)
    case 8 => Ok(TString)
    case 9 => Ok(TArray)
    case 10 => Ok(TUint64)
    case 11 => Ok(TInt64)
    case 12 => Ok(TFloat64)
    case _ => Err(BadValueType)
  }

  function MinBytes(t: ValueType): nat {
    match t
    case TUint8 => 1
    case TInt8 => 1
    case TBool => 1
    case TUint16 => 2
    case TInt16 => 2
    case TUint32 => 4
    case TInt32 => 4
    case TFloat32 => 4
    case TUint64 => 8
    case TInt64 => 8
    case TFloat64 => 8
    case TString => 8
    case TArray => 12
  }

  /** Floats are kept as their IEEE bits. */
  datatype Value =
    | Uint8(u8: u8)
    | Int8(i8: i8)
    | Uint16(u16: u16)
    | Int16(i16: i16)
    | Uint32(u32: u32)
    | Int32(i32: i32)
    | Float32(bits32: u32)
    | Bool(b: bool)
    | String(text: string)
    | Array(element: ValueType, items: seq<Value>)
    | Uint64(u64: u64)
    | Int64(i64: i64)
    | Float64(bits64: u64)

  function TypeOf(v: Value): ValueType {
    match v
    case Uint8(_) => TUint8
    case Int8(_) => TInt8
    case Uint16(_) => TUint16
    case Int16(_) => TInt16
    case Uint32(_) => TUint32
    case Int32(_) => TInt32
    case Float32(_) => TFloat32
    case Bool(_) => TBool
    case String(_) => TString
    case Array(_, _) => TArray
    case Uint64(_) => TUint64
    case Int64(_) => TInt64
    case Float64(_) => TFloat64
  }

  datatype Metadata = Metadata(key: string, value: Value)

  datatype TensorType = F32 | F16 | Q8_0 | Q4_K | Q5_K | Q6_K

  function TensorTypeCode(t: TensorType): u32 {
    match t
    case F32 => 0
    case F16 => 1
    case Q8_0 => 8
    case Q4_K => 12
    case Q5_K => 13
    case Q6_K => 14
  }

  function TensorTypeOf(code: nat): (r: Result<TensorType, Error>)
    ensures r.Ok? ==> TensorTypeCode(r.value) == code
    ensures r.Err? ==> r.error == UnsupportedTensorType
    ensures code in {0, 1, 8, 12, 13, 14} ==> r.Ok?
  {
    match code
    case 0 => Ok(F32)
    case 1 => Ok(F16)
    case 8 => Ok(Q8_0)
    case 12 => Ok(Q4_K)
    case 13 => Ok(Q5_K)
    case 14 => Ok(Q6_K)
    case _ => Err(UnsupportedTensorType)
  }

  function TypeSize(t: TensorType): nat {
    match t
    case F32 => 4
    case F16 => 2
    case Q8_0 => 34
    case Q4_K => 144
    case Q5_K => 176
    case Q6_K => 210
  }

  function BlockElements(t: TensorType): nat {
    match t
    case F32 => 1
    case F16 => 1
    case Q8_0 => 32
    case Q4_K => 256
    case Q5_K => 256
    case Q6_K => 256
  }

  predicate RequiresQuantVersion(t: TensorType) {
    t != F32 && t != F16
  }

  // ---------------------------------------------------------------- shapes

  function CheckShape(shape: seq<u64>): Outcome<Error> {
    if shape == [] || |shape| > MAX_DIMENSIONS then Fail(BadDimensionCount)
    else if 0 in shape then Fail(ZeroDimension)
    else Pass
  }

  lemma MulPositive(a: nat, b: nat)
    requires a > 0 && b > 0
    ensures a * b > 0
  {
  }

  function CheckedMul(a: nat, b: nat): (r: Result<nat, Error>)
    ensures r.Ok? ==> r.value == a * b < TWO_64
    ensures r.Ok? && a > 0 && b > 0 ==> r.value > 0
  {
    if a * b < TWO_64 then Ok(a * b) else Err(LengthOverflow)
  }

  function MulAll(n: nat, dims: seq<u64>): (r: Result<nat, Error>)
    ensures r.Ok? && n > 0 && 0 !in dims ==> r.value > 0
    decreases |dims|
  {
    if dims == [] then Ok(n)
    else
      var m :- CheckedMul(n, dims[0]);
      MulAll(m, dims[1..])
  }

  /** The byte length of a tensor. A length that is accepted is never zero. */
  function NBytes(t: TensorType, shape: seq<u64>): (r: Result<nat, Error>)
    ensures r.Ok? ==> CheckShape(shape).Pass? && r.value > 0
  {
    var _ :- CheckShapeResult(shape);
    var block := BlockElements(t);
    if shape[0] % block != 0 then Err(BlockMismatch)
    else
      var rows :- CheckedMul(shape[0] / block, TypeSize(t));
      assert rows > 0 by {
        MulPositive(shape[0] / block, TypeSize(t));
      }
      assert 0 !in shape[1..];
      MulAll(rows, shape[1..])
  }

  function Product(dims: seq<nat>): nat {
    if dims == [] then 1 else dims[0] * Product(dims[1..])
  }

  lemma {:induction false} MulAllMeaning(n: nat, dims: seq<u64>)
    requires 0 < n < TWO_64 && 0 !in dims
    ensures MulAll(n, dims) == if n * Product(dims) < TWO_64 then Ok(n * Product(dims)) else Err(LengthOverflow)
    decreases |dims|
  {
    if dims != [] {
      var d, p := dims[0], Product(dims[1..]);
      ProductPositive(dims[1..]);
      assert 0 !in dims[1..] && dims[0] in dims;
      MulPositive(n, d);
      assert n * (d * p) == n * d * p;
      if n * d < TWO_64 {
        MulAllMeaning(n * d, dims[1..]);
      } else {
        MulGrows(n * d, p);
      }
    }
  }

  lemma MulGrows(a: nat, p: nat)
    requires p > 0
    ensures a * p >= a
  {
  }

  lemma {:induction false} ProductPositive(dims: seq<u64>)
    requires 0 !in dims
    ensures Product(dims) > 0
  {
    if dims != [] {
      assert dims[0] in dims && 0 !in dims[1..];
      ProductPositive(dims[1..]);
      MulPositive(dims[0], Product(dims[1..]));
    }
  }

  /**
   The byte length is the number of blocks in the shape times the bytes of a block: it exists
   exactly for a valid shape whose rows are whole blocks and whose length fits 64 bits.
   */
  lemma NBytesMeaning(t: TensorType, shape: seq<u64>, n: nat)
    ensures NBytes(t, shape) == Ok(n) <==>
            && CheckShape(shape).Pass? && shape[0] % BlockElements(t) == 0
            && n * BlockElements(t) == Product(shape) * TypeSize(t) && n < TWO_64
  {
    hide MulAll;
    if CheckShape(shape).Pass? && shape[0] % BlockElements(t) == 0 {
      var block, size, rest := BlockElements(t), TypeSize(t), Product(shape[1..]);
      var blocks := shape[0] / block;
      assert shape[0] in shape && 0 !in shape[1..];
      ProductPositive(shape[1..]);
      MulPositive(blocks, size);
      assert shape[0] == blocks * block && Product(shape) == shape[0] * rest;
      BlocksOfShape(blocks, block, size, rest, n);
      if blocks * size < TWO_64 {
        MulAllMeaning(blocks * size, shape[1..]);
      } else {
        MulGrows(blocks * size, rest);
      }
    }
  }

  lemma BlocksOfShape(blocks: nat, block: nat, size: nat, rest: nat, n: nat)
    requires block > 0
    ensures n * block == blocks * block * rest * size <==> n == blocks * size * rest
  {
    var m := blocks * size * rest;
    assert blocks * block * rest * size == m * block;
    if n < m {
      assert (m - n) * block > 0;
    } else if n > m {
      assert (n - m) * block > 0;
    }
  }

  function CheckShapeResult(shape: seq<u64>): (r: Result<bool, Error>)
    ensures r.Ok? <==> CheckShape(shape).Pass?
    ensures r.Ok? ==> shape != [] && 0 !in shape && |shape| <= MAX_DIMENSIONS
  {
    match CheckShape(shape)
    case Pass => Ok(true)
    case Fail(e) => Err(e)
  }

  // ---------------------------------------------------------------- names and metadata rules

  predicate HasNul(text: string) {
    0 in Utf8.Encode(text)
  }

  predicate KeyChar(c: char) {
    'a' <= c <= 'z' || '0' <= c <= '9' || c == '_'
  }

  /** Dot-separated segments, each a nonempty run of key characters: how many, if well formed. */
  function KeySegments(key: string, nonempty: bool): Option<nat> {
    if key == [] then if nonempty then Some(1) else None
    else if key[0] == '.' then
      if !nonempty then None
      else match KeySegments(key[1..], false)
        case None => None
        case Some(n) => Some(n + 1)
    else if KeyChar(key[0]) then KeySegments(key[1..], true)
    else None
  }

  predicate ValidKey(key: string) {
    && |Utf8.Encode(key)| <= MAX_KEY_BYTES
    && KeySegments(key, false).Some?
    && KeySegments(key, false).value >= 2
  }

  function CheckTensorName(name: string): Outcome<Error> {
    if |Utf8.Encode(name)| > MAX_TENSOR_NAME then Fail(TensorNameTooLong)
    else if name == [] || HasNul(name) then Fail(BadTensorName)
    else Pass
  }

  predicate ValidAlignment(n: nat) {
    8 <= n <= 4096 && n % 8 == 0
  }

  predicate ValidArchitecture(text: string) {
    && 1 <= |text| <= 64
    && forall i :: 0 <= i < |text| ==> 'a' <= text[i] <= 'z' || '0' <= text[i] <= '9'
  }

  /** `validate_value`: the first rule the value breaks, walking arrays in order. */
  function ValidateValue(v: Value, depth: nat): Outcome<Error>
    decreases v, 0
  {
    match v
    case String(text) =>
      if |Utf8.Encode(text)| > MAX_STRING then Fail(StringTooLong)
      else if HasNul(text) then Fail(StringHasNul)
      else Pass
    case Array(element, items) =>
      if depth >= MAX_ARRAY_DEPTH then Fail(ArrayTooDeep)
      else if |items| > MAX_ARRAY then Fail(ArrayTooLong)
      else ValidateItems(items, element, depth + 1)
    case _ => Pass
  }

  function ValidateItems(items: seq<Value>, element: ValueType, depth: nat): Outcome<Error>
    decreases items, 1
  {
    if items == [] then Pass
    else if TypeOf(items[0]) != element then Fail(ElementTypeMismatch)
    else
      var first := ValidateValue(items[0], depth);
      if first.Fail? then first else ValidateItems(items[1..], element, depth)
  }

  /** The per-item checks of `validate_metadata`, after the keys in `seen`. */
  function ValidateItemsOfMetadata(items: seq<Metadata>, seen: set<string>): Outcome<Error> {
    if items == [] then Pass
    else if !ValidKey(items[0].key) then Fail(BadKey)
    else if items[0].key in seen then Fail(DuplicateKey)
    else
      var first := ValidateValue(items[0].value, 0);
      if first.Fail? then first else ValidateItemsOfMetadata(items[1..], seen + {items[0].key})
  }

  function ValidateMetadata(items: seq<Metadata>): Outcome<Error> {
    if |items| > MAX_METADATA then Fail(TooManyMetadata)
    else ValidateItemsOfMetadata(items, {})
  }

  // ---------------------------------------------------------------- header facts

  datatype Facts = Facts(architecture: Option<string>, alignment: Option<nat>, quantVersion: Option<nat>)

  function ScanFacts(items: seq<Metadata>, facts: Facts): (r: Result<Facts, Error>)
    ensures r.Ok? && (facts.alignment.Some? ==> ValidAlignment(facts.alignment.value)) ==>
              r.value.alignment.Some? ==> ValidAlignment(r.value.alignment.value)
  {
    if items == [] then Ok(facts)
    else
      var Metadata(key, value) := items[0];
      if key == "general.architecture" then
        if !value.String? then Err(ArchitectureNotString)
        else if !ValidArchitecture(value.text) then Err(BadArchitecture)
        else ScanFacts(items[1..], facts.(architecture := Some(value.text)))
      else if key == "general.alignment" then
        if !value.Uint32? then Err(AlignmentNotU32)
        else if !ValidAlignment(value.u32) then Err(BadAlignment)
        else ScanFacts(items[1..], facts.(alignment := Some(value.u32)))
      else if key == "general.quantization_version" then
        if !value.Uint32? then Err(QuantVersionNotU32)
        else ScanFacts(items[1..], facts.(quantVersion := Some(value.u32)))
      else ScanFacts(items[1..], facts)
  }

  datatype HeaderFacts = HeaderFacts(architecture: string, alignment: nat, quantVersion: Option<nat>)

  /** `interpret`: what the metadata says about the file, given whether a tensor is quantized. */
  function Interpret(items: seq<Metadata>, quantized: bool): (r: Result<HeaderFacts, Error>)
    ensures r.Ok? ==> ValidAlignment(r.value.alignment)
  {
    var facts :- ScanFacts(items, Facts(None, None, None));
    if facts.architecture.None? then Err(MissingArchitecture)
    else if quantized && facts.quantVersion.None? then Err(MissingQuantVersion)
    else if quantized && facts.quantVersion.value != QUANT_VERSION then Err(WrongQuantVersion)
    else
      Ok(HeaderFacts(
           facts.architecture.value,
           if facts.alignment.Some? then facts.alignment.value else DEFAULT_ALIGNMENT,
           facts.quantVersion))
  }

  /** `align_up`. */
  function AlignUp(value: nat, alignment: nat): (r: Result<nat, Error>)
    ensures r.Ok? ==> alignment > 0 && value <= r.value < value + alignment && r.value % alignment == 0
  {
    if alignment == 0 then Err(BadAlignment)
    else if value % alignment == 0 then Ok(value)
    else if value + (alignment - value % alignment) >= TWO_64 then Err(DataOutsideFile)
    else
      AlignUpMultiple(value, alignment);
      Ok(value + (alignment - value % alignment))
  }

  lemma AlignUpMultiple(value: nat, alignment: nat)
    requires alignment > 0
    ensures (value + (alignment - value % alignment)) % alignment == 0
  {
    var q := value / alignment;
    assert value + (alignment - value % alignment) == (q + 1) * alignment by {
      assert value == q * alignment + value % alignment;
    }
    MultipleModZero(q + 1, alignment);
  }

  lemma MultipleModZero(q: nat, m: nat)
    requires m > 0
    ensures (q * m) % m == 0
  {
    var d, r := q * m / m, q * m % m;
    assert (q - d) * m == r;
    if q != d {
      ScaledOutside(q - d, m);
    }
  }

  lemma ScaledOutside(k: int, m: nat)
    requires k != 0 && m > 0
    ensures k * m >= m || k * m < 0
  {
  }
}
