# Verified model of the artifact and journal core

This project models the part of the inference engine that must fail closed: the byte formats it
reads and writes, and the small stores that survive a crash. It proves what each format and each
store promises, for all inputs and all runs. The sources are Rust; the model keeps their shape.
Code that advances a cursor, fills a buffer or edits files in place is a method with loops and
fields, proved equal to a specification function; the theorems are about those functions.

Conventions. A `u8` is an integer from 0 to 255 and a Rust `String` is a Dafny `string`, with
UTF-8 made explicit where the source looks at bytes. A specification reader takes the bytes (or
characters, or lines) that are left and returns a value with the rest, or an error. The digest is
a parameter of every journal and download theorem and is never assumed injective. Where it matters,
the conclusion names the two inputs on which it would have to be equal: events of the journals at
hand, or the content and a byte string of the same size. A
directory is a map from names to bytes, a server is a list of chunks with an exit status.

## The parts

- **Canonical CBOR** (`Utf8`, `Cbor`, `CborCodec`, `CborWire`). The encoder and the cursor-based decoder are
  inverse on exactly the canonical values, encodings are prefix-free, and the decoder's own checks
  already force canonicality.
- **GGUF** (`GgufTypes`, `GgufFormat`, `GgufHeader`, `GgufData`, `GgufFile`, `GgufReader`,
  `GgufWriter`, `GgufOrder`, `GgufFacts`, `GgufRules`). Round trips in both directions for any
  alignment, no hidden bytes, an incremental metadata reader that agrees with the whole file, and what
  the metadata says about it.
- **KV store** (`KvSpec`, `KvHistory`, `Kv`). The flat slab refines a map from sequence, layer and
  token to vectors over every run, and the history of operations alone tells which ones succeed.
- **Journal** (`InferenceEvent`, `EventRules`, `JournalSpec`, `JournalRuns`, `JournalRecovery`,
  `JournalOutcomes`, `Journal`). Memory and disk agree, the head commits to the history, and recovery
  seals open chains once.
- **Strict JSON** (`JsonValue`, `JsonText`, `JsonEscapes`, `Json`, `JsonRules`, `JsonParser`,
  `StrictJson`) and **JSON to CBOR** (`JsonToCbor`, `JsonOrder`, `ImageExtensions`). The parser accepts
  exactly the legal writings of a tree within the limits, and what it accepts lands inside the CBOR
  decoder's domain.
- **YAML subset** (`YamlText`, `YamlRules`, `Yaml`, `YamlGrammar`, `YamlDocument`, `YamlTrees`,
  `YamlParser`, `YamlManifest`). The parser accepts exactly what a grammar of blocks writes; printing a
  tree in blocks and parsing the text gives the tree back.
- **Quantized weights** (`QuantBits`, `Dequant`, `DequantFormulas`, `HalfFloat`). The loops equal a per-index formula,
  the bit layouts are bijections, and widening a half keeps its value.
- **Weight layout and inventory** (`Safetensors`, `SafetensorsFile`, `SafetensorsRules`, `LlamaNames`,
  `Inventory`, `InventoryRules`). The packing check characterised exactly, and two code paths for the
  inventory that agree.
- **Resumable download** (`Download`) and **corruption campaign** (`Fuzz`).
- `Wrappers`, `Bytes`, `Digests`, `DottedText` and `Sorting` hold what several parts share.

The modules named after rules, facts, history, outcomes, escapes, formulas, wire and grammar state what
the shared definitions mean in literal terms: names, numbers, tables and limits, in both directions.

## What does not hold, and exactly when

Some promises fail on inputs the source accepts. The model keeps the code as it is; each failure
has a concrete witness and the exact condition under which the promise holds.

- The six-digit file names of a journal run out at one million events. The chain stays readable but
  a later event file is not listed: `JournalRuns.DiskAgreesWithMemory` gives the condition,
  `JournalRecovery.SealsExactlyWhenNumbered` the one for recovery, and
  `JournalRecovery.LongRunIsNeverSealed` the witness. A second recovery then changes nothing but
  counts the chain again (`JournalRecovery.SecondRunIsIdle`).
- The KV block counter saturates, so block ids are distinct only for the first 2^32 sequences begun:
  `KvSpec.BlocksDistinct` and `KvSpec.BlocksCollideAfterSaturation`.
- A safetensors tensor may be named `__metadata__` when writing but not when reading:
  `SafetensorsFile.EncodedParses` gives the condition, `SafetensorsFile.MetadataTensorIsRefused` the
  witness.
- A manifest extension is translated at depth 0 but sits two maps deep in the model image, so the
  compiler's own decoding refuses an image whose extension is higher than 30:
  `ImageExtensions.CompileMeaning` gives the condition. A strict JSON manifest always meets it
  (`ImageExtensions.JsonExtensionsFit`). A YAML manifest need not, because a mapping beside a dash
  opens no level of the parser: `YamlManifest.DeepExtensionIsRefused` is the witness. Nothing wrong
  is written: the refusal comes before the file.
- A GGUF file whose tensors are not in layout order parses, but does not encode back to its bytes:
  `GgufFile.ParseThenEncode` gives the condition, `GgufOrder.SwappedDoesNotEncodeBack` the witness.
- The manifest and the projection of a GGUF file agree exactly when no tensor carries the Knolo name
  of another tensor (`Inventory.ParsedFileMatches`); `Inventory.MixedNamesCollide` is a witness.

## Model

| member | source | states |
|---|---|---|
| Cbor.DecodeExactlyEncoding | crates/infer-contracts/src/cbor.rs:59-89 | `decode_canonical` returns a value exactly when the bytes are the encoding of that value, the value is canonical (integers in range, keys strictly increasing by their UTF-8 bytes, depth and counts within limits) and the document is at most 32 MiB: inversion and canonicity in one equivalence |
| Cbor.ReadExactlyEncoding | crates/infer-contracts/src/cbor.rs:162-248 | the same equivalence for one item read at any depth with any bytes after it |
| Cbor.ReadIsCanonical | crates/infer-contracts/src/cbor.rs:162-307 | whatever `Decoder::read` accepts is the encoding of what it returns: the checks it makes on the way already force the shortest head, the key order and the limits |
| Cbor.ReadEncoding | crates/infer-contracts/src/cbor.rs:91-153 | every canonical value reads back from its encoding, followed by anything, and the rest is left untouched |
| Cbor.RecodeNeverRejects | crates/infer-contracts/src/cbor.rs:79-89 | the re-encode comparison at the end of `decode_canonical` can never fail once the item was read to the end of the input |
| Cbor.DecodeInjective | crates/infer-contracts/src/cbor.rs:59-89 | two byte strings that decode to the same value are the same byte string |
| Cbor.EncodePrefixFree | crates/infer-contracts/src/cbor.rs:91-153 | if two encodings, each followed by any bytes, are equal then the values are equal and so are the bytes after them; no encoding is a proper prefix of another |
| Cbor.EncodeInjective | crates/infer-contracts/src/cbor.rs:91-153 | different values have different encodings |
| Cbor.HeadThenRead | crates/infer-contracts/src/cbor.rs:135-153 | the head that `encode_length` writes is read back as its major type and argument |
| Cbor.ReadThenHead | crates/infer-contracts/src/cbor.rs:268-307 | an argument that is accepted was written in its shortest form: the bytes are the head of that argument |
| Cbor.CanonicalKeysDistinct | crates/infer-contracts/src/cbor.rs:215-223 | a map that passes the order check has no key twice, at any distance |
| Cbor.CanonicalEncodable | crates/infer-contracts/src/cbor.rs:91-153 | every value the decoder can return is one the encoder can write |
| CborCodec.EncodeLength | crates/infer-contracts/src/cbor.rs:135-153 | appends the shortest head of the argument to the buffer and changes nothing before it |
| CborCodec.EncodeInto | crates/infer-contracts/src/cbor.rs:91-133 | appends the encoding of the value; the recursion over arrays and maps loses and reorders nothing |
| CborCodec.EncodeCanonical | crates/infer-contracts/src/cbor.rs:55-57 | the returned bytes are the encoding, and no other encodable value has those bytes |
| CborCodec.Decoder.ReadArgument | crates/infer-contracts/src/cbor.rs:268-307 | the cursor form agrees with the reader on the bytes that are left: same value, same error, and the offset moves to exactly the rest |
| CborCodec.Decoder.CollectionLen | crates/infer-contracts/src/cbor.rs:250-266 | the count of a collection, refused above the item limit, agrees with the reader on the bytes left |
| CborCodec.Decoder.Read | crates/infer-contracts/src/cbor.rs:162-248 | the recursive read with its depth counter agrees with the reader on the bytes left; on success the depth is restored and the offset is at the rest |
| CborCodec.Decoder.ReadArray | crates/infer-contracts/src/cbor.rs:189-198 | the loop over items, from any offset, returns what the reader returns on the bytes left |
| CborCodec.Decoder.ReadMap | crates/infer-contracts/src/cbor.rs:199-229 | the loop over entries, with the previous key carried along, returns what the reader returns |
| CborCodec.DecodeCanonical | crates/infer-contracts/src/cbor.rs:59-89 | the whole decoder equals the specification, and a returned value is canonical and encodes to the input |
| CborWire.ValueBytes | crates/infer-contracts/src/cbor.rs:91-153 | the bytes of every value kind by kind, as RFC 8949 writes them: the initial byte of the major type with the argument in the shortest form, the high byte first, and one byte for each simple value |
| CborWire.DocumentMeaning | crates/infer-contracts/src/cbor.rs:59-89 | a document is read exactly when it is within 32 MiB and the encoding of a canonical value; a longer one and an empty one each give their own error |
| Utf8.DecodeEncode | crates/infer-contracts/src/cbor.rs:101-105 | text is recovered from its UTF-8 bytes |
| Utf8.EncodeDecode | crates/infer-contracts/src/cbor.rs:182-188 | bytes that pass the UTF-8 check are the bytes of the text they decode to, so the check leaves no second spelling |
| GgufFormat.ReadThenWrite | crates/infer-artifact/src/gguf.rs:352-393 | a metadata value that is read is a valid value of its declared type within the nesting limit, and writing it gives back exactly the bytes consumed |
| GgufFormat.WriteThenRead | crates/infer-artifact/src/gguf.rs:1177-1205 | every value that `validate_value` passes, arrays nested to the limit included, reads back from what `write_value` writes, followed by anything |
| GgufFormat.StringExact | crates/infer-artifact/src/gguf.rs:335-350 | a string is read exactly when the bytes are its length, its UTF-8 bytes and the rest, within the limit and free of NUL |
| GgufFormat.PairExact | crates/infer-artifact/src/gguf.rs:427-437 | a metadata pair is read exactly when the key is valid and new, the value valid, and the bytes are their encoding |
| GgufFormat.MetadataSound | crates/infer-artifact/src/gguf.rs:404-443 | metadata that is read is valid, has the announced count, has no key twice and writes back to the bytes consumed |
| GgufFormat.MetadataComplete | crates/infer-artifact/src/gguf.rs:1131-1144 | metadata that `validate_metadata` passes is read back in order |
| GgufFormat.ValueStable | crates/infer-artifact/src/gguf.rs:352-393 | a value read, or refused for any reason but a short input, is read or refused the same way when bytes are appended |
| GgufFormat.MetadataStable | crates/infer-artifact/src/gguf.rs:404-443 | the same for the whole metadata section |
| GgufHeader.PrefixExact | crates/infer-artifact/src/gguf.rs:404-443 | `read_gguf_prefix` succeeds exactly on the encoding of a valid prefix, followed by anything |
| GgufHeader.PrefixStable | crates/infer-artifact/src/gguf.rs:289-299 | the outcome of `read_gguf_prefix`, unless it is "truncated", is unchanged by appending bytes |
| GgufHeader.ShapeExact | crates/infer-artifact/src/gguf.rs:584-595 | a shape is read exactly when it has one to four dimensions and the bytes are its encoding |
| GgufHeader.InfosSound | crates/infer-artifact/src/gguf.rs:576-609 | tensor descriptors that are read are valid, distinct by name, and write back to the bytes consumed |
| GgufHeader.InfosComplete | crates/infer-artifact/src/gguf.rs:1033-1041 | valid descriptors with distinct names are read back in order |
| GgufTypes.AlignUp | crates/infer-artifact/src/gguf.rs:1250-1263 | the result is the least multiple of the alignment that is not below the value, for any alignment, power of two or not |
| GgufTypes.NBytes | crates/infer-artifact/src/gguf.rs:215-233 | a length is accepted only for a valid shape, and is positive |
| GgufTypes.NBytesMeaning | crates/infer-artifact/src/gguf.rs:204-233 | the byte length is the product of the dimensions over the block size times the bytes of a block, and it exists exactly for a valid shape of whole blocks whose length fits 64 bits, whatever the order of the overflow checks |
| GgufData.CheckDataPaddingMeaning | crates/infer-artifact/src/gguf.rs:1228-1248 | the check passes exactly when the tensor ranges are pairwise disjoint and every byte outside them is zero |
| GgufData.CheckPadding | crates/infer-artifact/src/gguf.rs:1228-1248 | the sort and the single pass with a moving cursor decide that same condition, with the same error |
| GgufData.LayoutPlaces | crates/infer-artifact/src/gguf.rs:1055-1068 | every payload stands at its offset in the data, offsets are multiples of the alignment and in order |
| GgufData.LayoutZeroElsewhere | crates/infer-artifact/src/gguf.rs:1055-1068 | every byte of the laid-out data that no payload covers is zero |
| GgufData.LayoutPassesCheck | crates/infer-artifact/src/gguf.rs:1055-1068 | a layout that `layout_data` makes always passes the padding check of the reader |
| GgufData.LayoutData | crates/infer-artifact/src/gguf.rs:1055-1068 | the loop with its growing buffer computes that layout; offsets, payloads and zero padding are all stated |
| GgufFile.ParseMeaning | crates/infer-artifact/src/gguf.rs:553-656 | everything a parsed file guarantees: the header is the unique encoding of metadata and tensors, the data starts at the aligned end of the header with zeros between, tensors hold their slices, and the padding check passed |
| GgufFile.NoHiddenBytes | crates/infer-artifact/src/gguf.rs:553-656 | two inputs that parse to the same file, under whatever limits, differ at most by zero bytes at the end of the longer one |
| GgufFile.DataByteBelongsToOneTensor | crates/infer-artifact/src/gguf.rs:1228-1248 | a nonzero byte of the data section lies in a tensor, and no byte lies in two |
| GgufFile.AssembledParses | crates/infer-artifact/src/gguf.rs:553-656 | any header, gap and data that fit together parse to exactly the file they were assembled from |
| GgufFile.EncodeThenParse | crates/infer-artifact/src/gguf.rs:1002-1068 | whenever `encode_gguf` succeeds, parsing its output gives the metadata, the tensors at the offsets of the layout, and the facts of the metadata |
| GgufFile.EncodeKeepsContents | crates/infer-artifact/src/gguf.rs:1002-1068 | after encoding and parsing, the metadata and every name, type, shape and payload are the ones given, in order |
| GgufFile.ParseThenEncode | crates/infer-artifact/src/gguf.rs:1002-1068 | writing the contents of a parsed file gives its bytes back, up to zeros at the end, if and only if its tensors stand where the writer would put them |
| GgufFile.EncodeBackForcesLayout | crates/infer-artifact/src/gguf.rs:1055-1068 | the hard half: if the bytes start with what the writer makes of their contents, the tensors are in layout order |
| GgufFile.LayoutOrderEncodesBack | crates/infer-artifact/src/gguf.rs:1002-1068 | a parsed file in layout order is written back to its bytes, less the zeros at the end |
| GgufOrder.SwappedDoesNotEncodeBack | crates/infer-artifact/src/gguf.rs:553-656 | the condition can fail: a file of two tensors with their offsets swapped parses, and writing its contents gives other bytes |
| GgufReader.Cursor.TakeBytes | crates/infer-artifact/src/gguf.rs:289-300 | returns the next bytes and moves past them, or reports truncation and leaves the cursor |
| GgufReader.Cursor.Text | crates/infer-artifact/src/gguf.rs:335-350 | the cursor form of the string reader agrees with the reader on the bytes left |
| GgufReader.Cursor.ReadTyped | crates/infer-artifact/src/gguf.rs:352-372 | the recursive value reader agrees with the reader on the bytes left, at every depth |
| GgufReader.Cursor.ReadTypedArray | crates/infer-artifact/src/gguf.rs:374-393 | the array reader, with its element count checked against the bytes remaining, agrees with the reader |
| GgufReader.Cursor.Pairs | crates/infer-artifact/src/gguf.rs:426-437 | the loop over metadata pairs, with the set of keys seen, agrees with the reader |
| GgufReader.Cursor.Descriptor | crates/infer-artifact/src/gguf.rs:578-609 | one turn of the descriptor loop agrees with the reader |
| GgufReader.Cursor.Descriptors | crates/infer-artifact/src/gguf.rs:576-609 | the descriptor loop agrees with the reader |
| GgufReader.ReadGgufPrefix | crates/infer-artifact/src/gguf.rs:404-443 | `read_gguf_prefix` equals its specification |
| GgufReader.LongerPrefixAgrees | crates/infer-artifact/src/gguf.rs:472-521 | once a prefix of the file gives any outcome but "truncated", every longer prefix gives the same |
| GgufReader.ReadGgufMetadata | crates/infer-artifact/src/gguf.rs:472-521 | the loop that reads 64 KiB chunks until the prefix parses ends, and returns the answer for the whole file, or the read cap of 64 MiB |
| GgufReader.MetadataMatchesParse | crates/infer-artifact/src/gguf.rs:472-521 | for a file that parses as a whole, under any limits, the incremental reader returns its metadata exactly when the prefix fits under the 64 MiB cap, and the cap or file-size error otherwise |
| GgufReader.CutTensors | crates/infer-artifact/src/gguf.rs:620-645 | cutting the payloads out of the data agrees with its specification, error by error |
| GgufReader.ParseGgufBytesMax | crates/infer-artifact/src/gguf.rs:553-656 | the whole imperative parser equals the specification the theorems above are about |
| GgufWriter.WriteInto | crates/infer-artifact/src/gguf.rs:1265-1287 | appends the encoding of a metadata value to the buffer |
| GgufWriter.PushDescriptor | crates/infer-artifact/src/gguf.rs:1033-1041 | appends the encoding of one tensor descriptor |
| GgufWriter.PushHeader | crates/infer-artifact/src/gguf.rs:1023-1041 | appends the header of the given metadata and tensors |
| GgufWriter.EncodeGguf | crates/infer-artifact/src/gguf.rs:1002-1053 | the whole writer equals its specification, including which error each bad input gets |
| GgufWriter.WriteFile | crates/infer-artifact/src/gguf.rs:1023-1053 | the bytes are header, zeros up to the aligned data start, and data, refused above the file limit |
| GgufFacts.InterpretMeaning | crates/infer-artifact/src/gguf.rs:1070-1129 | over metadata with distinct keys, in whatever order, `interpret` returns given facts exactly when the metadata says them: the architecture is the text under its key, the alignment the number under its key or 32, the quantization version the number under its key or none, each within its rule, and 2 where a tensor is quantized |
| GgufFacts.InterpretItems | crates/infer-artifact/src/gguf.rs:1070-1129 | the loop over the items equals that function, and what it returns is what the metadata says |
| GgufFacts.ParsedFacts | crates/infer-artifact/src/gguf.rs:553-656 | the architecture, alignment and quantization version of a parsed file are what its metadata says, quantized being told by its tensors; the data and every tensor start at multiples of that alignment |
| GgufFacts.EncodedFacts | crates/infer-artifact/src/gguf.rs:1002-1053 | what is encoded parses to the facts that the given metadata says |
| GgufRules.KeyMeaning | crates/infer-artifact/src/gguf.rs:1146-1165 | a key is valid exactly when it is two or more non-empty parts of lower-case letters, digits and underscores with dots between them, of at most 65535 bytes |
| GgufRules.ValueMeaning | crates/infer-artifact/src/gguf.rs:1177-1205 | a value is valid exactly when every value inside it keeps the bounds at its depth: strings to 1 MiB without NUL, arrays at most four deep, to 1,048,576 items of the declared type |
| GgufRules.PrefixMeaning | crates/infer-artifact/src/gguf.rs:1131-1144 | a prefix is valid exactly with at most 100,000 tensors and 4096 items, distinct valid keys and valid values |
| GgufRules.FirstBytes | crates/infer-artifact/src/gguf.rs:1020-1035 | a file begins with the letters GGUF, the version 3 in four bytes and the two counts in eight, the low byte first |
| GgufRules.ValueTypeMeaning | crates/infer-artifact/src/gguf.rs:39-74 | the thirteen value types and their numbers, in both directions |
| GgufRules.TensorTypeMeaning | crates/infer-artifact/src/gguf.rs:155-202 | the six tensor types with their numbers, block lengths and block sizes, in both directions |
| GgufRules.InfoMeaning | crates/infer-artifact/src/gguf.rs:566-612 | a descriptor is valid exactly with a new name of 1 to 64 bytes without NUL, one to four dimensions, none zero, whole blocks, the length of its shape, an offset of 64 bits and, on the run path, at most 2 GiB |
| GgufRules.FileLimits | crates/infer-artifact/src/gguf.rs:544-556 | the file limit, 32 MiB or 8 GiB on the run path, refuses longer files and changes nothing for others |
| KvSpec.SlotIsLastWritten | crates/infer-engine/src/kv.rs:187-245 | after any run, every slot of a live sequence holds the last vector written to it since its sequence began, or zeros |
| KvSpec.ReadReturnsLastWrite | crates/infer-engine/src/kv.rs:219-245 | a read that succeeds after any run returns that vector |
| KvSpec.CommittedNeverChanges | crates/infer-engine/src/kv.rs:187-217 | in any run without a release of the sequence it stays live, keeps its block, its length never shrinks, and the vectors of the tokens it had committed never change |
| KvSpec.OthersUntouched | crates/infer-engine/src/kv.rs:92-217 | operations on other sequences leave a sequence exactly as it was |
| KvHistory.SucceedsExactly | crates/infer-engine/src/kv.rs:92-217 | after any run an operation succeeds exactly when the history allows it, told by the live sequences and their accepted commits alone: at most eight live, the open token only, room for a commit |
| KvHistory.ReadsExactly | crates/infer-engine/src/kv.rs:219-245 | after any run a read succeeds exactly when the width is that of the layout, layer and token are inside, the sequence is live and the token is at most the number of its accepted commits since it began; it returns the last write or zeros |
| KvHistory.WrittenIsRead | crates/infer-engine/src/kv.rs:187-245 | an accepted write is read back at once, before the commit and after it |
| KvHistory.RunShows | crates/infer-engine/src/kv.rs:92-217 | over every run the store holds exactly the sequences and lengths of the history |
| KvSpec.BlocksDistinct | crates/infer-engine/src/kv.rs:92-118 | live sequences have distinct block ids as long as at most 2^32 sequences were begun; the counter is the number begun until it saturates |
| KvSpec.BlocksCollideAfterSaturation | crates/infer-engine/src/kv.rs:106-107 | beyond that the property fails: a concrete run ends with two live sequences sharing a block id |
| KvSpec.StepWellFormed | crates/infer-engine/src/kv.rs:92-217 | every successful operation keeps the shape of the tables, the bounds on lengths and ids, and the layout |
| Kv.SlotsDisjoint | crates/infer-engine/src/kv.rs:70-84 | slots of different layers or tokens share no float of the slab |
| Kv.IndexInjective | crates/infer-engine/src/kv.rs:70-84 | the block index is strictly increasing in layer and token, lexicographically |
| Kv.OffsetInSlab | crates/infer-engine/src/kv.rs:70-84 | the slot of a valid layer and token lies inside the slab |
| Kv.WriteSlot | crates/infer-engine/src/kv.rs:187-217 | overwriting one slot of the slab in place changes that entry of the abstract table and no other |
| Kv.CopyInto | crates/infer-engine/src/kv.rs:210-216 | the in-place copy into a slab is the update of one table entry |
| Kv.CopyOut | crates/infer-engine/src/kv.rs:242-244 | the copy out of a slab is the table entry |
| Kv.SingleBlockKv.constructor | crates/infer-engine/src/kv.rs:25-42 | a new store is the empty store |
| Kv.Create | crates/infer-engine/src/kv.rs:25-42 | a store is created exactly for a valid layout |
| Kv.SingleBlockKv.BeginSequence | crates/infer-engine/src/kv.rs:92-118 | the object takes the step of the specification, or reports its error and is unchanged |
| Kv.SingleBlockKv.ReleaseSequence | crates/infer-engine/src/kv.rs:120-125 | the object takes the step of the specification, or reports its error and is unchanged |
| Kv.SingleBlockKv.CommitToken | crates/infer-engine/src/kv.rs:175-183 | the object takes the step of the specification and returns the new length, or reports its error and is unchanged |
| Kv.SingleBlockKv.WriteVector | crates/infer-engine/src/kv.rs:187-217 | the in-place write is the step of the specification on every sequence, or reports its error and is unchanged |
| Kv.SingleBlockKv.ReadVector | crates/infer-engine/src/kv.rs:219-245 | a read fills the output with the vector of the specification and changes no state, or reports its error and leaves the output |
| InferenceEvent.EventRoundTrip | crates/infer-contracts/src/contracts/execution.rs:519-549 | an event parses back from its bytes exactly when it is valid, its extensions are at most 32 canonical entries under valid keys, and the bytes are within the document limit |
| InferenceEvent.ParseEvent | crates/infer-contracts/src/contracts/execution.rs:534-549 | an event that parses is valid and its bytes are the only ones it has |
| InferenceEvent.RootInputInjective | crates/infer-contracts/src/contracts/execution.rs:551-563 | two stored events that hash the same input for their root are the same bytes |
| InferenceEvent.RootInputHoldsEvent | crates/infer-contracts/src/contracts/execution.rs:551-563 | the input of the root holds the bytes of the whole event |
| EventRules.EventMeaning | crates/infer-contracts/src/contracts/execution.rs:488-516 | an event is valid exactly with a request id of 1 to 64 letters, digits, hyphens and underscores, one of six names and an attempt to 16 |
| EventRules.DigestMeaning | crates/infer-contracts/src/digest.rs:183-201 | a digest is exactly `sha256-` and 64 lower-case hexadecimal digits |
| EventRules.ExtensionKeyMeaning | crates/infer-contracts/src/fields.rs:297-329 | an extension key is exactly two or more parts with dots between them, to 64 bytes, each starting with a lower-case letter; only parts after the first may hold hyphens |
| EventRules.ExtensionsMeaning | crates/infer-contracts/src/fields.rs:359-379 | extensions are valid exactly when at most 32 under such keys |
| EventRules.FieldsMeaning | crates/infer-contracts/src/contracts/execution.rs:519-532 | the stored map holds, under each of its eight names, the value that belongs there, and nothing under any other name |
| EventRules.RootInputMeaning | crates/infer-contracts/src/contracts/execution.rs:550-563 | the input of a root is a map of two entries, the stored event and the root before it or null |
| JournalSpec.ReadEventsMeaning | crates/infer-engine/src/journal.rs:320-374 | the loop returns a list of events exactly when the files, in name order, hold those events under their index and name, each file in canonical bytes, and each event links to the root of the one before |
| JournalSpec.ListingUnique | crates/infer-engine/src/journal.rs:293-315 | the sorted listing of event files is the only increasing list of them |
| JournalSpec.NamesInOrder | crates/infer-engine/src/journal.rs:57-66 | names of six-digit indices sort in the order of the indices, whatever event names follow |
| JournalSpec.FileNameShape | crates/infer-engine/src/journal.rs:293-315 | the name of an event is listed as an event file exactly below one million, and its index and event name are read back from it |
| JournalSpec.AppendIsListed | crates/infer-engine/src/journal.rs:53-73 | a new event file is a new name and comes last in the listing |
| JournalSpec.AppendIsStored | crates/infer-engine/src/journal.rs:53-73 | writing the next event turns a directory that stores a chain into one that stores the chain with that event |
| EventRules.FileNameMeaning | crates/infer-engine/src/journal.rs:53-73 | the file of event n is named by six decimal digits of n, the event name and `.cbor`, with dots between |
| EventRules.EventNameMeaning | crates/infer-engine/src/journal.rs:293-315 | a name is listed exactly when its seventh byte is a dot and it ends in `.cbor` |
| EventRules.SamplerMeaning | crates/infer-engine/src/journal.rs:75-82 | the sampler plan has its own name, which is never listed as an event |
| EventRules.AppendedMeaning | crates/infer-engine/src/journal.rs:53-73 | an append succeeds exactly for a valid id and name; it adds one file, which reads back as the first attempt with the payload, the root before it and no extensions, and leaves the others |
| JournalRuns.DiskAgreesWithMemory | crates/infer-engine/src/journal.rs:53-73 | in every reachable state the chain on disk reads, and equals the memory in head and next index exactly when at most a million events were appended |
| JournalRuns.RunAgreesWithDisk | crates/infer-engine/src/journal.rs:53-82 | the same after any sequence of calls, failed writes and sampler files included |
| JournalRuns.FinishedRunVerifies | crates/infer-engine/src/journal.rs:107-122 | a run of at most a million events that starts at `accepted` and ends in a terminal event verifies, with the head in memory as its root |
| JournalRuns.TerminalRootCommits | crates/infer-engine/src/journal.rs:107-122 | two verified journals with equal terminal roots belong to the same request and hold the same events, unless the digest is equal on two different root inputs of events of these very journals |
| JournalOutcomes.VerifiesExactly | crates/infer-engine/src/journal.rs:107-122 | a stored, linked chain verifies exactly when its first file ends in `.accepted.cbor` and its last event is `completed`, `failed` or `cancelled`; the result is the root of the last event |
| JournalRecovery.OpenIsSealed | crates/infer-engine/src/journal.rs:217-252 | an open chain is always sealed: recovery of it cannot fail, and adds exactly the `failed` event to it |
| JournalRecovery.SealedVerifies | crates/infer-engine/src/journal.rs:217-252 | below a million events the sealed directory has one more file and no other change, verifies, and is left alone by the next recovery |
| JournalRecovery.TooLongStaysOpen | crates/infer-engine/src/journal.rs:217-252 | with a million events the sealing file is no event file: the chain does not verify and is sealed, and counted, again on every run |
| JournalRecovery.SealsExactlyWhenNumbered | crates/infer-engine/src/journal.rs:217-252 | recovery makes an open chain verify exactly when it has fewer than a million events |
| JournalOutcomes.RecoversExactly | crates/infer-engine/src/journal.rs:217-252 | recovery of an accepted chain leaves the directory alone and counts nothing exactly when the last event is one of those three, and seals it and counts one exactly when it is `accepted`, `prefill` or `token` |
| JournalOutcomes.UnacceptedIsRefused | crates/infer-engine/src/journal.rs:217-252 | a chain whose first file does not end so is refused |
| JournalRecovery.RecoverAllMeaning | crates/infer-engine/src/journal.rs:131-208 | recovery succeeds exactly when every directory name is a request id and every journal recovers with every write it needs; it returns the number of open chains; a bad name stops it before any change, and any other failure leaves the journals before the failing one recovered and the others untouched |
| JournalRecovery.RecoverySettles | crates/infer-engine/src/journal.rs:131-208 | after a successful recovery every journal that had events remains and, unless exhausted, verifies; terminal ones are byte-identical, open ones gained one event, and no journal appears |
| JournalRecovery.SecondRunIsIdle | crates/infer-engine/src/journal.rs:131-208 | a second recovery changes nothing, whether or not its writes would reach the disk; it returns 0 exactly when no chain had exhausted its six digits |
| JournalRecovery.RetryCompletes | crates/infer-engine/src/journal.rs:131-252 | whatever a recovery that failed left behind, a later one that succeeds ends in the same directories, byte for byte, as one uninterrupted recovery |
| JournalRecovery.RunIsHalfway | crates/infer-engine/src/journal.rs:131-252 | after any run, failed or not, each journal is as it was or as recovery leaves it, and never in between |
| JournalRecovery.LongRunIsNeverSealed | crates/infer-engine/src/journal.rs:53-73 | the exhausted case is reachable: one acceptance and 999,999 tokens leave a chain that recovery reports as recovered but that never verifies |
| Journal.Create | crates/infer-engine/src/journal.rs:23-39 | creates an empty journal exactly when there was none of that id |
| Journal.Journal.Append | crates/infer-engine/src/journal.rs:53-73 | memory and directory take the step of the specification; a failed write leaves both as they were |
| Journal.Journal.WriteSampler | crates/infer-engine/src/journal.rs:75-83 | writes the sampler file of this journal and nothing else |
| Journal.ListEvents | crates/infer-engine/src/journal.rs:293-315 | the directory scan followed by a sort is the listing of the specification |
| Journal.ReadChain | crates/infer-engine/src/journal.rs:320-374 | the loop over files, with its index, previous root and flags, is the reader of the specification |
| Journal.VerifyJournal | crates/infer-engine/src/journal.rs:107-122 | equals the specification; a missing journal has no events |
| Journal.RecoverOne | crates/infer-engine/src/journal.rs:217-252 | changes at most the one directory, as the specification says, and not at all on failure, a failed removal or sealing write included |
| Journal.ListIds | crates/infer-engine/src/journal.rs:155-202 | the request ids in order, or an error if any name is not one |
| Journal.RecoverOpenJournals | crates/infer-engine/src/journal.rs:131-208 | the whole loop, stopping at the first failure of a journal or of a write, equals the specification of recovery |
| JsonText.ReadPieces | crates/infer-artifact/src/json.rs:247-312 | a string written with any mix of plain characters and legal escapes, surrogate pairs included, reads as its characters |
| JsonText.PiecesOf | crates/infer-artifact/src/json.rs:247-312 | every string that is accepted was written that way |
| JsonText.ReadDecimal | crates/infer-artifact/src/json.rs:225-245 | the decimal text of a 64-bit number reads as that number |
| JsonText.DecimalOf | crates/infer-artifact/src/json.rs:225-245 | every number that is accepted is the decimal text of its value: no leading zero, sign, fraction or exponent |
| JsonEscapes.LetterMeaning | crates/infer-artifact/src/json.rs:277-288 | the eight letters that may follow a backslash stand for the code points 34, 92, 47, 8, 12, 10, 13 and 9; any other but `u` is refused |
| JsonEscapes.NumberMeaning | crates/infer-artifact/src/json.rs:314-327 | four characters read as a number exactly when they are its four hexadecimal digits, in either case |
| JsonEscapes.BasicMeaning | crates/infer-artifact/src/json.rs:291-312 | an escape of one unit outside the surrogates reads as that code point |
| JsonEscapes.PairMeaning | crates/infer-artifact/src/json.rs:291-312 | every character from 0x10000 on is read from its pair of units, 0xD800 plus the high ten bits and 0xDC00 plus the low ten |
| JsonEscapes.LoneHalf | crates/infer-artifact/src/json.rs:291-312 | half of a pair alone is refused |
| JsonEscapes.SpaceMeaning | crates/infer-artifact/src/json.rs:87-91 | exactly the space, tab, newline and carriage return are skipped |
| Json.TextReads | crates/infer-artifact/src/json.rs:93-223 | a document written with any whitespace and any legal escapes reads as its tree, from any depth and value count that leave room for it |
| Json.ValueText | crates/infer-artifact/src/json.rs:93-223 | every value that is accepted was written as such a document, fits the depth limit and was charged one for each value in it |
| Json.ParseMeaning | crates/infer-artifact/src/json.rs:27-49 | `parse_strict_json` returns a tree exactly when the text is some legal writing of that tree and the tree is within the limits |
| JsonRules.AdmissibleMeaning | crates/infer-artifact/src/json.rs:65-81 | the trees within the limits are those whose every value keeps the bounds at its depth: fewer than 32 containers above a container, 64-bit numbers, strings to 1 MiB, distinct keys to 1024 bytes |
| JsonRules.ParsedExactly | crates/infer-artifact/src/json.rs:27-49 | a text gives a tree exactly when it writes that tree and both keep the limits, each written out: 32 MiB, the bounds above and 1,048,576 values |
| JsonRules.FractionRefused | crates/infer-artifact/src/json.rs:225-245 | a number that goes on with a fraction, an exponent or a plus sign is refused as no integer; with anything else but a digit it ends there |
| JsonRules.WordEnds | crates/infer-artifact/src/json.rs:125-144 | a word that runs on with a letter, a digit or an underscore is refused |
| JsonRules.StartRefused | crates/infer-artifact/src/json.rs:27-49 | text above 32 MiB, or that starts with a byte order mark, is refused for that |
| JsonParser.Parser.ParseString | crates/infer-artifact/src/json.rs:247-275 | the scanning loop with its string buffer agrees with the reader on the text left |
| JsonParser.Parser.ParseUnicode | crates/infer-artifact/src/json.rs:291-312 | a `\u` escape, paired where a pair is needed, agrees with the reader |
| JsonParser.Parser.ParseNumber | crates/infer-artifact/src/json.rs:225-245 | the digit loop agrees with the reader |
| JsonParser.Parser.ParseArray | crates/infer-artifact/src/json.rs:146-175 | the item loop agrees with the reader; depth is restored on success |
| JsonParser.Parser.ParseObject | crates/infer-artifact/src/json.rs:177-223 | the member loop, refusing a key seen before, agrees with the reader; depth is restored on success |
| JsonParser.Parser.ParseValue | crates/infer-artifact/src/json.rs:93-123 | the recursive parser with its index, depth and value counters agrees with the reader |
| JsonParser.ParseJson | crates/infer-artifact/src/json.rs:27-49 | the whole parser equals the specification that ParseMeaning is about |
| StrictJson.ParsedLimits | crates/infer-artifact/src/json.rs:65-81 | every accepted text gives unique keys, container depth at most 32 and at most 1,048,576 values |
| JsonToCbor.TranslateMeaning | crates/infer-artifact/src/compile.rs:261-322 | `json_to_cbor` succeeds at a depth exactly when the tree has no float and no out-of-range integer and its plain image is canonical for the CBOR decoder at that depth; it then returns that image |
| JsonToCbor.TranslatedDecodes | crates/infer-artifact/src/compile.rs:261-322 | what it returns decodes back to itself exactly when its encoding is within 32 MiB |
| JsonRules.ExpressibleMeaning | crates/infer-artifact/src/compile.rs:261-322 | a tree has an image exactly when no value at any depth is null, a float or a string above 1 MiB |
| JsonToCbor.Run | crates/infer-artifact/src/compile.rs:261-322 | the recursion that collects children in loops equals the specification |
| JsonToCbor.RunMembers | crates/infer-artifact/src/compile.rs:308-320 | the loop over members, inserting each into an ordered map, equals the specification |
| JsonToCbor.SortUniqueText | crates/infer-artifact/src/compile.rs:248-259 | sorts in place and fails exactly when a text occurs twice |
| JsonToCbor.NeighboursTell | crates/infer-artifact/src/compile.rs:248-259 | after sorting, comparing neighbours finds a repetition exactly when there is one |
| StrictJson.StrictJsonTranslates | crates/infer-artifact/src/compile.rs:261-322 | every tree the strict parser returns without nulls translates at depth 0 and, within 32 MiB, decodes back: the depth limits of the two coincide, empty containers at depth 32 included |
| ImageExtensions.HeightMeaning | crates/infer-artifact/src/compile.rs:261-322 | a tree that translates at one depth translates at another exactly when that depth and the height of the tree are together at most 32, and to the same value |
| ImageExtensions.CompileMeaning | crates/infer-artifact/src/compile.rs:37-53 | extensions that translate are compiled exactly when none is higher than 30 and the image is within 32 MiB; a higher one is refused before anything is written, by the decoding of the encoded image |
| ImageExtensions.JsonExtensionsFit | crates/infer-artifact/src/authoring.rs:152-164 | every extension of every strict JSON manifest translates and is at most 30 high, since the parser spends two of its 32 levels on the manifest and the map |
| ImageExtensions.JsonManifestCompiles | crates/infer-artifact/src/compile.rs:131-134 | hence a JSON manifest is never refused for the depth of its extensions |
| YamlManifest.YamlExtensionRefused | crates/infer-artifact/src/compile.rs:37-53 | the guard can fail for YAML: with any other fields, the printed text of a manifest parses, its extension of sixteen lists of mappings translates at depth 0, and the compiler refuses the image |
| YamlManifest.DeepExtensionIsRefused | crates/infer-artifact/src/yaml.rs:138-176 | a text within the size limit that does so, with no hypothesis left on the manifest |
| StrictJson.NestedTranslates | crates/infer-artifact/src/compile.rs:261-322 | arrays nested n deep translate at depth d exactly when d + n is at most 32 |
| JsonOrder.OrderIsForgotten | crates/infer-artifact/src/compile.rs:308-320 | two documents that differ only in the order of members, at any depth of the tree, are translated alike |
| YamlDocument.YamlRoundTrip | crates/infer-artifact/src/yaml.rs:16-46 | a layout of a tree in blocks, with comments, blank lines and trailing spaces anywhere, parses back to the tree it shows |
| YamlDocument.PlainYamlRoundTrip | crates/infer-artifact/src/yaml.rs:16-46 | the plain printing of any valid layout parses back to its tree |
| YamlTrees.PrintedTreeParses | crates/infer-artifact/src/yaml.rs:16-46 | printing any map or list of printable values and parsing the text gives the tree back, whenever it needs at most 32 levels and the text is within the size limit |
| YamlTrees.NestedTreeParses | crates/infer-artifact/src/yaml.rs:66-176 | in particular for every such tree of at most 32 nested containers |
| YamlTrees.HasLayout | crates/infer-artifact/src/yaml.rs:66-176 | a tree has a block layout exactly when it is a map or list of printable values under valid distinct keys and needs at most 32 levels, where a mapping beside a dash needs none of its own |
| YamlTrees.LayShows | crates/infer-artifact/src/yaml.rs:66-176 | the layout made from a tree is valid at every depth with room for its levels, and shows that tree |
| YamlDocument.SpelledReads | crates/infer-artifact/src/yaml.rs:178-201 | raw lines that spell the lines of a block, with noise between them, are collected as those lines |
| YamlDocument.SplitJoined | crates/infer-artifact/src/yaml.rs:178-186 | splitting a joined text gives its lines back |
| Yaml.NodeReads | crates/infer-artifact/src/yaml.rs:66-85 | a block parses to its tree and leaves exactly the lines after it, at any indentation and depth within the limit |
| Yaml.EntryReads | crates/infer-artifact/src/yaml.rs:87-120 | the entries of a mapping from one key on parse to their trees |
| Yaml.ItemReads | crates/infer-artifact/src/yaml.rs:138-176 | an item of a sequence, on its line, in a block below or as a mapping beside the dash, parses to its tree |
| YamlText.ContentKept | crates/infer-artifact/src/yaml.rs:203-227 | the comment scan keeps the content of a line whole and drops the comment after it, hash signs inside quotes included |
| YamlText.KeyMatches | crates/infer-artifact/src/yaml.rs:229-253 | a key and its value are found again in the line they were written on |
| YamlText.LeafParses | crates/infer-artifact/src/yaml.rs:263-293 | every printed scalar parses to its value |
| YamlText.UnquoteDoubled | crates/infer-artifact/src/yaml.rs:295-320 | doubling the single quotes of any text is undone |
| YamlParser.ScanComment | crates/infer-artifact/src/yaml.rs:203-227 | the scanning loop equals the specification of comment removal |
| YamlParser.ScanKey | crates/infer-artifact/src/yaml.rs:229-253 | the key scan equals its specification |
| YamlParser.ScanSingle | crates/infer-artifact/src/yaml.rs:295-320 | the single-quote loop equals its specification |
| YamlParser.ScanLines | crates/infer-artifact/src/yaml.rs:178-201 | the line loop equals its specification |
| YamlParser.Parser.ParseNode | crates/infer-artifact/src/yaml.rs:66-85 | the parser with its index and depth follows the specification, and always moves forward |
| YamlParser.Parser.ParseSequence | crates/infer-artifact/src/yaml.rs:138-176 | the item loop follows the specification |
| YamlParser.Parser.ParseMapping | crates/infer-artifact/src/yaml.rs:87-120 | the entry loop, refusing a repeated key, follows the specification |
| YamlParser.Parser.ParseValue | crates/infer-artifact/src/yaml.rs:122-136 | the value after a key, on the line or below, follows the specification |
| YamlParser.ParseDocument | crates/infer-artifact/src/yaml.rs:16-46 | the whole parser equals the specification the round trips are about |
| YamlGrammar.ParsedExactly | crates/infer-artifact/src/yaml.rs:16-176 | `parse_yaml_subset` returns a tree exactly when the text is within 32 MiB, without NUL and tabs, and its lines are those of a block of the grammar that stands for the tree, nested at most 32 deep with no key twice |
| YamlGrammar.BlockReads | crates/infer-artifact/src/yaml.rs:66-176 | every block of the grammar, with scalars of every kind, reads as its tree and leaves the lines below it |
| YamlGrammar.BlockOf | crates/infer-artifact/src/yaml.rs:66-176 | every successful parse, at any depth and with any lines after it, has read a block of the grammar |
| YamlRules.PairMeaning | crates/infer-artifact/src/yaml.rs:229-261 | a line is split at its key exactly where a key and a colon start it, the colon followed by a space or by nothing |
| YamlRules.NoPairMeaning | crates/infer-artifact/src/yaml.rs:229-261 | a line is left to the scalars exactly when no key and colon start it |
| YamlRules.ScalarMeaning | crates/infer-artifact/src/yaml.rs:263-369 | the scalars that are accepted, each with its value: true, false, decimal numbers of 64 bits, text in single quotes with each quote doubled, JSON strings, and plain text without the reserved characters that looks like none of the others |
| YamlRules.ScalarErrors | crates/infer-artifact/src/yaml.rs:322-360 | null in any case and `~`, leading zeros, and digits with a dot each give their own error |
| YamlRules.CommentMeaning | crates/infer-artifact/src/yaml.rs:203-227 | a line keeps what stands before its first hash sign that is outside quotes and at the start or after a space |
| YamlRules.ReadLineMeaning | crates/infer-artifact/src/yaml.rs:178-201 | each line gives its indentation and that text, nothing if it is empty, an error if it is a document marker |
| YamlRules.LineMeaning | crates/infer-artifact/src/yaml.rs:178-201 | lines end at every newline, and one carriage return before it belongs to the end |
| YamlRules.StartRefused | crates/infer-artifact/src/yaml.rs:16-46 | what refuses a document before its lines are looked at, each with its error |
| Fuzz.MutationsDiffer | crates/infer-engine/src/fuzz.rs:53-72 | each of the six mutations of a non-empty seed differs from it, and is one of the documented kinds |
| Fuzz.FuzzMutations | crates/infer-engine/src/fuzz.rs:53-72 | the in-place edits on copied buffers produce those six mutations in order |
| Fuzz.FlipMeaning | crates/infer-engine/src/fuzz.rs:53-72 | one edit turns the lowest bit of its byte and no other, the other turns all eight |
| Fuzz.SeedsMeaning | crates/infer-engine/src/fuzz.rs:124-161 | the seed checks pass exactly when each seed carries the expected target as target and label and has 1 to 4096 bytes |
| Fuzz.CampaignSeeds | crates/infer-engine/src/fuzz.rs:124-161 | a campaign that succeeds had one seed for each of the nine targets, in their order |
| Fuzz.RunCampaign | crates/infer-engine/src/fuzz.rs:124-209 | the nested counting loops equal the specification of the campaign |
| Fuzz.CampaignMeaning | crates/infer-engine/src/fuzz.rs:124-209 | over nine checked seeds the campaign succeeds exactly when every seed stands, counts the rejections, and rejected plus distinguished is 54 |
| Fuzz.CborIsFaithful | crates/infer-serve/src/corruption_campaign.rs:33-63 | a probe whose identity is the decoded CBOR value distinguishes every two byte strings it accepts |
| Fuzz.CborCorruptionIsNeverAccepted | crates/infer-engine/src/fuzz.rs:163-195 | with that probe the campaign can never report an accepted corruption |
| Fuzz.FaithfulCampaignSucceeds | crates/infer-engine/src/fuzz.rs:163-195 | with faithful probes the campaign succeeds exactly when every seed itself is identified |
| Safetensors.CheckLayoutMeaning | crates/infer-artifact/src/safetensors.rs:727-772 | `check_layout` passes exactly when, in start order, the first tensor is at 0, each next one at the end before it rounded up to 8, and fewer than 8 bytes trail |
| Safetensors.PackedApart | crates/infer-artifact/src/safetensors.rs:727-772 | tensors of a layout that passes are pairwise disjoint, in order |
| SafetensorsRules.LayoutMeaning | crates/infer-artifact/src/safetensors.rs:727-772 | whatever the order of the header, a layout of non-empty tensors is accepted exactly when some order of them is packed |
| Safetensors.SlackCheckMeaning | crates/infer-artifact/src/safetensors.rs:295-329 | after `check_layout` the offset-mismatch branch of the slack check is unreachable, and the check passes exactly when every byte outside the tensors is zero |
| Safetensors.CheckOffsets | crates/infer-artifact/src/safetensors.rs:727-772 | the loop with its cursor equals the specification |
| Safetensors.CheckSlack | crates/infer-artifact/src/safetensors.rs:295-329 | the loop with its cursor equals the specification |
| SafetensorsFile.EncodedParses | crates/infer-artifact/src/safetensors.rs:189-293 | what `encode_safetensors` lays out passes both checks, holds every tensor's bytes at its offsets, and parses to those tensors exactly when none uses the reserved name |
| SafetensorsFile.MetadataTensorIsRefused | crates/infer-artifact/src/safetensors.rs:563-567 | the condition can fail: a tensor named `__metadata__` encodes, and the result does not parse |
| SafetensorsFile.NoHiddenWeightBytes | crates/infer-artifact/src/safetensors.rs:272-329 | two files with one header and the same tensor bytes differ at most by fewer than eight zeros at the end |
| SafetensorsFile.EncodeSafetensors | crates/infer-artifact/src/safetensors.rs:189-270 | the writing loop with its growing buffer equals the specification |
| SafetensorsRules.NameMeaning | crates/infer-contracts/src/contracts/model.rs:71-83 | a tensor name is valid exactly with 1 to 256 letters, digits, dots, underscores and hyphens and no two dots in a row |
| SafetensorsRules.TypeMeaning | crates/infer-artifact/src/safetensors.rs:787-825 | the five element types with their names in the file and widths, in both directions |
| SafetensorsRules.TensorMeaning | crates/infer-artifact/src/safetensors.rs:189-270 | the writer takes a tensor exactly when its name is new and valid, it has one to eight dimensions, none zero, and the bytes of its shape and type |
| SafetensorsRules.EntryMeaning | crates/infer-artifact/src/safetensors.rs:609-725 | the reader takes an entry exactly when name, type, shape and offsets are valid and the offsets span the bytes of shape and type; the view holds what the entry says |
| SafetensorsRules.EncodeMeaning | crates/infer-artifact/src/safetensors.rs:189-270 | a list is written exactly when it has 1 to 100,000 tensors the writer takes, with distinct names, that end within 64 bits at multiples of eight; the header lists them in the order of their names |
| SafetensorsRules.FileMeaning | crates/infer-artifact/src/safetensors.rs:272-329 | a file is read exactly when each entry is, 1 to 100,000 of them, packed in the order of their starts, with every byte outside them zero |
| SafetensorsRules.MetadataMeaning | crates/infer-artifact/src/safetensors.rs:585-607 | the reserved entry is skipped exactly when it is at most 64 texts under short keys, and refuses the file otherwise |
| LlamaNames.CanonicalIsIdempotent | crates/infer-artifact/src/gguf.rs:922-935 | a canonical name is a Knolo name, and canonicalising it again changes neither name nor shape |
| LlamaNames.MapGgmlInjective | crates/infer-artifact/src/gguf.rs:937-964 | different llama.cpp names have different Knolo names |
| LlamaNames.KnoloIsNotGgml | crates/infer-artifact/src/gguf.rs:966-993 | no Knolo name is taken for a llama.cpp name |
| LlamaNames.MapGgmlMeaning | crates/infer-artifact/src/gguf.rs:937-964 | a name is renamed to another exactly when the two stand side by side in the table of twelve weights, the nine layer weights under the same index of decimal digits |
| LlamaNames.KnoloNameMeaning | crates/infer-artifact/src/gguf.rs:966-993 | the Knolo names are exactly the right-hand sides of that table |
| LlamaNames.CanonicalMeaning | crates/infer-artifact/src/gguf.rs:922-935 | a llama.cpp tensor takes its Knolo name and has its shape turned round, dimension by dimension; a Knolo tensor keeps both; no other tensor passes |
| Inventory.ProjectTensors | crates/infer-artifact/src/gguf.rs:863-899 | the projection loop succeeds exactly when every tensor projects and the rope table is acceptable, and appends the tied output head |
| Inventory.BuildManifest | crates/infer-artifact/src/catalog.rs:1056-1097 | the inventory and precision loops equal their specification |
| InventoryRules.ProjectMeaning | crates/infer-artifact/src/gguf.rs:863-899 | one tensor gives an entry exactly when its dimensions fit 32 bits and its name is in the table; the entry has the Knolo name, the precision of its type and the shape in the order of Knolo |
| InventoryRules.ProjectAllMeaning | crates/infer-artifact/src/gguf.rs:863-899 | every tensor but the rope table gives one entry, in file order, and one that cannot fails the whole |
| InventoryRules.RopeMeaning | crates/infer-artifact/src/gguf.rs:863-899 | a rope table may occur once and must be usable |
| InventoryRules.HeadIsTied | crates/infer-artifact/src/gguf.rs:863-899 | a missing head is the first embedding over again, under the name of the head |
| InventoryRules.HeadStays | crates/infer-artifact/src/gguf.rs:863-899 | a list that has a head, or no embedding, stays as it is |
| InventoryRules.ManifestMeaning | crates/infer-artifact/src/catalog.rs:1056-1097 | the manifest lists those entries, and each of their precisions once in the order of bytes |
| Inventory.RequireInventory | crates/infer-artifact/src/safetensors.rs:453-506 | passes exactly when neither list repeats a name, every expected tensor was found with its type and shape and a listed precision, and nothing else was found |
| Inventory.ManifestMatchesProjection | crates/infer-artifact/src/catalog.rs:1056-1097 | for any tensors that project, the stored inventory of the manifest passes `require_inventory` against the projection exactly when the projected names are distinct |
| Inventory.NamesDistinctExactly | crates/infer-artifact/src/gguf.rs:922-993 | for distinct tensor names the projected names are distinct exactly when no tensor carries the Knolo name of another |
| Inventory.ParsedFileMatches | crates/infer-artifact/src/compile.rs:93-106 | hence for every parsed GGUF file that projects, manifest and projection agree exactly when the file keeps the two naming schemes apart |
| Inventory.MixedNamesCollide | crates/infer-artifact/src/gguf.rs:922-935 | the condition can fail: `token_embd.weight` beside `embed.weight` projects, and its manifest never matches |
| Inventory.GgmlNamesStayDistinct | crates/infer-artifact/src/gguf.rs:922-993 | distinct llama.cpp names project to distinct names, the tied head included |
| Inventory.ParsedGgmlFileMatches | crates/infer-artifact/src/compile.rs:93-106 | hence for every parsed GGUF file with llama.cpp names that projects, manifest and projection agree |
| Download.Stage.AbsorbPrefix | crates/infer-artifact/src/catalog.rs:640-657 | the hash loop absorbs exactly the staged bytes |
| Download.Stage.Download | crates/infer-artifact/src/catalog.rs:619-737 | one attempt, with its offset, hasher and file, takes the step of the specification; throughout the write loop the hasher has absorbed exactly the staged bytes |
| Download.SuccessMeansChecked | crates/infer-artifact/src/catalog.rs:696-737 | an attempt that succeeds leaves a file of the expected size and digest |
| Download.AttemptMeaning | crates/infer-artifact/src/catalog.rs:619-737 | every outcome of an attempt, each exactly when, with the file it leaves: complete files are taken, shorter ones continued, others dropped; wrong sizes and digests drop the file, interruptions keep what came |
| Download.FailureKeepsPrefix | crates/infer-artifact/src/catalog.rs:675-715 | through any run of interrupted attempts the file staged before the first is only ever extended |
| Download.TruthfulRunKeepsPrefix | crates/infer-artifact/src/catalog.rs:619-737 | over any run of attempts against servers that send the true suffix, the staged file stays a prefix of the content |
| Download.SuccessMeansContent | crates/infer-artifact/src/catalog.rs:696-737 | after any run against any servers, what a success can stage is exactly the content or a byte string of its size with its digest: the final check is worth what the hash is worth at the content |
| Download.TruthfulSuccessIsContent | crates/infer-artifact/src/catalog.rs:619-737 | against truthful servers a success stages exactly the content, whatever the hash is |
| Download.DeliveryFinishesPrefix | crates/infer-artifact/src/catalog.rs:619-737 | a full delivery on top of a prefix succeeds and stages the content |
| Download.TwoDeliveriesSuffice | crates/infer-artifact/src/catalog.rs:619-737 | from any staged file, two full deliveries reach success: the first succeeds or clears the file |
| QuantBits.UnpackPackedScales | crates/infer-engine/src/dequant.rs:197-206 | eight scales and eight mins of six bits come back from the twelve bytes that pack them |
| QuantBits.PackUnpackedScales | crates/infer-engine/src/dequant.rs:197-206 | and every twelve bytes are the packing of what is unpacked from them: the map is a bijection |
| QuantBits.UnpackPackedNibbles | crates/infer-engine/src/dequant.rs:136-161 | 256 codes of four bits come back from their 128 bytes |
| QuantBits.PackUnpackedNibbles | crates/infer-engine/src/dequant.rs:136-161 | every 128 bytes are the packing of the codes found in them |
| QuantBits.UnpackPackedFiveBits | crates/infer-engine/src/dequant.rs:163-195 | 256 codes of five bits come back from 32 and 128 bytes |
| QuantBits.PackUnpackedFiveBits | crates/infer-engine/src/dequant.rs:163-195 | every 160 bytes are the packing of the codes found in them |
| QuantBits.UnpackPackedSixBits | crates/infer-engine/src/dequant.rs:208-238 | 256 codes of six bits come back from 128 and 64 bytes |
| QuantBits.PackUnpackedSixBits | crates/infer-engine/src/dequant.rs:208-238 | every 192 bytes are the packing of the codes found in them |
| Dequant.FillQ4 | crates/infer-engine/src/dequant.rs:145-159 | one turn of the chunk loop writes the value of the per-index formula to its 64 elements and no other |
| Dequant.DequantQ4K | crates/infer-engine/src/dequant.rs:136-161 | element i of a Q4_K block is d times scale i/32 times code i, minus dmin times min i/32 |
| Dequant.FillQ5 | crates/infer-engine/src/dequant.rs:175-192 | one turn of the chunk loop, with its two shifted bits, writes the per-index value to its 64 elements and no other |
| Dequant.DequantQ5K | crates/infer-engine/src/dequant.rs:163-195 | the same formula for Q5_K with five-bit codes |
| Dequant.BitTest | crates/infer-engine/src/dequant.rs:184-191 | testing with a shifted bit is taking a binary digit |
| Dequant.FillQ6 | crates/infer-engine/src/dequant.rs:214-231 | one turn of the half loop writes its 128 elements, four interleaved streams, and no other |
| Dequant.DequantQ6K | crates/infer-engine/src/dequant.rs:208-233 | element i of a Q6_K block is d times scale i/16 times code i less 32 |
| Dequant.DequantQ8 | crates/infer-engine/src/dequant.rs:99-133 | element i of a Q8_0 block is the scale times the signed byte i |
| Dequant.DequantBlock | crates/infer-engine/src/dequant.rs:99-133 | every tensor type dispatches to its block form |
| Dequant.ElementMeaning | crates/infer-engine/src/dequant.rs:74-96 | element j of block b of the output is the per-index value of that block, for every tensor type |
| Dequant.BlocksLength | crates/infer-engine/src/dequant.rs:26-67 | n blocks give n times the block length, all finite |
| Dequant.BlocksConcat | crates/infer-engine/src/dequant.rs:74-96 | blocks of a concatenation are the concatenation of the blocks, errors included |
| Dequant.DequantGguf | crates/infer-engine/src/dequant.rs:74-96 | the loop over blocks equals the specification, stays within the output limit and returns only finite values |
| Dequant.DequantizedConcat | crates/infer-engine/src/dequant.rs:74-96 | payload concatenation gives output concatenation wherever the limit allows |
| DequantFormulas.SignedMeaning | crates/infer-engine/src/dequant.rs:114-133 | a signed byte is the number from -128 to 127 that is congruent to it |
| DequantFormulas.FactorMeaning | crates/infer-engine/src/dequant.rs:114-133 | a factor is the half of two bytes, the low byte first |
| DequantFormulas.F32Formula | crates/infer-engine/src/dequant.rs:99-113 | an `f32` element is its four bytes, the low byte first |
| DequantFormulas.Q8Formula | crates/infer-engine/src/dequant.rs:114-133 | element i of a Q8_0 block is the factor times the signed byte 2 + i |
| DequantFormulas.Q4Formula | crates/infer-engine/src/dequant.rs:136-161 | the Q4_K formula over the bytes of the block, with scale, min and code spelled out byte by byte |
| DequantFormulas.Q5Formula | crates/infer-engine/src/dequant.rs:163-195 | the Q5_K formula, its fifth bit taken from the plane before the nibbles |
| DequantFormulas.Q6Formula | crates/infer-engine/src/dequant.rs:208-238 | the Q6_K formula, with its signed scale and six-bit code less 32 |
| DequantFormulas.BlockMeaning | crates/infer-engine/src/dequant.rs:99-133 | a block is refused exactly for a factor or an element that is not finite |
| DequantFormulas.OutputMeaning | crates/infer-engine/src/dequant.rs:26-67 | the output size is that of whole blocks, at four bytes an element, within the limit; any other length is refused |
| HalfFloat.F16ToF32 | crates/infer-engine/src/dequant.rs:267-290 | the conversion with its normalising loop builds the pattern of the specification |
| HalfFloat.WideningKeepsValue | crates/infer-engine/src/dequant.rs:267-290 | every finite half converts to a finite float of exactly the same value, subnormals included |
| HalfFloat.WideningKeepsClass | crates/infer-engine/src/dequant.rs:267-290 | the sign is kept; infinities and NaNs stay what they are with their payload, and no finite number becomes one |

## Left out

- Kv.SingleBlockKv.BeginSequence: does not model the overflow of the slab size in `usize`; lengths are unbounded integers, and allocation never fails.
- JournalRecovery.RecoverAllMeaning: does not model symbolic links, non-regular files or file names that are not Unicode in the journals directory; a missing directory is an empty one. A write either happens whole or not at all, as `write_atomic` promises, and so does the removal of an empty journal; a failure of either is a flag of the call.
- Journal.Journal.Append: does not model the overflow of the 32-bit event index, which lies far beyond the million events where the file names give out.
- Inventory.ProjectTensors: takes the check of the numbers in a rope table as a parameter.
- Dequant.ElementMeaning: states values as symbolic products and differences of the converted factors, in the order the source combines them; rounding is not modelled and finiteness is a parameter.
- SafetensorsFile.EncodedParses: takes the header as a list of tensor entries; the JSON text of the header, its length prefix and its 16 MiB limit are not modelled.
- Fuzz.CborIsFaithful: only the CBOR probe is modelled; the other eight targets are arbitrary probes, and the corpus root and report of the campaign are left out.
- Download.Stage.Download: curl, HTTP headers, redirects and host checks are not modelled; the server is arbitrary chunks, and a failed read or write is a flag.
- JSON object order: trees keep members in document order where `serde_json::Map` sorts them by key, so that the order in which two faulty members are reported can differ; `JsonOrder.OrderIsForgotten` states that the translation does not see the order.
- ImageExtensions.CompileMeaning: takes the other fields of the image as given, canonical entries; that the decoded image is read back field by field and its weights are checked is not modelled.
- Error values: errors carry the branch that failed, not the message text. In the CBOR decoder a length beyond the address space and a short input are one error.
- Debug assertions of the CBOR encoder: the encoder is modelled on all values, and the theorems say where they need integers in range and sorted keys.
- SHA-256 and Ed25519: the digest is a parameter, signatures are not modelled.
- Files on disk: reading, hashing and verifying whole files (`read_verified_gguf`, `read_verified_tensors`) and the token lookup `gguf_eos_token_id`.
- YamlDocument.YamlRoundTrip: the printed lines end in a newline alone and text is printed in single quotes; line ends with a carriage return, plain text and double quotes are covered by `YamlRules.LineMeaning` and `YamlGrammar.ParsedExactly` instead.
- The model image contract and its signature, apart from where extensions sit in it: fields copied and compared one by one.
- The report modules of the engine, the command line, the chat loop, device probes, the scheduler, the sampler and the serve lifecycle: user interface or easy members.
