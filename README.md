# memarray in Dafny

A verified model of the core of `memarray`, a Rust crate of strided
multi-dimensional arrays over heap buffers, with a reader of NumPy `.npy`
headers (checked against a reference encoder) and a writer of the NKV
("NUMKV") archive header.

- `common.dfy` — `Outcomes` (`Option`, and `Outcome = Ok | Err | Abort`, where
  `Abort` stands for a panic: an `unwrap` of a failed read, a failed
  `assert`, an `unimplemented!`) and `Bytes` (bytes, little-endian fields,
  `read_exact` on a stream given as a byte sequence and a cursor).
- `arrayidx.dfy` — `ArrayIdx`, the index operations the crate takes from
  the external `arrayidx` library, with ASSUMED definitions: an index is a
  `seq<nat>`, `flat_len` is the product of the sizes, `flat_index` is the sum
  of coordinate times stride, and the packed stride is column-major with
  stride[0] = 1. The lemmas about them are proved.
- `memarray.dfy` — `MemArrays`, src/lib.rs: `HeapMem` as a class over an
  `array?` (drop sets it to null), `MemArray`, `MemArrayView` and
  `MemArrayViewMut` as records of size, offset and stride that hold a
  reference to the same `HeapMem`, so views share the buffer.
- `text.dfy` — `Text`, the string primitives the header reader uses:
  `from_utf8`, `split_whitespace`, `replace`, `to_lowercase` and `parse` to
  `usize` and `bool`.
- `npy.dfy` — `Npy`, src/io.rs: the dtype table, `NpyDtypeDesc::parse` and
  `matches`, `read_npy_header` as a method over the stream proved equal to
  the function `HeaderOf`, and `MemArray::deserialize`. There is also
  `NpyWriter`, a reference encoder of version 1.0 headers in NumPy's layout
  (not part of the crate, whose `write_npy_header` is unimplemented), used
  to prove that the reader gives back what such a header holds.
- `serial.dfy` — `NkvFormat` (the byte layout of the archive header as
  functions) and `Serial`, src/serial.rs: `write_nkv_header` as methods
  that append to the writer's bytes, proved equal to the layout, and
  properties of that layout: the length and the 16-byte alignment, the
  offsets and their disjoint regions, the returned map, and a reference
  reader that reads every entry back. It also holds the partial
  `read_npy_header` of that file.

Points where the model follows the code as written: `flat_slice` and `flat_slice_mut` return the
whole buffer, not the view's window (see Findings). `FlatSlice` and
`FlatSliceMut` model them as written, and `FlatWindow` and `FlatWindowMut`
are the corrected forms. The `io.rs` reader requires
10 + H to be a multiple of 64. The `io.rs` reader parses every token
before `}` as a `usize`, so the zero-dimensional header NumPy writes,
`'shape': (),`, aborts (`Npy.EmptyShapeAborts`): although the crate
defines `MemArray0d`, no zero-dimensional array can be loaded. The `serial.rs` reader requires a multiple
of 16. The NKV header length counts from the entry count on, so the
header takes 12 + header_len bytes: 6 of magic, 2 of version and 4 of
header length come first.

## Model

| member | source | states |
|---|---|---|
| `MemArrays.HeapMem.Alloc` | src/lib.rs:59-70 | a fresh buffer of exactly `len` elements; `len` is recorded and `phsz == len * size_of::<T>()` |
| `MemArrays.HeapMem.AsPtr` | src/lib.rs:72-74 | the pointer is the start of the allocation |
| `MemArrays.HeapMem.AsMutPtr` | src/lib.rs:76-78 | the pointer is the start of the allocation |
| `MemArrays.HeapMem.AsSlice` | src/lib.rs:80-82 | exactly `len` elements, the buffer's own, in order |
| `MemArrays.HeapMem.AsMutSlice` | src/lib.rs:84-86 | the buffer itself, `len` elements long |
| `MemArrays.HeapMem.Drop` | src/lib.rs:46-55 | aborts exactly when the buffer was already null; afterwards the buffer is null, so a second drop cannot free twice |
| `MemArrays.WriteBytesZero` | src/lib.rs:149 | the first `count` elements become zero; the others are unchanged |
| `MemArrays.Zeros` | src/lib.rs:145-156 | size as given, zero offset, packed stride, a fresh buffer of `flat_len(size)` elements that are all zero, and the result is packed and addresses only its buffer |
| `MemArrays.ZerosInBounds` | src/lib.rs:145-156 | every coordinate of the layout `zeros` builds lands inside its buffer |
| `MemArrays.MemArray.AsView` | src/lib.rs:186-193 | same size, offset and stride, over the same `HeapMem` object |
| `MemArrays.MemArray.AsViewMut` | src/lib.rs:195-202 | same size, offset and stride, over the same `HeapMem` object |
| `MemArrays.MemArrayView.View` | src/lib.rs:250-316 | for ranks 1 to 4 and `start <= end <= size`: size `end - start` and offset `offset + start` axis by axis, the same stride and the same buffer |
| `MemArrays.MemArrayView.AsPtr` | src/lib.rs:237-239 | points into the view's buffer at `flat_offset()` |
| `MemArrays.MemArrayView.FlatSlice` | src/lib.rs:241-246 | None exactly when the view is not packed; otherwise all `len` elements of the whole buffer |
| `MemArrays.MemArrayView.FlatWindow` | src/lib.rs:241-246 | corrected `flat_slice`: None exactly when not packed; otherwise exactly the buffer's elements `[flat_offset, flat_offset + flat_len)`, which lie inside the buffer, and in which packed position `flat_index(idx)` holds the view's element at `idx` |
| `MemArrays.MemArrayViewMut.AsPtr` | src/lib.rs:351-353 | points into the view's buffer at `flat_offset()` |
| `MemArrays.MemArrayViewMut.AsMutPtr` | src/lib.rs:355-357 | points into the view's buffer at `flat_offset()` |
| `MemArrays.MemArrayViewMut.FlatSliceMut` | src/lib.rs:359-364 | None exactly when the view is not packed; otherwise the whole buffer |
| `MemArrays.MemArrayViewMut.FlatWindowMut` | src/lib.rs:359-364 | corrected `flat_slice_mut`: None exactly when not packed; otherwise the writable window of the buffer that starts at `flat_offset`, is `flat_len` elements long and lies inside the buffer, in which packed position `flat_index(idx)` is the slot of coordinate `idx` |
| `MemArrays.FlatOffset` | src/lib.rs:117-119 | the zero offset sits at flat position 0 under any stride |
| `MemArrays.MemArray.IsPacked` | src/lib.rs:121-123 | a packed layout has a stride of its own rank and maps every coordinate below its size to a position below `flat_len` |
| `MemArrays.MemArrayView.IsPacked` | src/lib.rs:121-123 | a packed layout has a stride of its own rank and maps every coordinate below its size to a position below `flat_len` |
| `MemArrays.MemArrayViewMut.IsPacked` | src/lib.rs:121-123 | a packed layout has a stride of its own rank and maps every coordinate below its size to a position below `flat_len` |
| `MemArrays.WindowFits` | src/lib.rs:117-123 | a packed, in-bounds, non-empty layout holds `[flat_offset, flat_offset + flat_len)` inside the buffer |
| `MemArrays.WindowAt` | src/lib.rs:117-123 | under a packed stride, coordinate `idx` sits `flat_index(idx)` places after `flat_offset`, below `flat_len` |
| `MemArrays.ViewOfView` | src/lib.rs:250-316 | a view of a view is the single view over the composed range |
| `MemArrays.ViewFull` | src/lib.rs:250-316 | the view over `0 .. size` is the view itself |
| `MemArrays.ViewFlatOffset` | src/lib.rs:117-119 | a sub-view's `flat_offset` is its parent's plus `flat_index(start)` |
| `MemArrays.ViewInBounds` | src/lib.rs:250-316 | a sub-view of an in-bounds view addresses only elements of the buffer |
| `MemArrays.ZerosViewReadsZero` | src/lib.rs:145-156 | every coordinate of every sub-view of a zeroed array reads zero |
| `MemArrays.ViewPackedIff` | src/lib.rs:121-123 | a sub-view of a packed array with positive sizes is packed exactly when it keeps every axis but the last whole |
| `MemArrays.FlatSliceOverrun` | src/lib.rs:241-246 | the view `1 .. 3` of `zeros([4])` is packed with 2 elements, yet `flat_slice` gives 4; the corrected window gives 2 |
| `MemArrays.FlatSliceMutOverrun` | src/lib.rs:359-364 | the writable counterpart of the view `1 .. 3` of `zeros([4])` is packed with 2 elements, yet `flat_slice_mut` hands out 4; the corrected window starts at 1 and has 2 |
| `MemArrays.ZerosWindowIsBuffer` | src/lib.rs:195-202 | the mutable view `as_view_mut` gives of a zeroed array has its window at 0, covering the whole buffer, so there `flat_slice_mut` and its corrected form agree |
| `ArrayIdx.PackedAxiswise` | src/lib.rs:121-123 | a stride is packed exactly when stride[0] is 1 and each next stride is the previous times the previous size |
| `ArrayIdx.PackedInBounds` | src/lib.rs:146-147 | every coordinate below a shape lands below `flat_len` under the packed stride |
| `ArrayIdx.FlatIndexAdd` | src/lib.rs:117-119 | `flat_index` is linear: of a sum of coordinates it is the sum |
| `ArrayIdx.FlatLenPositive` | src/lib.rs:147 | a shape holds elements exactly when all its sizes are positive |
| `Bytes.ZeroedVec` | src/io.rs:122-125 | the push loop builds exactly `n` zero bytes |
| `Bytes.ReadExact` | src/io.rs:126-129 | a read succeeds exactly when `n` bytes remain, and gives those bytes |
| `Bytes.LeBytes` | src/serial.rs:130-139 | `write_u32`/`write_u64::<LittleEndian>` of the value cast to `n` bytes: exactly `n` bytes, the lowest byte first |
| `Bytes.LeValue` | src/io.rs:140 | `read_u16::<LittleEndian>` and the like: the value is below 256^n and its low byte is the first byte |
| `Bytes.ReadExactSplit` | src/io.rs:126-129 | reading `a` bytes and then `b` more succeeds exactly when one read of `a + b` bytes does, and gives the same bytes |
| `Bytes.LeValueOfLeBytes` | src/io.rs:140 | reading `n` little-endian bytes back gives the value modulo 256^n |
| `Text.Utf8Decode` | src/io.rs:149 | a decoded text has at most one character per byte |
| `Text.Utf8DecodeAscii` | src/io.rs:149 | `from_utf8` of ASCII bytes gives the text back |
| `Text.SplitJoined` | src/io.rs:149 | `split_whitespace` of words joined by spaces, followed by whitespace, gives the words |
| `Text.SplitWhitespace` | src/io.rs:149 | every token is a non-empty run of characters that are not whitespace |
| `Text.SplitBlank` | src/io.rs:149 | whitespace alone splits into no tokens |
| `Text.AsciiLower` | src/io.rs:155 | the same length, each character lowercased |
| `Text.LowerChar` | src/io.rs:155 | a capital becomes the letter 32 code points on, no capital remains, and every other character is kept |
| `Text.Remove` | src/io.rs:155 | no `c` remains, and the result is no longer than the input |
| `Text.RemoveAbsent` | src/io.rs:161 | removing a character that does not occur changes nothing |
| `Text.RemoveKeepsAbsent` | src/io.rs:161 | removing a character never brings in a character that was absent |
| `Text.ParseUsize` | src/io.rs:162 | an accepted string is non-empty, starts with `+` or a digit and has only digits after that, and its value fits a `usize` |
| `Text.ParseBool` | src/io.rs:155 | `parse::<bool>` accepts exactly "true" and "false" |
| `Text.RemoveAppend` | src/io.rs:161 | `replace(c, "")` distributes over concatenation |
| `Text.ParseUsizeOfDecimal` | src/io.rs:162 | `parse::<usize>` of the decimal digits of any `usize` gives it back |
| `Npy.ToNpyDtypeDesc` | src/io.rs:61-90 | u8 carries no byte order; f32 and f64 carry the target's |
| `Npy.Matches` | src/io.rs:109-111 | a matching descriptor has a byte order exactly when the type is not u8, and its dtype is one of the table's three |
| `Npy.MatchesOneType` | src/io.rs:61-111 | a descriptor matches at most one element type |
| `Npy.ParseDtypeDesc` | src/io.rs:99-107 | a descriptor exactly for the three tokens of the table, each giving the little-endian descriptor of its type |
| `Npy.ParsedMatches` | src/io.rs:65-111 | a parsed descriptor matches type T exactly when the token was T's and, for f32 and f64, the target is little-endian |
| `Npy.HeaderOf` | src/io.rs:121-175 | `Err` exactly for a wrong magic or a version other than (1, 0); a short magic aborts; an accepted header has `data_offset = 10 + H`, a multiple of 64, within the stream |
| `Npy.ReadNpyHeader` | src/io.rs:121-175 | the step-by-step reader over the stream gives exactly `HeaderOf` |
| `Npy.ReadHeaderText` | src/io.rs:140-175 | after an accepted magic and version, reading the length, the alignment check, reading the header bytes, decoding, splitting and reading the tokens give exactly `HeaderOf` |
| `Npy.HeaderFromTokens` | src/io.rs:151-174 | never `Err`: every failed token check or parse aborts; an accepted header carries the given data offset |
| `Npy.HeaderFromTokensOk` | src/io.rs:151-174 | the tokens are accepted exactly when the three keys stand at tokens 0, 2 and 4 and the descriptor, the flag and the shape parse; the result has the parsed descriptor and the parsed shape's rank and element count |
| `Npy.ReadHeaderTokens` | src/io.rs:149-174 | the token checks, the descriptor, the flag and the shape loop give exactly `HeaderFromTokens`; the row-major shape is reversed in place |
| `Npy.ReadShapeTokens` | src/io.rs:156-164 | the shape loop gives exactly `ParseShape` of the tokens after `'shape':`: the sizes up to `}` or the last token, and None, where the reader aborts, when a token before them does not strip to a `usize` |
| `Npy.HeaderOkShape` | src/io.rs:140-174 | an accepted stream holds the whole header text, which decodes as UTF-8, and the header is what its tokens give |
| `Npy.TokensOkShape` | src/io.rs:151-167 | accepted tokens have the three keys in place, and the descriptor, flag and shape are the parses of tokens 1, 3 and 5.., the shape reversed exactly when not Fortran order |
| `Npy.StripShapeToken` | src/io.rs:161 | no `(`, `)` or `,` is left, and the token does not grow |
| `Npy.ShapeRank` | src/io.rs:157-160 | the number of tokens the shape loop reads before it breaks at `}` or runs out: at most all of them, and the next one, if any, is `}` |
| `Npy.ShapeRankFirstBrace` | src/io.rs:157-160 | none of the tokens before the shape's rank is `}`, so the loop breaks at the first one |
| `Npy.ParseShape` | src/io.rs:157-164 | a parsed shape has at most one size per token, each within `usize` |
| `Npy.ParseShapeAt` | src/io.rs:157-164 | the shape parses exactly when every token before `}` strips to a `usize`, and then it has one size per such token, size k being the parse of token k |
| `Npy.ParsedSizes` | src/io.rs:157-164 | a parsed shape has one size per token before `}`, the parse of that token |
| `Npy.FailedSize` | src/io.rs:161-162 | a shape parse fails only at a token before `}` that does not strip to a `usize`, where the loop's `unwrap` panics |
| `Npy.EmptyShapeAborts` | src/io.rs:161-162 | the shape `()` strips to the empty string, which does not parse, so a zero-dimensional header aborts |
| `Npy.ReverseInPlace` | src/io.rs:165-167 | the array afterwards holds the reversal of what it held |
| `Npy.ReversedReversed` | src/io.rs:165-167 | reversing twice gives the shape back |
| `Npy.ReversedFlatLen` | src/io.rs:165-167 | reversing a shape keeps its number of elements |
| `Npy.DeserializeOutcome` | src/io.rs:182-198 | never `Err`; `Ok` exactly when the header is accepted, the descriptor matches, the rank agrees and the data bytes are all there, with the header's size |
| `Npy.Deserialize` | src/io.rs:182-198 | succeeds exactly as `DeserializeOutcome` does, never returns `Err`, and returns a fresh packed array of the header's size with offset zero and `flat_len * size_of::<T>()` bytes |
| `NpyWriter.Padding` | src/io.rs:141-142 | whitespace padding that makes 10 + H a multiple of 64 |
| `NpyWriter.EncodeHeaderRoundTrip` | src/io.rs:121-175 | the reader gives back the descriptor, the flag, the shape (reversed for row-major order) and the data offset of any version 1.0 header in NumPy's layout |
| `NpyWriter.DeserializeRoundTrip` | src/io.rs:182-198 | deserializing such a header succeeds exactly when the types agree, the target is little-endian or the type is u8, and the ranks agree |
| `NkvFormat.AscendingDistinct` | src/serial.rs:125-126 | the keys of a map iterated in ascending order are distinct |
| `NkvFormat.HeaderLen` | src/serial.rs:129 | `header_len` covers the directory with fewer than 16 bytes of padding, and `12 + header_len` is a multiple of 16 |
| `NkvFormat.HeaderLenAligned` | src/serial.rs:129 | `12 + header_len` is a multiple of 16, with `unpadded <= header_len < unpadded + 16` |
| `Serial.WriteNkvHeader` | src/serial.rs:118-150 | appends exactly the header's bytes to the writer and returns `hlen = header_len` as u32 with the map of offsets and lengths |
| `Serial.UnpaddedHeaderLen` | src/serial.rs:124-128 | the first loop gives 4 plus each key's length plus 20 |
| `Serial.WriteDirectory` | src/serial.rs:132-142 | the second loop appends the directory entries and builds the map of offsets and lengths |
| `Serial.WritePadding` | src/serial.rs:143-145 | the last loop appends exactly `n` zero bytes |
| `Serial.DirectoryLength` | src/serial.rs:124-128 | the directory is `unpadded - 4` bytes long |
| `Serial.NkvHeaderLength` | src/serial.rs:119-145 | the header starts with `\x93NUMKV` 2 0, takes `12 + header_len` bytes, a multiple of 16, and the first offset is its end |
| `Serial.EmptyArchive` | src/serial.rs:119-150 | an empty archive writes 16 bytes with header length 4 and count 0, and returns `hlen` 4 and an empty map |
| `Serial.OffsetsAligned` | src/serial.rs:141 | every offset is a multiple of 16 when the first is |
| `Serial.DataOffsetsAligned` | src/serial.rs:132-141 | every entry's data starts on a multiple of 16 |
| `Serial.RegionsDisjoint` | src/serial.rs:141 | each entry's region `[offset, offset + len)` ends at or before every later entry's offset |
| `Serial.KvMapEntries` | src/serial.rs:140 | with distinct keys the map holds exactly the keys, each with its offset and length cast to u64 |
| `Serial.NkvHeaderKeys` | src/serial.rs:133-149 | for an archive, the returned map holds exactly its keys, each with the offset and length written in the directory |
| `Serial.ReadDirectory` | src/serial.rs:134-139 | the directory bytes read back field by field give each key, offset and length, when they fit their fields |
| `Serial.NkvHeaderRoundTrip` | src/serial.rs:119-145 | a reader of the layout gets back the header length and every entry's key, offset and length in order |
| `Serial.PrefixHeaderOf` | src/serial.rs:75-102 | never `Ok`; `Err` exactly for a wrong magic or a version other than (1, 0) |
| `Serial.ReadNpyHeaderPrefix` | src/serial.rs:75-102 | the step-by-step reader, with its 16-byte alignment check and token checks, gives exactly `PrefixHeaderOf` |
| `Serial.ReadersAgreeOnErr` | src/serial.rs:75-87 | the two `read_npy_header`s return `Err` on the same streams |

## Left out

- Allocation failure: `alloc_array` and `dealloc_array` are the allocator's, and their `Err` panics are not modelled. A zero-length allocation is taken to succeed.
- `usize` arithmetic is unbounded. Casts are modelled where they write bytes: u16, u32 and u64 little-endian fields, and `as _` into `NkvHeader`. An overflowing `12 + unpadded`, running offset or `len * size_of::<T>()` is not modelled.
- Ownership, borrowing and lifetimes: views hold a reference to the same `HeapMem` object, and nothing checks the borrow rules. Raw pointers are a buffer and an element offset.
- `RWMemArray`, `SharedMemArray`, the commented-out legacy code, `BatchArray` and `MemBatchArrayZeros` have no behaviour to model (shared ownership, locking, traits without implementations).
- src/linalg.rs and build.rs are not part of this model (foreign BLAS calls and build configuration).
- The arrayidx crate is external. Its operations have the assumed definitions in `ArrayIdx`, and `range2idxs_*` becomes the precondition `start <= end <= size`. `from_nd` is assumed to panic unless the header's rank is the array's; `Deserialize` takes that rank as a parameter.
- The stubs that only reach `unimplemented!`: both `write_npy_header`, `NpyArray::serialize` and `NpyArray::deserialize`. `NpyArray::flat_len` is also `unimplemented!`, so in the crate every non-empty archive panics; the model takes `flatLen` as a parameter.
- The byte copy into element memory in `deserialize` (`memory_mut().as_mut_bytes()` is not in the crate): the model checks that `phsz` data bytes are there and does not reinterpret them as elements.
- I/O errors other than a short read, and the writer's `write_all` failures: the writer is a byte sequence that is appended to.
- The target's byte order is the parameter `native`, not a `cfg`.
- Text.AsciiLower: `to_lowercase` is modelled on ASCII letters only. No other character lowercases to a letter of "true" or "false", so the `bool` parse decides the same way.
- Serial.NkvHeaderRoundTrip: stated only when the entry count and the header length fit u32 and every key length, offset and length fits its field; for larger values the written fields wrap.
- `NpyWriter` is a reference encoder, not code of the crate; it stands for the headers NumPy writes.

## Findings

| source | as written | input that shows it | evidently intended | confidence | as-written member | corrected member |
|---|---|---|---|---|---|---|
| src/lib.rs:241-246 | `flat_slice` of a packed view returns the whole buffer of the owning array | the rank-1 view `1 .. 3` of `zeros([4])` is packed with 2 elements, and its flat slice has 4 elements starting at the buffer's element 0, not 1 | the view's own window `[flat_offset, flat_offset + flat_len)` of the buffer | not executed | `MemArrays.FlatSliceOverrun` | `MemArrays.MemArrayView.FlatWindow` |
| src/lib.rs:359-364 | `flat_slice_mut` of a packed mutable view returns the whole buffer of the owning array | the writable counterpart of the view `1 .. 3` of `zeros([4])`; it is latent, since the only mutable views the crate builds come from `as_view_mut` of a `zeros` array, whose window is the whole buffer (`MemArrays.ZerosWindowIsBuffer`) | the view's own writable window `[flat_offset, flat_offset + flat_len)` of the buffer | not executed; latent until a mutable sub-view exists | `MemArrays.FlatSliceMutOverrun` | `MemArrays.MemArrayViewMut.FlatWindowMut` |
