# rust-lv2 in Dafny

This project models the core of rust-lv2, the Rust bindings for the LV2 audio
plugin standard, as pure Dafny functions over immutable data. It also proves what
those functions promise.

## What is modelled

- **Atom spaces and writers** (`atom/src/space/*`). Byte buffers are modelled as
  a start address plus a sequence of bytes.
  - `Aligned` covers `AlignedSpace::from_bytes` and the `next_value` reader.
  - `Allocator` and `SpaceWriter` cover the allocator chain: the slice cursor and
    `VecSpace` roots, the `AtomWriter` that grows its header, and the
    `Terminated` writer.
  - `Appending` states what a successful allocation appends.
  - `Frames` describes how atoms are laid out in a buffer.
- **Atoms** (`atom/src/lib.rs`, `atom/src/atoms/*`):
  - the header, `UnidentifiedAtom` and `next_atom`;
  - scalars, vectors, tuples, objects and properties;
  - sequences with their time stamp order;
  - the `zip` merge of two sequences;
  - strings and literals, with UTF-8 validation as `str::from_utf8` performs it;
  - chunks and the atom ports.

  For each atom kind, the writer is proved to lay out bytes that the reader gives
  back.
- **The legacy atom API** (`atom/src/space/list.rs`, `atom/src/atomspace.rs`,
  `atom/src/frame.rs`): space lists, `AtomSpace` retrieval, and the chain of
  writing frames.
- **Core plumbing** (`core/src/feature/container.rs`, `core/src/port_collection`):
  - the feature container, which keeps the last descriptor per URI;
  - the port pointer cache and `PortIndex` routing.
- **URID, State and Options**:
  - the hash URID mapper and the URID cache;
  - the state status codes, the property store and the `extern` callbacks;
  - option values, requests, lists and the option collection's deserialisation;
  - the `lv2-urid` option store.
- **UI** (`ui/src/space.rs`, `ui/src/port.rs`): the UI event buffer and the UI
  control and atom ports.
- **Book examples**:
  - the metro pipes (the sampler and the event atomizer), in `docs/metro/src/pipes.rs`;
  - the chapter builder's line classification and grouping, in `docs/make_chapters.py`.

The module names follow the program: one Dafny module per Rust module or
concept. `legacy.dfy` holds `SpaceLists`, `LegacyAtomSpace` and `LegacyFrame`;
`core.dfy` holds `Features` and `PortCache`; `ui.dfy` holds `UiSpace` and
`UiPort`.

Where the program's own description and its code disagree, the model follows the
code:

- The vector body header is `{child_size, child_type}`, as `LV2_Atom_Vector_Body`
  declares it, not type first.
- `header.rs` has no `set_size_of_body`. The body size is modelled as a `u32`
  field that `len() as u32` truncates.
- `SpaceCursor` (`atom/src/space/cursor.rs`) is a `todo!()` stub. It is modelled
  as a fixed buffer with a fill index that fails with `OutOfSpace`.
- `error.rs` and `aligned.rs`/`vec.rs` name their errors differently. The model
  follows the behaviour of `aligned.rs` and `vec.rs`. `vec.rs`'s
  `RewindBeyondAllocated` becomes the model's rewind error.
- The `Atom` trait in `atom/src/lib.rs` returns `Result` from `read`. The sequence,
  chunk and string implementations return `Option`, and the model follows them.

## Model

| member | source | states |
|---|---|---|
| Header.Encode | atom/src/header.rs:1-5 | an atom header is exactly eight bytes: the body size, then the type URID |
| Header.DecodeEncode | atom/src/header.rs:19-27 | `size()` and `urid()` read back the two fields a header was built from |
| Header.EncodeDecode | atom/src/header.rs:1-11 | every eight bytes are the encoding of the header they decode to, so `from_raw` loses nothing |
| Util.Padding | atom/src/util.rs:47-58 | the `align_offset` distance is below the alignment and takes the address to a multiple of it |
| Util.PaddingUnique | atom/src/util.rs:47-58 | no other offset below the alignment reaches an aligned address |
| Util.ByteIndexToValueIndex | atom/src/util.rs:37-45 | zero for a zero-sized type; otherwise the smallest value count whose bytes cover the given length |
| Util.ValueByteRoundTrip | atom/src/util.rs:31-45 | `byte_index_to_value_index` undoes `value_index_to_byte_index` |
| Util.TryPaddingFor | atom/src/util.rs:46-58 | `try_padding_for` always succeeds on a byte slice, with a padding below the alignment that aligns the slice start |
| Util.TryPaddingForIsPadding | atom/src/util.rs:46-58 | the padding `try_padding_for` answers is exactly the distance to the next aligned address |
| Aligned.FromBytes | atom/src/space/aligned.rs:74-103 | `from_bytes` succeeds exactly on an aligned slice, returns it unchanged, and otherwise reports `UnalignedBuffer` at its address |
| Aligned.AlignFromBytes | atom/src/space/aligned.rs:132-177 | `align_from_bytes` succeeds exactly when the padding fits; the result is aligned, starts less than one alignment in, ends where the input ends and holds its tail bytes; the failure reports the bytes needed |
| Aligned.AlignFromBytesPadding | atom/src/space/aligned.rs:132-172 | on success the result is the input with exactly the padding skipped |
| Aligned.AlignFromAligned | atom/src/space/aligned.rs:132-172 | an already aligned slice is returned unchanged |
| Aligned.SplitAt | atom/src/space/aligned.rs:312-324 | `split_at` fails exactly when `mid` is past the end; otherwise the parts have length `mid` and the rest, are adjacent, and concatenate to the input |
| Aligned.ValuesLen | atom/src/space/aligned.rs:360-370 | `usize::MAX` for a zero-sized type; otherwise the number of whole values that fit in the bytes |
| Aligned.AsUninitSlice | atom/src/space/aligned.rs:372-385 | the slice holds `values_len` values of the type's size that lay out a prefix of the bytes, leaving less than one value over |
| Aligned.FromSlice | atom/src/space/aligned.rs:262-281 | `from_slice` gives an aligned space whose length is the values' total size |
| Aligned.FromSliceRoundTrip | atom/src/space/aligned.rs:262-281 | viewing the space of `from_slice` as values gives the same values back |
| Aligned.ChunksOfFlatten | atom/src/space/aligned.rs:372-385 | cutting laid-out values back into chunks of the value size recovers them |
| Aligned.FlattenOfChunks | atom/src/space/aligned.rs:360-385 | the values cut from a byte slice cover all of it except less than one value |
| Aligned.FromBytesExample | atom/src/space/aligned.rs:459-502 | an aligned 16-byte slice is two `u64`s; starting one byte in it is refused as unaligned |
| Aligned.AlignFromBytesExample | atom/src/space/aligned.rs:503-575 | realigning 16 bytes at offsets 0, 1 and 9 leaves 16, 8 and 0 bytes; two bytes at offset 9 cannot be realigned and need 8 |
| Allocator.RootAllocate | atom/src/space/vec.rs:162-180 | a root allocation starts at the old end and moves it by `size`; a slice-backed root succeeds exactly when the bytes fit and keeps its buffer, a `Vec`-backed one only grows its buffer; a failure changes nothing |
| Allocator.RootRewind | atom/src/space/vec.rs:182-194 | `rewind(n)` succeeds exactly when `n` bytes are allocated, shrinking the allocation by `n`; otherwise `RewindBeyondAllocated` with both counts and no change |
| Allocator.AllocateAndSplit | atom/src/space/allocator.rs:46-62 | allocating through any writer chain keeps the chain well formed, its base address and depth, and a successful region lies inside the allocation |
| Allocator.TrackAllocation | atom/src/space/atom_writer.rs:82-103 | an atom writer passes the parent's allocation through exactly when the parent succeeded and its header lies 8-aligned, whole, before the new bytes |
| Allocator.TrackAllocationOk | atom/src/space/atom_writer.rs:82-103 | when the header is found, the parent's region is returned and the header's body size grows by `size` |
| Allocator.TerminateAllocation | atom/src/space/terminated.rs:51-72 | the terminated writer stores the terminator right after the `size` bytes it hands out and sets its flag on success; the flag stays as it was on failure |
| Allocator.Rewind | atom/src/space/allocator.rs:64 | a successful `rewind(n)` shrinks the allocation by exactly `n` bytes and keeps the buffer length and base address |
| Allocator.AtomHeaderOf | atom/src/space/atom_writer.rs:34-45 | `atom_header` finds the header exactly when it lies 8-aligned and whole inside the parent's allocation, and returns the bytes there |
| Allocator.LocateHeader | atom/src/space/atom_writer.rs:47-62 | a header index is found exactly when eight bytes fit there before the end of the allocation and the address is 8-aligned |
| Allocator.AllocateInFrames | atom/src/space/allocator.rs:46-62 | through nested atom writers an allocation is the root's allocation, and on success every open header's body size grows by `size` (u32 arithmetic); on failure nothing changes |
| Allocator.AllocateGrowsFrames | atom/src/space/atom_writer.rs:82-103 | after a successful allocation every enclosing header still lies in place, its body size grown by the allocated amount |
| Allocator.FramesGrownTrans | atom/src/space/atom_writer.rs:82-103 | two allocations in a row grow every open header by their sum |
| Allocator.AddToSizesEffect | atom/src/space/atom_writer.rs:96-99 | growing the open headers adds `n` to each header's size field, modulo 2^32 |
| Allocator.AddToSizesOther | atom/src/space/atom_writer.rs:96-99 | growing the open headers leaves every byte outside their size fields alone |
| SpaceWriter.Allocate | atom/src/space/allocator.rs:102-129 | `allocate` keeps the writer well formed at its address and the region it returns lies inside the allocation; AllocateInFrames says where |
| SpaceWriter.AllocateAligned | atom/src/space/allocator.rs:131-165 | the region `allocate_aligned` returns starts at an address aligned for the type and lies inside the allocation |
| SpaceWriter.AllocateAlignedInFrames | atom/src/space/allocator.rs:131-165 | `allocate_aligned` allocates the padding plus the size in one step, fails exactly when that allocation fails with its error, and returns the region just after the padding |
| SpaceWriter.AllocateValue | atom/src/space/allocator.rs:167-183 | `allocate_value` returns one aligned slot of the type's size inside the allocation |
| SpaceWriter.AllocateValues | atom/src/space/allocator.rs:185-202 | `allocate_values` returns `count` aligned slots inside the allocation |
| SpaceWriter.WriteBytes | atom/src/space/allocator.rs:242-254 | `write_bytes` stores exactly the given bytes at the region it returns |
| SpaceWriter.WriteBytesInFrames | atom/src/space/allocator.rs:242-254 | through nested atom writers `write_bytes` succeeds exactly when the root allocation does, appends the bytes at the old end, grows every open header, and changes nothing on failure |
| SpaceWriter.WriteValue | atom/src/space/allocator.rs:256-272 | `write_value` stores the value's bytes in an aligned slot |
| SpaceWriter.WriteValues | atom/src/space/allocator.rs:274-293 | `write_values` stores the values one after another in aligned slots |
| SpaceWriter.WriteValuesSlots | atom/src/space/allocator.rs:274-293 | `write_values` succeeds exactly when `allocate_values` for as many values does, at the same aligned offset |
| SpaceWriter.CopyAtom | atom/src/space/allocator.rs:223-240 | `copy_atom` stores the whole atom, header and body, at an 8-aligned region |
| SpaceWriter.MakeTerminated | atom/src/space/allocator.rs:295-298 | `terminated` wraps the writer with the terminator and no terminator written yet |
| SpaceWriter.WriteNew | atom/src/space/atom_writer.rs:64-78 | `write_new` returns an atom writer whose header is the last eight allocated bytes |
| TerminatedWrites.TerminatedWrite | atom/src/space/terminated.rs:51-72 | over a slice, a write succeeds exactly when the bytes plus one terminator fit after the previous data; the allocation is then the previous data, the bytes and the terminator |
| TerminatedWrites.TerminatedAllocate | atom/src/space/terminated.rs:51-72 | a terminated allocation first gives back the old terminator, then allocates one byte more and stores the terminator in it; a failed one leaves the terminator given back |
| TerminatedWrites.SuccessfulWriteHolds | atom/src/space/terminated.rs:51-72 | a terminated writer that holds `data` holds `data + bytes` followed by exactly one terminator after a successful write, which happens exactly when they fit |
| TerminatedWrites.HelloBoopExample | atom/src/space/terminated.rs:11-26 | in 20 bytes, "Hello, world!" is allocated with one 0x42 after it, and after " Boop!" the buffer is "Hello, world! Boop!" and 0x42 |
| Appending.AllocateAppended | atom/src/space/allocator.rs:46-62 | a stack of atom writers allocates exactly when the root does; a success returns the old end and appends the new bytes while growing every open header, a failure leaves the writer as it was |
| Appending.AppendedTrans | atom/src/space/atom_writer.rs:82-103 | appending one chunk and then another is appending their concatenation |
| Appending.AppendedNothing | atom/src/space/atom_writer.rs:82-103 | a writer has had nothing appended to itself |
| Appending.AddToSizesTwice | atom/src/space/atom_writer.rs:96-99 | growing the open headers by `n1` and then by `n2` is growing them by `n1 + n2` |
| Appending.WriteBytesAppended | atom/src/space/allocator.rs:242-254 | `write_bytes` on a stack of atom writers succeeds exactly when the root allocation does and then appends exactly the bytes at the old end |
| Appending.WriteValueAppended | atom/src/space/allocator.rs:256-272 | `write_value` succeeds exactly when the padded root allocation does and appends the padding followed by the value's bytes |
| Appending.WriteValuesAppended | atom/src/space/allocator.rs:274-293 | `write_values` succeeds exactly when the padded root allocation does and appends the padding followed by all the values' bytes |
| Appending.WriteNewAppended | atom/src/space/allocator.rs:204-221 | `write_atom` succeeds exactly when the padded header fits; it then appends padding and a header with body size 0 and the type URID, and returns an atom writer on that header |
| Appending.NestedAppended | atom/src/space/atom_writer.rs:64-103 | whatever is appended through a child atom writer shows up in the parent as the child's header, with its body size set to the body's length modulo 2^32, followed by the body |
| Appending.AllocateAppends | atom/src/space/allocator.rs:102-129 | on a slice, `allocate` succeeds exactly when the bytes fit; it returns the old end and appends the allocated bytes; a failure changes nothing |
| Appending.SliceAllocate | atom/src/space/vec.rs:99-125 | a slice-backed allocation succeeds exactly when the bytes fit in the buffer |
| Appending.SliceCursor | atom/src/space/aligned.rs:427-431 | a fresh cursor over a slice has nothing allocated and no open header |
| TerminatedWrites.FailedWriteKeepsFlag | atom/src/space/terminated.rs:55-65 | as written, when the inner allocation fails after the terminator was rewound, the writer is left holding the data without its terminator while `wrote_terminator_byte` still says the terminator is there |
| TerminatedWrites.LostByteExample | atom/src/space/terminated.rs:11-26 | as written, inserting a ten-byte write that does not fit between the two writes of the example costs the last byte of "Hello, world!": the result is "Hello, world Boop!" and `0x42` |
| TerminatedWrites.IntendedAllocate | atom/src/space/terminated.rs:51-72 | the corrected allocation behaves as the original when it succeeds, and a failed allocation leaves the writer exactly as it was, terminator and flag included |
| TerminatedWrites.IntendedWriteBytes | atom/src/space/terminated.rs:51-72 | a write over the corrected allocation agrees with the original write when it succeeds, and a failed write changes nothing |
| TerminatedWrites.IntendedWriteHolds | atom/src/space/terminated.rs:51-72 | the corrected writer succeeds exactly when the data, the new bytes and one terminator fit; it then holds the data followed by the bytes and one terminator, and after a failure it still holds the data with its terminator |
| TerminatedWrites.IntendedExample | atom/src/space/terminated.rs:11-26 | with the corrected writer, the failing ten-byte write between the example's writes is harmless: the buffer ends as "Hello, world! Boop!" and `0x42` |
| Reader.SplitSpace | atom/src/space/reader.rs:11-21 | splitting succeeds exactly when `n` bytes are there; the parts are the first `n` bytes and the rest at the following address; otherwise `ReadingOutOfBounds` with both lengths |
| Reader.Realign | atom/src/space/reader.rs:30-43 | realigning the reader succeeds exactly when the padding is available and skips exactly the padding; otherwise it reports the bytes needed |
| Reader.NextBytes | atom/src/space/reader.rs:107-130 | `next_bytes` succeeds exactly when `n` bytes remain, returns them and leaves the reader on the rest |
| Reader.NextValue | atom/src/space/reader.rs:132-150 | `next_value` succeeds exactly when the padding and one value fit, returns the value's bytes after the padding and moves past them; the short case reports what remained after the padding |
| Reader.NextValueIsStepwise | atom/src/space/reader.rs:30-43 | `next_value` is the realign-then-split composition of `next_uninit_value`, written step by step |
| Reader.NextValues | atom/src/space/reader.rs:93-105 | `next_values` succeeds exactly when the padding and `len` values fit, returns `len` values of the type's size laid out after the padding and moves past them |
| Reader.ValuesOfExactSpace | atom/src/space/reader.rs:60-74 | a space exactly `len` values long views as exactly those `len` values |
| Reader.NextAtom | atom/src/space/reader.rs:152-168 | a successful `next_atom` returns a well-formed atom and leaves a suffix of the input |
| Reader.NextAtomIsStepwise | atom/src/space/reader.rs:152-168 | `next_atom` is `align_from_bytes`, the header lookup and `split_space` by the atom's size, composed in that order |
| Reader.NextAtomSpec | atom/src/space/reader.rs:152-168 | `next_atom` succeeds exactly when the padded header and the whole announced body fit; the atom sits after the padding with the decoded header and the body bytes, and the reader moves past it |
| Reader.NextAtomOfEncoded | atom/src/space/reader.rs:152-168 | reading an encoded header followed by its body at an aligned address gives that header and body back and leaves the rest |
| Reader.TryRead | atom/src/space/reader.rs:180-196 | `try_read` moves the reader only when the handler succeeds and returns the handler's error otherwise |
| Reader.ReadIntAtomExample | atom/src/space/reader.rs:199-222 | an `Int` atom holding 42 reads back with a 4-byte body that decodes to 42 |
| Unidentified.CheckUrid | atom/src/lib.rs:198-206 | the type check passes exactly when the header's URID is the one asked for; otherwise it reports both URIDs |
| Unidentified.Read | atom/src/lib.rs:198-206 | `UnidentifiedAtom::read` reports the URID mismatch, and otherwise hands the body, at the address right after the header, to the atom's reader |
| Unidentified.BodyBytes | atom/src/lib.rs:214-226 | the body bytes are exactly as many as the header says |
| Unidentified.Body | atom/src/lib.rs:260-264 | the body space starts eight bytes after the atom, 8-aligned, and holds the body bytes |
| Unidentified.AtomSpace | atom/src/lib.rs:242-249 | the atom space starts at the atom, is `size_of_atom` long, and holds the encoded header and then the body |
| Unidentified.AtomSpaceRoundTrip | atom/src/lib.rs:242-249 | decoding the atom space's first eight bytes gives the header back, and the body follows it |
| Frames.AtomAppended | atom/src/space/allocator.rs:204-221 | writing an atom header and then appending a body through its atom writer leaves, in the parent, padding, a header whose size is the body length, and the body |
| Frames.BodyGrows | atom/src/space/atom_writer.rs:82-103 | what is appended through an atom writer is added to the end of that atom's body |
| Frames.FreshBodyEmpty | atom/src/space/allocator.rs:204-221 | a freshly written atom has an empty body |
| Frames.ReadLaidAtom | atom/src/space/reader.rs:152-168 | the first atom of a laid-out run reads back with `next_atom` as its URID and body, and the reader moves to the next item |
| Frames.ReadLaidRecord | atom/src/space/reader.rs:132-168 | an item made of an 8-byte record and an atom reads back as the record with `next_value` followed by the atom with `next_atom` |
| Frames.RunGrowsAtom | atom/src/space/allocator.rs:204-221 | appending a laid-out atom to a run of written items extends the run by that atom |
| Frames.RunGrowsRecord | atom/src/space/allocator.rs:204-272 | appending a record followed by an atom extends the run by that record-and-atom item |
| Frames.RecordChildLaidOut | atom/src/space/allocator.rs:204-272 | writing an 8-byte record, then an atom and its body, lays out padding, the record, the header and the body |
| Frames.ReadLaidOut | atom/src/space/reader.rs:152-168 | an atom that was laid out at an address reads back with `next_atom` as that atom, and its body space starts after the header |
| Frames.NothingPastRun | atom/src/space/reader.rs:107-168 | reading an atom or a value from an empty space fails |
| AtomLib.FromSpace | atom/src/lib.rs:152-161 | `UnidentifiedAtom::from_space` succeeds exactly when the space holds a whole header, fails with `ReadingOutOfBounds` naming the available and the requested eight bytes otherwise, and on success gives the atom whose header starts the space |
| AtomLib.HeldAtom | atom/src/lib.rs:152-161 | the atom a space holds under the `unsafe` promise is a well-formed atom: its body is as long as its header says |
| AtomLib.NextHeaderAligned | atom/src/lib.rs:159-161 | on an 8-aligned space, reading one header with `next_value` takes the first eight bytes and leaves the rest at the following address, or fails with `ReadingOutOfBounds` when fewer than eight bytes are there |
| AtomLib.HeldAtomSpace | atom/src/lib.rs:241-248 | `atom_space` of the held atom is the prefix of the space, at the same address, that is exactly `size_of_atom` bytes long |
| AtomLib.FromSpaceMut | atom/src/lib.rs:163-180 | `from_space_mut` succeeds on the same spaces as `from_space` and gives the same atom, and otherwise fails with `WritingOutOfBounds` naming the available bytes and the eight requested |
| AtomLib.FromSpaceIsNextAtom | atom/src/space/reader.rs:150-165 | on a space that holds a whole atom, `SpaceReader::next_atom` yields the same atom as `from_space` |
| Scalar.InternalType | atom/src/atoms/scalar.rs:126-183 | every scalar's internal type is 4 or 8 bytes with alignment equal to size; exactly `Double` and `Long` take 8 |
| Scalar.ScalarValue | atom/src/atoms/scalar.rs:69-80 | the value written by `set` is padded to eight bytes with the value first |
| Scalar.Set | atom/src/atoms/scalar.rs:69-80 | `set` keeps the writer well formed and the padded value lies inside the allocation |
| Scalar.WriteScalarAtom | atom/src/atoms/scalar.rs:58-80 | writing a scalar atom hands back the atom writer it wrote through |
| Scalar.ReadScalar | atom/src/atoms/scalar.rs:50-52 | `read_scalar` succeeds exactly when the padding and one internal value fit in the body, and returns those bytes |
| Scalar.ScalarRoundTrip | atom/src/atoms/scalar.rs:50-80 | the padded value `set` writes reads back as the value |
| Scalar.ScalarAtomWritten | atom/src/atoms/scalar.rs:58-80 | writing a scalar atom lays out padding, a header with the scalar's URID and an 8-byte body, and that body is the padded value |
| Scalar.ScalarAtomFits | atom/src/atoms/scalar.rs:58-80 | over a slice, writing a scalar atom succeeds exactly when the padding, the header and eight body bytes fit |
| Scalar.ScalarAtomRead | atom/src/atoms/scalar.rs:194-237 | a scalar atom laid out by the writer reads back with `next_atom` with body size 8 and its URID, and `read_scalar` of the body gives the value |
| Scalar.WriteIntAtomExample | atom/src/atoms/scalar.rs:194-237 | an `Int` atom holding 69 in 32 zero bytes has size field 8, the URID and the value in the first 12 bytes, leaving 16 free |
| Vector.EncodeBody | atom/src/atoms/vector.rs:85-98 | the vector body header is eight bytes |
| Vector.BodyRoundTrip | atom/src/atoms/vector.rs:85-111 | the vector body header decodes to the child type and size it was built from |
| Vector.Read | atom/src/atoms/vector.rs:104-111 | reading a vector succeeds exactly when the padded body header fits; it decodes that header and leaves the reader just after it |
| Vector.OfType | atom/src/atoms/vector.rs:66-78 | `of_type` answers only for the matching child type and size, and then exactly when the reader can be aligned for the child; the answer holds child-sized values laid out from the aligned start |
| Vector.Init | atom/src/atoms/vector.rs:113-117 | `init` reserves room for the body header inside the atom |
| Vector.OfTypeWriter | atom/src/atoms/vector.rs:85-98 | `of_type` fills the reserved header with the child URID and the child size and allocates nothing |
| Vector.Push | atom/src/atoms/vector.rs:131-133 | `push` stores the value's bytes where it answers |
| Vector.AllocateUninit | atom/src/atoms/vector.rs:139-141 | `allocate_uninit` answers `count` child slots inside the allocation |
| Vector.Append | atom/src/atoms/vector.rs:145-147 | `append` answers the slots of the appended values inside the allocation |
| Vector.PushFits | atom/src/atoms/vector.rs:131-133 | `push` succeeds exactly when the root can allocate one more child and changes nothing when it cannot |
| Vector.PushAppended | atom/src/atoms/vector.rs:131-133 | a successful `push` appends exactly the value at the old end and keeps the next child aligned |
| Vector.AppendFits | atom/src/atoms/vector.rs:145-147 | `append` succeeds exactly when the root can allocate all the values and changes nothing when it cannot |
| Vector.AppendAppended | atom/src/atoms/vector.rs:145-147 | a successful `append` appends exactly the values, back to back, at the old end |
| Vector.VectorHeaderWritten | atom/src/atoms/vector.rs:85-117 | `init` and `of_type` together append exactly the encoded body header, after which children are aligned |
| Vector.VectorAtomWritten | atom/src/atoms/vector.rs:113-147 | writing a vector atom lays out padding, a header with the vector URID and a body of the body header followed by the children |
| Vector.VectorBodyRead | atom/src/atoms/vector.rs:104-111 | an encoded body header at an aligned address reads back as itself with the reader placed after it |
| Vector.ValuesOfType | atom/src/atoms/vector.rs:66-78 | children of the matching type laid out at an aligned address read back with `of_type` as exactly those children |
| Vector.VectorAtomRead | atom/src/atoms/vector.rs:158-205 | a vector atom laid out by the writer reads back with `next_atom`, its body header names the child type and size, and `of_type` gives the children back |
| Vector.VectorAtomFits | atom/src/atoms/vector.rs:113-147 | over a slice, writing a vector atom with its children succeeds exactly when padding, header, body header and children fit |
| Vector.VectorExample | atom/src/atoms/vector.rs:158-205 | 16 `Int`s of 42 appended and then 1 pushed read back as a vector of 17 `Int`s, body size 8 + 4 * 17, with the child URID and size 4 |
| Tuple.Read | atom/src/atoms/tuple.rs:61-67 | reading a tuple always succeeds with an iterator over the whole body from its start |
| Tuple.Next | atom/src/atoms/tuple.rs:86-89 | `next` yields an atom exactly when `next_atom` succeeds, then moves strictly forward; otherwise it ends and stays put |
| Tuple.Collect | atom/src/atoms/tuple.rs:83-90 | every atom the iterator yields is well formed |
| Tuple.CollectLaid | atom/src/atoms/tuple.rs:83-90 | iterating over a run of laid-out atoms yields exactly those atoms, type and body, in order |
| Tuple.Write | atom/src/atoms/tuple.rs:69-74 | `write` always succeeds and wraps the frame |
| Tuple.Init | atom/src/atoms/tuple.rs:104-109 | `init` hands back an atom writer for a child nested in the tuple's frame |
| Tuple.InitGrows | atom/src/atoms/tuple.rs:104-109 | a child written with `init` and its body extend the tuple's run of atoms by that child |
| Tuple.TupleWritten | atom/src/atoms/tuple.rs:69-109 | what is appended after the tuple's header becomes the tuple atom's body, laid out after padding and a header with the tuple URID |
| Tuple.TupleRead | atom/src/atoms/tuple.rs:121-190 | a tuple atom whose body is a run of atoms reads back, with `next_atom` and the iterator, as exactly that run |
| Tuple.TupleSizeExample | atom/src/atoms/tuple.rs:145-152 | a vector child of 44 body bytes followed by an `Int` child take 8 + 8 + 36 + 4 + 16 bytes, 4 of them padding |
| Object.OrZero | atom/src/atoms/object.rs:121-131 | an absent id is written as 0 and only then |
| Object.OrZeroRoundTrip | atom/src/atoms/object.rs:121-153 | `URID::try_from` undoes `map(URID::get).unwrap_or(0)` and back |
| Object.ObjectBody | atom/src/atoms/object.rs:121-131 | the object body header is eight bytes |
| Object.DecodeObjectBody | atom/src/atoms/object.rs:138-155 | decoding the object body header fails with `InvalidAtomValue` exactly when the type URID is 0; otherwise it gives the id (0 meaning none) and the type |
| Object.ObjectBodyRoundTrip | atom/src/atoms/object.rs:121-155 | the header `write_header` writes decodes to itself, and every decodable header re-encodes to the same bytes |
| Object.PropertyRecord | atom/src/atoms/object.rs:318-331 | the property header record is eight bytes |
| Object.DecodePropertyRecord | atom/src/atoms/object.rs:296-314 | decoding a property header fails with `InvalidAtomValue` exactly when the key is 0; otherwise it gives the key and the context (0 meaning none) |
| Object.PropertyRecordRoundTrip | atom/src/atoms/object.rs:296-331 | the property header `write_header` writes reads back as itself, and every readable record re-encodes to the same bytes |
| Object.Read | atom/src/atoms/object.rs:138-155 | reading an object succeeds exactly when the padded body header fits and its type URID is not 0; it yields that header and a reader just after it |
| Object.ReadBody | atom/src/atoms/object.rs:296-314 | a successfully read property holds a well-formed atom and the reader moves strictly forward |
| Object.ReadBodySpec | atom/src/atoms/object.rs:296-314 | `read_body` succeeds exactly when the padded record fits, its key is not 0 and an atom follows; it returns the decoded record with that atom and what follows |
| Object.Next | atom/src/atoms/object.rs:204-209 | `next` yields a property exactly when `read_body` succeeds; a failure ends the iteration without moving the reader, as `try_read` does |
| Object.CollectLaid | atom/src/atoms/object.rs:201-210 | iterating over a run of laid-out properties yields exactly those properties in order |
| Object.Write | atom/src/atoms/object.rs:157-162 | `write` always succeeds with a header writer on the frame |
| Object.WriteHeader | atom/src/atoms/object.rs:121-131 | `write_header` hands back an object writer on the same frame |
| Object.WritePropertyHeader | atom/src/atoms/object.rs:318-331 | writing a property header keeps the frame well formed at its address |
| Object.NewProperty | atom/src/atoms/object.rs:228-256 | `new_property` hands back an atom writer for the value nested in the object's frame |
| Object.PropertyGrows | atom/src/atoms/object.rs:228-256 | a property written with `new_property` and its value's body extend the object's run by that key, context and value |
| Object.PropertyChild | atom/src/atoms/object.rs:228-256 | a property is laid out as padding, the key-and-context record, then the value atom |
| Object.HeaderWritten | atom/src/atoms/object.rs:121-131 | right after the atom header, `write_header` appends exactly the encoded object body header |
| Object.ObjectWritten | atom/src/atoms/object.rs:121-256 | an object atom's body is the object header followed by whatever its properties appended |
| Object.ObjectRead | atom/src/atoms/object.rs:342-467 | an object atom laid out by the writer reads back with its header and exactly the properties that were written |
| Object.BodyRead | atom/src/atoms/object.rs:138-155 | an encoded object header at an aligned address reads back as itself with the reader after it |
| Object.ObjectSizeExample | atom/src/atoms/object.rs:342-467 | an object with two properties holding 8-byte bodies has a 56-byte body |
| Sequence.F64GreaterFacts | atom/src/atoms/sequence.rs:273-276 | the `f64` comparison `>` is irreflexive, false on both sides of a NaN, orders 1 > 0.5 > 0 > -1, and treats -0 and +0 as equal |
| Sequence.UnitOf | atom/src/atoms/sequence.rs:185-192 | a unit URID names beats exactly when it is the `BeatsPerMinute` variant |
| Sequence.StampRoundTrip | atom/src/atoms/sequence.rs:225-247 | a time stamp written in the sequence's unit reads back as itself from its eight bytes |
| Sequence.Read | atom/src/atoms/sequence.rs:148-155 | reading a sequence succeeds exactly when the padded body header fits; it gives the unit URID and a reader just after the header |
| Sequence.HeaderRead | atom/src/atoms/sequence.rs:105-116 | the iterator counts in beats exactly when the header's unit is the beats URID, and starts on the header reader |
| Sequence.ReadEvent | atom/src/atoms/sequence.rs:225-247 | an event read successfully has a time stamp in the sequence's unit and a well-formed atom, and the reader moves strictly forward |
| Sequence.ReadEventSpec | atom/src/atoms/sequence.rs:225-247 | an event is read exactly when the padded stamp fits and an atom follows it; the stamp is those eight bytes in the sequence's unit |
| Sequence.Next | atom/src/atoms/sequence.rs:225-247 | `next` yields an event exactly when one can be read; a failure ends the iteration without moving the reader, as `try_read` does |
| Sequence.CollectLaid | atom/src/atoms/sequence.rs:222-248 | iterating over a run of laid-out events yields exactly those events, stamp, type and body, in order |
| Sequence.Init | atom/src/atoms/sequence.rs:157-161 | `init` reserves room for the body header inside the atom |
| Sequence.WithUnit | atom/src/atoms/sequence.rs:125-141 | `with_unit` fills the reserved header with the unit URID and zero padding, sets the unit, starts with no last stamp, and allocates nothing |
| Sequence.WriteTimeStamp | atom/src/atoms/sequence.rs:261-284 | a stamp in another unit or older than the last one is refused with no change; an accepted stamp becomes the last one before `write_value`, which decides success |
| Sequence.InitEvent | atom/src/atoms/sequence.rs:291-297 | an event writer is handed out only for an accepted stamp, nested in the sequence's frame; the last stamp moves exactly when the stamp is accepted |
| Sequence.Forward | atom/src/atoms/sequence.rs:305-311 | a forwarded event that succeeds has its stamp as the last one |
| Sequence.OlderIsKey | atom/src/atoms/sequence.rs:261-284 | for comparable stamps "older" is the order of their numeric keys |
| Sequence.InitKeepsOrder | atom/src/atoms/sequence.rs:261-297 | with comparable stamps, events written through `init` stay in non-decreasing time order |
| Sequence.NaNBreaksOrder | atom/src/atoms/sequence.rs:273-280 | a NaN beat stamp is accepted after 1.0, and 0.5 is then accepted after it, so the order check lets a decreasing pair through a NaN |
| Sequence.EventGrows | atom/src/atoms/sequence.rs:291-297 | an event written with `init` and its body extend the sequence's run by that stamp, type and body |
| Sequence.EventChild | atom/src/atoms/sequence.rs:291-297 | an event is laid out as padding, the eight stamp bytes, then the event atom |
| Sequence.HeaderWritten | atom/src/atoms/sequence.rs:125-161 | right after the atom header, `init` and `with_unit` append exactly the encoded body header |
| Sequence.SequenceWritten | atom/src/atoms/sequence.rs:125-311 | a sequence atom's body is its body header followed by whatever its events appended |
| Sequence.SequenceRead | atom/src/atoms/sequence.rs:326-408 | a sequence atom laid out by the writer reads back with its unit and exactly the events that were written |
| Sequence.BodyRead | atom/src/atoms/sequence.rs:148-155 | an encoded body header at an aligned address reads back with its unit and the reader after it |
| Sequence.SequenceSizeExample | atom/src/atoms/sequence.rs:326-408 | two events with 8-byte bodies make a 56-byte sequence body |
| Sequence.StampOrderExample | atom/src/atoms/sequence.rs:261-284 | in frames, 0 then 1 are accepted; 0 after 1, and any beat stamp, are refused with no change |
| Zip.New | atom/src/atoms/sequence/zip.rs:12-21 | a fresh zip holds nothing aside, so what it still has to yield is exactly the two sequences |
| Zip.Pop | atom/src/atoms/sequence/zip.rs:28-34 | taking the next event from an iterator splits it into that event and the rest, and yields none only from an empty iterator |
| Zip.Refill | atom/src/atoms/sequence/zip.rs:28-34 | refilling the held-aside slots loses and invents no event; a slot stays empty only when its iterator is exhausted |
| Zip.Next | atom/src/atoms/sequence/zip.rs:36-46 | with the `(Some(_), None)` arm taking the first event, `next` ends only when both iterators and slots are empty, and each step yields one pending event |
| Zip.NextAsWritten | atom/src/atoms/sequence/zip.rs:36-46 | with the `(Some(_), None)` arm taking the empty second slot as written, any step that does yield an event is the corrected step |
| Zip.Collect | atom/src/atoms/sequence/zip.rs:24-47 | iterating the corrected zip to its end yields exactly as many events as both sequences hold |
| Zip.CollectAsWritten | atom/src/atoms/sequence/zip.rs:24-47 | iterating the zip as written yields at most as many events as both sequences hold |
| Zip.MergeMultiset | atom/src/atoms/sequence/zip.rs:40-43 | merging by time stamp (ties to the first) keeps every event of both inputs, each once |
| Zip.MergeSorted | atom/src/atoms/sequence/zip.rs:40-43 | merging two time-ordered sequences gives a time-ordered sequence |
| Zip.CollectIsMerge | atom/src/atoms/sequence/zip.rs:24-47 | the corrected zip yields the stable time-ordered merge of what it still holds |
| Zip.NextIsMergeStep | atom/src/atoms/sequence/zip.rs:36-46 | each yielded event is the head of that merge, and the rest of the merge is what the zip then holds |
| Zip.ZipMerges | atom/src/atoms/sequence/zip.rs:12-47 | zipping two sequences yields a permutation of both, in time order when both are ordered |
| Zip.AsWrittenIsPrefix | atom/src/atoms/sequence/zip.rs:44 | the zip as written yields a prefix of the corrected merge: it stops early, never reorders |
| Zip.AsWrittenAgrees | atom/src/atoms/sequence/zip.rs:44 | when the first sequence is ordered and its last event is later than every event of the second, the zip as written yields the whole merge |
| Zip.LostEventExample | atom/src/atoms/sequence/zip.rs:44 | stamps 1 and 9 zipped with stamp 3 give 1, 3 as written, losing 9, where the merge is 1, 3, 9 |
| Zip.ZipExample | atom/src/atoms/sequence/zip.rs:74-130 | the two four-event sequences of the test merge into the eight events in stamp order, ties to the first, both as written and corrected |
| Chunk.Read | atom/src/atoms/chunk.rs:46-49 | reading a chunk always succeeds and hands back the whole body, unchanged, at its address |
| Chunk.Init | atom/src/atoms/chunk.rs:51-57 | initialising a chunk always succeeds and returns the frame unchanged |
| Chunk.WriteChunk | atom/src/atoms/chunk.rs:51-57 | writing a chunk atom keeps the writer stack well formed over the same buffer, and a success returns the chunk's frame |
| Chunk.ReadChunk | atom/src/atoms/chunk.rs:46-49 | a chunk read from a space comes from the space's next atom, whose type is the chunk URID, and is as long as that atom's body size |
| Chunk.ChunkWritten | atom/src/atoms/chunk.rs:51-57 | a successful chunk write appends an aligned atom header with the chunk URID and the data size, then the data, and nothing else |
| Chunk.ChunkFits | atom/src/atoms/chunk.rs:51-57 | on a slice, the chunk write succeeds exactly when padding, header and data fit in the space left |
| Chunk.ChunkRead | atom/src/atoms/chunk.rs:46-49 | a chunk laid out at any aligned address reads back as its header and exactly its data, whatever follows it |
| Chunk.LaterWriteAfterChunk | atom/src/atoms/chunk.rs:85 | a write to the outer cursor after the chunk frame is done lands after the chunk and leaves it intact |
| Chunk.ChunkExample | atom/src/atoms/chunk.rs:65-110 | the test's 42 counting bytes in a chunk, followed by the byte 41, read back as a chunk of size 42 holding 0 to 41 |
| Strings.InfoBytes | atom/src/atoms/string.rs:59-68 | the literal body header is two u32 fields, 8 bytes in all |
| Strings.DecodeInfo | atom/src/atoms/string.rs:99-105 | a language is read exactly when lang is non-zero and datatype zero, a datatype exactly in the mirror case, carrying that field; both zero or both set give nothing |
| Strings.InfoRoundTrip | atom/src/atoms/string.rs:59-105 | the header written for any literal info reads back as that same info |
| Strings.ReadStringBody | atom/src/atoms/string.rs:147-153 | a string body reads exactly when it is non-empty and all but its last byte are valid UTF-8; the text is those bytes, the last one dropped |
| Strings.ReadLiteralBody | atom/src/atoms/string.rs:93-113 | whatever a literal body reads as is valid UTF-8 |
| Strings.LiteralText | atom/src/atoms/string.rs:107-112 | the literal's text is valid UTF-8, falling back to the longest valid prefix |
| Strings.LiteralHead | atom/src/atoms/string.rs:96-105 | a literal body reads as its 8-byte header decoded and the text after it |
| Strings.LiteralTextRead | atom/src/atoms/string.rs:107-112 | with the last byte removed, the text read is the longest valid UTF-8 prefix of the rest |
| Strings.ReadString | atom/src/atoms/string.rs:147-153 | a string read from a space comes from the space's next atom, of the string URID, through the string body read |
| Strings.ReadLiteral | atom/src/atoms/string.rs:93-113 | a literal read from a space comes from the space's next atom, of the literal URID, through the literal body read |
| Strings.StringBodyRead | atom/src/atoms/string.rs:147-153 | a body of text plus one trailing byte reads as the text exactly when the text is valid UTF-8, else as nothing |
| Strings.LiteralBodyRead | atom/src/atoms/string.rs:93-113 | an info header then text then one byte reads as the info and the longest valid prefix of the text, so the whole text when it is valid |
| Strings.BadInfoUnreadable | atom/src/atoms/string.rs:99-105 | a literal header with both fields zero or both set reads as nothing |
| Strings.StringRead | atom/src/atoms/string.rs:147-153 | a string atom laid out at any address, with valid text and a final byte, reads back as that text whatever follows |
| Strings.LiteralRead | atom/src/atoms/string.rs:93-113 | a literal atom laid out with an info header, valid text and a nul reads back as that info and text whatever follows |
| Strings.InitString | atom/src/atoms/string.rs:155-160 | initialising a string always succeeds, on the given frame, with no nul byte written yet |
| Strings.InitLiteral | atom/src/atoms/string.rs:116-119 | initialising a literal reserves an aligned 8-byte header slot inside the frame, or fails |
| Strings.WriteInfoAsWritten | atom/src/atoms/string.rs:58-74 | write_info as written appends a second header after the reserved slot and hands over a string writer with no nul byte |
| Strings.WriteInfo | atom/src/atoms/string.rs:58-74 | with the header stored in the reserved slot, writing the info uses no space and leaves exactly the encoded info in the slot |
| Strings.CopyWithNul | atom/src/atoms/string.rs:184-191 | a successful copy places the text then a nul in freshly allocated space and marks the writer as holding a nul; a failed one leaves the flag |
| Strings.AppendAsWritten | atom/src/atoms/string.rs:175-194 | append as written marks a nul after a success, but after a failure keeps the old flag even when the nul was already rewound |
| Strings.Append | atom/src/atoms/string.rs:175-194 | the corrected append undoes nothing on success (it is the code's step) and leaves the writer exactly as it was on failure |
| Strings.AppendStep | atom/src/atoms/string.rs:175-194 | on a slice, append succeeds exactly when the text and a nul fit, and then the atom holds the old content, the text and one nul |
| Strings.AppendAll | atom/src/atoms/string.rs:175-194 | appending a list of texts keeps the writer well formed and, after any successful non-empty run, ends with a nul |
| Strings.AppendAllLaid | atom/src/atoms/string.rs:175-194 | appending texts one by one lays out their concatenation with one nul at the end, and fails exactly when that does not fit |
| Strings.WriteString | atom/src/atoms/string.rs:292-294 | writing a string atom of texts keeps the writer on the same buffer and ends with a nul |
| Strings.WriteLiteral | atom/src/atoms/string.rs:232-237 | writing a literal atom of info and texts keeps the writer on the same buffer |
| Strings.StringWritten | atom/src/atoms/string.rs:288-295 | a written string atom is laid out as an aligned header with the string URID and the texts' bytes plus one nul |
| Strings.StringFits | atom/src/atoms/string.rs:288-295 | on a slice, writing a string succeeds exactly when padding, header, texts and a nul fit |
| Strings.LiteralWritten | atom/src/atoms/string.rs:228-238 | with the corrected write_info, a written literal is laid out as header, encoded info, texts and a nul |
| Strings.LiteralWrittenAsWritten | atom/src/atoms/string.rs:58-74 | as written, the literal body holds the zeroed reserved slot, then the info, then texts and a nul |
| Strings.ZeroInfoUnreadable | atom/src/atoms/string.rs:99-105 | a body starting with the zeroed slot, both fields zero, reads as nothing |
| Strings.LiteralAsWrittenUnreadable | atom/src/atoms/string.rs:58-74 | the literal as written has a body 8 bytes too long and reads back as nothing |
| Strings.LiteralFits | atom/src/atoms/string.rs:116-119 | on a slice, the corrected literal write succeeds exactly when header, info, texts and a nul fit |
| Strings.LiteralAsWrittenFits | atom/src/atoms/string.rs:58-74 | with room for both info headers, every step of the literal as written succeeds |
| Strings.FailedAppendDropsNul | atom/src/atoms/string.rs:177-186 | after the rewind, an append that does not fit fails yet leaves the nul flag set, with the nul gone from the atom |
| Strings.Samples | atom/src/atoms/string.rs:217-218 | the two test samples are 32 and 30 bytes of valid UTF-8 |
| Strings.StringExample | atom/src/atoms/string.rs:280-317 | the test's two samples make a string atom of size 63 that reads back as their concatenation |
| Strings.LiteralExample | atom/src/atoms/string.rs:220-278 | with the corrected write_info, the test's literal has size 8 + 62 + 1 and reads back as German and the samples |
| Strings.LiteralExampleAsWritten | atom/src/atoms/string.rs:220-278 | as written, the test's literal has size 79 and a zero language field, and reads back as nothing |
| Strings.LostByteExample | atom/src/atoms/string.rs:175-194 | "ab" in an 11-byte buffer, then a failing append of "xyz": as written the atom reads as "a", corrected as "ab" |
| Utf8.CharLen | atom/src/atoms/string.rs:109 | a character is one to four bytes inside the input; ASCII is one byte, a continuation or C0/C1 or a byte above F4 starts none |
| Utf8.ValidUpTo | atom/src/atoms/string.rs:109-110 | validation stops at the end or at a position where no character starts |
| Utf8.ValidPrefix | atom/src/atoms/string.rs:109-110 | the error position equals the length exactly when the bytes are valid UTF-8 |
| Utf8.ConcatValid | atom/src/atoms/string.rs:192-193 | concatenating valid UTF-8 strings gives valid UTF-8 |
| Utf8.ValidPrefixLongest | atom/src/atoms/string.rs:110 | valid_up_to is the length of the longest valid prefix: that prefix is valid and no longer one is |
| Utf8.AsciiValid | atom/src/atoms/string.rs:217-218 | ASCII bytes are valid UTF-8 |
| Utf8.Utf8Examples | atom/src/atoms/string.rs:109-110 | "aé" is valid; a cut-off lead, an overlong "/" and an encoded surrogate stop validation at their first byte |
| Strings.WriteLiteralAsWritten | atom/src/atoms/string.rs:58-74 | `init_atom`, then `write_info` as written, then the appends keep the writer well formed and at the address it started from |
| Port.InputFromRaw | atom/src/port.rs:113-117 | the reader sees the atom whose header starts the port's memory, with exactly the header's size of body behind it |
| Port.Read | atom/src/port.rs:53-58 | reading a port atom with another URID fails naming both URIDs; with its own URID it hands the body, at its address, to the type's read |
| Port.OutputFromRaw | atom/src/port.rs:119-123 | the writer is a fresh, unwritten cursor over exactly the body the port's header sizes, starting right after the header |
| Port.WriteBack | atom/src/port.rs:119-123 | what the writer puts in the body is what the port's memory then holds after its header; the header and anything past the body stay |
| Port.Init | atom/src/port.rs:85-99 | a second init fails with AtomAlreadyWritten and changes nothing; the first one marks the port written and, on success, hands back an atom frame whose header ends the writer's used space |
| Port.InitScalar | atom/src/port.rs:85-99 | a scalar written through the port is refused once the port was written, and otherwise is the plain scalar atom write |
| Port.PortInitFits | atom/src/port.rs:85-99 | the first init into a port succeeds exactly when the port's body has room for an atom header |
| Port.PortScalarFits | atom/src/port.rs:85-99 | writing a scalar through a fresh port succeeds exactly when header and value fit in the port's body |
| Port.PortScalarRoundTrip | atom/src/port.rs:85-99 | a scalar written through an output port reads back through an input port over the same memory as the same value |
| Port.PortWritesOverChunk | atom/src/port.rs:144-166 | a scalar written into the body of a chunk that has room for it is read back through the input port with its value |
| Port.ChunkReadBack | atom/src/port.rs:161-164 | after the port writes its body back, the outer chunk still reads as a chunk, holding what was written |
| Port.PortExample | atom/src/port.rs:136-168 | the test's 256-byte chunk, written over by an output port with the int 42, reads back through an input port as 42 |
| SpaceLists.Allocate | atom/src/space/list.rs:20-33 | allocating from a list element fails exactly when it already has a successor; otherwise one zeroed chunk of the asked size is added, and the new element and chunk are the last ones |
| SpaceLists.Iter | atom/src/space/list.rs:45-48 | iterating from an element visits the chunks of all following elements, in order |
| SpaceLists.ToVec | atom/src/space/list.rs:36-42 | the flattened bytes begin with the next element's chunk, and are empty at the end of the list |
| SpaceLists.ToVecFront | atom/src/space/list.rs:36-42 | the flattened bytes are the next chunk followed by the flattening of the rest |
| SpaceLists.WriteChunk | atom/src/space/list.rs:98-103 | filling an allocated chunk changes only that chunk |
| SpaceLists.ToVecAppend | atom/src/space/list.rs:36-48 | a chunk added at the end appears at the end of the flattened bytes |
| SpaceLists.AllocateUnaligned | atom/src/space/list.rs:98-104 | the head allocates only while it holds the last element: then one zeroed chunk is added and the allocated count grows by its size; otherwise the head is emptied and the list kept |
| SpaceLists.AllocateAllAtTail | atom/src/space/list.rs:98-104 | a head at the tail serves every allocation in turn, appending one zeroed chunk per request and staying at the tail |
| SpaceLists.AllocateAllFirst | atom/src/space/list.rs:98-104 | a run of allocations is the first allocation followed by the rest |
| SpaceLists.HeadWriteExample | atom/src/space/list.rs:57-79 | writing an atom header and an int through a head gives two chunks that flatten to one 12-byte int atom |
| LegacyAtomSpace.Pad8 | atom/src/atomspace.rs:31 | the padding is the smallest count that brings the size to a multiple of 8 |
| LegacyAtomSpace.New | atom/src/atomspace.rs:15-20 | an atom space is made exactly from 8-aligned memory, unchanged; the panic otherwise becomes no value |
| LegacyAtomSpace.RetrieveRaw | atom/src/atomspace.rs:25-39 | retrieval fails exactly when more is asked than held; it returns the first bytes, and an upper space exactly when the padding fits, starting 8-aligned after it |
| LegacyAtomSpace.RetrieveSpace | atom/src/atomspace.rs:44-48 | the lower part is an aligned atom space of the asked size, with the same upper part as the raw retrieval |
| LegacyAtomSpace.RetrieveType | atom/src/atomspace.rs:53-62 | a type whose alignment does not divide 8 panics; otherwise retrieval fails exactly when the type does not fit, and returns its bytes and the raw upper part |
| LegacyAtomSpace.RetrieveAtom | atom/src/atomspace.rs:67-82 | an atom body is retrieved exactly when a header fits, an upper space follows it, its type is the asked URID, its body fits and the body converts |
| LegacyAtomSpace.RetrieveEncodedAtom | atom/src/atomspace.rs:67-82 | an atom encoded as header, body and padding at an aligned address is retrieved as its body, with what follows |
| LegacyAtomSpace.RetrieveRawExample | atom/src/atomspace.rs:144-164 | 128 counting bytes then 0x42424242 in 256 bytes: the first 128 come back and the upper space reads the integer |
| LegacyAtomSpace.WriteRaw | atom/src/atomspace.rs:104-123 | writing fails exactly when the data does not fit, returning the space; otherwise the data is copied in front and an upper space exists exactly when something lies past the padding |
| LegacyAtomSpace.WriteThenRetrieve | atom/src/atomspace.rs:25-39 | what was written reads back, and a non-empty upper space is found at the same place by both |
| LegacyAtomSpace.WriteRawExample | atom/src/atomspace.rs:166-200 | 24 counting bytes, then a header of size 42 and type 1, land at offsets 0 and 24 of 256 bytes |
| LegacyFrame.NewRoot | atom/src/frame.rs:14-21 | a root frame is made exactly from 8-aligned memory, with all of it free |
| LegacyFrame.RootWriteRawAsWritten | atom/src/frame.rs:25-48 | as written, a write succeeds exactly when space is left and the data fits, but a write that does not fit leaves the frame with no space at all |
| LegacyFrame.WriteAt | atom/src/frame.rs:34-47 | a write lands at the free position and frees the rest exactly when something is left past the padding |
| LegacyFrame.RootWriteRaw | atom/src/frame.rs:25-48 | corrected, a write succeeds under the same condition and a failed write leaves the frame unchanged |
| LegacyFrame.AsWrittenAgreesWhenFits | atom/src/frame.rs:25-48 | the two agree whenever the data fits or the space is already gone |
| LegacyFrame.OversizedWriteExhausts | atom/src/frame.rs:29-33 | as written, 24 bytes into 16 fail and then even 8 bytes are refused |
| LegacyFrame.WriteRaw | atom/src/frame.rs:64-68 | a write through nested atom frames succeeds exactly when the root's space fits it; a failure leaves the root with no space, as the root as written does |
| LegacyFrame.IntendedWriteRaw | atom/src/frame.rs:64-68 | with the corrected root, a failed write through the frames changes nothing |
| LegacyFrame.WriteRawAgreesWhenFits | atom/src/frame.rs:64-68 | the nested writes as written and corrected agree whenever the data fits |
| LegacyFrame.OversizedWriteRawExhausts | atom/src/frame.rs:25-68 | through the frames as written an oversized write stops a later small one that fits; corrected, the small one succeeds |
| LegacyFrame.WriteRawLands | atom/src/frame.rs:64-68 | a successful nested write places the data at the root's free position |
| LegacyFrame.WriteRawGrows | atom/src/frame.rs:64-68 | every enclosing atom header's size grows by the data length, its type unchanged |
| LegacyFrame.CreateAtomFrame | atom/src/frame.rs:83-97 | a child frame is created exactly when a header fits; a failure leaves the root with no space |
| LegacyFrame.IntendedCreateAtomFrame | atom/src/frame.rs:83-97 | with the corrected root, a failed frame creation changes nothing, and a success is the same as written |
| LegacyFrame.NewHeaderWritten | atom/src/frame.rs:87-91 | the new frame's header, of size 0 and the given type, lands at the free position |
| LegacyFrame.AtomFrameExample | atom/src/frame.rs:137-173 | an int frame on a fresh root takes 24 bytes at offset 8 and its size becomes 24; a header of size 42 and type 1 written after lands at 32, and the frame size becomes 32 |
| Features.Listed | core/src/feature/container.rs:18-24 | the walk reads the feature array up to, and not past, its first null entry |
| Features.LastData | core/src/feature/container.rs:19-23 | a URI is found exactly when some listed feature has it, and the data found belongs to such a feature |
| Features.FromRaw | core/src/feature/container.rs:14-30 | a null array gives an empty container; otherwise a URI is present exactly when a listed feature has it, mapped to the data of its last occurrence |
| Features.InsertAllLookup | core/src/feature/container.rs:19-23 | inserting features in order into a map keeps other URIs and maps each inserted URI to its last data |
| Features.InsertAllFromEmpty | core/src/feature/container.rs:14-30 | filling an empty map holds exactly the listed URIs, each with its last data |
| Features.LaterDuplicateWins | core/src/feature/container.rs:22 | with a URI listed twice, the later data is the one kept |
| Features.Contains | core/src/feature/container.rs:33-35 | a feature is contained exactly when its URI is a key |
| Features.RetrieveFeature | core/src/feature/container.rs:40-44 | retrieval removes the URI whatever the cast gives, returns something only for a present URI, and then exactly the cast of its data |
| Features.RetrieveTwice | core/src/feature/container.rs:40-44 | after a retrieval the feature is gone, a second retrieval finds nothing, and every other feature stays |
| Features.IntoIter | core/src/feature/container.rs:60-66 | iteration yields exactly one descriptor per stored URI, with its data |
| Features.IntoIterOnce | core/src/feature/container.rs:60-66 | every stored URI appears in the iteration, and no URI twice |
| Features.FromContainer | core/src/feature/container.rs:70-74 | a collection made from a container always succeeds and holds the same features, and the container keeps them too |
| Features.ContainerExample | core/src/feature/container.rs:14-44 | two features from a null-terminated array are both found, each retrieved once with its own data, and then gone |
| PortCache.Size | core/src/port_collection/pointer_cache.rs:13-51 | the unit cache has no slot, a pointer one, an array of N caches N, and a pair the sum of both sides |
| PortCache.NewCache | core/src/port_collection/pointer_cache.rs:16-45 | a new cache of any shape holds only null pointers |
| PortCache.SetConnection | core/src/port_collection/ports.rs:58-73 | the unit cache refuses every index, a pointer accepts any index, an array refuses indices past its length, and the result keeps the cache's shape |
| PortCache.SetThenGet | core/src/port_collection/pointer_cache.rs:48-51 | setting a connection succeeds exactly when the index routes to a slot; that slot then holds the pointer and slots that do not share it are unchanged |
| PortCache.DenseRouting | core/src/port_collection/pointer_cache.rs:39-51 | in a cache of arrays of pointers, every index below the size routes to a slot and none past it does |
| PortCache.WrapU32 | core/src/port_collection/ports.rs:61-64 | u32 arithmetic wraps, so that -1 becomes 2^32 - 1 and 2^32 becomes 0 |
| PortCache.PortsSetConnectionAsWritten | core/src/port_collection/ports.rs:58-73 | as written, the last input index is refused because the comparison with the end is strict |
| PortCache.AsWrittenAgreesInside | core/src/port_collection/ports.rs:58-73 | away from each side's last index, the as-written routing equals the corrected one |
| PortCache.LastIndexDropped | core/src/port_collection/ports.rs:66-69 | with two inputs and two outputs, indices 1 and 3 are refused as written and accepted corrected |
| PortCache.EmptyInputsUnderflow | core/src/port_collection/ports.rs:60-64 | with no inputs, the end wraps to 2^32 - 1 and the output at index 0 is refused, where the corrected routing accepts it |
| State.FromStatus | state/src/lib.rs:114-124 | only the success code is Ok; codes that name no status become Unknown, and no code ever gives BadCallback or BadData |
| State.IntoStatus | state/src/lib.rs:127-137 | every result becomes a named status, success exactly for Ok, and Unknown, BadCallback and BadData all become the unknown-error code |
| State.FromIntoStatus | state/src/lib.rs:114-137 | a result survives the trip to a status code and back, except BadCallback and BadData, which come back as Unknown |
| State.IntoFromStatus | state/src/lib.rs:114-137 | every named status code survives the trip to a result and back |
| State.StatusExample | state/src/lib.rs:140-160 | an unnamed code reads as Unknown, and Unknown is written as the unknown-error code |
| State.NewStoreHandle | state/src/raw.rs:25-32 | a new store handle holds no drafted properties |
| State.Draft | state/src/raw.rs:39-47 | drafting a property keeps an existing draft's buffer or adds an empty one, leaves other drafts alone, and hands out an uninitialised writer at the buffer's end |
| State.EndDraft | state/src/raw.rs:39-47 | what the property writer wrote becomes the draft's buffer |
| State.Init | state/src/raw.rs:120-130 | a property writer initialises once: later calls give Unknown and change nothing; the first marks it initialised and writes the atom header, any write error becoming Unknown |
| State.InitOnce | state/src/raw.rs:120-130 | after one init, whatever its outcome, the next one fails with Unknown |
| State.CommitPair | state/src/raw.rs:50-68 | storing fails with BadCallback without a store function, BadData when the buffer holds no atom, and otherwise gives the host's status for the atom's body and type |
| State.Commit | state/src/raw.rs:83-87 | committing a key with no draft gives nothing and changes nothing; otherwise the draft is removed and its store result returned |
| State.CommitAll | state/src/raw.rs:73-78 | committing all empties the drafts and succeeds exactly when every draft would store successfully |
| State.CommitAllOk | state/src/raw.rs:73-78 | committing in order, stopping at the first error, succeeds exactly when every pair succeeds |
| State.Discard | state/src/raw.rs:97-99 | discarding removes that draft only, and is a no-op without one |
| State.DiscardAll | state/src/raw.rs:90-92 | discarding all leaves no drafts |
| State.Retrieve | state/src/raw.rs:156-180 | retrieval fails with BadCallback without a function, Unknown for type 0, NoProperty for a null pointer, BadData for an unaligned one, and otherwise reads the type and body |
| State.ReadProperty | state/src/raw.rs:215-224 | reading with another type gives BadType; with its own type it succeeds exactly when the atom read does, with its value, any read error becoming Unknown |
| State.Store | state/src/storage.rs:20-22 | storing maps the key to the type and value and changes no other key |
| State.RetrieveStored | state/src/storage.rs:44-48 | retrieval finds a value exactly for a stored key, with its type and bytes |
| State.StoreRetrieve | state/src/storage.rs:20-48 | a stored value is retrieved under its key, and other keys retrieve as before |
| State.ExternStore | state/src/storage.rs:24-38 | the C store callback panics on key or type 0, and otherwise stores and reports success |
| State.ExternRetrieve | state/src/storage.rs:50-71 | the C retrieve callback panics on key 0, fills the flags exactly when asked, and returns data exactly for a stored key, with its size and type |
| State.ExternStoreRetrieve | state/src/storage.rs:24-71 | a value stored through the C callback comes back through the C retrieve callback with its size and type |
| Urid.NewUrid | urid/src/urid.rs:11-17 | a URID is made exactly from a non-zero number, and holds that number |
| Urid.Map | urid/src/mapper.rs:122-136 | a known URI keeps its URID and changes nothing; a new one gets the next number, the map's size plus one, unless that number no longer fits in a u32, when nothing changes |
| Urid.Unmap | urid/src/mapper.rs:138-157 | unmapping finds a URI exactly when some URI maps to that URID, and the URI found is one of them |
| Urid.ExternMap | urid/src/mapper.rs:53-61 | the C map callback returns 0 exactly when mapping fails, and otherwise the mapped URID |
| Urid.ExternUnmap | urid/src/mapper.rs:92-103 | the C unmap callback refuses 0 and finds a URI exactly for a URID some URI maps to |
| Urid.MapIdempotent | urid/src/mapper.rs:122-136 | mapping a URI a second time returns the same URID and changes nothing |
| Urid.UnmapMap | urid/src/mapper.rs:122-157 | a mapped URID unmaps to its URI |
| Urid.MapDistinct | urid/src/mapper.rs:122-136 | two different URIs get different URIDs |
| Urid.MapperExample | urid/src/mapper.rs:122-157 | mapping a, b, then a gives 1, 2, 1, and unmapping 1 and 2 gives a and b while 3 is unknown |
| Urid.FromFeature | urid/src/cache.rs:19-24 | a cached map starts with an empty cache over the map feature |
| Urid.UridOf | urid/src/cache.rs:26-39 | a cached URI is answered from the cache without touching the feature; otherwise the feature maps it and a success is added to the cache |
| Urid.TryUridOf | urid/src/cache.rs:41-44 | the cache-only lookup finds a URID exactly for a cached URI |
| Urid.Iter | urid/src/cache.rs:50-56 | iteration yields exactly the cached pairs |
| Urid.TryAfterUridOf | urid/src/cache.rs:26-44 | after urid_of succeeds, the cache-only lookup, a repeat urid_of and the feature all give the same URID |
| Urid.CachedMapExample | urid/src/cache.rs:59-85 | the test sequence gives 1, 2, 1, the cache finds 1 and 2 but not the third URI, the feature agrees, and iteration holds the two pairs |
| Options.ResultIntoRaw | options/src/option/error.rs:19-27 | success becomes the success code exactly for Ok, and each error becomes its own status code |
| Options.FromRaw | options/src/option/error.rs:30-38 | only the success code is Ok, each named error code becomes its error, and any other code becomes Unknown |
| Options.FromRawIntoRaw | options/src/option/error.rs:19-38 | every result survives the trip to a status code and back |
| Options.IntoRawFromRaw | options/src/option/error.rs:19-38 | every named status code survives the trip to a result and back |
| Options.SubjectFromRaw | options/src/option/subject.rs:26-39 | the instance context ignores the subject, a resource needs a non-zero URID, blank and port contexts keep the number, and any other context is refused |
| Options.SubjectRoundTrip | options/src/option/subject.rs:26-39 | every subject written as a context and number reads back as itself, and the instance context reads as the instance whatever the number |
| Options.OptionSubject | options/src/option/value.rs:20-22 | an option's subject is read from its context and subject fields |
| Options.Data | options/src/option/value.rs:30-41 | an option has data exactly when its value pointer is non-null, and then it is the size field's count of bytes at that pointer |
| Options.ReadOption | options/src/option/value.rs:44-61 | reading an option of another key gives BadKey, of another data type BadValue, and otherwise succeeds exactly when there is data, the atom reads and the option type accepts it, any other failure being BadValue |
| Options.RequestOptionType | options/src/option/request.rs:26-28 | a request's option type is its key when that is non-zero |
| Options.TryRespond | options/src/option/request.rs:41-71 | a request for another key gets BadKey and is left alone; otherwise it succeeds and the request then carries the atom type, the value's bytes and their length cut to a u32, with key and subject kept |
| Options.RespondThenRead | options/src/option/request.rs:41-71 | a value given in response to a request reads back from that request as the same value |
| Options.Entries | options/src/list.rs:51-70 | an options list is the entries before the first zero key |
| Options.ListNext | options/src/option/request.rs:118-131 | the list iterator stops at a zero key and otherwise yields the entry and moves to the next |
| Options.CollectIsEntries | options/src/list.rs:51-70 | iterating a list to its end yields exactly its entries before the terminator |
| Options.ListFromFeaturePtr | options/src/list.rs:29-34 | the options list feature exists exactly for a non-null pointer, over the list it points to |
| Options.DeserializeNew | options/src/collection/option_value.rs:27-37 | BadKey exactly when every option has another key; otherwise the result is that of the first option not answering BadKey |
| Options.DeserializeTo | options/src/collection/option_value.rs:39-56 | deserialising into a destination has the outcome of deserialize_new and overwrites the destination exactly on success |
| Options.RespondToRequest | options/src/collection/option_value.rs:58-64 | a request is answered exactly when its key is the context's option |
| Options.OptionalDeserializeNew | options/src/collection/option.rs:25-31 | for an optional option, a found value is Some, a missing key is None without error, and any other error is passed on |
| Options.OptionalDeserializeTo | options/src/collection/option.rs:33-53 | for an optional option, a missing key is not an error, other errors are passed on, and a found value overwrites the destination as Some |
| Options.OptionalRespondToRequest | options/src/collection/option.rs:55-65 | an absent optional value answers nothing and succeeds; a present one answers as the inner option does |
| Options.OptionalExample | options/src/collection/option.rs:25-31 | with only another option listed, the option is missing and the optional one is None; with it listed after, both find its value |
| Lv2Options.Record | urid/lv2-urid/src/options.rs:39-51 | each copied option is its size, its type and then its value bytes, which reads as an atom header and body |
| Lv2Options.AppendOption | urid/lv2-urid/src/options.rs:38-55 | copying an option appends its record and maps its key to exactly that span |
| Lv2Options.Build | urid/lv2-urid/src/options.rs:38-55 | copying options only appends to the data, and every span stays inside it |
| Lv2Options.New | urid/lv2-urid/src/options.rs:34-58 | a new options copy has every span inside its data |
| Lv2Options.FromFeaturePtr | urid/lv2-urid/src/options.rs:24-30 | the feature is refused, a panic in the code, exactly in the audio threading class, and otherwise is the copy of the list |
| Lv2Options.LastWithKey | urid/lv2-urid/src/options.rs:52 | the option found for a key is one in the list with that key, and none is found exactly when no option has it |
| Lv2Options.RetrieveOption | urid/lv2-urid/src/options.rs:63-68 | an option is retrieved exactly when its key was copied, as the bytes of its span |
| Lv2Options.BuildLookup | urid/lv2-urid/src/options.rs:38-55 | after copying, a key is mapped exactly when it was mapped before or is listed, and then to the record of its last listed option |
| Lv2Options.RetrieveNew | urid/lv2-urid/src/options.rs:34-68 | retrieving from a fresh copy finds a key exactly when it is listed, as an atom with the last option's size and type and its value bytes |
| UiSpace.Len | ui/src/space.rs:42-44 | the length is the number of bytes held |
| UiSpace.PutBuffer | ui/src/space.rs:21-31 | putting a buffer replaces the contents by its first size bytes and makes them unread |
| UiSpace.Take | ui/src/space.rs:33-40 | taking gives nothing for an empty or already read space, and leaves it unchanged; otherwise it gives the bytes and marks them read |
| UiSpace.PaddingTo8 | ui/src/space.rs:53-57 | the padding is below 8 and brings the length to a multiple of 8 |
| UiSpace.Allocate | ui/src/space.rs:52-65 | allocation zero-pads to 8 only when asked, then appends size zero bytes; the returned start is 8-aligned when padded and the slice ends the data |
| UiSpace.PutThenTake | ui/src/space.rs:21-40 | a non-empty buffer put into a space is taken once, as its bytes, and then not again |
| UiSpace.AllocateKeepsPrefix | ui/src/space.rs:52-65 | allocation keeps the bytes held so far and grows the length by padding and size |
| UiPort.NewControlPort | ui/src/port.rs:40-46 | a new control port holds 0, unchanged, at its index |
| UiPort.SetValue | ui/src/port.rs:51-54 | setting a value stores it and marks it changed |
| UiPort.ChangedValue | ui/src/port.rs:58-66 | a changed value is reported once, with the value, and the flag is then cleared; an unchanged port reports nothing |
| UiPort.ChangedOnce | ui/src/port.rs:40-66 | a fresh port reports nothing; after a set it reports the value once and then nothing |
| UiPort.ControlInfo | ui/src/port.rs:69-82 | a control port speaks protocol 0 with a 4-byte value at its index |
| UiPort.NewAtomPort | ui/src/port.rs:96-103 | a new atom port has two empty spaces, its URID and its index |
| UiPort.AtomInfo | ui/src/port.rs:141-154 | an atom port speaks its URID as protocol and its size is what it holds for the plugin |
| UiPort.PortEvent | ui/src/port.rs:158-190 | format 0 sets the value of a known control port; a matching URID and a non-null buffer put the buffer into the atom port for the UI; every other event changes nothing |
| UiPort.ControlEventReported | ui/src/port.rs:165-172 | a control event is reported by the port as the value sent |
| UiPort.AtomEventTaken | ui/src/port.rs:173-182 | an atom event with the port's URID is taken by the UI as the bytes sent |
| Metro.SamplerNext | docs/metro/src/pipes.rs:29-31 | the sampler gives a value for every index unless its sample is empty, where the code panics on the remainder by zero |
| Metro.SamplerReset | docs/metro/src/pipes.rs:38 | resetting a sampler changes nothing it will give |
| Metro.SamplerLoops | docs/metro/src/pipes.rs:29-31 | the sampler gives the sample's values in order and repeats them with the sample's length as period |
| Metro.SamplerExample | docs/metro/src/pipes.rs:42-49 | the sample 1, 2, 3, 4 gives i % 4 + 1 at index i |
| Metro.RetrieveNextEvent | docs/metro/src/pipes.rs:246-253 | pulling the next event consumes one from the sequence and keeps it only when it is not earlier than the current frame |
| Metro.NewAtomizer | docs/metro/src/pipes.rs:236-244 | a new atomizer starts at frame 0 holding the first event, if any |
| Metro.Advance | docs/metro/src/pipes.rs:263-278 | a step yields the held event exactly when it is due at the current frame, then pulls the next; an early event is held one frame more; without an event nothing changes |
| Metro.AtomizerNext | docs/metro/src/pipes.rs:263-278 | while an event is held, each step moves one frame on |
| Metro.Run | docs/metro/src/pipes.rs:286-293 | running the atomizer n times yields n outputs |
| Metro.EventAt | docs/metro/src/pipes.rs:263-278 | the event at a frame is absent exactly when no listed event has that frame, and otherwise is one listed at that frame |
| Metro.Pending | docs/metro/src/pipes.rs:223-230 | what the atomizer still has to give is the held event followed by the rest of the sequence |
| Metro.AtomizerStep | docs/metro/src/pipes.rs:263-278 | on a strictly ordered, not yet passed schedule, a step yields the event due at the current frame and changes no later frame |
| Metro.AtomizerSchedule | docs/metro/src/pipes.rs:263-278 | on such a schedule the k-th output is the event at frame index + k |
| Metro.NewOnSchedule | docs/metro/src/pipes.rs:236-244 | a strictly increasing event list gives a new atomizer on schedule, holding all the events |
| Metro.AtomizerExample | docs/metro/src/pipes.rs:281-294 | events at frames 4 and 10 come out at exactly those steps of 15 |
| Metro.SilentForever | docs/metro/src/pipes.rs:276 | once no event is held, the atomizer yields nothing ever after |
| Metro.StaleEventEndsOutput | docs/metro/src/pipes.rs:246-253 | with events at frames 4, 4 and 10, the second one is refused as stale and the atomizer falls silent, so the event at 10 is lost |
| Metro.RetrieveSkippingStale | docs/metro/src/pipes.rs:246-253 | pulling with stale events skipped holds an event only when it is not earlier than the current frame, and holds none only at the end |
| Metro.AtomizerNextSkipping | docs/metro/src/pipes.rs:263-278 | with skipping, each step while an event is held still moves one frame on |
| Metro.NewAtomizerSkipping | docs/metro/src/pipes.rs:236-244 | the skipping atomizer also starts at frame 0 |
| Metro.Kept | docs/metro/src/pipes.rs:246-253 | the events kept from a frame on all lie at or after that frame and come in strictly increasing frame order |
| Metro.RetrieveSkippingKept | docs/metro/src/pipes.rs:246-253 | what the skipping atomizer holds after a pull is exactly the kept events |
| Metro.AtomizerSkippingStep | docs/metro/src/pipes.rs:263-278 | each skipping step yields the kept event due at the current frame and changes no later frame |
| Metro.AtomizerSkippingSchedule | docs/metro/src/pipes.rs:263-278 | the k-th output of the skipping atomizer is the kept event at frame index + k |
| Metro.NewSkippingSchedule | docs/metro/src/pipes.rs:236-278 | for any event list, the skipping atomizer yields the kept events at their frames |
| Metro.SkippingKeepsLaterEvents | docs/metro/src/pipes.rs:246-253 | with events at frames 4, 4 and 10, skipping yields the first at 4 and still the one at 10 |
| Metro.KeptIncreasing | docs/metro/src/pipes.rs:246-253 | on a strictly increasing list no event is skipped |
| Chapters.SkipSpace | docs/make_chapters.py:108-110 | a greedy `\s*` consumes exactly the leading whitespace: what is left is a suffix of the line that does not start with whitespace, and everything cut off is whitespace |
| Chapters.UpToNewline | docs/make_chapters.py:112 | the `([^\n]*)` group is the longest newline-free prefix of the line: it is a prefix, holds no newline, and stops only at a newline or at the end |
| Chapters.CommentMarker | docs/make_chapters.py:106-110 | Rust sources use `//` as the comment indicator and every other language uses `#` |
| Chapters.ClassifyLine | docs/make_chapters.py:114-121 | the content of every line object, comment or code, is free of newlines |
| Chapters.MakeLines | docs/make_chapters.py:102-121 | one line object per raw line, in order, each the classification of its raw line and without a newline (the cleaning regex always matches, so no line is dropped) |
| Chapters.CommentLineText | docs/make_chapters.py:108-117 | a line made of indentation, the marker, a gap and some text is a comment line whose content is exactly that text |
| Chapters.CodeLineText | docs/make_chapters.py:114-121 | a line whose first non-space characters are not the marker is a code line holding the line without its newline, with or without the newline present |
| Chapters.StartBlock | docs/make_chapters.py:138-144 | a new block holds just the line that opens it, a code block for a code line and a text block for a comment line |
| Chapters.LinesToBlocks | docs/make_chapters.py:124-145 | the yielded blocks split the lines into alternating maximal runs: every block is non-empty and of one kind, code blocks carry the language, neighbours differ in kind and the blocks' lines in order are the input; no lines yield the single `None` |
| Chapters.GroupedStart | docs/make_chapters.py:130-131 | after the first line, the grouping invariant of the loop holds with one block and nothing yielded |
| Chapters.GroupedClose | docs/make_chapters.py:132-134 | a line of the other kind yields the last block and starts a new one, and the grouping invariant still holds for the longer prefix |
| Chapters.GroupedGrow | docs/make_chapters.py:135-144 | a line of the same kind extends the last block, and the grouping invariant still holds for the longer prefix |
| Chapters.GroupedFinish | docs/make_chapters.py:145 | the final yield of the last block completes the grouping of all lines |
| Chapters.GroupingUnique | docs/make_chapters.py:124-145 | there is only one way to cut lines into alternating well-formed runs, so the blocks the loop yields are determined by the lines alone |
| Chapters.LastRun | docs/make_chapters.py:132 | for alternating blocks, the last block is exactly the trailing run of lines of one kind, the run the loop compares each new line against |
| Chapters.JoinLines | docs/make_chapters.py:55 | joining no lines gives the empty text |
| Chapters.SplitLines | docs/make_chapters.py:55 | splitting at newlines always gives at least one line; it is the partner of the newline join |
| Chapters.SplitJoin | docs/make_chapters.py:55 | newline-free lines joined with newlines split back into the same lines |
| Chapters.RenderCodeBlock | docs/make_chapters.py:67-68 | a rendered code block starts with the opening fence naming the language, ends with the closing fence on a line of its own, and the text between gives back the block's lines one per line |
| Chapters.GroupingExample | docs/make_chapters.py:124-145 | a comment line followed by two code lines gives a text block holding the comment and then one code block holding both code lines |

## Left out

Integer widths and panics:

- Allocator.GrowBody: the `u32` body size wraps around at 2^32, as a release build computes `size += …`; a debug build panics on that overflow instead. The same holds for Allocator.AddToSizes and LegacyFrame.Grown.
- PortCache.WrapU32: `Ins::SIZE as u32 - 1` and the index sums wrap as in a release build, where a debug build panics; PortCache.EmptyInputsUnderflow therefore describes release builds only.
- Allocator.TrackAllocation: the panic of an `AtomWriter` whose header is not found in its parent's allocation is modelled as the model-only error `Panic`, and so are the panics of Allocator.Rewind.
- Metro.SamplerNext: the division panic on an empty sample is modelled as `None`; likewise `None` stands for the panics of Lv2Options.FromFeaturePtr (audio threading class), LegacyFrame.NewRoot and LegacyAtomSpace.New (unaligned start), and State.ExternStore / State.ExternRetrieve (a key or type of 0).
- Metro: the `usize` frame counters of the pipes are unbounded integers; they would have to run for 2^64 frames to wrap.
- Bytes: all sizes and indices are unbounded integers; a Rust slice cannot exceed `isize::MAX` bytes, which the model does not need to impose.

Representation:

- Bytes: the library reads and writes integers in the host's native byte order; the model fixes it to little-endian.
- Scalar.ScalarValue: the padding bytes of a written struct and uninitialised memory are unspecified in Rust; the model writes zeros there, and so do Vector.Init, Vector.AllocateUninit, Sequence.Init, Strings.InitLiteral and Port.PortTestChunk.
- Allocator.RootAllocate: a growing `VecSpace` keeps its base address in the model; the real `Vec` may move when it reallocates, staying aligned to its item type.
- State.CommitAll: the iteration order of the `HashMap` of pending properties is a parameter; Urid.Iter returns the URIDs as a set for the same reason.
- Floating-point values (`f32`, `f64`) are held as their bit patterns and never interpreted, including the UI control port's value; Sequence compares beat time stamps through a partial order in which a not-a-number is not comparable.
- Strings: the `datatype` field of `LiteralInfo::Datatype` is named `dtype` in the model, since `datatype` is a Dafny keyword.

Not modelled:

- Metro: the float pipes `Envelope` and `PulseGenerator` and the `EventReader` are not modelled; they compute with `f32` samples.
- UiPort: the read and init of a `UIAtomPort` go through the legacy `MutSpace` initialisation and `split_atom_body`; only the hand-over of the received atom (`Take`) is modelled.
- Reading and writing files in the chapter builder, the host's feature discovery, `extern "C"` entry points and raw-pointer casts are not modelled; pointers are addresses into a byte sequence.

Contracts with a narrower scope than the source:

- Tuple.TupleRead, Chunk.ChunkRead, Object.ObjectRead and Sequence.SequenceRead require the body to be shorter than 2^32 bytes, the largest body a `u32` header can announce.
- Tuple.TupleWritten, Object.ObjectWritten, Sequence.SequenceWritten and Chunk.ChunkWritten state the writer side of each round trip and the *Read lemmas the reader side; the two halves meet in the laid-out bytes rather than in one lemma per atom kind.
- Port.InputFromRaw and Port.OutputFromRaw require the host's buffer to hold a whole atom, which the `unsafe` constructors assume without checking.
- SpaceWriter.Allocate states that the allocation fits and keeps the writer well formed; where the allocated bytes lie is stated by Allocator.AllocateInFrames and Appending.AllocateAppends.
- Strings.StringWritten and Strings.LiteralWritten hold for a string atom written directly on a top-level cursor.
- Sequence.InitKeepsOrder requires comparable time stamps; Sequence.NaNBreaksOrder shows what happens otherwise.
- Strings.ReadStringBody: an empty body reads as nothing, because `data.len() - 1` wraps to `usize::MAX` in a release build and `get` refuses that range.
- Strings.ReadLiteralBody: a body that ends right after the literal info makes the slice index panic, modelled as nothing.

Modelling choices:

- Chunk: the `Option`-returning API of chunk.rs is followed.
- The `Blank` atom has no members of its own: it reads and writes as an object.
- SpaceWriter.CopyAtom models `forward_atom`.
- Sequence.WithUnit writes the header `{unit, 0}` into the room that `init` reserved.
- Zip: the merge is generic over events carrying a time stamp and a payload.
- Utf8: validation follows `str::from_utf8` and section 4 of RFC 3629.
- Port.Init: `init_atom` on the port's cursor is modelled as the atom writer's `write_new`; as in the source, the port is marked as written even when that fails. The `sample_count` argument of the port is unused by the source and left out.
- Port.WriteBack: a port reader and a port writer on the same host buffer share memory; the model copies the writer's bytes back into the buffer explicitly.

## Findings

| source | as written | input that shows it | evidently intended | confidence | as-written member | corrected member |
|---|---|---|---|---|---|---|
| atom/src/frame.rs:26-33 | `RootWritingFrame::write_raw` takes the free space out of the frame (`replace(None)`) before it checks that the data fits, and does not put it back when the check fails | a root frame with 16 free bytes: writing 24 bytes fails, and then writing 8 bytes fails too, since no free space is left | a write that does not fit fails and leaves the frame as it was, so the 8-byte write lands at the old free offset | not executed | LegacyFrame.RootWriteRawAsWritten, LegacyFrame.OversizedWriteExhausts, LegacyFrame.OversizedWriteRawExhausts | LegacyFrame.RootWriteRaw, LegacyFrame.AsWrittenAgreesWhenFits, LegacyFrame.IntendedWriteRaw, LegacyFrame.WriteRawAgreesWhenFits |
| core/src/port_collection/ports.rs:60-72 | the routing of `set_connection` computes inclusive last indices `SIZE - 1` but tests them with `<`, and computes `Ins::SIZE as u32 - 1` even when there are no inputs | two inputs and two outputs: indices 1 and 3 get no slot; with no inputs, `0 - 1` underflows (a panic in a debug build, no slot at all in a release build) | every index below the number of inputs addresses an input and every following index below the total addresses an output | not executed | PortCache.PortsSetConnectionAsWritten, PortCache.LastIndexDropped, PortCache.EmptyInputsUnderflow | PortCache.SetConnection, PortCache.SetThenGet, PortCache.AsWrittenAgreesInside |
| docs/metro/src/pipes.rs:246-253 | the atomizer drops an event whose frame is already behind it and leaves no next event, and `next` never asks for one again | events at frames 4, 4 and 10: the second event at 4 is stale, so the event at 10 is never emitted | a stale event is skipped and the following events are still emitted at their frames | not executed | Metro.RetrieveNextEvent, Metro.StaleEventEndsOutput | Metro.RetrieveSkippingStale, Metro.NewSkippingSchedule, Metro.SkippingKeepsLaterEvents |
| atom/src/space/terminated.rs:55-65 | `allocate_and_split` rewinds the terminator and then lets `?` return the inner allocation's error, with `wrote_terminator_byte` still set, so the next allocation rewinds one byte of data | the documented 20-byte example with a 10-byte write between "Hello, world!" and " Boop!": the 10-byte write fails, and the buffer ends as "Hello, world Boop!" and the terminator | a failed allocation leaves the data and its terminator as they were, and the buffer ends as "Hello, world! Boop!" and the terminator | not executed | TerminatedWrites.FailedWriteKeepsFlag, TerminatedWrites.LostByteExample | TerminatedWrites.IntendedAllocate, TerminatedWrites.IntendedWriteHolds, TerminatedWrites.IntendedExample |
| atom/src/atoms/sequence/zip.rs:44 | when the first sequence still has an event and the second has ended, the arm `(Some(_), None)` takes the second slot, which is `None`, and so ends the merge | the first sequence stamped 1 and 9, the second stamped 3: the merge yields the events at 1 and 3 and never the one at 9 | the arm takes the first slot, so the merge yields every event of both sequences in stamp order | not executed | Zip.NextAsWritten, Zip.LostEventExample, Zip.AsWrittenIsPrefix | Zip.Next, Zip.CollectIsMerge, Zip.ZipMerges |
| atom/src/atoms/string.rs:58-68 | `write_info` appends a new `LV2_Atom_Literal_Body` with `write_value` instead of filling in the one `init` reserved (`self.body`), so the reserved one stays zero | the test's literal in German with its two samples: the atom's size is 79 instead of 71, its first info reads language 0 and datatype 0, and reading the literal gives nothing | the info goes into the reserved body header, and the literal reads back with its language and its text | not executed | Strings.WriteInfoAsWritten, Strings.WriteLiteralAsWritten, Strings.LiteralWrittenAsWritten, Strings.LiteralAsWrittenUnreadable, Strings.LiteralExampleAsWritten | Strings.WriteInfo, Strings.LiteralWritten, Strings.LiteralRead, Strings.LiteralExample |
| atom/src/atoms/string.rs:175-194 | `append` rewinds the previous nul and then returns `None` from the failing `allocate` with `has_nul_byte` still set, so the string has lost its nul and the next `append` rewinds a byte of text | "ab" written in an 11-byte buffer, then an `append` of "xyz" that does not fit: the atom then reads as "a" | a failed `append` leaves the string and its nul as they were, so the atom still reads as "ab" | not executed | Strings.AppendAsWritten, Strings.FailedAppendDropsNul, Strings.LostByteExample | Strings.Append, Strings.AppendStep, Strings.AppendAllLaid |
