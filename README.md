# Tea file metadata layer, modelled in Dafny

A tea file is a binary time-series file. It holds a 32-byte header (magic value, item
start, item end, section count) and up to four metadata sections: item, content
description, name-value and time. Each section is framed by an int32 section ID and
an int32 byte size. Zero padding follows, up to an 8-byte-aligned item start, and
then the records, each `ItemSize` bytes long.

This project models the Go package that reads and writes that layout:

- the length-prefixed text codec;
- the `Read`, `Write` and `Size` operations of the four sections;
- the layout `Create` computes from the sections' `Size` results, the bytes `writeHeader` writes (frames announcing those sizes, then padding counted from them), and the strict decoding `readHeader` performs;
- the comparison of a record type with an item section (`checkDataType`);
- the configuration options;
- the mode guards and offset arithmetic of `Read`, `Write`, `SeekItem` and `OpenReadableMapping`;
- the index arithmetic of the memory-mapped reader.

The open file is a byte sequence plus a cursor. The byte order is little-endian.
`TeaFile` and `MMapReader` are classes whose methods update their fields. The
section codecs are methods over `(bytes, position)`, each proved equal to a function
that states the layout (`ItemSectionBytes`, `ParseItemSection`, ...). Those functions
carry the round-trip, size and well-formedness lemmas.

A Go panic (nil dereference, `make` with a negative length, index out of range,
division by zero) becomes the error value `Panic(reason)`. Go's nondeterministic map
iteration order is a ghost sequence `order`. It is returned by the operations that
range over the name-value map, and every property is proved for every such order.

Modules, in dependency order:

- `Errors`: one error value per failure the source reports.
- `Binary`: int32/int64/uint64 little-endian coding, two's-complement conversion, positioned reads.
- `Utils`: text.
- `Constants`: IDs, tags, and the field-type/kind tables.
- `Sections`: item, time and content description sections.
- `NameValueSections`: the name-value section.
- `Headers`: header, frames, padding, `readHeader`.
- `Schema`: `checkDataType`.
- `Configs`: the options.
- `MMap`: the mapped reader.
- `TeaFiles`: the `TeaFile` object.

## Model

| member | source | states |
|---|---|---|
| Binary.ReadBytes | utils.go:12-14 | a raw read of `n` bytes succeeds exactly when `n` bytes remain, returns those bytes and advances by `n`; otherwise it is a short read |
| Binary.ReadInt32 | sections.go:30 | an int32 read succeeds exactly when 4 bytes remain and consumes the 4-byte encoding of the value it returns |
| Binary.Int32RoundTrip | utils.go:21 | decoding the 4 bytes `binary.Write` emits for an int32 gives the int32 back |
| Binary.Int64RoundTrip | teafile.go:308 | the same for the int64 header fields |
| Binary.Int32Canonical | teafile.go:256-259 | every 4 bytes are the encoding of the int32 they decode to, so a read never loses information |
| Binary.WrapInt32 | utils.go:20 | Go's `int32(x)` agrees with `x` modulo 2^32 and is `x` itself when `x` fits |
| Binary.WrapInt64 | teafile.go:239 | int64 arithmetic agrees with exact arithmetic modulo 2^64 and is exact when the value fits |
| Utils.ReadText | utils.go:8-16 | on success the bytes consumed are exactly the text encoding of the text returned: 4 length bytes and then the text |
| Utils.ReadTextFailures | utils.go:10-14 | a short length prefix is a short read, a negative length panics in `make`, a body shorter than announced is a short read, and otherwise the text is the `n` bytes after the prefix |
| Utils.ReadWriteText | utils.go:8-24 | reading where `writeText` wrote gives the text back and consumes exactly `4 + len(s)` bytes, whatever follows |
| Utils.WriteText | utils.go:18-24 | the encoding is 4 length bytes followed by the raw bytes, with no terminator |
| Constants.SectionKindOf | constants.go:9-12 | each of the IDs 0x0a, 0x80, 0x81 and 0x40 selects its own section kind, so the four are pairwise distinct; any other ID selects none |
| Constants.ValueTypeOfTag | constants.go:36-42 | the tag a value type is written with is the tag constant that reads back as that type (1 int32, 2 float64, 3 string, 4 UUID, 5 uint64); the tags are distinct and any other tag selects no type |
| Constants.FieldTypeInverse | constants.go:21-32 | `fieldTypeToKind` maps 1..10 injectively onto the ten supported kinds and is inverted by `kindToFieldType`; any other code gives the zero kind |
| Constants.InitKindToFieldType | constants.go:44-48 | after `init`, `kindToFieldType[fieldTypeToKind[c]] == c` for every code 1..10, and its keys are exactly the ten supported kinds, whatever order `range` takes |
| Sections.ParseField | sections.go:38-46 | a field read carries the index of its loop iteration, not a stored one |
| Sections.ParseFieldSound | sections.go:41-46 | a field read consumes exactly the bytes of its type, offset and name |
| Sections.ParseFieldAt | sections.go:61-66 | reading where a field was written gives that field back |
| Sections.ParseInfo | sections.go:30-35 | the reads of item size, type name and field count consume exactly their encoding |
| Sections.ParseFieldsShape | sections.go:37-48 | the field loop reads exactly `max(0, FieldCount)` fields after the ones before, numbering them by position |
| Sections.ParseFieldsConsumes | sections.go:37-48 | the field loop consumes exactly the encoding of the fields it read |
| Sections.ParseItemSectionSound | sections.go:29-50 | a successful `ItemSection.Read` has `max(0, FieldCount)` fields with `Index = i`, and consumed exactly the item-section encoding of what it returns |
| Sections.ParseFieldsRoundTrip | sections.go:37-67 | the field loop from iteration `i` reads back the written fields and stops at their end |
| Sections.ItemSectionRoundTrip | sections.go:29-69 | `Read` after `Write` gives the section back and consumes its bytes exactly, when the count is the number of fields and the indices are 0..n-1 |
| Sections.ReadItemSection | sections.go:29-50 | the loop of `ItemSection.Read`, with its four exits, computes `ParseItemSection` exactly |
| Sections.WriteItemSection | sections.go:52-69 | the loop of `ItemSection.Write` emits the item-section layout |
| Sections.ItemSectionSize | sections.go:71-92 | `12 + len(ItemTypeName) + Σ(12 + len(Name))` is exactly the number of bytes `Write` emits |
| Sections.ParseOffsetsSound | sections.go:217-222 | the offset loop reads exactly `max(0, Count)` offsets after those before and consumes exactly 4 bytes per offset |
| Sections.ParseOffsetsRoundTrip | sections.go:217-237 | the offset loop from iteration `i` reads back written offsets |
| Sections.ParseTimeSectionSound | sections.go:209-224 | a successful `TimeSection.Read` has `max(0, Count)` offsets and consumed exactly the time-section encoding |
| Sections.TimeSectionRoundTrip | sections.go:209-239 | `Read` after `Write` gives the time section back when `Count == len(Offsets)` |
| Sections.ReadTimeSection | sections.go:209-224 | the loop of `TimeSection.Read` computes `ParseTimeSection` exactly |
| Sections.WriteTimeSection | sections.go:226-239 | the loop of `TimeSection.Write` emits epoch, ticks per day, count and the offsets |
| Sections.TimeSectionSize | sections.go:241-253 | `20 + 4 * len(Offsets)` is exactly the number of bytes `Write` emits |
| Sections.ReadContentDescription | sections.go:267-271 | the description is read as text, consuming exactly its encoding; it fails exactly when `readText` does |
| Sections.ContentDescriptionSize | sections.go:277-285 | `4 + len(text)` is exactly the number of bytes `Write` emits |
| Sections.ContentDescriptionRoundTrip | sections.go:267-275 | `Read` after `Write` gives the description back |
| NameValueSections.ValueBytes | sections.go:165-169 | the payload of a value is 4, 8, 8 or 16 raw bytes, or a text for a string |
| NameValueSections.EntryBytes | sections.go:160-169 | one entry is `8 + len(name)` bytes plus its payload |
| NameValueSections.SumOverPermutation | sections.go:179-188 | a per-entry sum does not depend on the order in which `range` visits the keys |
| NameValueSections.NameValueBytesLength | sections.go:155-173 | the number of bytes `Write` emits is `4 + Σ` of the entry sizes, the same in every iteration order |
| NameValueSections.EnumerationExists | sections.go:159 | every map can be ranged: some order lists each key exactly once |
| NameValueSections.WriteNameValueSection | sections.go:155-173 | `Write` emits the int32 count, then name, tag and payload of each key in the order it visited them, each key exactly once |
| NameValueSections.NameValueSize | sections.go:175-190 | `Size` as written: `1 + Σ(1 + len(key) + 1 + sizeof(value))`, with 16 bytes for a string header on a 64-bit platform, in every iteration order |
| NameValueSections.DeclaredSizeShortfall | sections.go:175-190 | without text values, `Size` as written is `3 + 6·n` bytes short of what `Write` emits |
| NameValueSections.DeclaredSizeExample | sections.go:175-190 | for `{"px": int32 2}`, `Size` as written is 9 and `Write` emits 18 bytes |
| NameValueSections.ExactSizeExample | sections.go:175-190 | for `{"x": "abc"}`, `Size` as written and the bytes `Write` emits are both 20, so such a map reads back |
| NameValueSections.NameValueEncodedSize | sections.go:175-190 | the corrected `Size`: exactly the number of bytes `Write` emits, in every iteration order |
| NameValueSections.ParseValue | sections.go:116-149 | an unknown tag fails with that tag; a value read has the type the tag announces |
| NameValueSections.ParseValueSound | sections.go:116-147 | the tag fixes the payload width (int32 4, double 8, uint64 8, UUID 16, text length-prefixed), and the bytes consumed are the payload's encoding |
| NameValueSections.ParseValueAt | sections.go:116-147 | reading a payload under its own tag where it was written gives it back |
| NameValueSections.ParseEntryAt | sections.go:111-147 | reading an entry where one was written gives its name and value back |
| NameValueSections.ParseEntries | sections.go:110-151 | the entry loop stops at the first failing entry and yields at most `count` names (a repeated name overwrites) |
| NameValueSections.ParseEntriesFail | sections.go:111-149 | the error of the first entry that fails is the error of the whole loop |
| NameValueSections.ParseNameValueSectionBound | sections.go:104-153 | a map read holds at most `max(0, count)` names |
| NameValueSections.ParseEntriesRoundTrip | sections.go:110-171 | the entry loop from entry `i` reads back the written entries and ends at their end |
| NameValueSections.NameValueRoundTrip | sections.go:104-173 | `Read` after `Write` gives the map back and consumes exactly its bytes, in whatever order `Write` visited the keys |
| NameValueSections.ReadValue | sections.go:116-150 | the `switch kind` computes `ParseValue` exactly |
| NameValueSections.ReadEntry | sections.go:111-150 | one loop pass (name, tag, payload) computes `ParseEntry` exactly |
| NameValueSections.ReadEntries | sections.go:109-151 | the entry loop computes `ParseEntries` exactly |
| NameValueSections.ReadNameValueSection | sections.go:104-153 | `NameValueSection.Read` computes `ParseNameValueSection` exactly |
| Headers.HeaderBytes | teafile.go:308 | the header is written in 32 bytes |
| Headers.ParseHeaderFields | teafile.go:248-249 | the header read fails exactly when fewer than 32 bytes remain, and consumes the encoding of the header it returns |
| Headers.ParseHeaderFieldsAt | teafile.go:248 | reading the header where it was written gives it back |
| Headers.ParseHeaderMagic | teafile.go:250-252 | a wrong magic value fails `readHeader`, whatever follows |
| Headers.ParseSectionUnknownId | teafile.go:286-287 | an unknown section ID fails `readHeader` instead of being skipped |
| Headers.ParseSectionUnfold | teafile.go:290-294 | a section whose decoder consumed other than the announced number of bytes fails `readHeader` |
| Headers.ParseFrameAt | teafile.go:255-294 | a frame around a present section decodes to that section exactly when the announced size is the payload's length |
| Headers.PresentKinds | teafile.go:312-362 | the kinds written are exactly the present ones, in the order item, content description, name-value, time |
| Headers.PresentKindsCount | teafile.go:61-107 | the section count is one per present section |
| Headers.SectionsBytesInOrder | teafile.go:312-362 | the frames follow the header in the order item, content description, name-value, time, each absent section contributing nothing |
| Headers.FrameOf | teafile.go:313-322 | a frame is the ID, the size and the payload, `8 + size` bytes |
| Headers.Padding | teafile.go:109-112 | the padding `8 - x % 8` lies in 1..8, also when `x` is already aligned, and aligns `x` to 8 |
| Headers.DeclaredSize | teafile.go:312-358 | the size a frame announces is that section's `Size`: the payload's length for the item, time and content description sections, and `Size` as written for the name-value section |
| Headers.HeaderRegion | teafile.go:306-372 | the region is the header, the frames and the padding that `writeHeader` counts from the announced sizes; it is `ItemStart` bytes long exactly when every announced size is its payload's length |
| Headers.SectionsBytesAnnounced | teafile.go:312-358 | the frames written are as long as the sizes they announce, plus the name-value section's shortfall; equal exactly when the name-value section is absent or announces its length |
| Headers.HeaderRoundTrip | teafile.go:247-304 | `readHeader` on the bytes `writeHeader` wrote restores the header and all four sections, and leaves the stream at `ItemStart` |
| Headers.AsWrittenNameValueFrameRejected | teafile.go:338-349 | a name-value frame sized by `Size` as written, for any map without text values (the empty one included), does not announce its length and fails `readHeader` with a size mismatch |
| Headers.RegionReadsBack | teafile.go:247-304 | `readHeader` on the region `writeHeader` writes returns the header and all sections, at `ItemStart`, when every announced size is exact, and fails with a size mismatch otherwise |
| Headers.HeaderRejectsInexactSize | teafile.go:290-294 | when the name-value frame announces other than its length, `readHeader` reads the frames before it and fails on it with a size mismatch |
| Schema.NamedFields | teafile.go:378-382 | the fields compared are the record's fields not named `_`, in order; none are dropped when none is named `_` |
| Schema.ToUintptr | teafile.go:392 | `uintptr` of an int32 offset keeps a non-negative offset and makes a negative one too large to equal any field offset |
| Schema.MismatchError | teafile.go:389-397 | a field failing the check reports its kind when the kind differs, else its offset |
| Schema.CollectNamedFields | teafile.go:376-382 | the first loop of `checkDataType` collects exactly the fields not named `_` |
| Schema.CompareFields | teafile.go:386-399 | the second loop passes exactly when all pairs agree, and otherwise fails at the first pair that does not |
| Schema.CheckDataType | teafile.go:375-401 | without an item section it panics; it passes exactly when the type agrees with the item section; a field-count difference fails with both counts; otherwise it fails at the first field whose kind or offset differs |
| Configs.FieldOf | config.go:19-25 | a derived field keeps the name, takes the position as index and the offset, and the type code `kindToFieldType` has for the kind, 0 for an unsupported kind |
| Configs.DeriveItemSection | config.go:9-29 | the loop of `WithDataType` builds one field per record field, in declaration order |
| Configs.DerivedCanonical | config.go:15-26 | the derived section has `FieldCount == len(Fields)`, indices equal to positions, and the record's size and offsets when they fit int32 |
| Configs.DerivedPassesCheck | config.go:9-29 | a record type agrees with the section derived from it exactly when all its field kinds are supported |
| Configs.BlankFieldRejected | teafile.go:376-384 | a record type with a field named `_` never agrees with the section derived from it: the section keeps the field, `checkDataType` drops it, and the counts differ |
| Schema.BlankShortens | teafile.go:378-382 | a field named `_` anywhere makes the compared fields strictly fewer than the record's |
| Configs.DataTypeItemSection | config_test.go:20-33 | `Data` derives item size 40 and the fields (0,8,0,Time), (1,5,8,Price), (2,8,16,Volume), (3,5,24,Prob), (4,8,32,Prib) |
| Configs.TimeOffsetsOf | config.go:47-60 | `WithTimeFields` maps each index to the offset of that field; with indexes but no item section it panics on nil, and an index outside the fields panics |
| Configs.CollectTimeOffsets | config.go:50-52 | the loop of `WithTimeFields` computes `TimeOffsetsOf` exactly |
| Configs.TimeSectionOf | config.go:53-58 | the time section keeps epoch, ticks per day and offsets, with `Count = len(offsets)` |
| Configs.DataTypeTimeSection | config_test.go:94-110 | time fields at index 0 of `Data` give the time section (719162, 86400000, 1, [0]) |
| Configs.ConfigureConfigured | teafile.go:58-60 | options that do not panic leave an item section exactly when a record type is set and derived from it, and a time section whose count is its number of offsets |
| Configs.ConfigureFailurePersists | teafile.go:58-60 | a panic in an option ends the loop with it, whatever options follow |
| Configs.TimeFieldsNeedDataType | config.go:47-52 | `WithTimeFields` with indexes and no earlier `WithDataType` panics on the nil item section, so the option order matters |
| Configs.TestOptions | teafile_test.go:28-36 | the options of the test set all four sections, the content description and name-values verbatim, and time offset 0 |
| MMap.GoDiv64 | mmap/mmap.go:35 | Go's int64 division truncates toward zero: the remainder has the dividend's sign and is smaller than the divisor; `-2^63 / -1` wraps |
| MMap.MappedBytes | mmap/mmap.go:64 | the mapping shows the first bytes of the file |
| MMap.MMapReader.Len | mmap/mmap.go:34-36 | it panics exactly when the item size is 0; on an opened reader it is `ItemCount`; it is the largest whole number of items within `size` |
| MMap.ItemWithinSize | mmap/mmap.go:34-41 | on an opened reader, for `0 <= idx < ItemCount`, the item `GetItem(idx)` points to lies within the `size` bytes from `ptr` |
| MMap.PageRounded | mmap/mmap.go:64 | `mmap` maps whole pages: a positive request is rounded up to the next multiple of the 4096-byte page, by less than one page |
| MMap.MMapReader.ItemBytes | mmap/mmap.go:39-41 | the bytes at the address of item `idx` are one item long |
| MMap.MMapReader.Close | mmap/mmap.go:23-31 | the first call unmaps and returns what `Munmap` returns; later calls, and a call on the reader of an empty file, return nil without unmapping; nothing else changes |
| MMap.OpenMapping | mmap/mmap.go:44-79 | an empty file gives the empty reader, every field zero (no data, `ItemCount` 0); `size + offset` past the end of the file fails; a mapping of no bytes is refused; a zero item size panics; once every guard passes it succeeds, and the reader holds the mapped bytes, `ptr = offset` and `ItemCount = size / itemSize` |
| MMap.Open | mmap/mmap.go:44-79 | `Open` as written: the guards of `OpenMapping`, a non-positive size refused by `mmap`, and otherwise a reader that maps `size` bytes from the start of the file |
| MMap.AsWrittenLastItemUnmapped | mmap/mmap.go:64-69 | as written, with items past the first byte that fill the size exactly, the last item reaches past the `size` bytes requested of `mmap` |
| MMap.AsWrittenExample | mmap/mmap.go:64-69 | a 4136-byte file with 512 items of 8 bytes from offset 40: the request is exactly one page, items 0..506 are mapped, and items 507..511 lie past the last mapped page |
| MMap.OpenCovering | mmap/mmap.go:44-79 | the corrected `Open`: the same guards, and otherwise a reader that maps the `offset + size` bytes that end where the items end |
| MMap.CoveringItemsMapped | mmap/mmap.go:39-69 | on the corrected mapping every item below `ItemCount` is mapped and its bytes are the file's bytes at `offset + idx * itemSize` |
| TeaFiles.WriteAt | teafile.go:230 | a write at the cursor replaces the bytes there, extends the file when needed, fills any gap with zeros, and keeps everything else |
| TeaFiles.ReadAt | teafile.go:204 | a read at the cursor fails exactly at the end of the file with a non-empty buffer; otherwise it fills the buffer with what is left, up to its length, and leaves the rest zero |
| TeaFiles.ItemStartFor | teafile.go:61-112 | the item start is a multiple of 8, 1 to 8 bytes past the header plus 8 bytes and the `Size` of each present section, the name-value section's as written |
| TeaFiles.ItemStartPastFrames | teafile.go:109-112 | when every announced size is exact, the item start lies 1 to 8 bytes past the end of the frames written |
| TeaFiles.LayoutHeader | teafile.go:61-112 | the header written has the magic value `0x0d0e0a0402080500`, an item end of 0, the item start computed from the sections' `Size` results and one section per present section |
| TeaFiles.ItemOffset | teafile.go:239 | `ItemStart + idx * ItemSize` in int64 arithmetic, exact when nothing overflows |
| TeaFiles.MappingSize | teafile.go:173-180 | the item region reaches the end of the file while the item end is 0, and the item end otherwise |
| TeaFiles.WriteFrames | teafile.go:312-362 | the `if` blocks of `writeHeader` emit the frames of the present sections, in order, each announcing its section's `Size`, and advance the running offset by 8 plus that size |
| TeaFiles.HeaderRegionBytes | teafile.go:306-372 | `writeHeader` emits the header, the frames, and zeros until the running offset, which counts announced sizes, reaches `ItemStart` |
| TeaFiles.SectionsSize | teafile.go:66-107 | the sizes `Create` adds, in its own order (item, name-value, time, content description), are the sizes `writeHeader` announces; they equal the length of the frames exactly when the name-value section is absent or its `Size` is exact; the count is the number present |
| TeaFiles.LayoutFor | teafile.go:61-112 | with an item section the record type is checked first, a missing one panics and a mismatch fails; otherwise the header is the layout's, with the `Size` results as written, whatever the iteration order |
| TeaFiles.PaddedItemStart | teafile.go:109-112 | the item start computed from the sizes is the layout's for every iteration order |
| TeaFiles.SectionsBytesLength | teafile.go:312-362 | the frames take 8 bytes plus the payload per present section |
| TeaFiles.TeaFile.Apply | config.go:9-60 | running an option updates only the record type and the section it sets, as `ConfigStep` states |
| TeaFiles.TeaFile.WriteHeader | teafile.go:306-372 | appends the header region, frames and padding counted from the announced sizes, to the file and leaves the cursor at its end |
| TeaFiles.TeaFile.Create | teafile.go:48-118 | a panicking option fails `Create`; a record type that does not agree fails it; otherwise the new write-mode file holds the options' sections, the layout header and exactly the header region, which is `ItemStart` bytes long exactly when every announced size is exact |
| TeaFiles.TeaFile.ReadPayload | teafile.go:265-285 | the `Read` of the kind selected decodes into its own field as `ParsePayload` states |
| TeaFiles.TeaFile.ReadSection | teafile.go:255-294 | one loop iteration of `readHeader`, as `ParseSection` states |
| TeaFiles.TeaFile.ReadHeader | teafile.go:247-304 | `readHeader` computes `ParseHeader`: header and sections as decoded, cursor at `ItemStart` |
| TeaFiles.TeaFile.Open | teafile.go:120-162 | the header is read, then checked: a decoding error fails, a missing item section panics, and opening succeeds exactly when the record type agrees |
| TeaFiles.TeaFile.OpenRead | teafile.go:120-139 | as `Open`, in read mode, with the cursor at the item start |
| TeaFiles.TeaFile.OpenWrite | teafile.go:141-162 | as `Open`, in write mode, with the cursor at the end of the file |
| TeaFiles.TeaFile.Read | teafile.go:192-207 | refused in write mode; a missing record type or item section panics; otherwise reads `ItemSize` bytes at the cursor as `ReadAt` states |
| TeaFiles.TeaFile.Write | teafile.go:209-233 | refused in read mode, without an item section and for another record type; otherwise the record's bytes go at the cursor, which for a file opened for writing means appended |
| TeaFiles.TeaFile.SeekItem | teafile.go:235-241 | refused in write mode; the cursor moves to `ItemStart + idx * ItemSize`, and a negative target is an invalid seek that leaves it |
| TeaFiles.TeaFile.OpenReadableMapping | teafile.go:164-190 | refused in write mode; a negative item start fails its seek; an empty item region fails with "no data"; otherwise it calls `Open` as written: an empty file gives the empty reader, every field zero (no data, `ItemCount` 0), a region past the end fails, a negative size fails `mmap`, a zero item size panics, and otherwise the reader maps `size` bytes from the start of the file |
| TeaFiles.CreatedHeaderReadsBack | teafile.go:48-118 | the header region `Create` writes reads back with `readHeader` as the same header and all four sections, with the cursor at the item start, exactly when the name-value section is absent or its `Size` is exact; otherwise `readHeader` fails with a size mismatch |
| TeaFiles.ConfiguredReadable | teafile.go:48-118 | sections the options set, in a region below 2^31 bytes, read back as themselves |
| TeaFiles.MappingCountsRecords | teafile.go:173-188 | while the item end is 0, a file of `n` whole records after its header region maps `n` items |
| TeaFiles.SeekAgreesWithMapping | teafile.go:235-241 | `SeekItem(idx)` followed by `Read` returns the bytes the corrected mapping shows for item `idx`, and that item lies inside the mapping |
| TeaFiles.RecordsReadBack | teafile_test.go:41-48 | records appended after the header region read back one by one, record `i` at `i` strides past the region's end; within int64 range that position is `ItemOffset`, the target of `SeekItem(i)` when the region is `ItemStart` long |

## Left out

- Utils.WriteText / Text: strings of 2^31 bytes or more, whose int32 length prefix (`int32(len(bytes))`) would wrap, are not modelled; `Text` is bounded below 2^31 bytes.
- Operating-system calls (`os.Create`, `os.Open`, `os.OpenFile`, `Stat`, `Seek` as a call, `File.Close`, `TeaFile.Close`, the file name): the file is its bytes and a cursor, and none of them can fail in the model.
- Failing writes: the model's writes always succeed, so the `if err != nil` exits after each `binary.Write` and each `writeText` are not modelled.
- Native byte-order detection through `unsafe`: the byte order is fixed to little-endian.
- Reflection and the `unsafe` slice built over a record's memory: a record is its type and its `ItemSize` bytes. `Read` returns bytes, not a `reflect.Value`.
- TeaFiles.TeaFile.Read: requires a non-negative `ItemSize`, where Go would build a slice of negative length. `OpenRead` does not establish it, because `checkDataType` never compares `ItemSize` with the record type's size.
- TeaFiles.TeaFile.Write: requires the record to be `ItemSize` bytes long, which is what Go's `unsafe` slice assumes. `OpenWrite` does not establish it either, for the same reason.
- TeaFiles.LayoutFor: an item start of 2^31 or more is refused with an error. In Go, the int32 `currOffset` of `writeHeader` would wrap and its padding loop would not end.
- TeaFiles.TeaFile.OpenReadableMapping: requires a file shorter than 2^63 bytes, so that its size fits the int64 `Stat` returns.
- TeaFiles.SeekAgreesWithMapping: stated for the corrected mapping of `OpenCovering`; on the mapping `OpenReadableMapping` builds, the last items are not mapped (see the finding on `mmap.Open`).
- `syscall.Mmap`, `syscall.Munmap` and `runtime.SetFinalizer`: the mapping is the bytes it shows, and the result of `Munmap` is a parameter of `Close`.
- MMap.OpenMapping: the guards for a negative file size and a size that does not fit `int` cannot fire on a byte sequence on a 64-bit platform, so they are not modelled.
- MMap.MMapReader.GetItem: the address is an unbounded offset from the start of the mapping; the wrap-around of `uintptr` is not modelled.
- MMap.MappedBytes: the mapping is modelled byte-exact, as the `size` bytes requested, not rounded up to pages. Reading through the raw pointer past the request but within the last page sees the file's bytes; `PageRounded` states the rounding, and the finding's witness is chosen so that the request is a whole page.
- Float64 and UUID values: they are kept as their 8 and 16 raw bytes. `uuid.FromBytes` cannot fail on 16 bytes, so its error path is absent.
- Name-value values of other Go types: `WithNameValues` takes `map[string]interface{}`, while the model's `Value` holds only the five types that have a tag. Any other type is written with tag 0, and then `binary.Write` fails on its payload (an `int`), or the payload is written and `readHeader` rejects tag 0 (a `bool`), or `reflect.TypeOf(nil).Size()` panics in `Size` (a nil value). None of these paths is modelled.
- The default sections (`defaultNameValueSection`, `defaultTimeSection`, `defaultContentDescriptionSection`): nothing in the modelled code calls them.
- Go's map iteration order: it is a ghost parameter, and every property holds for every order.

Two behaviours of the code that are easy to miss:

- `Read` uses `File.Read`, not `io.ReadFull`. A trailing partial record is returned without an error, zero-filled, and only a read at the very end of the file reports the end.
- `Create` and `writeHeader` use the name-value section's `Size` as written, both for the item start and for the size the frame announces. The region they write reads back only when that size is exact (see the first finding).

## Findings

| source | as written | input that shows it | evidently intended | confidence | as-written member | corrected member |
|---|---|---|---|---|---|---|
| sections.go:175-190 | `NameValueSection.Size` counts 1 byte for the count, 1 per name length, 1 per tag and `reflect.TypeOf(v).Size()` per value, while `Write` emits 4, 4, 4 and the payload. `writeHeader` announces this size, and `readHeader` rejects the section whenever it differs from the length written. That is so for every map without text values (`3 + 6·n` bytes short, the empty map included), and for most others; a text's 16-byte string header can make up for it, as in `{"x": "abc"}` (20 and 20) | `{"px": int32 2}`: `Size` is 9 and `Write` emits 18 bytes. The test's `{"decimals": int32 2, "url": "www.acme.com"}` is announced as 36 bytes and written in 51 | `Size` equals the number of bytes `Write` emits, so that `readHeader` reads back what `writeHeader` wrote | not executed | NameValueSections.NameValueSize, NameValueSections.DeclaredSizeExample, Headers.AsWrittenNameValueFrameRejected, Headers.HeaderRejectsInexactSize, TeaFiles.CreatedHeaderReadsBack | NameValueSections.NameValueEncodedSize |
| mmap/mmap.go:64-69 | `Open` maps `size` bytes from file offset 0 but points item 0 at `offset`, so the last items lie past the `size` bytes requested of `mmap`, and fault once they lie past the last mapped page | with 4096-byte pages, a 4136-byte file with 512 items of 8 bytes from offset 40: `size` is 4096, one page is mapped, and items 507..511 (file bytes 4096..4136) lie outside it | the mapping covers the items: `offset + size` bytes from the start (or `size` bytes from `offset`) | not executed | MMap.Open, TeaFiles.TeaFile.OpenReadableMapping, MMap.AsWrittenExample, MMap.AsWrittenLastItemUnmapped | MMap.OpenCovering, MMap.CoveringItemsMapped |

The operations themselves follow the code as written: `Create`, `writeHeader` and
`OpenReadableMapping` use `Size` and `Open` as the source defines them. The corrected
members state what the intended code would guarantee.
