/** A tea file: the `TeaFile` object of the source with its open file replaced by the
    file's bytes and a cursor. `Create` lays out and writes the header region,
    `OpenRead` and `OpenWrite` read it back, and `Read`, `Write`, `SeekItem` and
    `OpenReadableMapping` work on the item region behind it. */
module TeaFiles {
  import opened Errors
  import opened Binary
  import opened Utils
  import opened Constants
  import opened Sections
  import opened NameValueSections
  import opened Schema
  import opened Configs
  import opened Headers
  import opened MMap

  /** `os.O_RDONLY` or `os.O_WRONLY`. */
  datatype Mode = ReadOnly | WriteOnly

  /** A value handed to `Write`: its type, and the bytes of its memory. */
  datatype Record = Record(typ: RecordType, bytes: seq<byte>)

  // ---------------------------------------------------------------------------------
  // The file

  /** `os.File.Write` at the cursor: the bytes replace what is there, a file that ends
      before the cursor is first filled with zeros, and everything else is kept. */
  function WriteAt(file: seq<byte>, pos: nat, bs: seq<byte>): (r: seq<byte>)
    ensures |r| == if pos + |bs| > |file| then pos + |bs| else |file|
    ensures r[pos..pos + |bs|] == bs
    ensures pos <= |file| ==> r[..pos] == file[..pos]
    ensures pos + |bs| <= |file| ==> r[pos + |bs|..] == file[pos + |bs|..]
    ensures pos >= |file| ==> r == file + Zeros(pos - |file|) + bs
  {
    if pos <= |file| then
      file[..pos] + bs + (if pos + |bs| < |file| then file[pos + |bs|..] else [])
    else
      file + Zeros(pos - |file|) + bs
  }

  /** `os.File.Read` at the cursor into a zeroed buffer of `length` bytes: it fills the
      buffer with what is left of the file, up to `length` bytes, and the rest of the
      buffer stays zero; with nothing left to read and a buffer that is not empty it
      reports the end of the file. The result is the buffer and the new cursor. */
  function ReadAt(file: seq<byte>, pos: nat, length: nat): (r: Result<(seq<byte>, nat)>)
    ensures r.Err? <==> length > 0 && pos >= |file|
    ensures r.Err? ==> r.error == ShortRead
    ensures r.Ok? ==> |r.value.0| == length
    ensures r.Ok? ==> forall j :: 0 <= j < length ==> r.value.0[j] == if pos + j < |file| then file[pos + j] else 0
    ensures r.Ok? && pos + length <= |file| ==> r.value == (file[pos..pos + length], pos + length)
    ensures r.Ok? && pos + length > |file| && length > 0 ==> r.value.1 == |file|
  {
    if pos + length <= |file| then Ok((file[pos..pos + length], pos + length))
    else if length == 0 then Ok(([], pos))
    else if pos >= |file| then Err(ShortRead)
    else Ok((file[pos..] + Zeros(pos + length - |file|), |file|))
  }

  // ---------------------------------------------------------------------------------
  // Layout

  /** Where `Create` puts the item region: past the header and 8 bytes plus the `Size`
      of each present section, padded by `8 - x % 8`, so always on a multiple of 8 and
      with 1 to 8 bytes of padding. */
  function ItemStartFor(secs: FileSections, order: seq<Text>): (s: int)
    requires OrderFor(secs, order)
    ensures s % 8 == 0
    ensures HeaderSize + AnnouncedLength(secs, order) < s <= HeaderSize + AnnouncedLength(secs, order) + 8
  {
    var end := HeaderSize + AnnouncedLength(secs, order);
    end + Padding(end)
  }

  /** When every section's `Size` is its payload's length, the item start lies 1 to 8
      bytes past the end of the frames written, as `writeHeader`'s padding needs. */
  lemma ItemStartPastFrames(secs: FileSections, order: seq<Text>)
    requires OrderFor(secs, order) && SizesExact(secs, order)
    ensures HeaderSize + |SectionsBytes(secs, order)| < ItemStartFor(secs, order) <= HeaderSize + |SectionsBytes(secs, order)| + 8
  {
    SectionsBytesAnnounced(secs, order);
  }

  /** The header `Create` writes: the magic value, the item start, an item end of 0 (the
      file grows without it), and the number of present sections. */
  function LayoutHeader(secs: FileSections, order: seq<Text>): (h: Header)
    requires OrderFor(secs, order)
    requires ItemStartFor(secs, order) < 0x8000_0000
    ensures h.magicValue == MagicValue && h.itemEnd == 0
    ensures h.itemStart as int == ItemStartFor(secs, order)
    ensures h.sectionCount as int == |PresentKinds(secs)|
  {
    Header(MagicValue, ItemStartFor(secs, order), 0, |PresentKinds(secs)|)
  }

  /** The byte of the file where `SeekItem(idx)` puts the cursor: `ItemStart + idx *
      ItemSize` in int64 arithmetic, which is exact when nothing overflows. */
  function ItemOffset(itemStart: int64, itemSize: int32, idx: int64): (t: int64)
    ensures -0x8000_0000_0000_0000 <= idx * itemSize < 0x8000_0000_0000_0000 &&
            -0x8000_0000_0000_0000 <= itemStart + idx * itemSize < 0x8000_0000_0000_0000 ==>
      t == itemStart + idx * itemSize
  {
    WrapInt64(itemStart + WrapInt64(idx * itemSize))
  }

  /** The size of the item region `OpenReadableMapping` maps: up to the end of the file
      while the item end is 0, and up to the item end otherwise. */
  function MappingSize(h: Header, fileSize: int64): (size: int64)
    ensures h.itemEnd == 0 && 0 <= h.itemStart <= fileSize ==> size == fileSize - h.itemStart
    ensures h.itemEnd != 0 && 0 <= h.itemStart <= h.itemEnd ==> size == h.itemEnd - h.itemStart
  {
    if h.itemEnd == 0 then WrapInt64(fileSize - h.itemStart) else WrapInt64(h.itemEnd - h.itemStart)
  }

  /** The `if` blocks of `writeHeader`: for each present section, in the order item,
      content description, name-value, time, its ID, its `Size` as int32 and its
      payload. `order` is the order in which the name-value map was written, and `size`
      what the blocks add to the running offset: 8 plus the `Size` per section, not the
      length of what they write. */
  method WriteFrames(secs: FileSections) returns (frames: seq<byte>, size: int, ghost order: seq<Text>)
    ensures OrderFor(secs, order)
    ensures frames == SectionsBytes(secs, order) && size == AnnouncedLength(secs, order)
  {
    var itemFrame: seq<byte> := [];
    var itemSize := 0;
    if secs.item.Some? {
      var sectionSize := ItemSectionSize(secs.item.value);
      var payload := WriteItemSection(secs.item.value);
      itemFrame := EncodeInt32(ItemSectionId) + EncodeInt32(WrapInt32(sectionSize)) + payload;
      itemSize := 8 + sectionSize;
    }
    var cdFrame: seq<byte> := [];
    var cdSize := 0;
    if secs.contentDescription.Some? {
      var sectionSize := ContentDescriptionSize(secs.contentDescription.value);
      var payload := WriteContentDescription(secs.contentDescription.value);
      cdFrame := EncodeInt32(ContentDescriptionSectionId) + EncodeInt32(WrapInt32(sectionSize)) + payload;
      cdSize := 8 + sectionSize;
    }
    var nvFrame: seq<byte> := [];
    var nvSize := 0;
    order := [];
    if secs.nameValues.Some? {
      var sectionSize := NameValueSize(secs.nameValues.value);
      var payload;
      payload, order := WriteNameValueSection(secs.nameValues.value);
      nvFrame := EncodeInt32(NameValueSectionId) + EncodeInt32(WrapInt32(sectionSize)) + payload;
      nvSize := 8 + sectionSize;
    }
    var timeFrame: seq<byte> := [];
    var timeSize := 0;
    if secs.time.Some? {
      var sectionSize := TimeSectionSize(secs.time.value);
      var payload := WriteTimeSection(secs.time.value);
      timeFrame := EncodeInt32(TimeSectionId) + EncodeInt32(WrapInt32(sectionSize)) + payload;
      timeSize := 8 + sectionSize;
    }
    BlocksAreFrames(secs, order, itemFrame, cdFrame, nvFrame, timeFrame, itemSize, cdSize, nvSize, timeSize);
    size := itemSize + cdSize + nvSize + timeSize;
    frames := itemFrame + cdFrame + nvFrame + timeFrame;
  }

  /** The four blocks of `writeHeader`, each the frame of its section with the section's
      `Size` announced, or nothing for an absent section, make up the frames of the
      present sections; what they add to the running offset is the announced length. */
  lemma BlocksAreFrames(secs: FileSections, order: seq<Text>, a: seq<byte>, b: seq<byte>, c: seq<byte>, d: seq<byte>,
                        sa: int, sb: int, sc: int, sd: int)
    requires OrderFor(secs, order)
    requires secs.item.Some? ==>
      var p := ItemSectionBytes(secs.item.value); a == Frame(ItemSectionId, WrapInt32(|p|), p) && sa == 8 + |p|
    requires secs.contentDescription.Some? ==>
      var p := WriteContentDescription(secs.contentDescription.value);
      b == Frame(ContentDescriptionSectionId, WrapInt32(|p|), p) && sb == 8 + |p|
    requires secs.nameValues.Some? ==>
      var n := 1 + SumOver(Declared, secs.nameValues.value, order);
      c == Frame(NameValueSectionId, WrapInt32(n), NameValueBytes(secs.nameValues.value, order)) && sc == 8 + n
    requires secs.time.Some? ==>
      var p := TimeSectionBytes(secs.time.value); d == Frame(TimeSectionId, WrapInt32(|p|), p) && sd == 8 + |p|
    requires secs.item.None? ==> a == [] && sa == 0
    requires secs.contentDescription.None? ==> b == [] && sb == 0
    requires secs.nameValues.None? ==> c == [] && sc == 0
    requires secs.time.None? ==> d == [] && sd == 0
    ensures a + b + c + d == SectionsBytes(secs, order)
    ensures sa + sb + sc + sd == AnnouncedLength(secs, order)
  {
    assert a == FrameIfPresent(ItemKind, secs, order) && sa == AnnouncedIfPresent(ItemKind, secs, order);
    assert b == FrameIfPresent(ContentDescriptionKind, secs, order) && sb == AnnouncedIfPresent(ContentDescriptionKind, secs, order);
    assert c == FrameIfPresent(NameValueKind, secs, order) && sc == AnnouncedIfPresent(NameValueKind, secs, order);
    assert d == FrameIfPresent(TimeKind, secs, order) && sd == AnnouncedIfPresent(TimeKind, secs, order);
    SectionsBytesInOrder(secs, order);
  }

  /** `writeHeader`: the header, the frames, then zero bytes until the running offset,
      which counts the sizes the frames announce, reaches the item start. The running
      offset and each announced size are int32s in the source; the bound on the item
      start keeps them exact. A failing write is not modelled. */
  method HeaderRegionBytes(h: Header, secs: FileSections) returns (out: seq<byte>, ghost order: seq<Text>)
    requires h.itemStart < 0x8000_0000
    requires forall o :: OrderFor(secs, o) ==> HeaderSize + AnnouncedLength(secs, o) <= h.itemStart
    ensures OrderFor(secs, order)
    ensures out == HeaderRegion(h, secs, order)
  {
    var currOffset: int := 0;
    out := HeaderBytes(h);
    currOffset := currOffset + HeaderSize;
    var frames, size;
    frames, size, order := WriteFrames(secs);
    ghost var head := out;
    out := out + frames;
    currOffset := currOffset + size;
    ghost var pad: nat := 0;
    while currOffset != h.itemStart as int
      invariant HeaderSize + size <= currOffset <= h.itemStart
      invariant pad == currOffset - HeaderSize - size
      invariant out == head + frames + Zeros(pad)
      decreases h.itemStart - currOffset
    {
      PadStep(head + frames, pad);
      out := out + [0];
      currOffset := currOffset + 1;
      pad := pad + 1;
    }
  }

  /** The `if` blocks of `Create`: per present section, in the order item, name-value,
      time, content description, one more section and 4 + 4 bytes plus its `Size`, the
      name-value section's as written. This is the length of the frames exactly when
      every `Size` is the length of its payload. */
  method SectionsSize(secs: FileSections) returns (sectionCount: int, size: int)
    ensures sectionCount == |PresentKinds(secs)|
    ensures forall o :: OrderFor(secs, o) ==> size == AnnouncedLength(secs, o)
    ensures forall o :: OrderFor(secs, o) ==> (size == |SectionsBytes(secs, o)| <==> SizesExact(secs, o))
  {
    sectionCount, size := 0, 0;
    ghost var itemPart, nvPart, timePart, cdPart := 0, 0, 0, 0;
    if secs.item.Some? {
      sectionCount := sectionCount + 1;
      size := size + 4;
      size := size + 4;
      var itemSize := ItemSectionSize(secs.item.value);
      size := size + itemSize;
      itemPart := 8 + itemSize;
    }
    if secs.nameValues.Some? {
      sectionCount := sectionCount + 1;
      size := size + 4;
      size := size + 4;
      var nameValueSize := NameValueSize(secs.nameValues.value);
      size := size + nameValueSize;
      nvPart := 8 + nameValueSize;
    }
    if secs.time.Some? {
      sectionCount := sectionCount + 1;
      size := size + 4;
      size := size + 4;
      size := size + TimeSectionSize(secs.time.value);
      timePart := 8 + TimeSectionSize(secs.time.value);
    }
    if secs.contentDescription.Some? {
      sectionCount := sectionCount + 1;
      size := size + 4;
      size := size + 4;
      size := size + ContentDescriptionSize(secs.contentDescription.value);
      cdPart := 8 + ContentDescriptionSize(secs.contentDescription.value);
    }
    assert size == itemPart + nvPart + timePart + cdPart;
    forall o | OrderFor(secs, o)
      ensures size == AnnouncedLength(secs, o)
      ensures size == |SectionsBytes(secs, o)| <==> SizesExact(secs, o)
    {
      assert itemPart == AnnouncedIfPresent(ItemKind, secs, o);
      assert nvPart == AnnouncedIfPresent(NameValueKind, secs, o);
      assert timePart == AnnouncedIfPresent(TimeKind, secs, o);
      assert cdPart == AnnouncedIfPresent(ContentDescriptionKind, secs, o);
      SectionsBytesAnnounced(secs, o);
    }
    PresentKindsCount(secs);
  }

  /** The layout part of `Create`: the record type checked against the item section when
      there is one (a missing record type panics), then 32 header bytes, 8 frame bytes
      plus the section's `Size` per present section, and the padding to a multiple of 8.
      An item start of 2^31 or more is refused. */
  method LayoutFor(st: Settings) returns (r: Result<Header>)
    ensures st.secs.item.Some? && st.dataType.None? ==> r == Err(Panic(NilDereference))
    ensures st.secs.item.Some? && st.dataType.Some? && !Agrees(st.dataType.value, st.secs.item.value) ==> r.Err?
    ensures r.Err? && (st.secs.item.None? || (st.dataType.Some? && Agrees(st.dataType.value, st.secs.item.value))) ==>
      r == Err(LayoutTooLarge) && forall o :: OrderFor(st.secs, o) ==> ItemStartFor(st.secs, o) >= 0x8000_0000
    ensures r.Ok? ==> st.secs.item.None? || (st.dataType.Some? && Agrees(st.dataType.value, st.secs.item.value))
    ensures r.Ok? ==> 0 <= r.value.itemStart < 0x8000_0000
    ensures r.Ok? ==> forall o :: OrderFor(st.secs, o) ==>
      ItemStartFor(st.secs, o) < 0x8000_0000 && r.value == LayoutHeader(st.secs, o)
  {
    var secs := st.secs;
    if secs.item.Some? {
      if st.dataType.None? {
        return Err(Panic(NilDereference));
      }
      var check;
      ghost var at;
      check, at := CheckDataType(st.dataType.value, secs.item);
      if check.Fail? {
        return Err(check.error);
      }
    }
    var sectionCount, size := SectionsSize(secs);
    var itemStart: int := HeaderSize + size;
    var paddingBytes := 8 - itemStart % 8;
    itemStart := itemStart + paddingBytes;
    PaddedItemStart(secs, size, itemStart);
    if itemStart >= 0x8000_0000 {
      return Err(LayoutTooLarge);
    }
    r := Ok(Header(MagicValue, itemStart, 0, sectionCount));
  }

  // ---------------------------------------------------------------------------------
  // The object

  class TeaFile {
    var mode: Mode
    var dataType: Option<RecordType>
    var header: Header
    var item: Option<ItemSection>
    var contentDescription: Option<ContentDescriptionSection>
    var nameValues: Option<NameValues>
    var time: Option<TimeSection>
    /** The bytes of the file, and the file offset of the next read or write. */
    var file: seq<byte>
    var pos: nat

    function Sections(): FileSections
      reads this
    {
      FileSections(item, contentDescription, nameValues, time)
    }

    /** The record type and the sections, as the options set them. */
    function Options(): Settings
      reads this
    {
      Settings(dataType, Sections())
    }

    /** What the opening operations establish: a file opened for writing is written at its
        end, and one opened for reading has a record type and an item section. */
    ghost predicate Valid()
      reads this
    {
      && (mode == WriteOnly ==> pos == |file|)
      && (mode == ReadOnly ==> item.Some? && dataType.Some?)
    }

    /** `&TeaFile{mode: ..., file: f, dataType: ...}`: all else zero. */
    constructor (mode: Mode, dataType: Option<RecordType>, file: seq<byte>)
      ensures this.mode == mode && this.dataType == dataType && this.file == file && pos == 0
      ensures header == Header(0, 0, 0, 0) && Sections() == NoSections
    {
      this.mode, this.dataType, this.file, pos := mode, dataType, file, 0;
      header := Header(0, 0, 0, 0);
      item, contentDescription, nameValues, time := None, None, None, None;
    }

    // -------------------------------------------------------------------------------
    // Options

    /** A `TeaFileConfig` closure run on this object. */
    method Apply(c: TeaFileConfig) returns (r: Outcome)
      modifies this
      ensures ConfigStep(old(Options()), c).Ok? ==> r == Pass && Options() == ConfigStep(old(Options()), c).value
      ensures ConfigStep(old(Options()), c).Err? ==> r == Fail(ConfigStep(old(Options()), c).error)
      ensures mode == old(mode) && header == old(header) && file == old(file) && pos == old(pos)
    {
      match c
      case WithDataType(typ) =>
        dataType := Some(typ);
        var s := DeriveItemSection(typ);
        item := Some(s);
        r := Pass;
      case WithContentDescription(description) =>
        contentDescription := Some(ContentDescriptionSection(description));
        r := Pass;
      case WithNameValues(m) =>
        nameValues := Some(m);
        r := Pass;
      case WithTimeFields(epoch, ticksPerDay, indexes) =>
        var offsets := CollectTimeOffsets(item, indexes);
        if offsets.Err? {
          return Fail(offsets.error);
        }
        time := Some(TimeSectionOf(epoch, ticksPerDay, offsets.value));
        r := Pass;
    }

    // -------------------------------------------------------------------------------
    // Writing the header region

    /** `writeHeader` at the end of the file. `order` is the order in which the
        name-value map was written. */
    method WriteHeader() returns (ghost order: seq<Text>)
      modifies this
      requires pos == |file| && header.itemStart < 0x8000_0000
      requires forall o :: OrderFor(Sections(), o) ==> HeaderSize + AnnouncedLength(Sections(), o) <= header.itemStart
      ensures mode == old(mode) && dataType == old(dataType) && header == old(header) && Sections() == old(Sections())
      ensures OrderFor(Sections(), order)
      ensures file == old(file) + HeaderRegion(header, Sections(), order) && pos == |file|
    {
      var region;
      region, order := HeaderRegionBytes(header, Sections());
      file := file + region;
      pos := |file|;
    }

    /** `Create`: the options in the order given, then the layout and `writeHeader`. */
    static method Create(configs: seq<TeaFileConfig>) returns (r: Result<TeaFile>, ghost order: seq<Text>)
      ensures Configure(Unset, configs).Err? ==> r == Err(Configure(Unset, configs).error)
      ensures Configure(Unset, configs).Ok? && Configure(Unset, configs).value.secs.item.Some? &&
              (Configure(Unset, configs).value.dataType.None? ||
               !Agrees(Configure(Unset, configs).value.dataType.value, Configure(Unset, configs).value.secs.item.value))
              ==> r.Err?
      ensures Configure(Unset, configs).Ok? && r.Err? &&
              (Configure(Unset, configs).value.secs.item.None? ||
               (Configure(Unset, configs).value.dataType.Some? &&
                Agrees(Configure(Unset, configs).value.dataType.value, Configure(Unset, configs).value.secs.item.value)))
              ==>
        r == Err(LayoutTooLarge) &&
        forall o :: OrderFor(Configure(Unset, configs).value.secs, o) ==>
          ItemStartFor(Configure(Unset, configs).value.secs, o) >= 0x8000_0000
      ensures r.Ok? ==>
        && Configure(Unset, configs).Ok?
        && fresh(r.value)
        && r.value.Options() == Configure(Unset, configs).value
        && r.value.mode == WriteOnly && r.value.Valid()
        && OrderFor(r.value.Sections(), order)
        && ItemStartFor(r.value.Sections(), order) < 0x8000_0000
        && r.value.header == LayoutHeader(r.value.Sections(), order)
        && r.value.file == HeaderRegion(r.value.header, r.value.Sections(), order)
        && (|r.value.file| == r.value.header.itemStart as int <==> SizesExact(r.value.Sections(), order))
    {
      order := [];
      var tf := new TeaFile(WriteOnly, None, []);
      for i := 0 to |configs|
        invariant Configure(Unset, configs[..i]) == Ok(tf.Options())
        invariant tf.mode == WriteOnly && tf.file == [] && tf.pos == 0
      {
        assert configs[..i + 1][..i] == configs[..i];
        var o := tf.Apply(configs[i]);
        if o.Fail? {
          ConfigureFailurePersists(Unset, configs, i + 1);
          return Err(o.error), order;
        }
      }
      assert configs[..|configs|] == configs;
      var layout := LayoutFor(tf.Options());
      if layout.Err? {
        return Err(layout.error), order;
      }
      tf.header := layout.value;
      order := tf.WriteHeader();
      r := Ok(tf);
    }

    // -------------------------------------------------------------------------------
    // Reading the header region

    /** The `Read` of the section of kind `k` into its field, at the cursor. */
    method ReadPayload(k: SectionKind) returns (r: Outcome)
      modifies this
      ensures file == old(file) && mode == old(mode) && dataType == old(dataType) && header == old(header)
      ensures ParsePayload(file, old(pos), k, old(Sections())).Err? ==>
        r == Fail(ParsePayload(file, old(pos), k, old(Sections())).error)
      ensures ParsePayload(file, old(pos), k, old(Sections())).Ok? ==>
        r == Pass && (Sections(), pos) == ParsePayload(file, old(pos), k, old(Sections())).value
    {
      match k {
        case ItemKind =>
          var s := ReadItemSection(file, pos);
          if s.Err? {
            return Fail(s.error);
          }
          item, pos := Some(s.value.0), s.value.1;
        case ContentDescriptionKind =>
          var s := ReadContentDescription(file, pos);
          if s.Err? {
            return Fail(s.error);
          }
          contentDescription, pos := Some(s.value.0), s.value.1;
        case NameValueKind =>
          var s := ReadNameValueSection(file, pos);
          if s.Err? {
            return Fail(s.error);
          }
          nameValues, pos := Some(s.value.0), s.value.1;
        case TimeKind =>
          var s := ReadTimeSection(file, pos);
          if s.Err? {
            return Fail(s.error);
          }
          time, pos := Some(s.value.0), s.value.1;
      }
      r := Pass;
    }

    /** One iteration of the section loop of `readHeader`: the ID and the announced size,
        the `Read` of the section the ID selects, and the check that it consumed the
        announced number of bytes. */
    method ReadSection() returns (r: Outcome)
      modifies this
      ensures file == old(file) && mode == old(mode) && dataType == old(dataType) && header == old(header)
      ensures ParseSection(file, old(pos), old(Sections())).Err? ==>
        r == Fail(ParseSection(file, old(pos), old(Sections())).error)
      ensures ParseSection(file, old(pos), old(Sections())).Ok? ==>
        r == Pass && (Sections(), pos) == ParseSection(file, old(pos), old(Sections())).value
    {
      var id := ReadInt32(file, pos);
      if id.Err? {
        return Fail(id.error);
      }
      var sectionId := id.value.0;
      pos := id.value.1;
      var next := ReadInt32(file, pos);
      if next.Err? {
        return Fail(next.error);
      }
      var nextSectionOffset := next.value.0;
      pos := next.value.1;
      var beforeSection: int := pos;
      var kind := SectionKindOf(sectionId);
      if kind.None? {
        return Fail(UnknownSectionId(sectionId));
      }
      var s := ReadPayload(kind.value);
      if s.Fail? {
        return Fail(s.error);
      }
      var afterSection: int := pos;
      if afterSection - beforeSection != nextSectionOffset as int {
        return Fail(SectionSizeMismatch);
      }
      r := Pass;
    }

    /** `readHeader` on a freshly opened file: the header, the magic check, one section
        per count, and the seek to the item start. */
    method ReadHeader() returns (r: Outcome)
      modifies this
      requires pos == 0 && Sections() == NoSections
      ensures ParseHeader(old(file)).Err? ==> r == Fail(ParseHeader(old(file)).error)
      ensures ParseHeader(old(file)).Ok? ==>
        r == Pass && (header, Sections(), pos as int) == ParseHeader(old(file)).value
      ensures file == old(file) && mode == old(mode) && dataType == old(dataType)
    {
      var fields := ParseHeaderFields(file, pos);
      if fields.Err? {
        return Fail(fields.error);
      }
      header, pos := fields.value.0, fields.value.1;
      if header.magicValue != MagicValue {
        return Fail(MagicMismatch);
      }
      var count := header.sectionCount;
      var i: nat := 0;
      while i < count as int
        invariant file == old(file) && mode == old(mode) && dataType == old(dataType)
        invariant header == fields.value.0 && count == header.sectionCount
        invariant ParseSections(file, HeaderSize, 0, count, NoSections) == ParseSections(file, pos, i, count, Sections())
        decreases count as int - i
      {
        LoopStep(file, ParseSection, pos, i, count, Sections());
        var s := ReadSection();
        if s.Fail? {
          return Fail(s.error);
        }
        i := i + 1;
      }
      LoopDone(file, ParseSection, pos, i, count, Sections());
      if header.itemStart < 0 {
        return Fail(InvalidSeek);
      }
      pos := header.itemStart as nat;
      r := Pass;
    }

    /** The part of `OpenRead` and `OpenWrite` after opening: `readHeader`, then
        `checkDataType`. */
    static method Open(file: seq<byte>, dataType: RecordType, mode: Mode) returns (r: Result<TeaFile>)
      ensures ParseHeader(file).Err? ==> r == Err(ParseHeader(file).error)
      ensures ParseHeader(file).Ok? && ParseHeader(file).value.1.item.None? ==> r == Err(Panic(NilDereference))
      ensures ParseHeader(file).Ok? && ParseHeader(file).value.1.item.Some? ==>
        (r.Ok? <==> Agrees(dataType, ParseHeader(file).value.1.item.value))
      ensures r.Ok? ==>
        && fresh(r.value) && ParseHeader(file).Ok?
        && r.value.mode == mode && r.value.dataType == Some(dataType) && r.value.file == file
        && (r.value.header, r.value.Sections(), r.value.pos as int) == ParseHeader(file).value
    {
      var tf := new TeaFile(mode, Some(dataType), file);
      var read := tf.ReadHeader();
      if read.Fail? {
        return Err(read.error);
      }
      var check;
      ghost var at;
      check, at := CheckDataType(dataType, tf.item);
      if check.Fail? {
        return Err(check.error);
      }
      r := Ok(tf);
    }

    /** `OpenRead`: the cursor is left at the item start. */
    static method OpenRead(file: seq<byte>, dataType: RecordType) returns (r: Result<TeaFile>)
      ensures ParseHeader(file).Err? ==> r == Err(ParseHeader(file).error)
      ensures ParseHeader(file).Ok? && ParseHeader(file).value.1.item.None? ==> r == Err(Panic(NilDereference))
      ensures ParseHeader(file).Ok? && ParseHeader(file).value.1.item.Some? ==>
        (r.Ok? <==> Agrees(dataType, ParseHeader(file).value.1.item.value))
      ensures r.Ok? ==>
        && fresh(r.value) && ParseHeader(file).Ok? && r.value.Valid()
        && r.value.mode == ReadOnly && r.value.dataType == Some(dataType) && r.value.file == file
        && (r.value.header, r.value.Sections(), r.value.pos as int) == ParseHeader(file).value
    {
      r := Open(file, dataType, ReadOnly);
    }

    /** `OpenWrite`: as `OpenRead`, then the cursor moves to the end of the file. */
    static method OpenWrite(file: seq<byte>, dataType: RecordType) returns (r: Result<TeaFile>)
      ensures ParseHeader(file).Err? ==> r == Err(ParseHeader(file).error)
      ensures ParseHeader(file).Ok? && ParseHeader(file).value.1.item.None? ==> r == Err(Panic(NilDereference))
      ensures ParseHeader(file).Ok? && ParseHeader(file).value.1.item.Some? ==>
        (r.Ok? <==> Agrees(dataType, ParseHeader(file).value.1.item.value))
      ensures r.Ok? ==>
        && fresh(r.value) && ParseHeader(file).Ok? && r.value.Valid()
        && r.value.mode == WriteOnly && r.value.dataType == Some(dataType) && r.value.file == file
        && (r.value.header, r.value.Sections()) == (ParseHeader(file).value.0, ParseHeader(file).value.1)
        && r.value.pos == |file|
    {
      r := Open(file, dataType, WriteOnly);
      if r.Ok? {
        r.value.pos := |file|;
      }
    }

    // -------------------------------------------------------------------------------
    // The item region

    /** `Read`: one record of `ItemSize` bytes from the cursor, a partial one filled up
        with zeros; refused in write mode. The record type and the item section are
        dereferenced (a nil one panics). */
    method Read() returns (r: Result<seq<byte>>)
      modifies this
      ensures file == old(file) && mode == old(mode) && dataType == old(dataType)
      ensures header == old(header) && Sections() == old(Sections())
      requires mode == ReadOnly && dataType.Some? && item.Some? ==> item.value.info.itemSize >= 0
      ensures mode == WriteOnly ==> r == Err(ReadInWriteMode)
      ensures mode == ReadOnly && (dataType.None? || item.None?) ==> r == Err(Panic(NilDereference))
      ensures mode == ReadOnly && dataType.Some? && item.Some? ==>
        && (ReadAt(file, old(pos), item.value.info.itemSize as nat).Err? ==>
              r == Err(ReadAt(file, old(pos), item.value.info.itemSize as nat).error) && pos == old(pos))
        && (ReadAt(file, old(pos), item.value.info.itemSize as nat).Ok? ==>
              r == Ok(ReadAt(file, old(pos), item.value.info.itemSize as nat).value.0)
              && pos == ReadAt(file, old(pos), item.value.info.itemSize as nat).value.1)
      ensures r.Err? ==> pos == old(pos)
    {
      if mode == WriteOnly {
        return Err(ReadInWriteMode);
      }
      if dataType.None? || item.None? {
        return Err(Panic(NilDereference));
      }
      var length := item.value.info.itemSize as nat;
      var chunk := ReadAt(file, pos, length);
      if chunk.Err? {
        return Err(chunk.error);
      }
      pos := chunk.value.1;
      r := Ok(chunk.value.0);
    }

    /** `Write`: one record at the cursor; refused in read mode, without an item
        section, and for a value of another type. The record's memory is `ItemSize`
        bytes long. */
    method Write(rec: Record) returns (r: Outcome)
      modifies this
      requires mode == WriteOnly && item.Some? && dataType == Some(rec.typ) ==>
        |rec.bytes| == item.value.info.itemSize as int
      ensures mode == ReadOnly ==> r == Fail(WriteInReadMode)
      ensures mode == WriteOnly && item.None? ==> r == Fail(NoItemSection)
      ensures mode == WriteOnly && item.Some? && dataType != Some(rec.typ) ==> r == Fail(RecordTypeMismatch)
      ensures mode == WriteOnly && item.Some? && dataType == Some(rec.typ) ==>
        r == Pass && file == WriteAt(old(file), old(pos), rec.bytes) && pos == old(pos) + |rec.bytes|
      ensures r.Fail? ==> file == old(file) && pos == old(pos)
      ensures old(Valid()) ==> Valid()
      ensures old(Valid()) && r == Pass ==> file == old(file) + rec.bytes
      ensures mode == old(mode) && dataType == old(dataType) && header == old(header) && Sections() == old(Sections())
    {
      if mode == ReadOnly {
        return Fail(WriteInReadMode);
      }
      if item.None? {
        return Fail(NoItemSection);
      }
      if dataType != Some(rec.typ) {
        return Fail(RecordTypeMismatch);
      }
      file := WriteAt(file, pos, rec.bytes);
      pos := pos + |rec.bytes|;
      r := Pass;
    }

    /** `SeekItem`: moves the cursor to item `idx`; refused in write mode, and a
        negative offset is an invalid seek that leaves the cursor where it was. */
    method SeekItem(idx: int64) returns (r: Outcome)
      modifies this
      ensures file == old(file) && mode == old(mode) && dataType == old(dataType)
      ensures header == old(header) && Sections() == old(Sections())
      ensures mode == WriteOnly ==> r == Fail(SeekInWriteMode)
      ensures mode == ReadOnly && item.None? ==> r == Fail(Panic(NilDereference))
      ensures mode == ReadOnly && item.Some? && ItemOffset(header.itemStart, item.value.info.itemSize, idx) < 0 ==>
        r == Fail(InvalidSeek)
      ensures mode == ReadOnly && item.Some? && ItemOffset(header.itemStart, item.value.info.itemSize, idx) >= 0 ==>
        r == Pass && pos == ItemOffset(header.itemStart, item.value.info.itemSize, idx) as int
      ensures r.Fail? ==> pos == old(pos)
    {
      if mode == WriteOnly {
        return Fail(SeekInWriteMode);
      }
      if item.None? {
        return Fail(Panic(NilDereference));
      }
      var target := ItemOffset(header.itemStart, item.value.info.itemSize, idx);
      if target < 0 {
        return Fail(InvalidSeek);
      }
      pos := target as nat;
      r := Pass;
    }

    /** `OpenReadableMapping`: refused in write mode; the seeks to the item start and
        back to 0 (a negative item start is an invalid seek); the size of the item
        region, which must not be 0; then `mmap.Open` of the item region as written,
        which maps `size` bytes from the start of the file. */
    method OpenReadableMapping() returns (r: Result<MMapReader>)
      modifies this
      ensures file == old(file) && mode == old(mode) && dataType == old(dataType)
      ensures header == old(header) && Sections() == old(Sections())
      requires |file| < 0x8000_0000_0000_0000
      ensures mode == WriteOnly ==> r == Err(MapInWriteMode) && pos == old(pos)
      ensures mode == ReadOnly && header.itemStart < 0 ==> r == Err(InvalidSeek) && pos == old(pos)
      ensures mode == ReadOnly && header.itemStart >= 0 ==> pos == 0
      ensures mode == ReadOnly && header.itemStart >= 0 && MappingSize(header, |file|) == 0 ==> r == Err(NoData)
      ensures mode == ReadOnly && header.itemStart >= 0 && MappingSize(header, |file|) != 0 && item.None? ==>
        r == Err(Panic(NilDereference))
      ensures mode == ReadOnly && header.itemStart >= 0 && MappingSize(header, |file|) != 0 && item.Some? ==>
        var size := MappingSize(header, |file|);
        var itemSize := item.value.info.itemSize;
        && (|file| == 0 ==>
              (r.Ok? && r.value.data.None? && r.value.itemCount == 0 && r.value.itemSize == 0 &&
               r.value.mapLength == 0 && r.value.ptr == 0 && r.value.size == 0))
        && (|file| > 0 && WrapInt64(size + header.itemStart) > |file| ==> r == Err(MappingTooLarge))
        && (|file| > 0 && WrapInt64(size + header.itemStart) <= |file| && size < 0 ==> r == Err(MappingFailed))
        && (|file| > 0 && WrapInt64(size + header.itemStart) <= |file| && size > 0 && itemSize == 0 ==>
              r == Err(Panic(DivideByZero)))
        && (|file| > 0 && WrapInt64(size + header.itemStart) <= |file| && size > 0 && itemSize != 0 ==> r.Ok?)
      ensures r.Ok? ==>
        && mode == ReadOnly && item.Some? && header.itemStart >= 0 && MappingSize(header, |file|) != 0
        && fresh(r.value)
        && (|file| > 0 ==> r.value.Opened(file, header.itemStart, MappingSize(header, |file|),
                                          item.value.info.itemSize, MappingSize(header, |file|)))
    {
      if mode == WriteOnly {
        return Err(MapInWriteMode);
      }
      if header.itemStart < 0 {
        return Err(InvalidSeek);
      }
      pos := 0;
      var size := MappingSize(header, |file|);
      if size == 0 {
        return Err(NoData);
      }
      if item.None? {
        return Err(Panic(NilDereference));
      }
      r := MMap.Open(file, header.itemStart, size, item.value.info.itemSize);
    }
  }

  // ---------------------------------------------------------------------------------
  // Properties

  /** The header region `Create` writes for options that did not panic is one
      `readHeader` reads back exactly when the name-value section, if there is one,
      announces its payload's length: then it returns the same header and all four
      kinds of section, with the stream left at the item start; otherwise it fails on
      the name-value frame. Whatever follows the region is never read. */
  lemma CreatedHeaderReadsBack(st: Settings, order: seq<Text>, file: seq<byte>)
    requires Configured(st) && OrderFor(st.secs, order)
    requires ItemStartFor(st.secs, order) < 0x8000_0000
    requires At(file, 0, HeaderRegion(LayoutHeader(st.secs, order), st.secs, order))
    ensures SizesExact(st.secs, order) ==>
      ParseHeader(file) == Ok((LayoutHeader(st.secs, order), st.secs, ItemStartFor(st.secs, order) as nat))
    ensures !SizesExact(st.secs, order) ==> ParseHeader(file) == Err(SectionSizeMismatch)
  {
    ConfiguredReadable(st, order);
    RegionReadsBack(file, LayoutHeader(st.secs, order), st.secs, order);
  }

  /** Sections whose announced sizes stay below 2^31 read back as themselves: the item
      section derived from a record type is canonical, the time section's count is its
      number of offsets, and the name-value map holds fewer than 2^31 names. */
  lemma ConfiguredReadable(st: Settings, order: seq<Text>)
    requires Configured(st) && OrderFor(st.secs, order)
    requires AnnouncedLength(st.secs, order) < 0x8000_0000
    ensures Readable(st.secs)
  {
    var secs := st.secs;
    if secs.time.Some? {
      AnnouncedBound(secs, order, TimeKind);
      var size := TimeSectionSize(secs.time.value);
    }
    if secs.item.Some? {
      var typ := st.dataType.value;
      AnnouncedBound(secs, order, ItemKind);
      FieldsBytesLength(ItemSectionOf(typ).fields);
      DerivedCanonical(typ);
    }
    if secs.nameValues.Some? {
      var m := secs.nameValues.value;
      AnnouncedBound(secs, order, NameValueKind);
      EnumerationSize(order, m);
      SumOverDeclaredAtLeast(m, order);
    }
  }

  /** While the item end is 0, the item region of a file that holds `n` whole records
      after its header region is `n` items long, as `Len` of the mapping counts them. */
  lemma MappingCountsRecords(h: Header, fileSize: int64, itemSize: int64, n: nat)
    requires h.itemEnd == 0 && 0 <= h.itemStart && itemSize > 0
    requires fileSize == h.itemStart + n * itemSize
    ensures MappingSize(h, fileSize) == n * itemSize
    ensures GoDiv64(MappingSize(h, fileSize), itemSize) == n
  {
    MulAtLeast(n, itemSize);
    var size := MappingSize(h, fileSize);
    var q := GoDiv64(size, itemSize);
    DivisionUnique(n, q, itemSize);
  }

  /** The quotient of an exact multiple is unique. */
  lemma DivisionUnique(n: int, q: int, b: int)
    requires b > 0 && 0 <= n * b - q * b < b
    ensures q == n
  {
    MulAdd(n, -q, b);
    var d := n - q;
    if d >= 1 {
      MulAtLeast(b, d);
    } else if d <= -1 {
      MulAtLeast(b, -d);
    }
  }

  /** The item start computed from the size of the frames is the one of the layout,
      whatever the order of the name-value map; it is at least 40. */
  lemma PaddedItemStart(secs: FileSections, size: int, itemStart: int)
    requires forall o :: OrderFor(secs, o) ==> size == AnnouncedLength(secs, o)
    requires itemStart == HeaderSize + size + Padding(HeaderSize + size)
    ensures forall o :: OrderFor(secs, o) ==> ItemStartFor(secs, o) == itemStart
    ensures itemStart > HeaderSize
  {
    var o := OrderExists(secs);
  }

  /** The sections of a file can always be written: some order of the name-value map
      is one `range` may take. */
  lemma OrderExists(secs: FileSections) returns (order: seq<Text>)
    ensures OrderFor(secs, order)
  {
    order := [];
    if secs.nameValues.Some? {
      order := EnumerationExists(secs.nameValues.value);
    }
  }

  /** The length of the frames `writeHeader` writes: 8 bytes plus the payload per
      present section. */
  lemma SectionsBytesLength(secs: FileSections, order: seq<Text>)
    requires OrderFor(secs, order)
    ensures |SectionsBytes(secs, order)| ==
      (if secs.item.Some? then 8 + |ItemSectionBytes(secs.item.value)| else 0)
      + (if secs.contentDescription.Some? then 8 + |WriteContentDescription(secs.contentDescription.value)| else 0)
      + (if secs.nameValues.Some? then 8 + |NameValueBytes(secs.nameValues.value, order)| else 0)
      + (if secs.time.Some? then 8 + |TimeSectionBytes(secs.time.value)| else 0)
  {
    SectionsBytesInOrder(secs, order);
  }

  /** A zero appended to a run of zeros. */
  lemma PadStep(prefix: seq<byte>, k: nat)
    ensures prefix + Zeros(k) + [0] == prefix + Zeros(k + 1)
  {
    assert Zeros(k) + [0] == Zeros(k + 1);
    AppendAssoc(prefix, Zeros(k), [0]);
  }

  /** `SeekItem(idx)` followed by `Read` returns what the corrected mapping shows at
      `GetItem(idx)`: both are the file's bytes of item `idx`. */
  lemma SeekAgreesWithMapping(rd: MMapReader, file: seq<byte>, itemStart: int64, size: int64, itemSize: int32, idx: int64)
    requires 0 <= itemStart && 0 < size && itemStart + size <= |file| < 0x8000_0000_0000_0000
    requires rd.Opened(file, itemStart, size, itemSize, itemStart + size)
    requires itemSize > 0 && 0 <= idx < rd.itemCount
    ensures 0 <= ItemOffset(itemStart, itemSize, idx) && ItemOffset(itemStart, itemSize, idx) + itemSize <= |file|
    ensures ReadAt(file, ItemOffset(itemStart, itemSize, idx) as nat, itemSize as nat).Ok?
    ensures rd.ItemMapped(idx)
    ensures ReadAt(file, ItemOffset(itemStart, itemSize, idx) as nat, itemSize as nat).value.0 == rd.ItemBytes(idx)
  {
    var stride := idx as int * itemSize as int;
    StrideBound(idx as int, rd.itemCount, size, itemSize as int64);
    MulAtLeast(idx as nat, itemSize as int);
    assert 0 <= stride && stride + itemSize <= size;
    assert ItemOffset(itemStart, itemSize, idx) == itemStart + stride;
    CoveringItemsMapped(rd, file, itemStart, size, itemSize as int64, idx as int);
  }

  /** Records appended by `Write` after the header region read back one by one: item `i`
      starts `i` strides past the end of the region, and `Read` there returns exactly the
      bytes of record `i`. When the region is `ItemStart` bytes long and the file fits
      int64, that position is `ItemOffset`, where `SeekItem(i)` puts the cursor. */
  lemma RecordsReadBack(region: seq<byte>, recs: seq<seq<byte>>, itemSize: nat, i: nat)
    requires forall j :: 0 <= j < |recs| ==> |recs[j]| == itemSize
    requires i < |recs|
    ensures ReadAt(region + Concat(recs), |region| + i * itemSize, itemSize) == Ok((recs[i], |region| + i * itemSize + itemSize))
    ensures |region| + |Concat(recs)| < 0x8000_0000_0000_0000 && itemSize < 0x8000_0000 && i < 0x8000_0000_0000_0000 ==>
      ItemOffset(|region| as int64, itemSize as int32, i as int64) == |region| + i * itemSize
  {
    RecordAt(recs, itemSize, i);
    var file := region + Concat(recs);
    var p := |region| + i * itemSize;
    assert file[p..p + itemSize] == Concat(recs)[i * itemSize..i * itemSize + itemSize];
  }

  /** Record `i` of records of one size lies `i` strides into their concatenation. */
  lemma {:induction false} RecordAt(recs: seq<seq<byte>>, itemSize: nat, i: nat)
    requires forall j :: 0 <= j < |recs| ==> |recs[j]| == itemSize
    requires i < |recs|
    ensures i * itemSize + itemSize <= |Concat(recs)|
    ensures Concat(recs)[i * itemSize..i * itemSize + itemSize] == recs[i]
    decreases i
  {
    var rest := Concat(recs[1..]);
    assert Concat(recs) == recs[0] + rest;
    if i == 0 {
      assert Concat(recs)[..itemSize] == recs[0];
    } else {
      RecordAt(recs[1..], itemSize, i - 1);
      MulAdd(i - 1, 1, itemSize);
      assert Concat(recs)[i * itemSize..i * itemSize + itemSize] == rest[(i - 1) * itemSize..(i - 1) * itemSize + itemSize];
    }
  }
}
