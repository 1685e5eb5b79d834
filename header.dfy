/** The header region of a tea file: the 32-byte header, the sections, each framed by
    its ID and its byte size, and the zero padding up to the first item. This module
    states the layout `writeHeader` emits and the decoding `readHeader` performs, as
    functions of the bytes, and proves that the one reads back what the other wrote. */
module Headers {
  import opened Errors
  import opened Binary
  import opened Utils
  import opened Constants
  import opened Sections
  import opened NameValueSections

  /** The magic value; written little-endian it doubles as a byte-order mark. */
  const MagicValue: int64 := 0x0d0e0a0402080500

  /** The size of the header struct: four int64 fields. */
  const HeaderSize: nat := 32

  datatype Header = Header(magicValue: int64, itemStart: int64, itemEnd: int64, sectionCount: int64)

  /** `binary.Write` of the header: its four fields in order. */
  function HeaderBytes(h: Header): (bs: seq<byte>)
    ensures |bs| == HeaderSize
  {
    EncodeInt64(h.magicValue) + EncodeInt64(h.itemStart) + EncodeInt64(h.itemEnd) + EncodeInt64(h.sectionCount)
  }

  /** `binary.Read` of the header: a stream shorter than 32 bytes is an error. */
  function ParseHeaderFields(data: seq<byte>, pos: nat): (r: Result<(Header, nat)>)
    ensures r.Ok? <==> pos + HeaderSize <= |data|
    ensures r.Ok? ==> r.value.1 == pos + HeaderSize && At(data, pos, HeaderBytes(r.value.0))
    ensures r.Err? ==> r.error == ShortRead
  {
    var (magic, p1) :- ReadInt64(data, pos);
    var (start, p2) :- ReadInt64(data, p1);
    var (end, p3) :- ReadInt64(data, p2);
    var (count, p4) :- ReadInt64(data, p3);
    var h := Header(magic, start, end, count);
    AtConcat(data, pos, EncodeInt64(magic), EncodeInt64(start));
    AtConcat(data, pos, EncodeInt64(magic) + EncodeInt64(start), EncodeInt64(end));
    AtConcat(data, pos, EncodeInt64(magic) + EncodeInt64(start) + EncodeInt64(end), EncodeInt64(count));
    Ok((h, p4))
  }

  lemma ParseHeaderFieldsAt(data: seq<byte>, pos: nat, h: Header)
    requires At(data, pos, HeaderBytes(h))
    ensures ParseHeaderFields(data, pos) == Ok((h, pos + HeaderSize))
  {
    var a := EncodeInt64(h.magicValue);
    var b := EncodeInt64(h.itemStart);
    var c := EncodeInt64(h.itemEnd);
    var d := EncodeInt64(h.sectionCount);
    AtConcat(data, pos, a + b + c, d);
    AtConcat(data, pos, a + b, c);
    AtConcat(data, pos, a, b);
    ReadInt64At(data, pos, h.magicValue);
    ReadInt64At(data, pos + 8, h.itemStart);
    ReadInt64At(data, pos + 16, h.itemEnd);
    ReadInt64At(data, pos + 24, h.sectionCount);
  }

  // ---------------------------------------------------------------------------------
  // Sections and their frames

  /** The four optional sections of a file (the source's four optional section fields). */
  datatype FileSections = FileSections(
    item: Option<ItemSection>,
    contentDescription: Option<ContentDescriptionSection>,
    nameValues: Option<NameValues>,
    time: Option<TimeSection>)

  const NoSections := FileSections(None, None, None, None)

  predicate Has(secs: FileSections, k: SectionKind)
  {
    match k
    case ItemKind => secs.item.Some?
    case ContentDescriptionKind => secs.contentDescription.Some?
    case NameValueKind => secs.nameValues.Some?
    case TimeKind => secs.time.Some?
  }

  /** Every kind in `kinds` is present. */
  predicate AllPresent(secs: FileSections, kinds: seq<SectionKind>)
  {
    forall t :: 0 <= t < |kinds| ==> Has(secs, kinds[t])
  }

  /** The kinds of `ks` whose section is present, in the order of `ks`. */
  function PresentAmong(secs: FileSections, ks: seq<SectionKind>): (r: seq<SectionKind>)
    ensures forall k :: k in r <==> k in ks && Has(secs, k)
    ensures AllPresent(secs, r)
    ensures |r| <= |ks|
  {
    if ks == [] then []
    else
      var rest := PresentAmong(secs, ks[1..]);
      if Has(secs, ks[0]) then [ks[0]] + rest else rest
  }

  /** The sections present, in the order `writeHeader` writes them. */
  function PresentKinds(secs: FileSections): (ks: seq<SectionKind>)
    ensures forall k :: k in ks <==> Has(secs, k)
    ensures AllPresent(secs, ks)
    ensures |ks| <= 4
  {
    PresentAmong(secs, [ItemKind, ContentDescriptionKind, NameValueKind, TimeKind])
  }

  /** `order` is the order in which `range` visits the names of the name-value section. */
  ghost predicate OrderFor(secs: FileSections, order: seq<Text>)
  {
    secs.nameValues.Some? ==> IsEnumeration(order, secs.nameValues.value)
  }

  /** The sections whose encodings read back as themselves: a canonical item section,
      a time section whose count is its number of offsets, at most 2^31 - 1 names. */
  ghost predicate Readable(secs: FileSections)
  {
    && (secs.item.Some? ==> CanonicalItemSection(secs.item.value))
    && (secs.time.Some? ==> secs.time.value.count as int == |secs.time.value.offsets|)
    && (secs.nameValues.Some? ==> |secs.nameValues.value| < 0x8000_0000)
  }

  /** The payload of a present section, as its `Write` emits it. */
  function Payload(k: SectionKind, secs: FileSections, order: seq<Text>): seq<byte>
    requires Has(secs, k) && OrderFor(secs, order)
  {
    match k
    case ItemKind => ItemSectionBytes(secs.item.value)
    case ContentDescriptionKind => WriteContentDescription(secs.contentDescription.value)
    case NameValueKind => NameValueBytes(secs.nameValues.value, order)
    case TimeKind => TimeSectionBytes(secs.time.value)
  }

  /** A frame: the section ID, the announced size, then the payload. */
  function Frame(id: int32, declared: int32, payload: seq<byte>): (bs: seq<byte>)
    ensures |bs| == 8 + |payload|
  {
    EncodeInt32(id) + EncodeInt32(declared) + payload
  }

  /** What the `Size` of a present section returns. For the item, content-description
      and time sections that is the length of the payload; `NameValueSection.Size` as
      written counts one unit for the count and, per entry, one for the name's length,
      the name's bytes, one for the tag and the in-memory size of the value. */
  function DeclaredSize(k: SectionKind, secs: FileSections, order: seq<Text>): (n: int)
    requires Has(secs, k) && OrderFor(secs, order)
    ensures n >= 0
    ensures k != NameValueKind ==> n == |Payload(k, secs, order)|
  {
    match k
    case NameValueKind => 1 + SumOver(Declared, secs.nameValues.value, order)
    case _ => |Payload(k, secs, order)|
  }

  /** The frame `writeHeader` writes for a present section: the ID, the section's `Size`
      converted to int32, then the payload its `Write` emits. */
  function FrameOf(k: SectionKind, secs: FileSections, order: seq<Text>): (bs: seq<byte>)
    requires Has(secs, k) && OrderFor(secs, order)
    ensures |bs| == 8 + |Payload(k, secs, order)|
  {
    Frame(SectionId(k), WrapInt32(DeclaredSize(k, secs, order)), Payload(k, secs, order))
  }

  /** The sizes `writeHeader` announces are the lengths of the payloads it writes. Only
      the name-value section's `Size` can differ from its payload's length. */
  ghost predicate SizesExact(secs: FileSections, order: seq<Text>)
    requires OrderFor(secs, order)
  {
    secs.nameValues.Some? ==>
      1 + SumOver(Declared, secs.nameValues.value, order) == |NameValueBytes(secs.nameValues.value, order)|
  }

  /** What `Create` adds to the item start, and `writeHeader` to its running offset, for
      the section of kind `k`: 4 + 4 bytes plus its `Size` if it is present. */
  function AnnouncedIfPresent(k: SectionKind, secs: FileSections, order: seq<Text>): (n: int)
    requires OrderFor(secs, order)
    ensures n >= 0
  {
    if Has(secs, k) then 8 + DeclaredSize(k, secs, order) else 0
  }

  /** What the sections add to the item start in `Create`, in its order: item,
      name-value, time, content description. */
  function AnnouncedLength(secs: FileSections, order: seq<Text>): (n: int)
    requires OrderFor(secs, order)
    ensures n >= 0
  {
    AnnouncedIfPresent(ItemKind, secs, order) + AnnouncedIfPresent(NameValueKind, secs, order)
    + AnnouncedIfPresent(TimeKind, secs, order) + AnnouncedIfPresent(ContentDescriptionKind, secs, order)
  }

  /** The frames of the sections of `kinds`, in order. */
  function FrameList(secs: FileSections, order: seq<Text>, kinds: seq<SectionKind>): (fs: seq<seq<byte>>)
    requires OrderFor(secs, order) && AllPresent(secs, kinds)
    ensures |fs| == |kinds|
  {
    seq(|kinds|, t requires 0 <= t < |kinds| => FrameOf(kinds[t], secs, order))
  }

  /** Byte strings written one after the other. */
  function Concat(fs: seq<seq<byte>>): seq<byte>
  {
    if fs == [] then [] else fs[0] + Concat(fs[1..])
  }

  /** Everything `writeHeader` writes after the header and before the padding. */
  function SectionsBytes(secs: FileSections, order: seq<Text>): seq<byte>
    requires OrderFor(secs, order)
  {
    Concat(FrameList(secs, order, PresentKinds(secs)))
  }

  /** The padding `Create` adds: `8 - x % 8`, so between 1 and 8 bytes, never 0. */
  function Padding(x: int): (n: int)
    ensures 1 <= n <= 8 && (x + n) % 8 == 0
  {
    8 - x % 8
  }

  /** The whole header region `writeHeader` writes for a header whose item start lies at
      or past the announced end of the sections: the header, the frames, then one zero
      byte per unit the running offset, which counts the announced sizes, still lacks
      of the item start. The region ends at the item start exactly when every section
      announces its payload's length; otherwise the frames written end elsewhere than
      the offset counted and the region is longer or shorter than the item start. */
  function HeaderRegion(h: Header, secs: FileSections, order: seq<Text>): (bs: seq<byte>)
    requires OrderFor(secs, order)
    requires HeaderSize + AnnouncedLength(secs, order) <= h.itemStart
    ensures |bs| == h.itemStart + |SectionsBytes(secs, order)| - AnnouncedLength(secs, order)
    ensures |bs| == h.itemStart <==> SizesExact(secs, order)
  {
    SectionsBytesAnnounced(secs, order);
    HeaderBytes(h) + SectionsBytes(secs, order) + Zeros(h.itemStart - HeaderSize - AnnouncedLength(secs, order))
  }

  /** The frames written are as long as announced except for the name-value payload,
      which is longer or shorter by the difference between its length and its `Size`. */
  lemma SectionsBytesAnnounced(secs: FileSections, order: seq<Text>)
    requires OrderFor(secs, order)
    ensures |SectionsBytes(secs, order)| == AnnouncedLength(secs, order) +
      (if secs.nameValues.Some? then
         |NameValueBytes(secs.nameValues.value, order)| - (1 + SumOver(Declared, secs.nameValues.value, order))
       else 0)
    ensures |SectionsBytes(secs, order)| == AnnouncedLength(secs, order) <==> SizesExact(secs, order)
  {
    SectionsBytesInOrder(secs, order);
    FrameIfPresentLength(ItemKind, secs, order);
    FrameIfPresentLength(ContentDescriptionKind, secs, order);
    FrameIfPresentLength(NameValueKind, secs, order);
    FrameIfPresentLength(TimeKind, secs, order);
  }

  /** A frame is as long as announced, except the name-value frame. */
  lemma FrameIfPresentLength(k: SectionKind, secs: FileSections, order: seq<Text>)
    requires OrderFor(secs, order)
    ensures k != NameValueKind ==> |FrameIfPresent(k, secs, order)| == AnnouncedIfPresent(k, secs, order)
    ensures k == NameValueKind && secs.nameValues.Some? ==>
      |FrameIfPresent(k, secs, order)| == AnnouncedIfPresent(k, secs, order) +
        |NameValueBytes(secs.nameValues.value, order)| - (1 + SumOver(Declared, secs.nameValues.value, order))
    ensures k == NameValueKind && secs.nameValues.None? ==> |FrameIfPresent(k, secs, order)| == 0
  {
  }

  // ---------------------------------------------------------------------------------
  // Decoding

  /** A decoded section stored into `acc` by `store`, or the decoder's error. */
  function Store<T>(r: Result<(T, nat)>, store: T -> FileSections): (s: Result<(FileSections, nat)>)
    ensures r.Ok? ==> s == Ok((store(r.value.0), r.value.1))
    ensures r.Err? ==> s == Err(r.error)
  {
    if r.Err? then Err(r.error) else Ok((store(r.value.0), r.value.1))
  }

  /** The section a kind selects, decoded by its `Read` and stored in `acc`. */
  function ParsePayload(data: seq<byte>, pos: nat, k: SectionKind, acc: FileSections): Result<(FileSections, nat)>
  {
    match k
    case ItemKind => Store(ParseItemSection(data, pos), (s: ItemSection) => acc.(item := Some(s)))
    case ContentDescriptionKind =>
      Store(ReadContentDescription(data, pos), (s: ContentDescriptionSection) => acc.(contentDescription := Some(s)))
    case NameValueKind => Store(ParseNameValueSection(data, pos), (m: NameValues) => acc.(nameValues := Some(m)))
    case TimeKind => Store(ParseTimeSection(data, pos), (t: TimeSection) => acc.(time := Some(t)))
  }

  /** One iteration of the section loop of `readHeader`: the ID and the announced size,
      then the decoder the ID selects; an unknown ID is an error, and so is a decoder
      that consumes other than the announced number of bytes. */
  function ParseSection(data: seq<byte>, pos: nat, acc: FileSections): Result<(FileSections, nat)>
  {
    var (id, p1) :- ReadInt32(data, pos);
    var (next, p2) :- ReadInt32(data, p1);
    match SectionKindOf(id)
    case None => Err(UnknownSectionId(id))
    case Some(k) =>
      var (secs, p3) :- ParsePayload(data, p2, k, acc);
      if p3 - p2 != next then Err(SectionSizeMismatch) else Ok((secs, p3))
  }

  /** The section loop of `readHeader` from iteration `i` on, with `step` as its body:
      it stops at the first error, and a negative count runs no iteration. */
  function Loop(data: seq<byte>, step: (seq<byte>, nat, FileSections) -> Result<(FileSections, nat)>,
                pos: nat, i: nat, count: int64, acc: FileSections): Result<(FileSections, nat)>
    decreases Max0(count - i)
  {
    if i >= count then Ok((acc, pos))
    else
      var (secs, p) :- step(data, pos, acc);
      Loop(data, step, p, i + 1, count, secs)
  }

  /** The section loop of `readHeader` from iteration `i` on. */
  function ParseSections(data: seq<byte>, pos: nat, i: nat, count: int64, acc: FileSections): Result<(FileSections, nat)>
  {
    Loop(data, ParseSection, pos, i, count, acc)
  }

  /** `readHeader`: the header, the magic check, the sections, then the seek to the item
      start, which fails if it is negative. The result is the header, the sections and
      the position the stream is left at. */
  function ParseHeader(data: seq<byte>): Result<(Header, FileSections, nat)>
  {
    var (h, p) :- ParseHeaderFields(data, 0);
    if h.magicValue != MagicValue then Err(MagicMismatch)
    else
      var (secs, _) :- ParseSections(data, p, 0, h.sectionCount, NoSections);
      if h.itemStart < 0 then Err(InvalidSeek) else Ok((h, secs, h.itemStart as nat))
  }

  /** `readHeader` fails on a wrong magic value, whatever follows. */
  lemma ParseHeaderMagic(data: seq<byte>)
    requires |data| >= HeaderSize && DecodeInt64(data[..8]) != MagicValue
    ensures ParseHeader(data) == Err(MagicMismatch)
  {
    ParseHeaderFieldsAt(data, 0, ParseHeaderFields(data, 0).value.0);
    var h := ParseHeaderFields(data, 0).value.0;
    AtConcat(data, 0, EncodeInt64(h.magicValue), EncodeInt64(h.itemStart) + EncodeInt64(h.itemEnd) + EncodeInt64(h.sectionCount));
    assert At(data, 0, EncodeInt64(h.magicValue));
    AtSlice(data, 0, EncodeInt64(h.magicValue));
    Int64RoundTrip(h.magicValue);
  }

  // ---------------------------------------------------------------------------------
  // Round trip

  /** Storing the section of kind `k` of `secs` into `acc`. */
  function With(acc: FileSections, secs: FileSections, k: SectionKind): FileSections
  {
    match k
    case ItemKind => acc.(item := secs.item)
    case ContentDescriptionKind => acc.(contentDescription := secs.contentDescription)
    case NameValueKind => acc.(nameValues := secs.nameValues)
    case TimeKind => acc.(time := secs.time)
  }

  function WithAll(acc: FileSections, secs: FileSections, kinds: seq<SectionKind>): FileSections
    decreases |kinds|
  {
    if kinds == [] then acc else WithAll(With(acc, secs, kinds[0]), secs, kinds[1..])
  }

  lemma {:induction false} WithAllComponents(acc: FileSections, secs: FileSections, kinds: seq<SectionKind>)
    ensures WithAll(acc, secs, kinds).item == if ItemKind in kinds then secs.item else acc.item
    ensures WithAll(acc, secs, kinds).contentDescription ==
      if ContentDescriptionKind in kinds then secs.contentDescription else acc.contentDescription
    ensures WithAll(acc, secs, kinds).nameValues == if NameValueKind in kinds then secs.nameValues else acc.nameValues
    ensures WithAll(acc, secs, kinds).time == if TimeKind in kinds then secs.time else acc.time
    decreases |kinds|
  {
    if kinds != [] {
      WithAllComponents(With(acc, secs, kinds[0]), secs, kinds[1..]);
      assert forall k :: k in kinds <==> k == kinds[0] || k in kinds[1..];
    }
  }

  /** Decoding the present sections into nothing gives the sections back. */
  lemma WithAllPresent(secs: FileSections)
    ensures WithAll(NoSections, secs, PresentKinds(secs)) == secs
  {
    WithAllComponents(NoSections, secs, PresentKinds(secs));
  }

  /** The decoder of a present section reads its payload back. */
  lemma ParsePayloadAt(data: seq<byte>, pos: nat, k: SectionKind, secs: FileSections, order: seq<Text>,
                       acc: FileSections, q: nat)
    requires Has(secs, k) && OrderFor(secs, order) && Readable(secs)
    requires At(data, pos, Payload(k, secs, order)) && q == pos + |Payload(k, secs, order)|
    ensures ParsePayload(data, pos, k, acc) == Ok((With(acc, secs, k), q))
  {
    match k
    case ItemKind => ItemPayloadAt(data, pos, secs.item.value, acc, q);
    case ContentDescriptionKind => ContentDescriptionPayloadAt(data, pos, secs.contentDescription.value, acc, q);
    case NameValueKind => NameValuePayloadAt(data, pos, secs.nameValues.value, order, acc, q);
    case TimeKind => TimePayloadAt(data, pos, secs.time.value, acc, q);
  }

  lemma ItemPayloadAt(data: seq<byte>, pos: nat, s: ItemSection, acc: FileSections, q: nat)
    requires CanonicalItemSection(s)
    requires At(data, pos, ItemSectionBytes(s)) && q == pos + |ItemSectionBytes(s)|
    ensures ParsePayload(data, pos, ItemKind, acc) == Ok((acc.(item := Some(s)), q))
  {
    ItemSectionRoundTrip(data, pos, s);
  }

  lemma ContentDescriptionPayloadAt(data: seq<byte>, pos: nat, s: ContentDescriptionSection, acc: FileSections, q: nat)
    requires At(data, pos, WriteContentDescription(s)) && q == pos + |WriteContentDescription(s)|
    ensures ParsePayload(data, pos, ContentDescriptionKind, acc) == Ok((acc.(contentDescription := Some(s)), q))
  {
    ContentDescriptionRoundTrip(data, pos, s);
  }

  lemma NameValuePayloadAt(data: seq<byte>, pos: nat, m: NameValues, order: seq<Text>, acc: FileSections, q: nat)
    requires |m| < 0x8000_0000 && IsEnumeration(order, m)
    requires At(data, pos, NameValueBytes(m, order)) && q == pos + |NameValueBytes(m, order)|
    ensures ParsePayload(data, pos, NameValueKind, acc) == Ok((acc.(nameValues := Some(m)), q))
  {
    NameValueRoundTrip(data, pos, m, order, q);
  }

  lemma TimePayloadAt(data: seq<byte>, pos: nat, t: TimeSection, acc: FileSections, q: nat)
    requires t.count as int == |t.offsets|
    requires At(data, pos, TimeSectionBytes(t)) && q == pos + |TimeSectionBytes(t)|
    ensures ParsePayload(data, pos, TimeKind, acc) == Ok((acc.(time := Some(t)), q))
  {
    TimeSectionRoundTrip(data, pos, t);
  }

  lemma ParseSectionUnfold(data: seq<byte>, pos: nat, acc: FileSections, id: int32, next: int32, k: SectionKind,
                           secs: FileSections, q: nat)
    requires ReadInt32(data, pos) == Ok((id, pos + 4)) && ReadInt32(data, pos + 4) == Ok((next, pos + 8))
    requires SectionKindOf(id) == Some(k)
    requires ParsePayload(data, pos + 8, k, acc) == Ok((secs, q))
    ensures ParseSection(data, pos, acc) == if q - (pos + 8) != next then Err(SectionSizeMismatch) else Ok((secs, q))
  {
  }

  /** A section ID outside the four known ones stops `readHeader` with an error, whatever
      size it announces: the section is not skipped. */
  lemma ParseSectionUnknownId(data: seq<byte>, pos: nat, id: int32, next: int32, acc: FileSections)
    requires SectionKindOf(id).None?
    requires At(data, pos, EncodeInt32(id) + EncodeInt32(next))
    ensures ParseSection(data, pos, acc) == Err(UnknownSectionId(id))
  {
    AtConcat(data, pos, EncodeInt32(id), EncodeInt32(next));
    ReadInt32At(data, pos, id);
    ReadInt32At(data, pos + 4, next);
  }

  /** A frame that announces `declared` bytes around the payload of a present section
      decodes to that section exactly when the announcement is the payload's length. */
  lemma ParseFrameAt(data: seq<byte>, pos: nat, k: SectionKind, secs: FileSections, order: seq<Text>,
                     declared: int32, acc: FileSections, q: nat)
    requires Has(secs, k) && OrderFor(secs, order) && Readable(secs)
    requires At(data, pos, Frame(SectionId(k), declared, Payload(k, secs, order)))
    requires q == pos + 8 + |Payload(k, secs, order)|
    ensures ParseSection(data, pos, acc) ==
      if declared as int == |Payload(k, secs, order)| then Ok((With(acc, secs, k), q)) else Err(SectionSizeMismatch)
  {
    var payload := Payload(k, secs, order);
    var a := EncodeInt32(SectionId(k));
    var b := EncodeInt32(declared);
    AtConcat(data, pos, a + b, payload);
    AtConcat(data, pos, a, b);
    ReadInt32At(data, pos, SectionId(k));
    ReadInt32At(data, pos + 4, declared);
    ParsePayloadAt(data, pos + 8, k, secs, order, acc, q);
    ParseSectionUnfold(data, pos, acc, SectionId(k), declared, k, With(acc, secs, k), q);
  }

  /** `ps` and `accs` are the positions and the sections of successive iterations of
      a loop with body `step`: each iteration reads one section and leaves the stream at
      the next position. */
  ghost predicate Chained(data: seq<byte>, step: (seq<byte>, nat, FileSections) -> Result<(FileSections, nat)>,
                          ps: seq<nat>, accs: seq<FileSections>)
  {
    |ps| == |accs| && forall t :: 0 <= t < |ps| - 1 ==> step(data, ps[t], accs[t]) == Ok((accs[t + 1], ps[t + 1]))
  }

  /** A loop runs a chain of iterations to its end, whatever its body. */
  lemma {:induction false} LoopChain(data: seq<byte>, step: (seq<byte>, nat, FileSections) -> Result<(FileSections, nat)>,
                                     ps: seq<nat>, accs: seq<FileSections>, j: nat, i: nat, count: int64)
    requires Chained(data, step, ps, accs) && j < |ps| && i + (|ps| - 1 - j) == count
    ensures Loop(data, step, ps[j], i, count, accs[j]) == Ok((accs[|ps| - 1], ps[|ps| - 1]))
    decreases |ps| - j
  {
    if j < |ps| - 1 {
      LoopChain(data, step, ps, accs, j + 1, i + 1, count);
    }
  }

  /** A loop started at the head of a chain ends at its tail. */
  lemma LoopRun(data: seq<byte>, step: (seq<byte>, nat, FileSections) -> Result<(FileSections, nat)>,
                ps: seq<nat>, accs: seq<FileSections>, pos: nat, i: nat, count: int64, acc: FileSections,
                res: FileSections, end: nat)
    requires Chained(data, step, ps, accs) && |ps| > 0 && i + (|ps| - 1) == count
    requires ps[0] == pos && accs[0] == acc && ps[|ps| - 1] == end && accs[|ps| - 1] == res
    ensures Loop(data, step, pos, i, count, acc) == Ok((res, end))
  {
    LoopChain(data, step, ps, accs, 0, i, count);
  }

  /** Where the pieces of a concatenation stand. */
  lemma {:induction false} ConcatPositions(data: seq<byte>, pos: nat, fs: seq<seq<byte>>) returns (ps: seq<nat>)
    requires At(data, pos, Concat(fs))
    ensures |ps| == |fs| + 1 && ps[0] == pos && ps[|fs|] == pos + |Concat(fs)|
    ensures forall t :: 0 <= t < |fs| ==>
      At(data, ps[t], fs[t]) && ps[t + 1] == ps[t] + |fs[t]| && |fs[t]| <= |Concat(fs)|
    decreases |fs|
  {
    if fs == [] {
      ps := [pos];
    } else {
      AtSplit(data, pos, fs[0], Concat(fs[1..]), pos + |fs[0]|);
      var ps' := ConcatPositions(data, pos + |fs[0]|, fs[1..]);
      ps := [pos] + ps';
      forall t | 1 <= t < |fs|
        ensures fs[t] == fs[1..][t - 1] && ps[t] == ps'[t - 1] && ps[t + 1] == ps'[t]
      {
      }
    }
  }

  /** The sections read so far before and after each section of `kinds`. */
  lemma {:induction false} WithAllSteps(acc: FileSections, secs: FileSections, kinds: seq<SectionKind>)
    returns (accs: seq<FileSections>)
    ensures |accs| == |kinds| + 1 && accs[0] == acc && accs[|kinds|] == WithAll(acc, secs, kinds)
    ensures forall t :: 0 <= t < |kinds| ==> accs[t + 1] == With(accs[t], secs, kinds[t])
    decreases |kinds|
  {
    if kinds == [] {
      accs := [acc];
    } else {
      var accs' := WithAllSteps(With(acc, secs, kinds[0]), secs, kinds[1..]);
      accs := [acc] + accs';
      forall t | 1 <= t < |kinds|
        ensures kinds[t] == kinds[1..][t - 1] && accs[t] == accs'[t - 1] && accs[t + 1] == accs'[t]
      {
      }
    }
  }

  /** Each of the first `n` frames of a run that announces its payload's length is one
      iteration of the section loop. */
  lemma FramesChained(data: seq<byte>, secs: FileSections, order: seq<Text>, kinds: seq<SectionKind>,
                      ps: seq<nat>, accs: seq<FileSections>, n: nat)
    requires OrderFor(secs, order) && Readable(secs) && AllPresent(secs, kinds)
    requires n <= |kinds| && |ps| == |kinds| + 1 && |accs| == |kinds| + 1
    requires forall t :: 0 <= t < n ==>
      && DeclaredSize(kinds[t], secs, order) == |Payload(kinds[t], secs, order)| < 0x8000_0000
      && At(data, ps[t], FrameList(secs, order, kinds)[t])
      && ps[t + 1] == ps[t] + |FrameList(secs, order, kinds)[t]|
    requires forall t :: 0 <= t < n ==> accs[t + 1] == With(accs[t], secs, kinds[t])
    ensures forall t :: 0 <= t < n ==> ParseSection(data, ps[t], accs[t]) == Ok((accs[t + 1], ps[t + 1]))
  {
    forall t | 0 <= t < n
      ensures ParseSection(data, ps[t], accs[t]) == Ok((accs[t + 1], ps[t + 1]))
    {
      var k := kinds[t];
      assert FrameList(secs, order, kinds)[t] == FrameOf(k, secs, order);
      ParseFrameAt(data, ps[t], k, secs, order, WrapInt32(DeclaredSize(k, secs, order)), accs[t], ps[t + 1]);
    }
  }

  /** A run of frames that announce their payloads' lengths is a chain of iterations of
      the section loop, from its first byte to its end, reading one section per frame. */
  lemma FramesRun(data: seq<byte>, pos: nat, secs: FileSections, order: seq<Text>,
                  kinds: seq<SectionKind>, acc: FileSections) returns (ps: seq<nat>, accs: seq<FileSections>)
    requires OrderFor(secs, order) && Readable(secs) && SizesExact(secs, order) && AllPresent(secs, kinds)
    requires |Concat(FrameList(secs, order, kinds))| < 0x8000_0000
    requires At(data, pos, Concat(FrameList(secs, order, kinds)))
    ensures Chained(data, ParseSection, ps, accs) && |ps| == |kinds| + 1
    ensures ps[0] == pos && ps[|kinds|] == pos + |Concat(FrameList(secs, order, kinds))|
    ensures accs[0] == acc && accs[|kinds|] == WithAll(acc, secs, kinds)
  {
    var fs := FrameList(secs, order, kinds);
    ps := ConcatPositions(data, pos, fs);
    accs := WithAllSteps(acc, secs, kinds);
    forall t | 0 <= t < |kinds|
      ensures DeclaredSize(kinds[t], secs, order) == |Payload(kinds[t], secs, order)| < 0x8000_0000
    {
      assert fs[t] == FrameOf(kinds[t], secs, order);
    }
    FramesChained(data, secs, order, kinds, ps, accs, |kinds|);
  }

  /** `readHeader` reads back what `writeHeader` wrote: given the header bytes and the
      frames of the sections present, with the magic value and their number in the
      header, it returns that header and exactly those sections, and leaves the stream at
      the item start. The padding and what follows it are never read. */
  lemma HeaderRoundTrip(data: seq<byte>, h: Header, secs: FileSections, order: seq<Text>)
    requires OrderFor(secs, order) && Readable(secs) && SizesExact(secs, order)
    requires h.magicValue == MagicValue && h.sectionCount == |PresentKinds(secs)| && h.itemStart >= 0
    requires |SectionsBytes(secs, order)| < 0x8000_0000
    requires At(data, 0, HeaderBytes(h) + SectionsBytes(secs, order))
    ensures ParseHeader(data) == Ok((h, secs, h.itemStart as nat))
  {
    AtSplit(data, 0, HeaderBytes(h), SectionsBytes(secs, order), HeaderSize);
    ParseHeaderFieldsAt(data, 0, h);
    var kinds := PresentKinds(secs);
    var ps, accs := FramesRun(data, HeaderSize, secs, order, kinds, NoSections);
    WithAllPresent(secs);
    LoopRun(data, ParseSection, ps, accs, HeaderSize, 0, h.sectionCount, NoSections, secs, ps[|kinds|]);
  }

  /** `readHeader` on a header region `writeHeader` wrote for a header with the magic
      value and the number of sections present: it returns the header and the sections,
      with the stream at the item start, exactly when every section announces its
      payload's length, and otherwise fails on the name-value frame. */
  lemma RegionReadsBack(data: seq<byte>, h: Header, secs: FileSections, order: seq<Text>)
    requires OrderFor(secs, order) && Readable(secs)
    requires h.magicValue == MagicValue && h.sectionCount == |PresentKinds(secs)|
    requires HeaderSize + AnnouncedLength(secs, order) <= h.itemStart < 0x8000_0000
    requires At(data, 0, HeaderRegion(h, secs, order))
    ensures SizesExact(secs, order) ==> ParseHeader(data) == Ok((h, secs, h.itemStart as nat))
    ensures !SizesExact(secs, order) ==> ParseHeader(data) == Err(SectionSizeMismatch)
  {
    AtSplit(data, 0, HeaderBytes(h) + SectionsBytes(secs, order),
            Zeros(h.itemStart as int - HeaderSize - AnnouncedLength(secs, order)),
            HeaderSize + |SectionsBytes(secs, order)|);
    if SizesExact(secs, order) {
      SectionsBytesAnnounced(secs, order);
      HeaderRoundTrip(data, h, secs, order);
    } else {
      HeaderRejectsInexactSize(data, h, secs, order);
    }
  }

  /** `readHeader` rejects a header region whose name-value section announces other
      than its payload's length: the sections before it read back, and the name-value
      frame fails the check of the bytes consumed. */
  lemma HeaderRejectsInexactSize(data: seq<byte>, h: Header, secs: FileSections, order: seq<Text>)
    requires OrderFor(secs, order) && Readable(secs) && !SizesExact(secs, order)
    requires h.magicValue == MagicValue && h.sectionCount == |PresentKinds(secs)|
    requires AnnouncedLength(secs, order) < 0x8000_0000
    requires At(data, 0, HeaderBytes(h) + SectionsBytes(secs, order))
    ensures ParseHeader(data) == Err(SectionSizeMismatch)
  {
    AtSplit(data, 0, HeaderBytes(h), SectionsBytes(secs, order), HeaderSize);
    ParseHeaderFieldsAt(data, 0, h);
    var ps, accs, n := NameValueFrameFails(data, HeaderSize, secs, order, NoSections);
    LoopStops(data, ParseSection, ps, accs, 0, 0, h.sectionCount, n, SectionSizeMismatch);
  }

  /** The section loop over frames whose name-value frame does not announce its
      payload's length reads the frames before it and fails on it. */
  lemma NameValueFrameFails(data: seq<byte>, pos: nat, secs: FileSections, order: seq<Text>, acc: FileSections)
    returns (ps: seq<nat>, accs: seq<FileSections>, n: nat)
    requires OrderFor(secs, order) && Readable(secs) && !SizesExact(secs, order)
    requires AnnouncedLength(secs, order) < 0x8000_0000
    requires At(data, pos, SectionsBytes(secs, order))
    ensures |ps| == |accs| && n < |ps| && n < |PresentKinds(secs)| && ps[0] == pos && accs[0] == acc
    ensures forall t :: 0 <= t < n ==> ParseSection(data, ps[t], accs[t]) == Ok((accs[t + 1], ps[t + 1]))
    ensures ParseSection(data, ps[n], accs[n]) == Err(SectionSizeMismatch)
  {
    var kinds := PresentKinds(secs);
    n := FirstIndex(kinds, NameValueKind);
    ps, accs := FramesUntil(data, pos, secs, order, kinds, acc, n);
    AnnouncedBound(secs, order, NameValueKind);
    ParseFrameAt(data, ps[n], NameValueKind, secs, order, WrapInt32(DeclaredSize(NameValueKind, secs, order)),
                 accs[n], ps[n + 1]);
  }

  /** The frames of a run before the first name-value frame each read one section, with
      the stream left at the start of frame `n`. */
  lemma FramesUntil(data: seq<byte>, pos: nat, secs: FileSections, order: seq<Text>,
                    kinds: seq<SectionKind>, acc: FileSections, n: nat) returns (ps: seq<nat>, accs: seq<FileSections>)
    requires OrderFor(secs, order) && Readable(secs) && AllPresent(secs, kinds) && n < |kinds|
    requires forall t :: 0 <= t < n ==> kinds[t] != NameValueKind
    requires AnnouncedLength(secs, order) < 0x8000_0000
    requires At(data, pos, Concat(FrameList(secs, order, kinds)))
    ensures |ps| == |kinds| + 1 && |accs| == |kinds| + 1 && ps[0] == pos && accs[0] == acc
    ensures forall t :: 0 <= t < n ==> ParseSection(data, ps[t], accs[t]) == Ok((accs[t + 1], ps[t + 1]))
    ensures At(data, ps[n], FrameOf(kinds[n], secs, order)) && ps[n + 1] == ps[n] + 8 + |Payload(kinds[n], secs, order)|
  {
    var fs := FrameList(secs, order, kinds);
    ps := ConcatPositions(data, pos, fs);
    accs := WithAllSteps(acc, secs, kinds);
    forall t | 0 <= t < n
      ensures DeclaredSize(kinds[t], secs, order) == |Payload(kinds[t], secs, order)| < 0x8000_0000
    {
      AnnouncedBound(secs, order, kinds[t]);
    }
    FramesChained(data, secs, order, kinds, ps, accs, n);
    assert fs[n] == FrameOf(kinds[n], secs, order);
  }

  /** A present section's frame is part of the announced length. */
  lemma AnnouncedBound(secs: FileSections, order: seq<Text>, k: SectionKind)
    requires OrderFor(secs, order) && Has(secs, k)
    ensures 8 + DeclaredSize(k, secs, order) <= AnnouncedLength(secs, order)
  {
  }

  /** The first position of `k` in `ks`. */
  function FirstIndex(ks: seq<SectionKind>, k: SectionKind): (n: nat)
    requires k in ks
    ensures n < |ks| && ks[n] == k && forall t :: 0 <= t < n ==> ks[t] != k
  {
    if ks[0] == k then 0
    else
      var n := 1 + FirstIndex(ks[1..], k);
      assert forall t :: 1 <= t < n ==> ks[t] == ks[1..][t - 1];
      n
  }

  /** A loop whose body succeeds `n - j` times along a chain and then fails stops with
      that failure, whatever its body. */
  lemma {:induction false} LoopStops(data: seq<byte>, step: (seq<byte>, nat, FileSections) -> Result<(FileSections, nat)>,
                                     ps: seq<nat>, accs: seq<FileSections>, j: nat, i: nat, count: int64, n: nat, e: Error)
    requires |ps| == |accs| && j <= n < |ps|
    requires forall t :: 0 <= t < n ==> step(data, ps[t], accs[t]) == Ok((accs[t + 1], ps[t + 1]))
    requires step(data, ps[n], accs[n]) == Err(e)
    requires i + (n - j) < count
    ensures Loop(data, step, ps[j], i, count, accs[j]) == Err(e)
    decreases n - j
  {
    if j < n {
      LoopStops(data, step, ps, accs, j + 1, i + 1, count, n, e);
    }
  }

  /** For a name-value section without text values, the empty one included, `NameValueSection.Size`
      is less than the payload, so the frame `writeHeader` emits for it does not announce
      its payload's length and `readHeader` rejects it. */
  lemma AsWrittenNameValueFrameRejected(data: seq<byte>, pos: nat, secs: FileSections, order: seq<Text>, acc: FileSections)
    requires secs.nameValues.Some? && OrderFor(secs, order) && Readable(secs)
    requires var m := secs.nameValues.value; forall k :: k in m ==> !m[k].TextValue?
    requires 1 + SumOver(Declared, secs.nameValues.value, order) < 0x8000_0000
    requires At(data, pos, FrameOf(NameValueKind, secs, order))
    ensures !SizesExact(secs, order)
    ensures ParseSection(data, pos, acc) == Err(SectionSizeMismatch)
  {
    var m := secs.nameValues.value;
    var declared: int32 := DeclaredSize(NameValueKind, secs, order);
    DeclaredSizeShortfall(m, order);
    assert |Payload(NameValueKind, secs, order)| == declared + 3 + 6 * |m|;
    ParseFrameAt(data, pos, NameValueKind, secs, order, declared, acc, pos + 8 + |Payload(NameValueKind, secs, order)|);
  }

  /** One iteration of the section loop: the body runs once, and the loop goes on from
      where it stopped, unless the body failed. */
  lemma LoopStep(data: seq<byte>, step: (seq<byte>, nat, FileSections) -> Result<(FileSections, nat)>,
                 pos: nat, i: nat, count: int64, acc: FileSections)
    requires i < count
    ensures step(data, pos, acc).Err? ==> Loop(data, step, pos, i, count, acc) == Err(step(data, pos, acc).error)
    ensures step(data, pos, acc).Ok? ==>
      Loop(data, step, pos, i, count, acc) == Loop(data, step, step(data, pos, acc).value.1, i + 1, count, step(data, pos, acc).value.0)
  {
  }

  /** Once the count is reached the loop stops where it is. */
  lemma LoopDone(data: seq<byte>, step: (seq<byte>, nat, FileSections) -> Result<(FileSections, nat)>,
                 pos: nat, i: nat, count: int64, acc: FileSections)
    requires i >= count
    ensures Loop(data, step, pos, i, count, acc) == Ok((acc, pos))
  {
  }

  // ---------------------------------------------------------------------------------
  // Layout of the header region

  /** The frame of kind `k` if that section is present, and nothing otherwise. */
  function FrameIfPresent(k: SectionKind, secs: FileSections, order: seq<Text>): (bs: seq<byte>)
    requires OrderFor(secs, order)
    ensures Has(secs, k) ==> bs == FrameOf(k, secs, order)
    ensures !Has(secs, k) ==> bs == []
  {
    if Has(secs, k) then FrameOf(k, secs, order) else []
  }

  /** The frames of the present sections among `ks`, in the order of `ks`. */
  function FramesAmong(secs: FileSections, order: seq<Text>, ks: seq<SectionKind>): seq<byte>
    requires OrderFor(secs, order)
  {
    if ks == [] then [] else FrameIfPresent(ks[0], secs, order) + FramesAmong(secs, order, ks[1..])
  }

  lemma {:induction false} FramesAmongPresent(secs: FileSections, order: seq<Text>, ks: seq<SectionKind>)
    requires OrderFor(secs, order)
    ensures Concat(FrameList(secs, order, PresentAmong(secs, ks))) == FramesAmong(secs, order, ks)
    decreases |ks|
  {
    if ks != [] {
      FramesAmongPresent(secs, order, ks[1..]);
      var rest := PresentAmong(secs, ks[1..]);
      if Has(secs, ks[0]) {
        FrameListCons(secs, order, ks[0], rest);
        ConcatCons(FrameOf(ks[0], secs, order), FrameList(secs, order, rest));
      }
    }
  }

  lemma FrameListCons(secs: FileSections, order: seq<Text>, k: SectionKind, rest: seq<SectionKind>)
    requires OrderFor(secs, order) && Has(secs, k) && AllPresent(secs, rest)
    ensures FrameList(secs, order, [k] + rest) == [FrameOf(k, secs, order)] + FrameList(secs, order, rest)
  {
    var kinds := [k] + rest;
    var whole := FrameList(secs, order, kinds);
    var parts := [FrameOf(k, secs, order)] + FrameList(secs, order, rest);
    forall t | 0 <= t < |whole| ensures whole[t] == parts[t] {
      if t > 0 {
        assert kinds[t] == rest[t - 1];
      }
    }
  }

  lemma ConcatCons(f: seq<byte>, fs: seq<seq<byte>>)
    ensures Concat([f] + fs) == f + Concat(fs)
  {
    assert ([f] + fs)[1..] == fs;
  }

  /** `writeHeader` writes the frames of the present sections in the order item, content
      description, name-value, time. */
  lemma SectionsBytesInOrder(secs: FileSections, order: seq<Text>)
    requires OrderFor(secs, order)
    ensures SectionsBytes(secs, order) ==
      FrameIfPresent(ItemKind, secs, order) + FrameIfPresent(ContentDescriptionKind, secs, order)
      + FrameIfPresent(NameValueKind, secs, order) + FrameIfPresent(TimeKind, secs, order)
  {
    var ks := [ItemKind, ContentDescriptionKind, NameValueKind, TimeKind];
    FramesAmongPresent(secs, order, ks);
    var ks1, ks2, ks3: seq<SectionKind> := [ContentDescriptionKind, NameValueKind, TimeKind], [NameValueKind, TimeKind], [TimeKind];
    assert ks[1..] == ks1 && ks1[1..] == ks2 && ks2[1..] == ks3 && ks3[1..] == [];
    var a, b := FrameIfPresent(ItemKind, secs, order), FrameIfPresent(ContentDescriptionKind, secs, order);
    var c, d := FrameIfPresent(NameValueKind, secs, order), FrameIfPresent(TimeKind, secs, order);
    assert FramesAmong(secs, order, ks3) == d;
    assert FramesAmong(secs, order, ks2) == c + d;
    assert FramesAmong(secs, order, ks1) == b + (c + d);
    assert FramesAmong(secs, order, ks) == a + (b + (c + d));
    AppendAssoc(a + b, c, d);
    AppendAssoc(a, b, c + d);
  }

  /** The number of sections `writeHeader` writes is the number present. */
  lemma PresentKindsCount(secs: FileSections)
    ensures |PresentKinds(secs)| ==
      (if secs.item.Some? then 1 else 0) + (if secs.contentDescription.Some? then 1 else 0)
      + (if secs.nameValues.Some? then 1 else 0) + (if secs.time.Some? then 1 else 0)
  {
    var ks := [ItemKind, ContentDescriptionKind, NameValueKind, TimeKind];
    PresentAmongCount(secs, ks);
    assert ks[1..] == [ContentDescriptionKind, NameValueKind, TimeKind];
    assert ks[1..][1..] == [NameValueKind, TimeKind];
    assert ks[1..][1..][1..] == [TimeKind];
    assert ks[1..][1..][1..][1..] == [];
  }

  /** The number of kinds of `ks` whose section is present. */
  function CountPresent(secs: FileSections, ks: seq<SectionKind>): nat
  {
    if ks == [] then 0 else (if Has(secs, ks[0]) then 1 else 0) + CountPresent(secs, ks[1..])
  }

  lemma {:induction false} PresentAmongCount(secs: FileSections, ks: seq<SectionKind>)
    ensures |PresentAmong(secs, ks)| == CountPresent(secs, ks)
    decreases |ks|
  {
    if ks != [] {
      PresentAmongCount(secs, ks[1..]);
    }
  }
}
