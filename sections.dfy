/** The four metadata sections of a tea file and their codecs. For each section the
    byte layout is given once as a function (`ItemSectionBytes`, ...) and the parse as a
    function over a byte sequence and a cursor (`ParseItemSection`, ...); the `Read`,
    `Write` and `Size` operations of the source, which work with loops, are methods
    proved equal to those functions. */
module Sections {
  import opened Errors
  import opened Binary
  import opened Utils
  import opened Constants

  /** The suffix from `k` is its first element followed by the suffix from `k + 1`. */
  lemma SuffixCons<T>(s: seq<T>, k: nat)
    requires k < |s|
    ensures s[k..] == [s[k]] + s[k + 1..]
  {
  }

  // ===================================================================================
  // Item section: the record layout

  datatype ItemSectionInfo = ItemSectionInfo(itemSize: int32, itemTypeName: Text, fieldCount: int32)

  /** One field of the record. `index` is not stored in the file: `Read` sets it to the
      field's position. */
  datatype ItemSectionField = ItemSectionField(index: int32, fieldType: int32, offset: int32, name: Text)

  datatype ItemSection = ItemSection(info: ItemSectionInfo, fields: seq<ItemSectionField>)

  /** An item section as `WithDataType` builds it: the count is the number of fields and
      every field's index is its position. Only such sections survive a write and a read. */
  predicate CanonicalItemSection(s: ItemSection)
  {
    && s.info.fieldCount as int == |s.fields|
    && forall j :: 0 <= j < |s.fields| ==> s.fields[j].index as int == j
  }

  function FieldBytes(f: ItemSectionField): (bs: seq<byte>)
    ensures |bs| == 12 + |f.name|
  {
    EncodeInt32(f.fieldType) + EncodeInt32(f.offset) + WriteText(f.name)
  }

  function FieldsBytes(fs: seq<ItemSectionField>): seq<byte>
  {
    if fs == [] then [] else FieldBytes(fs[0]) + FieldsBytes(fs[1..])
  }

  /** The part of the layout before the fields: item size, type name (text), field count. */
  function InfoBytes(info: ItemSectionInfo): (bs: seq<byte>)
    ensures |bs| == 12 + |info.itemTypeName|
  {
    EncodeInt32(info.itemSize) + WriteText(info.itemTypeName) + EncodeInt32(info.fieldCount)
  }

  /** The layout `ItemSection.Write` emits: item size, type name (text), field count,
      then per field its type, offset and name (text). */
  function ItemSectionBytes(s: ItemSection): seq<byte>
  {
    InfoBytes(s.info) + FieldsBytes(s.fields)
  }

  lemma {:induction false} FieldsBytesSnoc(fs: seq<ItemSectionField>, f: ItemSectionField)
    ensures FieldsBytes(fs + [f]) == FieldsBytes(fs) + FieldBytes(f)
  {
    if fs == [] {
      assert fs + [f] == [f];
      assert [f][1..] == [];
    } else {
      assert (fs + [f])[0] == fs[0];
      assert (fs + [f])[1..] == fs[1..] + [f];
      FieldsBytesSnoc(fs[1..], f);
    }
  }

  /** Every field takes at least its 12 fixed bytes. */
  lemma {:induction false} FieldsBytesLength(fs: seq<ItemSectionField>)
    ensures |FieldsBytes(fs)| >= 12 * |fs|
  {
    if fs != [] {
      FieldsBytesLength(fs[1..]);
    }
  }

  lemma FieldsBytesCons(f: ItemSectionField, fs: seq<ItemSectionField>)
    ensures FieldsBytes([f] + fs) == FieldBytes(f) + FieldsBytes(fs)
  {
    assert ([f] + fs)[0] == f;
    assert ([f] + fs)[1..] == fs;
  }

  /** One field as `ItemSection.Read` reads it; it is given the index `index`. */
  function ParseField(data: seq<byte>, pos: nat, index: int32): (r: Result<(ItemSectionField, nat)>)
    ensures r.Ok? ==> r.value.0.index == index
  {
    var (fieldType, p1) :- ReadInt32(data, pos);
    var (offset, p2) :- ReadInt32(data, p1);
    var (name, p3) :- ReadText(data, p2);
    Ok((ItemSectionField(index, fieldType, offset, name), p3))
  }

  /** A field read carries the index asked for, and what it consumes is its encoding. */
  lemma ParseFieldSound(data: seq<byte>, pos: nat, index: int32, f: ItemSectionField, p: nat)
    requires ParseField(data, pos, index) == Ok((f, p))
    ensures p == pos + |FieldBytes(f)|
    ensures At(data, pos, FieldBytes(f))
  {
    var (fieldType, p1) := ReadInt32(data, pos).value;
    var (offset, p2) := ReadInt32(data, p1).value;
    var (name, p3) := ReadText(data, p2).value;
    AtConcat(data, pos, EncodeInt32(fieldType), EncodeInt32(offset));
    AtConcat(data, pos, EncodeInt32(fieldType) + EncodeInt32(offset), WriteText(name));
  }

  /** Reading a field where one was written gives it back, with the index asked for. */
  lemma ParseFieldAt(data: seq<byte>, pos: nat, f: ItemSectionField, q: nat)
    requires At(data, pos, FieldBytes(f)) && q == pos + |FieldBytes(f)|
    ensures ParseField(data, pos, f.index) == Ok((f, q))
  {
    AtConcat(data, pos, EncodeInt32(f.fieldType), EncodeInt32(f.offset));
    AtConcat(data, pos, EncodeInt32(f.fieldType) + EncodeInt32(f.offset), WriteText(f.name));
    ReadInt32At(data, pos, f.fieldType);
    ReadInt32At(data, pos + 4, f.offset);
    ReadWriteText(data, pos + 8, f.name);
  }

  /** The field loop of `ItemSection.Read` from iteration `i` on, with the fields read so
      far in `acc`. */
  function ParseFields(data: seq<byte>, pos: nat, i: nat, count: int32, acc: seq<ItemSectionField>)
    : Result<(seq<ItemSectionField>, nat)>
    decreases count as int - i
  {
    if i >= count as int then
      Ok((acc, pos))
    else
      var (f, p) :- ParseField(data, pos, i as int32);
      ParseFields(data, p, i + 1, count, acc + [f])
  }

  /** One iteration of the field loop. */
  lemma ParseFieldsStep(data: seq<byte>, pos: nat, i: nat, count: int32, acc: seq<ItemSectionField>,
                        f: ItemSectionField, q: nat)
    requires i < count as int && ParseField(data, pos, i as int32) == Ok((f, q))
    ensures ParseFields(data, pos, i, count, acc) == ParseFields(data, q, i + 1, count, acc + [f])
  {
  }

  /** A successful run of the field loop from iteration `i < count` starts with a
      successful field. */
  lemma ParseFieldsNext(data: seq<byte>, pos: nat, i: nat, count: int32, acc: seq<ItemSectionField>,
                        fs: seq<ItemSectionField>, q: nat) returns (f: ItemSectionField, p: nat)
    requires i < count as int && ParseFields(data, pos, i, count, acc) == Ok((fs, q))
    ensures ParseField(data, pos, i as int32) == Ok((f, p))
    ensures ParseFields(data, p, i + 1, count, acc + [f]) == Ok((fs, q))
  {
    var r := ParseField(data, pos, i as int32);
    assert r.Ok?;
    f, p := r.value.0, r.value.1;
  }

  /** The loop reads exactly `count - i` fields, after those read before, and numbers
      them from `i`. */
  lemma {:induction false} ParseFieldsShape(data: seq<byte>, pos: nat, i: nat, count: int32,
                                            acc: seq<ItemSectionField>, fs: seq<ItemSectionField>, q: nat)
    requires ParseFields(data, pos, i, count, acc) == Ok((fs, q))
    ensures |fs| == |acc| + Max0(count as int - i)
    ensures forall j :: 0 <= j < |acc| ==> fs[j] == acc[j]
    ensures forall j :: |acc| <= j < |fs| ==> fs[j].index as int == i + j - |acc|
    decreases count as int - i
  {
    if i < count as int {
      var f, p := ParseFieldsNext(data, pos, i, count, acc, fs, q);
      ParseFieldsShape(data, p, i + 1, count, acc + [f], fs, q);
      ShapeStep(acc, f, fs, i, count as int);
    }
  }

  /** The shape of the fields read, one field earlier. */
  lemma ShapeStep(acc: seq<ItemSectionField>, f: ItemSectionField, fs: seq<ItemSectionField>, i: nat, count: int)
    requires i < count && f.index as int == i
    requires |fs| == |acc + [f]| + Max0(count - (i + 1))
    requires forall j :: 0 <= j < |acc + [f]| ==> fs[j] == (acc + [f])[j]
    requires forall j :: |acc + [f]| <= j < |fs| ==> fs[j].index as int == i + 1 + j - |acc + [f]|
    ensures |fs| == |acc| + Max0(count - i)
    ensures forall j :: 0 <= j < |acc| ==> fs[j] == acc[j]
    ensures forall j :: |acc| <= j < |fs| ==> fs[j].index as int == i + j - |acc|
  {
    assert fs[|acc|] == (acc + [f])[|acc|];
  }

  /** A field followed by the fields after it is the suffix from that field on. */
  lemma ConsumesStep(data: seq<byte>, pos: nat, f: ItemSectionField, p: nat, fs: seq<ItemSectionField>, k: nat, q: nat)
    requires k < |fs| && fs[k] == f
    requires p == pos + |FieldBytes(f)| && At(data, pos, FieldBytes(f))
    requires q == p + |FieldsBytes(fs[k + 1..])| && At(data, p, FieldsBytes(fs[k + 1..]))
    ensures q == pos + |FieldsBytes(fs[k..])| && At(data, pos, FieldsBytes(fs[k..]))
  {
    var rest := fs[k + 1..];
    SuffixCons(fs, k);
    FieldsBytesCons(f, rest);
    AtConcat(data, pos, FieldBytes(f), FieldsBytes(rest));
  }

  /** What the loop consumes is exactly the encoding of the fields it read. */
  lemma {:induction false} ParseFieldsConsumes(data: seq<byte>, pos: nat, i: nat, count: int32,
                                               acc: seq<ItemSectionField>, fs: seq<ItemSectionField>, q: nat)
    requires pos <= |data|
    requires ParseFields(data, pos, i, count, acc) == Ok((fs, q))
    ensures |acc| <= |fs|
    ensures q == pos + |FieldsBytes(fs[|acc|..])| && At(data, pos, FieldsBytes(fs[|acc|..]))
    decreases count as int - i
  {
    ParseFieldsShape(data, pos, i, count, acc, fs, q);
    if i < count as int {
      var f, p := ParseFieldsNext(data, pos, i, count, acc, fs, q);
      ParseFieldSound(data, pos, i as int32, f, p);
      ParseFieldsShape(data, p, i + 1, count, acc + [f], fs, q);
      ParseFieldsConsumes(data, p, i + 1, count, acc + [f], fs, q);
      assert fs[|acc|] == (acc + [f])[|acc|];
      ConsumesStep(data, pos, f, p, fs, |acc|, q);
    } else {
      assert fs[|acc|..] == [];
    }
  }

  /** The first three reads of `ItemSection.Read`. */
  function ParseInfo(data: seq<byte>, pos: nat): (r: Result<(ItemSectionInfo, nat)>)
    ensures r.Ok? ==> r.value.1 == pos + |InfoBytes(r.value.0)| && At(data, pos, InfoBytes(r.value.0))
  {
    var (itemSize, p1) :- ReadInt32(data, pos);
    var (typeName, p2) :- ReadText(data, p1);
    var (count, p3) :- ReadInt32(data, p2);
    AtConcat(data, pos, EncodeInt32(itemSize), WriteText(typeName));
    AtConcat(data, pos, EncodeInt32(itemSize) + WriteText(typeName), EncodeInt32(count));
    Ok((ItemSectionInfo(itemSize, typeName, count), p3))
  }

  lemma ParseInfoAt(data: seq<byte>, pos: nat, info: ItemSectionInfo, p: nat)
    requires At(data, pos, InfoBytes(info)) && p == pos + |InfoBytes(info)|
    ensures ParseInfo(data, pos) == Ok((info, p))
  {
    var a := EncodeInt32(info.itemSize);
    var b := WriteText(info.itemTypeName);
    AtConcat(data, pos, a + b, EncodeInt32(info.fieldCount));
    AtConcat(data, pos, a, b);
    ReadInt32At(data, pos, info.itemSize);
    ReadWriteText(data, pos + 4, info.itemTypeName);
    ReadInt32At(data, pos + |a + b|, info.fieldCount);
  }

  /** `ItemSection.Read`, as a function of the bytes and the cursor. */
  function ParseItemSection(data: seq<byte>, pos: nat): Result<(ItemSection, nat)>
  {
    var (info, p) :- ParseInfo(data, pos);
    var (fields, q) :- ParseFields(data, p, 0, info.fieldCount, []);
    Ok((ItemSection(info, fields), q))
  }

  /** What `ItemSection.Read` accepts: on success it has read exactly `max(0, fieldCount)`
      fields, indexed by position, and consumed exactly the encoding of the section. */
  lemma ParseItemSectionSound(data: seq<byte>, pos: nat, s: ItemSection, end: nat)
    requires ParseItemSection(data, pos) == Ok((s, end))
    ensures |s.fields| == Max0(s.info.fieldCount as int)
    ensures forall j :: 0 <= j < |s.fields| ==> s.fields[j].index as int == j
    ensures end == pos + |ItemSectionBytes(s)|
    ensures At(data, pos, ItemSectionBytes(s))
  {
    var p := ParseItemSectionNext(data, pos, s, end);
    ParseFieldsSound(data, p, s.info.fieldCount, s.fields, end);
    AtConcat(data, pos, InfoBytes(s.info), FieldsBytes(s.fields));
  }

  /** A successful `ItemSection.Read` is a successful read of its first three values
      followed by a successful field loop. */
  lemma ParseItemSectionNext(data: seq<byte>, pos: nat, s: ItemSection, end: nat) returns (p: nat)
    requires ParseItemSection(data, pos) == Ok((s, end))
    ensures ParseInfo(data, pos) == Ok((s.info, p))
    ensures ParseFields(data, p, 0, s.info.fieldCount, []) == Ok((s.fields, end))
  {
    p := ParseInfo(data, pos).value.1;
    var r := ParseFields(data, p, 0, s.info.fieldCount, []);
    assert r.Ok? && r.value == (s.fields, end);
  }

  /** The whole field loop, started at iteration 0 with nothing read. */
  lemma ParseFieldsSound(data: seq<byte>, p: nat, count: int32, fields: seq<ItemSectionField>, end: nat)
    requires p <= |data|
    requires ParseFields(data, p, 0, count, []) == Ok((fields, end))
    ensures |fields| == Max0(count as int)
    ensures forall j :: 0 <= j < |fields| ==> fields[j].index as int == j
    ensures end == p + |FieldsBytes(fields)| && At(data, p, FieldsBytes(fields))
  {
    ParseFieldsShape(data, p, 0, count, [], fields, end);
    ParseFieldsConsumes(data, p, 0, count, [], fields, end);
    assert fields[0..] == fields;
  }

  /** One iteration of the field loop over written fields: it reads back field `i` and
      leaves the cursor before the encoding of the remaining ones. */
  lemma ParseFieldsRoundTripStep(data: seq<byte>, pos: nat, fs: seq<ItemSectionField>, count: int32, i: nat, q: nat)
    requires count as int == |fs| && i < |fs|
    requires fs[i].index as int == i
    requires At(data, pos, FieldsBytes(fs[i..]))
    requires q == pos + |FieldBytes(fs[i])|
    ensures At(data, q, FieldsBytes(fs[i + 1..]))
    ensures |FieldsBytes(fs[i..])| == |FieldBytes(fs[i])| + |FieldsBytes(fs[i + 1..])|
    ensures ParseFields(data, pos, i, count, fs[..i]) == ParseFields(data, q, i + 1, count, fs[..i + 1])
  {
    var f := fs[i];
    SuffixCons(fs, i);
    FieldsBytesCons(f, fs[i + 1..]);
    AtSplit(data, pos, FieldBytes(f), FieldsBytes(fs[i + 1..]), q);
    ParseFieldAt(data, pos, f, q);
    assert fs[..i] + [f] == fs[..i + 1];
    ParseFieldsStep(data, pos, i, count, fs[..i], f, q);
  }

  /** The field loop reads back written fields from `i` on and stops at `end`, where
      their encoding ends. */
  lemma {:induction false} ParseFieldsRoundTrip(data: seq<byte>, pos: nat, fs: seq<ItemSectionField>, count: int32,
                                                 i: nat, end: nat)
    requires count as int == |fs| && i <= |fs|
    requires forall j :: 0 <= j < |fs| ==> fs[j].index as int == j
    requires At(data, pos, FieldsBytes(fs[i..])) && end == pos + |FieldsBytes(fs[i..])|
    ensures ParseFields(data, pos, i, count, fs[..i]) == Ok((fs, end))
    decreases |fs| - i
  {
    if i < |fs| {
      var q := pos + |FieldBytes(fs[i])|;
      ParseFieldsRoundTripStep(data, pos, fs, count, i, q);
      ParseFieldsRoundTrip(data, q, fs, count, i + 1, end);
    } else {
      assert fs[..i] == fs;
      assert fs[i..] == [];
    }
  }

  /** The whole field loop reads back written fields and stops where their encoding ends. */
  lemma ParseFieldsRoundTripAll(data: seq<byte>, pos: nat, fs: seq<ItemSectionField>, count: int32, end: nat)
    requires count as int == |fs|
    requires forall j :: 0 <= j < |fs| ==> fs[j].index as int == j
    requires At(data, pos, FieldsBytes(fs)) && end == pos + |FieldsBytes(fs)|
    ensures ParseFields(data, pos, 0, count, []) == Ok((fs, end))
  {
    assert fs[0..] == fs;
    assert fs[..0] == [];
    ParseFieldsRoundTrip(data, pos, fs, count, 0, end);
  }

  /** Reading an item section where one was written gives it back, when its count is
      its number of fields and its indices are 0..n-1; exactly its bytes are consumed. */
  lemma ItemSectionRoundTrip(data: seq<byte>, pos: nat, s: ItemSection)
    requires CanonicalItemSection(s)
    requires At(data, pos, ItemSectionBytes(s))
    ensures ParseItemSection(data, pos) == Ok((s, pos + |ItemSectionBytes(s)|))
  {
    var p := pos + |InfoBytes(s.info)|;
    AtConcat(data, pos, InfoBytes(s.info), FieldsBytes(s.fields));
    ParseInfoAt(data, pos, s.info, p);
    ParseItemSectionOf(data, pos, s.info, s.fields, p, pos + |ItemSectionBytes(s)|);
  }

  lemma ParseItemSectionOf(data: seq<byte>, pos: nat, info: ItemSectionInfo, fields: seq<ItemSectionField>,
                            p: nat, end: nat)
    requires CanonicalItemSection(ItemSection(info, fields))
    requires ParseInfo(data, pos) == Ok((info, p))
    requires At(data, p, FieldsBytes(fields)) && end == p + |FieldsBytes(fields)|
    ensures ParseItemSection(data, pos) == Ok((ItemSection(info, fields), end))
  {
    ParseFieldsRoundTripAll(data, p, fields, info.fieldCount, end);
    ParseItemSectionUnfold(data, pos, info, p, fields, end);
  }

  lemma ParseItemSectionUnfold(data: seq<byte>, pos: nat, info: ItemSectionInfo, p: nat,
                               fields: seq<ItemSectionField>, q: nat)
    requires ParseInfo(data, pos) == Ok((info, p))
    requires ParseFields(data, p, 0, info.fieldCount, []) == Ok((fields, q))
    ensures ParseItemSection(data, pos) == Ok((ItemSection(info, fields), q))
  {
  }

  /** `ItemSection.Read`. */
  method ReadItemSection(data: seq<byte>, pos: nat) returns (r: Result<(ItemSection, nat)>)
    ensures r == ParseItemSection(data, pos)
  {
    var itemSize :- ReadInt32(data, pos);
    var typeName :- ReadText(data, itemSize.1);
    var count :- ReadInt32(data, typeName.1);
    var fields: seq<ItemSectionField> := [];
    var p := count.1;
    var i: nat := 0;
    while i < count.0 as int
      invariant ParseFields(data, p, i, count.0, fields) == ParseFields(data, count.1, 0, count.0, [])
    {
      var fieldType :- ReadInt32(data, p);
      var offset :- ReadInt32(data, fieldType.1);
      var name :- ReadText(data, offset.1);
      fields := fields + [ItemSectionField(i as int32, fieldType.0, offset.0, name.0)];
      p := name.1;
      i := i + 1;
    }
    r := Ok((ItemSection(ItemSectionInfo(itemSize.0, typeName.0, count.0), fields), p));
  }

  /** `ItemSection.Write`. */
  method WriteItemSection(s: ItemSection) returns (out: seq<byte>)
    ensures out == ItemSectionBytes(s)
  {
    out := EncodeInt32(s.info.itemSize);
    out := out + WriteText(s.info.itemTypeName);
    out := out + EncodeInt32(s.info.fieldCount);
    ghost var head := out;
    for i := 0 to |s.fields|
      invariant out == head + FieldsBytes(s.fields[..i])
    {
      var field := s.fields[i];
      FieldsBytesSnoc(s.fields[..i], field);
      assert s.fields[..i + 1] == s.fields[..i] + [field];
      out := out + EncodeInt32(field.fieldType);
      out := out + EncodeInt32(field.offset);
      out := out + WriteText(field.name);
    }
    assert s.fields[..|s.fields|] == s.fields;
  }

  /** `ItemSection.Size`: `12 + |typeName| + Σ (12 + |name|)`, which is exactly the number
      of bytes `Write` emits. */
  method ItemSectionSize(s: ItemSection) returns (size: int)
    ensures size == |ItemSectionBytes(s)|
  {
    size := 0;
    size := size + 4;
    size := size + 4;
    size := size + |s.info.itemTypeName|;
    size := size + 4;
    for i := 0 to |s.fields|
      invariant size == 12 + |s.info.itemTypeName| + |FieldsBytes(s.fields[..i])|
    {
      var field := s.fields[i];
      FieldsBytesSnoc(s.fields[..i], field);
      assert s.fields[..i + 1] == s.fields[..i] + [field];
      size := size + 4;
      size := size + 4;
      size := size + 4;
      size := size + |field.name|;
    }
    assert s.fields[..|s.fields|] == s.fields;
  }

  // ===================================================================================
  // Time section

  datatype TimeSection = TimeSection(epoch: int64, ticksPerDay: int64, count: int32, offsets: seq<int32>)

  function Int32sBytes(xs: seq<int32>): (bs: seq<byte>)
    ensures |bs| == 4 * |xs|
  {
    if xs == [] then [] else EncodeInt32(xs[0]) + Int32sBytes(xs[1..])
  }

  lemma {:induction false} Int32sBytesSnoc(xs: seq<int32>, x: int32)
    ensures Int32sBytes(xs + [x]) == Int32sBytes(xs) + EncodeInt32(x)
  {
    if xs == [] {
      assert xs + [x] == [x];
      assert [x][1..] == [];
    } else {
      assert (xs + [x])[0] == xs[0];
      assert (xs + [x])[1..] == xs[1..] + [x];
      Int32sBytesSnoc(xs[1..], x);
    }
  }

  /** The layout `TimeSection.Write` emits: epoch, ticks per day, count, then the
      offsets, each an int32. */
  function TimeSectionBytes(t: TimeSection): seq<byte>
  {
    EncodeInt64(t.epoch) + EncodeInt64(t.ticksPerDay) + EncodeInt32(t.count) + Int32sBytes(t.offsets)
  }

  /** The offset loop of `TimeSection.Read` from iteration `i` on. */
  function ParseOffsets(data: seq<byte>, pos: nat, i: int, count: int, acc: seq<int32>)
    : Result<(seq<int32>, nat)>
    decreases count - i
  {
    if i >= count then
      Ok((acc, pos))
    else
      var (x, p) :- ReadInt32(data, pos);
      ParseOffsets(data, p, i + 1, count, acc + [x])
  }

  /** The loop reads exactly `count - i` offsets and consumes exactly their encoding. */
  lemma {:induction false} ParseOffsetsSound(data: seq<byte>, pos: nat, i: int, count: int, acc: seq<int32>,
                                             xs: seq<int32>, q: nat)
    requires pos <= |data|
    requires ParseOffsets(data, pos, i, count, acc) == Ok((xs, q))
    ensures |xs| == |acc| + Max0(count - i)
    ensures xs[..|acc|] == acc
    ensures q == pos + 4 * Max0(count - i)
    ensures At(data, pos, Int32sBytes(xs[|acc|..]))
    decreases count - i
  {
    if i >= count {
      assert xs[|acc|..] == [];
    } else {
      var (x, p) := ReadInt32(data, pos).value;
      ParseOffsetsSound(data, p, i + 1, count, acc + [x], xs, q);
      assert xs[..|acc|] == (xs[..|acc| + 1])[..|acc|];
      assert xs[|acc|] == (xs[..|acc| + 1])[|acc|];
      assert xs[|acc|..] == [x] + xs[|acc| + 1..];
      assert xs[|acc + [x]|..] == xs[|acc| + 1..];
      AtConcat(data, pos, EncodeInt32(x), Int32sBytes(xs[|acc| + 1..]));
    }
  }

  /** `TimeSection.Read`, as a function of the bytes and the cursor. */
  function ParseTimeSection(data: seq<byte>, pos: nat): Result<(TimeSection, nat)>
  {
    var (epoch, p1) :- ReadInt64(data, pos);
    var (ticks, p2) :- ReadInt64(data, p1);
    var (count, p3) :- ReadInt32(data, p2);
    var (offsets, p4) :- ParseOffsets(data, p3, 0, count as int, []);
    Ok((TimeSection(epoch, ticks, count, offsets), p4))
  }

  /** What `TimeSection.Read` accepts: on success it has read exactly `max(0, count)`
      offsets and consumed exactly the encoding of the section. */
  lemma ParseTimeSectionSound(data: seq<byte>, pos: nat, t: TimeSection, end: nat)
    requires ParseTimeSection(data, pos) == Ok((t, end))
    ensures |t.offsets| == Max0(t.count as int)
    ensures end == pos + |TimeSectionBytes(t)|
    ensures At(data, pos, TimeSectionBytes(t))
  {
    var (epoch, p1) := ReadInt64(data, pos).value;
    var (ticks, p2) := ReadInt64(data, p1).value;
    var (count, p3) := ReadInt32(data, p2).value;
    var r := ParseOffsets(data, p3, 0, count as int, []);
    assert r.Ok? && r.value == (t.offsets, end);
    ParseOffsetsSound(data, p3, 0, count as int, [], t.offsets, end);
    assert t.offsets[0..] == t.offsets;
    var a := EncodeInt64(epoch);
    var b := EncodeInt64(ticks);
    var c := EncodeInt32(count);
    AtConcat(data, pos, a, b);
    AtConcat(data, pos, a + b, c);
    AtConcat(data, pos, a + b + c, Int32sBytes(t.offsets));
  }

  lemma {:induction false} ParseOffsetsRoundTrip(data: seq<byte>, pos: nat, xs: seq<int32>, i: nat)
    requires i <= |xs|
    requires At(data, pos, Int32sBytes(xs[i..]))
    ensures ParseOffsets(data, pos, i, |xs|, xs[..i]) == Ok((xs, pos + 4 * (|xs| - i)))
    decreases |xs| - i
  {
    if i < |xs| {
      assert xs[i..] == [xs[i]] + xs[i + 1..];
      AtSplit(data, pos, EncodeInt32(xs[i]), Int32sBytes(xs[i + 1..]), pos + 4);
      ReadInt32At(data, pos, xs[i]);
      assert xs[..i] + [xs[i]] == xs[..i + 1];
      ParseOffsetsRoundTrip(data, pos + 4, xs, i + 1);
    } else {
      assert xs[..i] == xs;
    }
  }

  /** Reading a time section where one was written gives it back when its count is its
      number of offsets; exactly its bytes are consumed. */
  lemma TimeSectionRoundTrip(data: seq<byte>, pos: nat, t: TimeSection)
    requires t.count as int == |t.offsets|
    requires At(data, pos, TimeSectionBytes(t))
    ensures ParseTimeSection(data, pos) == Ok((t, pos + |TimeSectionBytes(t)|))
  {
    var a := EncodeInt64(t.epoch);
    var b := EncodeInt64(t.ticksPerDay);
    var c := EncodeInt32(t.count);
    AtConcat(data, pos, a + b + c, Int32sBytes(t.offsets));
    AtConcat(data, pos, a + b, c);
    AtConcat(data, pos, a, b);
    ReadInt64At(data, pos, t.epoch);
    ReadInt64At(data, pos + 8, t.ticksPerDay);
    ReadInt32At(data, pos + 16, t.count);
    assert t.offsets[0..] == t.offsets;
    assert t.offsets[..0] == [];
    ParseOffsetsRoundTrip(data, pos + 20, t.offsets, 0);
  }

  /** `TimeSection.Read`. */
  method ReadTimeSection(data: seq<byte>, pos: nat) returns (r: Result<(TimeSection, nat)>)
    ensures r == ParseTimeSection(data, pos)
  {
    var epoch :- ReadInt64(data, pos);
    var ticks :- ReadInt64(data, epoch.1);
    var count :- ReadInt32(data, ticks.1);
    var offsets: seq<int32> := [];
    var p := count.1;
    var i: nat := 0;
    while i < count.0 as int
      invariant ParseOffsets(data, p, i, count.0 as int, offsets) == ParseOffsets(data, count.1, 0, count.0 as int, [])
    {
      var offset :- ReadInt32(data, p);
      offsets := offsets + [offset.0];
      p := offset.1;
      i := i + 1;
    }
    r := Ok((TimeSection(epoch.0, ticks.0, count.0, offsets), p));
  }

  /** `TimeSection.Write`. */
  method WriteTimeSection(t: TimeSection) returns (out: seq<byte>)
    ensures out == TimeSectionBytes(t)
  {
    out := EncodeInt64(t.epoch);
    out := out + EncodeInt64(t.ticksPerDay);
    out := out + EncodeInt32(t.count);
    ghost var head := out;
    for i := 0 to |t.offsets|
      invariant out == head + Int32sBytes(t.offsets[..i])
    {
      Int32sBytesSnoc(t.offsets[..i], t.offsets[i]);
      assert t.offsets[..i + 1] == t.offsets[..i] + [t.offsets[i]];
      out := out + EncodeInt32(t.offsets[i]);
    }
    assert t.offsets[..|t.offsets|] == t.offsets;
  }

  /** `TimeSection.Size`: `20 + 4 * |offsets|`, exactly the number of bytes `Write`
      emits. */
  function TimeSectionSize(t: TimeSection): (size: int)
    ensures size == |TimeSectionBytes(t)|
  {
    8 + 8 + 4 + 4 * |t.offsets|
  }

  // ===================================================================================
  // Content description section

  datatype ContentDescriptionSection = ContentDescriptionSection(contentDescription: Text)

  /** `ContentDescriptionSection.Write`: the description as text. */
  function WriteContentDescription(s: ContentDescriptionSection): seq<byte>
  {
    WriteText(s.contentDescription)
  }

  /** `ContentDescriptionSection.Read`: on success what is consumed is exactly the
      encoding of the section returned. */
  function ReadContentDescription(data: seq<byte>, pos: nat): (r: Result<(ContentDescriptionSection, nat)>)
    ensures r.Ok? ==>
      && r.value.1 == pos + |WriteContentDescription(r.value.0)|
      && At(data, pos, WriteContentDescription(r.value.0))
    ensures r.Err? ==> ReadText(data, pos).Err?
  {
    var (text, p) :- ReadText(data, pos);
    Ok((ContentDescriptionSection(text), p))
  }

  /** `ContentDescriptionSection.Size`: `4 + |text|`, exactly the bytes `Write` emits. */
  function ContentDescriptionSize(s: ContentDescriptionSection): (size: int)
    ensures size == |WriteContentDescription(s)|
  {
    4 + |s.contentDescription|
  }

  lemma ContentDescriptionRoundTrip(data: seq<byte>, pos: nat, s: ContentDescriptionSection)
    requires At(data, pos, WriteContentDescription(s))
    ensures ReadContentDescription(data, pos) == Ok((s, pos + |WriteContentDescription(s)|))
  {
    ReadWriteText(data, pos, s.contentDescription);
  }
}
