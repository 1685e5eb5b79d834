/** The options `Create` takes (`TeaFileConfig`), and the sections they derive: the
    item section from a record type, and the time section from indexes of its fields. */
module Configs {
  import opened Errors
  import opened Binary
  import opened Utils
  import opened Constants
  import opened Sections
  import opened NameValueSections
  import opened Schema
  import opened Headers

  /** A configuration option; `Create` applies them in the order given, and each one
      replaces the section it sets. */
  datatype TeaFileConfig =
    | WithDataType(typ: RecordType)
    | WithContentDescription(description: Text)
    | WithNameValues(nameValues: NameValues)
    | WithTimeFields(epoch: int64, ticksPerDay: int64, indexes: seq<int32>)

  /** The field of the item section `WithDataType` derives from field `i` of the record
      type: the name is kept; index and offset are converted to int32; the type code is
      the one `kindToFieldType` holds for the kind, and 0 for a kind it does not hold. */
  function FieldOf(d: StructField, i: int): (f: ItemSectionField)
    ensures f.name == d.name
    ensures 0 <= i < 0x8000_0000 ==> f.index == i
    ensures d.offset < 0x8000_0000 ==> f.offset == d.offset
    ensures SupportedKind(d.kind) ==> KindOfFieldType(f.fieldType) == d.kind
    ensures !SupportedKind(d.kind) ==> f.fieldType == 0
  {
    FieldTypeInverse(0, d.kind);
    ItemSectionField(WrapInt32(i), FieldTypeOfKind(d.kind), WrapInt32(d.offset), d.name)
  }

  /** The item section `WithDataType` builds for a record type. */
  function ItemSectionOf(typ: RecordType): ItemSection
  {
    ItemSection(
      ItemSectionInfo(WrapInt32(typ.size), typ.name, WrapInt32(|typ.fields|)),
      seq(|typ.fields|, i requires 0 <= i < |typ.fields| => FieldOf(typ.fields[i], i)))
  }

  /** The loop of `WithDataType`: one item-section field per record field, in order. */
  method DeriveItemSection(typ: RecordType) returns (s: ItemSection)
    ensures s == ItemSectionOf(typ)
  {
    var fields: seq<ItemSectionField> := [];
    for i := 0 to |typ.fields|
      invariant |fields| == i
      invariant forall j :: 0 <= j < i ==> fields[j] == FieldOf(typ.fields[j], j)
    {
      var itemField := FieldOf(typ.fields[i], i);
      fields := fields + [itemField];
    }
    s := ItemSection(ItemSectionInfo(WrapInt32(typ.size), typ.name, WrapInt32(|typ.fields|)), fields);
  }

  /** A record type with fewer than 2^31 fields gives a canonical item section: the
      field count is the number of fields and the indices are the positions; the item
      size and every offset that fit int32 are the record's own. */
  lemma DerivedCanonical(typ: RecordType)
    requires |typ.fields| < 0x8000_0000
    ensures CanonicalItemSection(ItemSectionOf(typ))
    ensures typ.size < 0x8000_0000 ==> ItemSectionOf(typ).info.itemSize == typ.size
    ensures forall j :: 0 <= j < |typ.fields| && typ.fields[j].offset < 0x8000_0000 ==>
      ItemSectionOf(typ).fields[j].offset == typ.fields[j].offset
  {
  }

  /** A record type always agrees with the item section derived from it, as
      `checkDataType` compares them, exactly when all its field kinds are ones the format
      supports (given no field named `_`, no `Invalid` kind, and offsets that fit int32). */
  lemma DerivedPassesCheck(typ: RecordType)
    requires |typ.fields| < 0x8000_0000
    requires forall j :: 0 <= j < |typ.fields| ==>
      typ.fields[j].name != Blank && typ.fields[j].kind != Invalid && typ.fields[j].offset < 0x8000_0000
    ensures |NamedFields(typ.fields)| == |ItemSectionOf(typ).fields|
    ensures MatchesUpTo(NamedFields(typ.fields), ItemSectionOf(typ).fields, |typ.fields|) <==>
      forall j :: 0 <= j < |typ.fields| ==> SupportedKind(typ.fields[j].kind)
  {
    var s := ItemSectionOf(typ);
    if forall j :: 0 <= j < |typ.fields| ==> SupportedKind(typ.fields[j].kind) {
      forall j | 0 <= j < |typ.fields| ensures FieldMatches(typ.fields[j], s.fields[j]) {
        assert s.fields[j] == FieldOf(typ.fields[j], j);
      }
    } else {
      var j :| 0 <= j < |typ.fields| && !SupportedKind(typ.fields[j].kind);
      assert s.fields[j] == FieldOf(typ.fields[j], j);
      assert !FieldMatches(typ.fields[j], s.fields[j]);
    }
  }

  /** A record type with a field named `_` never agrees with the item section derived
      from it: the derived section keeps every field while `checkDataType` drops the
      blank ones, so the counts differ and `Create` fails with a field-count mismatch. */
  lemma BlankFieldRejected(typ: RecordType, j: nat)
    requires j < |typ.fields| && typ.fields[j].name == Blank
    ensures |NamedFields(typ.fields)| < |ItemSectionOf(typ).fields| == |typ.fields|
    ensures !Agrees(typ, ItemSectionOf(typ))
  {
    BlankShortens(typ.fields, j);
  }

  /** The offsets `WithTimeFields` collects: the offset of each indexed field of the
      item section, in the order of the indexes. Indexing panics when there is no item
      section, or when an index is outside the fields; with no indexes nothing is read. */
  function TimeOffsetsOf(item: Option<ItemSection>, indexes: seq<int32>): (r: Result<seq<int32>>)
    ensures r.Ok? <==>
      indexes == [] || (item.Some? && forall j :: 0 <= j < |indexes| ==> 0 <= indexes[j] < |item.value.fields|)
    ensures r.Ok? ==> |r.value| == |indexes|
    ensures r.Ok? && item.Some? ==>
      forall j :: 0 <= j < |indexes| ==> r.value[j] == item.value.fields[indexes[j]].offset
    ensures r.Err? && item.None? ==> r.error == Panic(NilDereference)
    ensures r.Err? && item.Some? ==> r.error == Panic(IndexOutOfRange)
  {
    if indexes == [] then Ok([])
    else if item.None? then Err(Panic(NilDereference))
    else if !(0 <= indexes[0] < |item.value.fields|) then Err(Panic(IndexOutOfRange))
    else
      var rest :- TimeOffsetsOf(item, indexes[1..]);
      assert forall j :: 1 <= j < |indexes| ==> indexes[j] == indexes[1..][j - 1];
      Ok([item.value.fields[indexes[0]].offset] + rest)
  }

  /** The loop of `WithTimeFields`. */
  method CollectTimeOffsets(item: Option<ItemSection>, indexes: seq<int32>) returns (r: Result<seq<int32>>)
    ensures r == TimeOffsetsOf(item, indexes)
  {
    var offsets: seq<int32> := [];
    for i := 0 to |indexes|
      invariant item.Some? || i == 0
      invariant |offsets| == i
      invariant forall j :: 0 <= j < i ==> item.Some? && 0 <= indexes[j] < |item.value.fields|
      invariant forall j :: 0 <= j < i ==> offsets[j] == item.value.fields[indexes[j]].offset
    {
      if item.None? {
        return Err(Panic(NilDereference));
      }
      var idx := indexes[i];
      if !(0 <= idx < |item.value.fields|) {
        return Err(Panic(IndexOutOfRange));
      }
      offsets := offsets + [item.value.fields[idx].offset];
    }
    var expected := TimeOffsetsOf(item, indexes);
    if indexes != [] {
      assert offsets == expected.value;
    }
    r := Ok(offsets);
  }

  /** The time section `WithTimeFields` stores: the count is the number of offsets,
      converted to int32. */
  function TimeSectionOf(epoch: int64, ticksPerDay: int64, offsets: seq<int32>): (t: TimeSection)
    ensures t.offsets == offsets && t.epoch == epoch && t.ticksPerDay == ticksPerDay
    ensures |offsets| < 0x8000_0000 ==> t.count == |offsets|
  {
    TimeSection(epoch, ticksPerDay, WrapInt32(|offsets|), offsets)
  }

  /** The test's record type `Data`: `Time uint64; Price uint8; Volume uint64; Prob
      uint8; Prib uint64`, laid out with 8-byte alignment. */
  const DataType: RecordType := RecordType(
    [0x44, 0x61, 0x74, 0x61], 40,
    [ StructField([0x54, 0x69, 0x6d, 0x65], Uint64, 0),
      StructField([0x50, 0x72, 0x69, 0x63, 0x65], Uint8, 8),
      StructField([0x56, 0x6f, 0x6c, 0x75, 0x6d, 0x65], Uint64, 16),
      StructField([0x50, 0x72, 0x6f, 0x62], Uint8, 24),
      StructField([0x50, 0x72, 0x69, 0x62], Uint64, 32) ])

  /** The test's expected item section for `Data`: item size 40, five fields with the
      type codes 8 (uint64) and 5 (uint8) at offsets 0, 8, 16, 24, 32. */
  lemma DataTypeItemSection()
    ensures ItemSectionOf(DataType) == ItemSection(
      ItemSectionInfo(40, [0x44, 0x61, 0x74, 0x61], 5),
      [ ItemSectionField(0, 8, 0, [0x54, 0x69, 0x6d, 0x65]),
        ItemSectionField(1, 5, 8, [0x50, 0x72, 0x69, 0x63, 0x65]),
        ItemSectionField(2, 8, 16, [0x56, 0x6f, 0x6c, 0x75, 0x6d, 0x65]),
        ItemSectionField(3, 5, 24, [0x50, 0x72, 0x6f, 0x62]),
        ItemSectionField(4, 8, 32, [0x50, 0x72, 0x69, 0x62]) ])
  {
    var s := ItemSectionOf(DataType);
    assert s.fields[0] == FieldOf(DataType.fields[0], 0);
    assert s.fields[1] == FieldOf(DataType.fields[1], 1);
    assert s.fields[2] == FieldOf(DataType.fields[2], 2);
    assert s.fields[3] == FieldOf(DataType.fields[3], 3);
    assert s.fields[4] == FieldOf(DataType.fields[4], 4);
  }

  /** The test's time section: the field at index 0 gives the single offset 0. */
  lemma DataTypeTimeSection()
    ensures TimeOffsetsOf(Some(ItemSectionOf(DataType)), [0]) == Ok([0])
    ensures TimeSectionOf(719162, 86400000, [0]) == TimeSection(719162, 86400000, 1, [0])
  {
    var item := Some(ItemSectionOf(DataType));
    assert item.value.fields[0] == FieldOf(DataType.fields[0], 0);
    assert |item.value.fields| == 5;
    var r := TimeOffsetsOf(item, [0]);
    assert r.Ok? && |r.value| == 1 && r.value[0] == 0;
    assert r.value == [0];
  }

  // ---------------------------------------------------------------------------------
  // Applying the options

  /** What the options have set so far: the record type and the four sections. */
  datatype Settings = Settings(dataType: Option<RecordType>, secs: FileSections)

  /** A new `TeaFile`: nothing set. */
  const Unset := Settings(None, NoSections)

  /** One option applied: each sets its own section (and `WithDataType` also the record
      type), replacing what an earlier option of the same kind had set; `WithTimeFields`
      reads the item section set so far and can panic. */
  function ConfigStep(st: Settings, c: TeaFileConfig): Result<Settings>
  {
    match c
    case WithDataType(typ) => Ok(Settings(Some(typ), st.secs.(item := Some(ItemSectionOf(typ)))))
    case WithContentDescription(d) =>
      Ok(st.(secs := st.secs.(contentDescription := Some(ContentDescriptionSection(d)))))
    case WithNameValues(m) => Ok(st.(secs := st.secs.(nameValues := Some(m))))
    case WithTimeFields(epoch, ticksPerDay, indexes) =>
      var offsets :- TimeOffsetsOf(st.secs.item, indexes);
      Ok(st.(secs := st.secs.(time := Some(TimeSectionOf(epoch, ticksPerDay, offsets)))))
  }

  /** The options applied in the order given (the loop of `Create`); the first panic
      ends it. */
  function Configure(st: Settings, cs: seq<TeaFileConfig>): Result<Settings>
    decreases |cs|
  {
    if cs == [] then Ok(st)
    else
      var prev :- Configure(st, cs[..|cs| - 1]);
      ConfigStep(prev, cs[|cs| - 1])
  }

  /** What options can set: an item section exactly when a record type, and then the one
      derived from it; a time section whose count is its number of offsets as int32. */
  predicate Configured(st: Settings)
  {
    && (st.secs.item.Some? <==> st.dataType.Some?)
    && (st.dataType.Some? ==> st.secs.item == Some(ItemSectionOf(st.dataType.value)))
    && (st.secs.time.Some? ==> st.secs.time.value.count == WrapInt32(|st.secs.time.value.offsets|))
  }

  /** Every sequence of options that does not panic leaves a configured `TeaFile`. */
  lemma {:induction false} ConfigureConfigured(cs: seq<TeaFileConfig>)
    ensures Configure(Unset, cs).Ok? ==> Configured(Configure(Unset, cs).value)
    decreases |cs|
  {
    if cs != [] {
      ConfigureConfigured(cs[..|cs| - 1]);
    }
  }

  /** A panic in the options ends `Create` with it, whatever options follow. */
  lemma {:induction false} ConfigureFailurePersists(st: Settings, cs: seq<TeaFileConfig>, k: nat)
    requires k <= |cs| && Configure(st, cs[..k]).Err?
    ensures Configure(st, cs) == Err(Configure(st, cs[..k]).error)
    decreases |cs| - k
  {
    if k < |cs| {
      assert cs[..k + 1][..k] == cs[..k];
      ConfigureFailurePersists(st, cs, k + 1);
    } else {
      assert cs[..k] == cs;
    }
  }

  /** `WithTimeFields` with indexes needs `WithDataType` before it: without one among the
      earlier options it dereferences the missing item section. */
  lemma {:induction false} TimeFieldsNeedDataType(cs: seq<TeaFileConfig>, epoch: int64, ticksPerDay: int64, indexes: seq<int32>)
    requires indexes != [] && forall j :: 0 <= j < |cs| ==> !cs[j].WithDataType?
    requires Configure(Unset, cs).Ok?
    ensures Configure(Unset, cs + [WithTimeFields(epoch, ticksPerDay, indexes)]) == Err(Panic(NilDereference))
  {
    NoDataTypeNoItem(cs);
    assert (cs + [WithTimeFields(epoch, ticksPerDay, indexes)])[..|cs|] == cs;
  }

  lemma {:induction false} NoDataTypeNoItem(cs: seq<TeaFileConfig>)
    requires forall j :: 0 <= j < |cs| ==> !cs[j].WithDataType?
    ensures Configure(Unset, cs).Ok? ==> Configure(Unset, cs).value.secs.item.None?
    decreases |cs|
  {
    if cs != [] {
      NoDataTypeNoItem(cs[..|cs| - 1]);
    }
  }

  /** The options of the test that creates `acme.tea`: the record type `Data`, a content
      description, time fields at index 0 and two name-values. They set all four
      sections, with the time section holding the single offset 0. */
  lemma TestOptions(description: Text, nameValues: NameValues)
    ensures Configure(Unset, [WithDataType(DataType), WithContentDescription(description),
                              WithTimeFields(719162, 86400000, [0]), WithNameValues(nameValues)])
      == Ok(Settings(Some(DataType), FileSections(Some(ItemSectionOf(DataType)),
              Some(ContentDescriptionSection(description)), Some(nameValues),
              Some(TimeSection(719162, 86400000, 1, [0])))))
  {
    var c1 := [WithDataType(DataType)];
    var c2 := c1 + [WithContentDescription(description)];
    var c3 := c2 + [WithTimeFields(719162, 86400000, [0])];
    var c4 := c3 + [WithNameValues(nameValues)];
    assert c1[..0] == [] && c2[..1] == c1 && c3[..2] == c2 && c4[..3] == c3;
    var item := Some(ItemSectionOf(DataType));
    var s1 := Settings(Some(DataType), FileSections(item, None, None, None));
    var s2 := Settings(Some(DataType), FileSections(item, Some(ContentDescriptionSection(description)), None, None));
    var time := TimeSection(719162, 86400000, 1, [0]);
    assert Configure(Unset, c1) == Ok(s1);
    assert Configure(Unset, c2) == Ok(s2);
    DataTypeTimeSection();
    assert Configure(Unset, c3) == Ok(s2.(secs := s2.secs.(time := Some(time))));
    assert c4 == [WithDataType(DataType), WithContentDescription(description),
                  WithTimeFields(719162, 86400000, [0]), WithNameValues(nameValues)];
  }
}
