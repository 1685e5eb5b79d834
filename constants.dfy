/** The format's fixed numbers: section IDs, name-value tags, and the table between
    field type codes and the kinds of Go's `reflect` package. */
module Constants {
  import opened Errors
  import opened Binary

  const ItemSectionId: int32 := 0x0a
  const ContentDescriptionSectionId: int32 := 0x80
  const NameValueSectionId: int32 := 0x81
  const TimeSectionId: int32 := 0x40

  const NameValueInt32: int32 := 1
  const NameValueDouble: int32 := 2
  const NameValueText: int32 := 3
  const NameValueUuid: int32 := 4
  const NameValueUint64: int32 := 5

  /** The four kinds of section a file may hold. */
  datatype SectionKind = ItemKind | ContentDescriptionKind | NameValueKind | TimeKind

  function SectionId(k: SectionKind): int32
  {
    match k
    case ItemKind => ItemSectionId
    case ContentDescriptionKind => ContentDescriptionSectionId
    case NameValueKind => NameValueSectionId
    case TimeKind => TimeSectionId
  }

  /** The `switch sectionID` of `readHeader`: which decoder an ID selects, if any. Since
      every kind is found by its own ID, the four IDs are pairwise distinct. */
  function SectionKindOf(id: int32): (r: Option<SectionKind>)
    ensures forall k :: SectionId(k) == id ==> r == Some(k)
    ensures r.Some? ==> SectionId(r.value) == id
  {
    if id == ItemSectionId then Some(ItemKind)
    else if id == ContentDescriptionSectionId then Some(ContentDescriptionKind)
    else if id == NameValueSectionId then Some(NameValueKind)
    else if id == TimeSectionId then Some(TimeKind)
    else None
  }

  /** The Go types a name-value entry may hold (the keys of `typeToNameValueType`). */
  datatype ValueType = Int32Type | Float64Type | StringType | UuidType | Uint64Type

  /** `typeToNameValueType`: the tag written for a value of each type. */
  function TypeToNameValueType(t: ValueType): int32
  {
    match t
    case Int32Type => 1
    case Float64Type => 2
    case StringType => 3
    case UuidType => 4
    case Uint64Type => 5
  }

  /** The `switch kind` of `NameValueSection.Read`: the value type a tag announces.
      It inverts `TypeToNameValueType` (so the tags written are the tag constants), and a
      tag that no type is written with selects none. */
  function ValueTypeOfTag(tag: int32): (r: Option<ValueType>)
    ensures forall t :: TypeToNameValueType(t) == tag ==> r == Some(t)
    ensures r.Some? ==> TypeToNameValueType(r.value) == tag
  {
    if tag == NameValueInt32 then Some(Int32Type)
    else if tag == NameValueDouble then Some(Float64Type)
    else if tag == NameValueText then Some(StringType)
    else if tag == NameValueUuid then Some(UuidType)
    else if tag == NameValueUint64 then Some(Uint64Type)
    else None
  }

  /** Go's `reflect.Kind`; `Invalid` is its zero value. */
  datatype Kind =
    | Invalid | Bool | Int | Int8 | Int16 | Int32 | Int64
    | Uint | Uint8 | Uint16 | Uint32 | Uint64 | Uintptr
    | Float32 | Float64 | Complex64 | Complex128
    | Array | Chan | Func | Interface | Map | Ptr | Slice | String | Struct | UnsafePointer

  /** `fieldTypeToKind`, indexed as Go indexes a map: the codes 1..10 of the format,
      and the zero kind for any other code. */
  function KindOfFieldType(code: int32): Kind
  {
    if code == 1 then Int8
    else if code == 2 then Int16
    else if code == 3 then Int32
    else if code == 4 then Int64
    else if code == 5 then Uint8
    else if code == 6 then Uint16
    else if code == 7 then Uint32
    else if code == 8 then Uint64
    else if code == 9 then Float32
    else if code == 10 then Float64
    else Invalid
  }

  /** `kindToFieldType` as `init` leaves it, indexed as Go indexes a map: a kind with no
      code gives 0. */
  function FieldTypeOfKind(k: Kind): int32
  {
    match k
    case Int8 => 1
    case Int16 => 2
    case Int32 => 3
    case Int64 => 4
    case Uint8 => 5
    case Uint16 => 6
    case Uint32 => 7
    case Uint64 => 8
    case Float32 => 9
    case Float64 => 10
    case _ => 0
  }

  /** The kinds a record field may have in a tea file. */
  predicate SupportedKind(k: Kind)
  {
    FieldTypeOfKind(k) != 0
  }

  const FieldTypeCodes: set<int32> := set c: int32 | 1 <= c <= 10

  /** The two tables are inverse on the codes 1..10 and on the ten supported kinds;
      so `fieldTypeToKind` is injective, and any other code means the zero kind. */
  lemma FieldTypeInverse(c: int32, k: Kind)
    ensures c in FieldTypeCodes ==> SupportedKind(KindOfFieldType(c)) && FieldTypeOfKind(KindOfFieldType(c)) == c
    ensures c !in FieldTypeCodes ==> KindOfFieldType(c) == Invalid && !SupportedKind(Invalid)
    ensures SupportedKind(k) ==> FieldTypeOfKind(k) in FieldTypeCodes && KindOfFieldType(FieldTypeOfKind(k)) == k
  {
  }

  /** `init`: fills `kindToFieldType` by ranging over `fieldTypeToKind` in whatever
      order the Go runtime picks; the table is injective, so the order cannot matter. */
  method InitKindToFieldType() returns (kindToFieldType: map<Kind, int32>)
    ensures forall c :: c in FieldTypeCodes ==>
      KindOfFieldType(c) in kindToFieldType && kindToFieldType[KindOfFieldType(c)] == c
    ensures forall k :: k in kindToFieldType <==> SupportedKind(k)
    ensures forall k :: k in kindToFieldType ==> kindToFieldType[k] == FieldTypeOfKind(k)
  {
    kindToFieldType := map[];
    var todo := FieldTypeCodes;
    while todo != {}
      invariant todo <= FieldTypeCodes
      invariant forall k :: k in kindToFieldType <==> SupportedKind(k) && FieldTypeOfKind(k) !in todo
      invariant forall k :: k in kindToFieldType ==> kindToFieldType[k] == FieldTypeOfKind(k)
      decreases |todo|
    {
      var field :| field in todo;
      FieldTypeInverse(field, Invalid);
      forall k | SupportedKind(k) ensures FieldTypeOfKind(k) == field ==> k == KindOfFieldType(field) {
        FieldTypeInverse(field, k);
      }
      kindToFieldType := kindToFieldType[KindOfFieldType(field) := field];
      todo := todo - {field};
    }
    forall c | c in FieldTypeCodes
      ensures KindOfFieldType(c) in kindToFieldType && kindToFieldType[KindOfFieldType(c)] == c
    {
      FieldTypeInverse(c, Invalid);
    }
  }
}
