/** The record type a tea file stores, as Go's `reflect` package describes a struct
    type, and `checkDataType`, which compares such a type with the item section of a
    file. The model replaces `reflect.Type` by the type's name, its size and its fields
    in declaration order. */
module Schema {
  import opened Errors
  import opened Binary
  import opened Utils
  import opened Constants
  import opened Sections

  /** `reflect.StructField`: the field's name, the kind of its type and its byte offset
      (a `uintptr`). */
  datatype StructField = StructField(name: Text, kind: Kind, offset: uint64)

  /** `reflect.Type` of a struct: `Name()`, `Size()` and `Field(0)` ... `Field(NumField() - 1)`. */
  datatype RecordType = RecordType(name: Text, size: uint64, fields: seq<StructField>)

  /** The blank identifier `_` as a field name (the byte 0x5f). */
  const Blank: Text := [0x5f]

  /** The fields `checkDataType` compares: all but those named `_`, in declaration order. */
  function NamedFields(fs: seq<StructField>): (r: seq<StructField>)
    ensures |r| <= |fs|
    ensures forall f :: f in r ==> f in fs && f.name != Blank
    ensures (forall j :: 0 <= j < |fs| ==> fs[j].name != Blank) ==> r == fs
  {
    if fs == [] then []
    else
      var last := fs[|fs| - 1];
      NamedFields(fs[..|fs| - 1]) + (if last.name != Blank then [last] else [])
  }

  /** A field named `_` anywhere among the fields makes the named fields strictly fewer. */
  lemma {:induction false} BlankShortens(fs: seq<StructField>, j: nat)
    requires j < |fs| && fs[j].name == Blank
    ensures |NamedFields(fs)| < |fs|
    decreases |fs|
  {
    var init := fs[..|fs| - 1];
    if j < |fs| - 1 {
      assert init[j] == fs[j];
      BlankShortens(init, j);
    }
  }

  /** Go's `uintptr(x)` for an int32 `x`: sign extension to 64 bits. */
  function ToUintptr(x: int32): (r: uint64)
    ensures x >= 0 ==> r == x
    ensures x < 0 ==> r >= 0x8000_0000_0000_0000
  {
    if x < 0 then x + 0x1_0000_0000_0000_0000 else x
  }

  /** A record field agrees with a field of the file's item section: its kind is the
      kind `fieldTypeToKind` gives the file's type code, and the offsets are equal. */
  predicate FieldMatches(d: StructField, f: ItemSectionField)
  {
    d.kind == KindOfFieldType(f.fieldType) && d.offset == ToUintptr(f.offset)
  }

  /** The first `n` fields agree pairwise. */
  predicate MatchesUpTo(named: seq<StructField>, fileFields: seq<ItemSectionField>, n: nat)
    requires n <= |named| && n <= |fileFields|
  {
    forall j :: 0 <= j < n ==> FieldMatches(named[j], fileFields[j])
  }

  /** What `checkDataType` accepts: as many fields not named `_` as the item section
      has, agreeing pairwise. */
  predicate Agrees(typ: RecordType, item: ItemSection)
  {
    |NamedFields(typ.fields)| == |item.fields| && MatchesUpTo(NamedFields(typ.fields), item.fields, |item.fields|)
  }

  /** The error `checkDataType` reports for a field that does not agree: the kind is
      compared first. */
  function MismatchError(d: StructField, f: ItemSectionField, i: int): (e: Error)
    ensures e == FieldKindMismatch(i) <==> d.kind != KindOfFieldType(f.fieldType)
    ensures e == FieldOffsetMismatch(i) <==> d.kind == KindOfFieldType(f.fieldType)
  {
    if d.kind != KindOfFieldType(f.fieldType) then FieldKindMismatch(i) else FieldOffsetMismatch(i)
  }

  /** The first loop of `checkDataType`: collects the fields not named `_`. */
  method CollectNamedFields(fs: seq<StructField>) returns (fields: seq<StructField>)
    ensures fields == NamedFields(fs)
  {
    fields := [];
    for i := 0 to |fs|
      invariant fields == NamedFields(fs[..i])
    {
      assert fs[..i + 1][..i] == fs[..i];
      if fs[i].name != Blank {
        fields := fields + [fs[i]];
      }
    }
    assert fs[..|fs|] == fs;
  }

  /** The second loop of `checkDataType`, over fields of equal number: fails at the
      first pair that does not agree, which is field `at`, and passes when all agree. */
  method CompareFields(fields: seq<StructField>, fileFields: seq<ItemSectionField>) returns (r: Outcome, ghost at: nat)
    requires |fields| == |fileFields|
    ensures r == Pass <==> MatchesUpTo(fields, fileFields, |fields|)
    ensures r.Fail? ==>
      && at < |fields|
      && MatchesUpTo(fields, fileFields, at)
      && r.error == MismatchError(fields[at], fileFields[at], at)
  {
    at := 0;
    for i := 0 to |fields|
      invariant MatchesUpTo(fields, fileFields, i)
    {
      var dataField := fields[i];
      var fileField := fileFields[i];
      if dataField.kind != KindOfFieldType(fileField.fieldType) {
        return Fail(FieldKindMismatch(i)), i;
      }
      if dataField.offset != ToUintptr(fileField.offset) {
        return Fail(FieldOffsetMismatch(i)), i;
      }
    }
    r := Pass;
  }

  /** `checkDataType`: drops the fields named `_`; fails if the number left differs from
      the number of fields in the file (the error reports the type's full field count);
      otherwise fails at the first field whose kind or offset differs, and succeeds when
      there is none. With no item section the source dereferences nil. `at` is the index
      of the field that failed. */
  method CheckDataType(typ: RecordType, item: Option<ItemSection>) returns (r: Outcome, ghost at: nat)
    ensures item.None? ==> r == Fail(Panic(NilDereference))
    ensures item.Some? ==> (r == Pass <==> Agrees(typ, item.value))
    ensures item.Some? && |NamedFields(typ.fields)| != |item.value.fields| ==>
      r == Fail(FieldCountMismatch(|typ.fields|, |item.value.fields|))
    ensures item.Some? && |NamedFields(typ.fields)| == |item.value.fields| ==>
      (r == Pass <==> MatchesUpTo(NamedFields(typ.fields), item.value.fields, |item.value.fields|))
    ensures item.Some? && |NamedFields(typ.fields)| == |item.value.fields| && r.Fail? ==>
      && at < |item.value.fields|
      && MatchesUpTo(NamedFields(typ.fields), item.value.fields, at)
      && r.error == MismatchError(NamedFields(typ.fields)[at], item.value.fields[at], at)
  {
    var fields := CollectNamedFields(typ.fields);
    if item.None? {
      return Fail(Panic(NilDereference)), 0;
    }
    if |fields| != |item.value.fields| {
      return Fail(FieldCountMismatch(|typ.fields|, |item.value.fields|)), 0;
    }
    r, at := CompareFields(fields, item.value.fields);
  }
}
