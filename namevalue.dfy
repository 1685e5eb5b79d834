/** The name-value section: a count, then per entry a name, a type tag and a value
    whose width the tag fixes. The section is a Go map, so entries are written in the
    runtime's iteration order, which the model leaves open: every operation that ranges
    over the map says which enumeration of its keys it used, and everything proved holds
    for all of them. */
module NameValueSections {
  import opened Errors
  import opened Binary
  import opened Utils
  import opened Constants

  type Bytes8 = s: seq<byte> | |s| == 8 witness [0, 0, 0, 0, 0, 0, 0, 0]
  type Bytes16 = s: seq<byte> | |s| == 16 witness [0, 0, 0, 0, 0, 0, 0, 0, 0, 0, 0, 0, 0, 0, 0, 0]

  /** A value of one of the five types the section can hold. A float64 and a UUID are
      carried as their raw bytes. */
  datatype Value =
    | Int32Value(i: int32)
    | DoubleValue(bits: Bytes8)
    | TextValue(text: Text)
    | UuidValue(uuid: Bytes16)
    | Uint64Value(u: uint64)

  type NameValues = map<Text, Value>

  function TypeOf(v: Value): ValueType
  {
    match v
    case Int32Value(_) => Int32Type
    case DoubleValue(_) => Float64Type
    case TextValue(_) => StringType
    case UuidValue(_) => UuidType
    case Uint64Value(_) => Uint64Type
  }

  /** What `binary.Write` (or `writeText`, for a string) emits for a value. */
  function ValueBytes(v: Value): (bs: seq<byte>)
    ensures |bs| == ValueWidth(v)
  {
    match v
    case Int32Value(i) => EncodeInt32(i)
    case DoubleValue(bits) => bits
    case TextValue(s) => WriteText(s)
    case UuidValue(u) => u
    case Uint64Value(u) => EncodeUint64(u)
  }

  /** The payload width a tag fixes: 4, 8, 8 and 16 bytes, or the text's length prefix
      plus its bytes. */
  function ValueWidth(v: Value): nat
  {
    match v
    case Int32Value(_) => 4
    case DoubleValue(_) => 8
    case TextValue(s) => 4 + |s|
    case UuidValue(_) => 16
    case Uint64Value(_) => 8
  }

  /** One entry as the loop of `NameValueSection.Write` emits it. */
  function EntryBytes(name: Text, v: Value): (bs: seq<byte>)
    ensures |bs| == 8 + |name| + ValueWidth(v)
  {
    WriteText(name) + EncodeInt32(TypeToNameValueType(TypeOf(v))) + ValueBytes(v)
  }

  // ---------------------------------------------------------------------------------
  // Enumerations of the keys and sums over them

  predicate Distinct(ks: seq<Text>)
  {
    forall i, j :: 0 <= i < j < |ks| ==> ks[i] != ks[j]
  }

  /** `order` lists every key of `m` exactly once: one possible order of `range`. */
  ghost predicate IsEnumeration(order: seq<Text>, m: NameValues)
  {
    Distinct(order) && forall k :: k in order <==> k in m
  }

  /** The entries in the order given. */
  function EntriesBytes(m: NameValues, order: seq<Text>): seq<byte>
    requires forall k :: k in order ==> k in m
  {
    if order == [] then [] else EntryBytes(order[0], m[order[0]]) + EntriesBytes(m, order[1..])
  }

  /** `NameValueSection.Write` when `range` visits the keys in `order`. */
  function NameValueBytes(m: NameValues, order: seq<Text>): seq<byte>
    requires forall k :: k in order ==> k in m
  {
    EncodeInt32(WrapInt32(|m|)) + EntriesBytes(m, order)
  }

  /** The two per-entry measures the source computes: the bytes an entry is encoded in,
      and what `NameValueSection.Size` adds for it. */
  datatype Measure = Encoded | Declared

  /** `reflect.TypeOf(v).Size()` on a 64-bit platform: a string is a two-word header,
      a UUID a 16-byte array. */
  function GoSizeof(t: ValueType): nat
  {
    match t
    case Int32Type => 4
    case Float64Type => 8
    case StringType => 16
    case UuidType => 16
    case Uint64Type => 8
  }

  function EntryMeasure(measure: Measure, m: NameValues, k: Text): int
  {
    if k !in m then 0
    else match measure
      case Encoded => 8 + |k| + ValueWidth(m[k])
      case Declared => 1 + |k| + 1 + GoSizeof(TypeOf(m[k]))
  }

  function SumOver(measure: Measure, m: NameValues, ks: seq<Text>): (r: int)
    ensures r >= 0
  {
    if ks == [] then 0 else EntryMeasure(measure, m, ks[0]) + SumOver(measure, m, ks[1..])
  }

  lemma {:induction false} SumOverSnoc(measure: Measure, m: NameValues, ks: seq<Text>, k: Text)
    ensures SumOver(measure, m, ks + [k]) == SumOver(measure, m, ks) + EntryMeasure(measure, m, k)
  {
    if ks == [] {
      assert ks + [k] == [k];
      assert [k][1..] == [];
    } else {
      assert (ks + [k])[0] == ks[0];
      assert (ks + [k])[1..] == ks[1..] + [k];
      SumOverSnoc(measure, m, ks[1..], k);
    }
  }

  /** Taking out the key at `j` takes out its term. */
  lemma {:induction false} SumOverRemove(measure: Measure, m: NameValues, ks: seq<Text>, j: nat)
    requires j < |ks|
    ensures SumOver(measure, m, ks) == EntryMeasure(measure, m, ks[j]) + SumOver(measure, m, ks[..j] + ks[j + 1..])
  {
    if j == 0 {
      assert ks[..0] + ks[1..] == ks[1..];
    } else {
      var tail := ks[1..];
      assert ks[..j] + ks[j + 1..] == [ks[0]] + (tail[..j - 1] + tail[j..]);
      SumOverRemove(measure, m, tail, j - 1);
    }
  }

  /** A sum over the keys does not depend on the order they are visited in. */
  lemma {:induction false} SumOverPermutation(measure: Measure, m: NameValues, a: seq<Text>, b: seq<Text>)
    requires Distinct(a) && Distinct(b) && |a| == |b|
    requires forall k :: k in a <==> k in b
    ensures SumOver(measure, m, a) == SumOver(measure, m, b)
    decreases |a|
  {
    if a != [] {
      assert a[0] in a;
      var j :| 0 <= j < |b| && b[j] == a[0];
      SumOverRemove(measure, m, b, j);
      RemoveFirst(a, b, j);
      SumOverPermutation(measure, m, a[1..], b[..j] + b[j + 1..]);
    }
  }

  /** Taking the first key of `a` out of both enumerations leaves two enumerations of
      the same keys. */
  lemma RemoveFirst(a: seq<Text>, b: seq<Text>, j: nat)
    requires Distinct(a) && Distinct(b) && a != []
    requires forall k :: k in a <==> k in b
    requires j < |b| && b[j] == a[0]
    ensures Distinct(a[1..]) && Distinct(b[..j] + b[j + 1..])
    ensures forall k :: k in a[1..] <==> k in b[..j] + b[j + 1..]
  {
    DistinctRemove(a, 0);
    assert a[..0] + a[1..] == a[1..];
    DistinctRemove(b, j);
    var rest := b[..j] + b[j + 1..];
    forall k ensures k in a[1..] <==> k in rest {
      InRemove(a, 0, k);
      InRemove(b, j, k);
    }
  }

  /** Removing position `j` keeps the keys distinct. */
  lemma DistinctRemove(ks: seq<Text>, j: nat)
    requires Distinct(ks) && j < |ks|
    ensures Distinct(ks[..j] + ks[j + 1..])
  {
    var rest := ks[..j] + ks[j + 1..];
    forall i, i' | 0 <= i < i' < |rest| ensures rest[i] != rest[i'] {
      var ki := if i < j then i else i + 1;
      var ki' := if i' < j then i' else i' + 1;
      assert rest[i] == ks[ki] && rest[i'] == ks[ki'];
    }
  }

  /** In a distinct sequence, removing position `j` removes exactly the key there. */
  lemma InRemove(ks: seq<Text>, j: nat, k: Text)
    requires Distinct(ks) && j < |ks|
    ensures k in ks[..j] + ks[j + 1..] <==> k in ks && k != ks[j]
  {
    var rest := ks[..j] + ks[j + 1..];
    if k in rest {
      var i :| 0 <= i < |rest| && rest[i] == k;
      var ki := if i < j then i else i + 1;
      assert ks[ki] == k;
    }
    if k in ks && k != ks[j] {
      var l :| 0 <= l < |ks| && ks[l] == k;
      if l < j { assert rest[l] == k; } else { assert rest[l - 1] == k; }
    }
  }

  lemma {:induction false} EntriesBytesLength(m: NameValues, order: seq<Text>)
    requires forall k :: k in order ==> k in m
    ensures |EntriesBytes(m, order)| == SumOver(Encoded, m, order)
  {
    if order != [] {
      assert order[0] in order;
      EntriesBytesLength(m, order[1..]);
    }
  }

  lemma {:induction false} EntriesBytesSnoc(m: NameValues, order: seq<Text>, k: Text)
    requires forall k' :: k' in order ==> k' in m
    requires k in m
    ensures EntriesBytes(m, order + [k]) == EntriesBytes(m, order) + EntryBytes(k, m[k])
  {
    if order == [] {
      assert order + [k] == [k];
      assert [k][1..] == [];
    } else {
      assert order[0] in order;
      assert (order + [k])[0] == order[0];
      assert (order + [k])[1..] == order[1..] + [k];
      EntriesBytesSnoc(m, order[1..], k);
    }
  }

  lemma EnumerationSize(order: seq<Text>, m: NameValues)
    requires IsEnumeration(order, m)
    ensures |order| == |m|
  {
    var s := set k | k in order;
    assert s == m.Keys;
    DistinctCard(order);
  }

  lemma {:induction false} DistinctCard(ks: seq<Text>)
    requires Distinct(ks)
    ensures |set k | k in ks| == |ks|
  {
    if ks != [] {
      var tail := ks[1..];
      assert Distinct(tail) by {
        forall i, i' | 0 <= i < i' < |tail| ensures tail[i] != tail[i'] {
          assert tail[i] == ks[i + 1] && tail[i'] == ks[i' + 1];
        }
      }
      DistinctCard(tail);
      assert ks[0] !in tail by {
        forall i | 0 <= i < |tail| ensures tail[i] != ks[0] {
          assert tail[i] == ks[i + 1];
        }
      }
      assert (set k | k in ks) == (set k | k in tail) + {ks[0]} by {
        forall k ensures k in ks <==> k in tail || k == ks[0] {
          if k in ks {
            var i :| 0 <= i < |ks| && ks[i] == k;
            if i > 0 { assert tail[i - 1] == k; }
          }
        }
      }
    }
  }

  /** Every entry takes at least its 8 bytes of name length and tag. */
  lemma {:induction false} SumOverEncodedAtLeast(m: NameValues, ks: seq<Text>)
    requires forall k :: k in ks ==> k in m
    ensures SumOver(Encoded, m, ks) >= 8 * |ks|
  {
    if ks != [] {
      SumOverEncodedAtLeast(m, ks[1..]);
    }
  }

  lemma {:induction false} SumOverDeclaredAtLeast(m: NameValues, ks: seq<Text>)
    requires forall k :: k in ks ==> k in m
    ensures SumOver(Declared, m, ks) >= 6 * |ks|
  {
    if ks != [] {
      SumOverDeclaredAtLeast(m, ks[1..]);
    }
  }

  /** The number of bytes `NameValueSection.Write` emits is the same for every order the
      map may be ranged in. */
  lemma NameValueBytesLength(m: NameValues, order: seq<Text>)
    requires IsEnumeration(order, m)
    ensures |NameValueBytes(m, order)| == 4 + SumOver(Encoded, m, order)
  {
    EntriesBytesLength(m, order);
  }

  // ---------------------------------------------------------------------------------
  // Write and Size

  /** `NameValueSection.Write`: the count as int32, then each entry's name as text, its
      tag from `typeToNameValueType` and its payload, in the order `range` picks. */
  method WriteNameValueSection(m: NameValues) returns (out: seq<byte>, ghost order: seq<Text>)
    ensures IsEnumeration(order, m)
    ensures out == NameValueBytes(m, order)
  {
    var count := WrapInt32(|m|);
    out := EncodeInt32(count);
    ghost var head := out;
    order := [];
    var keys := m.Keys;
    while keys != {}
      invariant keys <= m.Keys
      invariant Distinct(order)
      invariant forall k :: k in order <==> k in m && k !in keys
      invariant out == head + EntriesBytes(m, order)
      decreases |keys|
    {
      var key :| key in keys;
      var val := m[key];
      var entry := WriteText(key);
      var nameValueType := TypeToNameValueType(TypeOf(val));
      entry := entry + EncodeInt32(nameValueType);
      if nameValueType == NameValueText {
        entry := entry + WriteText(val.text);
      } else {
        entry := entry + ValueBytes(val);
      }
      out := out + entry;
      WriteEntryStep(m, order, key, head);
      DistinctSnoc(order, key);
      order := order + [key];
      keys := keys - {key};
    }
  }

  /** One iteration of the loop of `Write` extends the output by the entry's encoding. */
  lemma WriteEntryStep(m: NameValues, order: seq<Text>, key: Text, head: seq<byte>)
    requires forall k :: k in order ==> k in m
    requires key in m
    ensures head + EntriesBytes(m, order) + EntryBytes(key, m[key]) == head + EntriesBytes(m, order + [key])
  {
    EntriesBytesSnoc(m, order, key);
    AppendAssoc(head, EntriesBytes(m, order), EntryBytes(key, m[key]));
  }

  lemma DistinctSnoc(ks: seq<Text>, k: Text)
    requires Distinct(ks) && k !in ks
    ensures Distinct(ks + [k])
  {
    forall i, j | 0 <= i < j < |ks + [k]| ensures (ks + [k])[i] != (ks + [k])[j] {
      if j == |ks| {
        assert (ks + [k])[i] == ks[i];
      } else {
        assert (ks + [k])[i] == ks[i] && (ks + [k])[j] == ks[j];
      }
    }
  }

  /** Every map can be ranged: some order lists each of its keys exactly once. */
  lemma {:induction false} EnumerationExists(m: NameValues) returns (order: seq<Text>)
    ensures IsEnumeration(order, m)
    decreases |m|
  {
    if m.Keys == {} {
      order := [];
    } else {
      var k :| k in m.Keys;
      var rest := m - {k};
      assert m.Keys == rest.Keys + {k};
      order := EnumerationExists(rest);
      DistinctSnoc(order, k);
      order := order + [k];
    }
  }

  /** `NameValueSection.Size` as written: one unit for the count, and per entry one for
      the name's length, the name's bytes, one for the tag and the in-memory size of the
      value. It is the same for every order the map may be ranged in. */
  method NameValueSize(m: NameValues) returns (size: int)
    ensures forall order :: IsEnumeration(order, m) ==> size == 1 + SumOver(Declared, m, order)
  {
    size := 0;
    size := size + 1;
    ghost var order: seq<Text> := [];
    var keys := m.Keys;
    while keys != {}
      invariant keys <= m.Keys
      invariant Distinct(order)
      invariant forall k :: k in order <==> k in m && k !in keys
      invariant size == 1 + SumOver(Declared, m, order)
      decreases |keys|
    {
      var key :| key in keys;
      var val := m[key];
      SumOverSnoc(Declared, m, order, key);
      size := size + 1;
      size := size + |key|;
      size := size + 1;
      size := size + GoSizeof(TypeOf(val));
      order := order + [key];
      keys := keys - {key};
    }
    forall order' | IsEnumeration(order', m) ensures size == 1 + SumOver(Declared, m, order') {
      EnumerationSize(order, m);
      EnumerationSize(order', m);
      SumOverPermutation(Declared, m, order, order');
    }
  }

  /** What `NameValueSection.Size` should be: the number of bytes `Write` emits, in
      whatever order the map is ranged. */
  method NameValueEncodedSize(m: NameValues) returns (size: int)
    ensures forall order :: IsEnumeration(order, m) ==> size == |NameValueBytes(m, order)|
  {
    size := 4;
    ghost var order: seq<Text> := [];
    var keys := m.Keys;
    while keys != {}
      invariant keys <= m.Keys
      invariant Distinct(order)
      invariant forall k :: k in order <==> k in m && k !in keys
      invariant size == 4 + SumOver(Encoded, m, order)
      decreases |keys|
    {
      var key :| key in keys;
      SumOverSnoc(Encoded, m, order, key);
      size := size + 4 + |key| + 4 + ValueWidth(m[key]);
      order := order + [key];
      keys := keys - {key};
    }
    forall order' | IsEnumeration(order', m) ensures size == |NameValueBytes(m, order')| {
      EnumerationSize(order, m);
      EnumerationSize(order', m);
      SumOverPermutation(Encoded, m, order, order');
      NameValueBytesLength(m, order');
    }
  }

  /** Without text values, `Size` undercounts every section by 3 + 6 per entry (the
      count and each name length and tag are int32s, not single units); so it never
      matches what `Write` emits. */
  lemma {:induction false} DeclaredSizeShortfall(m: NameValues, order: seq<Text>)
    requires IsEnumeration(order, m)
    requires forall k :: k in m ==> !m[k].TextValue?
    ensures |NameValueBytes(m, order)| == 1 + SumOver(Declared, m, order) + 3 + 6 * |m|
  {
    NameValueBytesLength(m, order);
    EnumerationSize(order, m);
    Shortfall(m, order);
  }

  lemma {:induction false} Shortfall(m: NameValues, ks: seq<Text>)
    requires forall k :: k in ks ==> k in m && !m[k].TextValue?
    ensures SumOver(Encoded, m, ks) == SumOver(Declared, m, ks) + 6 * |ks|
  {
    if ks != [] {
      assert ks[0] in ks;
      Shortfall(m, ks[1..]);
    }
  }

  /** The section `{"px": int32 2}`: `Size` says 9, `Write` emits 18 bytes. */
  lemma DeclaredSizeExample()
    ensures var m: NameValues := map[[0x70, 0x78] := Int32Value(2)];
      && IsEnumeration([[0x70, 0x78]], m)
      && 1 + SumOver(Declared, m, [[0x70, 0x78]]) == 9
      && |NameValueBytes(m, [[0x70, 0x78]])| == 18
  {
    var k: Text := [0x70, 0x78];
    var m: NameValues := map[k := Int32Value(2)];
    assert [k][1..] == [];
    NameValueBytesLength(m, [k]);
  }

  /** `Size` is not always wrong: for the section `{"x": "abc"}` it says 20, and
      `Write` emits 20 bytes, since a short text value makes up for the units it
      undercounts. */
  lemma ExactSizeExample()
    ensures var m: NameValues := map[[0x78] := TextValue([0x61, 0x62, 0x63])];
      && IsEnumeration([[0x78]], m)
      && 1 + SumOver(Declared, m, [[0x78]]) == 20
      && |NameValueBytes(m, [[0x78]])| == 20
  {
    var k: Text := [0x78];
    var m: NameValues := map[k := TextValue([0x61, 0x62, 0x63])];
    assert [k][1..] == [];
    NameValueBytesLength(m, [k]);
  }

  // ---------------------------------------------------------------------------------
  // Read

  /** The `switch kind` of `NameValueSection.Read`: the payload a tag announces. */
  function ParseValue(data: seq<byte>, pos: nat, tag: int32): (r: Result<(Value, nat)>)
    ensures ValueTypeOfTag(tag).None? ==> r == Err(UnknownNameValueKind(tag))
    ensures r.Ok? ==> TypeToNameValueType(TypeOf(r.value.0)) == tag
  {
    match ValueTypeOfTag(tag)
    case None => Err(UnknownNameValueKind(tag))
    case Some(Int32Type) =>
      var (x, p) :- ReadInt32(data, pos);
      Ok((Int32Value(x), p))
    case Some(StringType) =>
      var (s, p) :- ReadText(data, pos);
      Ok((TextValue(s), p))
    case Some(Float64Type) =>
      var (bs, p) :- ReadBytes(data, pos, 8);
      Ok((DoubleValue(bs), p))
    case Some(UuidType) =>
      var (bs, p) :- ReadBytes(data, pos, 16);
      Ok((UuidValue(bs), p))
    case Some(Uint64Type) =>
      var (x, p) :- ReadUint64(data, pos);
      Ok((Uint64Value(x), p))
  }

  /** The tag fixes the payload width, and what is consumed is the payload's encoding. */
  lemma ParseValueSound(data: seq<byte>, pos: nat, tag: int32, v: Value, p: nat)
    requires ParseValue(data, pos, tag) == Ok((v, p))
    ensures p == pos + ValueWidth(v) && At(data, pos, ValueBytes(v))
  {
  }

  /** Reading a payload where one was written, under its own tag, gives it back. */
  lemma ParseValueAt(data: seq<byte>, pos: nat, v: Value, q: nat)
    requires At(data, pos, ValueBytes(v)) && q == pos + ValueWidth(v)
    ensures ParseValue(data, pos, TypeToNameValueType(TypeOf(v))) == Ok((v, q))
  {
    match v
    case Int32Value(x) => ReadInt32At(data, pos, x);
    case TextValue(s) => ReadWriteText(data, pos, s);
    case DoubleValue(bs) => AtSlice(data, pos, bs);
    case UuidValue(bs) => AtSlice(data, pos, bs);
    case Uint64Value(x) => ReadUint64At(data, pos, x);
  }

  /** One entry: its name, its tag and the payload the tag selects. */
  function ParseEntry(data: seq<byte>, pos: nat): Result<(Text, Value, nat)>
  {
    var (name, p1) :- ReadText(data, pos);
    var (kind, p2) :- ReadInt32(data, p1);
    var (value, p3) :- ParseValue(data, p2, kind);
    Ok((name, value, p3))
  }

  lemma ParseEntryUnfold(data: seq<byte>, pos: nat, name: Text, p1: nat, kind: int32, p2: nat, v: Value, p3: nat)
    requires ReadText(data, pos) == Ok((name, p1))
    requires ReadInt32(data, p1) == Ok((kind, p2))
    requires ParseValue(data, p2, kind) == Ok((v, p3))
    ensures ParseEntry(data, pos) == Ok((name, v, p3))
  {
  }

  /** Reading an entry where one was written gives it back. */
  lemma ParseEntryAt(data: seq<byte>, pos: nat, name: Text, v: Value, q: nat)
    requires At(data, pos, EntryBytes(name, v)) && q == pos + |EntryBytes(name, v)|
    ensures ParseEntry(data, pos) == Ok((name, v, q))
  {
    var a := WriteText(name);
    var tag := TypeToNameValueType(TypeOf(v));
    var b := EncodeInt32(tag);
    var p1 := pos + |a|;
    var p2 := p1 + 4;
    AtConcat(data, pos, a + b, ValueBytes(v));
    AtConcat(data, pos, a, b);
    assert At(data, p2, ValueBytes(v));
    ReadWriteText(data, pos, name);
    ReadInt32At(data, p1, tag);
    ParseValueAt(data, p2, v, q);
    ParseEntryUnfold(data, pos, name, p1, tag, p2, v, q);
  }

  /** The entry loop of `NameValueSection.Read` from iteration `i` on; each entry is
      stored under its name, so a later entry with the same name replaces an earlier one,
      and the loop never yields more names than it had plus the entries it read. */
  function ParseEntries(data: seq<byte>, pos: nat, i: nat, count: int32, acc: NameValues): (r: Result<(NameValues, nat)>)
    ensures r.Ok? ==> |r.value.0| <= |acc| + Max0(count as int - i)
    decreases count as int - i
  {
    if i >= count as int then
      Ok((acc, pos))
    else
      var entry :- ParseEntry(data, pos);
      MapUpdateCard(acc, entry.0, entry.1);
      ParseEntries(data, entry.2, i + 1, count, acc[entry.0 := entry.1])
  }

  lemma ParseEntriesStep(data: seq<byte>, pos: nat, i: nat, count: int32, acc: NameValues,
                         name: Text, v: Value, q: nat)
    requires i < count as int && ParseEntry(data, pos) == Ok((name, v, q))
    ensures ParseEntries(data, pos, i, count, acc) == ParseEntries(data, q, i + 1, count, acc[name := v])
  {
  }


  /** A successful parse of entries `i..count` starts with a successful entry. */
  lemma ParseEntriesNext(data: seq<byte>, pos: nat, i: nat, count: int32, acc: NameValues, m: NameValues, q: nat)
      returns (name: Text, v: Value, p: nat)
    requires i < count as int && ParseEntries(data, pos, i, count, acc) == Ok((m, q))
    ensures ParseEntry(data, pos) == Ok((name, v, p))
    ensures ParseEntries(data, p, i + 1, count, acc[name := v]) == Ok((m, q))
  {
    var r := ParseEntry(data, pos);
    assert r.Ok?;
    name, v, p := r.value.0, r.value.1, r.value.2;
  }

  lemma MapUpdateCard(acc: NameValues, name: Text, v: Value)
    ensures |acc[name := v]| <= |acc| + 1
  {
    assert acc[name := v].Keys == acc.Keys + {name};
  }

  /** `NameValueSection.Read`, as a function of the bytes and the cursor. */
  function ParseNameValueSection(data: seq<byte>, pos: nat): Result<(NameValues, nat)>
  {
    var (count, p) :- ReadInt32(data, pos);
    ParseEntries(data, p, 0, count, map[])
  }

  /** A section read has at most `max(0, count)` names. */
  lemma ParseNameValueSectionBound(data: seq<byte>, pos: nat, m: NameValues, q: nat)
    requires ParseNameValueSection(data, pos) == Ok((m, q))
    ensures pos + 4 <= |data| && |m| <= Max0(DecodeInt32(data[pos..pos + 4]) as int)
  {
    var (count, p) := ReadInt32(data, pos).value;
    var r := ParseEntries(data, p, 0, count, map[]);
    assert r.Ok? && r.value == (m, q);
  }

  /** The keys of `order[..i]` with their values in `m`. */
  function Prefix(m: NameValues, order: seq<Text>, i: nat): (r: NameValues)
    requires i <= |order|
    requires forall k :: k in order ==> k in m
    ensures forall k :: k in r <==> k in order[..i]
    ensures forall k :: k in r ==> r[k] == m[k]
  {
    map k | k in order[..i] :: m[k]
  }

  lemma PrefixStep(m: NameValues, order: seq<Text>, i: nat)
    requires i < |order|
    requires forall k :: k in order ==> k in m
    ensures Prefix(m, order, i + 1) == Prefix(m, order, i)[order[i] := m[order[i]]]
  {
    assert order[..i + 1] == order[..i] + [order[i]];
    var a := Prefix(m, order, i + 1);
    var b := Prefix(m, order, i)[order[i] := m[order[i]]];
    assert a.Keys == b.Keys;
  }

  lemma EntriesBytesCons(m: NameValues, order: seq<Text>, i: nat)
    requires i < |order|
    requires forall k :: k in order ==> k in m
    ensures EntriesBytes(m, order[i..]) == EntryBytes(order[i], m[order[i]]) + EntriesBytes(m, order[i + 1..])
  {
    assert order[i..][0] == order[i];
    assert order[i..][1..] == order[i + 1..];
  }

  /** All of an enumeration is the whole map. */
  lemma PrefixAll(m: NameValues, order: seq<Text>, i: nat)
    requires IsEnumeration(order, m) && i == |order|
    ensures Prefix(m, order, i) == m
  {
    assert order[..i] == order;
    var p := Prefix(m, order, i);
    assert p.Keys == m.Keys;
  }

  /** One iteration of the entry loop over written entries: it reads back entry `i`,
      adds it to the map read so far, and leaves the cursor before the remaining ones. */
  lemma ParseEntriesRoundTripStep(data: seq<byte>, pos: nat, m: NameValues, order: seq<Text>,
                                  count: int32, i: nat, q: nat)
    requires count as int == |order| && i < |order|
    requires forall k :: k in order ==> k in m
    requires At(data, pos, EntriesBytes(m, order[i..]))
    requires q == pos + |EntryBytes(order[i], m[order[i]])|
    ensures At(data, q, EntriesBytes(m, order[i + 1..]))
    ensures |EntriesBytes(m, order[i..])| == |EntryBytes(order[i], m[order[i]])| + |EntriesBytes(m, order[i + 1..])|
    ensures ParseEntries(data, pos, i, count, Prefix(m, order, i))
         == ParseEntries(data, q, i + 1, count, Prefix(m, order, i + 1))
  {
    EntriesBytesSplit(data, pos, m, order, i, q);
    ParseEntryAt(data, pos, order[i], m[order[i]], q);
    ParseEntriesPrefixStep(data, pos, m, order, count, i, q);
  }

  lemma EntriesBytesSplit(data: seq<byte>, pos: nat, m: NameValues, order: seq<Text>, i: nat, q: nat)
    requires i < |order|
    requires forall k :: k in order ==> k in m
    requires At(data, pos, EntriesBytes(m, order[i..]))
    requires q == pos + |EntryBytes(order[i], m[order[i]])|
    ensures At(data, pos, EntryBytes(order[i], m[order[i]]))
    ensures At(data, q, EntriesBytes(m, order[i + 1..]))
    ensures |EntriesBytes(m, order[i..])| == |EntryBytes(order[i], m[order[i]])| + |EntriesBytes(m, order[i + 1..])|
  {
    EntriesBytesCons(m, order, i);
    AtConcat(data, pos, EntryBytes(order[i], m[order[i]]), EntriesBytes(m, order[i + 1..]));
  }

  lemma ParseEntriesPrefixStep(data: seq<byte>, pos: nat, m: NameValues, order: seq<Text>,
                               count: int32, i: nat, q: nat)
    requires count as int == |order| && i < |order|
    requires forall k :: k in order ==> k in m
    requires ParseEntry(data, pos) == Ok((order[i], m[order[i]], q))
    ensures ParseEntries(data, pos, i, count, Prefix(m, order, i))
         == ParseEntries(data, q, i + 1, count, Prefix(m, order, i + 1))
  {
    PrefixStep(m, order, i);
    ParseEntriesStep(data, pos, i, count, Prefix(m, order, i), order[i], m[order[i]], q);
  }

  lemma {:induction false} ParseEntriesRoundTrip(data: seq<byte>, pos: nat, m: NameValues, order: seq<Text>,
                                                 count: int32, i: nat, end: nat)
    requires count as int == |order| && i <= |order|
    requires IsEnumeration(order, m)
    requires At(data, pos, EntriesBytes(m, order[i..])) && end == pos + |EntriesBytes(m, order[i..])|
    ensures ParseEntries(data, pos, i, count, Prefix(m, order, i)) == Ok((m, end))
    decreases |order| - i
  {
    if i < |order| {
      var q := pos + |EntryBytes(order[i], m[order[i]])|;
      ParseEntriesRoundTripStep(data, pos, m, order, count, i, q);
      ParseEntriesRoundTrip(data, q, m, order, count, i + 1, end);
    } else {
      assert order[i..] == [];
      PrefixAll(m, order, i);
    }
  }

  /** Reading a name-value section where one was written, in any order the map may be
      ranged in, gives the map back and consumes exactly what was written. */
  lemma NameValueRoundTrip(data: seq<byte>, pos: nat, m: NameValues, order: seq<Text>, end: nat)
    requires |m| < 0x8000_0000
    requires IsEnumeration(order, m)
    requires At(data, pos, NameValueBytes(m, order)) && end == pos + |NameValueBytes(m, order)|
    ensures ParseNameValueSection(data, pos) == Ok((m, end))
  {
    var count := WrapInt32(|m|);
    NameValueEntriesRoundTrip(data, pos, m, order, count, end);
    ParseNameValueSectionUnfold(data, pos, count, m, end);
  }

  lemma NameValueEntriesRoundTrip(data: seq<byte>, pos: nat, m: NameValues, order: seq<Text>, count: int32, end: nat)
    requires |m| < 0x8000_0000 && count == WrapInt32(|m|)
    requires IsEnumeration(order, m)
    requires At(data, pos, NameValueBytes(m, order)) && end == pos + |NameValueBytes(m, order)|
    ensures ReadInt32(data, pos) == Ok((count, pos + 4))
    ensures ParseEntries(data, pos + 4, 0, count, map[]) == Ok((m, end))
  {
    EnumerationSize(order, m);
    NameValueBytesAt(data, pos, m, order, count);
    ParseEntriesRoundTripAll(data, pos + 4, m, order, count, end);
  }

  lemma NameValueBytesAt(data: seq<byte>, pos: nat, m: NameValues, order: seq<Text>, count: int32)
    requires forall k :: k in order ==> k in m
    requires count == WrapInt32(|m|)
    requires At(data, pos, NameValueBytes(m, order))
    ensures ReadInt32(data, pos) == Ok((count, pos + 4))
    ensures At(data, pos + 4, EntriesBytes(m, order))
    ensures |NameValueBytes(m, order)| == 4 + |EntriesBytes(m, order)|
  {
    AtConcat(data, pos, EncodeInt32(count), EntriesBytes(m, order));
    ReadInt32At(data, pos, count);
  }

  lemma ParseEntriesRoundTripAll(data: seq<byte>, pos: nat, m: NameValues, order: seq<Text>, count: int32, end: nat)
    requires count as int == |order|
    requires IsEnumeration(order, m)
    requires At(data, pos, EntriesBytes(m, order)) && end == pos + |EntriesBytes(m, order)|
    ensures ParseEntries(data, pos, 0, count, map[]) == Ok((m, end))
  {
    assert order[0..] == order;
    ParseEntriesRoundTrip(data, pos, m, order, count, 0, end);
    PrefixEmpty(m, order);
  }

  lemma PrefixEmpty(m: NameValues, order: seq<Text>)
    requires forall k :: k in order ==> k in m
    ensures Prefix(m, order, 0) == map[]
  {
    assert order[..0] == [];
  }

  lemma ParseNameValueSectionUnfold(data: seq<byte>, pos: nat, count: int32, m: NameValues, end: nat)
    requires ReadInt32(data, pos) == Ok((count, pos + 4))
    requires ParseEntries(data, pos + 4, 0, count, map[]) == Ok((m, end))
    ensures ParseNameValueSection(data, pos) == Ok((m, end))
  {
  }

  /** The `switch kind` of `NameValueSection.Read`. */
  method ReadValue(data: seq<byte>, pos: nat, kind: int32) returns (r: Result<(Value, nat)>)
    ensures r == ParseValue(data, pos, kind)
  {
    if kind == NameValueInt32 {
      var x :- ReadInt32(data, pos);
      r := Ok((Int32Value(x.0), x.1));
    } else if kind == NameValueText {
      var s :- ReadText(data, pos);
      r := Ok((TextValue(s.0), s.1));
    } else if kind == NameValueDouble {
      var bs :- ReadBytes(data, pos, 8);
      r := Ok((DoubleValue(bs.0), bs.1));
    } else if kind == NameValueUuid {
      var bs :- ReadBytes(data, pos, 16);
      r := Ok((UuidValue(bs.0), bs.1));
    } else if kind == NameValueUint64 {
      var x :- ReadUint64(data, pos);
      r := Ok((Uint64Value(x.0), x.1));
    } else {
      r := Err(UnknownNameValueKind(kind));
    }
  }

  /** One pass of the loop in `NameValueSection.Read`: the name, the tag and the
      payload the tag selects. */
  method ReadEntry(data: seq<byte>, pos: nat) returns (r: Result<(Text, Value, nat)>)
    ensures r == ParseEntry(data, pos)
  {
    var name :- ReadText(data, pos);
    var kind :- ReadInt32(data, name.1);
    var value :- ReadValue(data, kind.1, kind.0);
    ParseEntryUnfold(data, pos, name.0, name.1, kind.0, kind.1, value.0, value.1);
    r := Ok((name.0, value.0, value.1));
  }

  lemma ParseEntriesFail(data: seq<byte>, pos: nat, i: nat, count: int32, acc: NameValues)
    requires i < count as int && ParseEntry(data, pos).Err?
    ensures ParseEntries(data, pos, i, count, acc) == Err(ParseEntry(data, pos).error)
  {
  }

  /** The loop of `NameValueSection.Read`: `count` entries from `pos`; the first entry
      that fails to read fails the section. */
  method ReadEntries(data: seq<byte>, pos: nat, count: int32) returns (r: Result<(NameValues, nat)>)
    ensures r == ParseEntries(data, pos, 0, count, map[])
  {
    var nameValues: NameValues := map[];
    var p := pos;
    var i: nat := 0;
    while i < count as int
      invariant ParseEntries(data, p, i, count, nameValues) == ParseEntries(data, pos, 0, count, map[])
    {
      var entry := ReadEntry(data, p);
      if entry.Err? {
        ParseEntriesFail(data, p, i, count, nameValues);
        return Err(entry.error);
      }
      var (name, value, q) := entry.value;
      ParseEntriesStep(data, p, i, count, nameValues, name, value, q);
      nameValues := nameValues[name := value];
      p := q;
      i := i + 1;
    }
    r := Ok((nameValues, p));
  }

  /** `NameValueSection.Read`: the int32 entry count, then the entries. */
  method ReadNameValueSection(data: seq<byte>, pos: nat) returns (r: Result<(NameValues, nat)>)
    ensures r == ParseNameValueSection(data, pos)
  {
    var count :- ReadInt32(data, pos);
    r := ReadEntries(data, count.1, count.0);
  }
}
