/** The memory-mapped reader of the `mmap` package: `Open` maps a file read-only and
    hands out the address of each item. The mapping is modelled as the byte sequence it
    shows, and an address as an offset from the first byte of the mapping. */
module MMap {
  import opened Errors
  import opened Binary

  function Abs(x: int): nat { if x < 0 then -x else x }

  /** Go's int64 division `a / b`: truncates toward zero, panics on a zero divisor
      (the caller's concern: it is required here), and wraps on the one quotient that
      does not fit, `-2^63 / -1`. */
  function GoDiv64(a: int64, b: int64): (q: int64)
    requires b != 0
    ensures a == -0x8000_0000_0000_0000 && b == -1 ==> q == a
    ensures !(a == -0x8000_0000_0000_0000 && b == -1) ==>
      var rem := a - q * b;
      && (rem == 0 || (rem < 0) == (a < 0))
      && Abs(rem) < Abs(b)
  {
    if a == -0x8000_0000_0000_0000 && b == -1 then a
    else
      var q: int := Abs(a) / Abs(b);
      TruncatedDivision(a, b, q);
      var s: int := if (a < 0) != (b < 0) then -q else q;
      s
  }

  /** The quotient of the magnitudes, given the signs back, leaves a remainder with the
      sign of the dividend and smaller than the divisor. */
  lemma TruncatedDivision(a: int, b: int, q: int)
    requires b != 0 && q == Abs(a) / Abs(b)
    requires !(a == -0x8000_0000_0000_0000 && b == -1)
    requires -0x8000_0000_0000_0000 <= a < 0x8000_0000_0000_0000
    ensures q <= Abs(a)
    ensures (a < 0) == (b < 0) ==> q < 0x8000_0000_0000_0000
    ensures var s: int := if (a < 0) != (b < 0) then -q else q;
      var rem := a - s * b;
      (rem == 0 || (rem < 0) == (a < 0)) && Abs(rem) < Abs(b)
  {
    QuotientBounds(Abs(a), Abs(b), q);
    var s: int := if (a < 0) != (b < 0) then -q else q;
    SignedRemainder(a, b, q, s);
  }

  lemma QuotientBounds(A: int, B: int, q: int)
    requires A >= 0 && B > 0 && q == A / B
    ensures 0 <= q <= A && 0 <= A - q * B < B
    ensures B >= 2 ==> 2 * q <= A
  {
    assert A == q * B + A % B;
    assert q >= 0;
    MulAtLeast(q, B);
    if B >= 2 {
      MulAtLeast(q, B - 1);
      assert q * B == q * (B - 1) + q;
    }
  }

  /** A product with a positive factor is at least the other factor. */
  lemma {:induction false} MulAtLeast(x: nat, y: int)
    requires y >= 1
    ensures x * y >= x
    decreases y
  {
    if y > 1 {
      MulAtLeast(x, y - 1);
      assert x * y == x * (y - 1) + x;
    }
  }

  lemma SignedRemainder(a: int, b: int, q: int, s: int)
    requires b != 0 && s == if (a < 0) != (b < 0) then -q else q
    ensures a - s * b == if a < 0 then -(Abs(a) - q * Abs(b)) else Abs(a) - q * Abs(b)
  {
    if b < 0 {
      assert s * b == -(s * Abs(b));
    }
  }

  /** What a mapping of `length` bytes from the start of `file` shows of the file. */
  function MappedBytes(file: seq<byte>, length: int): (bs: seq<byte>)
    ensures length <= |file| ==> |bs| == Max0(length)
    ensures forall k :: 0 <= k < |bs| ==> k < |file| && bs[k] == file[k]
  {
    file[..if length <= 0 then 0 else if length < |file| then length else |file|]
  }

  /** The page size of the platform. */
  const PageSize: int := 4096

  /** What `mmap` maps for a request of `length` bytes: whole pages, the request
      rounded up to a multiple of the page size. */
  function PageRounded(length: int): (n: int)
    ensures length > 0 ==> n % PageSize == 0 && length <= n < length + PageSize
    ensures length <= 0 ==> n == 0
  {
    if length <= 0 then 0 else (length + PageSize - 1) / PageSize * PageSize
  }

  /** An index below the quotient of `size` by `itemSize` leaves room for a whole
      stride within `size`. */
  lemma StrideBound(idx: int, count: int, size: int64, itemSize: int64)
    requires itemSize > 0 && 0 <= idx < count && count == GoDiv64(size, itemSize)
    ensures idx * itemSize + itemSize <= size
  {
    var rest := count - 1 - idx;
    MulAtLeast(rest, itemSize);
    MulAdd(idx + 1, rest, itemSize);
    MulAdd(idx, 1, itemSize);
  }

  lemma MulAdd(x: int, y: int, z: int)
    ensures (x + y) * z == x * z + y * z
  {
  }

  /** The reader. `data` is the mapped region, absent (Go's nil slice) for a reader of
      an empty file and after `Close`; `mapLength` is the length of the region that was
      mapped, and `ptr` the address of item 0. */
  class MMapReader {
    var itemCount: int
    var data: Option<seq<byte>>
    var mapLength: int
    var ptr: int
    var size: int64
    var itemSize: int64

    /** What `Open` establishes for a reader that maps something: its item count is the
        size divided by the item size, and `data` is the mapped part of the file. */
    predicate Valid()
      reads this
    {
      data.Some? ==> itemSize != 0 && itemCount == GoDiv64(size, itemSize) && mapLength > 0
    }

    /** The reader `Open` maps from `file`: `mapLength` bytes from the start of the file,
        the address of item 0 moved to `offset`. */
    ghost predicate Opened(file: seq<byte>, offset: int64, size: int64, itemSize: int64, mapLength: int)
      reads this
    {
      && Valid()
      && this.data == Some(MappedBytes(file, mapLength))
      && this.mapLength == mapLength
      && ptr == offset
      && this.size == size
      && this.itemSize == itemSize
    }

    /** `&MMapReader{}`: every field zero. */
    constructor Empty()
      ensures Valid() && data.None?
      ensures itemCount == 0 && mapLength == 0 && ptr == 0 && size == 0 && itemSize == 0
    {
      itemCount, data, mapLength, ptr, size, itemSize := 0, None, 0, 0, 0, 0;
    }

    constructor (data: seq<byte>, mapLength: int, ptr: int, size: int64, itemSize: int64, itemCount: int)
      ensures this.data == Some(data) && this.mapLength == mapLength && this.ptr == ptr
      ensures this.size == size && this.itemSize == itemSize && this.itemCount == itemCount
    {
      this.itemCount, this.data, this.mapLength := itemCount, Some(data), mapLength;
      this.ptr, this.size, this.itemSize := ptr, size, itemSize;
    }

    /** `Len`: the size divided by the item size. On the reader of an empty file the item
        size is zero and the division panics; for an opened reader it is the item count. */
    function Len(): (r: Result<int>)
      reads this
      ensures itemSize == 0 <==> r == Err(Panic(DivideByZero))
      ensures Valid() && data.Some? ==> r == Ok(itemCount)
      ensures r.Ok? && size >= 0 && itemSize > 0 ==> r.value * itemSize <= size < (r.value + 1) * itemSize
    {
      if itemSize == 0 then Err(Panic(DivideByZero)) else Ok(GoDiv64(size, itemSize))
    }

    /** `GetItem`: the address of item `idx`, counted from `ptr` in strides of the item
        size. */
    function GetItem(idx: int): int
      reads this
    {
      ptr + idx * itemSize
    }

    /** Item `idx` lies inside the mapped region. */
    ghost predicate ItemMapped(idx: int)
      reads this
    {
      0 <= GetItem(idx) && GetItem(idx) + itemSize <= mapLength
    }

    /** The bytes of item `idx`, read where `GetItem` points. */
    function ItemBytes(idx: int): (bs: seq<byte>)
      reads this
      requires data.Some? && itemSize >= 0
      requires 0 <= GetItem(idx) && GetItem(idx) + itemSize <= |data.value|
      ensures |bs| == itemSize
    {
      data.value[GetItem(idx)..GetItem(idx) + itemSize]
    }

    /** `Close`: unmaps the region once; a second call, or a call on the reader of an
        empty file, does nothing and succeeds. `unmapped` is what `Munmap` returns. */
    method Close(unmapped: Outcome) returns (r: Outcome)
      modifies this
      ensures old(data).None? ==> r == Pass
      ensures old(data).Some? ==> r == unmapped
      ensures data.None? && Valid()
      ensures itemCount == old(itemCount) && mapLength == old(mapLength) && ptr == old(ptr)
      ensures size == old(size) && itemSize == old(itemSize)
    {
      if data.None? {
        return Pass;
      }
      data := None;
      r := unmapped;
    }
  }

  /** The part of `Open` shared by the code as written and the corrected mapping: the
      guards, then a read-only mapping of `mapLength` bytes from the start of the file
      with the address of item 0 moved to `offset`. A mapping of a non-positive length is refused
      by `mmap`. The item count divides by the item size and panics on zero. */
  method OpenMapping(file: seq<byte>, offset: int64, size: int64, itemSize: int64, mapLength: int)
    returns (r: Result<MMapReader>)
    ensures |file| == 0 ==>
      && r.Ok? && fresh(r.value) && r.value.Valid() && r.value.data.None? && r.value.itemSize == 0 && r.value.itemCount == 0
      && r.value.mapLength == 0 && r.value.ptr == 0 && r.value.size == 0
    ensures |file| > 0 && WrapInt64(size + offset) > |file| ==> r == Err(MappingTooLarge)
    ensures |file| > 0 && WrapInt64(size + offset) <= |file| && mapLength <= 0 ==> r == Err(MappingFailed)
    ensures |file| > 0 && WrapInt64(size + offset) <= |file| && mapLength > 0 && itemSize == 0 ==>
      r == Err(Panic(DivideByZero))
    ensures |file| > 0 && WrapInt64(size + offset) <= |file| && mapLength > 0 && itemSize != 0 ==> r.Ok?
    ensures r.Ok? && |file| > 0 ==> fresh(r.value) && r.value.Opened(file, offset, size, itemSize, mapLength)
  {
    if |file| == 0 {
      var empty := new MMapReader.Empty();
      return Ok(empty);
    }
    if WrapInt64(size + offset) > |file| {
      return Err(MappingTooLarge);
    }
    if mapLength <= 0 {
      return Err(MappingFailed);
    }
    var data := MappedBytes(file, mapLength);
    if itemSize == 0 {
      return Err(Panic(DivideByZero));
    }
    var reader := new MMapReader(data, mapLength, offset, size, itemSize, GoDiv64(size, itemSize));
    r := Ok(reader);
  }

  /** `Open` as written: maps `size` bytes from the start of the file, not from `offset`.
      A size that is not positive makes `mmap` fail. */
  method Open(file: seq<byte>, offset: int64, size: int64, itemSize: int64) returns (r: Result<MMapReader>)
    ensures |file| == 0 ==>
      && r.Ok? && fresh(r.value) && r.value.data.None? && r.value.itemSize == 0 && r.value.itemCount == 0
      && r.value.mapLength == 0 && r.value.ptr == 0 && r.value.size == 0
    ensures |file| > 0 && WrapInt64(size + offset) > |file| ==> r == Err(MappingTooLarge)
    ensures |file| > 0 && WrapInt64(size + offset) <= |file| && size <= 0 ==> r == Err(MappingFailed)
    ensures |file| > 0 && WrapInt64(size + offset) <= |file| && size > 0 && itemSize == 0 ==>
      r == Err(Panic(DivideByZero))
    ensures |file| > 0 && WrapInt64(size + offset) <= |file| && size > 0 && itemSize != 0 ==> r.Ok?
    ensures r.Ok? && |file| > 0 ==> fresh(r.value) && r.value.Opened(file, offset, size, itemSize, size)
  {
    r := OpenMapping(file, offset, size, itemSize, size);
  }

  /** `Open` corrected: maps the `offset + size` bytes that end where the items end, so
      that every item `GetItem` points to lies inside the mapping. */
  method OpenCovering(file: seq<byte>, offset: int64, size: int64, itemSize: int64) returns (r: Result<MMapReader>)
    ensures |file| == 0 ==>
      && r.Ok? && fresh(r.value) && r.value.data.None? && r.value.itemSize == 0 && r.value.itemCount == 0
      && r.value.mapLength == 0 && r.value.ptr == 0 && r.value.size == 0
    ensures |file| > 0 && WrapInt64(size + offset) > |file| ==> r == Err(MappingTooLarge)
    ensures |file| > 0 && WrapInt64(size + offset) <= |file| && WrapInt64(offset + size) <= 0 ==>
      r == Err(MappingFailed)
    ensures |file| > 0 && WrapInt64(size + offset) <= |file| && WrapInt64(offset + size) > 0 && itemSize == 0 ==>
      r == Err(Panic(DivideByZero))
    ensures |file| > 0 && WrapInt64(size + offset) <= |file| && WrapInt64(offset + size) > 0 && itemSize != 0 ==>
      r.Ok?
    ensures r.Ok? && |file| > 0 ==>
      fresh(r.value) && r.value.Opened(file, offset, size, itemSize, WrapInt64(offset + size))
  {
    r := OpenMapping(file, offset, size, itemSize, WrapInt64(offset + size));
  }

  /** On the code as written, whenever the items start past the file's first byte and
      fill the size exactly, the last item reaches past the end of the mapping. */
  lemma AsWrittenLastItemUnmapped(rd: MMapReader, file: seq<byte>, offset: int64, size: int64, itemSize: int64)
    requires rd.Opened(file, offset, size, itemSize, size)
    requires offset > 0 && itemSize > 0 && rd.itemCount * itemSize == size
    ensures !rd.ItemMapped(rd.itemCount - 1)
  {
  }

  /** The same on a case that crosses a page: a 4136-byte file whose 512 items of 8
      bytes start at 40. `mmap` is asked for 4096 bytes, exactly one page, so rounding
      up to pages maps nothing more, and items 507 to 511 (file bytes 4096..4136) lie
      past the last mapped page. */
  lemma AsWrittenExample(rd: MMapReader, file: seq<byte>)
    requires |file| == 4136 && rd.Opened(file, 40, 4096, 8, 4096)
    ensures rd.itemCount == 512 && PageRounded(rd.mapLength) == rd.mapLength
    ensures forall idx :: 507 <= idx < 512 ==> rd.GetItem(idx) >= PageRounded(rd.mapLength) && !rd.ItemMapped(idx)
    ensures forall idx :: 0 <= idx < 507 ==> rd.ItemMapped(idx)
  {
  }

  /** Every item below the item count of an opened reader lies within the `size`
      bytes from `ptr`. */
  lemma ItemWithinSize(rd: MMapReader, idx: int)
    requires rd.Valid() && rd.data.Some? && rd.itemSize > 0 && 0 <= idx < rd.itemCount
    ensures rd.ptr <= rd.GetItem(idx) && rd.GetItem(idx) + rd.itemSize <= rd.ptr + rd.size
  {
    StrideBound(idx, rd.itemCount, rd.size, rd.itemSize);
  }

  /** On the corrected mapping every item lies inside the mapping, and its bytes are the
      file's bytes at `offset + idx * itemSize`. */
  lemma CoveringItemsMapped(rd: MMapReader, file: seq<byte>, offset: int64, size: int64, itemSize: int64, idx: int)
    requires 0 <= offset && 0 < size && offset + size <= |file|
    requires rd.Opened(file, offset, size, itemSize, offset + size)
    requires itemSize > 0 && 0 <= idx < rd.itemCount
    ensures rd.ItemMapped(idx)
    ensures rd.ItemBytes(idx) == file[offset + idx * itemSize..offset + idx * itemSize + itemSize]
  {
    ItemWithinSize(rd, idx);
    assert rd.GetItem(idx) == offset + idx * itemSize;
  }
}
