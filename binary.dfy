/** Fixed-width integers and their byte encoding: the part of Go's `encoding/binary`
    that the tea file code uses (`binary.Read` / `binary.Write` of int32, int64, uint64
    and raw byte slices). The byte order is fixed to little-endian; the source picks the
    host's native order at start-up. A reader is a byte sequence plus a cursor. */
module Binary {
  import opened Errors

  type byte = x: int | 0 <= x < 0x100
  type int32 = x: int | -0x8000_0000 <= x < 0x8000_0000
  type int64 = x: int | -0x8000_0000_0000_0000 <= x < 0x8000_0000_0000_0000
  type uint64 = x: int | 0 <= x < 0x1_0000_0000_0000_0000

  function Pow256(n: nat): (p: nat)
    ensures p > 0
  {
    if n == 0 then 1 else 256 * Pow256(n - 1)
  }

  lemma Pow256Widths()
    ensures Pow256(4) == 0x1_0000_0000
    ensures Pow256(8) == 0x1_0000_0000_0000_0000
  {
    assert Pow256(2) == 0x1_0000;
    assert Pow256(4) == 0x1_0000_0000;
    assert Pow256(6) == 0x1_0000_0000_0000;
  }

  /** The `n` least significant bytes of `v`, least significant first. */
  function LittleEndian(v: nat, n: nat): (bs: seq<byte>)
    requires v < Pow256(n)
    ensures |bs| == n
  {
    if n == 0 then [] else [v % 256] + LittleEndian(v / 256, n - 1)
  }

  /** The unsigned value of a little-endian byte sequence. */
  function Unpack(bs: seq<byte>): (v: nat)
    ensures v < Pow256(|bs|)
  {
    if bs == [] then 0 else bs[0] + 256 * Unpack(bs[1..])
  }

  lemma {:induction false} UnpackLittleEndian(v: nat, n: nat)
    requires v < Pow256(n)
    ensures Unpack(LittleEndian(v, n)) == v
  {
    if n > 0 {
      var bs := LittleEndian(v, n);
      assert bs[1..] == LittleEndian(v / 256, n - 1);
      UnpackLittleEndian(v / 256, n - 1);
    }
  }

  /** Go's conversion `int32(x)`: two's-complement truncation to 32 bits. */
  function WrapInt32(x: int): (r: int32)
    ensures (r - x) % 0x1_0000_0000 == 0
    ensures -0x8000_0000 <= x < 0x8000_0000 ==> r == x
  {
    var u := x % 0x1_0000_0000;
    if u < 0x8000_0000 then u else u - 0x1_0000_0000
  }

  /** Go's conversion `int64(x)`, and the wrap-around of int64 arithmetic. */
  function WrapInt64(x: int): (r: int64)
    ensures (r - x) % 0x1_0000_0000_0000_0000 == 0
    ensures -0x8000_0000_0000_0000 <= x < 0x8000_0000_0000_0000 ==> r == x
  {
    var u := x % 0x1_0000_0000_0000_0000;
    if u < 0x8000_0000_0000_0000 then u else u - 0x1_0000_0000_0000_0000
  }

  function EncodeInt32(x: int32): (bs: seq<byte>)
    ensures |bs| == 4
  {
    Pow256Widths();
    LittleEndian(if x < 0 then x + 0x1_0000_0000 else x, 4)
  }

  function DecodeInt32(bs: seq<byte>): int32
    requires |bs| == 4
  {
    Pow256Widths();
    var u := Unpack(bs);
    if u < 0x8000_0000 then u else u - 0x1_0000_0000
  }

  function EncodeInt64(x: int64): (bs: seq<byte>)
    ensures |bs| == 8
  {
    Pow256Widths();
    LittleEndian(if x < 0 then x + 0x1_0000_0000_0000_0000 else x, 8)
  }

  function DecodeInt64(bs: seq<byte>): int64
    requires |bs| == 8
  {
    Pow256Widths();
    var u := Unpack(bs);
    if u < 0x8000_0000_0000_0000 then u else u - 0x1_0000_0000_0000_0000
  }

  function EncodeUint64(x: uint64): (bs: seq<byte>)
    ensures |bs| == 8
  {
    Pow256Widths();
    LittleEndian(x, 8)
  }

  function DecodeUint64(bs: seq<byte>): uint64
    requires |bs| == 8
  {
    Pow256Widths();
    Unpack(bs)
  }

  lemma Int32RoundTrip(x: int32)
    ensures DecodeInt32(EncodeInt32(x)) == x
  {
    Pow256Widths();
    UnpackLittleEndian(if x < 0 then x + 0x1_0000_0000 else x, 4);
  }

  lemma Int64RoundTrip(x: int64)
    ensures DecodeInt64(EncodeInt64(x)) == x
  {
    Pow256Widths();
    UnpackLittleEndian(if x < 0 then x + 0x1_0000_0000_0000_0000 else x, 8);
  }

  lemma Uint64RoundTrip(x: uint64)
    ensures DecodeUint64(EncodeUint64(x)) == x
  {
    Pow256Widths();
    UnpackLittleEndian(x, 8);
  }

  /** The byte `k` places after `pos`, or 0 past the end. */
  function Shifted(data: seq<byte>, pos: nat, k: nat): byte
  {
    if pos + k < |data| then data[pos + k] else 0
  }

  /** `bs` stands in `data` at position `pos`. */
  predicate At(data: seq<byte>, pos: nat, bs: seq<byte>)
  {
    pos + |bs| <= |data| && forall k {:trigger Shifted(data, pos, k)} :: 0 <= k < |bs| ==> Shifted(data, pos, k) == bs[k]
  }

  /** The slice of `data` from `pos` is `bs` exactly when `bs` stands at `pos`. */
  lemma AtSlice(data: seq<byte>, pos: nat, bs: seq<byte>)
    ensures At(data, pos, bs) <==> pos + |bs| <= |data| && data[pos..pos + |bs|] == bs
  {
    if pos + |bs| <= |data| {
      if At(data, pos, bs) {
        forall j | 0 <= j < |bs| ensures data[pos..pos + |bs|][j] == bs[j] {
          assert Shifted(data, pos, j) == bs[j];
        }
      }
      if data[pos..pos + |bs|] == bs {
        forall k: nat | k < |bs| ensures Shifted(data, pos, k) == bs[k] {
          assert data[pos..pos + |bs|][k] == bs[k];
        }
      }
    }
  }

  lemma AtConcat(data: seq<byte>, pos: nat, a: seq<byte>, b: seq<byte>)
    ensures At(data, pos, a + b) <==> At(data, pos, a) && At(data, pos + |a|, b)
  {
    if At(data, pos, a) && At(data, pos + |a|, b) {
      forall k: nat | k < |a + b| ensures Shifted(data, pos, k) == (a + b)[k] {
        if k >= |a| {
          assert Shifted(data, pos + |a|, k - |a|) == b[k - |a|];
        } else {
          assert Shifted(data, pos, k) == a[k];
        }
      }
    }
    if At(data, pos, a + b) {
      forall k: nat | k < |a| ensures Shifted(data, pos, k) == a[k] {
        assert Shifted(data, pos, k) == (a + b)[k];
      }
      forall k: nat | k < |b| ensures Shifted(data, pos + |a|, k) == b[k] {
        assert Shifted(data, pos, |a| + k) == (a + b)[|a| + k];
      }
    }
  }

  /** `AtConcat` left to right, with the position of the second part named. */
  lemma AtSplit(data: seq<byte>, pos: nat, a: seq<byte>, b: seq<byte>, q: nat)
    requires At(data, pos, a + b) && q == pos + |a|
    ensures At(data, pos, a) && At(data, q, b)
  {
    AtConcat(data, pos, a, b);
  }

  lemma AppendAssoc(a: seq<byte>, b: seq<byte>, c: seq<byte>)
    ensures a + b + c == a + (b + c)
  {
  }

  /** The number of iterations of a loop `for i := 0; i < x; i++`. */
  function Max0(x: int): nat { if x > 0 then x else 0 }

  function Zeros(n: nat): (bs: seq<byte>)
    ensures |bs| == n && forall i :: 0 <= i < n ==> bs[i] == 0
  {
    seq(n, _ => 0)
  }

  /** `binary.Read` of `n` raw bytes: `io.ReadFull`, so a short stream is an error. */
  function ReadBytes(data: seq<byte>, pos: nat, n: nat): (r: Result<(seq<byte>, nat)>)
    ensures r.Ok? <==> pos + n <= |data|
    ensures r.Ok? ==> r.value.1 == pos + n && At(data, pos, r.value.0) && |r.value.0| == n
    ensures r.Err? ==> r.error == ShortRead
  {
    if pos + n <= |data| then
      AtSlice(data, pos, data[pos..pos + n]);
      Ok((data[pos..pos + n], pos + n))
    else
      Err(ShortRead)
  }

  function ReadInt32(data: seq<byte>, pos: nat): (r: Result<(int32, nat)>)
    ensures r.Ok? <==> pos + 4 <= |data|
    ensures r.Ok? ==> r.value.1 == pos + 4 && At(data, pos, EncodeInt32(r.value.0))
    ensures r.Err? ==> r.error == ShortRead
  {
    var (bs, p) :- ReadBytes(data, pos, 4);
    Int32Canonical(bs);
    Ok((DecodeInt32(bs), p))
  }

  function ReadInt64(data: seq<byte>, pos: nat): (r: Result<(int64, nat)>)
    ensures r.Ok? <==> pos + 8 <= |data|
    ensures r.Ok? ==> r.value.1 == pos + 8 && At(data, pos, EncodeInt64(r.value.0))
    ensures r.Err? ==> r.error == ShortRead
  {
    var (bs, p) :- ReadBytes(data, pos, 8);
    Int64Canonical(bs);
    Ok((DecodeInt64(bs), p))
  }

  function ReadUint64(data: seq<byte>, pos: nat): (r: Result<(uint64, nat)>)
    ensures r.Ok? <==> pos + 8 <= |data|
    ensures r.Ok? ==> r.value.1 == pos + 8 && At(data, pos, EncodeUint64(r.value.0))
    ensures r.Err? ==> r.error == ShortRead
  {
    var (bs, p) :- ReadBytes(data, pos, 8);
    Uint64Canonical(bs);
    Ok((DecodeUint64(bs), p))
  }

  /** Every 4-byte sequence is the encoding of the int32 it decodes to. */
  lemma Int32Canonical(bs: seq<byte>)
    requires |bs| == 4
    ensures EncodeInt32(DecodeInt32(bs)) == bs
  {
    Pow256Widths();
    PackUnpack(bs);
  }

  lemma Int64Canonical(bs: seq<byte>)
    requires |bs| == 8
    ensures EncodeInt64(DecodeInt64(bs)) == bs
  {
    Pow256Widths();
    PackUnpack(bs);
  }

  lemma Uint64Canonical(bs: seq<byte>)
    requires |bs| == 8
    ensures EncodeUint64(DecodeUint64(bs)) == bs
  {
    Pow256Widths();
    PackUnpack(bs);
  }

  lemma {:induction false} PackUnpack(bs: seq<byte>)
    ensures LittleEndian(Unpack(bs), |bs|) == bs
  {
    if bs != [] {
      PackUnpack(bs[1..]);
      var v := Unpack(bs);
      assert v % 256 == bs[0];
      assert v / 256 == Unpack(bs[1..]);
    }
  }

  /** Reading an int32 where one was written yields it back. */
  lemma ReadInt32At(data: seq<byte>, pos: nat, x: int32)
    requires At(data, pos, EncodeInt32(x))
    ensures ReadInt32(data, pos) == Ok((x, pos + 4))
  {
    AtSlice(data, pos, EncodeInt32(x));
    Int32RoundTrip(x);
  }

  lemma ReadInt64At(data: seq<byte>, pos: nat, x: int64)
    requires At(data, pos, EncodeInt64(x))
    ensures ReadInt64(data, pos) == Ok((x, pos + 8))
  {
    AtSlice(data, pos, EncodeInt64(x));
    Int64RoundTrip(x);
  }

  lemma ReadUint64At(data: seq<byte>, pos: nat, x: uint64)
    requires At(data, pos, EncodeUint64(x))
    ensures ReadUint64(data, pos) == Ok((x, pos + 8))
  {
    AtSlice(data, pos, EncodeUint64(x));
    Uint64RoundTrip(x);
  }
}
