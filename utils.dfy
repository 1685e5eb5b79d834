/** Length-prefixed text, the one variable-width value of the format: an int32 byte
    count followed by exactly that many raw bytes, with no terminator. */
module Utils {
  import opened Errors
  import opened Binary

  /** A Go string, as the bytes `[]byte(s)` gives; its length fits the int32 prefix. */
  type Text = s: seq<byte> | |s| < 0x8000_0000

  /** `writeText`: the byte length as int32, then the bytes themselves. */
  function WriteText(s: Text): (bs: seq<byte>)
    ensures |bs| == 4 + |s|
  {
    EncodeInt32(|s|) + s
  }

  /** `readText`: reads the int32 length, then exactly that many bytes. */
  function ReadText(data: seq<byte>, pos: nat): (r: Result<(Text, nat)>)
    // what is consumed on success is exactly the encoding of the text returned
    ensures r.Ok? ==> r.value.1 == pos + 4 + |r.value.0| && At(data, pos, WriteText(r.value.0))
  {
    var (length, p) :- ReadInt32(data, pos);
    if length < 0 then
      Err(Panic(NegativeLength))
    else
      var (bs, q) :- ReadBytes(data, p, length);
      AtConcat(data, pos, EncodeInt32(length), bs);
      Ok((bs, q))
  }

  /** The ways `readText` fails: a short length prefix, a negative length (on which
      `make` panics), or fewer bytes than the length announces. */
  lemma ReadTextFailures(data: seq<byte>, pos: nat)
    ensures pos + 4 > |data| ==> ReadText(data, pos) == Err(ShortRead)
    ensures pos + 4 <= |data| ==>
      var n := DecodeInt32(data[pos..pos + 4]);
      && (n < 0 ==> ReadText(data, pos) == Err(Panic(NegativeLength)))
      && (0 <= n && pos + 4 + n > |data| ==> ReadText(data, pos) == Err(ShortRead))
      && (0 <= n && pos + 4 + n <= |data| ==> ReadText(data, pos) == Ok((data[pos + 4..pos + 4 + n], pos + 4 + n)))
  {
  }

  /** Reading text where `writeText` wrote it gives the text back and consumes exactly
      `4 + |s|` bytes, whatever follows. */
  lemma ReadWriteText(data: seq<byte>, pos: nat, s: Text)
    requires At(data, pos, WriteText(s))
    ensures ReadText(data, pos) == Ok((s, pos + |WriteText(s)|))
  {
    AtConcat(data, pos, EncodeInt32(|s|), s);
    ReadInt32At(data, pos, |s|);
    AtSlice(data, pos + 4, s);
  }
}
