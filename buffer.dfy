/** The Node.js Buffer operations the codec uses, as methods on a byte
    array, each proved against the sequence view of Wire. */
module Buffers {
  import opened Wire

  /** One byte written in place is a one-byte splice. */
  lemma SpliceOne(b: seq<byte>, i: nat, x: byte)
    requires i < |b|
    ensures Splice(b, i, [x]) == b[i := x]
  {
    var l := Splice(b, i, [x]);
    forall k | 0 <= k < |b| ensures l[k] == b[i := x][k] {
      if k == i {
        assert l[i..i + 1] == [x];
      }
    }
  }

  /** `data.copy(buf, off)` for a `data` that fits: the bytes land at `off`
      and nothing else changes. */
  method CopyInto(buf: array<byte>, off: nat, data: seq<byte>)
    requires off + |data| <= buf.Length
    modifies buf
    ensures buf[..] == Splice(old(buf[..]), off, data)
  {
    ghost var b0 := buf[..];
    forall i | off <= i < off + |data| {
      buf[i] := data[i - off];
    }
    SpliceAt(b0, off, data);
    assert forall i :: 0 <= i < buf.Length ==> buf[..][i] == Splice(b0, off, data)[i];
  }

  /** `buffer.writeInt32BE(x, off)` where the four bytes fit. */
  method WriteInt32(buf: array<byte>, off: nat, x: int32)
    requires off + 4 <= buf.Length
    modifies buf
    ensures buf[..] == Splice(old(buf[..]), off, Int32BE(x))
  {
    CopyInto(buf, off, Int32BE(x));
  }

  /** `buffer.readInt32BE(off)`: the four bytes at `off`, most significant
      first, as a two's-complement number; out of range is an error. */
  method ReadInt32Of(buf: seq<byte>, off: nat) returns (r: Result<int32>)
    ensures r == ReadInt32(buf, off)
  {
    if off + 4 > |buf| {
      return Err(OutOfRange);
    }
    var u := ((buf[off] as int * 256 + buf[off + 1] as int) * 256 + buf[off + 2] as int) * 256 + buf[off + 3] as int;
    FromFour(buf[off..off + 4]);
    FromBigEndianBound(buf[off..off + 4]);
    if u <= MaxInt32 {
      r := Ok(u);
    } else {
      r := Ok(u - 0x1_0000_0000);
    }
  }
}
