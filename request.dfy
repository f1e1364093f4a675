/** The framing of a request on the wire (request.ts): a 4-byte big-endian
    length, then the header record, then the payload record. */
module JuteRequest {
  import opened Wire
  import opened Buffers
  import opened JuteRecord

  /** The bytes of a present part, nothing for a missing one. */
  function PartBytes(x: Option<seq<byte>>): seq<byte>
  {
    if x.Some? then x.value else []
  }

  /** What `toBuffer` yields from the encoded header `h` and payload `p`
      (None for a missing record). The length does not fit `writeInt32BE`
      beyond MaxInt32, and a present record whose bytes would start at the
      very end of the buffer fails the offset check of its `serialize`;
      that happens exactly when it and everything after it are empty. */
  function Framed(h: Option<seq<byte>>, p: Option<seq<byte>>): Result<seq<byte>>
  {
    var size := |PartBytes(h)| + |PartBytes(p)|;
    if size > MaxInt32 then Err(OutOfRange)
    else if h.Some? && size == 0 then Err(OutOfRange)
    else if p.Some? && |PartBytes(p)| == 0 then Err(OutOfRange)
    else Ok(Int32BE(size) + PartBytes(h) + PartBytes(p))
  }

  /** A successful frame: its length prefix counts the bytes after it, the
      header occupies [4, 4 + h) and the payload [4 + h, 4 + h + p). */
  lemma FrameLayout(h: Option<seq<byte>>, p: Option<seq<byte>>)
    requires Framed(h, p).Ok?
    ensures var r := Framed(h, p).value;
      && |r| == 4 + |PartBytes(h)| + |PartBytes(p)|
      && ReadInt32(r, 0) == Ok(|r| - 4)
      && r[4..4 + |PartBytes(h)|] == PartBytes(h)
      && r[4 + |PartBytes(h)|..] == PartBytes(p)
  {
    var r := Framed(h, p).value;
    var size := |PartBytes(h)| + |PartBytes(p)|;
    assert r[0..4] == Int32BE(size);
    Int32RoundTrip(size, r, 0);
  }

  /** The frame fails exactly when the length overflows or a present record
      has nothing written at or after its offset. */
  lemma FrameFails(h: Option<seq<byte>>, p: Option<seq<byte>>)
    ensures Framed(h, p).Err? <==>
      || |PartBytes(h)| + |PartBytes(p)| > MaxInt32
      || (h.Some? && |h.value| + |PartBytes(p)| == 0)
      || (p.Some? && |p.value| == 0)
  {
  }

  /** The frame when no check fails. */
  lemma FramedOk(h: Option<seq<byte>>, p: Option<seq<byte>>)
    requires |PartBytes(h)| + |PartBytes(p)| <= MaxInt32
    requires h.Some? ==> |PartBytes(h)| + |PartBytes(p)| > 0
    requires p.Some? ==> |PartBytes(p)| > 0
    ensures Framed(h, p) == Ok(Int32BE(|PartBytes(h)| + |PartBytes(p)|) + PartBytes(h) + PartBytes(p))
  {
  }

  /** A write covering the whole buffer leaves exactly its bytes. */
  lemma SpliceAll(b: seq<byte>, x: seq<byte>)
    requires |b| == |x|
    ensures Splice(b, 0, x) == x
  {
    assert b[..0] + x + b[|x|..] == x;
  }

  /** The encoded bytes of a record, None for a missing one. */
  ghost function Part(rec: Record?): Option<seq<byte>>
    reads rec
    requires rec != null ==> rec.Writable()
  {
    if rec == null then None else Some(rec.Bytes())
  }

  /** A request: a header and a payload record, either of which may be missing. */
  class Request {
    const header: Record?
    const payload: Record?

    constructor (header: Record?, payload: Record?)
      ensures this.header == header && this.payload == payload
    {
      this.header := header;
      this.payload := payload;
    }

    ghost predicate Valid()
      reads this, header, payload
    {
      && (header != null ==> header.Writable())
      && (payload != null ==> payload.Writable())
    }

    /** `toBuffer()`: the frame of the header and payload bytes. */
    method ToBuffer() returns (r: Result<seq<byte>>)
      requires Valid()
      ensures r == Framed(Part(header), Part(payload))
    {
      r := Frame(header, payload, Part(header), Part(payload));
    }
  }

  /** The body of `toBuffer`, on the encoded bytes `h` and `p` of its two
      records: size, allocation, length prefix, then each record. */
  method Frame(header: Record?, payload: Record?, ghost h: Option<seq<byte>>, ghost p: Option<seq<byte>>)
    returns (r: Result<seq<byte>>)
    requires header != null ==> header.Writable()
    requires payload != null ==> payload.Writable()
    requires h == Part(header) && p == Part(payload)
    ensures r == Framed(h, p)
  {
    ghost var hb, pb := PartBytes(h), PartBytes(p);
    var size: nat := 0;
    var n := PartLength(header, h);
    size := size + n;
    n := PartLength(payload, p);
    size := size + n;
    var buffer := new byte[size + 4](_ => 0);
    if size > MaxInt32 {
      return Err(OutOfRange);
    }
    ghost var b0 := buffer[..];
    WriteInt32(buffer, 0, size);
    var offset := 4;
    var w := WritePart(header, buffer, offset, b0, Int32BE(size), h);
    if w.Err? {
      return Err(w.error);
    }
    offset := offset + w.value;
    w := WritePart(payload, buffer, offset, b0, Int32BE(size) + hb, p);
    if w.Err? {
      return Err(w.error);
    }
    SpliceAll(b0, Int32BE(size) + hb + pb);
    r := Ok(buffer[..]);
    FramedOk(h, p);
  }

  /** `if (record) size += record.byteLength()`: what a record adds to the size. */
  method PartLength(rec: Record?, ghost part: Option<seq<byte>>) returns (n: nat)
    requires rec != null ==> rec.Writable()
    requires part == Part(rec)
    ensures n == |PartBytes(part)|
  {
    n := 0;
    if rec != null {
      n := rec.ByteLength();
    }
  }

  /** `if (record) offset += record.serialize(buffer, offset)`: a missing
      record writes nothing; a present one is written at `offset` after the
      bytes `done` already there, or fails the offset check at the end of
      the buffer. */
  method WritePart(rec: Record?, buffer: array<byte>, offset: nat, ghost b0: seq<byte>, ghost done: seq<byte>,
                   ghost part: Option<seq<byte>>)
    returns (r: Result<nat>)
    requires rec != null ==> rec.Writable()
    requires part == Part(rec)
    requires offset == |done| && |b0| == buffer.Length && offset + |PartBytes(part)| <= buffer.Length
    requires buffer[..] == Splice(b0, 0, done)
    modifies buffer
    ensures r.Ok? <==> part.None? || offset < buffer.Length
    ensures r.Err? ==> r.error == OutOfRange
    ensures r.Ok? ==> r.value == |PartBytes(part)| && buffer[..] == Splice(b0, 0, done + PartBytes(part))
  {
    if rec == null {
      assert done + [] == done;
      return Ok(0);
    }
    ghost var b1 := buffer[..];
    r := rec.Serialize(buffer, offset);
    if r.Ok? {
      SpliceTwice(b0, 0, done, rec.Bytes());
    }
  }
}
