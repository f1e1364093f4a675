/** Bytes, 32-bit integers and the big-endian layout that Node's Buffer
    uses for `writeInt32BE` / `readInt32BE`, plus the Result type that
    stands for the source's thrown errors. */
module Wire {

  type byte = x: int | 0 <= x < 256

  const MinInt32: int := -0x8000_0000
  const MaxInt32: int := 0x7FFF_FFFF

  type int32 = x: int | MinInt32 <= x <= MaxInt32

  /** The errors the modelled code throws. */
  datatype Error =
    | OutOfRange          // an offset outside the buffer ('offset ... is out of buffer range', RangeError of a read)
    | NotEnoughSpace      // 'buffer does not have enough space.'
    | BadLength           // a negative length prefix other than -1
    | BadArgument(what: string)  // a failed argument assertion
    | UnknownType         // 'Unknown type: ...'
    | TypeError           // a property read on an absent value

  datatype Result<+T> = Ok(value: T) | Err(error: Error) {
    predicate IsFailure() { Err? }
    function PropagateFailure<U>(): Result<U> requires Err? { Err(error) }
    function Extract(): T requires Ok? { value }
  }

  datatype Option<+T> = None | Some(value: T)

  /** Two's-complement 32-bit value as an unsigned number. */
  function Unsigned(x: int32): (u: nat)
    ensures u < 0x1_0000_0000
    ensures x >= 0 ==> u == x
    ensures x < 0 ==> u == x + 0x1_0000_0000
  {
    if x >= 0 then x else x + 0x1_0000_0000
  }

  /** `buffer.writeInt32BE(x, ...)`: four bytes, most significant first. */
  function Int32BE(x: int32): (r: seq<byte>)
    ensures |r| == 4
  {
    ToBigEndian(Unsigned(x), 4)
  }

  /** The low `n` base-256 digits of `u`, most significant first. */
  function ToBigEndian(u: nat, n: nat): (r: seq<byte>)
    ensures |r| == n
  {
    if n == 0 then [] else ToBigEndian(u / 256, n - 1) + [u % 256]
  }

  /** The number the bytes `bs` spell in base 256, most significant first. */
  function FromBigEndian(bs: seq<byte>): nat
  {
    if bs == [] then 0 else FromBigEndian(bs[..|bs| - 1]) * 256 + bs[|bs| - 1]
  }

  /** `buffer.readInt32BE(off)` on four bytes that are known to be there:
      the big-endian number, read as two's complement. */
  function Int32At(s: seq<byte>, off: nat): (x: int32)
    requires off + 4 <= |s|
  {
    var u := FromBigEndian(s[off..off + 4]);
    FromBigEndianBound(s[off..off + 4]);
    if u <= MaxInt32 then u else u - 0x1_0000_0000
  }

  lemma {:induction false} FromBigEndianBound(bs: seq<byte>)
    ensures |bs| == 4 ==> FromBigEndian(bs) < 0x1_0000_0000
    ensures |bs| == 3 ==> FromBigEndian(bs) < 0x100_0000
    ensures |bs| == 2 ==> FromBigEndian(bs) < 0x1_0000
    ensures |bs| == 1 ==> FromBigEndian(bs) < 0x100
    ensures |bs| == 0 ==> FromBigEndian(bs) == 0
    decreases |bs|
  {
    if bs != [] {
      FromBigEndianBound(bs[..|bs| - 1]);
    }
  }

  /** `buffer.readInt32BE(off)`: a RangeError when the four bytes are not all there. */
  function ReadInt32(s: seq<byte>, off: nat): (r: Result<int32>)
    ensures r.Ok? <==> off + 4 <= |s|
  {
    if off + 4 <= |s| then Ok(Int32At(s, off)) else Err(OutOfRange)
  }

  /** Reading back what `Int32BE` wrote gives the same number. */
  lemma Int32RoundTrip(x: int32, s: seq<byte>, off: nat)
    requires off + 4 <= |s| && s[off..off + 4] == Int32BE(x)
    ensures Int32At(s, off) == x
  {
    var u := Unsigned(x);
    FourDigits(u);
    FromFour(s[off..off + 4]);
    var q1 := u / 256;
    var q2 := q1 / 256;
    assert u == q1 * 256 + u % 256;
    assert q1 == q2 * 256 + q1 % 256;
    assert q2 == (q2 / 256) * 256 + q2 % 256;
  }

  lemma FourDigits(u: nat)
    requires u < 0x1_0000_0000
    ensures ToBigEndian(u, 4) == [((u / 256) / 256) / 256, ((u / 256) / 256) % 256, (u / 256) % 256, u % 256]
  {
    var q1 := u / 256;
    var q2 := q1 / 256;
    assert ToBigEndian(u, 4) == ToBigEndian(q1, 3) + [u % 256];
    assert ToBigEndian(q1, 3) == ToBigEndian(q2, 2) + [q1 % 256];
    assert ToBigEndian(q2, 2) == ToBigEndian(q2 / 256, 1) + [q2 % 256];
    assert ToBigEndian(q2 / 256, 1) == [(q2 / 256) % 256];
  }

  lemma FromFour(bs: seq<byte>)
    requires |bs| == 4
    ensures FromBigEndian(bs) == (((bs[0] as int) * 256 + bs[1] as int) * 256 + bs[2] as int) * 256 + bs[3] as int
  {
    assert bs[..3][..2] == bs[..2] && bs[..2][..1] == bs[..1] && bs[..1][..0] == [];
    assert FromBigEndian(bs[..1]) == bs[0];
    assert FromBigEndian(bs[..2]) == FromBigEndian(bs[..1]) * 256 + bs[1];
    assert FromBigEndian(bs[..3]) == FromBigEndian(bs[..2]) * 256 + bs[2];
  }

  /** Overwrite `data` into `b` at offset `off`, keeping every other byte.
      This is what a sequence of buffer writes does to the whole buffer. */
  function Splice(b: seq<byte>, off: nat, data: seq<byte>): (r: seq<byte>)
    requires off + |data| <= |b|
    ensures |r| == |b|
  {
    b[..off] + data + b[off + |data|..]
  }

  /** The spliced bytes are `data` at `off` and `b` everywhere else. */
  lemma SpliceAt(b: seq<byte>, off: nat, data: seq<byte>)
    requires off + |data| <= |b|
    ensures Splice(b, off, data)[off..off + |data|] == data
    ensures forall i :: 0 <= i < |b| && !(off <= i < off + |data|) ==> Splice(b, off, data)[i] == b[i]
  {
  }

  /** Writing nothing leaves the buffer as it is. */
  lemma SpliceNothing(b: seq<byte>, off: nat)
    requires off <= |b|
    ensures Splice(b, off, []) == b
  {
    assert b[..off] + [] + b[off..] == b;
  }

  lemma ConcatAssoc(a: seq<byte>, b: seq<byte>, c: seq<byte>)
    ensures a + b + c == a + (b + c)
  {
  }

  /** Two adjacent writes are one write of the concatenation. */
  lemma SpliceTwice(b: seq<byte>, off: nat, x: seq<byte>, y: seq<byte>)
    requires off + |x| + |y| <= |b|
    ensures Splice(Splice(b, off, x), off + |x|, y) == Splice(b, off, x + y)
  {
    var l := Splice(Splice(b, off, x), off + |x|, y);
    var r := Splice(b, off, x + y);
    SpliceAt(b, off, x);
    SpliceAt(Splice(b, off, x), off + |x|, y);
    SpliceAt(b, off, x + y);
    forall i | 0 <= i < |b| ensures l[i] == r[i] {
      if off <= i < off + |x| {
        assert l[i] == Splice(b, off, x)[i] == x[i - off];
        assert r[off..off + |x| + |y|][i - off] == (x + y)[i - off];
      } else if off + |x| <= i < off + |x| + |y| {
        assert l[off + |x|..off + |x| + |y|][i - off - |x|] == y[i - off - |x|];
        assert r[off..off + |x| + |y|][i - off] == (x + y)[i - off];
      }
    }
  }

  /** The bytes `s[from..to]` that Node's `buf.copy` / `buf.toString` read when
      the range may run past the end: both ends are clamped to the buffer. */
  function Clamp(s: seq<byte>, from: nat, to: int): (r: seq<byte>)
    ensures to <= |s| && from <= to ==> r == s[from..to]
    ensures |r| <= |s|
  {
    var hi := if to < 0 then 0 else if to > |s| then |s| else to;
    var lo := if from > hi then hi else from;
    s[lo..hi]
  }

  /** A zero-filled buffer of `n` bytes (`Buffer.alloc(n)`) after `data` has
      been copied to its start: surplus bytes of `data` are dropped. */
  function Padded(data: seq<byte>, n: nat): (r: seq<byte>)
    ensures |r| == n
    ensures |data| >= n ==> r == data[..n]
    ensures forall i :: 0 <= i < n ==> r[i] == if i < |data| then data[i] else 0
  {
    if |data| >= n then data[..n] else data + Zeros(n - |data|)
  }

  function Zeros(n: nat): (r: seq<byte>)
    ensures |r| == n && forall i :: 0 <= i < n ==> r[i] == 0
  {
    seq(n, _ => 0)
  }
}
