/** The request half of a multi-operation transaction
    (jute/transaction-request.ts): each op becomes a MultiHeader record
    followed by its payload record, and a `done` MultiHeader closes the
    list. */
module TxnRequest {
  import opened Wire
  import opened JuteCodec
  import opened JuteRecord
  import opened Protocol

  /** An ACL entry as `ACL.toRecord` gives it: permissions and an Id of
      scheme and id. */
  datatype Acl = Acl(perms: int32, scheme: seq<byte>, id: seq<byte>)

  function AclValue(a: Acl): Value
  {
    RecordV([IntV(a.perms), RecordV([StringV(a.scheme), StringV(a.id)])])
  }

  /** An op of the list the transaction request is built from. `data` is
      None for null or undefined, Some for a Buffer. `OtherOp` is an op
      object with any other `type`. */
  datatype Op =
    | CreateOp(path: seq<byte>, data: Option<seq<byte>>, acls: seq<Acl>, mode: int32)
    | DeleteOp(path: seq<byte>, version: int32)
    | SetDataOp(path: seq<byte>, data: Option<seq<byte>>, version: int32)
    | CheckOp(path: seq<byte>, version: int32)
    | OtherOp(kind: int)

  /** The op's `type` field. */
  function OpType(op: Op): int
  {
    match op
    case CreateOp(_, _, _, _) => CREATE as int
    case DeleteOp(_, _) => DELETE as int
    case SetDataOp(_, _, _) => SET_DATA as int
    case CheckOp(_, _) => CHECK as int
    case OtherOp(k) => k
  }

  /** The state of a record of the list: field table, values, chroot. */
  datatype Rec = Rec(spec: seq<FieldSpec>, values: seq<Value>, chroot: seq<byte>)

  /** `new MultiHeader(type, done, -1)`. */
  function Header(t: int32, done: bool): Rec
  {
    Rec(MultiHeaderSpec, [IntV(t), BoolV(done), IntV(-1)], [])
  }

  /** The terminating header `new MultiHeader(-1, true, -1)`. */
  const Terminator: Rec := Header(-1, true)

  /** A buffer field set from `data`: absent unless it is a Buffer. */
  function DataValue(d: Option<seq<byte>>): Value
  {
    if d.Some? then BufferV(d.value) else Absent
  }

  /** The switch of the constructor: the payload record of one op, or the
      'Unknown op type' error. */
  function Payload(op: Op): (r: Result<Rec>)
    ensures r.Err? <==> op.OtherOp?
  {
    match op
    case CreateOp(path, data, acls, mode) =>
      Ok(Rec(CreateRequestSpec,
             [StringV(path), DataValue(data), VectorV(seq(|acls|, i requires 0 <= i < |acls| => AclValue(acls[i]))), IntV(mode)],
             []))
    case DeleteOp(path, version) => Ok(Rec(DeleteRequestSpec, [StringV(path), IntV(version)], []))
    case SetDataOp(path, data, version) => Ok(Rec(SetDataRequestSpec, [StringV(path), DataValue(data), IntV(version)], []))
    case CheckOp(path, version) => Ok(Rec(CheckVersionRequestSpec, [StringV(path), IntV(version)], []))
    case OtherOp(_) => Err(UnknownType)
  }

  /** The record list the constructor builds from `ops`. */
  function RecordsOf(ops: seq<Op>): Result<seq<Rec>>
  {
    if |ops| == 0 then Ok([Terminator])
    else
      var p :- Payload(ops[0]);
      var rest :- RecordsOf(ops[1..]);
      Ok([Header(OpType(ops[0]) as int32, false), p] + rest)
  }

  /** What the constructor's loop has pushed so far, in front of what the
      remaining ops give. */
  function After(done: seq<Rec>, r: Result<seq<Rec>>): Result<seq<Rec>>
  {
    if r.Err? then r else Ok(done + r.value)
  }

  /** The constructor's loop: for each op a header then its payload record,
      then the terminator; an op of unknown type fails the whole build. */
  method BuildRecords(ops: seq<Op>) returns (r: Result<seq<Rec>>)
    ensures r == RecordsOf(ops)
  {
    var records: seq<Rec> := [];
    assert ops[0..] == ops;
    AfterNothing(RecordsOf(ops));
    for i := 0 to |ops|
      invariant After(records, RecordsOf(ops[i..])) == RecordsOf(ops)
    {
      var p := Payload(ops[i]);
      AfterStep(records, ops, i);
      if p.Err? {
        return Err(p.error);
      }
      records := records + [Header(OpType(ops[i]) as int32, false), p.value];
    }
    assert ops[|ops|..] == [];
    records := records + [Terminator];
    r := Ok(records);
  }

  lemma AfterNothing(r: Result<seq<Rec>>)
    ensures After([], r) == r
  {
    if r.Ok? {
      assert [] + r.value == r.value;
    }
  }

  /** One turn of the constructor's loop. */
  lemma AfterStep(done: seq<Rec>, ops: seq<Op>, i: nat)
    requires i < |ops|
    ensures Payload(ops[i]).Err? ==> After(done, RecordsOf(ops[i..])) == Err(Payload(ops[i]).error)
    ensures Payload(ops[i]).Ok? ==>
      After(done, RecordsOf(ops[i..]))
        == After(done + [Header(OpType(ops[i]) as int32, false), Payload(ops[i]).value], RecordsOf(ops[i + 1..]))
  {
    assert ops[i..][0] == ops[i] && ops[i..][1..] == ops[i + 1..];
    var rest := RecordsOf(ops[i + 1..]);
    if Payload(ops[i]).Ok? && rest.Ok? {
      var hp := [Header(OpType(ops[i]) as int32, false), Payload(ops[i]).value];
      assert done + (hp + rest.value) == done + hp + rest.value;
    }
  }

  /** For n ops of known types the list has 2n + 1 records: op i's header
      at 2i, its payload at 2i + 1, and the terminator last; one op of
      unknown type makes the build fail. */
  lemma RecordsLayout(ops: seq<Op>)
    ensures RecordsOf(ops).Err? <==> exists i :: 0 <= i < |ops| && ops[i].OtherOp?
    ensures RecordsOf(ops).Err? ==> RecordsOf(ops).error == UnknownType
    ensures RecordsOf(ops).Ok? ==>
      var rs := RecordsOf(ops).value;
      && |rs| == 2 * |ops| + 1
      && rs[2 * |ops|] == Terminator
      && forall i :: 0 <= i < |ops| ==>
           rs[2 * i] == Header(OpType(ops[i]) as int32, false) && Payload(ops[i]) == Ok(rs[2 * i + 1])
  {
    RecordsFail(ops);
    RecordsShape(ops);
  }

  lemma {:induction false} RecordsFail(ops: seq<Op>)
    ensures RecordsOf(ops).Err? <==> exists i :: 0 <= i < |ops| && ops[i].OtherOp?
    ensures RecordsOf(ops).Err? ==> RecordsOf(ops).error == UnknownType
  {
    if |ops| > 0 {
      RecordsFail(ops[1..]);
      assert forall i :: 0 < i < |ops| ==> ops[1..][i - 1] == ops[i];
    }
  }

  lemma {:induction false} RecordsShape(ops: seq<Op>)
    ensures RecordsOf(ops).Ok? ==> forall i :: 0 <= i < |ops| ==> !ops[i].OtherOp?
    ensures RecordsOf(ops).Ok? ==>
      var rs := RecordsOf(ops).value;
      && |rs| == 2 * |ops| + 1
      && rs[2 * |ops|] == Terminator
      && forall i :: 0 <= i < |ops| ==>
           rs[2 * i] == Header(OpType(ops[i]) as int32, false) && Payload(ops[i]) == Ok(rs[2 * i + 1])
  {
    if |ops| > 0 && RecordsOf(ops).Ok? {
      RecordsShape(ops[1..]);
      var rs := RecordsOf(ops).value;
      var rest := RecordsOf(ops[1..]).value;
      assert rs == [Header(OpType(ops[0]) as int32, false), Payload(ops[0]).value] + rest;
      forall i | 0 < i < |ops|
        ensures rs[2 * i] == Header(OpType(ops[i]) as int32, false) && Payload(ops[i]) == Ok(rs[2 * i + 1])
      {
        assert ops[1..][i - 1] == ops[i];
        assert rs[2 * i] == rest[2 * (i - 1)] && rs[2 * i + 1] == rest[2 * (i - 1) + 1];
      }
    }
  }

  // ---------------------------------------------------------------------
  // Writing the list

  /** A record `serialize` can write: one value per field, a well-formed
      non-empty table, and values of the fields' types after the chroot
      rewriting. */
  ghost predicate Writable(r: Rec)
  {
    && |r.spec| == |r.values| && |r.spec| > 0 && TagsWf(r.spec)
    && FieldsTyped(r.spec, WireValues(r.spec, r.chroot, r.values))
  }

  ghost predicate AllWritable(rs: seq<Rec>)
  {
    forall i :: 0 <= i < |rs| ==> Writable(rs[i])
  }

  /** The bytes `serialize` writes for one record. */
  ghost function RecBytes(r: Rec): seq<byte>
    requires Writable(r)
  {
    EncodeFields(r.spec, WireValues(r.spec, r.chroot, r.values))
  }

  /** The records written one after the other. */
  ghost function AllBytes(rs: seq<Rec>): seq<byte>
    requires AllWritable(rs)
  {
    if |rs| == 0 then [] else RecBytes(rs[0]) + AllBytes(rs[1..])
  }

  /** The wire size of a record: its `byteLength`. */
  function RecLength(r: Rec): (n: nat)
    requires Writable(r)
    ensures n == |RecBytes(r)| && n >= 1
  {
    EncodeNonEmpty(r.spec[0].tag, WireValues(r.spec, r.chroot, r.values)[0]);
    FieldsSize(r.spec, WireValues(r.spec, r.chroot, r.values))
  }

  /** The reduce of `byteLength`: the sum of the records' lengths. */
  function TotalLength(rs: seq<Rec>): (n: nat)
    requires AllWritable(rs)
    ensures n == |AllBytes(rs)|
  {
    if |rs| == 0 then 0 else RecLength(rs[0]) + TotalLength(rs[1..])
  }

  /** Every record of `rs` with its chroot set to `path`. */
  function WithChroot(rs: seq<Rec>, path: seq<byte>): (r: seq<Rec>)
    ensures |r| == |rs|
    ensures forall i :: 0 <= i < |rs| ==> r[i] == rs[i].(chroot := path)
  {
    seq(|rs|, i requires 0 <= i < |rs| => rs[i].(chroot := path))
  }

  /** Splitting the written bytes after record i. */
  lemma AllBytesFrom(rs: seq<Rec>, i: nat)
    requires AllWritable(rs) && i < |rs|
    ensures AllWritable(rs[i + 1..])
    ensures AllBytes(rs[i..]) == RecBytes(rs[i]) + AllBytes(rs[i + 1..])
  {
    assert rs[i..][1..] == rs[i + 1..];
  }

  /** The request object: its record list. */
  class TransactionRequest {
    var records: seq<Rec>

    /** The object the constructor leaves: `records` as `BuildRecords` built it. */
    constructor (records: seq<Rec>)
      ensures this.records == records
    {
      this.records := records;
    }

    /** `setChrootPath(path)`: every record gets the chroot. */
    method SetChrootPath(path: seq<byte>)
      modifies this
      ensures records == WithChroot(old(records), path)
    {
      for i := 0 to |records|
        invariant |records| == |old(records)|
        invariant forall j :: 0 <= j < i ==> records[j] == old(records)[j].(chroot := path)
        invariant forall j :: i <= j < |records| ==> records[j] == old(records)[j]
      {
        records := records[i := records[i].(chroot := path)];
      }
    }

    /** `byteLength()`: the number of bytes `Serialize` writes. */
    function ByteLength(): (n: nat)
      reads this
      requires AllWritable(records)
      ensures n == |AllBytes(records)|
    {
      TotalLength(records)
    }

    /** `serialize(buffer, offset)`: the range and space checks, then the
        records one after the other from `offset`; the size on success. */
    method Serialize(buf: array<byte>, offset: int) returns (r: Result<nat>)
      requires AllWritable(records)
      modifies buf
      ensures offset < 0 || offset >= buf.Length ==> r == Err(OutOfRange) && buf[..] == old(buf[..])
      ensures 0 <= offset < buf.Length && offset + |AllBytes(records)| > buf.Length
        ==> r == Err(NotEnoughSpace) && buf[..] == old(buf[..])
      ensures 0 <= offset < buf.Length && offset + |AllBytes(records)| <= buf.Length
        ==> r == Ok(|AllBytes(records)|) && buf[..] == Splice(old(buf[..]), offset, AllBytes(records))
    {
      if offset < 0 || offset >= buf.Length {
        return Err(OutOfRange);
      }
      var size := ByteLength();
      if offset + size > buf.Length {
        return Err(NotEnoughSpace);
      }
      ghost var b0 := buf[..];
      ghost var whole := AllBytes(records);
      ghost var done: seq<byte> := [];
      SpliceNothing(b0, offset);
      var at: nat := offset;
      for i := 0 to |records|
        invariant at == offset + |done|
        invariant done + AllBytes(records[i..]) == whole
        invariant buf[..] == Splice(b0, offset, done)
      {
        at := WriteOne(records, i, buf, offset, at, b0, done);
        done := done + RecBytes(records[i]);
      }
      assert records[|records|..] == [];
      assert done == whole;
      r := Ok(size);
    }
  }

  /** One turn of the serialize loop: record i written at `at`, which is
      inside the buffer because the record has at least one byte. */
  method WriteOne(rs: seq<Rec>, i: nat, buf: array<byte>, offset: nat, at: nat, ghost b0: seq<byte>, ghost done: seq<byte>)
    returns (next: nat)
    requires AllWritable(rs) && i < |rs|
    requires at == offset + |done| && |b0| == buf.Length && at + |AllBytes(rs[i..])| <= buf.Length
    requires buf[..] == Splice(b0, offset, done)
    modifies buf
    ensures next == at + |RecBytes(rs[i])|
    ensures done + RecBytes(rs[i]) + AllBytes(rs[i + 1..]) == done + AllBytes(rs[i..])
    ensures buf[..] == Splice(b0, offset, done + RecBytes(rs[i]))
  {
    AllBytesFrom(rs, i);
    ConcatAssoc(done, RecBytes(rs[i]), AllBytes(rs[i + 1..]));
    var n := RecLength(rs[i]);
    var rec := rs[i];
    var w := WriteRecord(rec.spec, rec.chroot, rec.values, buf, at);
    assert w.Ok?;
    SpliceTwice(b0, offset, done, RecBytes(rs[i]));
    next := at + w.value;
  }

  /** `new TransactionRequest(ops)`: the records built from `ops`, or the
      unknown-op error. */
  method NewTransactionRequest(ops: seq<Op>) returns (r: Result<TransactionRequest>)
    ensures r.Ok? <==> RecordsOf(ops).Ok?
    ensures r.Ok? ==> fresh(r.value) && r.value.records == RecordsOf(ops).value
    ensures r.Err? ==> r.error == UnknownType
  {
    var records := BuildRecords(ops);
    RecordsLayout(ops);
    if records.Err? {
      return Err(records.error);
    }
    var t := new TransactionRequest(records.value);
    r := Ok(t);
  }
}
