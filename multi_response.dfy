/** The response half of a multi-operation transaction
    (jute/transaction-response.ts): MultiHeader records are read until one
    says `done`, and each other header is followed by the response body its
    type calls for. */
module TxnResponse {
  import opened Wire
  import opened JuteCodec
  import opened JuteRecord
  import opened Protocol

  /** One entry of `results`: `{type, path}`, `{type}`, `{type, stat}` or
      `{type, err}`. */
  datatype OpResult =
    | Created(path: Value)
    | Deleted
    | DataSet(stat: Value)
    | Checked
    | Failed(err: Value)

  /** The entry's `type`. */
  function ResultType(r: OpResult): int32
  {
    match r
    case Created(_) => CREATE
    case Deleted => DELETE
    case DataSet(_) => SET_DATA
    case Checked => CHECK
    case Failed(_) => ERROR
  }

  /** The MultiHeader at `at` as its type, its `done` flag and the bytes
      it takes: a four-byte type, a one-byte flag (1 is true) and a
      four-byte err; a header cut short by the end of the buffer fails.
      HeaderRead shows this is the generic record read of MultiHeaderSpec. */
  function ReadHeader(s: seq<byte>, at: nat): (r: Result<(int32, bool, nat)>)
    ensures r.Ok? ==> at < |s| && r.value.2 == 9
    ensures r.Err? ==> r.error == OutOfRange
  {
    if at + 9 <= |s| then Ok((Int32At(s, at), s[at + 4] == 1, 9)) else Err(OutOfRange)
  }

  /** The generic read of a MultiHeader record agrees with ReadHeader: it
      fails with the same error, or gives the int, boolean and int fields
      in the same number of bytes. */
  lemma HeaderRead(s: seq<byte>, at: nat)
    ensures var d := DecodeRecord(MultiHeaderSpec, [], s, at);
      && (d.Ok? <==> ReadHeader(s, at).Ok?)
      && (d.Err? ==> d.error == ReadHeader(s, at).error)
      && (d.Ok? ==> && |d.value.0| == 3 && d.value.0[0] == IntV(ReadHeader(s, at).value.0)
                    && d.value.0[1] == BoolV(ReadHeader(s, at).value.1) && d.value.0[2].IntV?
                    && d.value.1 == ReadHeader(s, at).value.2)
  {
    if at < |s| {
      var fs := MultiHeaderSpec;
      assert fs[1..][1..][1..] == [];
      if at + 9 <= |s| {
        var t, d, e := IntV(Int32At(s, at)), BoolV(s[at + 4] == 1), IntV(Int32At(s, at + 5));
        assert [e] + [] == [e] && [d] + [e] == [d, e] && [t] + [d, e] == [t, d, e];
        assert fs[1..][1..][0] == FieldSpec("err", Int) && fs[1..][0] == FieldSpec("done", Boolean);
        assert Decode(Int, s, at + 5) == Ok((e, 4));
        assert DecodeFields(fs[1..][1..], [], s, at + 5) == Ok(([e], 4));
        assert Decode(Boolean, s, at + 4) == Ok((d, 1));
        assert DecodeFields(fs[1..], [], s, at + 4) == Ok(([d, e], 5));
        assert Decode(Int, s, at) == Ok((t, 4));
        assert DecodeFields(fs, [], s, at) == Ok(([t, d, e], 9));
      } else if at + 4 > |s| {
        assert Decode(Int, s, at) == Err(OutOfRange);
      } else if at + 5 > |s| {
        assert Decode(Boolean, s, at + 4) == Err(OutOfRange);
        assert DecodeFields(fs[1..], [], s, at + 4) == Err(OutOfRange);
      } else {
        assert Decode(Int, s, at + 5) == Err(OutOfRange);
        assert DecodeFields(fs[1..], [], s, at + 4) == Err(OutOfRange);
      }
    }
  }

  /** The switch of the loop for a non-final header of type `t`: the path
      of a CreateResponse (read with the response's chroot), the stat of a
      SetDataResponse, the err of an ErrorResponse, nothing for delete and
      check, and the 'Unknown type' error for any other type. */
  function DecodeBody(t: int32, chroot: seq<byte>, s: seq<byte>, at: nat): (r: Result<(OpResult, nat)>)
    ensures r.Ok? ==> ResultType(r.value.0) == t
    ensures t != CREATE && t != DELETE && t != SET_DATA && t != CHECK && t != ERROR ==> r == Err(UnknownType)
    ensures t == DELETE || t == CHECK ==> r.Ok? && r.value.1 == 0
  {
    if t == CREATE then
      var r :- DecodeRecord(CreateResponseSpec, chroot, s, at);
      DecodeRecordTyped(CreateResponseSpec, chroot, s, at);
      Ok((Created(r.0[0]), r.1))
    else if t == DELETE then Ok((Deleted, 0))
    else if t == SET_DATA then
      var r :- DecodeRecord(SetDataResponseSpec, chroot, s, at);
      DecodeRecordTyped(SetDataResponseSpec, chroot, s, at);
      Ok((DataSet(r.0[0]), r.1))
    else if t == CHECK then Ok((Checked, 0))
    else if t == ERROR then
      var r :- DecodeRecord(ErrorResponseSpec, chroot, s, at);
      DecodeRecordTyped(ErrorResponseSpec, chroot, s, at);
      Ok((Failed(r.0[0]), r.1))
    else Err(UnknownType)
  }

  /** The header loop of `deserialize` from `at`: the results of the
      headers up to the `done` one, and all the bytes read, the `done`
      header's included. Every header takes nine bytes, so the loop ends. */
  function DecodeTxn(chroot: seq<byte>, s: seq<byte>, at: nat): Result<(seq<OpResult>, nat)>
    decreases if at < |s| then |s| - at else 0, 2
  {
    AfterHeader(ReadHeader(s, at), chroot, s, at)
  }

  /** What the loop does with the header `h` read at `at`. */
  function AfterHeader(h: Result<(int32, bool, nat)>, chroot: seq<byte>, s: seq<byte>, at: nat)
    : Result<(seq<OpResult>, nat)>
    requires h.Ok? ==> at < |s| && h.value.2 >= 1
    decreases if at < |s| then |s| - at else 0, 1
  {
    if h.Err? then Err(h.error)
    else if h.value.1 then Ok(([], h.value.2))
    else AfterBody(h.value.0, chroot, s, at, h.value.2)
  }

  /** A non-final header of type `t` at `at`, `hk` bytes long: its body,
      then the rest of the loop. */
  function AfterBody(t: int32, chroot: seq<byte>, s: seq<byte>, at: nat, hk: nat): Result<(seq<OpResult>, nat)>
    requires at < |s| && hk >= 1
    decreases |s| - at, 0
  {
    var b :- DecodeBody(t, chroot, s, at + hk);
    Prefixed([b.0], hk + b.1, DecodeTxn(chroot, s, at + hk + b.1))
  }

  /** The results the header loop has pushed when it stops, at the `done`
      header or at an error: one per non-final header whose body was read. */
  function Pushed(chroot: seq<byte>, s: seq<byte>, at: nat): seq<OpResult>
    decreases if at < |s| then |s| - at else 0, 2
  {
    PushedAfter(ReadHeader(s, at), chroot, s, at)
  }

  function PushedAfter(h: Result<(int32, bool, nat)>, chroot: seq<byte>, s: seq<byte>, at: nat): seq<OpResult>
    requires h.Ok? ==> at < |s| && h.value.2 >= 1
    decreases if at < |s| then |s| - at else 0, 1
  {
    if h.Err? || h.value.1 then []
    else PushedBody(h.value.0, chroot, s, at, h.value.2)
  }

  function PushedBody(t: int32, chroot: seq<byte>, s: seq<byte>, at: nat, hk: nat): seq<OpResult>
    requires at < |s| && hk >= 1
    decreases |s| - at, 0
  {
    match DecodeBody(t, chroot, s, at + hk)
    case Err(_) => []
    case Ok(b) => [b.0] + Pushed(chroot, s, at + hk + b.1)
  }

  // ---------------------------------------------------------------------
  // Steps of the loop

  /** One non-final header in `Pushed`: nothing when its body fails, its
      result in front of the rest of the loop otherwise. */
  lemma PushedStep(chroot: seq<byte>, s: seq<byte>, at: nat, t: int32, hk: nat)
    requires ReadHeader(s, at) == Ok((t, false, hk))
    ensures DecodeBody(t, chroot, s, at + hk).Err? ==> Pushed(chroot, s, at) == []
    ensures DecodeBody(t, chroot, s, at + hk).Ok? ==>
      var b := DecodeBody(t, chroot, s, at + hk).value;
      Pushed(chroot, s, at) == [b.0] + Pushed(chroot, s, at + hk + b.1)
  {
    assert Pushed(chroot, s, at) == PushedBody(t, chroot, s, at, hk);
  }


  /** A header that cannot be read. */
  lemma TxnHeaderErr(chroot: seq<byte>, s: seq<byte>, at: nat, e: Error)
    requires ReadHeader(s, at) == Err(e)
    ensures DecodeTxn(chroot, s, at) == Err(e)
  {
  }

  /** A `done` header ends the loop with no result. */
  lemma TxnDone(chroot: seq<byte>, s: seq<byte>, at: nat, t: int32, hk: nat)
    requires ReadHeader(s, at) == Ok((t, true, hk))
    ensures DecodeTxn(chroot, s, at) == Ok(([], hk))
  {
  }

  /** A header that is not `done`, followed by the body `b` (or its error). */
  lemma TxnBody(chroot: seq<byte>, s: seq<byte>, at: nat, t: int32, hk: nat, b: Result<(OpResult, nat)>)
    requires ReadHeader(s, at) == Ok((t, false, hk))
    requires b == DecodeBody(t, chroot, s, at + hk)
    ensures b.Err? ==> DecodeTxn(chroot, s, at) == Err(b.error)
    ensures b.Ok? ==> DecodeTxn(chroot, s, at) == Prefixed([b.value.0], hk + b.value.1, DecodeTxn(chroot, s, at + hk + b.value.1))
  {
    assert DecodeTxn(chroot, s, at) == AfterHeader(Ok((t, false, hk)), chroot, s, at);
    assert AfterHeader(Ok((t, false, hk)), chroot, s, at) == AfterBody(t, chroot, s, at, hk);
  }

  /** When the loop ends at the `done` header, the results pushed are the
      results it returns. */
  lemma {:induction false} PushedAll(chroot: seq<byte>, s: seq<byte>, at: nat)
    ensures DecodeTxn(chroot, s, at).Ok? ==> Pushed(chroot, s, at) == DecodeTxn(chroot, s, at).value.0
    decreases if at < |s| then |s| - at else 0
  {
    var h := ReadHeader(s, at);
    if h.Ok? && !h.value.1 {
      var t, hk := h.value.0, h.value.2;
      PushedStep(chroot, s, at, t, hk);
      var b := DecodeBody(t, chroot, s, at + hk);
      TxnBody(chroot, s, at, t, hk, b);
      if b.Ok? {
        PushedAll(chroot, s, at + hk + b.value.1);
      }
    }
  }

  // ---------------------------------------------------------------------
  // What the header loop gives

  /** Each result came with a nine-byte header of its own, and so did the
      final `done` one. */
  lemma {:induction false} DecodeTxnBound(chroot: seq<byte>, s: seq<byte>, at: nat)
    requires DecodeTxn(chroot, s, at).Ok?
    ensures 9 * (|DecodeTxn(chroot, s, at).value.0| + 1) <= DecodeTxn(chroot, s, at).value.1
    decreases if at < |s| then |s| - at else 0
  {
    var h := ReadHeader(s, at).value;
    if h.1 {
      TxnDone(chroot, s, at, h.0, h.2);
    } else {
      var b := DecodeBody(h.0, chroot, s, at + h.2);
      TxnBody(chroot, s, at, h.0, h.2, b);
      DecodeTxnBound(chroot, s, at + h.2 + b.value.1);
    }
  }

  // ---------------------------------------------------------------------
  // A negative string length in a CreateResponse

  /** A create result whose path has the length prefix -13, then nothing:
      a header of type CREATE that is not `done`, and the path. */
  const StallInput: seq<byte> := Int32BE(CREATE) + [0] + Int32BE(-1) + Int32BE(-13)

  /** How far one pass of the loop as written moves over a header at `at`
      followed by a CreateResponse: the header's bytes plus the count the
      as-written string read reports for the path. */
  function CreateStepAsWritten(s: seq<byte>, at: nat): (r: Result<int>)
    ensures r.Ok? <==> at + 13 <= |s|
  {
    var h :- ReadHeader(s, at);
    var p :- DecodeUStringAsWritten(s, at + h.2);
    Ok(h.2 + p.1)
  }

  /** As written, the pass over StallInput moves by 0 bytes: the next pass
      reads the same create header again, and the loop never ends. */
  lemma CreateStallsAsWritten()
    ensures ReadHeader(StallInput, 0) == Ok((CREATE, false, 9))
    ensures CreateStepAsWritten(StallInput, 0) == Ok(0)
  {
    var s := StallInput;
    assert s[0..4] == Int32BE(CREATE);
    Int32RoundTrip(CREATE, s, 0);
    assert s[9..13] == Int32BE(-13);
    Int32RoundTrip(-13, s, 9);
  }

  /** The model's loop rejects StallInput with the bad-length error. */
  lemma StallInputRejected()
    ensures DecodeTxn([], StallInput, 0) == Err(BadLength)
  {
    CreateStallsAsWritten();
    StallPathRejected();
    TxnBody([], StallInput, 0, CREATE, 9, DecodeBody(CREATE, [], StallInput, 9));
  }

  /** The path of StallInput's create result does not decode. */
  lemma StallPathRejected()
    ensures DecodeBody(CREATE, [], StallInput, 9) == Err(BadLength)
  {
    var s := StallInput;
    assert s[9..13] == Int32BE(-13);
    Int32RoundTrip(-13, s, 9);
    assert Decode(UString, s, 9) == Err(BadLength);
    assert DecodeFields(CreateResponseSpec, [], s, 9) == Err(BadLength);
  }

  // ---------------------------------------------------------------------
  // The response object

  class TransactionResponse {
    var results: seq<OpResult>
    var chrootPath: seq<byte>

    constructor ()
      ensures results == [] && chrootPath == []
    {
      results := [];
      chrootPath := [];
    }

    /** `setChrootPath(path)`. */
    method SetChrootPath(path: seq<byte>)
      modifies this
      ensures chrootPath == path && results == old(results)
    {
      chrootPath := path;
    }

    /** `deserialize(buffer, offset)`: the offset check, then the header
        loop, pushing one result per non-final header onto `results`. The
        results and the byte count are those of DecodeTxn; on an error the
        results pushed before it stay (`Pushed`). */
    method Deserialize(buf: seq<byte>, offset: int) returns (r: Result<nat>)
      modifies this
      ensures chrootPath == old(chrootPath) && old(results) <= results
      ensures offset < 0 || offset >= |buf| ==> r == Err(OutOfRange) && results == old(results)
      ensures 0 <= offset < |buf| ==> (r.Ok? <==> DecodeTxn(chrootPath, buf, offset).Ok?)
      ensures 0 <= offset < |buf| && r.Ok? ==>
        DecodeTxn(chrootPath, buf, offset) == Ok((results[|old(results)|..], r.value))
      ensures 0 <= offset < |buf| && r.Err? ==> DecodeTxn(chrootPath, buf, offset) == Err(r.error)
      ensures 0 <= offset < |buf| ==> results == old(results) + Pushed(chrootPath, buf, offset)
    {
      if offset < 0 || offset >= |buf| {
        return Err(OutOfRange);
      }
      ghost var before := results;
      ghost var acc: seq<OpResult> := [];
      ghost var whole := DecodeTxn(chrootPath, buf, offset);
      var chroot := chrootPath;
      var bytesRead: nat := 0;
      PrefixedNothing(whole);
      while true
        invariant results == before + acc && chrootPath == chroot
        invariant Prefixed(acc, bytesRead, DecodeTxn(chroot, buf, offset + bytesRead)) == whole
        invariant acc + Pushed(chroot, buf, offset + bytesRead) == Pushed(chroot, buf, offset)
        decreases if offset + bytesRead < |buf| then |buf| - (offset + bytesRead) else 0
      {
        var at := offset + bytesRead;
        var h := ReadHeaderRecord(buf, at);
        if h.Err? {
          TxnHeaderErr(chroot, buf, at, h.error);
          return Err(h.error);
        }
        var t, done, hk := h.value.0, h.value.1, h.value.2;
        if done {
          TxnDone(chroot, buf, at, t, hk);
          bytesRead := bytesRead + hk;
          assert acc + [] == acc;
          assert results[|before|..] == acc;
          return Ok(bytesRead);
        }
        var body := ReadBody(t, chroot, buf, at, hk);
        PushedStep(chroot, buf, at, t, hk);
        if body.Err? {
          return Err(body.error);
        }
        ghost var read := bytesRead;
        results := results + [body.value.0];
        acc := acc + [body.value.0];
        bytesRead := bytesRead + hk + body.value.1;
        PrefixedTwice(acc[..|acc| - 1], read, [body.value.0], hk + body.value.1, DecodeTxn(chroot, buf, offset + bytesRead));
      }
    }
  }

  /** `new MultiHeader()` and its `deserialize(buffer, at)`, as ReadHeader. */
  method ReadHeaderRecord(buf: seq<byte>, at: nat) returns (r: Result<(int32, bool, nat)>)
    ensures r == ReadHeader(buf, at)
  {
    var header := new Record(MultiHeaderSpec, []);
    var h := header.Deserialize(buf, at);
    HeaderRead(buf, at);
    if h.Err? {
      return Err(h.error);
    }
    r := Ok((header.values[0].i, header.values[1].b, h.value));
  }

  /** The switch of the loop for a non-final header of type `t` at `at`:
      a fresh response record with the chroot, read after the header, or
      no body at all; the result is pushed and the loop goes on from
      after the body. */
  method ReadBody(t: int32, chroot: seq<byte>, buf: seq<byte>, at: nat, hk: nat) returns (r: Result<(OpResult, nat)>)
    requires ReadHeader(buf, at) == Ok((t, false, hk))
    ensures r.Err? ==> DecodeTxn(chroot, buf, at) == Err(r.error)
    ensures r.Ok? ==> DecodeTxn(chroot, buf, at) == Prefixed([r.value.0], hk + r.value.1, DecodeTxn(chroot, buf, at + hk + r.value.1))
    ensures r == DecodeBody(t, chroot, buf, at + hk)
  {
    r := ReadBodyRecord(t, chroot, buf, at + hk);
    TxnBody(chroot, buf, at, t, hk, r);
  }

  /** The body records themselves, as DecodeBody. */
  method ReadBodyRecord(t: int32, chroot: seq<byte>, buf: seq<byte>, at: nat) returns (r: Result<(OpResult, nat)>)
    ensures r == DecodeBody(t, chroot, buf, at)
  {
    if t == CREATE {
      var response := new Record(CreateResponseSpec, []);
      response.SetChrootPath(chroot);
      var n :- response.Deserialize(buf, at);
      DecodeRecordTyped(CreateResponseSpec, chroot, buf, at);
      r := Ok((Created(response.values[0]), n));
    } else if t == DELETE {
      r := Ok((Deleted, 0));
    } else if t == SET_DATA {
      var response := new Record(SetDataResponseSpec, []);
      response.SetChrootPath(chroot);
      var n :- response.Deserialize(buf, at);
      DecodeRecordTyped(SetDataResponseSpec, chroot, buf, at);
      r := Ok((DataSet(response.values[0]), n));
    } else if t == CHECK {
      r := Ok((Checked, 0));
    } else if t == ERROR {
      var response := new Record(ErrorResponseSpec, []);
      response.SetChrootPath(chroot);
      var n :- response.Deserialize(buf, at);
      DecodeRecordTyped(ErrorResponseSpec, chroot, buf, at);
      r := Ok((Failed(response.values[0]), n));
    } else {
      r := Err(UnknownType);
    }
  }
}
