/** The transaction builder of Transaction.ts: `create`, `check`,
    `setData` and `remove` append one op each to the list a `commit` sends
    as a single multi request, and `commit` reports the first op the
    server says failed. */
module Transactions {
  import opened Wire
  import opened JuteCodec
  import opened Protocol
  import opened TxnRequest
  import opened TxnResponse
  import opened CodeTables
  import Exceptions

  /** The runtime kind of an optional argument: an array (of ACL entries),
      a number, a Buffer, null, undefined, or any other value, which is
      falsy (false, '') or not. */
  datatype Arg =
    | ArgArray(acls: seq<Acl>)
    | ArgNumber(n: int32)
    | ArgBuffer(bytes: seq<byte>)
    | ArgNull
    | ArgUndefined
    | ArgOther(falsy: bool)

  /** `Permission.ALL`, every permission bit (read 1, write 2, create 4,
      delete 8, admin 16). */
  const PermissionAll: int32 := 31

  /** `ACL.OPEN_ACL_UNSAFE`: all permissions for the id 'anyone' of the
      'world' scheme. */
  const OpenAclUnsafe: seq<Acl> := [Acl(PermissionAll, [119, 111, 114, 108, 100], [97, 110, 121, 111, 110, 101])]

  /** `CreateMode.PERSISTENT`. */
  const Persistent: int32 := 0

  /** What the sorting of the optional arguments of `create` has found so
      far: the last Buffer, array and number seen. */
  datatype Sorted = Sorted(data: Option<seq<byte>>, acls: Option<seq<Acl>>, mode: Option<int32>)

  /** One turn of the forEach: an array becomes `acls`, a number `mode`, a
      Buffer `data`; anything else is dropped. */
  function SortArg(s: Sorted, a: Arg): Sorted
  {
    match a
    case ArgArray(x) => s.(acls := Some(x))
    case ArgNumber(n) => s.(mode := Some(n))
    case ArgBuffer(b) => s.(data := Some(b))
    case _ => s
  }

  function SortedArgs(args: seq<Arg>): Sorted
  {
    if |args| == 0 then Sorted(None, None, None) else SortArg(SortedArgs(args[..|args| - 1]), args[|args| - 1])
  }

  /** The forEach over `[data, acls, mode]`. */
  method SortArgs(args: seq<Arg>) returns (s: Sorted)
    ensures s == SortedArgs(args)
  {
    s := Sorted(None, None, None);
    for i := 0 to |args|
      invariant s == SortedArgs(args[..i])
    {
      assert args[..i + 1][..i] == args[..i];
      s := SortArg(s, args[i]);
    }
    assert args[..|args|] == args;
  }

  /** Each slot holds the last argument of its kind, whatever the position
      it was passed in, and is empty when no argument has that kind: the
      acls, ... */
  lemma {:induction false} SortedAcls(args: seq<Arg>)
    ensures SortedArgs(args).acls.None? <==> forall i :: 0 <= i < |args| ==> !args[i].ArgArray?
    ensures SortedArgs(args).acls.Some? ==> exists i :: (0 <= i < |args| && args[i] == ArgArray(SortedArgs(args).acls.value)
      && forall j :: i < j < |args| ==> !args[j].ArgArray?)
  {
    if |args| > 0 {
      var front, last := args[..|args| - 1], args[|args| - 1];
      assert SortedArgs(args) == SortArg(SortedArgs(front), last);
      SortedAcls(front);
      assert forall i :: 0 <= i < |front| ==> front[i] == args[i];
      if last.ArgArray? {
        assert SortedArgs(args).acls == Some(last.acls);
        var k := |args| - 1;
        assert 0 <= k < |args| && args[k] == ArgArray(SortedArgs(args).acls.value);
      } else {
        assert SortedArgs(args).acls == SortedArgs(front).acls;
        if SortedArgs(front).acls.Some? {
          var i :| 0 <= i < |front| && front[i] == ArgArray(SortedArgs(front).acls.value)
            && forall j :: i < j < |front| ==> !front[j].ArgArray?;
          assert 0 <= i < |args| && args[i] == ArgArray(SortedArgs(args).acls.value) && forall j :: i < j < |args| ==> !args[j].ArgArray?;
        }
      }
    }
  }

  /** ... the mode, ... */
  lemma {:induction false} SortedMode(args: seq<Arg>)
    ensures SortedArgs(args).mode.None? <==> forall i :: 0 <= i < |args| ==> !args[i].ArgNumber?
    ensures SortedArgs(args).mode.Some? ==> exists i :: (0 <= i < |args| && args[i] == ArgNumber(SortedArgs(args).mode.value)
      && forall j :: i < j < |args| ==> !args[j].ArgNumber?)
  {
    if |args| > 0 {
      var front, last := args[..|args| - 1], args[|args| - 1];
      assert SortedArgs(args) == SortArg(SortedArgs(front), last);
      SortedMode(front);
      assert forall i :: 0 <= i < |front| ==> front[i] == args[i];
      if last.ArgNumber? {
        assert SortedArgs(args).mode == Some(last.n);
        var k := |args| - 1;
        assert 0 <= k < |args| && args[k] == ArgNumber(SortedArgs(args).mode.value);
      } else {
        assert SortedArgs(args).mode == SortedArgs(front).mode;
        if SortedArgs(front).mode.Some? {
          var i :| 0 <= i < |front| && front[i] == ArgNumber(SortedArgs(front).mode.value)
            && forall j :: i < j < |front| ==> !front[j].ArgNumber?;
          assert 0 <= i < |args| && args[i] == ArgNumber(SortedArgs(args).mode.value) && forall j :: i < j < |args| ==> !args[j].ArgNumber?;
        }
      }
    }
  }

  /** ... and the data. */
  lemma {:induction false} SortedData(args: seq<Arg>)
    ensures SortedArgs(args).data.None? <==> forall i :: 0 <= i < |args| ==> !args[i].ArgBuffer?
    ensures SortedArgs(args).data.Some? ==> exists i :: (0 <= i < |args| && args[i] == ArgBuffer(SortedArgs(args).data.value)
      && forall j :: i < j < |args| ==> !args[j].ArgBuffer?)
  {
    if |args| > 0 {
      var front, last := args[..|args| - 1], args[|args| - 1];
      assert SortedArgs(args) == SortArg(SortedArgs(front), last);
      SortedData(front);
      assert forall i :: 0 <= i < |front| ==> front[i] == args[i];
      if last.ArgBuffer? {
        assert SortedArgs(args).data == Some(last.bytes);
        var k := |args| - 1;
        assert 0 <= k < |args| && args[k] == ArgBuffer(SortedArgs(args).data.value);
      } else {
        assert SortedArgs(args).data == SortedArgs(front).data;
        if SortedArgs(front).data.Some? {
          var i :| 0 <= i < |front| && front[i] == ArgBuffer(SortedArgs(front).data.value)
            && forall j :: i < j < |front| ==> !front[j].ArgBuffer?;
          assert 0 <= i < |args| && args[i] == ArgBuffer(SortedArgs(args).data.value) && forall j :: i < j < |args| ==> !args[j].ArgBuffer?;
        }
      }
    }
  }

  /** The op `create(path, data, acls, mode)` appends: `pathValid` is the
      verdict of `Path.validate`; acls default to OPEN_ACL_UNSAFE and the
      mode to PERSISTENT, and an empty acl list is rejected. */
  function CreateOpOf(path: seq<byte>, pathValid: bool, s: Sorted): (r: Result<Op>)
    ensures r.Ok? <==> pathValid && (s.acls.None? || |s.acls.value| > 0)
    ensures r.Ok? ==> && r.value.CreateOp? && r.value.path == path && r.value.data == s.data
                      && r.value.acls == (if s.acls.Some? then s.acls.value else OpenAclUnsafe)
                      && r.value.mode == (if s.mode.Some? then s.mode.value else Persistent)
                      && |r.value.acls| > 0
  {
    if !pathValid then Err(BadArgument("path"))
    else
      var acls := if s.acls.Some? then s.acls.value else OpenAclUnsafe;
      var mode := if s.mode.Some? then s.mode.value else Persistent;
      if |acls| == 0 then Err(BadArgument("acls must be a non-empty array."))
      else Ok(CreateOp(path, s.data, acls, mode))
  }

  /** `version || -1` and then the number check: a falsy version (0,
      null, undefined, false, '') becomes -1. */
  function VersionOf(v: Arg): (r: Result<int32>)
    ensures v.ArgNumber? && v.n != 0 ==> r == Ok(v.n)
    ensures v == ArgNumber(0) || v.ArgNull? || v.ArgUndefined? || v == ArgOther(true) ==> r == Ok(-1)
    ensures r.Err? <==> v.ArgArray? || v.ArgBuffer? || v == ArgOther(false)
  {
    match v
    case ArgNumber(n) => if n == 0 then Ok(-1) else Ok(n)
    case ArgNull => Ok(-1)
    case ArgUndefined => Ok(-1)
    case ArgOther(falsy) => if falsy then Ok(-1) else Err(BadArgument("version must be a number."))
    case _ => Err(BadArgument("version must be a number."))
  }

  /** The `data` check of `setData`: null or undefined (no data) or a
      Buffer. */
  function DataOf(d: Arg): (r: Result<Option<seq<byte>>>)
    ensures r.Ok? <==> d.ArgNull? || d.ArgUndefined? || d.ArgBuffer?
    ensures d.ArgBuffer? ==> r == Ok(Some(d.bytes))
  {
    match d
    case ArgBuffer(b) => Ok(Some(b))
    case ArgNull => Ok(None)
    case ArgUndefined => Ok(None)
    case _ => Err(BadArgument("data must be a valid buffer, null or undefined."))
  }

  /** The ops of a builder: every op is of a type the transaction request
      knows, and every create has an ACL entry. */
  predicate BuilderOps(ops: seq<Op>)
  {
    forall i :: 0 <= i < |ops| ==> !ops[i].OtherOp? && (ops[i].CreateOp? ==> |ops[i].acls| > 0)
  }

  /** A builder's op list always turns into a request record list, two
      records per op and the terminator. */
  lemma BuilderOpsEncode(ops: seq<Op>)
    requires BuilderOps(ops)
    ensures RecordsOf(ops).Ok? && |RecordsOf(ops).value| == 2 * |ops| + 1
  {
    RecordsLayout(ops);
  }

  /** The reply `commit` gets from the connection manager: a transport
      error, or the results of the multi response. */
  datatype Reply = TransportError(error: Error) | Replied(results: seq<OpResult>)

  /** What `commit` passes to its callback: the transport error alone, or
      the exception made from the err of the first failed op (none when no
      op failed) with all the results. */
  datatype Outcome =
    | TransportFailed(error: Error)
    | Committed(failure: Option<Result<Exceptions.Exception>>, results: seq<OpResult>)

  /** An op the server reports as failed: an ERROR result whose err is not OK. */
  predicate FailedOp(r: OpResult)
  {
    ResultType(r) == ERROR && r.err != IntV(Exceptions.OK as int32)
  }

  /** The err of an error result as the argument of `Exception.create`. */
  function ErrCode(err: Value): (c: Num)
    ensures c.Number? <==> err.IntV?
    ensures err.IntV? ==> c.n == err.i as int
  {
    if err.IntV? then Number(err.i as int) else NotANumber
  }

  class Transaction {
    var ops: seq<Op>

    constructor ()
      ensures ops == []
    {
      ops := [];
    }

    /** `create(path, data, acls, mode)`. */
    method Create(path: seq<byte>, pathValid: bool, data: Arg, acls: Arg, mode: Arg) returns (r: Result<()>)
      modifies this
      ensures r.Ok? <==> CreateOpOf(path, pathValid, SortedArgs([data, acls, mode])).Ok?
      ensures r.Ok? ==> ops == old(ops) + [CreateOpOf(path, pathValid, SortedArgs([data, acls, mode])).value]
      ensures r.Err? ==> ops == old(ops) && r == Err(CreateOpOf(path, pathValid, SortedArgs([data, acls, mode])).error)
      ensures BuilderOps(old(ops)) ==> BuilderOps(ops)
    {
      var s := SortArgs([data, acls, mode]);
      var op :- CreateOpOf(path, pathValid, s);
      ops := ops + [op];
      r := Ok(());
    }

    /** `check(path, version)`. */
    method Check(path: seq<byte>, pathValid: bool, version: Arg) returns (r: Result<()>)
      modifies this
      ensures !pathValid ==> r == Err(BadArgument("path")) && ops == old(ops)
      ensures pathValid && VersionOf(version).Err? ==> r == Err(VersionOf(version).error) && ops == old(ops)
      ensures r.Ok? <==> pathValid && VersionOf(version).Ok?
      ensures r.Ok? ==> ops == old(ops) + [CheckOp(path, VersionOf(version).value)]
      ensures BuilderOps(old(ops)) ==> BuilderOps(ops)
    {
      if !pathValid {
        return Err(BadArgument("path"));
      }
      var v :- VersionOf(version);
      ops := ops + [CheckOp(path, v)];
      r := Ok(());
    }

    /** `setData(path, data, version)`. */
    method SetData(path: seq<byte>, pathValid: bool, data: Arg, version: Arg) returns (r: Result<()>)
      modifies this
      ensures !pathValid ==> r == Err(BadArgument("path")) && ops == old(ops)
      ensures pathValid && DataOf(data).Err? ==> r == Err(DataOf(data).error) && ops == old(ops)
      ensures pathValid && DataOf(data).Ok? && VersionOf(version).Err? ==> r == Err(VersionOf(version).error) && ops == old(ops)
      ensures r.Ok? <==> pathValid && DataOf(data).Ok? && VersionOf(version).Ok?
      ensures r.Ok? ==> ops == old(ops) + [SetDataOp(path, DataOf(data).value, VersionOf(version).value)]
      ensures BuilderOps(old(ops)) ==> BuilderOps(ops)
    {
      if !pathValid {
        return Err(BadArgument("path"));
      }
      var d :- DataOf(data);
      var v :- VersionOf(version);
      ops := ops + [SetDataOp(path, d, v)];
      r := Ok(());
    }

    /** `remove(path, version)`. */
    method Remove(path: seq<byte>, pathValid: bool, version: Arg) returns (r: Result<()>)
      modifies this
      ensures !pathValid ==> r == Err(BadArgument("path")) && ops == old(ops)
      ensures pathValid && VersionOf(version).Err? ==> r == Err(VersionOf(version).error) && ops == old(ops)
      ensures r.Ok? <==> pathValid && VersionOf(version).Ok?
      ensures r.Ok? ==> ops == old(ops) + [DeleteOp(path, VersionOf(version).value)]
      ensures BuilderOps(old(ops)) ==> BuilderOps(ops)
    {
      if !pathValid {
        return Err(BadArgument("path"));
      }
      var v :- VersionOf(version);
      ops := ops + [DeleteOp(path, v)];
      r := Ok(());
    }

    /** `commit(callback)`: one request of header type MULTI carrying the
        op list is queued (`sentType`, `sentOps`), and the callback gets
        the outcome of `reply`: a transport error alone, or the exception
        for the first failed op (found by the scan with `break`) and all
        the results. An err that is not a named code makes
        `Exception.create` fail. */
    method Commit(reply: Reply) returns (sentType: int32, sentOps: seq<Op>, out: Outcome)
      ensures sentType == MULTI && sentOps == ops
      ensures reply.TransportError? ==> out == TransportFailed(reply.error)
      ensures reply.Replied? ==> out.Committed? && out.results == reply.results
      ensures reply.Replied? ==>
        (out.failure.None? <==> forall i :: 0 <= i < |reply.results| ==> !FailedOp(reply.results[i]))
      ensures reply.Replied? && out.failure.Some? ==> exists i :: (0 <= i < |reply.results|
        && FailedOp(reply.results[i]) && (forall j :: 0 <= j < i ==> !FailedOp(reply.results[j]))
        && FailureIs(out.failure.value, reply.results[i].err))
    {
      sentType, sentOps := MULTI, ops;
      if reply.TransportError? {
        return sentType, sentOps, TransportFailed(reply.error);
      }
      var results := reply.results;
      var failure: Option<Result<Exceptions.Exception>> := None;
      var i := 0;
      while i < |results|
        invariant 0 <= i <= |results|
        invariant forall j :: 0 <= j < i ==> !FailedOp(results[j])
      {
        var result := results[i];
        if ResultType(result) == ERROR && result.err != IntV(Exceptions.OK as int32) {
          var e := Exceptions.Create(Exceptions.ExceptionCodes, ErrCode(result.err), None);
          Exceptions.CodesNamed();
          failure := Some(e);
          break;
        }
        i := i + 1;
      }
      out := Committed(failure, results);
    }
  }

  /** `Exception.create(err)` as `commit` reports it: an exception with
      that code and no path when the code is named, the check's error
      otherwise. */
  ghost predicate FailureIs(e: Result<Exceptions.Exception>, err: Value)
  {
    var c := ErrCode(err);
    && (e.Ok? <==> Exceptions.ValidateCode(Exceptions.ExceptionCodes, c).Ok?)
    && (e.Ok? ==> e.value.code == c.n && e.value.path == Exceptions.NoPath)
    && (e.Err? ==> e == Err(Exceptions.ValidateCode(Exceptions.ExceptionCodes, c).error))
  }
}
