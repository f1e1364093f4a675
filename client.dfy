/** The orchestration of client.ts: the client state the connection
    manager's states map to, the retry loop `attempt`, the checks that run
    before a request is built, the watcher `exists` leaves, and the
    composite operations `mkdirp`, `listSubTreeBFS` and `removeRecursive`.
    The server's answers are given as functions or as the reply at hand; no
    request is sent. */
module ZkClient {
  import opened Wire
  import opened Text
  import Protocol
  import TxnRequest
  import Transactions
  import Exceptions
  import Events
  import Watchers
  import CodeTables

  /** An error a callback receives: a ZooKeeper exception with its code,
      or any other error (a transport error, say). */
  datatype Fault = ZkError(code: int) | OtherError

  // ---------------------------------------------------------------------
  // Client state (onConnectionManagerState, getState)
  // ---------------------------------------------------------------------

  /** The client states of State.ts. */
  datatype State = Disconnected | SyncConnected | AuthFailed | ConnectedReadOnly | SaslAuthenticated | Expired

  function StateCode(s: State): int
  {
    match s
    case Disconnected => 0
    case SyncConnected => 3
    case AuthFailed => 4
    case ConnectedReadOnly => 5
    case SaslAuthenticated => 6
    case Expired => -122
  }

  /** Each state has its own code. */
  lemma StateCodesDistinct(a: State, b: State)
    requires StateCode(a) == StateCode(b)
    ensures a == b
  {
  }

  /** The states the connection manager reports; any other value is one
      the client does not follow. */
  datatype ManagerState =
    | ManagerDisconnected
    | ManagerConnected
    | ManagerConnectedReadOnly
    | ManagerSessionExpired
    | ManagerAuthenticationFailed
    | ManagerOther(n: int)

  /** The client state a connection manager state translates to, if any. */
  function ClientState(m: ManagerState): (r: Option<State>)
    ensures r.None? <==> m.ManagerOther?
    ensures r != Some(SaslAuthenticated)
  {
    match m
    case ManagerDisconnected => Some(Disconnected)
    case ManagerConnected => Some(SyncConnected)
    case ManagerConnectedReadOnly => Some(ConnectedReadOnly)
    case ManagerSessionExpired => Some(Expired)
    case ManagerAuthenticationFailed => Some(AuthFailed)
    case ManagerOther(_) => None
  }

  /** Different manager states never land on the same client state. */
  lemma ClientStateInjective(m1: ManagerState, m2: ManagerState)
    requires ClientState(m1).Some? && ClientState(m1) == ClientState(m2)
    ensures m1 == m2
  {
  }

  class Client {
    var state: State
    /** The states emitted as 'state' events, oldest first. */
    var emitted: seq<State>

    /** The emitted states track the state: the last one emitted is the
        current state, no state is emitted twice in a row, and before any
        emission the client is disconnected. */
    predicate Valid()
      reads this
    {
      && (|emitted| == 0 ==> state == Disconnected)
      && (|emitted| > 0 ==> emitted[|emitted| - 1] == state && emitted[0] != Disconnected)
      && forall k :: 0 < k < |emitted| ==> emitted[k - 1] != emitted[k]
    }

    constructor ()
      ensures state == Disconnected && emitted == [] && Valid()
    {
      state := Disconnected;
      emitted := [];
    }

    /** `onConnectionManagerState(s)`: a state the client follows becomes
        the client state, and a 'state' event is emitted when it differs
        from the current one; any other value changes nothing. */
    method OnConnectionManagerState(m: ManagerState)
      requires Valid()
      modifies this
      ensures Valid()
      ensures ClientState(m).None? ==> state == old(state) && emitted == old(emitted)
      ensures ClientState(m).Some? ==> state == ClientState(m).value
      ensures ClientState(m).Some? && ClientState(m).value != old(state) ==> emitted == old(emitted) + [state]
      ensures ClientState(m).Some? && ClientState(m).value == old(state) ==> emitted == old(emitted)
    {
      var s := ClientState(m);
      if s.None? {
        return;
      }
      if state != s.value {
        state := s.value;
        emitted := emitted + [state];
      }
    }

    function GetState(): State
      reads this
    {
      state
    }
  }

  // ---------------------------------------------------------------------
  // attempt: the retry loop
  // ---------------------------------------------------------------------

  /** What one call of `fn` passes to `next`: the error, if any, and the
      further arguments. */
  datatype Answer<T> = Answer(error: Option<Fault>, args: seq<T>)

  /** The default of the `retries` option. */
  const DefaultRetries: int := 0

  /** The default of the `sessionTimeout` option, in milliseconds. */
  const DefaultSessionTimeout: int := 30000

  /** An answer after which `attempt` tries again: a connection loss. */
  predicate Retryable<T>(a: Answer<T>)
  {
    a.error == Some(ZkError(Exceptions.CONNECTION_LOSS))
  }

  function Pow2(i: nat): (r: nat)
    ensures r >= 1
  {
    if i == 0 then 1 else 2 * Pow2(i - 1)
  }

  /** The wait after failed attempt `i`: `min(1000 * 2^i, sessionTimeout)`
      milliseconds. */
  function Backoff(i: nat, sessionTimeout: int): (d: int)
    ensures d <= sessionTimeout && d <= 1000 * Pow2(i)
    ensures d == sessionTimeout || d == 1000 * Pow2(i)
  {
    if 1000 * Pow2(i) < sessionTimeout then 1000 * Pow2(i) else sessionTimeout
  }

  lemma {:induction false} Pow2Grows(i: nat, j: nat)
    requires i <= j
    ensures Pow2(i) <= Pow2(j)
    decreases j
  {
    if i < j {
      Pow2Grows(i, j - 1);
    }
  }

  /** The waits never shrink, ... */
  lemma BackoffGrows(i: nat, j: nat, sessionTimeout: int)
    requires i <= j
    ensures Backoff(i, sessionTimeout) <= Backoff(j, sessionTimeout)
  {
    Pow2Grows(i, j);
  }

  /** ... and each one doubles the one before until the session timeout
      caps it. */
  lemma BackoffDoubles(i: nat, sessionTimeout: nat)
    ensures Backoff(i + 1, sessionTimeout) ==
      (if 2 * Backoff(i, sessionTimeout) < sessionTimeout then 2 * Backoff(i, sessionTimeout) else sessionTimeout)
  {
    var p := Pow2(i);
    assert 1000 * Pow2(i + 1) == 2 * (1000 * p);
  }

  /** `attempt(fn, callback)`: `fn(i)` is what the call of `fn` with
      attempt index `i` passes to `next`. The calls are made with the
      indices 0, 1, 2, ... in order; another follows only after a
      connection loss and while at most `retries` calls have been
      retried, with the wait `Backoff(i)` after attempt `i`; the callback
      gets the last answer. A negative `retries` is rejected. */
  method Attempt<T>(retries: int, sessionTimeout: int, fn: nat -> Answer<T>)
    returns (r: Result<Answer<T>>, calls: seq<nat>, waits: seq<int>)
    ensures retries < 0 ==>
      r == Err(BadArgument("retries must be an integer greater or equal to 0.")) && calls == [] && waits == []
    ensures retries >= 0 ==> r.Ok? && 1 <= |calls| <= retries + 1
    ensures forall j :: 0 <= j < |calls| ==> calls[j] == j
    ensures forall j :: 0 <= j < |calls| - 1 ==> Retryable(fn(j))
    ensures r.Ok? ==> |calls| == retries + 1 || !Retryable(fn(|calls| - 1))
    ensures r.Ok? ==> r.value == fn(|calls| - 1)
    ensures |waits| == if |calls| == 0 then 0 else |calls| - 1
    ensures forall j :: 0 <= j < |waits| ==> waits[j] == Backoff(j, sessionTimeout)
  {
    if retries < 0 {
      return Err(BadArgument("retries must be an integer greater or equal to 0.")), [], [];
    }
    var count: nat := 0;
    var retry := true;
    var last: Answer<T> := fn(0);
    calls, waits := [], [];
    while count <= retries && retry
      invariant count <= retries + 1 && |calls| == count
      invariant forall j :: 0 <= j < count ==> calls[j] == j
      invariant forall j :: 0 <= j < count - 1 ==> Retryable(fn(j))
      invariant count > 0 ==> last == fn(count - 1) && retry == Retryable(last)
      invariant count == 0 ==> retry && |waits| == 0
      invariant count > 0 ==> |waits| == if retry && count <= retries then count else count - 1
      invariant forall j :: 0 <= j < |waits| ==> waits[j] == Backoff(j, sessionTimeout)
      decreases retries + 1 - count
    {
      var attempts := count;
      count := count + 1;
      calls := calls + [attempts];
      last := fn(attempts);
      retry := Retryable(last);
      if retry && count <= retries {
        waits := waits + [Backoff(attempts, sessionTimeout)];
      }
    }
    r := Ok(last);
  }

  // ---------------------------------------------------------------------
  // Argument checks before a request is built
  // ---------------------------------------------------------------------

  /** A `version` argument: left out (a callback in its place), or a
      value of some kind. */
  datatype VersionArg = Omitted | Given(v: Transactions.Arg)

  /** The version of `remove`, `setData` and `setACL`: -1 when left out,
      the number when one is given, which keeps 0 (the transaction builder
      turns 0 into -1). */
  function ClientVersion(v: VersionArg): (r: Result<int32>)
    ensures v.Omitted? ==> r == Ok(-1)
    ensures v.Given? && v.v.ArgNumber? ==> r == Ok(v.v.n)
    ensures r.Err? <==> v.Given? && !v.v.ArgNumber?
    ensures r.Err? ==> r.error == BadArgument("version must be a number.")
  {
    match v
    case Omitted => Ok(-1)
    case Given(a) => if a.ArgNumber? then Ok(a.n) else Err(BadArgument("version must be a number."))
  }

  /** Only the omitted version differs from the builder's reading: a
      given 0 stays 0 here. */
  lemma ZeroVersionKept()
    ensures ClientVersion(Given(Transactions.ArgNumber(0))) == Ok(0)
    ensures Transactions.VersionOf(Transactions.ArgNumber(0)) == Ok(-1)
  {
  }

  const SizeMessage: string := "data must be equal of smaller than " + NatString(Protocol.DataSizeLimit) + " bytes."

  /** The data check of `create`, `setData` and `mkdirp`: null, undefined
      or a Buffer, and a Buffer of at most DATA_SIZE_LIMIT bytes. */
  function CheckedData(data: Transactions.Arg): (r: Result<Option<seq<byte>>>)
    ensures r.Ok? <==> data.ArgNull? || data.ArgUndefined? || (data.ArgBuffer? && |data.bytes| <= Protocol.DataSizeLimit)
    ensures r.Ok? ==> (r.value.Some? <==> data.ArgBuffer?)
    ensures r.Ok? && data.ArgBuffer? ==> r.value.value == data.bytes
    ensures data.ArgBuffer? && |data.bytes| > Protocol.DataSizeLimit ==> r == Err(BadArgument(SizeMessage))
  {
    var d :- Transactions.DataOf(data);
    if d.Some? && |d.value| > Protocol.DataSizeLimit then Err(BadArgument(SizeMessage)) else Ok(d)
  }

  function AclsOrDefault(acls: Transactions.Arg): seq<TxnRequest.Acl>
  {
    if acls.ArgArray? then acls.acls else Transactions.OpenAclUnsafe
  }

  function ModeOrDefault(mode: Transactions.Arg): int32
  {
    if mode.ArgNumber? then mode.n else Transactions.Persistent
  }

  datatype CreateRequest = CreateRequest(path: string, data: Option<seq<byte>>, acls: seq<TxnRequest.Acl>, mode: int32)

  /** The checks of `create(path, data, acls, mode)` in order (the path,
      the data, its size, a non-empty acl list) and the request they let
      through: acls default to OPEN_ACL_UNSAFE and the mode to PERSISTENT. */
  function CreateRequestOf(path: string, pathValid: bool, data: Transactions.Arg, acls: Transactions.Arg, mode: Transactions.Arg)
    : (r: Result<CreateRequest>)
    ensures !pathValid ==> r == Err(BadArgument("path"))
    ensures pathValid && CheckedData(data).Err? ==> r == Err(CheckedData(data).error)
    ensures pathValid && CheckedData(data).Ok? && |AclsOrDefault(acls)| == 0 ==>
      r == Err(BadArgument("acls must be a non-empty array."))
    ensures r.Ok? <==> pathValid && CheckedData(data).Ok? && |AclsOrDefault(acls)| > 0
    ensures r.Ok? ==> && r.value.path == path && r.value.data == CheckedData(data).value
                      && r.value.acls == AclsOrDefault(acls) && r.value.mode == ModeOrDefault(mode)
                      && (r.value.data.Some? ==> |r.value.data.value| <= Protocol.DataSizeLimit)
  {
    if !pathValid then Err(BadArgument("path"))
    else
      var d :- CheckedData(data);
      var a := AclsOrDefault(acls);
      if |a| == 0 then Err(BadArgument("acls must be a non-empty array."))
      else Ok(CreateRequest(path, d, a, ModeOrDefault(mode)))
  }

  /** Arguments passed in their own places give the client's `create` and
      the builder's `create` the same data, acls and mode. */
  lemma CreateAgreesWithBuilder(data: Transactions.Arg, acls: Transactions.Arg, mode: Transactions.Arg)
    requires data.ArgBuffer? || data.ArgUndefined?
    requires acls.ArgArray? || acls.ArgUndefined?
    requires mode.ArgNumber? || mode.ArgUndefined?
    ensures var s := Transactions.SortedArgs([data, acls, mode]);
      && s.data == (if data.ArgBuffer? then Some(data.bytes) else None)
      && (if s.acls.Some? then s.acls.value else Transactions.OpenAclUnsafe) == AclsOrDefault(acls)
      && (if s.mode.Some? then s.mode.value else Transactions.Persistent) == ModeOrDefault(mode)
  {
    var none := Transactions.Sorted(None, None, None);
    assert Transactions.SortedArgs([data]) == Transactions.SortArg(none, data) by {
      assert [data][..0] == [];
    }
    assert Transactions.SortedArgs([data, acls]) == Transactions.SortArg(Transactions.SortedArgs([data]), acls) by {
      assert [data, acls][..1] == [data];
    }
    assert Transactions.SortedArgs([data, acls, mode]) == Transactions.SortArg(Transactions.SortedArgs([data, acls]), mode) by {
      assert [data, acls, mode][..2] == [data, acls];
    }
  }

  /** The checks of `remove(path, version)`: the path, then the version. */
  function RemoveRequestOf(path: string, pathValid: bool, version: VersionArg): (r: Result<(string, int32)>)
    ensures !pathValid ==> r == Err(BadArgument("path"))
    ensures pathValid && ClientVersion(version).Err? ==> r == Err(ClientVersion(version).error)
    ensures r.Ok? <==> pathValid && ClientVersion(version).Ok?
    ensures r.Ok? ==> r.value == (path, ClientVersion(version).value)
  {
    if !pathValid then Err(BadArgument("path"))
    else
      var v :- ClientVersion(version);
      Ok((path, v))
  }

  /** `remove` and the builder's `remove` send the same version when it
      is omitted or a number other than 0; only the builder turns 0 into
      -1 (`ZeroVersionKept`). */
  lemma RemoveAgreesWithBuilder(path: string, v: Transactions.Arg)
    requires v.ArgNumber? && v.n != 0
    ensures RemoveRequestOf(path, true, Given(v)) == Ok((path, Transactions.VersionOf(v).value))
    ensures RemoveRequestOf(path, true, Omitted) == Ok((path, Transactions.VersionOf(Transactions.ArgUndefined).value))
  {
  }

  datatype SetDataRequest = SetDataRequest(path: string, data: Option<seq<byte>>, version: int32)

  /** The checks of `setData(path, data, version)` in order: the path, the
      version, the data and its size. */
  predicate SetDataChecked(pathValid: bool, data: Transactions.Arg, version: VersionArg)
  {
    pathValid && ClientVersion(version).Ok? && CheckedData(data).Ok?
  }

  /** `setData` as written: the payload copies `data.length` bytes
      whatever the data is, so a null or undefined data that passed the
      checks fails with a TypeError. */
  function SetDataAsWritten(path: string, pathValid: bool, data: Transactions.Arg, version: VersionArg)
    : (r: Result<SetDataRequest>)
    ensures r.Ok? <==> SetDataChecked(pathValid, data, version) && data.ArgBuffer?
    ensures SetDataChecked(pathValid, data, version) && !data.ArgBuffer? ==> r == Err(TypeError)
  {
    if !pathValid then Err(BadArgument("path"))
    else
      var v :- ClientVersion(version);
      var d :- CheckedData(data);
      if !data.ArgBuffer? then Err(TypeError)
      else Ok(SetDataRequest(path, Some(data.bytes), v))
  }

  /** The call `setData(path, null)` is let through by every check and
      still fails. */
  lemma SetDataNullFails(path: string)
    ensures SetDataChecked(true, Transactions.ArgNull, Omitted)
    ensures SetDataAsWritten(path, true, Transactions.ArgNull, Omitted) == Err(TypeError)
  {
  }

  /** `setData` as its checks mean it: whatever passes them gives a
      request, whose data is the Buffer or absent (null). */
  function SetDataRequestOf(path: string, pathValid: bool, data: Transactions.Arg, version: VersionArg)
    : (r: Result<SetDataRequest>)
    ensures !pathValid ==> r == Err(BadArgument("path"))
    ensures pathValid && ClientVersion(version).Err? ==> r == Err(ClientVersion(version).error)
    ensures pathValid && ClientVersion(version).Ok? && CheckedData(data).Err? ==> r == Err(CheckedData(data).error)
    ensures r.Ok? <==> SetDataChecked(pathValid, data, version)
    ensures r.Ok? ==> r.value == SetDataRequest(path, CheckedData(data).value, ClientVersion(version).value)
  {
    if !pathValid then Err(BadArgument("path"))
    else
      var v :- ClientVersion(version);
      var d :- CheckedData(data);
      Ok(SetDataRequest(path, d, v))
  }

  /** The two readings agree wherever the data is a Buffer. */
  lemma SetDataAgrees(path: string, pathValid: bool, data: Transactions.Arg, version: VersionArg)
    requires data.ArgBuffer?
    ensures SetDataRequestOf(path, pathValid, data, version) == SetDataAsWritten(path, pathValid, data, version)
  {
  }

  datatype SetAclRequest = SetAclRequest(path: string, acls: seq<TxnRequest.Acl>, version: int32)

  /** The checks of `setACL(path, acls, version)` in order: the path, a
      non-empty array of acls, the version. */
  function SetAclRequestOf(path: string, pathValid: bool, acls: Transactions.Arg, version: VersionArg)
    : (r: Result<SetAclRequest>)
    ensures !pathValid ==> r == Err(BadArgument("path"))
    ensures pathValid && !(acls.ArgArray? && |acls.acls| > 0) ==> r == Err(BadArgument("acls must be a non-empty array."))
    ensures r.Ok? <==> pathValid && acls.ArgArray? && |acls.acls| > 0 && ClientVersion(version).Ok?
    ensures r.Ok? ==> r.value == SetAclRequest(path, acls.acls, ClientVersion(version).value)
  {
    if !pathValid then Err(BadArgument("path"))
    else if !(acls.ArgArray? && |acls.acls| > 0) then Err(BadArgument("acls must be a non-empty array."))
    else
      var v :- ClientVersion(version);
      Ok(SetAclRequest(path, acls.acls, v))
  }

  // ---------------------------------------------------------------------
  // exists
  // ---------------------------------------------------------------------

  /** The reply to an exists request: the error the connection manager
      passes along, the err of the reply header and the stat. */
  datatype ExistsReply<S> = ExistsReply(error: Option<Fault>, headerErr: int, stat: S)

  /** What one attempt of `exists` passes on, and the watcher it leaves
      when a watcher is given: a missing node is no error, its stat is
      null, and the watcher waits for the node to appear; an existing node
      gets a data watcher. Any other error is passed on and leaves no
      watcher. */
  function ExistsStep<S>(reply: ExistsReply<S>, watch: bool): (r: (Answer<Option<S>>, Option<Watchers.Kind>))
    ensures reply.error.Some? && reply.error != Some(ZkError(Exceptions.NO_NODE)) ==>
      r.0 == Answer(reply.error, []) && r.1.None?
    ensures reply.error.None? || reply.error == Some(ZkError(Exceptions.NO_NODE)) ==>
      && r.0.error.None? && |r.0.args| == 1
      && (r.0.args[0].Some? <==> reply.headerErr == Exceptions.OK)
      && (r.0.args[0].Some? ==> r.0.args[0].value == reply.stat)
      && (r.1.Some? <==> watch)
    ensures r.1.Some? ==> r.1.value == if reply.headerErr == Exceptions.OK then Watchers.DataWatch else Watchers.ExistenceWatch
  {
    if reply.error.Some? && reply.error != Some(ZkError(Exceptions.NO_NODE)) then (Answer(reply.error, []), None)
    else
      var existence := reply.headerErr == Exceptions.OK;
      var kind := if existence then Watchers.DataWatch else Watchers.ExistenceWatch;
      (Answer(None, [if existence then Some(reply.stat) else None]), if watch then Some(kind) else None)
  }

  /** The watcher `exists` leaves is one the next change of the node
      notifies: the creation of a missing node, or a data change or the
      deletion of an existing one. */
  lemma ExistsWatcherFires<S>(reply: ExistsReply<S>, watch: bool)
    requires ExistsStep(reply, watch).1.Some?
    ensures var k := ExistsStep(reply, watch).1.value;
      && (reply.headerErr == Exceptions.OK ==>
           k in Watchers.Dispatch(CodeTables.Number(Events.NODE_DATA_CHANGED)).value
           && k in Watchers.Dispatch(CodeTables.Number(Events.NODE_DELETED)).value)
      && (reply.headerErr != Exceptions.OK ==> k in Watchers.Dispatch(CodeTables.Number(Events.NODE_CREATED)).value)
  {
  }

  // ---------------------------------------------------------------------
  // mkdirp
  // ---------------------------------------------------------------------

  /** `s.split('/')`: the pieces between the slashes, at least one. */
  function Split(s: string): (parts: seq<string>)
    ensures |parts| >= 1
    ensures forall k :: 0 <= k < |parts| ==> '/' !in parts[k]
  {
    if |s| == 0 then [""]
    else
      var rest := Split(s[1..]);
      if s[0] == '/' then [""] + rest
      else [[s[0]] + rest[0]] + rest[1..]
  }

  /** `parts.join('/')`. */
  function Join(parts: seq<string>): string
    requires |parts| >= 1
  {
    if |parts| == 1 then parts[0] else parts[0] + "/" + Join(parts[1..])
  }

  /** Joining the pieces gives the string back. */
  lemma {:induction false} SplitJoin(s: string)
    ensures Join(Split(s)) == s
  {
    if |s| > 0 {
      var rest := Split(s[1..]);
      SplitJoin(s[1..]);
      if s[0] == '/' {
        assert Split(s) == [""] + rest;
        assert Join(Split(s)) == "" + "/" + Join(rest);
        assert s == [s[0]] + s[1..];
      } else if |rest| == 1 {
        assert Join(Split(s)) == [s[0]] + rest[0];
        assert s == [s[0]] + s[1..];
      } else {
        assert Split(s)[1..] == rest[1..];
        assert Join(rest) == rest[0] + "/" + Join(rest[1..]);
        assert s == [s[0]] + s[1..];
      }
    }
  }

  /** Splitting a join of slash-free pieces gives the pieces back. */
  lemma {:induction false} JoinSplit(parts: seq<string>)
    requires |parts| >= 1
    requires forall k :: 0 <= k < |parts| ==> '/' !in parts[k]
    ensures Split(Join(parts)) == parts
    decreases |Join(parts)|, |parts[0]|
  {
    var p := parts[0];
    if |p| > 0 {
      var shorter := [p[1..]] + parts[1..];
      assert Join(parts) == [p[0]] + Join(shorter) by {
        if |parts| > 1 {
          assert Join(shorter) == p[1..] + "/" + Join(parts[1..]);
        }
      }
      JoinSplit(shorter);
      SplitCons(p[0], Join(shorter));
      assert [p[0]] + p[1..] == p;
      assert [p] + parts[1..] == parts;
    } else if |parts| > 1 {
      assert Join(parts) == "/" + Join(parts[1..]);
      JoinSplit(parts[1..]);
      SplitSlash(Join(parts[1..]));
      assert [p] + parts[1..] == parts;
    }
  }

  /** A character other than '/' joins the first piece. */
  lemma SplitCons(c: char, t: string)
    requires c != '/'
    ensures Split([c] + t) == [[c] + Split(t)[0]] + Split(t)[1..]
  {
    assert ([c] + t)[1..] == t;
  }

  /** A '/' starts a new piece. */
  lemma SplitSlash(t: string)
    ensures Split("/" + t) == [""] + Split(t)
  {
    assert ("/" + t)[1..] == t;
  }

  /** The path after `k` steps of `mkdirp`: '/' and each of the first `k`
      nodes. */
  function Prefix(nodes: seq<string>, k: nat): string
    requires k <= |nodes|
  {
    if k == 0 then "" else Prefix(nodes, k - 1) + "/" + nodes[k - 1]
  }

  lemma {:induction false} JoinSnoc(parts: seq<string>, x: string)
    requires |parts| >= 1
    ensures Join(parts + [x]) == Join(parts) + "/" + x
    decreases |parts|
  {
    if |parts| > 1 {
      assert (parts + [x])[1..] == parts[1..] + [x];
      JoinSnoc(parts[1..], x);
    }
  }

  lemma {:induction false} PrefixJoin(nodes: seq<string>, k: nat)
    requires k <= |nodes|
    ensures Prefix(nodes, k) == Join([""] + nodes[..k])
  {
    if k > 0 {
      PrefixJoin(nodes, k - 1);
      assert [""] + nodes[..k] == ([""] + nodes[..k - 1]) + [nodes[k - 1]];
      JoinSnoc([""] + nodes[..k - 1], nodes[k - 1]);
    }
  }

  /** For an absolute path the last prefix `mkdirp` reaches is the path. */
  lemma MkdirpReachesPath(path: string)
    requires |path| > 0 && path[0] == '/'
    ensures var nodes := Split(path)[1..]; Prefix(nodes, |nodes|) == path
  {
    var nodes := Split(path)[1..];
    assert Split(path) == [""] + Split(path[1..]);
    PrefixJoin(nodes, |nodes|);
    assert nodes[..|nodes|] == nodes;
    SplitJoin(path);
  }

  /** An error `mkdirp` steps over: an existing node. */
  predicate Skipped(e: Option<Fault>)
  {
    e.None? || e == Some(ZkError(Exceptions.NODE_EXISTS))
  }

  /** The eachSeries of `mkdirp`: the cumulative prefixes of `nodes` are
      created in order (`create(p)` is the error that creation reports);
      existing nodes are stepped over and any other error ends the walk,
      leaving `currentPath` at the last prefix reached. */
  method CreatePrefixes(nodes: seq<string>, create: string -> Option<Fault>)
    returns (error: Option<Fault>, currentPath: string, attempted: seq<string>)
    ensures |attempted| <= |nodes| && currentPath == Prefix(nodes, |attempted|)
    ensures forall j :: 0 <= j < |attempted| ==> attempted[j] == Prefix(nodes, j + 1)
    ensures forall j :: 0 <= j < |attempted| - 1 ==> Skipped(create(attempted[j]))
    ensures error.None? ==> |attempted| == |nodes| && forall j :: 0 <= j < |attempted| ==> Skipped(create(attempted[j]))
    ensures error.Some? ==> |attempted| > 0 && error == create(currentPath) && !Skipped(error)
  {
    currentPath, error, attempted := "", None, [];
    var i := 0;
    while i < |nodes|
      invariant 0 <= i <= |nodes| && |attempted| == i
      invariant currentPath == Prefix(nodes, i)
      invariant forall j :: 0 <= j < i ==> attempted[j] == Prefix(nodes, j + 1)
      invariant forall j :: 0 <= j < i ==> Skipped(create(attempted[j]))
    {
      currentPath := currentPath + "/" + nodes[i];
      attempted := attempted + [currentPath];
      var e := create(currentPath);
      i := i + 1;
      if !Skipped(e) {
        return e, currentPath, attempted;
      }
    }
  }

  /** `mkdirp(path, data, acls, mode)`: the checks of `create`, then the
      creation of every cumulative prefix of the path. The callback gets
      the error that ended the walk, if any, and the last prefix reached,
      which is the path itself when no error stopped it. */
  method Mkdirp(path: string, pathValid: bool, data: Transactions.Arg, acls: Transactions.Arg, mode: Transactions.Arg,
                create: string -> Option<Fault>)
    returns (r: Result<(Option<Fault>, string)>, attempted: seq<string>)
    ensures r.Err? ==> && CreateRequestOf(path, pathValid, data, acls, mode).Err? && attempted == []
                       && r.error == CreateRequestOf(path, pathValid, data, acls, mode).error
    ensures r.Ok? <==> CreateRequestOf(path, pathValid, data, acls, mode).Ok?
    ensures var nodes := Split(path)[1..];
      r.Ok? ==> && |attempted| <= |nodes| && r.value.1 == Prefix(nodes, |attempted|)
                && (forall j :: 0 <= j < |attempted| ==> attempted[j] == Prefix(nodes, j + 1))
                && (forall j :: 0 <= j < |attempted| - 1 ==> Skipped(create(attempted[j])))
                && (r.value.0.Some? ==> |attempted| > 0 && r.value.0 == create(r.value.1) && !Skipped(r.value.0))
                && (r.value.0.None? ==> |attempted| == |nodes|)
    ensures r.Ok? && r.value.0.None? && |path| > 0 && path[0] == '/' ==> r.value.1 == path
  {
    var checked := CreateRequestOf(path, pathValid, data, acls, mode);
    if checked.Err? {
      return Err(checked.error), [];
    }
    var nodes := Split(path)[1..];
    var error, currentPath;
    error, currentPath, attempted := CreatePrefixes(nodes, create);
    if |path| > 0 && path[0] == '/' {
      MkdirpReachesPath(path);
    }
    r := Ok((error, currentPath));
  }

  // ---------------------------------------------------------------------
  // listSubTreeBFS and removeRecursive
  // ---------------------------------------------------------------------

  /** The reply to a getChildren request: the child names, or an error. */
  datatype Children = Names(names: seq<string>) | ChildrenFailed(fault: Fault)

  /** The path of `child` under `item`. */
  function ChildPath(item: string, child: string): string
  {
    if item == "/" then item + child else item + "/" + child
  }

  ghost predicate IsChildOf(item: string, entry: string)
  {
    exists c :: entry == ChildPath(item, c)
  }

  /** The entries `listSubTreeBFS` appends for `item`. */
  function Kids(item: string, getChildren: string -> Children): seq<string>
  {
    var c := getChildren(item);
    if c.Names? then ChildPaths(item, c.names) else []
  }

  function ChildPaths(item: string, names: seq<string>): seq<string>
  {
    seq(|names|, k requires 0 <= k < |names| => ChildPath(item, names[k]))
  }

  /** The entries appended for each of the first `n` entries of `tree`, in order. */
  function Flat(tree: seq<string>, n: nat, getChildren: string -> Children): seq<string>
    requires n <= |tree|
  {
    if n == 0 then [] else Flat(tree, n - 1, getChildren) + Kids(tree[n - 1], getChildren)
  }

  /** A list that starts with `path` and then holds, in order, the
      children of its first `n` entries. */
  predicate Grown(path: string, tree: seq<string>, n: nat, getChildren: string -> Children)
  {
    n <= |tree| && tree == [path] + Flat(tree, n, getChildren)
  }

  lemma {:induction false} FlatPrefix(a: seq<string>, b: seq<string>, n: nat, getChildren: string -> Children)
    requires n <= |a| && n <= |b| && a[..n] == b[..n]
    ensures Flat(a, n, getChildren) == Flat(b, n, getChildren)
  {
    if n > 0 {
      assert a[..n - 1] == a[..n][..n - 1] && b[..n - 1] == b[..n][..n - 1];
      assert a[n - 1] == a[..n][n - 1] && b[n - 1] == b[..n][n - 1];
      FlatPrefix(a, b, n - 1, getChildren);
    }
  }

  lemma FlatStep(tree: seq<string>, kids: seq<string>, i: nat, getChildren: string -> Children)
    requires i < |tree| && kids == Kids(tree[i], getChildren)
    ensures Flat(tree + kids, i + 1, getChildren) == Flat(tree, i, getChildren) + kids
  {
    var longer := tree + kids;
    assert longer[..i] == tree[..i] && longer[i] == tree[i];
    FlatPrefix(longer, tree, i, getChildren);
  }

  /** Listing the children of the next entry keeps a list grown. */
  lemma GrownStep(path: string, tree: seq<string>, i: nat, getChildren: string -> Children)
    requires Grown(path, tree, i, getChildren) && i < |tree|
    ensures Grown(path, tree + Kids(tree[i], getChildren), i + 1, getChildren)
  {
    var kids := Kids(tree[i], getChildren);
    FlatStep(tree, kids, i, getChildren);
    AppendAfterHead(path, tree, Flat(tree, i, getChildren), kids);
  }

  lemma AppendAfterHead(path: string, tree: seq<string>, rest: seq<string>, more: seq<string>)
    requires tree == [path] + rest
    ensures tree + more == [path] + (rest + more)
  {
  }

  /** Entry `k` is the child of an earlier entry. */
  ghost predicate ParentBefore(tree: seq<string>, k: nat)
    requires k < |tree|
  {
    exists j :: 0 <= j < k && IsChildOf(tree[j], tree[k])
  }

  /** Entry `k` is the child of a later entry. */
  ghost predicate ParentAfter(tree: seq<string>, k: nat)
    requires k < |tree|
  {
    exists j :: k < j < |tree| && IsChildOf(tree[j], tree[k])
  }

  /** Every entry but the first is the child of an earlier one. */
  ghost predicate ParentsFirst(tree: seq<string>)
  {
    forall k: nat :: 1 <= k < |tree| ==> ParentBefore(tree, k)
  }

  /** Every entry but the last has its parent somewhere after it. */
  ghost predicate ChildrenFirst(tree: seq<string>)
  {
    forall k: nat :: k < |tree| - 1 ==> ParentAfter(tree, k)
  }

  function Reversed(s: seq<string>): (r: seq<string>)
    ensures |r| == |s| && forall k :: 0 <= k < |s| ==> r[k] == s[|s| - 1 - k]
  {
    seq(|s|, k requires 0 <= k < |s| => s[|s| - 1 - k])
  }

  /** Reversing a list whose parents come first puts children first. */
  lemma ReversedChildrenFirst(tree: seq<string>)
    requires ParentsFirst(tree)
    ensures ChildrenFirst(Reversed(tree))
  {
    var r := Reversed(tree);
    forall k: nat | k < |r| - 1
      ensures ParentAfter(r, k)
    {
      var m := |tree| - 1 - k;
      assert r[k] == tree[m];
      assert ParentBefore(tree, m);
      var j :| 0 <= j < m && IsChildOf(tree[j], tree[m]);
      assert r[|tree| - 1 - j] == tree[j];
    }
  }

  /** Each entry but the first is recorded as the child `names[k]` of the
      earlier entry `parent[k]`. */
  ghost predicate Recorded(tree: seq<string>, parent: seq<nat>, names: seq<string>)
  {
    && |parent| == |tree| && |names| == |tree|
    && forall k :: 1 <= k < |tree| ==> parent[k] < k && tree[k] == ChildPath(tree[parent[k]], names[k])
  }

  /** The parents recorded for each entry show that parents come first. */
  lemma RecordedParents(tree: seq<string>, parent: seq<nat>, names: seq<string>)
    requires Recorded(tree, parent, names)
    ensures ParentsFirst(tree)
  {
    forall k: nat | 1 <= k < |tree|
      ensures ParentBefore(tree, k)
    {
      var j := parent[k];
      assert tree[k] == ChildPath(tree[j], names[k]);
      assert IsChildOf(tree[j], tree[k]);
    }
  }

  /** The forEach of `listSubTreeBFS`: each child's path is pushed onto
      the list in order. */
  method PushChildren(tree: seq<string>, item: string, names: seq<string>) returns (t: seq<string>)
    ensures t == tree + ChildPaths(item, names)
  {
    t := tree;
    for m := 0 to |names|
      invariant t == tree + ChildPaths(item, names[..m])
    {
      assert ChildPaths(item, names[..m + 1]) == ChildPaths(item, names[..m]) + [ChildPath(item, names[m])];
      t := t + [ChildPath(item, names[m])];
    }
    assert names[..|names|] == names;
  }

  /** The children pushed for entry `i` have `i` as their parent. */
  lemma PushedParents(tree: seq<string>, parent: seq<nat>, names: seq<string>, i: nat, kids: seq<string>)
    requires Recorded(tree, parent, names) && i < |tree|
    ensures Recorded(tree + ChildPaths(tree[i], kids), parent + seq(|kids|, _ => i), names + kids)
  {
    var t, p, n := tree + ChildPaths(tree[i], kids), parent + seq(|kids|, _ => i), names + kids;
    forall k | 1 <= k < |t|
      ensures p[k] < k && t[k] == ChildPath(t[p[k]], n[k])
    {
      if k >= |tree| {
        assert p[k] == i && n[k] == kids[k - |tree|] && t[i] == tree[i];
      } else {
        assert p[k] == parent[k] && n[k] == names[k] && t[parent[k]] == tree[parent[k]];
      }
    }
  }

  /** How the walk ended: every entry listed, a getChildren error, or the
      bound on the number of getChildren calls reached. */
  datatype Walk = Walked(tree: seq<string>) | WalkFailed(fault: Fault) | Unfinished(tree: seq<string>)

  /** The walk of `listSubTreeBFS` from entry `i` of `tree` on: each entry
      in turn gets its children appended, entries appended during the walk
      included, until the list is exhausted, a getChildren call fails, or
      `fuel` calls have been made. */
  function WalkFrom(tree: seq<string>, i: nat, getChildren: string -> Children, fuel: nat): Walk
    requires i <= |tree| && i <= fuel
    decreases fuel - i
  {
    if i == |tree| then Walked(tree)
    else if i == fuel then Unfinished(tree)
    else
      match getChildren(tree[i])
      case ChildrenFailed(f) => WalkFailed(f)
      case Names(ns) => WalkFrom(tree + ChildPaths(tree[i], ns), i + 1, getChildren, fuel)
  }

  /** What a walk from a grown list with recorded parents ends with. */
  ghost predicate WalkEnds(path: string, w: Walk, getChildren: string -> Children, fuel: nat)
  {
    && (w.Walked? ==> Grown(path, w.tree, |w.tree|, getChildren) && ParentsFirst(w.tree) && AllNamed(w.tree, getChildren))
    && (w.Unfinished? ==> Grown(path, w.tree, fuel, getChildren) && ParentsFirst(w.tree))
    && (w.WalkFailed? ==> exists t: seq<string>, n: nat :: Grown(path, t, n, getChildren) && n < |t|
                                                         && getChildren(t[n]) == ChildrenFailed(w.fault))
  }

  lemma {:induction false} WalkFromEnds(path: string, tree: seq<string>, i: nat, getChildren: string -> Children, fuel: nat,
                                        parent: seq<nat>, names: seq<string>)
    requires i <= |tree| && i <= fuel
    requires Grown(path, tree, i, getChildren) && Recorded(tree, parent, names) && AllNamed(tree[..i], getChildren)
    ensures WalkEnds(path, WalkFrom(tree, i, getChildren, fuel), getChildren, fuel)
    decreases fuel - i
  {
    if i == |tree| {
      RecordedParents(tree, parent, names);
      assert tree[..i] == tree;
    } else if i == fuel {
      RecordedParents(tree, parent, names);
    } else {
      var c := getChildren(tree[i]);
      if c.Names? {
        GrownStep(path, tree, i, getChildren);
        PushedParents(tree, parent, names, i, c.names);
        NamedStep(tree[..i], tree[i], getChildren);
        var longer := tree + ChildPaths(tree[i], c.names);
        assert longer[..i + 1] == tree[..i] + [tree[i]];
        WalkFromEnds(path, longer, i + 1, getChildren, fuel, parent + seq(|c.names|, _ => i), names + c.names);
      }
    }
  }

  /** The walk from `[path]` lists the subtree breadth first: the list
      starts with `path` and holds, in order, the children of each of its
      entries (as `ChildPath`), so every entry comes after its parent; a
      failed walk stopped at the first entry whose getChildren failed. */
  lemma WalkProperties(path: string, getChildren: string -> Children, fuel: nat)
    ensures WalkEnds(path, WalkFrom([path], 0, getChildren, fuel), getChildren, fuel)
  {
    WalkFromEnds(path, [path], 0, getChildren, fuel, [0], [""]);
  }

  /** `listSubTreeBFS(path)`: the path is checked and the subtree walked
      as `WalkFrom` says, with `fuel` bounding the getChildren calls. */
  method ListSubTree(path: string, pathValid: bool, getChildren: string -> Children, fuel: nat)
    returns (r: Result<Walk>)
    ensures !pathValid ==> r == Err(BadArgument("path"))
    ensures pathValid ==> r == Ok(WalkFrom([path], 0, getChildren, fuel))
  {
    if !pathValid {
      return Err(BadArgument("path"));
    }
    var tree := [path];
    var i: nat := 0;
    while i < |tree|
      invariant i <= |tree| && i <= fuel
      invariant WalkFrom(tree, i, getChildren, fuel) == WalkFrom([path], 0, getChildren, fuel)
      decreases fuel - i
    {
      if i == fuel {
        return Ok(Unfinished(tree));
      }
      var item := tree[i];
      var c := getChildren(item);
      if c.ChildrenFailed? {
        return Ok(WalkFailed(c.fault));
      }
      tree := PushChildren(tree, item, c.names);
      i := i + 1;
    }
    return Ok(Walked(tree));
  }

  /** Every one of `items` got a list of names. */
  predicate AllNamed(items: seq<string>, getChildren: string -> Children)
  {
    forall k :: 0 <= k < |items| ==> getChildren(items[k]).Names?
  }

  lemma NamedStep(items: seq<string>, item: string, getChildren: string -> Children)
    requires AllNamed(items, getChildren) && getChildren(item).Names?
    ensures AllNamed(items + [item], getChildren)
  {
    assert forall k :: 0 <= k < |items| ==> (items + [item])[k] == items[k];
  }

  /** An error `removeRecursive` steps over: a node already gone. */
  predicate Gone(e: Option<Fault>)
  {
    e.None? || e == Some(ZkError(Exceptions.NO_NODE))
  }

  /** The eachSeries of `removeRecursive`: the entries are removed in
      order, each with the same version (`remove(p, version)` is the error
      that removal reports), missing nodes are stepped over, and any other
      error ends the walk. */
  method RemoveInOrder(order: seq<string>, version: int32, remove: (string, int32) -> Option<Fault>)
    returns (removed: seq<string>, fault: Option<Fault>)
    ensures |removed| <= |order| && removed == order[..|removed|]
    ensures forall j :: 0 <= j < |removed| - 1 ==> Gone(remove(removed[j], version))
    ensures fault.None? ==> removed == order && forall j :: 0 <= j < |removed| ==> Gone(remove(removed[j], version))
    ensures fault.Some? ==> |removed| > 0 && fault == remove(removed[|removed| - 1], version) && !Gone(fault)
  {
    removed := [];
    var i := 0;
    while i < |order|
      invariant i <= |order| && removed == order[..i]
      invariant forall j :: 0 <= j < i ==> Gone(remove(removed[j], version))
    {
      var e := remove(order[i], version);
      removed := removed + [order[i]];
      if !Gone(e) {
        return removed, e;
      }
      i := i + 1;
    }
    return removed, None;
  }

  /** How `removeRecursive` ended. */
  datatype Removal = Removed | RemoveFailed(fault: Fault) | ListingFailed(fault: Fault) | ListingUnfinished

  /** `removeRecursive(path, version)`: the path and the version are
      checked, the subtree is listed, and its entries are removed in
      reverse order, so every node goes before its parent; every removal
      sends the checked version. */
  method RemoveRecursive(path: string, pathValid: bool, version: VersionArg, getChildren: string -> Children, fuel: nat,
                         remove: (string, int32) -> Option<Fault>)
    returns (r: Result<Removal>, tree: seq<string>, removed: seq<string>)
    ensures !pathValid ==> r == Err(BadArgument("path"))
    ensures pathValid && ClientVersion(version).Err? ==> r == Err(ClientVersion(version).error)
    ensures r.Ok? <==> pathValid && ClientVersion(version).Ok?
    ensures r.Ok? && (r.value.Removed? || r.value.RemoveFailed?) ==>
      && WalkFrom([path], 0, getChildren, fuel) == Walked(tree) && ChildrenFirst(Reversed(tree))
      && |removed| <= |tree| && removed == Reversed(tree)[..|removed|]
      && (forall j :: 0 <= j < |removed| - 1 ==> Gone(remove(removed[j], ClientVersion(version).value)))
    ensures r.Ok? && r.value.ListingFailed? ==> WalkFrom([path], 0, getChildren, fuel) == WalkFailed(r.value.fault)
    ensures r.Ok? && r.value.ListingUnfinished? ==> WalkFrom([path], 0, getChildren, fuel).Unfinished?
    ensures r.Ok? && r.value.Removed? ==> removed == Reversed(tree) && (forall j :: 0 <= j < |removed| ==> Gone(remove(removed[j], ClientVersion(version).value)))
    ensures r.Ok? && r.value.RemoveFailed? ==>
      |removed| > 0 && Some(r.value.fault) == remove(removed[|removed| - 1], ClientVersion(version).value) && !Gone(remove(removed[|removed| - 1], ClientVersion(version).value))
    ensures r.Ok? && (r.value.ListingFailed? || r.value.ListingUnfinished?) ==> removed == []
  {
    tree, removed := [], [];
    if !pathValid {
      return Err(BadArgument("path")), tree, removed;
    }
    var v := ClientVersion(version);
    if v.Err? {
      return Err(v.error), tree, removed;
    }
    var walk := ListSubTree(path, pathValid, getChildren, fuel);
    var w := walk.value;
    if w.WalkFailed? {
      return Ok(ListingFailed(w.fault)), tree, removed;
    } else if w.Unfinished? {
      return Ok(ListingUnfinished), tree, removed;
    }
    tree := w.tree;
    WalkProperties(path, getChildren, fuel);
    ReversedChildrenFirst(tree);
    var fault;
    removed, fault := RemoveInOrder(Reversed(tree), v.value, remove);
    r := if fault.None? then Ok(Removed) else Ok(RemoveFailed(fault.value));
  }
}
