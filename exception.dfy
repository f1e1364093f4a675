/** ZooKeeper error codes and the Exception class (Exception.ts): a code
    checked against the table of named codes, the name found for it, an
    optional node path and the readable message built from them. */
module Exceptions {
  import opened Wire
  import opened Text
  import opened CodeTables

  // The named codes (Exception.ts:47-66)
  const OK: int := 0
  const SYSTEM_ERROR: int := -1
  const RUNTIME_INCONSISTENCY: int := -2
  const DATA_INCONSISTENCY: int := -3
  const CONNECTION_LOSS: int := -4
  const MARSHALLING_ERROR: int := -5
  const UNIMPLEMENTED: int := -6
  const OPERATION_TIMEOUT: int := -7
  const BAD_ARGUMENTS: int := -8
  const API_ERROR: int := -100
  const NO_NODE: int := -101
  const NO_AUTH: int := -102
  const BAD_VERSION: int := -103
  const NO_CHILDREN_FOR_EPHEMERALS: int := -108
  const NODE_EXISTS: int := -110
  const NOT_EMPTY: int := -111
  const SESSION_EXPIRED: int := -112
  const INVALID_CALLBACK: int := -113
  const INVALID_ACL: int := -114
  const AUTH_FAILED: int := -115

  /** EXCEPTION_CODES filled with the named codes, in declaration order. */
  const ExceptionCodes: Table := [
    ("OK", OK), ("SYSTEM_ERROR", SYSTEM_ERROR), ("RUNTIME_INCONSISTENCY", RUNTIME_INCONSISTENCY),
    ("DATA_INCONSISTENCY", DATA_INCONSISTENCY), ("CONNECTION_LOSS", CONNECTION_LOSS),
    ("MARSHALLING_ERROR", MARSHALLING_ERROR), ("UNIMPLEMENTED", UNIMPLEMENTED),
    ("OPERATION_TIMEOUT", OPERATION_TIMEOUT), ("BAD_ARGUMENTS", BAD_ARGUMENTS), ("API_ERROR", API_ERROR),
    ("NO_NODE", NO_NODE), ("NO_AUTH", NO_AUTH), ("BAD_VERSION", BAD_VERSION),
    ("NO_CHILDREN_FOR_EPHEMERALS", NO_CHILDREN_FOR_EPHEMERALS), ("NODE_EXISTS", NODE_EXISTS),
    ("NOT_EMPTY", NOT_EMPTY), ("SESSION_EXPIRED", SESSION_EXPIRED), ("INVALID_CALLBACK", INVALID_CALLBACK),
    ("INVALID_ACL", INVALID_ACL), ("AUTH_FAILED", AUTH_FAILED)]

  /** `validateCode(code)`. */
  function ValidateCode(table: Table, code: Num): (r: Result<int>)
    ensures r.Ok? <==> code.Number? && Defined(table, code.n)
  {
    Validate("code", table, code)
  }

  /** A path that is given and not the empty string. */
  predicate Truthy(path: Option<string>)
  {
    path.Some? && |path.value| > 0
  }

  /** The message the constructor builds: 'Exception: NAME[CODE]', then
      '@PATH' when the path is truthy. */
  function Message(name: string, code: int, path: Option<string>): string
  {
    "Exception: " + name + "[" + IntString(code) + "]" + (if Truthy(path) then "@" + path.value else "")
  }

  /** The message can be taken apart again: after 'Exception: ' and the
      name comes '[', the code in decimal, ']', and then '@' and the path
      exactly when the path is truthy, or nothing. */
  lemma MessageParts(name: string, code: int, path: Option<string>)
    ensures BracketedAs(Message(name, code, path), "Exception: " + name, code,
                        if Truthy(path) then "@" + path.value else "")
  {
    Bracketed("Exception: " + name, code, if Truthy(path) then "@" + path.value else "");
  }

  /** The third argument of `new Exception(code, name, path, ctor)`: a
      path string, omitted, or the stack-trace function (when `ctor` is
      omitted and the arguments shift). */
  datatype Third = PathArg(p: string) | NoPath | CtorArg

  /** The path the message sees: when `ctor` is omitted the third argument
      is taken as `ctor` and the local `path` becomes undefined. */
  function MessagePath(third: Third, ctorGiven: bool): (p: Option<string>)
    ensures p.Some? <==> ctorGiven && third.PathArg?
    ensures p.Some? ==> p.value == third.p
  {
    if ctorGiven && third.PathArg? then Some(third.p) else None
  }

  /** An exception as the constructor leaves it; the getters return its
      fields and `toString` its message. `path` is a parameter property,
      stored before the argument shift, so it keeps the third argument as
      given, the function included; only the message uses the shifted
      path. */
  class Exception {
    const code: int
    const name: string
    const path: Third
    const message: string

    constructor (code: int, name: string, path: Third, ctorGiven: bool)
      ensures this.code == code && this.name == name && this.path == path
      ensures message == Message(name, code, MessagePath(path, ctorGiven))
    {
      this.code := code;
      this.name := name;
      this.path := path;
      this.message := Message(name, code, MessagePath(path, ctorGiven));
    }

    function GetCode(): int { code }
    function GetName(): string { name }
    function GetPath(): Third { path }
    function ToString(): string { message }
  }

  /** The constructor's checks in order: the code, a non-empty name, and a
      function as `ctor` (after the argument shift); `ctorGiven` says a
      function was passed as the fourth argument. */
  method NewException(table: Table, code: Num, name: Option<string>, third: Third, ctorGiven: bool)
    returns (r: Result<Exception>)
    requires ctorGiven ==> !third.CtorArg?
    ensures ValidateCode(table, code).Err? ==> r == Err(ValidateCode(table, code).error)
    ensures ValidateCode(table, code).Ok? && (name.None? || |name.value| == 0) ==>
      r == Err(BadArgument("name must be a non-empty string."))
    ensures ValidateCode(table, code).Ok? && name.Some? && |name.value| > 0 && !ctorGiven && !third.CtorArg? ==>
      r == Err(BadArgument("ctor must be a function."))
    ensures r.Ok? <==> ValidateCode(table, code).Ok? && name.Some? && |name.value| > 0 && (ctorGiven || third.CtorArg?)
    ensures r.Ok? ==> && r.value.code == code.n && r.value.name == name.value && r.value.path == third
                      && r.value.message == Message(name.value, code.n, MessagePath(third, ctorGiven))
  {
    var ctorIsFunction := ctorGiven || third.CtorArg?;
    var c :- ValidateCode(table, code);
    if name.None? || |name.value| == 0 {
      return Err(BadArgument("name must be a non-empty string."));
    }
    if !ctorIsFunction {
      return Err(BadArgument("ctor must be a function."));
    }
    var e := new Exception(c, name.value, third, ctorGiven);
    r := Ok(e);
  }

  /** The third argument `create` passes for its path. */
  function PathOf(path: Option<string>): (third: Third)
    ensures third.PathArg? <==> path.Some?
    ensures path.Some? ==> third.p == path.value
  {
    if path.Some? then PathArg(path.value) else NoPath
  }

  /** `Exception.create(code, path)`: the code is checked, the name is the
      key of the first table entry holding it, and the exception keeps the
      path. A table key that is the empty string fails the name check. */
  method Create(table: Table, code: Num, path: Option<string>) returns (r: Result<Exception>)
    ensures ValidateCode(table, code).Err? ==> r == Err(ValidateCode(table, code).error)
    ensures r.Ok? ==> && code.Number? && r.value.code == code.n && r.value.path == PathOf(path)
                      && (exists i: nat :: FirstWith(table, i, code.n) && table[i].0 == r.value.name)
                      && r.value.message == Message(r.value.name, code.n, path)
    ensures ValidateCode(table, code).Ok? && r.Err? ==>
      exists i: nat :: FirstWith(table, i, code.n) && table[i].0 == ""
  {
    var c :- ValidateCode(table, code);
    var name, at := FindKey(table, c);
    r := NewException(table, code, name, PathOf(path), true);
  }

  /** With the named codes, every code gets its own name. */
  lemma CreateNames(i: nat, e: Exception)
    requires i < |ExceptionCodes|
    requires e.code == ExceptionCodes[i].1
    requires exists k: nat :: FirstWith(ExceptionCodes, k, e.code) && ExceptionCodes[k].0 == e.name
    ensures e.name == ExceptionCodes[i].0
  {
    var k: nat :| FirstWith(ExceptionCodes, k, e.code) && ExceptionCodes[k].0 == e.name;
    CodesDistinct();
    FirstIsOnly(ExceptionCodes, k, i, e.code);
  }

  /** Every named code has a non-empty name, so `create` never fails the
      name check for a named code. */
  lemma CodesNamed()
    ensures forall i :: 0 <= i < |ExceptionCodes| ==> |ExceptionCodes[i].0| > 0
  {
  }

  lemma CodesDistinct()
    ensures forall a, b :: 0 <= a < b < |ExceptionCodes| ==> ExceptionCodes[a].1 != ExceptionCodes[b].1
  {
  }
}
