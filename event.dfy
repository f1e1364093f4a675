/** Watcher events (Event.ts): an event type checked against the table of
    named types, the name found for it, the node path, and the readable
    form 'NAME[TYPE]@PATH'. */
module Events {
  import opened Wire
  import opened Text
  import opened CodeTables

  // The event types (Event.ts:46-49)
  const NODE_CREATED: int := 1
  const NODE_DELETED: int := 2
  const NODE_DATA_CHANGED: int := 3
  const NODE_CHILDREN_CHANGED: int := 4

  /** TYPES filled with the four event types. */
  const EventTypes: Table := [
    ("NODE_CREATED", NODE_CREATED), ("NODE_DELETED", NODE_DELETED),
    ("NODE_DATA_CHANGED", NODE_DATA_CHANGED), ("NODE_CHILDREN_CHANGED", NODE_CHILDREN_CHANGED)]

  /** `validateType(type)`. */
  function ValidateType(table: Table, t: Num): (r: Result<int>)
    ensures r.Ok? <==> t.Number? && Defined(table, t.n)
  {
    Validate("type", table, t)
  }

  /** `toString()`: 'NAME[TYPE]', then '@PATH' when the path is not empty. */
  function EventString(name: string, t: int, path: string): string
  {
    name + "[" + IntString(t) + "]" + (if |path| > 0 then "@" + path else "")
  }

  /** The readable form can be taken apart again: the name, '[', the type
      in decimal, ']', and '@' and the path exactly when the path is not
      empty. */
  lemma EventStringParts(name: string, t: int, path: string)
    ensures BracketedAs(EventString(name, t, path), name, t, if |path| > 0 then "@" + path else "")
  {
    Bracketed(name, t, if |path| > 0 then "@" + path else "");
  }

  /** An event: its type, name and path (`getType`, `getName`, `getPath`). */
  class Event {
    const eventType: int
    const name: string
    const path: string

    constructor (eventType: int, name: string, path: string)
      ensures this.eventType == eventType && this.name == name && this.path == path
    {
      this.eventType := eventType;
      this.name := name;
      this.path := path;
    }

    function GetType(): int { eventType }
    function GetName(): string { name }
    function GetPath(): string { path }

    function ToString(): (s: string)
    {
      EventString(name, eventType, path)
    }
  }

  /** A WatcherEvent record as the server sends it: a type and a path. */
  datatype WatcherEvent = WatcherEvent(eventType: Num, path: string)

  /** `new Event(type, name, path)`: the type is checked, then the name
      must be a non-empty string. */
  method NewEvent(table: Table, t: Num, name: Option<string>, path: string) returns (r: Result<Event>)
    ensures ValidateType(table, t).Err? ==> r == Err(ValidateType(table, t).error)
    ensures r.Ok? <==> ValidateType(table, t).Ok? && name.Some? && |name.value| > 0
    ensures r.Err? && ValidateType(table, t).Ok? ==> r == Err(BadArgument("name must be a non-empty string."))
    ensures r.Ok? ==> r.value.eventType == t.n && r.value.name == name.value && r.value.path == path
  {
    var n :- ValidateType(table, t);
    if name.None? || |name.value| == 0 {
      return Err(BadArgument("name must be a non-empty string."));
    }
    var e := new Event(n, name.value, path);
    r := Ok(e);
  }

  /** `Event.create(watcherEvent)`: a missing event fails, the type is
      checked, and the name is the key of the first table entry holding
      it; the type and the path are kept. */
  method Create(table: Table, watcherEvent: Option<WatcherEvent>) returns (r: Result<Event>)
    ensures watcherEvent.None? ==> r == Err(BadArgument("watcherEvent must be a valid object."))
    ensures watcherEvent.Some? && ValidateType(table, watcherEvent.value.eventType).Err? ==>
      r == Err(ValidateType(table, watcherEvent.value.eventType).error)
    ensures r.Ok? ==> && watcherEvent.Some? && watcherEvent.value.eventType.Number?
                      && r.value.eventType == watcherEvent.value.eventType.n
                      && r.value.path == watcherEvent.value.path
                      && exists i: nat :: FirstWith(table, i, r.value.eventType) && table[i].0 == r.value.name
    ensures watcherEvent.Some? && ValidateType(table, watcherEvent.value.eventType).Ok? && r.Err? ==>
      exists i: nat :: FirstWith(table, i, watcherEvent.value.eventType.n) && table[i].0 == ""
  {
    if watcherEvent.None? {
      return Err(BadArgument("watcherEvent must be a valid object."));
    }
    var we := watcherEvent.value;
    var t :- ValidateType(table, we.eventType);
    var name, at := FindKey(table, t);
    r := NewEvent(table, we.eventType, name, we.path);
  }

  /** Each of the four event types is in the table and the first key
      holding it is a non-empty name, so `create` succeeds for it. */
  lemma KnownTypesNamed(t: Num)
    requires t.Number? && NODE_CREATED <= t.n <= NODE_CHILDREN_CHANGED
    ensures ValidateType(EventTypes, t).Ok?
    ensures forall i: nat :: FirstWith(EventTypes, i, t.n) ==> |EventTypes[i].0| > 0
  {
    assert EventTypes[t.n - 1].1 == t.n;
  }

  /** With the four event types, every type gets its own name. */
  lemma CreateNames(i: nat, e: Event)
    requires i < |EventTypes|
    requires e.eventType == EventTypes[i].1
    requires exists k: nat :: FirstWith(EventTypes, k, e.eventType) && EventTypes[k].0 == e.name
    ensures e.name == EventTypes[i].0
  {
    var k: nat :| FirstWith(EventTypes, k, e.eventType) && EventTypes[k].0 == e.name;
    FirstIsOnly(EventTypes, k, i, e.eventType);
  }
}
