/** The watcher registry of WatcherManager.ts: for each of three kinds of
    watch (data, child, existence) the paths watched, each with the
    one-shot listeners waiting on it, and the dispatch of a server's
    watcher event to the registries it concerns. */
module Watchers {
  import opened Wire
  import opened CodeTables
  import Events

  /** A `watcher` argument: a function (its identity) or anything else. */
  datatype WatcherArg = Function(id: nat) | NotAFunction

  /** A watched path and the listeners of its emitter, in registration
      order. The registry is an object, so its entries keep the order in
      which their paths were first added. */
  datatype Entry = Entry(path: string, listeners: seq<nat>)

  type Registry = seq<Entry>

  datatype Kind = DataWatch | ChildWatch | ExistenceWatch

  /** The index of the entry of `path`. */
  function Find(reg: Registry, path: string): (r: Option<nat>)
    ensures r.Some? ==> r.value < |reg| && reg[r.value].path == path
    ensures r.None? ==> forall i :: 0 <= i < |reg| ==> reg[i].path != path
  {
    if |reg| == 0 then None
    else if reg[|reg| - 1].path == path then Some(|reg| - 1)
    else Find(reg[..|reg| - 1], path)
  }

  /** The listeners waiting on `path`, none when it is not watched. */
  function Listeners(reg: Registry, path: string): seq<nat>
  {
    var i := Find(reg, path);
    if i.Some? then reg[i.value].listeners else []
  }

  /** Each path at most once, and each with a listener. */
  ghost predicate WellFormed(reg: Registry)
  {
    && (forall i, j :: 0 <= i < j < |reg| ==> reg[i].path != reg[j].path)
    && (forall i :: 0 <= i < |reg| ==> |reg[i].listeners| > 0)
  }

  /** `registerWatcher`: the emitter of `path` (a new one at the end when
      the path is not watched yet) gains the listener `id`, unless it
      already has it. */
  function Registered(reg: Registry, path: string, id: nat): Registry
  {
    var i := Find(reg, path);
    if i.None? then reg + [Entry(path, [id])]
    else if id in reg[i.value].listeners then reg
    else reg[i.value := Entry(path, reg[i.value].listeners + [id])]
  }

  /** `delete watchers[path]`. */
  function Deleted(reg: Registry, path: string): Registry
  {
    var i := Find(reg, path);
    if i.None? then reg else reg[..i.value] + reg[i.value + 1..]
  }

  /** In a well-formed registry the entry of a path is its only one. */
  lemma FindUnique(reg: Registry, path: string, k: nat)
    requires WellFormed(reg) && k < |reg| && reg[k].path == path
    ensures Find(reg, path) == Some(k)
  {
  }

  /** Two registries with the same paths in the same places find a path
      at the same place. */
  lemma FindSamePaths(a: Registry, b: Registry, q: string)
    requires |a| == |b| && forall i :: 0 <= i < |a| ==> a[i].path == b[i].path
    requires WellFormed(a) && WellFormed(b)
    ensures Find(a, q) == Find(b, q)
  {
    var i := Find(a, q);
    if i.Some? {
      FindUnique(b, q, i.value);
    } else {
      assert forall k :: 0 <= k < |b| ==> b[k].path != q;
    }
  }

  lemma RegisteredWellFormed(reg: Registry, path: string, id: nat)
    requires WellFormed(reg)
    ensures WellFormed(Registered(reg, path, id))
  {
  }

  /** Registration adds the listener to its path once: a second
      registration of the same function on the same path changes
      nothing. */
  lemma RegisteredAt(reg: Registry, path: string, id: nat)
    requires WellFormed(reg)
    ensures Listeners(Registered(reg, path, id), path) ==
      if id in Listeners(reg, path) then Listeners(reg, path) else Listeners(reg, path) + [id]
    ensures Registered(Registered(reg, path, id), path, id) == Registered(reg, path, id)
  {
    var r := Registered(reg, path, id);
    RegisteredWellFormed(reg, path, id);
    var i := Find(reg, path);
    if i.None? {
      FindUnique(r, path, |reg|);
    } else {
      FindUnique(r, path, i.value);
    }
  }

  /** Registration leaves the listeners of every other path alone. */
  lemma RegisteredElsewhere(reg: Registry, path: string, id: nat, q: string)
    requires WellFormed(reg) && q != path
    ensures Listeners(Registered(reg, path, id), q) == Listeners(reg, q)
  {
    var r := Registered(reg, path, id);
    RegisteredWellFormed(reg, path, id);
    var i := Find(reg, path);
    if i.None? {
      var j := Find(reg, q);
      if j.Some? {
        FindUnique(r, q, j.value);
      } else {
        assert forall k :: 0 <= k < |r| ==> r[k].path != q;
      }
    } else {
      FindSamePaths(reg, r, q);
    }
  }

  /** The registry without the entry at `k`: the others keep their order. */
  lemma DeletedAt(reg: Registry, path: string, k: nat)
    requires WellFormed(reg) && Find(reg, path) == Some(k)
    ensures var d := Deleted(reg, path);
      && |d| == |reg| - 1
      && (forall a :: 0 <= a < |d| ==> d[a] == reg[if a < k then a else a + 1])
      && WellFormed(d)
      && forall a :: 0 <= a < |d| ==> d[a].path != path
  {
    var d := Deleted(reg, path);
    assert d == reg[..k] + reg[k + 1..];
    forall a | 0 <= a < |d| ensures d[a] == reg[if a < k then a else a + 1] {
      if a < k {
        assert d[a] == reg[..k][a];
      } else {
        assert d[a] == reg[k + 1..][a - k];
      }
    }
  }

  /** Deleting a path drops all its listeners and keeps everyone else's. */
  lemma DeletedListeners(reg: Registry, path: string, q: string)
    requires WellFormed(reg)
    ensures WellFormed(Deleted(reg, path))
    ensures Listeners(Deleted(reg, path), path) == []
    ensures q != path ==> Listeners(Deleted(reg, path), q) == Listeners(reg, q)
  {
    var d := Deleted(reg, path);
    var i := Find(reg, path);
    if i.Some? {
      var k := i.value;
      DeletedAt(reg, path, k);
      var j := Find(reg, q);
      if q != path && j.Some? {
        var a := if j.value < k then j.value else j.value - 1;
        assert d[a] == reg[j.value];
        FindUnique(d, q, a);
      } else if q != path {
        assert forall a :: 0 <= a < |d| ==> d[a].path != q;
      }
    }
  }

  /** `getWatcherPaths`: the paths with at least one listener, in
      registry order. */
  function WatchedPaths(reg: Registry): (r: seq<string>)
    ensures forall p :: p in r <==> exists i :: 0 <= i < |reg| && reg[i].path == p && |reg[i].listeners| > 0
  {
    if |reg| == 0 then []
    else
      var rest := WatchedPaths(reg[..|reg| - 1]);
      var last := reg[|reg| - 1];
      assert forall i :: 0 <= i < |reg| - 1 ==> reg[..|reg| - 1][i] == reg[i];
      if |last.listeners| > 0 then rest + [last.path] else rest
  }

  /** No path of the registry has a listener. */
  predicate Silent(reg: Registry)
  {
    forall i :: 0 <= i < |reg| ==> |reg[i].listeners| == 0
  }

  /** The kinds of watch an event type concerns, in the order they are
      notified: data and existence for a data change or a creation,
      child for a children change, data and child for a deletion. */
  function Dispatch(t: Num): (r: Option<seq<Kind>>)
    ensures r.Some? <==> t.Number? && 1 <= t.n <= 4
    ensures r.Some? ==> 1 <= |r.value| <= 2 && (|r.value| == 2 ==> r.value[0] == DataWatch && r.value[1] != DataWatch)
    ensures r.Some? ==> (DataWatch in r.value <==> t.n != Events.NODE_CHILDREN_CHANGED)
    ensures r.Some? ==> (ChildWatch in r.value <==> t.n == Events.NODE_CHILDREN_CHANGED || t.n == Events.NODE_DELETED)
    ensures r.Some? ==> (ExistenceWatch in r.value <==> t.n == Events.NODE_DATA_CHANGED || t.n == Events.NODE_CREATED)
  {
    if t == Number(Events.NODE_DATA_CHANGED) || t == Number(Events.NODE_CREATED) then Some([DataWatch, ExistenceWatch])
    else if t == Number(Events.NODE_CHILDREN_CHANGED) then Some([ChildWatch])
    else if t == Number(Events.NODE_DELETED) then Some([DataWatch, ChildWatch])
    else None
  }

  /** The case labels of `emit`'s switch as the code is written, in the
      switch's order (data changed, created, children changed, deleted).
      The imported Event.js is its module object, whose members are only
      TYPES and the Event class, so every `NODE_*` label is undefined. */
  const LabelsAsWritten: seq<Option<int>> := [None, None, None, None]

  /** `emit`'s switch as written, for a type number read from the wire: a
      case is taken when the number is strictly equal to its label. */
  function DispatchAsWritten(n: int): (r: Option<seq<Kind>>)
    ensures r.Some? <==> exists i :: 0 <= i < |LabelsAsWritten| && LabelsAsWritten[i] == Some(n)
  {
    if LabelsAsWritten[0] == Some(n) || LabelsAsWritten[1] == Some(n) then Some([DataWatch, ExistenceWatch])
    else if LabelsAsWritten[2] == Some(n) then Some([ChildWatch])
    else if LabelsAsWritten[3] == Some(n) then Some([DataWatch, ChildWatch])
    else None
  }

  /** As written, every event type, the four real ones included, reaches
      the `default` branch and is rejected as unknown, while `Dispatch`
      routes exactly the four. */
  lemma EveryTypeUnknownAsWritten(n: int)
    ensures DispatchAsWritten(n).None?
    ensures Dispatch(Number(n)).Some? <==> Events.NODE_CREATED <= n <= Events.NODE_CHILDREN_CHANGED
  {
  }

  /** The registry of kind `k` among the data, child and existence ones. */
  function Pick(k: Kind, data: Registry, child: Registry, existence: Registry): Registry
  {
    match k
    case DataWatch => data
    case ChildWatch => child
    case ExistenceWatch => existence
  }

  /** The registry of a kind after `emit`: the path's emitter is gone
      from it when the event concerns that kind, and it is untouched
      otherwise. */
  function Cleared(kinds: seq<Kind>, k: Kind, reg: Registry, path: string): Registry
  {
    if k in kinds then Deleted(reg, path) else reg
  }

  /** The listeners `emit` notifies: those of the path in each registry
      the event concerns, in the switch's order. */
  function Notified(kinds: seq<Kind>, data: Registry, child: Registry, existence: Registry, path: string): seq<nat>
  {
    if |kinds| == 0 then []
    else Listeners(Pick(kinds[0], data, child, existence), path) + Notified(kinds[1..], data, child, existence, path)
  }

  class WatcherManager {
    var dataWatchers: Registry
    var childWatchers: Registry
    var existenceWatchers: Registry

    ghost predicate Valid()
      reads this
    {
      WellFormed(dataWatchers) && WellFormed(childWatchers) && WellFormed(existenceWatchers)
    }

    function Watchers(k: Kind): Registry
      reads this
    {
      Pick(k, dataWatchers, childWatchers, existenceWatchers)
    }

    constructor ()
      ensures Valid() && dataWatchers == [] && childWatchers == [] && existenceWatchers == []
    {
      dataWatchers, childWatchers, existenceWatchers := [], [], [];
    }

    method SetWatchers(k: Kind, reg: Registry)
      requires Valid() && WellFormed(reg)
      modifies this
      ensures Valid() && Watchers(k) == reg
      ensures dataWatchers == if k == DataWatch then reg else old(dataWatchers)
      ensures childWatchers == if k == ChildWatch then reg else old(childWatchers)
      ensures existenceWatchers == if k == ExistenceWatch then reg else old(existenceWatchers)
    {
      match k
      case DataWatch => dataWatchers := reg;
      case ChildWatch => childWatchers := reg;
      case ExistenceWatch => existenceWatchers := reg;
    }

    /** `registerWatcher(self, kind, path, watcher)` (`registerDataWatcher`,
        `registerChildWatcher`, `registerExistenceWatcher`): `pathValid` is
        the verdict of `Path.validate`; an invalid path or a watcher that
        is not a function is rejected and nothing changes. */
    method Register(k: Kind, path: string, pathValid: bool, watcher: WatcherArg) returns (r: Result<()>)
      requires Valid()
      modifies this
      ensures Valid()
      ensures !pathValid ==> r == Err(BadArgument("path"))
      ensures pathValid && watcher.NotAFunction? ==> r == Err(BadArgument("watcher must be a valid function."))
      ensures r.Ok? <==> pathValid && watcher.Function?
      ensures r.Ok? ==> Watchers(k) == Registered(old(Watchers(k)), path, watcher.id)
      ensures r.Err? ==> Watchers(k) == old(Watchers(k))
      ensures forall j :: j != k ==> Watchers(j) == old(Watchers(j))
    {
      if !pathValid {
        return Err(BadArgument("path"));
      }
      if watcher.NotAFunction? {
        return Err(BadArgument("watcher must be a valid function."));
      }
      RegisteredWellFormed(Watchers(k), path, watcher.id);
      SetWatchers(k, Registered(Watchers(k), path, watcher.id));
      r := Ok(());
    }

    /** `getWatcherPaths(self, kind)`: the forEach over the registry's
        paths keeping those with a listener. */
    method GetWatcherPaths(k: Kind) returns (result: seq<string>)
      ensures result == WatchedPaths(Watchers(k))
    {
      var reg := Watchers(k);
      result := [];
      for i := 0 to |reg|
        invariant result == WatchedPaths(reg[..i])
      {
        assert reg[..i + 1][..i] == reg[..i];
        if |reg[i].listeners| > 0 {
          result := result + [reg[i].path];
        }
      }
      assert reg[..|reg|] == reg;
    }

    /** `isEmpty()`: the nested loops over the data, existence and child
        registries, clearing the flag at a path with a listener. */
    method IsEmpty() returns (empty: bool)
      ensures empty <==> Silent(dataWatchers) && Silent(existenceWatchers) && Silent(childWatchers)
    {
      var watchers := [dataWatchers, existenceWatchers, childWatchers];
      ghost var was := watchers;
      empty := true;
      for i := 0 to 3
        invariant empty <==> forall a :: 0 <= a < i ==> Silent(watchers[a])
      {
        var paths := watchers[i];
        var j := 0;
        while j < |paths|
          invariant 0 <= j <= |paths|
          invariant forall b :: 0 <= b < j ==> |paths[b].listeners| == 0
        {
          if |paths[j].listeners| > 0 {
            empty := false;
            break;
          }
          j := j + 1;
        }
      }
      assert was[0] == dataWatchers && was[1] == existenceWatchers && was[2] == childWatchers;
    }

    /** Under Valid every watched path has a listener, so the registry is
        empty exactly when no path is watched. */
    lemma EmptyMeansNoPaths()
      requires Valid()
      ensures Silent(dataWatchers) && Silent(existenceWatchers) && Silent(childWatchers) <==>
        |dataWatchers| == 0 && |existenceWatchers| == 0 && |childWatchers| == 0
    {
      if |dataWatchers| > 0 {
        assert |dataWatchers[0].listeners| > 0;
      }
      if |existenceWatchers| > 0 {
        assert |existenceWatchers[0].listeners| > 0;
      }
      if |childWatchers| > 0 {
        assert |childWatchers[0].listeners| > 0;
      }
    }

    /** `emit(watcherEvent)`: a missing event or an event type outside the
        switch fails and nothing changes. Otherwise the emitters of the
        path are taken out of the registries the type concerns; when there
        were none, nothing is notified and no Event is built. When there
        were some, the Event is built from the watcher event and every
        listener they held is notified once with it, in the switch's
        order. */
    method Emit(types: Table, watcherEvent: Option<Events.WatcherEvent>)
      returns (r: Result<seq<nat>>, event: Events.Event?)
      requires Valid()
      modifies this
      ensures Valid()
      ensures watcherEvent.None? ==> r == Err(BadArgument("watcherEvent must be a valid object."))
      ensures watcherEvent.Some? && Dispatch(watcherEvent.value.eventType).None? ==> r == Err(UnknownType)
      ensures watcherEvent.None? || Dispatch(watcherEvent.value.eventType).None? ==>
        dataWatchers == old(dataWatchers) && childWatchers == old(childWatchers)
        && existenceWatchers == old(existenceWatchers)
      ensures watcherEvent.Some? && Dispatch(watcherEvent.value.eventType).Some? ==>
        var path, t, kinds := watcherEvent.value.path, watcherEvent.value.eventType, Dispatch(watcherEvent.value.eventType).value;
        var all := Notified(kinds, old(dataWatchers), old(childWatchers), old(existenceWatchers), path);
        && dataWatchers == Cleared(kinds, DataWatch, old(dataWatchers), path)
        && childWatchers == Cleared(kinds, ChildWatch, old(childWatchers), path)
        && existenceWatchers == Cleared(kinds, ExistenceWatch, old(existenceWatchers), path)
        && (|all| == 0 ==> r == Ok([]) && event == null)
        && (|all| > 0 && Events.ValidateType(types, t).Err? ==> r == Err(Events.ValidateType(types, t).error))
        && (|all| > 0 && Events.ValidateType(types, t).Ok? && (forall i: nat :: FirstWith(types, i, t.n) ==> |types[i].0| > 0) ==>
              r == Ok(all))
        && (|all| > 0 && Events.ValidateType(types, t).Ok? && r.Err? ==>
              exists i: nat :: FirstWith(types, i, t.n) && types[i].0 == "")
        && (types == Events.EventTypes && |all| > 0 ==> r == Ok(all))
        && (r.Ok? ==> r.value == all)
        && (r.Ok? && |all| > 0 ==>
              && event != null && event.path == path && event.eventType == t.n
              && exists i: nat :: FirstWith(types, i, t.n) && types[i].0 == event.name)
    {
      event := null;
      if watcherEvent.None? {
        return Err(BadArgument("watcherEvent must be a valid object.")), null;
      }
      var we := watcherEvent.value;
      var kinds := Dispatch(we.eventType);
      if kinds.None? {
        return Err(UnknownType), null;
      }
      var ks := kinds.value;
      ghost var d, c, x := dataWatchers, childWatchers, existenceWatchers;
      var notified := TakeAll(ks, we.path);
      assert notified == Notified(ks, d, c, x, we.path);
      if |notified| == 0 {
        return Ok([]), null;
      }
      var e := Events.Create(types, watcherEvent);
      if types == Events.EventTypes {
        Events.KnownTypesNamed(we.eventType);
      }
      if e.Err? {
        return Err(e.error), null;
      }
      r, event := Ok(notified), e.value;
    }

    /** The switch of `emit` for the kinds `kinds` (one or two different
        ones): each emitter of `path` is taken out of its registry and its
        listeners are added to the ones to notify. */
    method TakeAll(kinds: seq<Kind>, path: string) returns (notified: seq<nat>)
      requires Valid() && 1 <= |kinds| <= 2 && (|kinds| == 2 ==> kinds[0] != kinds[1])
      modifies this
      ensures Valid()
      ensures dataWatchers == Cleared(kinds, DataWatch, old(dataWatchers), path)
      ensures childWatchers == Cleared(kinds, ChildWatch, old(childWatchers), path)
      ensures existenceWatchers == Cleared(kinds, ExistenceWatch, old(existenceWatchers), path)
      ensures notified == Notified(kinds, old(dataWatchers), old(childWatchers), old(existenceWatchers), path)
    {
      ghost var d, c, x := dataWatchers, childWatchers, existenceWatchers;
      ghost var l0 := Listeners(Pick(kinds[0], d, c, x), path);
      notified := Take(kinds[0], path, []);
      assert [] + l0 == l0;
      if |kinds| == 2 {
        ghost var l1 := Listeners(Pick(kinds[1], d, c, x), path);
        notified := Take(kinds[1], path, notified);
        NotifiedTwo(kinds, d, c, x, path);
        ClearedTwice(kinds, DataWatch, d, path);
        ClearedTwice(kinds, ChildWatch, c, path);
        ClearedTwice(kinds, ExistenceWatch, x, path);
      } else {
        NotifiedOne(kinds, d, c, x, path);
        assert kinds == [kinds[0]];
      }
    }

    /** One case of the switch: when `kind` holds an emitter for `path`,
        it is taken out of the registry and its listeners join the ones
        to notify. */
    method Take(k: Kind, path: string, notified: seq<nat>) returns (notified': seq<nat>)
      requires Valid()
      modifies this
      ensures Valid()
      ensures dataWatchers == Cleared([k], DataWatch, old(dataWatchers), path)
      ensures childWatchers == Cleared([k], ChildWatch, old(childWatchers), path)
      ensures existenceWatchers == Cleared([k], ExistenceWatch, old(existenceWatchers), path)
      ensures notified' == notified + Listeners(old(Watchers(k)), path)
    {
      var reg := Watchers(k);
      var i := Find(reg, path);
      DeletedListeners(reg, path, path);
      assert forall j :: j in [k] <==> j == k;
      notified' := notified;
      if i.Some? {
        notified' := notified + reg[i.value].listeners;
        SetWatchers(k, Deleted(reg, path));
      } else {
        assert notified + [] == notified;
        assert Deleted(reg, path) == reg;
      }
    }
  }

  /** Two cases of the switch for two different kinds clear each
      registry as the pair does. */
  lemma ClearedTwice(kinds: seq<Kind>, k: Kind, reg: Registry, path: string)
    requires |kinds| == 2 && kinds[0] != kinds[1]
    ensures Cleared([kinds[1]], k, Cleared([kinds[0]], k, reg, path), path) == Cleared(kinds, k, reg, path)
  {
    assert k in kinds <==> k == kinds[0] || k == kinds[1];
  }

  lemma NotifiedOne(kinds: seq<Kind>, data: Registry, child: Registry, existence: Registry, path: string)
    requires |kinds| == 1
    ensures Notified(kinds, data, child, existence, path) == Listeners(Pick(kinds[0], data, child, existence), path)
  {
    var l0 := Listeners(Pick(kinds[0], data, child, existence), path);
    assert kinds[1..] == [];
    assert l0 + [] == l0;
  }

  lemma NotifiedTwo(kinds: seq<Kind>, data: Registry, child: Registry, existence: Registry, path: string)
    requires |kinds| == 2
    ensures Notified(kinds, data, child, existence, path) ==
      Listeners(Pick(kinds[0], data, child, existence), path) + Listeners(Pick(kinds[1], data, child, existence), path)
  {
    assert kinds[1..][0] == kinds[1];
    NotifiedOne(kinds[1..], data, child, existence, path);
  }

  /** A path of a WellFormed registry has a listener exactly when it is
      watched. */
  lemma ListenersWhenWatched(reg: Registry, path: string)
    requires WellFormed(reg)
    ensures |Listeners(reg, path)| > 0 <==> Find(reg, path).Some?
  {
  }

  /** Under WellFormed registries the event finds an emitter exactly when
      there is a listener to notify. */
  lemma {:induction false} NotifiedNonEmpty(kinds: seq<Kind>, data: Registry, child: Registry, existence: Registry, path: string)
    requires WellFormed(data) && WellFormed(child) && WellFormed(existence)
    ensures |Notified(kinds, data, child, existence, path)| > 0 <==>
      exists i :: 0 <= i < |kinds| && Find(Pick(kinds[i], data, child, existence), path).Some?
  {
    if |kinds| > 0 {
      var head := Pick(kinds[0], data, child, existence);
      NotifiedNonEmpty(kinds[1..], data, child, existence, path);
      ListenersWhenWatched(head, path);
      WatchedShift(kinds, data, child, existence, path);
    }
  }

  /** Some kind of `kinds` has an emitter for `path` exactly when the first
      one has, or one of the others. */
  lemma WatchedShift(kinds: seq<Kind>, data: Registry, child: Registry, existence: Registry, path: string)
    requires |kinds| > 0
    ensures (exists i :: 0 <= i < |kinds| && Find(Pick(kinds[i], data, child, existence), path).Some?) <==>
      (Find(Pick(kinds[0], data, child, existence), path).Some?
       || exists i :: 0 <= i < |kinds[1..]| && Find(Pick(kinds[1..][i], data, child, existence), path).Some?)
  {
    assert forall i :: 1 <= i < |kinds| ==> kinds[1..][i - 1] == kinds[i];
  }
}
