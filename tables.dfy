/** The constant name-to-number tables of Exception.ts (EXCEPTION_CODES)
    and Event.ts (TYPES), and the two things both files do with them:
    check that a number is one of the table's values (`validateCode`,
    `validateType`) and find the first key holding a value (the `while`
    loops of the two `create` factories). */
module CodeTables {
  import opened Wire
  import opened Text

  /** A table's keys in `Object.keys` order, each with its value. */
  type Table = seq<(string, int)>

  /** The runtime kind of an argument that must be a number. */
  datatype Num = Number(n: int) | NotANumber

  predicate Defined(table: Table, v: int)
  {
    exists i :: 0 <= i < |table| && table[i].1 == v
  }

  /** `Object.keys(table).some(name => table[name] === v)`, key by key. */
  function AnyKeyHas(table: Table, v: int): (b: bool)
    ensures b <==> Defined(table, v)
  {
    if |table| == 0 then false
    else if table[0].1 == v then true
    else
      var rest := AnyKeyHas(table[1..], v);
      assert rest ==> exists i :: 0 <= i < |table| && table[i].1 == v by {
        if rest {
          var i :| 0 <= i < |table[1..]| && table[1..][i].1 == v;
          assert table[i + 1].1 == v;
        }
      }
      rest
  }

  /** The check of `validateCode` (`what` is "code") and `validateType`
      (`what` is "type"): a number that is one of the table's values
      passes, anything else fails with the check's message. */
  function Validate(what: string, table: Table, x: Num): (r: Result<int>)
    ensures r.Ok? <==> x.Number? && Defined(table, x.n)
    ensures r.Ok? ==> r.value == x.n
    ensures x.NotANumber? ==> r == Err(BadArgument(what + " must be a number."))
    ensures x.Number? && !Defined(table, x.n) ==> r == Err(BadArgument("Unknown " + what + ": " + IntString(x.n)))
  {
    if x.NotANumber? then Err(BadArgument(what + " must be a number."))
    else if !AnyKeyHas(table, x.n) then Err(BadArgument("Unknown " + what + ": " + IntString(x.n)))
    else Ok(x.n)
  }

  /** Entry `i` is the first one holding `v`. */
  predicate FirstWith(table: Table, i: nat, v: int)
  {
    i < |table| && table[i].1 == v && forall j :: 0 <= j < i ==> table[j].1 != v
  }

  /** The name loop of `create`: the key of the first entry whose value is
      `v`, or none when no entry has it. */
  method FindKey(table: Table, v: int) returns (name: Option<string>, ghost at: nat)
    ensures name.None? <==> !Defined(table, v)
    ensures name.Some? ==> FirstWith(table, at, v) && table[at].0 == name.value
  {
    name := None;
    var i := 0;
    while i < |table|
      invariant 0 <= i <= |table|
      invariant forall j :: 0 <= j < i ==> table[j].1 != v
    {
      if table[i].1 == v {
        name, at := Some(table[i].0), i;
        return;
      }
      i := i + 1;
    }
    at := 0;
  }

  /** In a table whose values are pairwise different, the first entry
      holding a value is the only one. */
  lemma FirstIsOnly(table: Table, i: nat, k: nat, v: int)
    requires forall a, b :: 0 <= a < b < |table| ==> table[a].1 != table[b].1
    requires FirstWith(table, i, v) && k < |table| && table[k].1 == v
    ensures i == k
  {
  }
}
