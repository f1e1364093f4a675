/** The jute record class and the module-level `serialize` / `deserialize`
    of record.ts, as methods over a byte array proved against the codec
    functions of JuteCodec. */
module JuteRecord {
  import opened Wire
  import opened JuteCodec
  import opened Buffers

  // ---------------------------------------------------------------------
  // byteLengthImpl and byteLength (record.ts:100-125, 228-273)

  /** `byteLengthImpl(type, value)`: the bytes the field will take. */
  method FieldLength(t: TypeTag, v: Value) returns (size: nat)
    requires HasType(t, v)
    ensures size == FieldSize(t, v)
    decreases t, 0
  {
    match t
    case Int => size := 4;
    case Long => size := 8;
    case Buffer => size := 4; if v.BufferV? { size := size + |v.bytes|; }
    case UString => size := 4; if v.StringV? { size := size + |v.bytes|; }
    case Boolean => size := 1;
    case Vector(e) => size := VectorLength(e, v);
    case Data(_, fs) =>
      WireValuesUnset(fs, v.fields);
      size := RecordLength(fs, [], v.fields);
  }

  /** The vector case of `byteLengthImpl`: the count prefix and each item's size. */
  method VectorLength(e: TypeTag, v: Value) returns (size: nat)
    requires HasType(Vector(e), v)
    ensures size == FieldSize(Vector(e), v)
    decreases e, 2
  {
    size := 4;
    if v.VectorV? {
      var items := v.items;
      for i := 0 to |items|
        invariant ItemsTyped(e, items[i..])
        invariant size - 4 + |EncodeItems(e, items[i..])| == |EncodeItems(e, items)|
      {
        EncodeItemsFrom(e, items, i);
        var n := FieldLength(e, items[i]);
        size := size + n;
      }
    }
  }

  /** `byteLength` of a record with field table `fs`, chroot `chroot` and
      field values `vals`: the fields as serialize will write them, with
      the same chroot rewriting. */
  method RecordLength(fs: seq<FieldSpec>, chroot: seq<byte>, vals: seq<Value>) returns (size: nat)
    requires |fs| == |vals| && FieldsTyped(fs, WireValues(fs, chroot, vals))
    ensures size == FieldsSize(fs, WireValues(fs, chroot, vals))
    decreases fs, 1
  {
    ghost var ws := WireValues(fs, chroot, vals);
    size := 0;
    for i := 0 to |fs|
      invariant FieldsTyped(fs[i..], ws[i..])
      invariant size + |EncodeFields(fs[i..], ws[i..])| == |EncodeFields(fs, ws)|
    {
      EncodeFieldsFrom(fs, ws, i);
      var value := WireValue(chroot, fs[i], vals[i]);
      var n := FieldLength(fs[i].tag, value);
      size := size + n;
    }
  }

  /** Without a chroot nothing is rewritten. */
  lemma WireValuesUnset(fs: seq<FieldSpec>, vals: seq<Value>)
    requires |fs| == |vals|
    ensures WireValues(fs, [], vals) == vals
  {
    forall i | 0 <= i < |vals| ensures WireValue([], fs[i], vals[i]) == vals[i] {
      if fs[i].name != PathField && fs[i].name in WatchFields && vals[i].VectorV? {
        assert VectorV(seq(|vals[i].items|, k requires 0 <= k < |vals[i].items| => PrependChroot([], vals[i].items[k]))) == vals[i];
      }
    }
  }

  // ---------------------------------------------------------------------
  // Module-level serialize (record.ts:278-350)

  /** `serialize(type, value, buffer, offset)`: writes the field's encoding
      at `off`, changes no other byte and returns the bytes written. */
  method WriteField(t: TypeTag, v: Value, buf: array<byte>, off: nat) returns (n: nat)
    requires WfTag(t) && HasType(t, v) && off + |Encode(t, v)| <= buf.Length
    modifies buf
    ensures n == |Encode(t, v)|
    ensures buf[..] == Splice(old(buf[..]), off, Encode(t, v))
    decreases t, 0
  {
    match t
    case Int =>
      WriteInt32(buf, off, v.i);
      n := 4;
    case Long =>
      CopyInto(buf, off, v.bytes);
      n := 8;
    case Buffer =>
      if v.BufferV? {
        n := WriteSized(v.bytes, buf, off);
      } else {
        WriteInt32(buf, off, -1);
        n := 4;
      }
    case UString =>
      if v.StringV? {
        n := WriteSized(v.bytes, buf, off);
      } else {
        WriteInt32(buf, off, -1);
        n := 4;
      }
    case Boolean =>
      ghost var before := buf[..];
      buf[off] := if v.b then 1 else 0;
      SpliceOne(before, off, if v.b then 1 else 0);
      n := 1;
    case Vector(e) =>
      n := WriteVector(e, v, buf, off);
    case Data(_, fs) =>
      EncodeNonEmpty(t, v);
      WireValuesUnset(fs, v.fields);
      var r := WriteRecord(fs, [], v.fields, buf, off);
      n := r.value;
  }

  /** A length-prefixed buffer or ustring: the length, then the bytes. */
  method WriteSized(data: seq<byte>, buf: array<byte>, off: nat) returns (n: nat)
    requires |data| <= MaxInt32 && off + 4 + |data| <= buf.Length
    modifies buf
    ensures n == 4 + |data|
    ensures buf[..] == Splice(old(buf[..]), off, Int32BE(|data|) + data)
  {
    ghost var b0 := buf[..];
    WriteInt32(buf, off, |data|);
    CopyInto(buf, off + 4, data);
    SpliceTwice(b0, off, Int32BE(|data|), data);
    n := 4 + |data|;
  }

  /** The vector case: the count, then the items; an absent vector is
      the count -1. */
  method WriteVector(e: TypeTag, v: Value, buf: array<byte>, off: nat) returns (n: nat)
    requires WfTag(e) && HasType(Vector(e), v) && off + |Encode(Vector(e), v)| <= buf.Length
    modifies buf
    ensures n == |Encode(Vector(e), v)|
    ensures buf[..] == Splice(old(buf[..]), off, Encode(Vector(e), v))
    decreases e, 2
  {
    if !v.VectorV? {
      WriteInt32(buf, off, -1);
      return 4;
    }
    ghost var b0 := buf[..];
    WriteInt32(buf, off, |v.items|);
    var w := WriteItems(e, v.items, buf, off + 4);
    SpliceTwice(b0, off, Int32BE(|v.items|), EncodeItems(e, v.items));
    n := 4 + w;
  }

  /** The `forEach` over the items: each written at the running offset. */
  method WriteItems(e: TypeTag, items: seq<Value>, buf: array<byte>, off: nat) returns (n: nat)
    requires WfTag(e) && ItemsTyped(e, items) && off + |EncodeItems(e, items)| <= buf.Length
    modifies buf
    ensures n == |EncodeItems(e, items)|
    ensures buf[..] == Splice(old(buf[..]), off, EncodeItems(e, items))
    decreases e, 1
  {
    ghost var b0 := buf[..];
    ghost var whole := EncodeItems(e, items);
    ghost var done: seq<byte> := [];
    n := 0;
    SpliceNothing(b0, off);
    for i := 0 to |items|
      invariant ItemsTyped(e, items[i..])
      invariant done + EncodeItems(e, items[i..]) == whole
      invariant n == |done|
      invariant buf[..] == Splice(b0, off, done)
    {
      var w := WriteItem(e, items, i, buf, off, off + n, b0, done);
      done := done + Encode(e, items[i]);
      n := n + w;
    }
    assert done == whole;
  }

  /** One round of that loop: item `i` written after the bytes `done`
      already written from `off`. */
  method WriteItem(e: TypeTag, items: seq<Value>, i: nat, buf: array<byte>, off: nat, at: nat,
                   ghost b0: seq<byte>, ghost done: seq<byte>) returns (w: nat)
    requires WfTag(e) && i < |items| && ItemsTyped(e, items[i..])
    requires at == off + |done| && |b0| == buf.Length && at + |EncodeItems(e, items[i..])| <= buf.Length
    requires buf[..] == Splice(b0, off, done)
    modifies buf
    ensures ItemsTyped(e, items[i + 1..])
    ensures done + Encode(e, items[i]) + EncodeItems(e, items[i + 1..]) == done + EncodeItems(e, items[i..])
    ensures w == |Encode(e, items[i])|
    ensures buf[..] == Splice(b0, off, done + Encode(e, items[i]))
    decreases e, 1, 0
  {
    EncodeItemsFrom(e, items, i);
    ConcatAssoc(done, Encode(e, items[i]), EncodeItems(e, items[i + 1..]));
    w := WriteField(e, items[i], buf, at);
    SpliceTwice(b0, off, done, Encode(e, items[i]));
  }

  /** `Record.serialize` (record.ts:135-177) of a record with field table
      `fs`, chroot `chroot` and values `vals`: an offset outside the buffer
      and a record that does not fit are errors and write nothing;
      otherwise the fields are written one after the other, each after the
      chroot rewriting, and the record's `byteLength` is returned. */
  method WriteRecord(fs: seq<FieldSpec>, chroot: seq<byte>, vals: seq<Value>, buf: array<byte>, offset: int)
    returns (r: Result<nat>)
    requires TagsWf(fs) && |fs| == |vals| && FieldsTyped(fs, WireValues(fs, chroot, vals))
    modifies buf
    ensures offset < 0 || offset >= buf.Length ==> r == Err(OutOfRange) && buf[..] == old(buf[..])
    ensures 0 <= offset < buf.Length && offset + |EncodeFields(fs, WireValues(fs, chroot, vals))| > buf.Length
      ==> r == Err(NotEnoughSpace) && buf[..] == old(buf[..])
    ensures 0 <= offset < buf.Length && offset + |EncodeFields(fs, WireValues(fs, chroot, vals))| <= buf.Length
      ==> r == Ok(|EncodeFields(fs, WireValues(fs, chroot, vals))|)
          && buf[..] == Splice(old(buf[..]), offset, EncodeFields(fs, WireValues(fs, chroot, vals)))
    decreases fs, 2
  {
    if offset < 0 || offset >= buf.Length {
      return Err(OutOfRange);
    }
    var size := RecordLength(fs, chroot, vals);
    if offset + size > buf.Length {
      return Err(NotEnoughSpace);
    }
    ghost var ws := WireValues(fs, chroot, vals);
    ghost var whole := EncodeFields(fs, ws);
    ghost var b0 := buf[..];
    ghost var done: seq<byte> := [];
    SpliceNothing(b0, offset);
    TagsWfIff(fs);
    var at: nat := offset;
    for i := 0 to |fs|
      invariant FieldsTyped(fs[i..], ws[i..])
      invariant done + EncodeFields(fs[i..], ws[i..]) == whole
      invariant at == offset + |done|
      invariant buf[..] == Splice(b0, offset, done)
    {
      var w := WriteRecordField(fs, chroot, vals, i, buf, offset, at, ws, b0, done);
      done := done + Encode(fs[i].tag, ws[i]);
      at := at + w;
    }
    assert done == whole;
    return Ok(size);
  }

  /** One round of that loop: field `i`, after the chroot rewriting,
      written after the bytes `done` already written from `offset`. */
  method WriteRecordField(fs: seq<FieldSpec>, chroot: seq<byte>, vals: seq<Value>, i: nat, buf: array<byte>,
                          offset: nat, at: nat, ghost ws: seq<Value>, ghost b0: seq<byte>, ghost done: seq<byte>)
    returns (w: nat)
    requires |fs| == |vals| && i < |fs| && ws == WireValues(fs, chroot, vals)
    requires WfTag(fs[i].tag) && FieldsTyped(fs[i..], ws[i..])
    requires at == offset + |done| && |b0| == buf.Length && at + |EncodeFields(fs[i..], ws[i..])| <= buf.Length
    requires buf[..] == Splice(b0, offset, done)
    modifies buf
    ensures FieldsTyped(fs[i + 1..], ws[i + 1..])
    ensures done + Encode(fs[i].tag, ws[i]) + EncodeFields(fs[i + 1..], ws[i + 1..]) == done + EncodeFields(fs[i..], ws[i..])
    ensures w == |Encode(fs[i].tag, ws[i])|
    ensures buf[..] == Splice(b0, offset, done + Encode(fs[i].tag, ws[i]))
    decreases fs, 1
  {
    EncodeFieldsFrom(fs, ws, i);
    ConcatAssoc(done, Encode(fs[i].tag, ws[i]), EncodeFields(fs[i + 1..], ws[i + 1..]));
    var value := WireValue(chroot, fs[i], vals[i]);
    w := WriteField(fs[i].tag, value, buf, at);
    SpliceTwice(b0, offset, done, Encode(fs[i].tag, ws[i]));
  }
  // ---------------------------------------------------------------------
  // Module-level deserialize (record.ts:352-436)
  //
  // Reading never changes the buffer, so the readers take its contents
  // `buf` as a sequence.

  /** `deserialize(type, buffer, offset)`: the value read at `off` and the
      bytes it took, or the error a read out of range (or a negative
      length) throws. */
  method ReadField(t: TypeTag, buf: seq<byte>, off: nat) returns (r: Result<(Value, nat)>)
    ensures r == Decode(t, buf, off)
    decreases t, 0
  {
    match t
    case Int =>
      var n :- ReadInt32Of(buf, off);
      r := Ok((IntV(n), 4));
    case Long =>
      if off > |buf| {
        return Err(OutOfRange);
      }
      r := Ok((LongV(Padded(Clamp(buf, off, off + 8), 8)), 8));
    case Buffer =>
      var length :- ReadInt32Of(buf, off);
      if length == -1 {
        r := Ok((Absent, 4));
      } else if length < 0 {
        r := Err(BadLength);
      } else {
        var n: nat := 4 + length as int;
        r := Ok((BufferV(Padded(Clamp(buf, off + 4, off + 4 + length), length)), n));
      }
    case UString =>
      var length :- ReadInt32Of(buf, off);
      if length == -1 {
        r := Ok((Absent, 4));
      } else if length < 0 {
        r := Err(BadLength);
      } else {
        var n: nat := 4 + length as int;
        r := Ok((StringV(Clamp(buf, off + 4, off + 4 + length)), n));
      }
    case Boolean =>
      if off >= |buf| {
        return Err(OutOfRange);
      }
      r := Ok((BoolV(buf[off] == 1), 1));
    case Vector(e) =>
      r := ReadVector(e, buf, off);
    case Data(_, fs) =>
      var value := new Record(fs, []);
      var n := value.Deserialize(buf, off);
      if n.Err? {
        return Err(n.error);
      }
      r := Ok((RecordV(value.values), n.value));
  }

  /** Storing `v` at `i` after the values `acc` keeps them and extends them by `v`. */
  lemma StoredPrefix<T>(s: seq<T>, i: nat, v: T, acc: seq<T>)
    requires i < |s| && s[..i] == acc
    ensures s[i := v][..i] == acc && s[i := v][..i + 1] == acc + [v]
  {
    assert s[i := v][..i + 1] == s[i := v][..i] + [v];
  }

  /** Field i, still holding its old value, is overwritten. */
  lemma OverwriteOld<T>(s: seq<T>, i: nat, v: T, acc: seq<T>, o: seq<T>)
    requires |acc| == i < |o| && s == acc + o[i..]
    ensures s[i := v] == acc + [v] + o[i + 1..]
  {
    assert o[i..] == [o[i]] + o[i + 1..];
  }

  /** Field i, already overwritten once, is overwritten again. */
  lemma OverwriteNew<T>(s: seq<T>, i: nat, v: T, w: T, acc: seq<T>, o: seq<T>)
    requires |acc| == i < |o| && s == acc + [w] + o[i + 1..]
    ensures s[i := v] == acc + [v] + o[i + 1..]
  {
  }

  /** A value taken from the front of the rest joins what is in front. */
  lemma MoveFront<T>(acc: seq<T>, v: T, rest: seq<T>, whole: seq<T>)
    requires acc + ([v] + rest) == whole
    ensures (acc + [v]) + rest == whole
  {
    assert acc + ([v] + rest) == (acc + [v]) + rest;
  }

  /** `s` is `part` written over the front of `o`. */
  predicate Overlaid(s: seq<Value>, part: seq<Value>, o: seq<Value>)
  {
    |part| <= |o| && s == part + o[|part|..]
  }

  /** The loop stops at a field it cannot read: what was stored so far
      lies over the old values. */
  lemma StopAtRead(s: seq<Value>, acc: seq<Value>, o: seq<Value>, stopped: seq<Value>, rest: seq<Value>)
    requires |acc| <= |o| && s == acc + o[|acc|..] && stopped == acc + rest && rest == []
    ensures Overlaid(s, stopped, o)
  {
    assert stopped == acc;
  }

  /** The loop stops at a path it cannot strip, the raw value stored. */
  lemma StopAtStrip(s: seq<Value>, acc: seq<Value>, w: Value, o: seq<Value>, stopped: seq<Value>, rest: seq<Value>)
    requires |acc| < |o| && s == acc + [w] + o[|acc| + 1..] && stopped == acc + rest && rest == [w]
    ensures Overlaid(s, stopped, o)
  {
  }

  /** A finished read puts exactly what is in front. */
  lemma PrefixedDone<T>(acc: seq<T>, read: nat, r: Result<(seq<T>, nat)>)
    requires r == Ok(([], 0))
    ensures Prefixed(acc, read, r) == Ok((acc, read))
  {
    assert acc + [] == acc;
  }

  /** Nothing in front of a read leaves it as it is. */
  lemma PrefixedNothing<T>(r: Result<(seq<T>, nat)>)
    ensures Prefixed([], 0, r) == r
  {
    if r.Ok? {
      assert [] + r.value.0 == r.value.0;
    }
  }

  /** The vector case: the count, then that many items; the count -1 is
      an absent vector. */
  method ReadVector(e: TypeTag, buf: seq<byte>, off: nat) returns (r: Result<(Value, nat)>)
    ensures r == Decode(Vector(e), buf, off)
    decreases e, 2
  {
    var count :- ReadInt32Of(buf, off);
    if count == -1 {
      return Ok((Absent, 4));
    }
    var items := ReadItems(e, buf, off + 4, count);
    if items.Err? {
      DecodeVectorErr(e, buf, off, count);
      return Err(items.error);
    }
    DecodeVectorOk(e, buf, off, count, items.value);
    r := Ok((VectorV(items.value.0), 4 + items.value.1));
  }

  /** The `while (length > 0)` loop: one item at a time at the running
      offset, `length` counting down from `count`. */
  method ReadItems(e: TypeTag, buf: seq<byte>, at: nat, count: int) returns (r: Result<(seq<Value>, nat)>)
    ensures r == DecodeItems(e, buf, at, count)
    decreases e, 1
  {
    var items: seq<Value> := [];
    var bytesRead: nat := 0;
    var length := count;
    ghost var whole := DecodeItems(e, buf, at, count);
    PrefixedNothing(whole);
    while length > 0
      invariant Prefixed(items, bytesRead, DecodeItems(e, buf, at + bytesRead, length)) == whole
      decreases length
    {
      var result := ReadField(e, buf, at + bytesRead);
      if result.Err? {
        ItemsLoopErr(e, buf, at, length, items, bytesRead);
        return Err(result.error);
      }
      ghost var acc, read, left := items, bytesRead, length;
      items := items + [result.value.0];
      bytesRead := bytesRead + result.value.1;
      length := length - 1;
      ItemsLoopNext(e, buf, at, left, acc, read, result.value.0, result.value.1, items, bytesRead, length);
    }
    PrefixedDone(items, bytesRead, DecodeItems(e, buf, at + bytesRead, length));
    r := Ok((items, bytesRead));
  }

  /** One round of the field loop of `Record.deserialize`: the first field
      of `fs` read at `at + read` (`raw`), the value stored for it
      (`stored`, the path stripped of the chroot when one is set) and the
      bytes read after it (`next`); and how the rest of the read goes on
      from there. */
  method ReadStored(fs: seq<FieldSpec>, chroot: seq<byte>, buf: seq<byte>, at: nat, ghost acc: seq<Value>, read: nat)
    returns (raw: Result<(Value, nat)>, stored: Result<Value>, next: nat)
    requires |fs| > 0
    ensures raw == Decode(fs[0].tag, buf, at + read)
    ensures raw.Err? ==> Prefixed(acc, read, DecodeFields(fs, chroot, buf, at + read)) == Err(raw.error)
    ensures raw.Ok? ==> stored == ReadBack(chroot, fs[0], raw.value.0) && next == read + raw.value.1
    ensures raw.Ok? && stored.Err? ==> Prefixed(acc, read, DecodeFields(fs, chroot, buf, at + read)) == Err(stored.error)
    ensures raw.Ok? && stored.Ok? ==>
      Prefixed(acc, read, DecodeFields(fs, chroot, buf, at + read))
      == Prefixed(acc + [stored.value], next, DecodeFields(fs[1..], chroot, buf, at + next))
    ensures raw.Err? ==> StoredBeforeError(fs, chroot, buf, at + read) == []
    ensures raw.Ok? && stored.Err? ==> StoredBeforeError(fs, chroot, buf, at + read) == [raw.value.0]
    ensures raw.Ok? && stored.Ok? ==>
      StoredBeforeError(fs, chroot, buf, at + read) == [stored.value] + StoredBeforeError(fs[1..], chroot, buf, at + next)
    decreases fs, 1
  {
    raw := ReadField(fs[0].tag, buf, at + read);
    if raw.Err? {
      FieldsLoopErr(fs, chroot, buf, at, acc, read);
      return raw, Err(raw.error), read;
    }
    stored := Ok(raw.value.0);
    next := read + raw.value.1;
    if chroot != [] && fs[0].name == PathField {
      stored := StripChroot(chroot, raw.value.0);
      if stored.Err? {
        FieldsLoopStripErr(fs, chroot, buf, at, acc, read, raw.value.0, raw.value.1);
        return;
      }
    }
    FieldsLoopNext(fs, chroot, buf, at, acc, read, raw.value.0, raw.value.1, stored.value, acc + [stored.value], next);
  }

  /** What the field loop of `Record.deserialize` has stored when it
      stops at an error: the values of the fields read and stored in full,
      then the raw value of a field whose chroot strip failed. */
  function StoredBeforeError(fs: seq<FieldSpec>, chroot: seq<byte>, s: seq<byte>, at: nat): (part: seq<Value>)
    ensures |part| <= |fs|
    decreases |fs|
  {
    if |fs| == 0 then []
    else match Decode(fs[0].tag, s, at)
      case Err(_) => []
      case Ok(p) => match ReadBack(chroot, fs[0], p.0)
        case Err(_) => [p.0]
        case Ok(v) => [v] + StoredBeforeError(fs[1..], chroot, s, at + p.1)
  }

  // ---------------------------------------------------------------------
  // The record class (record.ts:17-276)

  /** A jute record: its field table, the field values (`this[name]`), and
      the chroot path its `path` and watch fields are rewritten with ('' is
      unset). */
  class Record {
    var spec: seq<FieldSpec>
    var values: seq<Value>
    var chrootPath: seq<byte>

    /** One value per field. */
    ghost predicate Valid()
      reads this
    {
      |values| == |spec|
    }

    /** The constructor: field i takes argument i when it has the kind the
        field's type checks for, and its default otherwise; the chroot is
        unset. */
    constructor (spec: seq<FieldSpec>, args: seq<Arg>)
      ensures this.spec == spec && values == Initials(spec, args) && chrootPath == []
      ensures Valid()
    {
      var vals: seq<Value> := [];
      for i := 0 to |spec|
        invariant |vals| == i
        invariant forall j :: 0 <= j < i ==> vals[j] == Initial(spec[j].tag, ArgAt(args, j))
      {
        vals := vals + [Initial(spec[i].tag, ArgAt(args, i))];
      }
      forall j | 0 <= j < |spec| ensures vals[j] == Initials(spec, args)[j] {
        InitialsAt(spec, args, j);
      }
      this.spec := spec;
      values := vals;
      chrootPath := [];
    }

    /** The record can be written: its field table is well formed and its
        values, after chroot rewriting, have the types of their fields. */
    ghost predicate Writable()
      reads this
    {
      Valid() && TagsWf(spec) && FieldsTyped(spec, WireValues(spec, chrootPath, values))
    }

    /** The bytes `serialize` writes for this record. */
    ghost function Bytes(): seq<byte>
      reads this
      requires Writable()
    {
      EncodeFields(spec, WireValues(spec, chrootPath, values))
    }

    /** `setChrootPath(path)`: only the chroot changes. */
    method SetChrootPath(path: seq<byte>)
      modifies this
      ensures chrootPath == path && spec == old(spec) && values == old(values)
    {
      chrootPath := path;
    }

    /** `byteLength()`: the size of the fields after chroot rewriting, which
        is the number of bytes `Serialize` writes. */
    method ByteLength() returns (size: nat)
      requires Valid() && FieldsTyped(spec, WireValues(spec, chrootPath, values))
      ensures size == FieldsSize(spec, WireValues(spec, chrootPath, values))
      ensures size == |EncodeFields(spec, WireValues(spec, chrootPath, values))|
    {
      size := RecordLength(spec, chrootPath, values);
    }

    /** `serialize(buffer, offset)`: the checks, then the rewritten fields
        at `offset`; the record itself does not change. */
    method Serialize(buf: array<byte>, offset: int) returns (r: Result<nat>)
      requires Valid() && TagsWf(spec) && FieldsTyped(spec, WireValues(spec, chrootPath, values))
      modifies buf
      ensures offset < 0 || offset >= buf.Length ==> r == Err(OutOfRange) && buf[..] == old(buf[..])
      ensures 0 <= offset < buf.Length && offset + |EncodeFields(spec, WireValues(spec, chrootPath, values))| > buf.Length
        ==> r == Err(NotEnoughSpace) && buf[..] == old(buf[..])
      ensures 0 <= offset < buf.Length && offset + |EncodeFields(spec, WireValues(spec, chrootPath, values))| <= buf.Length
        ==> r == Ok(|EncodeFields(spec, WireValues(spec, chrootPath, values))|)
            && buf[..] == Splice(old(buf[..]), offset, EncodeFields(spec, WireValues(spec, chrootPath, values)))
    {
      r := WriteRecord(spec, chrootPath, values, buf, offset);
    }

    /** `deserialize(buffer, offset)`: the offset check, then each field in
        table order is read at the running offset and stored, the `path`
        field stripped of the chroot. The values and the byte count are
        those of DecodeRecord; on an error the fields stored so far keep
        their new values (`StoredBeforeError`) and the others their old
        ones. */
    method Deserialize(buf: seq<byte>, offset: int) returns (r: Result<nat>)
      requires Valid()
      modifies this
      ensures Valid() && spec == old(spec) && chrootPath == old(chrootPath)
      ensures offset < 0 || offset >= |buf| ==> r == Err(OutOfRange) && values == old(values)
      ensures 0 <= offset ==> (r.Ok? <==> DecodeRecord(spec, chrootPath, buf, offset).Ok?)
      ensures 0 <= offset && r.Ok? ==> DecodeRecord(spec, chrootPath, buf, offset) == Ok((values, r.value))
      ensures 0 <= offset && r.Err? ==> DecodeRecord(spec, chrootPath, buf, offset) == Err(r.error)
      ensures 0 <= offset < |buf| && r.Err? ==>
        Overlaid(values, StoredBeforeError(spec, chrootPath, buf, offset), old(values))
      decreases spec, 2
    {
      if offset < 0 || offset >= |buf| {
        return Err(OutOfRange);
      }
      var fs := spec;
      var chroot := chrootPath;
      ghost var acc: seq<Value> := [];
      var bytesRead: nat := 0;
      ghost var whole := DecodeFields(fs, chroot, buf, offset);
      ghost var stopped := StoredBeforeError(fs, chroot, buf, offset);
      ghost var ov := values;
      PrefixedNothing(whole);
      for i := 0 to |fs|
        invariant spec == fs && chrootPath == chroot && |values| == |fs|
        invariant |acc| == i && values == acc + ov[i..]
        invariant Prefixed(acc, bytesRead, DecodeFields(fs[i..], chroot, buf, offset + bytesRead)) == whole
        invariant acc + StoredBeforeError(fs[i..], chroot, buf, offset + bytesRead) == stopped
      {
        var rest := fs[i..];
        assert rest[1..] == fs[i + 1..];
        var raw, stored, next := ReadStored(rest, chroot, buf, offset, acc, bytesRead);
        if raw.Err? {
          StopAtRead(values, acc, ov, stopped, StoredBeforeError(rest, chroot, buf, offset + bytesRead));
          return Err(raw.error);
        }
        OverwriteOld(values, i, raw.value.0, acc, ov);
        values := values[i := raw.value.0];
        if stored.Err? {
          StopAtStrip(values, acc, raw.value.0, ov, stopped, StoredBeforeError(rest, chroot, buf, offset + bytesRead));
          return Err(stored.error);
        }
        OverwriteNew(values, i, stored.value, raw.value.0, acc, ov);
        values := values[i := stored.value];
        MoveFront(acc, stored.value, StoredBeforeError(fs[i + 1..], chroot, buf, offset + next), stopped);
        acc := acc + [stored.value];
        bytesRead := next;
      }
      assert ov[|fs|..] == [] && fs[|fs|..] == [];
      PrefixedDone(acc, bytesRead, DecodeFields(fs[|fs|..], chroot, buf, offset + bytesRead));
      r := Ok(bytesRead);
    }
  }
}
