/** The jute field-type codec of record.ts: the closed set of field types,
    the values a record field may hold, their wire size (`byteLengthImpl`),
    their encoding (module-level `serialize`) and their decoding
    (module-level `deserialize`), as functions on byte sequences. The
    imperative writers and readers over a buffer, and the Record class, are
    in module JuteRecord and are proved against these functions. */
module JuteCodec {
  import opened Wire

  /** A field type of a record specification (`int`, `long`, `buffer`,
      `ustring`, `boolean`, `vector<T>`, `data.X`). A nested record type
      carries the field table of `X`: the catalog's records are not
      recursive, so the tags are finite trees. */
  datatype TypeTag =
    | Int
    | Long
    | Buffer
    | UString
    | Boolean
    | Vector(elem: TypeTag)
    | Data(name: string, fields: seq<FieldSpec>)

  datatype FieldSpec = FieldSpec(name: string, tag: TypeTag)

  /** What a record field can hold. `Absent` is JavaScript's `undefined`,
      the value of an unset buffer, ustring or vector; `long` values are
      opaque 8-byte big-endian blobs; ustrings are already-encoded bytes. */
  datatype Value =
    | IntV(i: int32)
    | LongV(bytes: seq<byte>)
    | BufferV(bytes: seq<byte>)
    | StringV(bytes: seq<byte>)
    | BoolV(b: bool)
    | VectorV(items: seq<Value>)
    | RecordV(fields: seq<Value>)
    | Absent

  // ---------------------------------------------------------------------
  // Well-formedness

  const PathField: string := "path"
  const WatchFields: set<string> := {"dataWatches", "existWatches", "childWatches"}

  /** '/' */
  const Slash: seq<byte> := [47]
  /** 'undefined': what `chrootPath + path` yields for an absent path. */
  const Undefined: seq<byte> := [117, 110, 100, 101, 102, 105, 110, 101, 100]

  /** Field tables as the protocol catalog has them: unique field names,
      `path` a ustring, the watch lists vectors of ustrings, and every
      nested record with at least one field. */
  predicate WfSpec(fs: seq<FieldSpec>)
  {
    && (forall i, j :: 0 <= i < j < |fs| ==> fs[i].name != fs[j].name)
    && (forall i :: 0 <= i < |fs| && fs[i].name == PathField ==> fs[i].tag == UString)
    && (forall i :: 0 <= i < |fs| && fs[i].name in WatchFields ==> fs[i].tag == Vector(UString))
    && TagsWf(fs)
  }

  /** Every field type of the table is well formed. */
  predicate TagsWf(fs: seq<FieldSpec>)
    decreases fs, 1
  {
    |fs| == 0 || (WfTag(fs[0].tag) && TagsWf(fs[1..]))
  }

  predicate WfTag(t: TypeTag)
    decreases t, 0
  {
    match t
    case Vector(e) => WfTag(e)
    case Data(_, fs) => |fs| > 0 && TagsWf(fs)
    case _ => true
  }

  /** `v` is a value a field of type `t` can be written with: the variant
      the type expects, or `Absent` for buffer, ustring and vector; a long
      of exactly 8 bytes; lengths and counts that fit the int32 prefix. */
  predicate HasType(t: TypeTag, v: Value)
    decreases v
  {
    match t
    case Int => v.IntV?
    case Long => v.LongV? && |v.bytes| == 8
    case Buffer => v.Absent? || (v.BufferV? && |v.bytes| <= MaxInt32)
    case UString => v.Absent? || (v.StringV? && |v.bytes| <= MaxInt32)
    case Boolean => v.BoolV?
    case Vector(e) => v.Absent? || (v.VectorV? && |v.items| <= MaxInt32 && ItemsTyped(e, v.items))
    case Data(_, fs) => v.RecordV? && FieldsTyped(fs, v.fields)
  }

  /** One value per field, each of its field's type. */
  predicate FieldsTyped(fs: seq<FieldSpec>, vals: seq<Value>)
    decreases vals
  {
    |fs| == |vals| && (|vals| == 0 || (HasType(fs[0].tag, vals[0]) && FieldsTyped(fs[1..], vals[1..])))
  }

  /** Every item has the element type. */
  predicate ItemsTyped(e: TypeTag, items: seq<Value>)
    decreases items
  {
    |items| == 0 || (HasType(e, items[0]) && ItemsTyped(e, items[1..]))
  }

  lemma {:induction false} ItemsTypedIff(e: TypeTag, items: seq<Value>)
    ensures ItemsTyped(e, items) <==> forall i :: 0 <= i < |items| ==> HasType(e, items[i])
    decreases items
  {
    if |items| > 0 {
      ItemsTypedIff(e, items[1..]);
      assert forall i :: 0 < i < |items| ==> items[1..][i - 1] == items[i];
    }
  }

  lemma {:induction false} FieldsTypedIff(fs: seq<FieldSpec>, vals: seq<Value>)
    ensures FieldsTyped(fs, vals) <==> |fs| == |vals| && forall i :: 0 <= i < |vals| ==> HasType(fs[i].tag, vals[i])
    decreases vals
  {
    if |vals| > 0 && |fs| == |vals| {
      FieldsTypedIff(fs[1..], vals[1..]);
      assert forall i :: 0 < i < |vals| ==> fs[1..][i - 1] == fs[i] && vals[1..][i - 1] == vals[i];
    }
  }

  lemma {:induction false} TagsWfIff(fs: seq<FieldSpec>)
    ensures TagsWf(fs) <==> forall i :: 0 <= i < |fs| ==> WfTag(fs[i].tag)
    decreases fs
  {
    if |fs| > 0 {
      TagsWfIff(fs[1..]);
      assert forall i :: 0 < i < |fs| ==> fs[1..][i - 1] == fs[i];
    }
  }

  // ---------------------------------------------------------------------
  // byteLengthImpl

  /** The wire size of a field (`byteLengthImpl`, record.ts:228-273). */
  function FieldSize(t: TypeTag, v: Value): nat
    requires HasType(t, v)
    decreases v
  {
    match t
    case Int => 4
    case Long => 8
    case Buffer => if v.BufferV? then 4 + |v.bytes| else 4
    case UString => if v.StringV? then 4 + |v.bytes| else 4
    case Boolean => 1
    case Vector(e) => if v.VectorV? then 4 + ItemsSize(e, v.items) else 4
    case Data(_, fs) => FieldsSize(fs, v.fields)
  }

  function ItemsSize(e: TypeTag, items: seq<Value>): nat
    requires ItemsTyped(e, items)
    decreases items
  {
    if |items| == 0 then 0 else FieldSize(e, items[0]) + ItemsSize(e, items[1..])
  }

  /** `Record.byteLength` without chroot rewriting: the sum of the fields'. */
  function FieldsSize(fs: seq<FieldSpec>, vals: seq<Value>): nat
    requires FieldsTyped(fs, vals)
    decreases vals
  {
    if |vals| == 0 then 0 else FieldSize(fs[0].tag, vals[0]) + FieldsSize(fs[1..], vals[1..])
  }

  // ---------------------------------------------------------------------
  // Encoding (module-level serialize)

  /** The bytes the module-level `serialize` writes for one field
      (record.ts:278-350). Its length is the field's `byteLengthImpl`. */
  function Encode(t: TypeTag, v: Value): (r: seq<byte>)
    requires HasType(t, v)
    ensures |r| == FieldSize(t, v)
    decreases v
  {
    match t
    case Int => Int32BE(v.i)
    case Long => v.bytes
    case Buffer => if v.BufferV? then Int32BE(|v.bytes|) + v.bytes else Int32BE(-1)
    case UString => if v.StringV? then Int32BE(|v.bytes|) + v.bytes else Int32BE(-1)
    case Boolean => if v.b then [1] else [0]
    case Vector(e) => if v.VectorV? then Int32BE(|v.items|) + EncodeItems(e, v.items) else Int32BE(-1)
    case Data(_, fs) => EncodeFields(fs, v.fields)
  }

  function EncodeItems(e: TypeTag, items: seq<Value>): (r: seq<byte>)
    requires ItemsTyped(e, items)
    ensures |r| == ItemsSize(e, items)
    decreases items
  {
    if |items| == 0 then [] else Encode(e, items[0]) + EncodeItems(e, items[1..])
  }

  /** The fields of a record written one after the other, in table order. */
  function EncodeFields(fs: seq<FieldSpec>, vals: seq<Value>): (r: seq<byte>)
    requires FieldsTyped(fs, vals)
    ensures |r| == FieldsSize(fs, vals)
    decreases vals
  {
    if |vals| == 0 then [] else Encode(fs[0].tag, vals[0]) + EncodeFields(fs[1..], vals[1..])
  }

  /** Under a well-formed tag every field takes at least one byte, so a
      nested record is never written at the very end of the buffer. */
  lemma EncodeNonEmpty(t: TypeTag, v: Value)
    requires WfTag(t) && HasType(t, v)
    ensures |Encode(t, v)| >= 1
  {
    if t.Data? {
      assert |Encode(t, v)| == |Encode(t.fields[0].tag, v.fields[0])| + |EncodeFields(t.fields[1..], v.fields[1..])|;
      EncodeNonEmpty(t.fields[0].tag, v.fields[0]);
    }
  }

  // ---------------------------------------------------------------------
  // Decoding (module-level deserialize)

  /** One field read back from `s` at `off` (record.ts:352-436): the value
      and the number of bytes consumed. A nested record starts with its
      own offset range check. */
  function Decode(t: TypeTag, s: seq<byte>, off: nat): Result<(Value, nat)>
    decreases t, 0, 0
  {
    match t
    case Int => DecodeInt(s, off)
    case Long => DecodeLong(s, off)
    case Buffer => DecodeBuffer(s, off)
    case UString => DecodeUString(s, off)
    case Boolean => DecodeBoolean(s, off)
    case Vector(e) =>
      var count :- ReadInt32(s, off);
      if count == -1 then Ok((Absent, 4))
      else
        var p :- DecodeItems(e, s, off + 4, count);
        Ok((VectorV(p.0), 4 + p.1))
    case Data(_, fs) =>
      var p :- DecodeRecord(fs, [], s, off);
      Ok((RecordV(p.0), p.1))
  }

  function DecodeInt(s: seq<byte>, off: nat): (r: Result<(Value, nat)>)
    ensures r.Ok? <==> off + 4 <= |s|
  {
    var n :- ReadInt32(s, off);
    Ok((IntV(n), 4))
  }

  /** Node's `copy` clamps its source range, so a long cut short by the
      end of the buffer comes back zero-padded. */
  function DecodeLong(s: seq<byte>, off: nat): (r: Result<(Value, nat)>)
    ensures r.Ok? <==> off <= |s|
    ensures r.Ok? ==> r.value.0.LongV? && |r.value.0.bytes| == 8 && r.value.1 == 8
  {
    if off <= |s| then Ok((LongV(Padded(Clamp(s, off, off + 8), 8)), 8)) else Err(OutOfRange)
  }

  /** A truncated payload is zero-padded to its declared length (Node's
      `Buffer.alloc` + `copy`); a negative length other than -1 is an
      error (`Buffer.alloc` throws). */
  function DecodeBuffer(s: seq<byte>, off: nat): (r: Result<(Value, nat)>)
    ensures r.Ok? ==> r.value.0.Absent? || (r.value.0.BufferV? && r.value.1 == 4 + |r.value.0.bytes|)
  {
    var len :- ReadInt32(s, off);
    if len == -1 then Ok((Absent, 4))
    else if len < 0 then Err(BadLength)
    else Ok((BufferV(Padded(Clamp(s, off + 4, off + 4 + len), len)), 4 + len))
  }

  /** A truncated ustring comes back short (Node's `toString` clamps); a
      negative length other than -1 is rejected here, unlike the source
      (see DecodeUStringAsWritten). */
  function DecodeUString(s: seq<byte>, off: nat): (r: Result<(Value, nat)>)
    ensures r.Ok? ==> r.value.0.Absent? || (r.value.0.StringV? && r.value.1 >= 4 + |r.value.0.bytes|)
  {
    var len :- ReadInt32(s, off);
    if len == -1 then Ok((Absent, 4))
    else if len < 0 then Err(BadLength)
    else Ok((StringV(Clamp(s, off + 4, off + 4 + len)), 4 + len))
  }

  /** `readUInt8(off) === 1`. */
  function DecodeBoolean(s: seq<byte>, off: nat): (r: Result<(Value, nat)>)
    ensures r.Ok? <==> off < |s|
  {
    if off < |s| then Ok((BoolV(s[off] == 1), 1)) else Err(OutOfRange)
  }

  /** The `while (length > 0)` loop of the vector case: `count` items
      read one after the other from `at`, and the bytes they take. A
      negative count other than -1 reads no item. */
  function DecodeItems(e: TypeTag, s: seq<byte>, at: nat, count: int): Result<(seq<Value>, nat)>
    decreases e, 1, if count > 0 then count else 0
  {
    if count <= 0 then Ok(([], 0))
    else
      var d := Decode(e, s, at);
      if d.Err? then Err(d.error)
      else
        var q := DecodeItems(e, s, at + d.value.1, count - 1);
        if q.Err? then Err(q.error)
        else Ok(([d.value.0] + q.value.0, d.value.1 + q.value.1))
  }

  /** `Record.deserialize` (record.ts:187-214): the offset range check, then
      every field in table order; with a chroot set, the `path` field is
      stripped as it is read. */
  function DecodeRecord(fs: seq<FieldSpec>, chroot: seq<byte>, s: seq<byte>, off: nat)
    : Result<(seq<Value>, nat)>
    decreases fs, 2, 0
  {
    if off >= |s| then Err(OutOfRange)
    else DecodeFields(fs, chroot, s, off)
  }

  /** The value `Record.deserialize` stores for field `f` after reading `v`. */
  function ReadBack(chroot: seq<byte>, f: FieldSpec, v: Value): Result<Value>
  {
    if chroot != [] && f.name == PathField then StripChroot(chroot, v) else Ok(v)
  }

  /** The field loop of `Record.deserialize`: the fields `fs` read one after
      the other from `at`, and the bytes they take. */
  function DecodeFields(fs: seq<FieldSpec>, chroot: seq<byte>, s: seq<byte>, at: nat)
    : Result<(seq<Value>, nat)>
    decreases fs, 1, 0
  {
    if |fs| == 0 then Ok(([], 0))
    else
      var p :- Decode(fs[0].tag, s, at);
      var v :- ReadBack(chroot, fs[0], p.0);
      var q :- DecodeFields(fs[1..], chroot, s, at + p.1);
      Ok(([v] + q.0, p.1 + q.1))
  }

  // ---------------------------------------------------------------------
  // What a successful read gives

  /** Whatever the bytes, a successful read yields a well-typed value. */
  lemma {:induction false} DecodeTyped(t: TypeTag, s: seq<byte>, off: nat)
    ensures Decode(t, s, off).Ok? ==> HasType(t, Decode(t, s, off).value.0)
    decreases t, 0, 0
  {
    match t
    case Vector(e) =>
      if Decode(t, s, off).Ok? {
        var count := Int32At(s, off);
        if count != -1 {
          DecodeItemsTyped(e, s, off + 4, count);
        }
      }
    case Data(_, fs) =>
      if off < |s| {
        DecodeFieldsTyped(fs, [], s, off);
      }
    case _ =>
  }

  /** The vector loop reads `count` items (none for a negative count),
      each of the element type. */
  lemma {:induction false} DecodeItemsTyped(e: TypeTag, s: seq<byte>, at: nat, count: int)
    ensures var r := DecodeItems(e, s, at, count);
      r.Ok? ==> |r.value.0| == (if count > 0 then count else 0) && ItemsTyped(e, r.value.0)
    decreases e, 1, if count > 0 then count else 0
  {
    if count > 0 {
      var p := Decode(e, s, at);
      if p.Ok? {
        DecodeTyped(e, s, at);
        DecodeItemsTyped(e, s, at + p.value.1, count - 1);
        var q := DecodeItems(e, s, at + p.value.1, count - 1);
        if q.Ok? {
          assert ([p.value.0] + q.value.0)[1..] == q.value.0;
        }
      }
    }
  }

  /** The field loop reads one value per field, each of its field's type. */
  lemma {:induction false} DecodeFieldsTyped(fs: seq<FieldSpec>, chroot: seq<byte>, s: seq<byte>, at: nat)
    ensures var r := DecodeFields(fs, chroot, s, at);
      r.Ok? ==> FieldsTyped(fs, r.value.0)
    decreases fs, 1, 0
  {
    if |fs| > 0 {
      var p := Decode(fs[0].tag, s, at);
      if p.Ok? {
        var b := ReadBack(chroot, fs[0], p.value.0);
        if b.Ok? {
          DecodeTyped(fs[0].tag, s, at);
          ReadBackTyped(chroot, fs[0], p.value.0);
          DecodeFieldsTyped(fs[1..], chroot, s, at + p.value.1);
          var q := DecodeFields(fs[1..], chroot, s, at + p.value.1);
          if q.Ok? {
            assert ([b.value] + q.value.0)[1..] == q.value.0;
          }
        }
      }
    }
  }

  /** Stripping the chroot keeps a value's type. */
  lemma ReadBackTyped(chroot: seq<byte>, f: FieldSpec, v: Value)
    requires HasType(f.tag, v) && ReadBack(chroot, f, v).Ok?
    ensures HasType(f.tag, ReadBack(chroot, f, v).value)
  {
  }

  /** A successful `Record.deserialize` started inside the buffer and read
      one well-typed value per field. */
  lemma DecodeRecordTyped(fs: seq<FieldSpec>, chroot: seq<byte>, s: seq<byte>, off: nat)
    ensures var r := DecodeRecord(fs, chroot, s, off);
      r.Ok? ==> off < |s| && FieldsTyped(fs, r.value.0)
  {
    if off < |s| {
      DecodeFieldsTyped(fs, chroot, s, off);
    }
  }

  // ---------------------------------------------------------------------
  // chroot rewriting (record.ts:106-119, 153-166, 203-226)

  /** `prependChroot`: identity without a chroot, '/' becomes the chroot,
      anything else gets the chroot in front (an absent path becomes the
      chroot followed by the text 'undefined', as JavaScript's `+` does). */
  function PrependChroot(chroot: seq<byte>, v: Value): (r: Value)
    ensures chroot == [] ==> r == v
    ensures chroot != [] && v == StringV(Slash) ==> r == StringV(chroot)
    ensures chroot != [] && v.StringV? && v.bytes != Slash ==> r == StringV(chroot + v.bytes)
  {
    if chroot == [] then v
    else match v
      case StringV(p) => if p == Slash then StringV(chroot) else StringV(chroot + p)
      case Absent => StringV(chroot + Undefined)
      case _ => v
  }

  /** The value `serialize` and `byteLength` actually measure and write for
      field `f`: `path` through `prependChroot`, a present watch list with
      every entry through `prependChroot`, every other field unchanged. */
  function WireValue(chroot: seq<byte>, f: FieldSpec, v: Value): Value
  {
    if f.name == PathField then PrependChroot(chroot, v)
    else if f.name in WatchFields && v.VectorV? then
      VectorV(seq(|v.items|, i requires 0 <= i < |v.items| => PrependChroot(chroot, v.items[i])))
    else v
  }

  function WireValues(fs: seq<FieldSpec>, chroot: seq<byte>, vals: seq<Value>): (r: seq<Value>)
    requires |fs| == |vals|
    ensures |r| == |vals|
  {
    seq(|vals|, i requires 0 <= i < |vals| => WireValue(chroot, fs[i], vals[i]))
  }

  /** The strip `deserialize` applies to `path` (record.ts:203-210): a path
      equal to the chroot becomes '/', any other loses as many leading
      bytes as the chroot has (`substring` clamps). Reading `.substring`
      of an absent path is a TypeError. */
  function StripChroot(chroot: seq<byte>, v: Value): (r: Result<Value>)
    requires chroot != []
    ensures v.Absent? <==> r.Err?
    ensures v == StringV(chroot) ==> r == Ok(StringV(Slash))
    ensures v.StringV? && |v.bytes| > |chroot| && v.bytes[..|chroot|] == chroot ==> r == Ok(StringV(v.bytes[|chroot|..]))
    ensures r.Ok? && v.StringV? ==> r.value.StringV? && |r.value.bytes| <= |v.bytes|
    ensures r.Ok? && !v.StringV? ==> r.value == v
  {
    match v
    case StringV(p) =>
      if p == chroot then Ok(StringV(Slash))
      else Ok(StringV(if |chroot| <= |p| then p[|chroot|..] else []))
    case Absent => Err(TypeError)
    case _ => Ok(v)
  }

  /** With a chroot set, a present non-empty path survives prepend-then-strip:
      '/' round-trips through the chroot itself, any other path through
      chroot + path. */
  lemma ChrootRoundTrip(chroot: seq<byte>, p: seq<byte>)
    requires chroot != [] && p != []
    ensures StripChroot(chroot, PrependChroot(chroot, StringV(p))) == Ok(StringV(p))
  {
    if p != Slash {
      var w := chroot + p;
      assert PrependChroot(chroot, StringV(p)) == StringV(w);
      assert w[..|chroot|] == chroot && w[|chroot|..] == p;
    }
  }

  /** An absent path does not survive: it is written as chroot + 'undefined'
      and read back as the text 'undefined'. */
  lemma ChrootAbsentPath(chroot: seq<byte>)
    requires chroot != []
    ensures StripChroot(chroot, PrependChroot(chroot, Absent)) == Ok(StringV(Undefined))
  {
    assert PrependChroot(chroot, Absent) == StringV(chroot + Undefined);
    assert chroot + Undefined != chroot;
  }

  // ---------------------------------------------------------------------
  // Round trips

  /** `s` holds the bytes `enc` starting at `at`. */
  predicate EncodedAt(s: seq<byte>, at: nat, enc: seq<byte>)
  {
    at + |enc| <= |s| && s[at..at + |enc|] == enc
  }

  /** Bytes that hold `x + y` at `at` hold `x` there and `y` right after. */
  lemma SliceSplit(s: seq<byte>, at: nat, x: seq<byte>, y: seq<byte>)
    requires EncodedAt(s, at, x + y)
    ensures EncodedAt(s, at, x) && EncodedAt(s, at + |x|, y)
  {
    assert s[at..at + |x|] == s[at..at + |x| + |y|][..|x|];
    assert s[at + |x|..at + |x| + |y|] == s[at..at + |x| + |y|][|x|..];
  }

  /** Reading back the encoding of a well-typed value, wherever it sits in
      the buffer, gives the value and consumes exactly the bytes written. */
  lemma {:induction false} DecodeEncode(t: TypeTag, v: Value, s: seq<byte>, off: nat)
    requires WfTag(t) && HasType(t, v)
    requires EncodedAt(s, off, Encode(t, v))
    ensures Decode(t, s, off) == Ok((v, |Encode(t, v)|))
    decreases v, 3
  {
    match t
    case Vector(e) => DecodeEncodeVector(e, v, s, off);
    case Data(n, fs) => DecodeEncodeRecord(n, fs, v, s, off);
    case Buffer => DecodeEncodeSized(t, v, s, off);
    case UString => DecodeEncodeSized(t, v, s, off);
    case _ => DecodeEncodeFixed(t, v, s, off);
  }

  /** The fixed-size fields: int, long and boolean. */
  lemma DecodeEncodeFixed(t: TypeTag, v: Value, s: seq<byte>, off: nat)
    requires t == Int || t == Long || t == Boolean
    requires HasType(t, v)
    requires EncodedAt(s, off, Encode(t, v))
    ensures Decode(t, s, off) == Ok((v, |Encode(t, v)|))
  {
    if t == Int {
      Int32RoundTrip(v.i, s, off);
    } else if t == Long {
      assert Clamp(s, off, off + 8) == v.bytes;
      assert Padded(v.bytes, 8) == v.bytes;
    } else {
      assert s[off] == Encode(t, v)[0];
    }
  }

  /** The length-prefixed fields: buffer and ustring, present or absent. */
  lemma DecodeEncodeSized(t: TypeTag, v: Value, s: seq<byte>, off: nat)
    requires t == Buffer || t == UString
    requires HasType(t, v)
    requires EncodedAt(s, off, Encode(t, v))
    ensures Decode(t, s, off) == Ok((v, |Encode(t, v)|))
  {
    if v.Absent? {
      Int32RoundTrip(-1, s, off);
    } else {
      var b := v.bytes;
      SliceSplit(s, off, Int32BE(|b|), b);
      Int32RoundTrip(|b|, s, off);
      assert Clamp(s, off + 4, off + 4 + |b|) == b;
      assert Padded(b, |b|) == b;
    }
  }

  lemma {:induction false} DecodeEncodeVector(e: TypeTag, v: Value, s: seq<byte>, off: nat)
    requires WfTag(e) && HasType(Vector(e), v)
    requires EncodedAt(s, off, Encode(Vector(e), v))
    ensures Decode(Vector(e), s, off) == Ok((v, |Encode(Vector(e), v)|))
    decreases v, 2
  {
    if v.Absent? {
      VectorAbsent(e, v, s, off);
    } else {
      VectorHeader(e, v, s, off);
      DecodeItemsEncode(e, v.items, s, off + 4);
      VectorFinish(e, v, s, off);
    }
  }

  lemma VectorAbsent(e: TypeTag, v: Value, s: seq<byte>, off: nat)
    requires HasType(Vector(e), v) && v.Absent?
    requires EncodedAt(s, off, Encode(Vector(e), v))
    ensures Decode(Vector(e), s, off) == Ok((v, |Encode(Vector(e), v)|))
  {
    Int32RoundTrip(-1, s, off);
  }

  /** A present vector's encoding starts with its item count. */
  lemma VectorHeader(e: TypeTag, v: Value, s: seq<byte>, off: nat)
    requires HasType(Vector(e), v) && v.VectorV?
    requires EncodedAt(s, off, Encode(Vector(e), v))
    ensures ItemsTyped(e, v.items) && ReadInt32(s, off) == Ok(|v.items|)
    ensures EncodedAt(s, off + 4, EncodeItems(e, v.items))
  {
    SliceSplit(s, off, Int32BE(|v.items|), EncodeItems(e, v.items));
    Int32RoundTrip(|v.items|, s, off);
  }

  /** The vector case of `deserialize` once the count and the items are read. */
  lemma VectorFinish(e: TypeTag, v: Value, s: seq<byte>, off: nat)
    requires HasType(Vector(e), v) && v.VectorV?
    requires ReadInt32(s, off) == Ok(|v.items|)
    requires ItemsTyped(e, v.items) && DecodeItems(e, s, off + 4, |v.items|) == Ok((v.items, |EncodeItems(e, v.items)|))
    ensures Decode(Vector(e), s, off) == Ok((v, |Encode(Vector(e), v)|))
  {
    DecodeVectorOk(e, s, off, |v.items|, (v.items, |EncodeItems(e, v.items)|));
    assert |Encode(Vector(e), v)| == 4 + |EncodeItems(e, v.items)|;
  }

  lemma DecodeVectorOk(e: TypeTag, s: seq<byte>, off: nat, count: int, p: (seq<Value>, nat))
    requires ReadInt32(s, off) == Ok(count) && count != -1 && DecodeItems(e, s, off + 4, count) == Ok(p)
    ensures Decode(Vector(e), s, off) == Ok((VectorV(p.0), 4 + p.1))
  {
  }

  lemma DecodeVectorErr(e: TypeTag, s: seq<byte>, off: nat, count: int)
    requires ReadInt32(s, off) == Ok(count) && count != -1 && DecodeItems(e, s, off + 4, count).Err?
    ensures Decode(Vector(e), s, off) == Err(DecodeItems(e, s, off + 4, count).error)
  {
  }

  lemma {:induction false} DecodeEncodeRecord(n: string, fs: seq<FieldSpec>, v: Value, s: seq<byte>, off: nat)
    requires WfTag(Data(n, fs)) && HasType(Data(n, fs), v)
    requires EncodedAt(s, off, Encode(Data(n, fs), v))
    ensures Decode(Data(n, fs), s, off) == Ok((v, |Encode(Data(n, fs), v)|))
    decreases v, 2
  {
    RecordHeader(n, fs, v, s, off);
    DecodeFieldsEncode(fs, v.fields, s, off);
    RecordFinish(n, fs, v, s, off);
  }

  /** A record's encoding is its fields' and takes at least a byte. */
  lemma RecordHeader(n: string, fs: seq<FieldSpec>, v: Value, s: seq<byte>, off: nat)
    requires WfTag(Data(n, fs)) && HasType(Data(n, fs), v)
    requires EncodedAt(s, off, Encode(Data(n, fs), v))
    ensures v.RecordV? && off < |s| && TagsWf(fs) && FieldsTyped(fs, v.fields)
    ensures EncodedAt(s, off, EncodeFields(fs, v.fields))
  {
    EncodeNonEmpty(Data(n, fs), v);
  }

  /** The record case of `deserialize` once the fields are read. */
  lemma RecordFinish(n: string, fs: seq<FieldSpec>, v: Value, s: seq<byte>, off: nat)
    requires v.RecordV? && off < |s| && FieldsTyped(fs, v.fields)
    requires DecodeFields(fs, [], s, off) == Ok((v.fields, |EncodeFields(fs, v.fields)|))
    ensures HasType(Data(n, fs), v)
    ensures Decode(Data(n, fs), s, off) == Ok((v, |Encode(Data(n, fs), v)|))
  {
  }

  /** The items of a vector body, read back. */
  lemma {:induction false} DecodeItemsEncode(e: TypeTag, items: seq<Value>, s: seq<byte>, at: nat)
    requires WfTag(e) && ItemsTyped(e, items)
    requires EncodedAt(s, at, EncodeItems(e, items))
    ensures DecodeItems(e, s, at, |items|) == Ok((items, |EncodeItems(e, items)|))
    decreases items, 1
  {
    if |items| == 0 {
      DecodeItemsNil(e, items, s, at);
    } else {
      var k := TailEncoded(e, items, s, at);
      DecodeItemsEncode(e, items[1..], s, at + k);
      DecodeHeadThenRest(e, items, s, at, k);
    }
  }

  /** Once the items after the first decode, all of them do: the first
      item decodes in its `k` bytes, and the rest follows. */
  /** After the first item's `k` bytes comes the encoding of the others. */
  lemma TailEncoded(e: TypeTag, items: seq<Value>, s: seq<byte>, at: nat) returns (k: nat)
    requires ItemsTyped(e, items) && |items| > 0
    requires EncodedAt(s, at, EncodeItems(e, items))
    ensures k == |Encode(e, items[0])|
    ensures ItemsTyped(e, items[1..]) && EncodedAt(s, at + k, EncodeItems(e, items[1..]))
  {
    EncodeItemsHead(e, items, s, at);
    k := |Encode(e, items[0])|;
  }

  lemma {:induction false} DecodeHeadThenRest(e: TypeTag, items: seq<Value>, s: seq<byte>, at: nat, k: nat)
    requires WfTag(e) && ItemsTyped(e, items) && |items| > 0
    requires EncodedAt(s, at, EncodeItems(e, items)) && k == |Encode(e, items[0])|
    requires DecodeItems(e, s, at + k, |items[1..]|) == Ok((items[1..], |EncodeItems(e, items[1..])|))
    ensures DecodeItems(e, s, at, |items|) == Ok((items, |EncodeItems(e, items)|))
    decreases items, 0
  {
    EncodeItemsHead(e, items, s, at);
    DecodeEncode(e, items[0], s, at);
    DecodeItemsCons(e, items, s, at, k, |EncodeItems(e, items[1..])|, |EncodeItems(e, items)|);
  }

  /** An encoded vector body is its first item's encoding followed by the others'. */
  lemma EncodeItemsHead(e: TypeTag, items: seq<Value>, s: seq<byte>, at: nat)
    requires ItemsTyped(e, items) && |items| > 0
    requires EncodedAt(s, at, EncodeItems(e, items))
    ensures HasType(e, items[0]) && ItemsTyped(e, items[1..])
    ensures EncodedAt(s, at, Encode(e, items[0])) && EncodedAt(s, at + |Encode(e, items[0])|, EncodeItems(e, items[1..]))
    ensures |Encode(e, items[0])| + |EncodeItems(e, items[1..])| == |EncodeItems(e, items)|
  {
    SliceSplit(s, at, Encode(e, items[0]), EncodeItems(e, items[1..]));
  }

  lemma DecodeItemsNil(e: TypeTag, items: seq<Value>, s: seq<byte>, at: nat)
    requires |items| == 0
    ensures ItemsTyped(e, items)
    ensures DecodeItems(e, s, at, |items|) == Ok((items, |EncodeItems(e, items)|))
  {
  }

  lemma DecodeItemsCons(e: TypeTag, items: seq<Value>, s: seq<byte>, at: nat, k: nat, n1: nat, n: nat)
    requires |items| > 0 && Decode(e, s, at) == Ok((items[0], k))
    requires DecodeItems(e, s, at + k, |items[1..]|) == Ok((items[1..], n1)) && k + n1 == n
    ensures DecodeItems(e, s, at, |items|) == Ok((items, n))
  {
    assert [items[0]] + items[1..] == items;
  }

  /** The fields of a record, read back without chroot. */
  lemma {:induction false} DecodeFieldsEncode(fs: seq<FieldSpec>, vals: seq<Value>, s: seq<byte>, at: nat)
    requires TagsWf(fs) && FieldsTyped(fs, vals)
    requires EncodedAt(s, at, EncodeFields(fs, vals))
    ensures DecodeFields(fs, [], s, at) == Ok((vals, |EncodeFields(fs, vals)|))
    decreases vals, 1
  {
    if |vals| == 0 {
      DecodeFieldsNil(fs, vals, s, at);
    } else {
      var k := DecodeHeadField(fs, vals, s, at);
      DecodeFieldsEncode(fs[1..], vals[1..], s, at + k);
      DecodeFieldsCons(fs, vals, s, at, k, |EncodeFields(fs[1..], vals[1..])|, |EncodeFields(fs, vals)|);
    }
  }

  /** The first field of an encoded record decodes in `k` bytes and the
      encoding of the other fields follows it. */
  lemma {:induction false} DecodeHeadField(fs: seq<FieldSpec>, vals: seq<Value>, s: seq<byte>, at: nat) returns (k: nat)
    requires TagsWf(fs) && FieldsTyped(fs, vals) && |vals| > 0
    requires EncodedAt(s, at, EncodeFields(fs, vals))
    ensures |fs| > 0 && Decode(fs[0].tag, s, at) == Ok((vals[0], k))
    ensures TagsWf(fs[1..]) && FieldsTyped(fs[1..], vals[1..]) && EncodedAt(s, at + k, EncodeFields(fs[1..], vals[1..]))
    ensures k + |EncodeFields(fs[1..], vals[1..])| == |EncodeFields(fs, vals)|
    decreases vals, 0
  {
    EncodeFieldsHead(fs, vals, s, at);
    DecodeEncode(fs[0].tag, vals[0], s, at);
    k := |Encode(fs[0].tag, vals[0])|;
  }

  /** An encoded record body is its first field's encoding followed by the others'. */
  lemma EncodeFieldsHead(fs: seq<FieldSpec>, vals: seq<Value>, s: seq<byte>, at: nat)
    requires TagsWf(fs) && FieldsTyped(fs, vals) && |vals| > 0
    requires EncodedAt(s, at, EncodeFields(fs, vals))
    ensures |fs| > 0 && WfTag(fs[0].tag) && TagsWf(fs[1..])
    ensures HasType(fs[0].tag, vals[0]) && FieldsTyped(fs[1..], vals[1..])
    ensures EncodedAt(s, at, Encode(fs[0].tag, vals[0]))
    ensures EncodedAt(s, at + |Encode(fs[0].tag, vals[0])|, EncodeFields(fs[1..], vals[1..]))
    ensures |Encode(fs[0].tag, vals[0])| + |EncodeFields(fs[1..], vals[1..])| == |EncodeFields(fs, vals)|
  {
    SliceSplit(s, at, Encode(fs[0].tag, vals[0]), EncodeFields(fs[1..], vals[1..]));
  }

  lemma DecodeFieldsNil(fs: seq<FieldSpec>, vals: seq<Value>, s: seq<byte>, at: nat)
    requires |vals| == 0 && FieldsTyped(fs, vals)
    ensures DecodeFields(fs, [], s, at) == Ok((vals, |EncodeFields(fs, vals)|))
  {
  }

  lemma DecodeFieldsCons(fs: seq<FieldSpec>, vals: seq<Value>, s: seq<byte>, at: nat, k: nat, n1: nat, n: nat)
    requires |fs| > 0 && |vals| > 0 && Decode(fs[0].tag, s, at) == Ok((vals[0], k))
    requires DecodeFields(fs[1..], [], s, at + k) == Ok((vals[1..], n1)) && k + n1 == n
    ensures DecodeFields(fs, [], s, at) == Ok((vals, n))
  {
    assert [vals[0]] + vals[1..] == vals;
  }

  // ---------------------------------------------------------------------
  // The loops one turn at a time

  /** The rest of a read: `r` with `acc` and `read` put in front. */
  function Prefixed<T>(acc: seq<T>, read: nat, r: Result<(seq<T>, nat)>): (p: Result<(seq<T>, nat)>)
    ensures p.Ok? <==> r.Ok?
    ensures p.Ok? ==> p.value == (acc + r.value.0, read + r.value.1)
  {
    if r.Err? then r else Ok((acc + r.value.0, read + r.value.1))
  }

  /** Putting two reads in front is putting their concatenation in front. */
  lemma PrefixedTwice<T>(acc: seq<T>, read: nat, x: seq<T>, k: nat, r: Result<(seq<T>, nat)>)
    ensures Prefixed(acc, read, Prefixed(x, k, r)) == Prefixed(acc + x, read + k, r)
  {
    if r.Ok? {
      assert acc + (x + r.value.0) == acc + x + r.value.0;
    }
  }

  /** One turn of the vector loop: the first item read as `x` in `k`
      bytes, then the others. */
  lemma DecodeItemsUnfold(e: TypeTag, s: seq<byte>, at: nat, count: int, x: Value, k: nat, next: nat)
    requires count > 0 && Decode(e, s, at) == Ok((x, k)) && next == at + k
    ensures DecodeItems(e, s, at, count) == Prefixed([x], k, DecodeItems(e, s, next, count - 1))
  {
  }

  /** A vector loop that has read `acc` in `read` bytes stops with the
      error of the next item... */
  lemma ItemsLoopErr(e: TypeTag, s: seq<byte>, at: nat, count: int, acc: seq<Value>, read: nat)
    requires count > 0 && Decode(e, s, at + read).Err?
    ensures Prefixed(acc, read, DecodeItems(e, s, at + read, count)) == Err(Decode(e, s, at + read).error)
  {
  }

  /** ... or goes on with that item read as `x` in `k` bytes. */
  lemma ItemsLoopNext(e: TypeTag, s: seq<byte>, at: nat, count: int, acc: seq<Value>, read: nat, x: Value, k: nat,
                      acc': seq<Value>, read': nat, count': int)
    requires count > 0 && Decode(e, s, at + read) == Ok((x, k))
    requires acc' == acc + [x] && read' == read + k && count' == count - 1
    ensures Prefixed(acc, read, DecodeItems(e, s, at + read, count))
      == Prefixed(acc', read', DecodeItems(e, s, at + read', count'))
  {
    DecodeItemsUnfold(e, s, at + read, count, x, k, at + read');
    PrefixedTwice(acc, read, [x], k, DecodeItems(e, s, at + read', count'));
  }

  /** A field loop that has stored `acc` in `read` bytes stops with the
      error of reading the next field... */
  lemma FieldsLoopErr(fs: seq<FieldSpec>, chroot: seq<byte>, s: seq<byte>, at: nat, acc: seq<Value>, read: nat)
    requires |fs| > 0 && Decode(fs[0].tag, s, at + read).Err?
    ensures Prefixed(acc, read, DecodeFields(fs, chroot, s, at + read)) == Err(Decode(fs[0].tag, s, at + read).error)
  {
  }

  /** ... or of stripping it... */
  lemma FieldsLoopStripErr(fs: seq<FieldSpec>, chroot: seq<byte>, s: seq<byte>, at: nat, acc: seq<Value>, read: nat, x: Value, k: nat)
    requires |fs| > 0 && Decode(fs[0].tag, s, at + read) == Ok((x, k)) && ReadBack(chroot, fs[0], x).Err?
    ensures Prefixed(acc, read, DecodeFields(fs, chroot, s, at + read)) == Err(ReadBack(chroot, fs[0], x).error)
  {
  }

  /** ... or goes on with it read as `x` in `k` bytes and stored as `y`. */
  lemma FieldsLoopNext(fs: seq<FieldSpec>, chroot: seq<byte>, s: seq<byte>, at: nat, acc: seq<Value>, read: nat, x: Value, k: nat, y: Value,
                       acc': seq<Value>, read': nat)
    requires |fs| > 0 && Decode(fs[0].tag, s, at + read) == Ok((x, k)) && ReadBack(chroot, fs[0], x) == Ok(y)
    requires acc' == acc + [y] && read' == read + k
    ensures Prefixed(acc, read, DecodeFields(fs, chroot, s, at + read))
      == Prefixed(acc', read', DecodeFields(fs[1..], chroot, s, at + read'))
  {
    DecodeFieldsUnfold(fs, chroot, s, at + read, x, k, y, at + read');
    PrefixedTwice(acc, read, [y], k, DecodeFields(fs[1..], chroot, s, at + read'));
  }

  /** One turn of the field loop: the first field read as `x` in `k` bytes
      and stored as `y`, then the others. */
  lemma DecodeFieldsUnfold(fs: seq<FieldSpec>, chroot: seq<byte>, s: seq<byte>, at: nat, x: Value, k: nat, y: Value, next: nat)
    requires |fs| > 0 && Decode(fs[0].tag, s, at) == Ok((x, k)) && ReadBack(chroot, fs[0], x) == Ok(y) && next == at + k
    ensures DecodeFields(fs, chroot, s, at) == Prefixed([y], k, DecodeFields(fs[1..], chroot, s, next))
  {
  }

  /** The writer's view of the encodings: the items from `i` on are item
      `i` followed by the items after it. */
  lemma EncodeItemsFrom(e: TypeTag, items: seq<Value>, i: nat)
    requires i < |items| && ItemsTyped(e, items[i..])
    ensures HasType(e, items[i]) && ItemsTyped(e, items[i + 1..])
    ensures EncodeItems(e, items[i..]) == Encode(e, items[i]) + EncodeItems(e, items[i + 1..])
  {
    assert items[i..][0] == items[i] && items[i..][1..] == items[i + 1..];
  }

  lemma EncodeFieldsFrom(fs: seq<FieldSpec>, vals: seq<Value>, i: nat)
    requires i < |vals| && |fs| == |vals| && FieldsTyped(fs[i..], vals[i..])
    ensures HasType(fs[i].tag, vals[i]) && FieldsTyped(fs[i + 1..], vals[i + 1..])
    ensures EncodeFields(fs[i..], vals[i..]) == Encode(fs[i].tag, vals[i]) + EncodeFields(fs[i + 1..], vals[i + 1..])
  {
    assert fs[i..][0] == fs[i] && fs[i..][1..] == fs[i + 1..];
    assert vals[i..][0] == vals[i] && vals[i..][1..] == vals[i + 1..];
  }

  // ---------------------------------------------------------------------
  // Booleans (record.ts:318-320, 403-405)

  /** A boolean is written as 1 or 0 and read as true only for the byte 1,
      so any other non-zero byte reads as false. */
  lemma BooleanBytes(b: bool, x: byte)
    ensures Encode(Boolean, BoolV(b)) == (if b then [1] else [0])
    ensures Decode(Boolean, [x], 0) == Ok((BoolV(x == 1), 1))
    ensures x > 1 ==> Encode(Boolean, Decode(Boolean, [x], 0).value.0) != [x]
  {
  }

  // ---------------------------------------------------------------------
  // The ustring decoder as record.ts:387-401 has it

  /** `deserialize('ustring', ...)` as written: any length other than -1 is
      used as is, so a negative one yields '' and a byte count below 4. */
  function DecodeUStringAsWritten(s: seq<byte>, off: nat): (r: Result<(Value, int)>)
    ensures r.Ok? <==> off + 4 <= |s|
  {
    var len :- ReadInt32(s, off);
    if len == -1 then Ok((Absent, 4))
    else Ok((StringV(Clamp(s, off + 4, off + 4 + len)), 4 + len))
  }

  /** The length prefix -13 makes the as-written decoder report -9 bytes
      read: the read position moves backwards. The model's decoder rejects
      the same bytes. */
  lemma UStringNegativeLength()
    ensures DecodeUStringAsWritten(Int32BE(-13), 0) == Ok((StringV([]), -9))
    ensures Decode(UString, Int32BE(-13), 0) == Err(BadLength)
  {
    Int32RoundTrip(-13, Int32BE(-13), 0);
  }

  /** Corrected, the decoders never move backwards: every field consumes at
      least one byte, and a length-prefixed one at least its 4-byte prefix. */
  lemma {:induction false} DecodeAdvances(t: TypeTag, s: seq<byte>, off: nat)
    requires WfTag(t) && Decode(t, s, off).Ok?
    ensures Decode(t, s, off).value.1 >= 1
    ensures t.Buffer? || t.UString? || t.Vector? ==> Decode(t, s, off).value.1 >= 4
  {
    if t.Data? {
      var fs := t.fields;
      assert DecodeFields(fs, [], s, off).Ok?;
      DecodeAdvances(fs[0].tag, s, off);
    }
  }

  // ---------------------------------------------------------------------
  // Type strings (record.ts:27-84, 231-270, 282-347, 357-430)

  /** `\w`: a letter, a digit or '_'. */
  predicate WordChar(c: char)
  {
    'a' <= c <= 'z' || 'A' <= c <= 'Z' || '0' <= c <= '9' || c == '_'
  }

  predicate Word(x: string)
  {
    |x| > 0 && forall i :: 0 <= i < |x| ==> WordChar(x[i])
  }

  /** `[\w.]+`: what the vector pattern accepts between the brackets. */
  predicate DottedWord(x: string)
  {
    |x| > 0 && forall i :: 0 <= i < |x| ==> WordChar(x[i]) || x[i] == '.'
  }

  const VectorOpen: string := "vector<"
  const DataPrefix: string := "data."

  /** The field type named by a type string, the way the codec's `switch`
      and its two patterns `^vector<([\w.]+)>$` and `^data\.(\w+)$` read
      it. A `data.X` type resolves through the record catalog (that
      `new jute.data[X]()` is not a constructor when X is missing is a
      TypeError); any other string is 'Unknown type'. The element pattern
      cannot contain '<', so vectors do not nest. */
  function ParseTag(ty: string, catalog: map<string, seq<FieldSpec>>): Result<TypeTag>
    decreases |ty|
  {
    if ty == "int" then Ok(Int)
    else if ty == "long" then Ok(Long)
    else if ty == "buffer" then Ok(Buffer)
    else if ty == "ustring" then Ok(UString)
    else if ty == "boolean" then Ok(Boolean)
    else if |ty| > |VectorOpen| + 1 && ty[..|VectorOpen|] == VectorOpen && ty[|ty| - 1] == '>'
            && DottedWord(ty[|VectorOpen|..|ty| - 1]) then
      var inner := ty[|VectorOpen|..|ty| - 1];
      var e :- ParseTag(inner, catalog);
      Ok(Vector(e))
    else if |ty| > |DataPrefix| && ty[..|DataPrefix|] == DataPrefix && Word(ty[|DataPrefix|..]) then
      var name := ty[|DataPrefix|..];
      if name in catalog then Ok(Data(name, catalog[name])) else Err(TypeError)
    else Err(UnknownType)
  }

  /** The type string of a tag. */
  function TagName(t: TypeTag): string
  {
    match t
    case Int => "int"
    case Long => "long"
    case Buffer => "buffer"
    case UString => "ustring"
    case Boolean => "boolean"
    case Vector(e) => VectorOpen + TagName(e) + ">"
    case Data(n, _) => DataPrefix + n
  }

  /** Tags that have a type string the codec reads back as themselves: no
      nested vectors, record names that are words and that the catalog
      maps to their field tables. */
  predicate Nameable(t: TypeTag, catalog: map<string, seq<FieldSpec>>)
  {
    match t
    case Vector(e) => !e.Vector? && Nameable(e, catalog)
    case Data(n, fs) => Word(n) && n in catalog && catalog[n] == fs
    case _ => true
  }

  /** A nameable tag's type string reads back as the tag. */
  lemma ParseTagName(t: TypeTag, catalog: map<string, seq<FieldSpec>>)
    requires Nameable(t, catalog)
    ensures ParseTag(TagName(t), catalog) == Ok(t)
  {
    match t
    case Vector(e) =>
      var ty := TagName(t);
      assert ty[0] == 'v' && ty[..|VectorOpen|] == VectorOpen && ty[|ty| - 1] == '>';
      assert ty[|VectorOpen|..|ty| - 1] == TagName(e);
      ElementName(e, catalog);
      ParseTagName(e, catalog);
    case Data(n, fs) =>
      var ty := TagName(t);
      assert ty[0] == 'd' && ty[..|DataPrefix|] == DataPrefix && ty[|DataPrefix|..] == n;
      if |ty| >= |VectorOpen| {
        assert ty[..|VectorOpen|][0] == 'd';
      }
    case _ =>
  }

  lemma ElementName(e: TypeTag, catalog: map<string, seq<FieldSpec>>)
    requires !e.Vector? && Nameable(e, catalog)
    ensures DottedWord(TagName(e))
  {
    if e.Data? {
      var ty := TagName(e);
      forall i | 0 <= i < |ty| ensures WordChar(ty[i]) || ty[i] == '.' {
        if i >= |DataPrefix| {
          assert ty[i] == e.name[i - |DataPrefix|];
        }
      }
    }
  }

  /** Every type string the codec accepts is the name of a nameable tag,
      so the reading is one-to-one. */
  lemma {:induction false} ParseTagNames(ty: string, catalog: map<string, seq<FieldSpec>>)
    requires ParseTag(ty, catalog).Ok?
    ensures Nameable(ParseTag(ty, catalog).value, catalog)
    ensures TagName(ParseTag(ty, catalog).value) == ty
    decreases |ty|
  {
    var t := ParseTag(ty, catalog).value;
    if t.Vector? {
      var inner := ty[|VectorOpen|..|ty| - 1];
      ParseTagNames(inner, catalog);
      NotVectorName(inner, catalog);
      assert ty == VectorOpen + inner + ">";
    } else if t.Data? {
      assert ty == DataPrefix + ty[|DataPrefix|..];
    }
  }

  /** A string without '<' is not read as a vector type. */
  lemma NotVectorName(x: string, catalog: map<string, seq<FieldSpec>>)
    requires DottedWord(x)
    ensures ParseTag(x, catalog).Ok? ==> !ParseTag(x, catalog).value.Vector?
  {
    if |x| > |VectorOpen| + 1 {
      assert x[..|VectorOpen|][6] == x[6];
    }
  }

  /** 'float' is an unknown type, a nested vector does not match the
      vector pattern, and a record missing from the catalog fails. */
  lemma ParseTagRejects(catalog: map<string, seq<FieldSpec>>)
    ensures ParseTag("float", catalog) == Err(UnknownType)
    ensures ParseTag("vector<vector<int>>", catalog) == Err(UnknownType)
    ensures "Stat" !in catalog ==> ParseTag("data.Stat", catalog) == Err(TypeError)
  {
    var v := "vector<vector<int>>";
    assert v[..|VectorOpen|] == VectorOpen;
    assert !DottedWord(v[|VectorOpen|..|v| - 1]) by { assert v[|VectorOpen|..|v| - 1][6] == '<'; }
    assert v[..|DataPrefix|] != DataPrefix by { assert v[0] == 'v'; }
    var f := "float";
    assert f[..|VectorOpen| - 2] != VectorOpen[..5];
    var d := "data.Stat";
    assert d[..|DataPrefix|] == DataPrefix && d[|DataPrefix|..] == "Stat";
    assert d[..|VectorOpen|] != VectorOpen by { assert d[0] == 'd'; }
  }

  // ---------------------------------------------------------------------
  // Record constructor defaults (record.ts:21-87)

  /** A constructor argument as the constructor's runtime checks see it. */
  datatype Arg =
    | NumberArg(n: int32)
    | BufferArg(bytes: seq<byte>)
    | StringArg(bytes: seq<byte>)
    | BooleanArg(b: bool)
    | ArrayArg(items: seq<Value>)
    | RecordArg(fields: seq<Value>)
    | NoArg

  function ArgAt(args: seq<Arg>, i: nat): Arg
  {
    if i < |args| then args[i] else NoArg
  }

  /** The initial value of a field of type `t` given constructor argument
      `a`: the argument when it has the runtime kind the type checks for,
      otherwise 0, eight zero bytes, false, absent, or a fresh nested
      record of defaults. A long copies at most 8 bytes of its buffer. */
  function Initial(t: TypeTag, a: Arg): Value
    decreases t, 0
  {
    match t
    case Int => if a.NumberArg? then IntV(a.n) else IntV(0)
    case Long => if a.BufferArg? then LongV(Padded(a.bytes, 8)) else LongV(Zeros(8))
    case Buffer => if a.BufferArg? then BufferV(a.bytes) else Absent
    case UString => if a.StringArg? then StringV(a.bytes) else Absent
    case Boolean => if a.BooleanArg? then BoolV(a.b) else BoolV(false)
    case Vector(_) => if a.ArrayArg? then VectorV(a.items) else Absent
    case Data(_, fs) => if a.RecordArg? then RecordV(a.fields) else RecordV(Initials(fs, []))
  }

  /** The field values the constructor assigns, argument i to field i. */
  function Initials(fs: seq<FieldSpec>, args: seq<Arg>): (r: seq<Value>)
    ensures |r| == |fs|
    decreases fs, 1
  {
    if |fs| == 0 then []
    else [Initial(fs[0].tag, ArgAt(args, 0))] + Initials(fs[1..], if args == [] then [] else args[1..])
  }

  /** An argument the constructor would store that is also a well-typed
      value for the field (arguments of another runtime kind are ignored). */
  predicate ArgFits(t: TypeTag, a: Arg)
  {
    match t
    case Buffer => a.BufferArg? ==> |a.bytes| <= MaxInt32
    case UString => a.StringArg? ==> |a.bytes| <= MaxInt32
    case Vector(_) => a.ArrayArg? ==> HasType(t, VectorV(a.items))
    case Data(_, _) => a.RecordArg? ==> HasType(t, RecordV(a.fields))
    case _ => true
  }

  lemma {:induction false} InitialsAt(fs: seq<FieldSpec>, args: seq<Arg>, i: nat)
    requires i < |fs|
    ensures Initials(fs, args)[i] == Initial(fs[i].tag, ArgAt(args, i))
    decreases fs
  {
    if i > 0 {
      var rest := if args == [] then [] else args[1..];
      InitialsAt(fs[1..], rest, i - 1);
      assert ArgAt(rest, i - 1) == ArgAt(args, i);
    }
  }

  /** The constructor gives a well-typed record whenever the arguments it
      keeps are well-typed; with no arguments at all every field holds its
      default: 0, eight zero bytes, false, absent, or nested defaults. */
  lemma {:induction false} InitialsTyped(fs: seq<FieldSpec>, args: seq<Arg>)
    requires forall i :: 0 <= i < |fs| ==> ArgFits(fs[i].tag, ArgAt(args, i))
    ensures FieldsTyped(fs, Initials(fs, args))
    decreases fs
  {
    var r := Initials(fs, args);
    forall i | 0 <= i < |fs| ensures HasType(fs[i].tag, r[i]) {
      InitialsAt(fs, args, i);
      InitialTyped(fs[i].tag, ArgAt(args, i));
    }
    FieldsTypedIff(fs, r);
  }

  lemma {:induction false} InitialTyped(t: TypeTag, a: Arg)
    requires ArgFits(t, a)
    ensures HasType(t, Initial(t, a))
    decreases t
  {
    match t
    case Data(_, fs) =>
      if !a.RecordArg? {
        forall i | 0 <= i < |fs| ensures ArgFits(fs[i].tag, ArgAt([], i)) {
          match fs[i].tag
          case _ =>
        }
        InitialsTyped(fs, []);
      }
    case _ =>
  }

  lemma NoArgDefaults(t: TypeTag)
    ensures t == Int ==> Initial(t, NoArg) == IntV(0)
    ensures t == Long ==> Initial(t, NoArg) == LongV([0, 0, 0, 0, 0, 0, 0, 0])
    ensures t == Boolean ==> Initial(t, NoArg) == BoolV(false)
    ensures t.Buffer? || t.UString? || t.Vector? ==> Initial(t, NoArg) == Absent
    ensures t.Data? ==> Initial(t, NoArg) == RecordV(Initials(t.fields, []))
  {
    if t == Long {
      assert Zeros(8) == [0, 0, 0, 0, 0, 0, 0, 0];
    }
  }
}
