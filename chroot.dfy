/** What the chroot rewriting of record.ts does to a record that is written
    and read back: `serialize` puts the chroot in front of `path` and of
    every watch-list entry, `deserialize` strips it from `path` only. */
module RecordChroot {
  import opened Wire
  import opened JuteCodec

  /** Field `f` holding `v` reads back as `v` after the rewriting: nothing
      to restore without a chroot; with one, the path must be a present,
      non-empty string (an empty path comes back as '/', an absent one as
      'undefined') and a watch list must have no entries, since entries
      are never stripped. */
  predicate FieldRestorable(chroot: seq<byte>, f: FieldSpec, v: Value)
  {
    || chroot == []
    || (&& (f.name == PathField ==> v != Absent && (v.StringV? ==> v.bytes != []))
        && (f.name in WatchFields && v.VectorV? ==> |v.items| == 0))
  }

  predicate Restorable(fs: seq<FieldSpec>, chroot: seq<byte>, vals: seq<Value>)
  {
    |fs| == |vals| && forall i :: 0 <= i < |fs| ==> FieldRestorable(chroot, fs[i], vals[i])
  }

  /** A restorable field value survives prepend-then-strip. */
  lemma ReadBackWire(chroot: seq<byte>, f: FieldSpec, v: Value)
    requires FieldRestorable(chroot, f, v)
    ensures ReadBack(chroot, f, WireValue(chroot, f, v)) == Ok(v)
  {
    if f.name in WatchFields && v.VectorV? {
      assert f.name != PathField;
      var w := seq(|v.items|, i requires 0 <= i < |v.items| => PrependChroot(chroot, v.items[i]));
      assert w == v.items;
    } else if chroot != [] && f.name == PathField && v.StringV? {
      ChrootRoundTrip(chroot, v.bytes);
    }
  }

  /** With a chroot, a watch entry is sent with the chroot in front and is
      read back with it still there. */
  lemma WatchKeepsChroot(chroot: seq<byte>, f: FieldSpec, p: seq<byte>)
    requires chroot != [] && f.name in WatchFields && p != Slash
    ensures ReadBack(chroot, f, WireValue(chroot, f, VectorV([StringV(p)]))) == Ok(VectorV([StringV(chroot + p)]))
  {
    assert f.name != PathField;
    var w := seq(1, i requires 0 <= i < 1 => PrependChroot(chroot, [StringV(p)][i]));
    assert w == [StringV(chroot + p)];
  }

  /** With a chroot, an empty path is sent as the chroot itself and comes
      back as '/'. */
  lemma EmptyPathBecomesSlash(chroot: seq<byte>, f: FieldSpec)
    requires chroot != [] && f.name == PathField
    ensures ReadBack(chroot, f, WireValue(chroot, f, StringV([]))) == Ok(StringV(Slash))
  {
    assert chroot + [] == chroot;
  }

  /** The first field of a successful field read of `ws` in `n` bytes: its
      raw value `x` in `k` bytes, and the rest of `ws` in the other `m`. */
  lemma DecodeFieldsHead(fs: seq<FieldSpec>, chroot: seq<byte>, s: seq<byte>, at: nat, ws: seq<Value>, n: nat)
    returns (x: Value, k: nat, m: nat)
    requires |fs| > 0 && DecodeFields(fs, chroot, s, at) == Ok((ws, n))
    ensures |ws| > 0 && Decode(fs[0].tag, s, at) == Ok((x, k)) && ReadBack(chroot, fs[0], x) == Ok(ws[0])
    ensures DecodeFields(fs[1..], chroot, s, at + k) == Ok((ws[1..], m)) && n == k + m
  {
    x := Decode(fs[0].tag, s, at).value.0;
    k := Decode(fs[0].tag, s, at).value.1;
    var rest := DecodeFields(fs[1..], chroot, s, at + k).value;
    m := rest.1;
    assert ws == [ReadBack(chroot, fs[0], x).value] + rest.0;
  }

  /** Reading with a chroot is reading without one and then stripping:
      when every raw value `ws[i]` reads back as `vals[i]`, the chroot read
      yields `vals` in the same number of bytes. */
  lemma {:induction false} ChrootFields(fs: seq<FieldSpec>, chroot: seq<byte>, s: seq<byte>, at: nat,
                                        ws: seq<Value>, vals: seq<Value>, n: nat)
    requires |fs| == |ws| == |vals|
    requires DecodeFields(fs, [], s, at) == Ok((ws, n))
    requires forall i :: 0 <= i < |fs| ==> ReadBack(chroot, fs[i], ws[i]) == Ok(vals[i])
    ensures DecodeFields(fs, chroot, s, at) == Ok((vals, n))
    decreases |fs|
  {
    if |fs| == 0 {
      assert vals == [];
    } else {
      var x, k, m := DecodeFieldsHead(fs, [], s, at, ws, n);
      ChrootFields(fs[1..], chroot, s, at + k, ws[1..], vals[1..], m);
      ChrootFieldsCons(fs, chroot, s, at, x, k, vals, m, n);
    }
  }

  /** The first field read as `vals[0]` in `k` bytes, the rest as `vals[1..]` in `m`. */
  lemma ChrootFieldsCons(fs: seq<FieldSpec>, chroot: seq<byte>, s: seq<byte>, at: nat,
                         x: Value, k: nat, vals: seq<Value>, m: nat, n: nat)
    requires |fs| > 0 && |vals| > 0 && n == k + m
    requires Decode(fs[0].tag, s, at) == Ok((x, k)) && ReadBack(chroot, fs[0], x) == Ok(vals[0])
    requires DecodeFields(fs[1..], chroot, s, at + k) == Ok((vals[1..], m))
    ensures DecodeFields(fs, chroot, s, at) == Ok((vals, n))
  {
    DecodeFieldsUnfold(fs, chroot, s, at, x, k, vals[0], at + k);
    ConsRead(DecodeFields(fs, chroot, s, at), DecodeFields(fs[1..], chroot, s, at + k), vals, k, m, n);
  }

  /** A read of `vals[0]` in `k` bytes followed by one of the rest in `m`. */
  lemma ConsRead(d: Result<(seq<Value>, nat)>, rest: Result<(seq<Value>, nat)>, vals: seq<Value>, k: nat, m: nat, n: nat)
    requires |vals| > 0 && d == Prefixed([vals[0]], k, rest) && rest == Ok((vals[1..], m)) && n == k + m
    ensures d == Ok((vals, n))
  {
    assert [vals[0]] + vals[1..] == vals;
  }

  /** The record round trip with a chroot: a restorable record written with
      `serialize` is read back by `deserialize` as the same values in
      `byteLength` bytes. */
  lemma RecordRoundTrip(fs: seq<FieldSpec>, chroot: seq<byte>, vals: seq<Value>, s: seq<byte>, off: nat)
    requires TagsWf(fs) && |fs| == |vals| && FieldsTyped(fs, WireValues(fs, chroot, vals))
    requires Restorable(fs, chroot, vals)
    requires EncodedAt(s, off, EncodeFields(fs, WireValues(fs, chroot, vals))) && off < |s|
    ensures DecodeRecord(fs, chroot, s, off) == Ok((vals, |EncodeFields(fs, WireValues(fs, chroot, vals))|))
  {
    var ws := WireValues(fs, chroot, vals);
    DecodeFieldsEncode(fs, ws, s, off);
    forall i | 0 <= i < |fs| ensures ReadBack(chroot, fs[i], ws[i]) == Ok(vals[i]) {
      ReadBackWire(chroot, fs[i], vals[i]);
    }
    ChrootFields(fs, chroot, s, off, ws, vals, |EncodeFields(fs, ws)|);
  }
}
