/**
 * `struct({ name: type, ... })`: serialization and the JSON conversions walk
 * the INPUT object's keys in their own order, each through the codec
 * declared under that name; decoding walks the DECLARED fields in
 * declaration order.  A field's failure is prefixed `struct.<name>`.  The
 * binary encoder appends each field straight to the buffer, so a failure
 * leaves the fields before it written.
 */
module Structs {

  import opened Text
  import opened Errors
  import opened Values
  import opened Ints
  import opened Sink
  import opened Codec

  /** What was written before, then what a call wrote after it. */
  function Then(acc: seq<byte>, w: Written): Written {
    Written(acc + w.bytes, w.failure)
  }

  /** A gathered prefix in front of a loop's result, or the loop's failure. */
  function Behind<T>(acc: seq<T>, r: Result<seq<T>>): Result<seq<T>> {
    match r
    case Ok(xs) => Ok(acc + xs)
    case Err(e) => Err(e)
  }

  /** The field `f` in front of an object result, or the failure. */
  function WithField(f: (string, Value), r: Result<Value>): Result<Value> {
    match r
    case Ok(Obj(fs)) => Ok(Obj([f] + fs))
    case _ => r
  }

  /** The field `f` in front of a decoded object, or the failure. */
  function WithFieldAt(f: (string, Value), r: Result<(Value, nat)>): Result<(Value, nat)> {
    match r
    case Ok((Obj(fs), end)) => Ok((Obj([f] + fs), end))
    case _ => r
  }

  lemma ThenThen(a: seq<byte>, b: seq<byte>, w: Written)
    ensures Then(a, Then(b, w)) == Then(a + b, w)
  {
    assert a + (b + w.bytes) == (a + b) + w.bytes;
  }

  lemma BehindBehind<T>(a: seq<T>, b: seq<T>, r: Result<seq<T>>)
    ensures Behind(a, Behind(b, r)) == Behind(a + b, r)
  {
    if r.Ok? {
      assert a + (b + r.value) == (a + b) + r.value;
    }
  }

  lemma AheadAhead(a: seq<(string, Value)>, b: seq<(string, Value)>, r: Result<(seq<(string, Value)>, nat)>)
    ensures Ahead(a, Ahead(b, r)) == Ahead(a + b, r)
  {
    if r.Ok? {
      assert a + (b + r.value.0) == (a + b) + r.value.0;
    }
  }

  /* ---------------------------------------------------------------------- */
  /* The loops                                                              */
  /* ---------------------------------------------------------------------- */

  /**
   * `appendToByteBuffer`: for each key of the input, in the input's order,
   * the declared codec appends the field's value; a key with no codec or a
   * failing field stops the loop with what was appended so far left in place.
   */
  method AppendStruct(p: Schema, v: Value, sink: ByteSink) returns (err: Option<Error>)
    requires p.StructS?
    modifies sink
    ensures sink.data == old(sink.data) + Append(p, v).bytes
    ensures err == Append(p, v).failure
  {
    EncodesAsStruct(p, v);
    if !v.Obj? {
      return Some(Fail(NotOfType));
    }
    var fs := v.fields;
    Whole(fs);
    AppendFieldsFrom(p, fs, 0, sink.data);
    var i := 0;
    while i < |fs|
      invariant 0 <= i <= |fs|
      invariant AppendFields(p, fs, 0, old(sink.data)) == AppendFields(p, fs, i, sink.data)
    {
      var key := fs[i].0;
      AppendFieldsStep(p, fs, i, sink.data);
      if FieldIndex(p.fields, key) < 0 {
        return Some(Error(NoCodec, [StructField(key)]));
      }
      var w := Append(FieldCodec(p, key), fs[i].1);
      sink.Append(w.bytes);
      if w.failure.Some? {
        return Some(Prefix(StructField(key), w.failure.value));
      }
      i := i + 1;
    }
    return None;
  }

  /** One turn of the serialization loop. */
  lemma AppendFieldsStep(p: Schema, fs: seq<(string, Value)>, i: nat, acc: seq<byte>)
    requires p.StructS? && i < |fs|
    ensures FieldIndex(p.fields, fs[i].0) < 0 ==>
              AppendFields(p, fs, i, acc) == Written(acc, Some(Error(NoCodec, [StructField(fs[i].0)])))
    ensures FieldIndex(p.fields, fs[i].0) >= 0 ==>
              var w := Append(FieldCodec(p, fs[i].0), fs[i].1);
              AppendFields(p, fs, i, acc)
                == if w.failure.Some? then Written(acc + w.bytes, Some(Prefix(StructField(fs[i].0), w.failure.value)))
                   else AppendFields(p, fs, i + 1, acc + w.bytes)
  {
  }

  /** `toJSON`: one entry per input key, converted by that key's codec. */
  method StructJson(p: Schema, v: Value) returns (r: Result<Value>)
    requires p.StructS?
    ensures r == ToJson(p, v)
  {
    JsonAsStruct(p, v);
    if !v.Obj? {
      return Err(Fail(NotOfType));
    }
    var fs := v.fields;
    var result: seq<(string, Value)> := [];
    var i := 0;
    while i < |fs|
      invariant 0 <= i <= |fs|
      invariant FieldsToJson(p, fs, 0, []) == FieldsToJson(p, fs, i, result)
    {
      var key := fs[i].0;
      if FieldIndex(p.fields, key) < 0 {
        return Err(Error(NoCodec, [StructField(key)]));
      }
      var j := ToJson(FieldCodec(p, key), fs[i].1);
      if j.Err? {
        return Err(Prefix(StructField(key), j.error));
      }
      result := result + [(key, j.value)];
      i := i + 1;
    }
    return Ok(Obj(result));
  }

  /** `fromJSON`: one entry per key of the JSON object, converted by that key's codec. */
  method StructOfJson(p: Schema, j: Value) returns (r: Result<Value>)
    requires p.StructS?
    ensures r == FromJson(p, j)
  {
    JsonAsStruct(p, j);
    if !j.Obj? {
      return Err(Fail(NotOfType));
    }
    var fs := j.fields;
    var result: seq<(string, Value)> := [];
    var i := 0;
    while i < |fs|
      invariant 0 <= i <= |fs|
      invariant FieldsFromJson(p, fs, 0, []) == FieldsFromJson(p, fs, i, result)
    {
      var key := fs[i].0;
      if FieldIndex(p.fields, key) < 0 {
        return Err(Error(NoCodec, [StructField(key)]));
      }
      var x := FromJson(FieldCodec(p, key), fs[i].1);
      if x.Err? {
        return Err(Prefix(StructField(key), x.error));
      }
      result := result + [(key, x.value)];
      i := i + 1;
    }
    return Ok(Obj(result));
  }

  /**
   * `readFromBuffer`: each declared field, in declaration order, decoded at
   * the offset the previous one stopped at; the offset after the last one.
   */
  method ReadStruct(p: Schema, buf: seq<byte>, off: nat) returns (r: Result<(Value, nat)>)
    requires p.StructS?
    ensures r == Decode(p, buf, off)
  {
    DecodesAsStruct(p, buf, off);
    var result: seq<(string, Value)> := [];
    var offset := off;
    var i := 0;
    while i < |p.fields|
      invariant 0 <= i <= |p.fields|
      invariant DecodeFields(p, buf, off, 0, []) == DecodeFields(p, buf, offset, i, result)
    {
      var (name, codec) := p.fields[i];
      var d := Decode(codec, buf, offset);
      if d.Err? {
        return Err(Prefix(StructField(name), d.error));
      }
      result := result + [(name, d.value.0)];
      offset := d.value.1;
      i := i + 1;
    }
    return Ok((Obj(result), offset));
  }

  /* ---------------------------------------------------------------------- */
  /* The operations, one field at a time                                    */
  /* ---------------------------------------------------------------------- */

  /**
   * Serialization of an object: nothing for no keys; otherwise its first
   * key's codec appends the first value, and the rest of the object follows
   * right after.  A key with no codec fails having written nothing more; a
   * failing field fails with what it wrote left in place.
   */
  lemma StructAppendCons(p: Schema, k: string, x: Value, rest: seq<(string, Value)>)
    requires p.StructS?
    ensures Append(p, Obj([])) == Written([], None)
    ensures FieldIndex(p.fields, k) < 0 ==> Append(p, Obj([(k, x)] + rest)) == Written([], Some(Error(NoCodec, [StructField(k)])))
    ensures FieldIndex(p.fields, k) >= 0 && Append(FieldCodec(p, k), x).failure.Some? ==>
              var w := Append(FieldCodec(p, k), x);
              Append(p, Obj([(k, x)] + rest)) == Written(w.bytes, Some(Prefix(StructField(k), w.failure.value)))
    ensures FieldIndex(p.fields, k) >= 0 && Append(FieldCodec(p, k), x).failure.None? ==>
              Append(p, Obj([(k, x)] + rest)) == Then(Append(FieldCodec(p, k), x).bytes, Append(p, Obj(rest)))
  {
    var fs := [(k, x)] + rest;
    EncodesAsStruct(p, Obj([]));
    EncodesAsStruct(p, Obj(fs));
    EncodesAsStruct(p, Obj(rest));
    assert fs[1..] == rest;
    if FieldIndex(p.fields, k) >= 0 {
      var w := Append(FieldCodec(p, k), x);
      if w.failure.None? {
        AppendFieldsFrom(p, fs, 1, [] + w.bytes);
        assert [] + w.bytes == w.bytes;
      }
    }
  }

  /** The loop from key `i` after `acc`: `acc`, then what the loop writes over the remaining keys alone. */
  lemma {:induction false} AppendFieldsFrom(p: Schema, fs: seq<(string, Value)>, i: nat, acc: seq<byte>)
    requires p.StructS? && i <= |fs|
    ensures AppendFields(p, fs, i, acc) == Then(acc, AppendFields(p, fs[i..], 0, []))
    decreases |fs| - i
  {
    if i < |fs| {
      var key := fs[i].0;
      assert fs[i..][0] == fs[i];
      if FieldIndex(p.fields, key) >= 0 {
        var w := Append(FieldCodec(p, key), fs[i].1);
        if w.failure.None? {
          AppendFieldsFrom(p, fs, i + 1, acc + w.bytes);
          AppendFieldsFrom(p, fs[i..], 1, [] + w.bytes);
          assert fs[i..][1..] == fs[i + 1..];
          assert [] + w.bytes == w.bytes;
          ThenThen(acc, w.bytes, AppendFields(p, fs[i + 1..], 0, []));
        }
      }
    }
  }

  /** `toJSON` of an object: its first key converted by that key's codec, in front of the rest converted. */
  lemma StructToJsonCons(p: Schema, k: string, x: Value, rest: seq<(string, Value)>)
    requires p.StructS?
    ensures ToJson(p, Obj([])) == Ok(Obj([]))
    ensures FieldIndex(p.fields, k) < 0 ==> ToJson(p, Obj([(k, x)] + rest)) == Err(Error(NoCodec, [StructField(k)]))
    ensures FieldIndex(p.fields, k) >= 0 && ToJson(FieldCodec(p, k), x).Err? ==>
              ToJson(p, Obj([(k, x)] + rest)) == Err(Prefix(StructField(k), ToJson(FieldCodec(p, k), x).error))
    ensures FieldIndex(p.fields, k) >= 0 && ToJson(FieldCodec(p, k), x).Ok? ==>
              ToJson(p, Obj([(k, x)] + rest)) == WithField((k, ToJson(FieldCodec(p, k), x).value), ToJson(p, Obj(rest)))
  {
    var fs := [(k, x)] + rest;
    JsonAsStruct(p, Obj([]));
    JsonAsStruct(p, Obj(fs));
    JsonAsStruct(p, Obj(rest));
    assert fs[1..] == rest;
    if FieldIndex(p.fields, k) >= 0 {
      var j := ToJson(FieldCodec(p, k), x);
      if j.Ok? {
        ToJsonFrom(p, fs, 1, [] + [(k, j.value)]);
        assert [] + [(k, j.value)] == [(k, j.value)];
      }
    }
  }

  lemma {:induction false} ToJsonFrom(p: Schema, fs: seq<(string, Value)>, i: nat, acc: seq<(string, Value)>)
    requires p.StructS? && i <= |fs|
    ensures FieldsToJson(p, fs, i, acc) == Behind(acc, FieldsToJson(p, fs[i..], 0, []))
    decreases |fs| - i
  {
    if i < |fs| {
      var key := fs[i].0;
      assert fs[i..][0] == fs[i];
      if FieldIndex(p.fields, key) >= 0 {
        var j := ToJson(FieldCodec(p, key), fs[i].1);
        if j.Ok? {
          ToJsonFrom(p, fs, i + 1, acc + [(key, j.value)]);
          ToJsonFrom(p, fs[i..], 1, [] + [(key, j.value)]);
          assert fs[i..][1..] == fs[i + 1..];
          assert [] + [(key, j.value)] == [(key, j.value)];
          BehindBehind(acc, [(key, j.value)], FieldsToJson(p, fs[i + 1..], 0, []));
        }
      }
    } else {
      assert fs[i..] == [] && acc + [] == acc;
    }
  }

  /** `fromJSON` of an object: its first key converted by that key's codec, in front of the rest converted. */
  lemma StructFromJsonCons(p: Schema, k: string, x: Value, rest: seq<(string, Value)>)
    requires p.StructS?
    ensures FromJson(p, Obj([])) == Ok(Obj([]))
    ensures FieldIndex(p.fields, k) < 0 ==> FromJson(p, Obj([(k, x)] + rest)) == Err(Error(NoCodec, [StructField(k)]))
    ensures FieldIndex(p.fields, k) >= 0 && FromJson(FieldCodec(p, k), x).Err? ==>
              FromJson(p, Obj([(k, x)] + rest)) == Err(Prefix(StructField(k), FromJson(FieldCodec(p, k), x).error))
    ensures FieldIndex(p.fields, k) >= 0 && FromJson(FieldCodec(p, k), x).Ok? ==>
              FromJson(p, Obj([(k, x)] + rest)) == WithField((k, FromJson(FieldCodec(p, k), x).value), FromJson(p, Obj(rest)))
  {
    var fs := [(k, x)] + rest;
    JsonAsStruct(p, Obj([]));
    JsonAsStruct(p, Obj(fs));
    JsonAsStruct(p, Obj(rest));
    assert fs[1..] == rest;
    if FieldIndex(p.fields, k) >= 0 {
      var y := FromJson(FieldCodec(p, k), x);
      if y.Ok? {
        FromJsonFrom(p, fs, 1, [] + [(k, y.value)]);
        assert [] + [(k, y.value)] == [(k, y.value)];
      }
    }
  }

  lemma {:induction false} FromJsonFrom(p: Schema, fs: seq<(string, Value)>, i: nat, acc: seq<(string, Value)>)
    requires p.StructS? && i <= |fs|
    ensures FieldsFromJson(p, fs, i, acc) == Behind(acc, FieldsFromJson(p, fs[i..], 0, []))
    decreases |fs| - i
  {
    if i < |fs| {
      var key := fs[i].0;
      assert fs[i..][0] == fs[i];
      if FieldIndex(p.fields, key) >= 0 {
        var y := FromJson(FieldCodec(p, key), fs[i].1);
        if y.Ok? {
          FromJsonFrom(p, fs, i + 1, acc + [(key, y.value)]);
          FromJsonFrom(p, fs[i..], 1, [] + [(key, y.value)]);
          assert fs[i..][1..] == fs[i + 1..];
          assert [] + [(key, y.value)] == [(key, y.value)];
          BehindBehind(acc, [(key, y.value)], FieldsFromJson(p, fs[i + 1..], 0, []));
        }
      }
    } else {
      assert fs[i..] == [] && acc + [] == acc;
    }
  }

  /**
   * Decoding: no declared fields read nothing; otherwise the first declared
   * field is decoded at the offset, and the remaining declared fields are
   * decoded from where it stopped, which is where the whole decode stops.
   */
  lemma StructDecodeCons(name: string, s: Schema, rest: seq<(string, Schema)>, buf: seq<byte>, off: nat)
    ensures Decode(StructS([]), buf, off) == Ok((Obj([]), off))
    ensures Decode(s, buf, off).Err? ==>
              Decode(StructS([(name, s)] + rest), buf, off) == Err(Prefix(StructField(name), Decode(s, buf, off).error))
    ensures Decode(s, buf, off).Ok? ==>
              var (x, o) := Decode(s, buf, off).value;
              Decode(StructS([(name, s)] + rest), buf, off) == WithFieldAt((name, x), Decode(StructS(rest), buf, o))
  {
    var p := StructS([(name, s)] + rest);
    DecodesAsStruct(StructS([]), buf, off);
    DecodesAsStruct(p, buf, off);
    if Decode(s, buf, off).Ok? {
      var (x, o) := Decode(s, buf, off).value;
      DecodesAsStruct(StructS(rest), buf, o);
      DecodeFieldsFrom(p, buf, o, 1, [] + [(name, x)]);
      assert [] + [(name, x)] == [(name, x)];
      assert p.fields[1..] == rest;
    }
  }

  lemma {:induction false} DecodeFieldsFrom(p: Schema, buf: seq<byte>, off: nat, i: nat, acc: seq<(string, Value)>)
    requires p.StructS? && i <= |p.fields|
    ensures DecodeFields(p, buf, off, i, acc) == Ahead(acc, DecodeFields(StructS(p.fields[i..]), buf, off, 0, []))
    decreases |p.fields| - i
  {
    if i < |p.fields| {
      var q := StructS(p.fields[i..]);
      assert q.fields[0] == p.fields[i];
      var d := Decode(p.fields[i].1, buf, off);
      if d.Ok? {
        var (x, o) := d.value;
        var name := p.fields[i].0;
        DecodeFieldsFrom(p, buf, o, i + 1, acc + [(name, x)]);
        DecodeFieldsFrom(q, buf, o, 1, [] + [(name, x)]);
        assert q.fields[1..] == p.fields[i + 1..];
        assert [] + [(name, x)] == [(name, x)];
        AheadAhead(acc, [(name, x)], DecodeFields(StructS(p.fields[i + 1..]), buf, o, 0, []));
      }
    } else {
      assert p.fields[i..] == [] && acc + [] == acc;
    }
  }

  /* ---------------------------------------------------------------------- */
  /* What the two orders do                                                 */
  /* ---------------------------------------------------------------------- */

  /** `struct({ a: uint8_t, b: uint8_t })`. */
  function Pair(): Schema {
    StructS([("a", IntS(UInt8)), ("b", IntS(UInt8))])
  }

  /** The object `{ b: 2, a: 1 }` is written in its own key order, as the bytes [2, 1]. */
  lemma KeyOrderWritten()
    ensures Encode(Pair(), Obj([("b", Num(2)), ("a", Num(1))])) == Ok([2, 1])
  {
    var p := Pair();
    assert FieldCodec(p, "a") == IntS(UInt8) && FieldCodec(p, "b") == IntS(UInt8);
    UInt8Byte(2, [], 0);
    UInt8Byte(1, [], 0);
    StructAppendCons(p, "a", Num(1), []);
    StructAppendCons(p, "b", Num(2), [("a", Num(1))]);
    assert [("a", Num(1))] + [] == [("a", Num(1))];
    assert [2] + ([1] + []) == [2, 1];
  }

  /** The decoder reads [2, 1] in declaration order, as `{ a: 2, b: 1 }`. */
  lemma KeyOrderRead()
    ensures Decode(Pair(), [2, 1], 0) == Ok((Obj([("a", Num(2)), ("b", Num(1))]), 2))
  {
    var u := IntS(UInt8);
    var buf: seq<byte> := [2, 1];
    UInt8Byte(2, buf, 0);
    assert Decode(u, buf, 0) == Ok((Num(2), 1));
    LastFieldRead("b", 1, buf, 1);
    StructDecodeCons("a", u, [("b", u)], buf, 0);
    assert [("a", u)] + [("b", u)] == Pair().fields;
    assert [("a", Num(2))] + [("b", Num(1))] == [("a", Num(2)), ("b", Num(1))];
  }

  /** A struct of one uint8 field reads the byte at the offset. */
  lemma LastFieldRead(name: string, n: nat, buf: seq<byte>, off: nat)
    requires n < 256 && off < |buf| && buf[off] == n
    ensures Decode(StructS([(name, IntS(UInt8))]), buf, off) == Ok((Obj([(name, Num(n))]), off + 1))
  {
    var u := IntS(UInt8);
    UInt8Byte(n, buf, off);
    StructDecodeCons(name, u, [], buf, off);
    assert [(name, u)] + [] == [(name, u)];
    assert [(name, Num(n))] + [] == [(name, Num(n))];
  }

  /** A declared field missing from the object is skipped: `{ a: 1 }` is written as [1]. */
  lemma MissingFieldWritten()
    ensures Encode(Pair(), Obj([("a", Num(1))])) == Ok([1])
  {
    var p := Pair();
    assert FieldCodec(p, "a") == IntS(UInt8);
    UInt8Byte(1, [], 0);
    StructAppendCons(p, "a", Num(1), []);
    assert [1] + [] == [1];
  }

  /** The decoder cannot read [1]: it expects `b` after `a`. */
  lemma MissingFieldRead()
    ensures Decode(Pair(), [1], 0) == Err(Error(UnexpectedBufferEnd(8, true), [StructField("b")]))
  {
    var u := IntS(UInt8);
    UInt8Byte(1, [1], 0);
    assert Decode(u, [1], 1) == Err(Fail(UnexpectedBufferEnd(8, true)));
    StructDecodeCons("b", u, [], [1], 1);
    StructDecodeCons("a", u, [("b", u)], [1], 0);
    assert [("b", u)] + [] == [("b", u)];
    assert [("a", u)] + [("b", u)] == Pair().fields;
  }

  /** A gathered prefix in front of a decode loop's fields, or the loop's failure. */
  function Ahead(acc: seq<(string, Value)>, r: Result<(seq<(string, Value)>, nat)>): Result<(seq<(string, Value)>, nat)> {
    match r
    case Ok((fs, end)) => Ok((acc + fs, end))
    case Err(e) => Err(e)
  }
}
