/**
 * `flat_map(key, value)`: a map written as a varint32 count and then each
 * entry's key and value, the entries sorted by their serialized keys.
 *
 * Every operation but decoding starts from `_prepareInput`: the input (an
 * array of pairs, whose keys must not repeat, or a Map) becomes a list of
 * entries with both halves serialized; two keys that serialize alike are
 * rejected; the list is sorted by serialized key.  Decoding and `fromJSON`
 * build a Map with `set` (a repeated key overwrites) and then pass it through
 * `_prepareInput` as a check.
 */
module FlatMaps {

  import opened Text
  import opened Errors
  import opened Values
  import opened Ints
  import opened Sorting
  import opened Sink
  import opened Codec
  import opened RoundTrip

  /* ---------------------------------------------------------------------- */
  /* _prepareInput                                                          */
  /* ---------------------------------------------------------------------- */

  /**
   * `_prepareInput`: the input as a map; each entry serialized, key first,
   * its failure located at the entry; the serialized keys checked for
   * repeats; then the list sorted in place by serialized key.
   */
  method PrepareInput(p: Schema, v: Value) returns (r: Result<seq<Entry>>)
    requires p.FlatMapS?
    ensures r == PrepareMap(p, v)
  {
    var input := InputMap(v);
    if input.Err? {
      return Err(input.error);
    }
    var m := input.value;
    var entries: seq<Entry> := [];
    var i := 0;
    while i < |m|
      invariant 0 <= i <= |m|
      invariant SerializeEntries(p, m, 0, []) == SerializeEntries(p, m, i, entries)
    {
      var seg := EntrySeg(m[i].0, i);
      var kb := Encode(p.key, m[i].0);
      if kb.Err? {
        return Err(Prefix(seg, kb.error));
      }
      var vb := Encode(p.value, m[i].1);
      if vb.Err? {
        return Err(Prefix(seg, vb.error));
      }
      entries := entries + [Entry(m[i].0, m[i].1, kb.value, vb.value)];
      i := i + 1;
    }
    if !Distinct(KeysOf(entries)) {
      return Err(Fail(MapKeyDuplicates));
    }
    var a := new Entry[|entries|](j requires 0 <= j < |entries| => entries[j]);
    assert a[..] == entries;
    SortInPlace(a, KeyOf);
    ApartInjective(entries);
    SortedIsInsertionSort(a[..], entries, KeyOf);
    return Ok(a[..]);
  }

  /** Entries whose serialized keys differ are told apart by them. */
  lemma ApartInjective(entries: seq<Entry>)
    requires Distinct(KeysOf(entries))
    ensures DistinctKeysBy(entries, KeyOf) && KeyInjective(entries, KeyOf)
  {
    assert DistinctKeysBy(entries, KeyOf) by {
      forall i, j | 0 <= i < j < |entries| ensures KeyOf(entries[i]) != KeyOf(entries[j]) {
        assert KeysOf(entries)[i] != KeysOf(entries)[j];
      }
    }
    DistinctKeysInjective(entries, KeyOf);
  }

  /** An entry that carries its key's and its value's serialization. */
  predicate Serialized(p: Schema, e: Entry)
    requires p.FlatMapS?
  {
    Encode(p.key, e.key) == Ok(e.keyBytes) && Encode(p.value, e.value) == Ok(e.valueBytes)
  }

  /** Every key and every value of `m` serializes. */
  predicate AllSerialize(p: Schema, m: seq<(Value, Value)>)
    requires p.FlatMapS?
  {
    forall j :: 0 <= j < |m| ==> Encode(p.key, m[j].0).Ok? && Encode(p.value, m[j].1).Ok?
  }

  /** No two keys of `m` serialize alike. */
  predicate KeysApart(p: Schema, m: seq<(Value, Value)>)
    requires p.FlatMapS?
  {
    forall i, j :: 0 <= i < j < |m| ==> Encode(p.key, m[i].0) != Encode(p.key, m[j].0)
  }

  /** The bytes of a serialization that succeeded. */
  function BytesOf(r: Result<seq<byte>>): seq<byte> {
    if r.Ok? then r.value else []
  }

  /** The entry made of one key and value of the map. */
  function EntryOf(p: Schema, kv: (Value, Value)): Entry
    requires p.FlatMapS?
  {
    Entry(kv.0, kv.1, BytesOf(Encode(p.key, kv.0)), BytesOf(Encode(p.value, kv.1)))
  }

  /** The entries of `m`, in the map's order. */
  function Entries(p: Schema, m: seq<(Value, Value)>): (r: seq<Entry>)
    requires p.FlatMapS?
    ensures |r| == |m| && forall j :: 0 <= j < |m| ==> r[j] == EntryOf(p, m[j])
  {
    Mapped(m, kv => EntryOf(p, kv))
  }

  /** The serialization loop succeeds exactly when every key and value serializes, and then lists the entries. */
  lemma SerializedAll(p: Schema, m: seq<(Value, Value)>)
    requires p.FlatMapS?
    ensures SerializeEntries(p, m, 0, []).Ok? <==> AllSerialize(p, m)
    ensures SerializeEntries(p, m, 0, []).Ok? ==> SerializeEntries(p, m, 0, []).value == Entries(p, m)
  {
  }

  /** With every key serialized, the keys are apart exactly when the entries' serialized keys are distinct. */
  lemma ApartDistinct(p: Schema, m: seq<(Value, Value)>)
    requires p.FlatMapS? && AllSerialize(p, m)
    ensures Distinct(KeysOf(Entries(p, m))) <==> KeysApart(p, m)
    ensures KeysApart(p, m) <==> DistinctKeysBy(Entries(p, m), KeyOf)
  {
    var es := Entries(p, m);
    assert forall j :: 0 <= j < |m| ==> KeysOf(es)[j] == KeyOf(es[j]) == Encode(p.key, m[j].0).value;
  }

  /**
   * `_prepareInput` succeeds exactly when the input is a map (or an array
   * of pairs with no repeated key) whose keys and values all serialize and
   * whose keys serialize to different bytes; its result is then the
   * entries sorted by serialized key.
   */
  lemma PreparedEntries(p: Schema, v: Value)
    requires p.FlatMapS?
    ensures PrepareMap(p, v).Ok? <==>
              InputMap(v).Ok? && AllSerialize(p, InputMap(v).value) && KeysApart(p, InputMap(v).value)
    ensures PrepareMap(p, v).Ok? ==> PrepareMap(p, v).value == InsertionSort(Entries(p, InputMap(v).value), KeyOf)
  {
    if InputMap(v).Ok? {
      var m := InputMap(v).value;
      SerializedAll(p, m);
      if AllSerialize(p, m) {
        ApartDistinct(p, m);
      }
    }
  }

  /**
   * What `_prepareInput` returns: one entry per map entry, each carrying
   * its key's and value's serializations, strictly ascending by serialized
   * key, and a reordering of the map's entries.
   */
  lemma PreparedSorted(p: Schema, v: Value)
    requires p.FlatMapS? && PrepareMap(p, v).Ok?
    ensures var m := InputMap(v).value; var r := PrepareMap(p, v).value;
              |r| == |m| && StrictlySortedBy(r, KeyOf) && multiset(r) == multiset(Entries(p, m)) &&
              forall e :: e in r ==> Serialized(p, e)
  {
    PreparedEntries(p, v);
    var m := InputMap(v).value;
    var es := Entries(p, m);
    var r := PrepareMap(p, v).value;
    ApartDistinct(p, m);
    InsertionSortSorts(es, KeyOf);
    PermutationDistinctKeys(es, r, KeyOf);
    SortedDistinctIsStrict(r, KeyOf);
    forall e | e in r ensures Serialized(p, e) {
      assert e in multiset(es);
      var j :| 0 <= j < |es| && es[j] == e;
    }
  }

  /* ---------------------------------------------------------------------- */
  /* Input errors                                                           */
  /* ---------------------------------------------------------------------- */

  /** The pairs of an array as `[key, value]` arrays. */
  function PairArrays(m: seq<(Value, Value)>): (r: seq<Value>)
    ensures |r| == |m| && forall j :: 0 <= j < |m| ==> r[j] == Arr([m[j].0, m[j].1])
  {
    seq(|m|, j requires 0 <= j < |m| => Arr([m[j].0, m[j].1]))
  }

  /**
   * Array input: with no repeated key it is the Map of its pairs; a
   * repeated key fails with "map key duplicate", whatever the serializations.
   */
  lemma ArrayInput(p: Schema, m: seq<(Value, Value)>)
    requires p.FlatMapS?
    ensures DistinctKeys(m) ==> PrepareMap(p, Arr(PairArrays(m))) == PrepareMap(p, MapOf(m))
    ensures !DistinctKeys(m) ==> PrepareMap(p, Arr(PairArrays(m))) == Err(Fail(MapKeyDuplicate))
  {
    PairsOfArrays(m);
    if DistinctKeys(m) {
      NewMapOfDistinct(m);
      assert InputMap(Arr(PairArrays(m))) == InputMap(MapOf(m));
    }
  }

  lemma PairsOfArrays(m: seq<(Value, Value)>)
    ensures Pairs(PairArrays(m)) == Ok(m)
  {
    var items := PairArrays(m);
    assert forall i :: 0 <= i < |items| ==> items[i].Arr? && ArrItem(items[i].items, 0) == m[i].0 && ArrItem(items[i].items, 1) == m[i].1;
    assert Pairs(items).Ok?;
    assert Pairs(items).value == m;
  }

  /** Input that is neither an array nor a Map is refused. */
  lemma NotAMap(p: Schema, v: Value)
    requires p.FlatMapS? && !v.Arr? && !v.MapOf?
    ensures PrepareMap(p, v) == Err(Fail(NotOfType))
  {
  }

  /**
   * Two different keys of a map that serialize to the same bytes fail with
   * "key duplicates".
   */
  lemma KeyClash(p: Schema, v: Value, i: nat, j: nat)
    requires p.FlatMapS? && InputMap(v).Ok? && AllSerialize(p, InputMap(v).value)
    requires i < j < |InputMap(v).value|
    requires Encode(p.key, InputMap(v).value[i].0) == Encode(p.key, InputMap(v).value[j].0)
    ensures PrepareMap(p, v) == Err(Fail(MapKeyDuplicates))
  {
    var m := InputMap(v).value;
    SerializedAll(p, m);
    ApartDistinct(p, m);
  }

  /**
   * The first entry (in the map's order) whose key or value fails to
   * serialize decides the failure, located `flat_map["k"]` for a string key
   * and `flat_map[j]` otherwise.
   */
  lemma EntryFailure(p: Schema, v: Value, j: nat)
    requires p.FlatMapS? && InputMap(v).Ok? && j < |InputMap(v).value|
    requires forall k :: 0 <= k < j ==> Encode(p.key, InputMap(v).value[k].0).Ok? && Encode(p.value, InputMap(v).value[k].1).Ok?
    requires Encode(p.key, InputMap(v).value[j].0).Err? || Encode(p.value, InputMap(v).value[j].1).Err?
    ensures var kv := InputMap(v).value[j];
            var failed := if Encode(p.key, kv.0).Err? then Encode(p.key, kv.0) else Encode(p.value, kv.1);
            PrepareMap(p, v) == Err(Prefix(EntrySeg(kv.0, j), failed.error))
  {
    EntriesFailAt(p, InputMap(v).value, 0, [], j);
  }

  lemma {:induction false} EntriesFailAt(p: Schema, m: seq<(Value, Value)>, i: nat, acc: seq<Entry>, j: nat)
    requires p.FlatMapS? && i <= j < |m|
    requires forall k :: i <= k < j ==> Encode(p.key, m[k].0).Ok? && Encode(p.value, m[k].1).Ok?
    requires Encode(p.key, m[j].0).Err? || Encode(p.value, m[j].1).Err?
    ensures var failed := if Encode(p.key, m[j].0).Err? then Encode(p.key, m[j].0) else Encode(p.value, m[j].1);
            SerializeEntries(p, m, i, acc) == Err(Prefix(EntrySeg(m[j].0, j), failed.error))
    decreases j - i
  {
    if i < j {
      var e := Entry(m[i].0, m[i].1, Encode(p.key, m[i].0).value, Encode(p.value, m[i].1).value);
      EntriesFailAt(p, m, i + 1, acc + [e], j);
    }
  }

  /* ---------------------------------------------------------------------- */
  /* Serialization                                                          */
  /* ---------------------------------------------------------------------- */

  /**
   * `appendToByteBuffer`: the prepared entries, their count, then each
   * entry's serialized key and serialized value.
   */
  method AppendFlatMap(p: Schema, v: Value, sink: ByteSink) returns (err: Option<Error>)
    requires p.FlatMapS?
    modifies sink
    ensures sink.data == old(sink.data) + Append(p, v).bytes
    ensures err == Append(p, v).failure
  {
    var prepared := PrepareInput(p, v);
    if prepared.Err? {
      return Some(prepared.error);
    }
    var entries := prepared.value;
    var count := AppendInt(VarInt32, Num(|entries|), sink);
    if count.Some? {
      return count;
    }
    ghost var target := sink.data + EntryBytes(entries);
    Regroup3(old(sink.data), IntAppend(VarInt32, Num(|entries|)).value, EntryBytes(entries));
    Whole(entries);
    var i := 0;
    while i < |entries|
      invariant 0 <= i <= |entries|
      invariant sink.data + EntryBytes(entries[i..]) == target
    {
      EntryStep(sink.data, entries, i);
      sink.Append(entries[i].keyBytes);
      sink.Append(entries[i].valueBytes);
      i := i + 1;
    }
    assert entries[i..] == [];
    return None;
  }

  /** What is still to write after entry `i` is written. */
  lemma EntryStep(d: seq<byte>, entries: seq<Entry>, i: nat)
    requires i < |entries|
    ensures d + entries[i].keyBytes + entries[i].valueBytes + EntryBytes(entries[i + 1..]) == d + EntryBytes(entries[i..])
  {
    assert entries[i..][1..] == entries[i + 1..];
  }

  /**
   * Serialization: `_prepareInput`'s failure; otherwise the varint32 count
   * of the entries and, for each entry in ascending order of serialized
   * key, the key's bytes and the value's bytes.
   */
  lemma FlatMapEncoding(p: Schema, v: Value)
    requires p.FlatMapS?
    ensures PrepareMap(p, v).Err? ==> Encode(p, v) == Err(PrepareMap(p, v).error)
    ensures PrepareMap(p, v).Ok? && |PrepareMap(p, v).value| > 0x7FFF_FFFF ==> Encode(p, v).Err?
    ensures PrepareMap(p, v).Ok? && |PrepareMap(p, v).value| <= 0x7FFF_FFFF ==>
              var es := PrepareMap(p, v).value;
              Encode(p, v) == Ok(Leb128(|es|) + EntryBytes(es))
  {
    EncodesAsFlatMap(p, v);
    MaxAbsValues();
    if PrepareMap(p, v).Ok? && |PrepareMap(p, v).value| <= 0x7FFF_FFFF {
      VarintAppendOfCount(|PrepareMap(p, v).value|);
    }
  }

  /**
   * Entry order does not matter: two Maps with the same entries, in any
   * insertion order, prepare, serialize and convert to JSON alike, once
   * one of them is accepted.
   */
  lemma FlatMapOrderIndependent(p: Schema, m1: seq<(Value, Value)>, m2: seq<(Value, Value)>)
    requires p.FlatMapS? && multiset(m1) == multiset(m2) && PrepareMap(p, MapOf(m1)).Ok?
    ensures PrepareMap(p, MapOf(m2)) == PrepareMap(p, MapOf(m1))
    ensures Encode(p, MapOf(m2)) == Encode(p, MapOf(m1))
    ensures ToJson(p, MapOf(m2)) == ToJson(p, MapOf(m1))
  {
    SameEntries(p, m1, m2);
    EncodesAsFlatMap(p, MapOf(m1));
    EncodesAsFlatMap(p, MapOf(m2));
    JsonAsFlatMap(p, MapOf(m1));
    JsonAsFlatMap(p, MapOf(m2));
  }

  lemma SameEntries(p: Schema, m1: seq<(Value, Value)>, m2: seq<(Value, Value)>)
    requires p.FlatMapS? && multiset(m1) == multiset(m2) && PrepareMap(p, MapOf(m1)).Ok?
    ensures PrepareMap(p, MapOf(m2)) == PrepareMap(p, MapOf(m1))
  {
    PreparedEntries(p, MapOf(m1));
    PreparedEntries(p, MapOf(m2));
    assert AllSerialize(p, m2) by {
      forall j | 0 <= j < |m2| ensures Encode(p.key, m2[j].0).Ok? && Encode(p.value, m2[j].1).Ok? {
        assert m2[j] in multiset(m1);
      }
    }
    var e1 := Entries(p, m1);
    var e2 := Entries(p, m2);
    EntriesPermutation(p, m1, m2);
    ApartDistinct(p, m1);
    ApartDistinct(p, m2);
    PermutationDistinctKeys(e1, e2, KeyOf);
    DistinctKeysInjective(e1, KeyOf);
    SortOrderIndependent(e1, e2, KeyOf);
  }

  lemma EntriesPermutation(p: Schema, m1: seq<(Value, Value)>, m2: seq<(Value, Value)>)
    requires p.FlatMapS? && multiset(m1) == multiset(m2)
    ensures multiset(Entries(p, m1)) == multiset(Entries(p, m2))
  {
    var f := kv => EntryOf(p, kv);
    MappedPermutation(m1, m2, f);
    assert Entries(p, m1) == Mapped(m1, f);
    assert Entries(p, m2) == Mapped(m2, f);
  }

  /* ---------------------------------------------------------------------- */
  /* JSON                                                                   */
  /* ---------------------------------------------------------------------- */

  /** The JSON of an entry: its key's and its value's JSON, as a pair. */
  function PairJson(p: Schema, e: Entry): Value
    requires p.FlatMapS? && ToJson(p.key, e.key).Ok? && ToJson(p.value, e.value).Ok?
  {
    Arr([ToJson(p.key, e.key).value, ToJson(p.value, e.value).value])
  }

  /** An entry's key and value both convert to JSON. */
  predicate PairConverts(p: Schema, e: Entry)
    requires p.FlatMapS?
  {
    ToJson(p.key, e.key).Ok? && ToJson(p.value, e.value).Ok?
  }

  /** Every entry from position `i` on converts to JSON. */
  predicate ConvertFrom(p: Schema, es: seq<Entry>, i: nat)
    requires p.FlatMapS?
  {
    forall k :: i <= k < |es| ==> PairConverts(p, es[k])
  }

  /** The JSON pairs of the entries from position `i` on, when they all convert. */
  function JsonOf(p: Schema, es: seq<Entry>, i: nat): (r: seq<Value>)
    requires p.FlatMapS? && i <= |es| && ConvertFrom(p, es, i)
    ensures |r| == |es| - i && forall k :: 0 <= k < |r| ==> r[k] == PairJson(p, es[i + k])
  {
    seq(|es| - i, k requires 0 <= k < |es| - i => PairJson(p, es[i + k]))
  }

  /**
   * `toJSON`: `_prepareInput`'s failure, or one `[keyJSON, valueJSON]` pair
   * per prepared entry, in the same (serialized-key) order; it succeeds
   * exactly when every key and value converts.
   */
  lemma FlatMapJson(p: Schema, v: Value)
    requires p.FlatMapS?
    ensures PrepareMap(p, v).Err? ==> ToJson(p, v) == Err(PrepareMap(p, v).error)
    ensures PrepareMap(p, v).Ok? ==> (ToJson(p, v).Ok? <==> ConvertFrom(p, PrepareMap(p, v).value, 0))
    ensures ToJson(p, v).Ok? ==>
              PrepareMap(p, v).Ok? && ToJson(p, v).value.Arr? &&
              var es := PrepareMap(p, v).value;
              var items := ToJson(p, v).value.items;
              |items| == |es| && ConvertFrom(p, es, 0) &&
              forall j :: 0 <= j < |es| ==> items[j] == PairJson(p, es[j])
  {
    JsonAsFlatMap(p, v);
    if PrepareMap(p, v).Ok? {
      var es := PrepareMap(p, v).value;
      PairsJsonFrom(p, es, 0, []);
    }
  }

  /** The conversion loop from entry `i`: it fails exactly when a later entry does not convert, and otherwise appends their pairs. */
  lemma {:induction false} PairsJsonFrom(p: Schema, es: seq<Entry>, i: nat, acc: seq<Value>)
    requires p.FlatMapS? && i <= |es|
    ensures PairsToJson(p, es, i, acc).Ok? <==> ConvertFrom(p, es, i)
    ensures PairsToJson(p, es, i, acc).Ok? ==> PairsToJson(p, es, i, acc).value == acc + JsonOf(p, es, i)
    decreases |es| - i
  {
    if i == |es| {
      assert acc + JsonOf(p, es, i) == acc;
    } else {
      JsonTurn(p, es, i, acc);
      if PairConverts(p, es[i]) {
        var pair := PairJson(p, es[i]);
        PairsJsonFrom(p, es, i + 1, acc + [pair]);
        if ConvertFrom(p, es, i + 1) {
          JsonOfStep(p, es, i);
          Regroup3(acc, [pair], JsonOf(p, es, i + 1));
        }
      }
    }
  }

  /** One turn of the conversion loop: entry `i`'s pair appended, or a failure when it does not convert. */
  lemma JsonTurn(p: Schema, es: seq<Entry>, i: nat, acc: seq<Value>)
    requires p.FlatMapS? && i < |es|
    ensures ConvertFrom(p, es, i) <==> PairConverts(p, es[i]) && ConvertFrom(p, es, i + 1)
    ensures !PairConverts(p, es[i]) ==> PairsToJson(p, es, i, acc).Err?
    ensures PairConverts(p, es[i]) ==> PairsToJson(p, es, i, acc) == PairsToJson(p, es, i + 1, acc + [PairJson(p, es[i])])
  {
  }

  /** The pairs from entry `i` on are entry `i`'s and then the rest. */
  lemma JsonOfStep(p: Schema, es: seq<Entry>, i: nat)
    requires p.FlatMapS? && i < |es| && ConvertFrom(p, es, i)
    ensures JsonOf(p, es, i) == [PairJson(p, es[i])] + JsonOf(p, es, i + 1)
  {
  }

  /**
   * `fromJSON`: a loop over the pairs that converts the key and then the
   * value (each failure located at the pair) and `set`s them into a new
   * Map; the Map is then checked by `_prepareInput`.
   */
  method FromJsonPairs(p: Schema, j: Value) returns (r: Result<Value>)
    requires p.FlatMapS?
    ensures r == FromJson(p, j)
  {
    JsonAsFlatMap(p, j);
    if !j.Arr? {
      return Err(Fail(NotOfType));
    }
    var items := j.items;
    var result: seq<(Value, Value)> := [];
    var i := 0;
    while i < |items|
      invariant 0 <= i <= |items|
      invariant PairsFromJson(p, items, 0, []) == PairsFromJson(p, items, i, result)
    {
      var kj := Item(items[i], 0);
      if kj.Err? {
        return Err(kj.error);
      }
      var k := FromJson(p.key, kj.value);
      if k.Err? {
        return Err(Prefix(EntrySeg(kj.value, i), k.error));
      }
      var vj := Property(items[i], 1);
      var x := FromJson(p.value, vj);
      if x.Err? {
        return Err(Prefix(EntrySeg(vj, i), x.error));
      }
      result := MapSet(result, k.value, x.value);
      i := i + 1;
    }
    var check := PrepareInput(p, MapOf(result));
    if check.Err? {
      return Err(check.error);
    }
    return Ok(MapOf(result));
  }

  /**
   * What `fromJSON` returns is a Map with each key once that `_prepareInput`
   * accepts; a later pair with an equal key overwrites an earlier one.
   */
  lemma FlatMapFromJsonChecked(p: Schema, j: Value)
    requires p.FlatMapS?
    ensures FromJson(p, j).Ok? ==>
              FromJson(p, j).value.MapOf? && DistinctKeys(FromJson(p, j).value.entries) &&
              PrepareMap(p, FromJson(p, j).value).Ok?
  {
    JsonAsFlatMap(p, j);
  }

  /* ---------------------------------------------------------------------- */
  /* Decoding                                                               */
  /* ---------------------------------------------------------------------- */

  /**
   * `readFromBuffer`: the varint32 count (its failure located at index -1),
   * then a loop that reads a key and then a value at the current offset
   * (failures located at the entry's index), moves the offset past them and
   * `set`s them into the Map; the Map is then checked by `_prepareInput`.
   */
  method ReadFlatMap(p: Schema, buf: seq<byte>, off: nat) returns (r: Result<(Value, nat)>)
    requires p.FlatMapS?
    ensures r == Decode(p, buf, off)
  {
    DecodesAsFlatMap(p, buf, off);
    var c := IntRead(VarInt32, buf, off);
    if c.Err? {
      return Err(Prefix(MapAt(-1), c.error));
    }
    var size := c.value.0.n;
    var start := c.value.1;
    var offset := start;
    var result: seq<(Value, Value)> := [];
    var i := 0;
    while i < size
      invariant DecodePairs(p, buf, start, size, 0, []) == DecodePairs(p, buf, offset, size, i, result)
      decreases size - i
    {
      var k := Decode(p.key, buf, offset);
      if k.Err? {
        return Err(Prefix(MapAt(i), k.error));
      }
      var x := Decode(p.value, buf, k.value.1);
      if x.Err? {
        return Err(Prefix(MapAt(i), x.error));
      }
      offset := x.value.1;
      result := MapSet(result, k.value.0, x.value.0);
      i := i + 1;
    }
    var check := PrepareInput(p, MapOf(result));
    if check.Err? {
      return Err(check.error);
    }
    return Ok((MapOf(result), offset));
  }

  /**
   * Decoding: a failing count fails located at index -1; a decoded map has
   * each key once, no more entries than the count, and passes
   * `_prepareInput`, though the entries need not come in sorted order.
   */
  lemma FlatMapDecode(p: Schema, buf: seq<byte>, off: nat)
    requires p.FlatMapS?
    ensures IntRead(VarInt32, buf, off).Err? ==>
              Decode(p, buf, off) == Err(Prefix(MapAt(-1), IntRead(VarInt32, buf, off).error))
    ensures Decode(p, buf, off).Ok? ==>
              IntRead(VarInt32, buf, off).Ok? && Decode(p, buf, off).value.0.MapOf? &&
              var m := Decode(p, buf, off).value.0.entries;
              DistinctKeys(m) && |m| <= IntRead(VarInt32, buf, off).value.0.n && PrepareMap(p, MapOf(m)).Ok?
  {
    DecodesAsFlatMap(p, buf, off);
    if IntRead(VarInt32, buf, off).Ok? {
      var (c, start) := IntRead(VarInt32, buf, off).value;
      PairsKept(p, buf, start, c.n, 0, []);
      if Decode(p, buf, off).Ok? {
        PreparedDistinct(p, Decode(p, buf, off).value.0.entries);
      }
    }
  }

  /** A Map that passes `_prepareInput` has each key once: equal keys would serialize alike. */
  lemma PreparedDistinct(p: Schema, m: seq<(Value, Value)>)
    requires p.FlatMapS? && PrepareMap(p, MapOf(m)).Ok?
    ensures DistinctKeys(m)
  {
    PreparedEntries(p, MapOf(m));
  }

  /** The decode loop adds at most one entry per turn. */
  lemma {:induction false} PairsKept(p: Schema, buf: seq<byte>, off: nat, count: int, i: nat, acc: seq<(Value, Value)>)
    requires p.FlatMapS? && |acc| <= i
    ensures DecodePairs(p, buf, off, count, i, acc).Ok? ==>
              |DecodePairs(p, buf, off, count, i, acc).value.0| <= if i < count then count else i
    decreases count - i
  {
    if i < count {
      var k := Decode(p.key, buf, off);
      if k.Ok? {
        var x := Decode(p.value, buf, k.value.1);
        if x.Ok? {
          var next := MapSet(acc, k.value.0, x.value.0);
          MapSetGrows(acc, k.value.0, x.value.0);
          PairsKept(p, buf, x.value.1, count, i + 1, next);
          PairsTurn(p, buf, off, count, i, acc, k.value.0, k.value.1, x.value.0, x.value.1, next,
                    DecodePairs(p, buf, x.value.1, count, i + 1, next));
        }
      }
    }
  }

  /** `set` adds at most one entry. */
  lemma MapSetGrows(m: seq<(Value, Value)>, k: Value, v: Value)
    ensures |MapSet(m, k, v)| <= |m| + 1
  {
  }

  /* ---------------------------------------------------------------------- */
  /* Round trip                                                             */
  /* ---------------------------------------------------------------------- */

  /**
   * When each prepared entry's key and value come back from their codecs
   * (as `ws[j]`, in ascending order of serialized key), the map comes back
   * as the Map of `ws`: the count and the entries read in turn, and the
   * Map passes `_prepareInput` again.
   */
  lemma FlatMapFaithful(p: Schema, v: Value, ws: seq<(Value, Value)>)
    requires p.FlatMapS? && PrepareMap(p, v).Ok? && |PrepareMap(p, v).value| <= 0x7FFF_FFFF
    requires |ws| == |PrepareMap(p, v).value|
    requires forall j :: 0 <= j < |ws| ==>
               Faithful(p.key, PrepareMap(p, v).value[j].key, ws[j].0) &&
               Faithful(p.value, PrepareMap(p, v).value[j].value, ws[j].1)
    ensures Faithful(p, v, MapOf(ws))
  {
    var es := PrepareMap(p, v).value;
    PreparedSorted(p, v);
    forall j | 0 <= j < |es| ensures Serialized(p, es[j]) {
      assert es[j] in es;
    }
    DecodedEntries(p, es, ws);
    ReplacedPrepared(p, es, ws);
    SameEntryBytes(es, Replaced(es, ws));
    FlatMapEncoding(p, v);
    FlatMapEncoding(p, MapOf(ws));
    FlatMapDecodesAt(p, es, ws);
  }

  /** Entry `j`'s key and value parts decode, wherever they sit, to the key and value at position `j`. */
  ghost predicate EntryDecodes(p: Schema, es: seq<Entry>, ws: seq<(Value, Value)>, j: nat)
    requires p.FlatMapS? && |ws| == |es| && j < |es|
  {
    DecodesAt(p.key, es[j].keyBytes, ws[j].0) && DecodesAt(p.value, es[j].valueBytes, ws[j].1)
  }

  /** Every entry's parts decode to the key and value at the same position. */
  ghost predicate EntriesDecode(p: Schema, es: seq<Entry>, ws: seq<(Value, Value)>)
    requires p.FlatMapS?
  {
    |es| == |ws| && forall j :: 0 <= j < |es| ==> EntryDecodes(p, es, ws, j)
  }

  /** The entries with the decoded keys and values in place of the original ones. */
  function Replaced(es: seq<Entry>, ws: seq<(Value, Value)>): (r: seq<Entry>)
    requires |ws| == |es|
    ensures |r| == |es|
    ensures forall j :: 0 <= j < |es| ==> r[j] == Entry(ws[j].0, ws[j].1, es[j].keyBytes, es[j].valueBytes)
  {
    seq(|es|, j requires 0 <= j < |es| => Entry(ws[j].0, ws[j].1, es[j].keyBytes, es[j].valueBytes))
  }

  /** The decoded keys and values serialize as the originals did, and their parts decode to them. */
  lemma DecodedEntries(p: Schema, es: seq<Entry>, ws: seq<(Value, Value)>)
    requires p.FlatMapS? && |ws| == |es|
    requires forall j :: 0 <= j < |es| ==> Serialized(p, es[j])
    requires forall j :: 0 <= j < |ws| ==> Faithful(p.key, es[j].key, ws[j].0) && Faithful(p.value, es[j].value, ws[j].1)
    ensures forall j :: 0 <= j < |es| ==> Encode(p.key, ws[j].0) == Ok(es[j].keyBytes) && Encode(p.value, ws[j].1) == Ok(es[j].valueBytes)
    ensures EntriesDecode(p, es, ws)
  {
  }

  /**
   * The Map of the decoded entries, whose keys serialize to the same
   * ascending bytes, has each key once and is prepared to the same entries
   * in the same order.
   */
  lemma ReplacedPrepared(p: Schema, es: seq<Entry>, ws: seq<(Value, Value)>)
    requires p.FlatMapS? && |ws| == |es| && StrictlySortedBy(es, KeyOf)
    requires forall j :: 0 <= j < |es| ==> Encode(p.key, ws[j].0) == Ok(es[j].keyBytes) && Encode(p.value, ws[j].1) == Ok(es[j].valueBytes)
    ensures DistinctKeys(ws)
    ensures PrepareMap(p, MapOf(ws)) == Ok(Replaced(es, ws))
  {
    var rs := Replaced(es, ws);
    forall i, j | 0 <= i < j < |es| ensures es[i].keyBytes != es[j].keyBytes && Le(KeyOf(rs[i]), KeyOf(rs[j])) {
      LessIrreflexive(es[i].keyBytes);
      LessAsymmetric(es[i].keyBytes, es[j].keyBytes);
    }
    assert DistinctKeysBy(rs, KeyOf);
    assert Entries(p, ws) == rs;
    PreparedEntries(p, MapOf(ws));
    DistinctKeysInjective(rs, KeyOf);
    SortSorted(rs, KeyOf);
  }

  /** Entries with the same key and value bytes are written alike. */
  lemma {:induction false} SameEntryBytes(es: seq<Entry>, rs: seq<Entry>)
    requires |rs| == |es|
    requires forall j :: 0 <= j < |es| ==> rs[j].keyBytes == es[j].keyBytes && rs[j].valueBytes == es[j].valueBytes
    ensures EntryBytes(rs) == EntryBytes(es)
  {
    if es != [] {
      SameEntryBytes(es[1..], rs[1..]);
    }
  }

  /**
   * Wherever the count and entries whose parts decode to `ws` sit, the Map
   * of `ws` is read, up to the end of the last entry.
   */
  lemma FlatMapDecodesAt(p: Schema, es: seq<Entry>, ws: seq<(Value, Value)>)
    requires p.FlatMapS? && |es| <= 0x7FFF_FFFF && EntriesDecode(p, es, ws) && DistinctKeys(ws)
    requires PrepareMap(p, MapOf(ws)).Ok?
    ensures DecodesAt(p, Leb128(|es|) + EntryBytes(es), MapOf(ws))
  {
    forall buf: seq<byte>, off: nat | Holds(buf, off, Leb128(|es|) + EntryBytes(es))
      ensures Decode(p, buf, off) == Ok((MapOf(ws), off + |Leb128(|es|) + EntryBytes(es)|))
    {
      FlatMapPlaced(p, es, ws, buf, off);
    }
  }

  /** The same at one placement. */
  lemma FlatMapPlaced(p: Schema, es: seq<Entry>, ws: seq<(Value, Value)>, buf: seq<byte>, off: nat)
    requires p.FlatMapS? && |es| <= 0x7FFF_FFFF && EntriesDecode(p, es, ws) && DistinctKeys(ws)
    requires PrepareMap(p, MapOf(ws)).Ok?
    requires Holds(buf, off, Leb128(|es|) + EntryBytes(es))
    ensures Decode(p, buf, off) == Ok((MapOf(ws), off + |Leb128(|es|) + EntryBytes(es)|))
  {
    CountThen(|es|, EntryBytes(es), buf, off);
    EntriesAfterCount(p, es, ws, buf, off, off + |Leb128(|es|)|);
  }

  /** The count read at `off` and ending at `start`, where the entries sit. */
  lemma EntriesAfterCount(p: Schema, es: seq<Entry>, ws: seq<(Value, Value)>, buf: seq<byte>, off: nat, start: nat)
    requires p.FlatMapS? && EntriesDecode(p, es, ws) && DistinctKeys(ws) && PrepareMap(p, MapOf(ws)).Ok?
    requires IntRead(VarInt32, buf, off) == Ok((Num(|es|), start)) && Holds(buf, start, EntryBytes(es))
    ensures Decode(p, buf, off) == Ok((MapOf(ws), start + |EntryBytes(es)|))
  {
    AllRead(p, es, ws, buf, start);
    PairsAfterCount(p, es, ws, buf, off, start, Offsets(es, start));
  }

  /** Where each entry starts when the first one starts at `start`; the last element is where the entries end. */
  function Offsets(es: seq<Entry>, start: nat): (r: seq<nat>)
    ensures |r| == |es| + 1 && r[0] == start && r[|es|] == start + |EntryBytes(es)|
    decreases |es|
  {
    if es == [] then [start] else [start] + Offsets(es[1..], start + |es[0].keyBytes| + |es[0].valueBytes|)
  }

  /** Each entry starts where the one before it ends. */
  lemma {:induction false} OffsetsStep(es: seq<Entry>, start: nat, j: nat)
    requires j < |es|
    ensures Offsets(es, start)[j + 1] == Offsets(es, start)[j] + |es[j].keyBytes| + |es[j].valueBytes|
  {
    if j > 0 {
      OffsetsStep(es[1..], start + |es[0].keyBytes| + |es[0].valueBytes|, j - 1);
      assert es[1..][j - 1] == es[j];
    }
  }

  /** Entries held from `start` on: entry `j`'s key bytes at its offset, its value bytes right after. */
  lemma {:induction false} EntryHeld(es: seq<Entry>, buf: seq<byte>, start: nat, j: nat)
    requires j < |es| && Holds(buf, start, EntryBytes(es))
    ensures Holds(buf, Offsets(es, start)[j], es[j].keyBytes)
    ensures Holds(buf, Offsets(es, start)[j] + |es[j].keyBytes|, es[j].valueBytes)
  {
    var k, x, rest := es[0].keyBytes, es[0].valueBytes, EntryBytes(es[1..]);
    assert EntryBytes(es) == k + (x + rest);
    HoldsParts(buf, start, k, x + rest);
    HoldsParts(buf, start + |k|, x, rest);
    if j > 0 {
      EntryHeld(es[1..], buf, start + |k| + |x|, j - 1);
      assert es[1..][j - 1] == es[j];
    }
  }

  /**
   * Entry `j`'s key and value are read at its offset, ending where the next
   * entry starts, and setting them appends them to the entries before.
   */
  ghost predicate EntryRead(p: Schema, es: seq<Entry>, ws: seq<(Value, Value)>, buf: seq<byte>, offs: seq<nat>, j: nat)
    requires p.FlatMapS? && |ws| == |es| && |offs| == |es| + 1 && j < |es|
  {
    Decode(p.key, buf, offs[j]) == Ok((ws[j].0, offs[j] + |es[j].keyBytes|)) &&
    Decode(p.value, buf, offs[j] + |es[j].keyBytes|) == Ok((ws[j].1, offs[j + 1])) &&
    MapSet(ws[..j], ws[j].0, ws[j].1) == ws[..j + 1]
  }

  /** Every entry is read at its offset. */
  ghost predicate EntriesRead(p: Schema, es: seq<Entry>, ws: seq<(Value, Value)>, buf: seq<byte>, offs: seq<nat>)
    requires p.FlatMapS?
  {
    |ws| == |es| && |offs| == |es| + 1 && forall j :: 0 <= j < |es| ==> EntryRead(p, es, ws, buf, offs, j)
  }

  /** Entries held from `start` on, whose parts decode to `ws`, are each read at their offsets. */
  lemma AllRead(p: Schema, es: seq<Entry>, ws: seq<(Value, Value)>, buf: seq<byte>, start: nat)
    requires p.FlatMapS? && EntriesDecode(p, es, ws) && DistinctKeys(ws) && Holds(buf, start, EntryBytes(es))
    ensures EntriesRead(p, es, ws, buf, Offsets(es, start))
  {
    var offs := Offsets(es, start);
    forall j | 0 <= j < |es| ensures EntryRead(p, es, ws, buf, offs, j) {
      assert EntryDecodes(p, es, ws, j);
      EntryHeld(es, buf, start, j);
      OffsetsStep(es, start, j);
      ReadAt(p.key, p.value, buf, offs[j], es[j].keyBytes, ws[j].0, es[j].valueBytes, ws[j].1, offs[j + 1]);
      FreshKey(ws, j);
    }
  }

  /** A key and a value held one after the other, each decoding wherever it sits, are read there. */
  lemma ReadAt(kc: Schema, vc: Schema, buf: seq<byte>, o: nat, kb: seq<byte>, k: Value, vb: seq<byte>, x: Value, o2: nat)
    requires DecodesAt(kc, kb, k) && DecodesAt(vc, vb, x)
    requires Holds(buf, o, kb) && Holds(buf, o + |kb|, vb) && o2 == o + |kb| + |vb|
    ensures Decode(kc, buf, o) == Ok((k, o + |kb|)) && Decode(vc, buf, o + |kb|) == Ok((x, o2))
  {
    DecodesHolds(kc, kb, k, buf, o);
    DecodesHolds(vc, vb, x, buf, o + |kb|);
  }

  /** The count read at `off` and ending at `start`, where the entries read at their offsets begin. */
  lemma PairsAfterCount(p: Schema, es: seq<Entry>, ws: seq<(Value, Value)>, buf: seq<byte>, off: nat, start: nat, offs: seq<nat>)
    requires p.FlatMapS? && EntriesRead(p, es, ws, buf, offs) && offs[0] == start && PrepareMap(p, MapOf(ws)).Ok?
    requires IntRead(VarInt32, buf, off) == Ok((Num(|es|), start))
    ensures Decode(p, buf, off) == Ok((MapOf(ws), offs[|es|]))
  {
    assert ws[..0] == [];
    PairsFrom(p, es, ws, buf, offs, 0);
    FlatMapStep(p, buf, off, |es|, start, ws, offs[|es|]);
  }

  lemma FlatMapStep(p: Schema, buf: seq<byte>, off: nat, n: nat, start: nat, ws: seq<(Value, Value)>, end: nat)
    requires p.FlatMapS? && IntRead(VarInt32, buf, off) == Ok((Num(n), start))
    requires DecodePairs(p, buf, start, n, 0, []) == Ok((ws, end)) && PrepareMap(p, MapOf(ws)).Ok?
    ensures Decode(p, buf, off) == Ok((MapOf(ws), end))
  {
    DecodesAsFlatMap(p, buf, off);
  }

  /**
   * The decode loop over the entries from `i` on, with the first `i`
   * already set: it reads the rest of `ws`, ending where the last entry
   * ends.
   */
  lemma {:induction false} PairsFrom(p: Schema, es: seq<Entry>, ws: seq<(Value, Value)>, buf: seq<byte>, offs: seq<nat>, i: nat)
    requires p.FlatMapS? && EntriesRead(p, es, ws, buf, offs) && i <= |es|
    ensures DecodePairs(p, buf, offs[i], |es|, i, ws[..i]) == Ok((ws, offs[|es|]))
    decreases |es| - i
  {
    if i == |es| {
      PairsDone(p, ws, buf, offs[i], i);
    } else {
      PairsFrom(p, es, ws, buf, offs, i + 1);
      PairsNext(p, es, ws, buf, offs, i, Ok((ws, offs[|es|])));
    }
  }

  /** Entry `i` read at its offset, then the loop from the next entry on. */
  lemma PairsNext(p: Schema, es: seq<Entry>, ws: seq<(Value, Value)>, buf: seq<byte>, offs: seq<nat>, i: nat,
                  r: Result<(seq<(Value, Value)>, nat)>)
    requires p.FlatMapS? && EntriesRead(p, es, ws, buf, offs) && i < |es|
    requires DecodePairs(p, buf, offs[i + 1], |es|, i + 1, ws[..i + 1]) == r
    ensures DecodePairs(p, buf, offs[i], |es|, i, ws[..i]) == r
  {
    assert EntryRead(p, es, ws, buf, offs, i);
    PairsTurn(p, buf, offs[i], |es|, i, ws[..i], ws[i].0, offs[i] + |es[i].keyBytes|, ws[i].1, offs[i + 1], ws[..i + 1], r);
  }

  /** One turn of the decode loop: a key, a value after it, `set`, then the rest of the loop. */
  lemma PairsTurn(p: Schema, buf: seq<byte>, off: nat, count: int, i: nat, acc: seq<(Value, Value)>,
                  k: Value, ko: nat, x: Value, o: nat, next: seq<(Value, Value)>, r: Result<(seq<(Value, Value)>, nat)>)
    requires p.FlatMapS? && i < count
    requires Decode(p.key, buf, off) == Ok((k, ko)) && Decode(p.value, buf, ko) == Ok((x, o))
    requires MapSet(acc, k, x) == next && DecodePairs(p, buf, o, count, i + 1, next) == r
    ensures DecodePairs(p, buf, off, count, i, acc) == r
  {
  }

  /** The loop stops once every entry is read. */
  lemma PairsDone(p: Schema, ws: seq<(Value, Value)>, buf: seq<byte>, end: nat, i: nat)
    requires p.FlatMapS? && i == |ws|
    ensures DecodePairs(p, buf, end, i, i, ws[..i]) == Ok((ws, end))
  {
    assert ws[..i] == ws;
  }

  /** With each key once, setting the next key appends it. */
  lemma FreshKey(ws: seq<(Value, Value)>, i: nat)
    requires DistinctKeys(ws) && i < |ws|
    ensures MapSet(ws[..i], ws[i].0, ws[i].1) == ws[..i + 1]
  {
    var init := ws[..i];
    assert forall j :: 0 <= j < |init| ==> init[j].0 != ws[i].0;
    MapSetNew(init, ws[i].0, ws[i].1);
    assert init + [ws[i]] == ws[..i + 1];
  }

  /* ---------------------------------------------------------------------- */
  /* Examples                                                               */
  /* ---------------------------------------------------------------------- */

  /** `flat_map(uint8, uint8)`, the schema of the examples below. */
  const ByteMap: Schema := FlatMapS(IntS(UInt8), IntS(UInt8))

  /** A uint8 number is written as the byte it is. */
  lemma ByteOf(n: nat)
    requires n < 256
    ensures Encode(IntS(UInt8), Num(n)) == Ok([n])
  {
    UInt8Byte(n, [], 0);
  }

  /** A uint8 is read as the byte at the offset. */
  lemma ByteAt(buf: seq<byte>, i: nat)
    requires i < |buf|
    ensures Decode(IntS(UInt8), buf, i) == Ok((Num(buf[i] as int), i + 1))
  {
    UInt8Byte(buf[i] as int, buf, i);
    DecodeInt(UInt8, buf, i);
  }

  /** A first byte below 0x80 is a whole varint32 count. */
  lemma CountByte(buf: seq<byte>)
    requires |buf| > 0 && buf[0] < 0x80
    ensures IntRead(VarInt32, buf, 0) == Ok((Num(buf[0] as int), 1))
  {
    assert VarintFrom(buf, 0) == Ok((buf[0] as int, 1));
    MaxAbsValues();
  }

  /** `_prepareInput` of {5: 1, 3: 2}: both entries serialized, then 3 before 5. */
  lemma ExamplePrepared()
    ensures PrepareMap(ByteMap, MapOf([(Num(5), Num(1)), (Num(3), Num(2))]))
            == Ok([Entry(Num(3), Num(2), [3], [2]), Entry(Num(5), Num(1), [5], [1])])
  {
    var m := [(Num(5), Num(1)), (Num(3), Num(2))];
    assert InputMap(MapOf(m)) == Ok(m);
    ExampleSerialized();
    ExampleSorted();
  }

  lemma ExampleSerialized()
    ensures SerializeEntries(ByteMap, [(Num(5), Num(1)), (Num(3), Num(2))], 0, [])
            == Ok([Entry(Num(5), Num(1), [5], [1]), Entry(Num(3), Num(2), [3], [2])])
  {
    var m := [(Num(5), Num(1)), (Num(3), Num(2))];
    ByteOf(5);
    ByteOf(1);
    ByteOf(3);
    ByteOf(2);
    TwoSerialized(ByteMap, m, [5], [1], [3], [2]);
  }

  /** Two entries whose keys and values serialize are prepared in their given order. */
  lemma TwoSerialized(p: Schema, m: seq<(Value, Value)>, k0: seq<byte>, v0: seq<byte>, k1: seq<byte>, v1: seq<byte>)
    requires p.FlatMapS? && |m| == 2
    requires Encode(p.key, m[0].0) == Ok(k0) && Encode(p.value, m[0].1) == Ok(v0)
    requires Encode(p.key, m[1].0) == Ok(k1) && Encode(p.value, m[1].1) == Ok(v1)
    ensures SerializeEntries(p, m, 0, []) == Ok([Entry(m[0].0, m[0].1, k0, v0), Entry(m[1].0, m[1].1, k1, v1)])
  {
    var e0 := Entry(m[0].0, m[0].1, k0, v0);
    var e1 := Entry(m[1].0, m[1].1, k1, v1);
    assert SerializeEntries(p, m, 2, [e0, e1]) == Ok([e0, e1]);
    assert [e0] + [e1] == [e0, e1];
    assert SerializeEntries(p, m, 1, [e0]) == Ok([e0, e1]);
    assert [] + [e0] == [e0];
  }

  lemma ExampleSorted()
    ensures Distinct(KeysOf([Entry(Num(5), Num(1), [5], [1]), Entry(Num(3), Num(2), [3], [2])]))
    ensures InsertionSort([Entry(Num(5), Num(1), [5], [1]), Entry(Num(3), Num(2), [3], [2])], KeyOf)
            == [Entry(Num(3), Num(2), [3], [2]), Entry(Num(5), Num(1), [5], [1])]
  {
    var e5 := Entry(Num(5), Num(1), [5], [1]);
    var e3 := Entry(Num(3), Num(2), [3], [2]);
    assert KeysOf([e5, e3]) == [[5], [3]];
    assert Less([3], [5]);
    assert InsertionSort([e3], KeyOf) == [e3];
  }

  /** The Map {5: 1, 3: 2} is written in ascending order of key bytes: the count 2, then 3 -> 2, then 5 -> 1. */
  lemma FlatMapSortsExample()
    ensures Encode(ByteMap, MapOf([(Num(5), Num(1)), (Num(3), Num(2))])) == Ok([2, 3, 2, 5, 1])
  {
    var es := [Entry(Num(3), Num(2), [3], [2]), Entry(Num(5), Num(1), [5], [1])];
    ExamplePrepared();
    VarintAppendOfCount(2);
    ExampleBytes();
    WrittenFrom(ByteMap, MapOf([(Num(5), Num(1)), (Num(3), Num(2))]), es, [2]);
  }

  lemma ExampleBytes()
    ensures Leb128(2) == [2]
    ensures [2] + EntryBytes([Entry(Num(3), Num(2), [3], [2]), Entry(Num(5), Num(1), [5], [1])]) == [2, 3, 2, 5, 1]
  {
  }

  /** Prepared entries and their count written: the serialization is the count and then the entries. */
  lemma WrittenFrom(p: Schema, v: Value, es: seq<Entry>, count: seq<byte>)
    requires p.FlatMapS? && PrepareMap(p, v) == Ok(es) && IntAppend(VarInt32, Num(|es|)) == Ok(count)
    ensures Encode(p, v) == Ok(count + EntryBytes(es))
  {
    EncodesAsFlatMap(p, v);
  }

  /** `_prepareInput` accepts the one-entry Map {7: 2}. */
  lemma SinglePrepared()
    ensures PrepareMap(ByteMap, MapOf([(Num(7), Num(2))])).Ok?
  {
    var m := [(Num(7), Num(2))];
    ByteOf(7);
    ByteOf(2);
    var r := SerializeEntries(ByteMap, m, 0, []);
    assert r.Ok?;
    assert Distinct(KeysOf(r.value));
  }

  /**
   * Reading [2, 7, 1, 7, 2]: the count 2, then key 7 twice; the second
   * `set` overwrites the first, leaving the one entry 7 -> 2.
   */
  lemma FlatMapRepeatedKeyExample()
    ensures Decode(ByteMap, [2, 7, 1, 7, 2], 0) == Ok((MapOf([(Num(7), Num(2))]), 5))
  {
    var buf: seq<byte> := [2, 7, 1, 7, 2];
    var m1 := [(Num(7), Num(1))];
    var m2 := [(Num(7), Num(2))];
    CountByte(buf);
    ByteAt(buf, 1);
    ByteAt(buf, 2);
    ByteAt(buf, 3);
    ByteAt(buf, 4);
    assert MapSet([], Num(7), Num(1)) == m1;
    assert MapSet(m1, Num(7), Num(2)) == m2;
    PairsTurn(ByteMap, buf, 3, 2, 1, m1, Num(7), 4, Num(2), 5, m2, Ok((m2, 5)));
    PairsTurn(ByteMap, buf, 1, 2, 0, [], Num(7), 2, Num(1), 3, m1, Ok((m2, 5)));
    SinglePrepared();
    FlatMapStep(ByteMap, buf, 0, 2, 1, m2, 5);
  }

  /**
   * Reading [2, 5, 1, 3, 2], whose keys are out of order: the Map
   * {5: 1, 3: 2} is accepted, though writing it back gives [2, 3, 2, 5, 1].
   */
  lemma FlatMapUnsortedExample()
    ensures Decode(ByteMap, [2, 5, 1, 3, 2], 0) == Ok((MapOf([(Num(5), Num(1)), (Num(3), Num(2))]), 5))
    ensures Encode(ByteMap, MapOf([(Num(5), Num(1)), (Num(3), Num(2))])) != Ok([2, 5, 1, 3, 2])
  {
    UnsortedRead();
    FlatMapSortsExample();
    var written: seq<byte> := [2, 3, 2, 5, 1];
    assert written[1] != 5;
  }

  /** The decode half of the example above. */
  lemma UnsortedRead()
    ensures Decode(ByteMap, [2, 5, 1, 3, 2], 0) == Ok((MapOf([(Num(5), Num(1)), (Num(3), Num(2))]), 5))
  {
    var buf: seq<byte> := [2, 5, 1, 3, 2];
    var m1 := [(Num(5), Num(1))];
    var m2 := [(Num(5), Num(1)), (Num(3), Num(2))];
    CountByte(buf);
    ByteAt(buf, 1);
    ByteAt(buf, 2);
    ByteAt(buf, 3);
    ByteAt(buf, 4);
    assert MapSet([], Num(5), Num(1)) == m1;
    assert MapSet(m1, Num(3), Num(2)) == m2;
    PairsTurn(ByteMap, buf, 3, 2, 1, m1, Num(3), 4, Num(2), 5, m2, Ok((m2, 5)));
    PairsTurn(ByteMap, buf, 1, 2, 0, [], Num(5), 2, Num(1), 3, m1, Ok((m2, 5)));
    ExamplePrepared();
    FlatMapStep(ByteMap, buf, 0, 2, 1, m2, 5);
  }
}
