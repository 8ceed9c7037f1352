/**
 * `flat_set(type)`: a set written as its elements' serializations in
 * ascending byte order.
 *
 * `_toHex` serializes every element (an array's or a Set's), its failure
 * located `flat_set[i]`, and rejects two elements that serialize alike.
 * Serialization writes the sorted serializations and no count; `toJSON`
 * converts the elements in the same order; `fromJSON` converts each element
 * and re-checks with `_toHex`.  Decoding reads a varint32 count and then
 * that many elements, adding each to the Set with no further check.
 */
module FlatSets {

  import opened Text
  import opened Errors
  import opened Values
  import opened Ints
  import opened Sorting
  import opened Sink
  import opened Codec
  import FlatMaps

  /* ---------------------------------------------------------------------- */
  /* _toHex                                                                 */
  /* ---------------------------------------------------------------------- */

  /** Every element serializes. */
  predicate AllSerialize(p: Schema, xs: seq<Value>)
    requires p.FlatSetS?
  {
    forall j :: 0 <= j < |xs| ==> Encode(p.elem, xs[j]).Ok?
  }

  /** No two elements serialize alike. */
  predicate Apart(p: Schema, xs: seq<Value>)
    requires p.FlatSetS?
  {
    forall i, j :: 0 <= i < j < |xs| ==> Encode(p.elem, xs[i]) != Encode(p.elem, xs[j])
  }

  /** The bytes of an element that serializes. */
  function Serialization(p: Schema, x: Value): seq<byte>
    requires p.FlatSetS?
  {
    var e := Encode(p.elem, x);
    if e.Ok? then e.value else []
  }

  /** The elements' serializations, in the elements' order. */
  function PartsOf(p: Schema, xs: seq<Value>): (r: seq<seq<byte>>)
    requires p.FlatSetS?
    ensures |r| == |xs| && forall j :: 0 <= j < |xs| ==> r[j] == Serialization(p, xs[j])
  {
    Mapped(xs, x => Serialization(p, x))
  }

  /**
   * `_toHex` succeeds exactly when the input is an array or a Set whose
   * elements all serialize, no two alike; it then gives their
   * serializations in the input's order.
   */
  lemma SetSerialized(p: Schema, v: Value)
    requires p.FlatSetS?
    ensures SetSerialize(p, v).Ok? <==>
              Elements(v).Ok? && AllSerialize(p, Elements(v).value) && Apart(p, Elements(v).value)
    ensures SetSerialize(p, v).Ok? ==> SetSerialize(p, v).value == PartsOf(p, Elements(v).value)
  {
    if Elements(v).Ok? {
      var xs := Elements(v).value;
      var r := SerializeElems(p, xs, 0, []);
      if r.Ok? {
        assert r.value == PartsOf(p, xs);
        PartsApart(p, xs);
      }
    }
  }

  /** When every element serializes, the serializations are distinct exactly when no two elements serialize alike. */
  lemma PartsApart(p: Schema, xs: seq<Value>)
    requires p.FlatSetS? && AllSerialize(p, xs)
    ensures Distinct(PartsOf(p, xs)) <==> Apart(p, xs)
  {
    var parts := PartsOf(p, xs);
    assert forall j :: 0 <= j < |xs| ==> Encode(p.elem, xs[j]) == Ok(parts[j]);
  }

  /** Elements that serialize differently are different elements. */
  lemma ApartDistinct(p: Schema, xs: seq<Value>)
    requires p.FlatSetS? && Apart(p, xs)
    ensures Distinct(xs)
  {
  }

  /**
   * The first element (in input order) that fails to serialize decides the
   * failure of `_toHex`, and so of serialization and `toJSON`: its error
   * located `flat_set[j]`.
   */
  lemma ElemFailure(p: Schema, v: Value, j: nat)
    requires p.FlatSetS? && Elements(v).Ok? && j < |Elements(v).value|
    requires forall k :: 0 <= k < j ==> Encode(p.elem, Elements(v).value[k]).Ok?
    requires Encode(p.elem, Elements(v).value[j]).Err?
    ensures var e := Prefix(SetAt(j), Encode(p.elem, Elements(v).value[j]).error);
            SetSerialize(p, v) == Err(e) && Encode(p, v) == Err(e) && ToJson(p, v) == Err(e)
  {
    ElemsFailAt(p, Elements(v).value, 0, [], j);
    EncodesAsFlatSet(p, v);
    JsonAsFlatSet(p, v);
  }

  lemma {:induction false} ElemsFailAt(p: Schema, xs: seq<Value>, i: nat, acc: seq<seq<byte>>, j: nat)
    requires p.FlatSetS? && i <= j < |xs|
    requires forall k :: i <= k < j ==> Encode(p.elem, xs[k]).Ok?
    requires Encode(p.elem, xs[j]).Err?
    ensures SerializeElems(p, xs, i, acc) == Err(Prefix(SetAt(j), Encode(p.elem, xs[j]).error))
    decreases j - i
  {
    var e := Encode(p.elem, xs[i]);
    ElemTurn(p, xs, i, acc, e);
    if i < j {
      ElemsFailAt(p, xs, i + 1, acc + [e.value], j);
    }
  }

  /** One turn of `_toHex`'s loop: element `i`'s serialization appended, or its failure located `flat_set[i]`. */
  lemma ElemTurn(p: Schema, xs: seq<Value>, i: nat, acc: seq<seq<byte>>, e: Result<seq<byte>>)
    requires p.FlatSetS? && i < |xs| && e == Encode(p.elem, xs[i])
    ensures e.Err? ==> SerializeElems(p, xs, i, acc) == Err(Prefix(SetAt(i), e.error))
    ensures e.Ok? ==> SerializeElems(p, xs, i, acc) == SerializeElems(p, xs, i + 1, acc + [e.value])
  {
  }

  /**
   * Two elements that serialize to the same bytes fail with "duplicates",
   * in `_toHex`, serialization and `toJSON` alike.
   */
  lemma ElemClash(p: Schema, v: Value, i: nat, j: nat)
    requires p.FlatSetS? && Elements(v).Ok? && AllSerialize(p, Elements(v).value)
    requires i < j < |Elements(v).value|
    requires Encode(p.elem, Elements(v).value[i]) == Encode(p.elem, Elements(v).value[j])
    ensures SetSerialize(p, v) == Err(Fail(SetDuplicates))
    ensures Encode(p, v) == Err(Fail(SetDuplicates)) && ToJson(p, v) == Err(Fail(SetDuplicates))
  {
    SetSerialized(p, v);
    EncodesAsFlatSet(p, v);
    JsonAsFlatSet(p, v);
  }

  /* ---------------------------------------------------------------------- */
  /* Serialization                                                          */
  /* ---------------------------------------------------------------------- */

  /**
   * `appendToByteBuffer`: `_toHex`, the serializations sorted in place,
   * then each appended in turn; no count is written.
   */
  method AppendFlatSet(p: Schema, v: Value, sink: ByteSink) returns (err: Option<Error>)
    requires p.FlatSetS?
    modifies sink
    ensures sink.data == old(sink.data) + Append(p, v).bytes
    ensures err == Append(p, v).failure
  {
    var hex := SetSerialize(p, v);
    if hex.Err? {
      return Some(hex.error);
    }
    var parts := hex.value;
    var a := new seq<byte>[|parts|](j requires 0 <= j < |parts| => parts[j]);
    assert a[..] == parts;
    SortInPlace(a, Self);
    SelfInjective(parts);
    SortedIsInsertionSort(a[..], parts, Self);
    sink.AppendAll(a[..]);
    return None;
  }

  /** Serializations are told apart by themselves. */
  lemma SelfInjective(parts: seq<seq<byte>>)
    ensures KeyInjective(parts, Self)
  {
    forall x, y | x in parts && y in parts && Self(x) == Self(y) ensures x == y {
    }
  }

  /** Distinct serializations have distinct sort keys. */
  lemma SelfDistinct(parts: seq<seq<byte>>)
    requires Distinct(parts)
    ensures DistinctKeysBy(parts, Self)
  {
    forall i, j | 0 <= i < j < |parts| ensures Self(parts[i]) != Self(parts[j]) {
    }
  }

  /**
   * Serialization fails exactly as `_toHex` does; otherwise it succeeds and
   * writes the serializations in strictly ascending byte order, one after
   * the other, with no count: any such ordering of them is the output.
   */
  lemma FlatSetEncoding(p: Schema, v: Value, ss: seq<seq<byte>>)
    requires p.FlatSetS?
    ensures SetSerialize(p, v).Err? ==> Encode(p, v) == Err(SetSerialize(p, v).error)
    ensures SetSerialize(p, v).Ok? && SortedBy(ss, Self) && multiset(ss) == multiset(SetSerialize(p, v).value) ==>
              Encode(p, v) == Ok(Concat(ss))
  {
    EncodesAsFlatSet(p, v);
    if SetSerialize(p, v).Ok? && SortedBy(ss, Self) && multiset(ss) == multiset(SetSerialize(p, v).value) {
      SelfInjective(SetSerialize(p, v).value);
      SortedIsInsertionSort(ss, SetSerialize(p, v).value, Self);
    }
  }

  /** The order written is strictly ascending: no serialization twice. */
  lemma FlatSetAscending(p: Schema, v: Value)
    requires p.FlatSetS? && SetSerialize(p, v).Ok?
    ensures var ss := InsertionSort(SetSerialize(p, v).value, Self);
            StrictlySortedBy(ss, Self) && multiset(ss) == multiset(SetSerialize(p, v).value) &&
            Encode(p, v) == Ok(Concat(ss))
  {
    var parts := SetSerialize(p, v).value;
    var ss := InsertionSort(parts, Self);
    InsertionSortSorts(parts, Self);
    SelfDistinct(parts);
    PermutationDistinctKeys(parts, ss, Self);
    SortedDistinctIsStrict(ss, Self);
    FlatSetEncoding(p, v, ss);
  }

  /**
   * Element order does not matter: the same elements, as an array in any
   * order or as a Set, serialize alike once one of them is accepted.
   */
  lemma FlatSetOrderIndependent(p: Schema, xs: seq<Value>, ys: seq<Value>)
    requires p.FlatSetS? && multiset(xs) == multiset(ys) && SetSerialize(p, Arr(xs)).Ok?
    ensures SetSerialize(p, Arr(ys)).Ok?
    ensures Encode(p, Arr(ys)) == Encode(p, Arr(xs)) && Encode(p, SetOf(ys)) == Encode(p, Arr(xs))
  {
    SetSerialized(p, Arr(xs));
    SetSerialized(p, Arr(ys));
    SetSerialized(p, SetOf(ys));
    var px := PartsOf(p, xs);
    var py := PartsOf(p, ys);
    assert AllSerialize(p, ys) by {
      forall j | 0 <= j < |ys| ensures Encode(p.elem, ys[j]).Ok? {
        assert ys[j] in multiset(xs);
      }
    }
    PartsPermutation(p, xs, ys);
    assert Distinct(px);
    SelfDistinct(px);
    PermutationDistinctKeys(px, py, Self);
    assert Apart(p, ys) by {
      forall i, j | 0 <= i < j < |ys| ensures Encode(p.elem, ys[i]) != Encode(p.elem, ys[j]) {
        assert Self(py[i]) != Self(py[j]);
      }
    }
    SelfInjective(px);
    SortOrderIndependent(px, py, Self);
    EncodesAsFlatSet(p, Arr(xs));
    EncodesAsFlatSet(p, Arr(ys));
    EncodesAsFlatSet(p, SetOf(ys));
  }

  lemma PartsPermutation(p: Schema, xs: seq<Value>, ys: seq<Value>)
    requires p.FlatSetS? && multiset(xs) == multiset(ys)
    ensures multiset(PartsOf(p, xs)) == multiset(PartsOf(p, ys))
  {
    var f := x => Serialization(p, x);
    MappedPermutation(xs, ys, f);
    assert PartsOf(p, xs) == Mapped(xs, f);
    assert PartsOf(p, ys) == Mapped(ys, f);
  }

  /* ---------------------------------------------------------------------- */
  /* JSON                                                                   */
  /* ---------------------------------------------------------------------- */

  /**
   * `toJSON`: `_toHex`, the items (serialization, element, position)
   * sorted in place by serialization, then each element converted in that
   * order, a failure located at the element's original position.
   */
  method ToJsonSorted(p: Schema, v: Value) returns (r: Result<Value>)
    requires p.FlatSetS?
    ensures r == ToJson(p, v)
  {
    JsonAsFlatSet(p, v);
    var elems := Elements(v);
    if elems.Err? {
      return Err(elems.error);
    }
    var hex := SetSerialize(p, v);
    if hex.Err? {
      return Err(hex.error);
    }
    var zipped := Zip(hex.value, elems.value);
    var a := new SetItem[|zipped|](j requires 0 <= j < |zipped| => zipped[j]);
    assert a[..] == zipped;
    SortInPlace(a, ItemKey);
    ItemsInjective(hex.value, elems.value);
    SortedIsInsertionSort(a[..], zipped, ItemKey);
    var items := a[..];
    var js: seq<Value> := [];
    var i := 0;
    while i < |items|
      invariant 0 <= i <= |items|
      invariant ElemsToJson(p, items, 0, []) == ElemsToJson(p, items, i, js)
    {
      var j := ToJson(p.elem, items[i].element);
      if j.Err? {
        return Err(Prefix(SetAt(items[i].index), j.error));
      }
      js := js + [j.value];
      i := i + 1;
    }
    return Ok(Arr(js));
  }

  /** Items made of distinct serializations are told apart by them. */
  lemma ItemsInjective(parts: seq<seq<byte>>, elems: seq<Value>)
    requires Distinct(parts)
    ensures KeyInjective(Zip(parts, elems), ItemKey)
    ensures DistinctKeysBy(Zip(parts, elems), ItemKey)
  {
    var z := Zip(parts, elems);
    assert DistinctKeysBy(z, ItemKey) by {
      forall i, j | 0 <= i < j < |z| ensures ItemKey(z[i]) != ItemKey(z[j]) {
        assert z[i].bytes == parts[i] && z[j].bytes == parts[j];
      }
    }
    DistinctKeysInjective(z, ItemKey);
  }

  /** The items `toJSON` converts, in the order it converts them. */
  function SortedItems(p: Schema, v: Value): seq<SetItem>
    requires p.FlatSetS? && SetSerialize(p, v).Ok?
  {
    InsertionSort(Zip(SetSerialize(p, v).value, Elements(v).value), ItemKey)
  }

  /**
   * The items are the elements, each once with its serialization and its
   * original position, in strictly ascending order of serialization.
   */
  lemma SortedItemsOrder(p: Schema, v: Value)
    requires p.FlatSetS? && SetSerialize(p, v).Ok?
    ensures var xs := Elements(v).value; var items := SortedItems(p, v);
            |items| == |xs| && StrictlySortedBy(items, ItemKey) &&
            multiset(items) == multiset(Zip(PartsOf(p, xs), xs)) &&
            forall k :: 0 <= k < |items| ==>
              items[k].index < |xs| && items[k].element == xs[items[k].index] &&
              Encode(p.elem, items[k].element) == Ok(items[k].bytes)
  {
    SetSerialized(p, v);
    var xs := Elements(v).value;
    var parts := SetSerialize(p, v).value;
    var z := Zip(parts, xs);
    var items := SortedItems(p, v);
    InsertionSortSorts(z, ItemKey);
    ItemsInjective(parts, xs);
    PermutationDistinctKeys(z, items, ItemKey);
    SortedDistinctIsStrict(items, ItemKey);
    forall k | 0 <= k < |items|
      ensures items[k].index < |xs| && items[k].element == xs[items[k].index]
      ensures Encode(p.elem, items[k].element) == Ok(items[k].bytes)
    {
      assert items[k] in multiset(z);
      var i :| 0 <= i < |z| && z[i] == items[k];
    }
  }

  /** An item's element converts to JSON. */
  predicate Converts(p: Schema, it: SetItem)
    requires p.FlatSetS?
  {
    ToJson(p.elem, it.element).Ok?
  }

  /** Every item from position `i` on converts. */
  predicate ConvertFrom(p: Schema, items: seq<SetItem>, i: nat)
    requires p.FlatSetS?
  {
    forall k :: i <= k < |items| ==> Converts(p, items[k])
  }

  /** The JSON of the items from position `i` on, when they all convert. */
  function JsonFrom(p: Schema, items: seq<SetItem>, i: nat): (r: seq<Value>)
    requires p.FlatSetS? && i <= |items| && ConvertFrom(p, items, i)
    ensures |r| == |items| - i && forall k :: 0 <= k < |r| ==> r[k] == ToJson(p.elem, items[i + k].element).value
  {
    seq(|items| - i, k requires 0 <= k < |items| - i => ToJson(p.elem, items[i + k].element).value)
  }

  /**
   * `toJSON` fails as `_toHex` does; otherwise it succeeds exactly when
   * every element converts, and gives one JSON per element, ordered by the
   * elements' serializations.
   */
  lemma FlatSetJson(p: Schema, v: Value)
    requires p.FlatSetS?
    ensures SetSerialize(p, v).Err? ==> ToJson(p, v) == Err(SetSerialize(p, v).error)
    ensures SetSerialize(p, v).Ok? ==> (ToJson(p, v).Ok? <==> ConvertFrom(p, SortedItems(p, v), 0))
    ensures ToJson(p, v).Ok? ==>
              SetSerialize(p, v).Ok? && ConvertFrom(p, SortedItems(p, v), 0) &&
              ToJson(p, v) == Ok(Arr(JsonFrom(p, SortedItems(p, v), 0)))
  {
    JsonAsFlatSet(p, v);
    if SetSerialize(p, v).Ok? {
      var items := SortedItems(p, v);
      ItemsJsonFrom(p, items, 0, []);
    }
  }

  /** The conversion loop from item `i`: it fails exactly when a later item does not convert, and otherwise appends their JSON. */
  lemma {:induction false} ItemsJsonFrom(p: Schema, items: seq<SetItem>, i: nat, acc: seq<Value>)
    requires p.FlatSetS? && i <= |items|
    ensures ElemsToJson(p, items, i, acc).Ok? <==> ConvertFrom(p, items, i)
    ensures ElemsToJson(p, items, i, acc).Ok? ==> ElemsToJson(p, items, i, acc).value == acc + JsonFrom(p, items, i)
    decreases |items| - i
  {
    if i == |items| {
      assert acc + JsonFrom(p, items, i) == acc;
    } else {
      JsonTurn(p, items, i, acc);
      if Converts(p, items[i]) {
        var j := ToJson(p.elem, items[i].element).value;
        ItemsJsonFrom(p, items, i + 1, acc + [j]);
        if ConvertFrom(p, items, i + 1) {
          JsonFromStep(p, items, i);
          Regroup3(acc, [j], JsonFrom(p, items, i + 1));
        }
      }
    }
  }

  /** One turn of the conversion loop: item `i`'s JSON appended, or a failure. */
  lemma JsonTurn(p: Schema, items: seq<SetItem>, i: nat, acc: seq<Value>)
    requires p.FlatSetS? && i < |items|
    ensures ConvertFrom(p, items, i) <==> Converts(p, items[i]) && ConvertFrom(p, items, i + 1)
    ensures !Converts(p, items[i]) ==> ElemsToJson(p, items, i, acc).Err?
    ensures Converts(p, items[i]) ==>
              ElemsToJson(p, items, i, acc) == ElemsToJson(p, items, i + 1, acc + [ToJson(p.elem, items[i].element).value])
  {
  }

  /** The JSON from item `i` on is item `i`'s and then the rest. */
  lemma JsonFromStep(p: Schema, items: seq<SetItem>, i: nat)
    requires p.FlatSetS? && i < |items| && ConvertFrom(p, items, i)
    ensures JsonFrom(p, items, i) == [ToJson(p.elem, items[i].element).value] + JsonFrom(p, items, i + 1)
  {
    var a, b := JsonFrom(p, items, i), JsonFrom(p, items, i + 1);
    forall k | 0 <= k < |b|
      ensures a[k + 1] == b[k]
    {
      assert i + (k + 1) == (i + 1) + k;
    }
    Shifted(a, b);
  }

  /**
   * The first element, in serialization order, that fails to convert
   * decides `toJSON`'s failure, located at that element's position in the
   * input.
   */
  lemma JsonFailure(p: Schema, v: Value, k: nat)
    requires p.FlatSetS? && SetSerialize(p, v).Ok? && k < |SortedItems(p, v)|
    requires forall l :: 0 <= l < k ==> Converts(p, SortedItems(p, v)[l])
    requires !Converts(p, SortedItems(p, v)[k])
    ensures var it := SortedItems(p, v)[k];
            ToJson(p, v) == Err(Prefix(SetAt(it.index), ToJson(p.elem, it.element).error))
  {
    JsonAsFlatSet(p, v);
    ItemsFailAt(p, SortedItems(p, v), 0, [], k);
  }

  lemma {:induction false} ItemsFailAt(p: Schema, items: seq<SetItem>, i: nat, acc: seq<Value>, k: nat)
    requires p.FlatSetS? && i <= k < |items|
    requires forall l :: i <= l < k ==> Converts(p, items[l])
    requires !Converts(p, items[k])
    ensures ElemsToJson(p, items, i, acc) == Err(Prefix(SetAt(items[k].index), ToJson(p.elem, items[k].element).error))
    decreases k - i
  {
    if i < k {
      ItemsFailAt(p, items, i + 1, acc + [ToJson(p.elem, items[i].element).value], k);
    }
  }

  /**
   * `fromJSON`: a non-array fails; otherwise each element is converted (the
   * first failure located at its position), the results must pass
   * `_toHex`, and the Set holds exactly the converted elements, in order.
   */
  lemma FlatSetFromJson(p: Schema, j: Value)
    requires p.FlatSetS?
    ensures !j.Arr? ==> FromJson(p, j) == Err(Fail(NotOfType))
    ensures FromJson(p, j).Ok? ==>
              j.Arr? && FromJson(p, j).value.SetOf? &&
              var xs := FromJson(p, j).value.elems;
              |xs| == |j.items| && Distinct(xs) && SetSerialize(p, Arr(xs)).Ok? &&
              forall i :: 0 <= i < |xs| ==> FromJson(p.elem, j.items[i]) == Ok(xs[i])
  {
    JsonAsFlatSet(p, j);
    if j.Arr? {
      ConvertedItems(p, j.items, FromJson(p, j));
    }
  }

  /** The array case of `fromJSON`, stated of its outcome `r`. */
  lemma ConvertedItems(p: Schema, items: seq<Value>, r: Result<Value>)
    requires p.FlatSetS? && r == Codec.FlatSetFromJson(p, Arr(items))
    ensures r.Ok? ==>
              r.value.SetOf? &&
              var xs := r.value.elems;
              |xs| == |items| && Distinct(xs) && SetSerialize(p, Arr(xs)).Ok? &&
              forall i :: 0 <= i < |xs| ==> FromJson(p.elem, items[i]) == Ok(xs[i])
  {
    var arr := ElemsFromJson(p, items, 0, []);
    if arr.Ok? {
      ConvertedAll(p, items, arr.value);
      if SetSerialize(p, Arr(arr.value)).Ok? {
        AcceptedSet(p, arr.value);
      }
    }
  }

  /** The conversion loop's result holds each element's conversion, in order. */
  lemma ConvertedAll(p: Schema, items: seq<Value>, xs: seq<Value>)
    requires p.FlatSetS? && ElemsFromJson(p, items, 0, []) == Ok(xs)
    ensures |xs| == |items| && forall i :: 0 <= i < |xs| ==> FromJson(p.elem, items[i]) == Ok(xs[i])
  {
    ElemsFromJsonAll(p, items, 0, []);
  }

  /** Elements that pass `_toHex` are distinct, so the Set built from them holds them all, in order. */
  lemma AcceptedSet(p: Schema, xs: seq<Value>)
    requires p.FlatSetS? && SetSerialize(p, Arr(xs)).Ok?
    ensures Distinct(xs) && NewSet(xs) == xs
  {
    SetSerialized(p, Arr(xs));
    ApartDistinct(p, xs);
    NewSetOfDistinct(xs);
  }

  /** The conversion loop from element `i`: the remaining elements converted in order, or a failure. */
  lemma {:induction false} ElemsFromJsonAll(p: Schema, items: seq<Value>, i: nat, acc: seq<Value>)
    requires p.FlatSetS? && i <= |items|
    ensures ElemsFromJson(p, items, i, acc).Ok? ==>
              var xs := ElemsFromJson(p, items, i, acc).value;
              |xs| == |acc| + |items| - i && xs[..|acc|] == acc &&
              forall k :: i <= k < |items| ==> FromJson(p.elem, items[k]) == Ok(xs[|acc| + k - i])
    decreases |items| - i
  {
    if i < |items| && FromJson(p.elem, items[i]).Ok? {
      var x := FromJson(p.elem, items[i]).value;
      ElemsFromJsonAll(p, items, i + 1, acc + [x]);
      assert (acc + [x])[..|acc|] == acc && (acc + [x])[|acc|] == x;
    }
  }

  /** The first element that fails to convert decides `fromJSON`'s failure, located at its position. */
  lemma FromJsonFailure(p: Schema, items: seq<Value>, k: nat)
    requires p.FlatSetS? && k < |items|
    requires forall l :: 0 <= l < k ==> FromJson(p.elem, items[l]).Ok?
    requires FromJson(p.elem, items[k]).Err?
    ensures FromJson(p, Arr(items)) == Err(Prefix(SetAt(k), FromJson(p.elem, items[k]).error))
  {
    JsonAsFlatSet(p, Arr(items));
    FromJsonFailAt(p, items, 0, [], k);
  }

  lemma {:induction false} FromJsonFailAt(p: Schema, items: seq<Value>, i: nat, acc: seq<Value>, k: nat)
    requires p.FlatSetS? && i <= k < |items|
    requires forall l :: i <= l < k ==> FromJson(p.elem, items[l]).Ok?
    requires FromJson(p.elem, items[k]).Err?
    ensures ElemsFromJson(p, items, i, acc) == Err(Prefix(SetAt(k), FromJson(p.elem, items[k]).error))
    decreases k - i
  {
    if i < k {
      FromJsonFailAt(p, items, i + 1, acc + [FromJson(p.elem, items[i]).value], k);
    }
  }

  /* ---------------------------------------------------------------------- */
  /* Decoding                                                               */
  /* ---------------------------------------------------------------------- */

  /**
   * `readFromBuffer`: the varint32 count, then a loop that decodes an
   * element at the current offset (its failure located at its index),
   * moves the offset past it and `add`s it to the Set.
   */
  method ReadFlatSet(p: Schema, buf: seq<byte>, off: nat) returns (r: Result<(Value, nat)>)
    requires p.FlatSetS?
    ensures r == Decode(p, buf, off)
  {
    DecodesAsFlatSet(p, buf, off);
    var c := IntRead(VarInt32, buf, off);
    if c.Err? {
      return Err(c.error);
    }
    var size := c.value.0.n;
    var start := c.value.1;
    var offset := start;
    var result: seq<Value> := [];
    var i := 0;
    while i < size
      invariant DecodeSetItems(p, buf, start, size, 0, []) == DecodeSetItems(p, buf, offset, size, i, result)
      decreases size - i
    {
      var d := Decode(p.elem, buf, offset);
      if d.Err? {
        return Err(Prefix(SetAt(i), d.error));
      }
      offset := d.value.1;
      result := SetAdd(result, d.value.0);
      i := i + 1;
    }
    return Ok((SetOf(result), offset));
  }

  /**
   * Decoding: a failing count fails as it is, with no locator; a decoded
   * Set holds each element once and no more elements than the count.
   */
  lemma FlatSetDecode(p: Schema, buf: seq<byte>, off: nat)
    requires p.FlatSetS?
    ensures IntRead(VarInt32, buf, off).Err? ==> Decode(p, buf, off) == Err(IntRead(VarInt32, buf, off).error)
    ensures Decode(p, buf, off).Ok? ==>
              IntRead(VarInt32, buf, off).Ok? && Decode(p, buf, off).value.0.SetOf? &&
              var xs := Decode(p, buf, off).value.0.elems;
              Distinct(xs) && |xs| <= IntRead(VarInt32, buf, off).value.0.n
  {
    DecodesAsFlatSet(p, buf, off);
    if IntRead(VarInt32, buf, off).Ok? {
      var (c, start) := IntRead(VarInt32, buf, off).value;
      ItemsKept(p, buf, start, c.n, 0, []);
    }
  }

  /** The decode loop keeps the Set free of repeats and adds at most one element per turn. */
  lemma {:induction false} ItemsKept(p: Schema, buf: seq<byte>, off: nat, count: int, i: nat, acc: seq<Value>)
    requires p.FlatSetS? && |acc| <= i && Distinct(acc)
    ensures DecodeSetItems(p, buf, off, count, i, acc).Ok? ==>
              var xs := DecodeSetItems(p, buf, off, count, i, acc).value.0;
              Distinct(xs) && |xs| <= if i < count then count else i
    decreases count - i
  {
    if i < count {
      var d := Decode(p.elem, buf, off);
      if d.Ok? {
        var next := SetAdd(acc, d.value.0);
        ItemsKept(p, buf, d.value.1, count, i + 1, next);
        ItemTurn(p, buf, off, count, i, acc, d.value.0, d.value.1, next);
      }
    }
  }

  /** One turn of the decode loop: the element read is added and the offset moves past it. */
  lemma ItemTurn(p: Schema, buf: seq<byte>, off: nat, count: int, i: nat, acc: seq<Value>, x: Value, o: nat, next: seq<Value>)
    requires p.FlatSetS? && i < count
    requires Decode(p.elem, buf, off) == Ok((x, o)) && SetAdd(acc, x) == next
    ensures |next| <= |acc| + 1
    ensures DecodeSetItems(p, buf, off, count, i, acc) == DecodeSetItems(p, buf, o, count, i + 1, next)
  {
  }

  /* ---------------------------------------------------------------------- */
  /* Examples: the written form is not the read form                         */
  /* ---------------------------------------------------------------------- */

  /** `flat_set(uint8)`, the schema of the examples below. */
  const ByteSet: Schema := FlatSetS(IntS(UInt8))

  /**
   * The empty set serializes to no bytes at all, and no bytes cannot be
   * read back: the count the decoder expects is missing.
   */
  lemma EmptySetExample()
    ensures Encode(ByteSet, SetOf([])) == Ok([])
    ensures Decode(ByteSet, [], 0).Err?
  {
    var e: seq<Value> := [];
    assert SerializeElems(ByteSet, e, 0, []) == Ok([]);
    assert SetSerialize(ByteSet, SetOf([])) == Ok([]);
    EncodesAsFlatSet(ByteSet, SetOf([]));
    DecodesAsFlatSet(ByteSet, [], 0);
    assert VarintFrom([], 0).Err?;
  }

  /**
   * {5, 1} serializes to [1, 5]; reading [1, 5] takes 1 as the count and
   * gives back the one-element Set {5}.
   */
  lemma ByteSetExample()
    ensures Encode(ByteSet, SetOf([Num(5), Num(1)])) == Ok([1, 5])
    ensures Decode(ByteSet, [1, 5], 0) == Ok((SetOf([Num(5)]), 2))
  {
    ByteSetWritten();
    ByteSetRead();
  }

  lemma ByteSetWritten()
    ensures Encode(ByteSet, SetOf([Num(5), Num(1)])) == Ok([1, 5])
  {
    var xs := [Num(5), Num(1)];
    FlatMaps.ByteOf(5);
    FlatMaps.ByteOf(1);
    TwoParts(ByteSet, xs, [5], [1]);
    OrderedParts();
    FlatSetEncoding(ByteSet, SetOf(xs), [[1], [5]]);
  }

  /** [1] sorts before [5], and the two written in that order are [1, 5]. */
  lemma OrderedParts()
    ensures SortedBy([[1], [5]], Self) && multiset([[1], [5]]) == multiset([[5], [1]])
    ensures Concat([[1], [5]]) == [1, 5]
  {
    var ss: seq<seq<byte>> := [[1], [5]];
    assert Less(ss[0], ss[1]);
    assert Concat(ss[1..]) == [5];
  }

  /** Two elements that serialize to different bytes pass `_toHex`, in their given order. */
  lemma TwoParts(p: Schema, xs: seq<Value>, a: seq<byte>, b: seq<byte>)
    requires p.FlatSetS? && |xs| == 2 && a != b
    requires Encode(p.elem, xs[0]) == Ok(a) && Encode(p.elem, xs[1]) == Ok(b)
    ensures SetSerialize(p, SetOf(xs)) == Ok([a, b])
  {
    assert SerializeElems(p, xs, 2, [a, b]) == Ok([a, b]);
    assert [a] + [b] == [a, b];
    assert SerializeElems(p, xs, 1, [a]) == Ok([a, b]);
    assert [] + [a] == [a];
  }

  lemma ByteSetRead()
    ensures Decode(ByteSet, [1, 5], 0) == Ok((SetOf([Num(5)]), 2))
  {
    var buf: seq<byte> := [1, 5];
    FlatMaps.CountByte(buf);
    FlatMaps.ByteAt(buf, 1);
    assert SetAdd([], Num(5)) == [Num(5)];
    ItemTurn(ByteSet, buf, 1, 1, 0, [], Num(5), 2, [Num(5)]);
    DecodesAsFlatSet(ByteSet, buf, 0);
  }

  /** Reading [2, 5, 5]: the element 5 twice is accepted, and the Set holds it once. */
  lemma RepeatedElementExample()
    ensures Decode(ByteSet, [2, 5, 5], 0) == Ok((SetOf([Num(5)]), 3))
  {
    var buf: seq<byte> := [2, 5, 5];
    FlatMaps.CountByte(buf);
    FlatMaps.ByteAt(buf, 1);
    FlatMaps.ByteAt(buf, 2);
    assert SetAdd([], Num(5)) == [Num(5)];
    assert SetAdd([Num(5)], Num(5)) == [Num(5)];
    ItemTurn(ByteSet, buf, 2, 2, 1, [Num(5)], Num(5), 3, [Num(5)]);
    ItemTurn(ByteSet, buf, 1, 2, 0, [], Num(5), 2, [Num(5)]);
    DecodesAsFlatSet(ByteSet, buf, 0);
  }
}
