/**
 * The JavaScript values the codecs take and produce.  One datatype serves as
 * input, decoded output and JSON form, as in the library, where all three
 * are plain JavaScript values whose shape the TypeScript types describe.
 */
module Values {

  import opened Text

  datatype Value =
    | Undefined
    | Null
    | Bool(b: bool)
    | Num(n: int)                        // a number holding an integer
    | Big(n: int)                        // a bigint
    | Str(s: seq<byte>)                  // a string, as its UTF-8 bytes
    | Buf(data: seq<byte>)               // a Node Buffer
    | Arr(items: seq<Value>)             // an array
    | Obj(fields: seq<(string, Value)>)  // a plain object, keys in Object.keys order
    | MapOf(entries: seq<(Value, Value)>) // a Map, entries in insertion order
    | SetOf(elems: seq<Value>)           // a Set, elements in insertion order

  /** `value === null || value === undefined`. */
  predicate IsAbsent(v: Value) {
    v.Null? || v.Undefined?
  }

  /** The truth value JavaScript gives `value` in `value ? a : b`. */
  predicate Truthy(v: Value) {
    match v
    case Undefined => false
    case Null => false
    case Bool(b) => b
    case Num(n) => n != 0
    case Big(n) => n != 0
    case Str(s) => |s| > 0
    case _ => true
  }

  /* ---------------------------------------------------------------------- */
  /* Map: entries keyed by value equality, kept in first-insertion order     */
  /* ---------------------------------------------------------------------- */

  predicate DistinctKeys(m: seq<(Value, Value)>) {
    forall i, j :: 0 <= i < j < |m| ==> m[i].0 != m[j].0
  }

  /** Position of key `k` in `m`, or -1. */
  function IndexOfKey(m: seq<(Value, Value)>, k: Value): (r: int)
    ensures -1 <= r < |m|
    ensures r >= 0 ==> m[r].0 == k
    ensures r < 0 <==> forall j :: 0 <= j < |m| ==> m[j].0 != k
  {
    if m == [] then -1
    else if m[|m| - 1].0 == k then |m| - 1
    else IndexOfKey(m[..|m| - 1], k)
  }

  /** `map.set(k, v)`: an existing key keeps its place and takes the new value; a new key goes last. */
  function MapSet(m: seq<(Value, Value)>, k: Value, v: Value): (r: seq<(Value, Value)>)
    ensures DistinctKeys(m) ==> DistinctKeys(r)
  {
    var i := IndexOfKey(m, k);
    if i >= 0 then m[i := (k, v)] else m + [(k, v)]
  }

  /** After `set`, the map holds the new entry and every entry for another key, and nothing else. */
  lemma MapSetContents(m: seq<(Value, Value)>, k: Value, v: Value)
    ensures (k, v) in MapSet(m, k, v)
    ensures forall e :: e in m && e.0 != k ==> e in MapSet(m, k, v)
    ensures DistinctKeys(m) ==> forall e :: e in MapSet(m, k, v) ==> e == (k, v) || (e in m && e.0 != k)
  {
    var i := IndexOfKey(m, k);
    var r := MapSet(m, k, v);
    if i >= 0 {
      assert r[i] == (k, v);
      forall e | e in m && e.0 != k ensures e in r {
        var j :| 0 <= j < |m| && m[j] == e;
        assert r[j] == e;
      }
    }
  }

  /** `new Map(pairs)`: `set` once per pair, in order. */
  function NewMap(pairs: seq<(Value, Value)>): seq<(Value, Value)>
  {
    if pairs == [] then []
    else
      var last := pairs[|pairs| - 1];
      MapSet(NewMap(pairs[..|pairs| - 1]), last.0, last.1)
  }

  /** Building a map keeps every key once. */
  lemma {:induction false} NewMapDistinct(pairs: seq<(Value, Value)>)
    ensures DistinctKeys(NewMap(pairs))
  {
    if pairs != [] {
      NewMapDistinct(pairs[..|pairs| - 1]);
    }
  }

  /** When no key repeats, building a map changes nothing. */
  lemma {:induction false} NewMapOfDistinct(pairs: seq<(Value, Value)>)
    requires DistinctKeys(pairs)
    ensures NewMap(pairs) == pairs
  {
    if pairs != [] {
      var init := pairs[..|pairs| - 1];
      var last := pairs[|pairs| - 1];
      DistinctInit(pairs);
      NewMapOfDistinct(init);
      MapSetNew(init, last.0, last.1);
      assert init + [last] == pairs;
    }
  }

  /** Without its last pair, a sequence of distinct keys is still distinct and lacks the last key. */
  lemma DistinctInit(pairs: seq<(Value, Value)>)
    requires pairs != [] && DistinctKeys(pairs)
    ensures DistinctKeys(pairs[..|pairs| - 1])
    ensures IndexOfKey(pairs[..|pairs| - 1], pairs[|pairs| - 1].0) < 0
  {
    var init := pairs[..|pairs| - 1];
    forall j | 0 <= j < |init| ensures init[j].0 != pairs[|pairs| - 1].0 {
      assert init[j] == pairs[j];
    }
  }

  /** Setting a key that is not there appends it. */
  lemma MapSetNew(m: seq<(Value, Value)>, k: Value, v: Value)
    requires IndexOfKey(m, k) < 0
    ensures MapSet(m, k, v) == m + [(k, v)]
  {
  }

  /** A key set again later takes the later value: the last pair for `k` wins. */
  lemma {:induction false} NewMapLastWins(pairs: seq<(Value, Value)>, i: nat)
    requires i < |pairs|
    requires forall j :: i < j < |pairs| ==> pairs[j].0 != pairs[i].0
    ensures pairs[i] in NewMap(pairs)
  {
    var last := pairs[|pairs| - 1];
    MapSetContents(NewMap(pairs[..|pairs| - 1]), last.0, last.1);
    if i < |pairs| - 1 {
      NewMapLastWins(pairs[..|pairs| - 1], i);
    }
  }

  /* ---------------------------------------------------------------------- */
  /* Set: elements by value equality, kept in first-insertion order          */
  /* ---------------------------------------------------------------------- */

  predicate Distinct<T(==)>(s: seq<T>) {
    forall i, j :: 0 <= i < j < |s| ==> s[i] != s[j]
  }

  /** `set.add(x)`: no effect when `x` is already in. */
  function SetAdd(s: seq<Value>, x: Value): (r: seq<Value>)
    ensures x in r && forall e :: e in r <==> e in s || e == x
    ensures Distinct(s) ==> Distinct(r)
  {
    if x in s then s else s + [x]
  }

  /** `new Set(xs)`: `add` once per element, in order. */
  function NewSet(xs: seq<Value>): seq<Value> {
    if xs == [] then [] else SetAdd(NewSet(xs[..|xs| - 1]), xs[|xs| - 1])
  }

  /** A set holds exactly the elements added, each once. */
  lemma {:induction false} NewSetContents(xs: seq<Value>)
    ensures Distinct(NewSet(xs))
    ensures forall e :: e in NewSet(xs) <==> e in xs
  {
    if xs != [] {
      NewSetContents(xs[..|xs| - 1]);
      assert xs == xs[..|xs| - 1] + [xs[|xs| - 1]];
    }
  }

  /** When no element repeats, building a set changes nothing. */
  lemma {:induction false} NewSetOfDistinct(xs: seq<Value>)
    requires Distinct(xs)
    ensures NewSet(xs) == xs
  {
    if xs != [] {
      var init := xs[..|xs| - 1];
      NewSetOfDistinct(init);
      assert xs[|xs| - 1] !in init;
      assert init + [xs[|xs| - 1]] == xs;
    }
  }
}
