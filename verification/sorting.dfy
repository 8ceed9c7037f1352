/**
 * Sorting by a byte-string key, compared as JavaScript compares strings.
 *
 * The map and set codecs sort their entries with `Array.prototype.sort`,
 * comparing the hex of each entry's serialized bytes.  `SortInPlace` is that
 * in-place sort; `InsertionSort` is the same ordering as a function, for use
 * in specifications.  When keys do not repeat the sorted order is unique
 * (`SortedUnique`), so any correct sort gives the same result.
 */
module Sorting {

  import opened Text

  /** `x` does not come after `y`. */
  predicate Le(x: seq<byte>, y: seq<byte>) {
    !Less(y, x)
  }

  lemma LeTransitive(x: seq<byte>, y: seq<byte>, z: seq<byte>)
    requires Le(x, y) && Le(y, z)
    ensures Le(x, z)
  {
    LessTotal(x, y);
    LessTotal(y, z);
    if Less(z, x) {
      if Less(x, y) {
        LessTransitive(z, x, y);
      }
    }
  }

  lemma LessLeTransitive(x: seq<byte>, y: seq<byte>, z: seq<byte>)
    requires Less(x, y) && Le(y, z)
    ensures Less(x, z)
  {
    LessTotal(y, z);
    if Less(y, z) {
      LessTransitive(x, y, z);
    }
  }

  lemma LeAntisymmetric(x: seq<byte>, y: seq<byte>)
    requires Le(x, y) && Le(y, x)
    ensures x == y
  {
    LessTotal(x, y);
  }

  /** Keys never decrease from left to right. */
  ghost predicate SortedBy<T>(s: seq<T>, key: T -> seq<byte>) {
    forall i, j :: 0 <= i < j < |s| ==> Le(key(s[i]), key(s[j]))
  }

  /** Keys strictly increase from left to right. */
  ghost predicate StrictlySortedBy<T>(s: seq<T>, key: T -> seq<byte>) {
    forall i, j :: 0 <= i < j < |s| ==> Less(key(s[i]), key(s[j]))
  }

  /** Elements with equal keys are equal. */
  ghost predicate KeyInjective<T>(s: seq<T>, key: T -> seq<byte>) {
    forall x, y :: x in s && y in s && key(x) == key(y) ==> x == y
  }

  /** No two positions hold the same key. */
  ghost predicate DistinctKeysBy<T>(s: seq<T>, key: T -> seq<byte>) {
    forall i, j :: 0 <= i < j < |s| ==> key(s[i]) != key(s[j])
  }

  lemma DistinctKeysInjective<T>(s: seq<T>, key: T -> seq<byte>)
    requires DistinctKeysBy(s, key)
    ensures KeyInjective(s, key)
  {
    forall x, y | x in s && y in s && key(x) == key(y) ensures x == y {
      var i :| 0 <= i < |s| && s[i] == x;
      var j :| 0 <= j < |s| && s[j] == y;
      assert i == j;
    }
  }

  /** Sorted with distinct keys is strictly sorted. */
  lemma SortedDistinctIsStrict<T>(s: seq<T>, key: T -> seq<byte>)
    requires SortedBy(s, key) && DistinctKeysBy(s, key)
    ensures StrictlySortedBy(s, key)
  {
    forall i, j | 0 <= i < j < |s| ensures Less(key(s[i]), key(s[j])) {
      LessTotal(key(s[i]), key(s[j]));
    }
  }

  /* ---------------------------------------------------------------------- */
  /* The ordering as a function                                             */
  /* ---------------------------------------------------------------------- */

  /** Put `x` before the first element whose key is not below its own. */
  function Insert<T>(x: T, s: seq<T>, key: T -> seq<byte>): (r: seq<T>)
    ensures |r| == |s| + 1
  {
    if s == [] then [x]
    else if Less(key(s[0]), key(x)) then [s[0]] + Insert(x, s[1..], key)
    else [x] + s
  }

  function InsertionSort<T>(s: seq<T>, key: T -> seq<byte>): (r: seq<T>)
    ensures |r| == |s|
  {
    if s == [] then [] else Insert(s[0], InsertionSort(s[1..], key), key)
  }

  lemma TailSorted<T>(s: seq<T>, key: T -> seq<byte>)
    requires s != [] && SortedBy(s, key)
    ensures SortedBy(s[1..], key)
  {
    var t := s[1..];
    forall i, j | 0 <= i < j < |t| ensures Le(key(t[i]), key(t[j])) {
      assert t[i] == s[i + 1] && t[j] == s[j + 1];
    }
  }

  /** A sorted sequence stays sorted with an element in front that is below all of it. */
  lemma ConsSorted<T>(x: T, s: seq<T>, key: T -> seq<byte>)
    requires SortedBy(s, key)
    requires forall j :: 0 <= j < |s| ==> Le(key(x), key(s[j]))
    ensures SortedBy([x] + s, key)
  {
    var r := [x] + s;
    forall i, j | 0 <= i < j < |r| ensures Le(key(r[i]), key(r[j])) {
      assert r[j] == s[j - 1];
      if i > 0 {
        assert r[i] == s[i - 1];
      }
    }
  }

  lemma {:induction false} InsertSorted<T>(x: T, s: seq<T>, key: T -> seq<byte>)
    requires SortedBy(s, key)
    ensures SortedBy(Insert(x, s, key), key)
    ensures multiset(Insert(x, s, key)) == multiset(s) + multiset{x}
  {
    if s == [] {
    } else if Less(key(s[0]), key(x)) {
      var t := s[1..];
      TailSorted(s, key);
      InsertSorted(x, t, key);
      var r := Insert(x, t, key);
      forall k | 0 <= k < |r| ensures Le(key(s[0]), key(r[k])) {
        InsertedFrom(x, t, key, k);
        if r[k] == x {
          LessAsymmetric(key(s[0]), key(x));
        } else {
          var m :| 0 <= m < |t| && t[m] == r[k];
          assert s[m + 1] == r[k];
        }
      }
      ConsSorted(s[0], r, key);
      assert s == [s[0]] + t;
    } else {
      forall j | 0 <= j < |s| ensures Le(key(x), key(s[j])) {
        if j > 0 {
          LeTransitive(key(x), key(s[0]), key(s[j]));
        }
      }
      ConsSorted(x, s, key);
    }
  }

  /** Every element after an insertion was either inserted or already there. */
  lemma InsertedFrom<T>(x: T, t: seq<T>, key: T -> seq<byte>, k: int)
    requires 0 <= k < |t| + 1
    requires multiset(Insert(x, t, key)) == multiset(t) + multiset{x}
    ensures Insert(x, t, key)[k] == x || Insert(x, t, key)[k] in t
  {
    var r := Insert(x, t, key);
    assert r[k] in multiset(r);
  }

  /** The function sorts and is a permutation. */
  lemma {:induction false} InsertionSortSorts<T>(s: seq<T>, key: T -> seq<byte>)
    ensures SortedBy(InsertionSort(s, key), key)
    ensures multiset(InsertionSort(s, key)) == multiset(s)
  {
    if s != [] {
      InsertionSortSorts(s[1..], key);
      InsertSorted(s[0], InsertionSort(s[1..], key), key);
      assert s == [s[0]] + s[1..];
    }
  }

  /** Two sorted permutations of the same elements are equal when keys identify elements. */
  lemma {:induction false} SortedUnique<T>(a: seq<T>, b: seq<T>, key: T -> seq<byte>)
    requires SortedBy(a, key) && SortedBy(b, key)
    requires multiset(a) == multiset(b)
    requires KeyInjective(a, key)
    ensures a == b
  {
    if a == [] {
      assert |multiset(b)| == 0;
    } else {
      SortedTails(a, b, key);
      SortedUnique(a[1..], b[1..], key);
      assert a == [a[0]] + a[1..] && b == [b[0]] + b[1..];
    }
  }

  /** The heads of two non-empty sorted permutations agree, and their tails are again sorted permutations. */
  lemma SortedTails<T>(a: seq<T>, b: seq<T>, key: T -> seq<byte>)
    requires a != []
    requires SortedBy(a, key) && SortedBy(b, key)
    requires multiset(a) == multiset(b)
    requires KeyInjective(a, key)
    ensures b != [] && a[0] == b[0]
    ensures SortedBy(a[1..], key) && SortedBy(b[1..], key)
    ensures multiset(a[1..]) == multiset(b[1..])
    ensures KeyInjective(a[1..], key)
  {
    assert |b| == |multiset(b)| == |multiset(a)| == |a|;
    SortedHeads(a, b, key);
    TailMultiset(a);
    TailMultiset(b);
    TailSorted(a, key);
    TailSorted(b, key);
    TailInjective(a, key);
  }

  /** The smallest elements of two sorted permutations agree. */
  lemma SortedHeads<T>(a: seq<T>, b: seq<T>, key: T -> seq<byte>)
    requires a != [] && b != []
    requires SortedBy(a, key) && SortedBy(b, key)
    requires multiset(a) == multiset(b)
    requires KeyInjective(a, key)
    ensures a[0] == b[0]
  {
    assert a[0] in multiset(b) && b[0] in multiset(a);
    var i :| 0 <= i < |b| && b[i] == a[0];
    var j :| 0 <= j < |a| && a[j] == b[0];
    if j == 0 { LessIrreflexive(key(a[0])); }
    if i == 0 { LessIrreflexive(key(b[0])); }
    assert Le(key(a[0]), key(a[j]));
    assert Le(key(b[0]), key(b[i]));
    LeAntisymmetric(key(a[0]), key(b[0]));
  }

  lemma TailInjective<T>(s: seq<T>, key: T -> seq<byte>)
    requires s != [] && KeyInjective(s, key)
    ensures KeyInjective(s[1..], key)
  {
    forall x, y | x in s[1..] && y in s[1..] && key(x) == key(y) ensures x == y {
      assert x in s && y in s;
    }
  }

  lemma TailMultiset<T>(s: seq<T>)
    requires s != []
    ensures multiset(s[1..]) == multiset(s) - multiset{s[0]}
  {
    assert s == [s[0]] + s[1..];
  }

  /** Sorting what is already sorted, with keys identifying elements, changes nothing. */
  lemma SortSorted<T>(s: seq<T>, key: T -> seq<byte>)
    requires SortedBy(s, key) && KeyInjective(s, key)
    ensures InsertionSort(s, key) == s
  {
    InsertionSortSorts(s, key);
    SortedUnique(s, InsertionSort(s, key), key);
  }

  /** The sorted result depends only on the elements, not on their order. */
  lemma SortOrderIndependent<T>(s: seq<T>, t: seq<T>, key: T -> seq<byte>)
    requires multiset(s) == multiset(t) && KeyInjective(s, key)
    ensures InsertionSort(s, key) == InsertionSort(t, key)
  {
    InsertionSortSorts(t, key);
    SortedIsInsertionSort(InsertionSort(t, key), s, key);
  }

  /** Any sorted permutation is the one the function computes, when keys identify elements. */
  lemma SortedIsInsertionSort<T>(a: seq<T>, s: seq<T>, key: T -> seq<byte>)
    requires SortedBy(a, key) && multiset(a) == multiset(s) && KeyInjective(s, key)
    ensures a == InsertionSort(s, key)
  {
    InsertionSortSorts(s, key);
    PermutationInjective(s, a, key);
    SortedUnique(a, InsertionSort(s, key), key);
  }

  lemma PermutationInjective<T>(s: seq<T>, t: seq<T>, key: T -> seq<byte>)
    requires multiset(s) == multiset(t) && KeyInjective(s, key)
    ensures KeyInjective(t, key)
  {
    forall x, y | x in t && y in t && key(x) == key(y) ensures x == y {
      assert x in multiset(t) && y in multiset(t);
      assert x in s && y in s;
    }
  }

  /* ---------------------------------------------------------------------- */
  /* Permutations                                                           */
  /* ---------------------------------------------------------------------- */

  /** Distinct keys stay distinct when the elements are reordered. */
  lemma PermutationDistinctKeys<T>(a: seq<T>, b: seq<T>, key: T -> seq<byte>)
    requires DistinctKeysBy(a, key) && multiset(a) == multiset(b)
    ensures DistinctKeysBy(b, key)
  {
    forall i, j | 0 <= i < j < |b| ensures key(b[i]) != key(b[j]) {
      if b[i] == b[j] {
        TwiceCounted(b, i, j);
        DistinctKeysOnce(a, key, b[i]);
      } else {
        assert b[i] in multiset(a) && b[j] in multiset(a);
        var k :| 0 <= k < |a| && a[k] == b[i];
        var l :| 0 <= l < |a| && a[l] == b[j];
        assert k < l || l < k;
      }
    }
  }

  /** An element at two positions is counted twice. */
  lemma TwiceCounted<T>(s: seq<T>, i: nat, j: nat)
    requires i < j < |s| && s[i] == s[j]
    ensures multiset(s)[s[i]] >= 2
  {
    assert s == s[..j] + s[j..];
    assert s[i] in s[..j] && s[j] in s[j..];
  }

  /** With distinct keys no element occurs twice. */
  lemma {:induction false} DistinctKeysOnce<T>(s: seq<T>, key: T -> seq<byte>, x: T)
    requires DistinctKeysBy(s, key)
    ensures multiset(s)[x] <= 1
  {
    if s != [] {
      var t := s[1..];
      assert DistinctKeysBy(t, key) by {
        forall i, j | 0 <= i < j < |t| ensures key(t[i]) != key(t[j]) {
          assert t[i] == s[i + 1] && t[j] == s[j + 1];
        }
      }
      DistinctKeysOnce(t, key, x);
      assert s == [s[0]] + t;
      if x == s[0] {
        assert x !in t by {
          forall k | 0 <= k < |t| ensures t[k] != x {
            assert t[k] == s[k + 1];
          }
        }
      }
    }
  }

  /** `s.map(f)`. */
  function Mapped<T, U>(s: seq<T>, f: T -> U): (r: seq<U>)
    ensures |r| == |s| && forall i :: 0 <= i < |s| ==> r[i] == f(s[i])
  {
    seq(|s|, i requires 0 <= i < |s| => f(s[i]))
  }

  /** Mapping reordered elements gives the mapped elements reordered. */
  lemma {:induction false} MappedPermutation<T, U>(a: seq<T>, b: seq<T>, f: T -> U)
    requires multiset(a) == multiset(b)
    ensures multiset(Mapped(a, f)) == multiset(Mapped(b, f))
    decreases |a|
  {
    if a == [] {
      assert |multiset(b)| == 0;
    } else {
      assert a[0] in multiset(b);
      var k :| 0 <= k < |b| && b[k] == a[0];
      var rest := Without(b, k);
      WithoutCounts(a, 0);
      WithoutCounts(b, k);
      assert Without(a, 0) == a[1..];
      MappedPermutation(a[1..], rest, f);
      MappedWithout(a, 0, f);
      MappedWithout(b, k, f);
      WithoutCounts(Mapped(a, f), 0);
      WithoutCounts(Mapped(b, f), k);
      Restored(multiset(Mapped(a, f)), multiset(Mapped(b, f)), f(a[0]));
    }
  }

  /** Multisets that agree once one common element is taken out agree. */
  lemma Restored<U>(m: multiset<U>, n: multiset<U>, x: U)
    requires x in m && x in n && m - multiset{x} == n - multiset{x}
    ensures m == n
  {
    assert m == m - multiset{x} + multiset{x};
    assert n == n - multiset{x} + multiset{x};
  }

  /** `s` with position `k` taken out. */
  function Without<T>(s: seq<T>, k: nat): seq<T>
    requires k < |s|
  {
    s[..k] + s[k + 1..]
  }

  lemma WithoutCounts<T>(s: seq<T>, k: nat)
    requires k < |s|
    ensures multiset(Without(s, k)) == multiset(s) - multiset{s[k]}
  {
    assert s == s[..k] + [s[k]] + s[k + 1..];
  }

  lemma MappedWithout<T, U>(s: seq<T>, k: nat, f: T -> U)
    requires k < |s|
    ensures Mapped(Without(s, k), f) == Without(Mapped(s, f), k)
  {
  }


  /* ---------------------------------------------------------------------- */
  /* The in-place sort                                                      */
  /* ---------------------------------------------------------------------- */

  /** Sorts `a` in place by key (an insertion sort; the library calls Array.prototype.sort). */
  method SortInPlace<T>(a: array<T>, key: T -> seq<byte>)
    modifies a
    ensures SortedBy(a[..], key)
    ensures multiset(a[..]) == multiset(old(a[..]))
  {
    var i := 0;
    while i < a.Length
      invariant 0 <= i <= a.Length
      invariant forall p, q :: 0 <= p < q < i ==> Le(key(a[p]), key(a[q]))
      invariant multiset(a[..]) == multiset(old(a[..]))
    {
      var j := i;
      while j > 0 && Less(key(a[j]), key(a[j - 1]))
        invariant 0 <= j <= i
        invariant forall p, q :: 0 <= p < q <= i && p != j && q != j ==> Le(key(a[p]), key(a[q]))
        invariant forall q :: j < q <= i ==> Less(key(a[j]), key(a[q]))
        invariant 0 < j < i ==> Le(key(a[j - 1]), key(a[j + 1]))
        invariant multiset(a[..]) == multiset(old(a[..]))
      {
        SwapStep(a, j, i, key);
        j := j - 1;
      }
      forall p, q | 0 <= p < q <= i ensures Le(key(a[p]), key(a[q])) {
        if q == j && p < j - 1 {
          LeTransitive(key(a[p]), key(a[j - 1]), key(a[j]));
        } else if p == j {
          LessAsymmetric(key(a[p]), key(a[q]));
        }
      }
      i := i + 1;
    }
    assert a[..] == a[..a.Length];
  }

  /** One step of the insertion: move the element at `j` one place left. */
  method SwapStep<T>(a: array<T>, j: int, i: int, key: T -> seq<byte>)
    requires 0 < j <= i < a.Length
    requires Less(key(a[j]), key(a[j - 1]))
    requires forall p, q :: 0 <= p < q <= i && p != j && q != j ==> Le(key(a[p]), key(a[q]))
    requires forall q :: j < q <= i ==> Less(key(a[j]), key(a[q]))
    modifies a
    ensures forall p, q :: 0 <= p < q <= i && p != j - 1 && q != j - 1 ==> Le(key(a[p]), key(a[q]))
    ensures forall q :: j - 1 < q <= i ==> Less(key(a[j - 1]), key(a[q]))
    ensures 0 < j - 1 < i ==> Le(key(a[j - 2]), key(a[j]))
    ensures multiset(a[..]) == multiset(old(a[..]))
  {
    ghost var before := a[..];
    a[j - 1], a[j] := a[j], a[j - 1];
    assert a[j - 1] == before[j] && a[j] == before[j - 1];
    assert forall p :: 0 <= p < a.Length && p != j - 1 && p != j ==> a[p] == before[p];
    forall q | j - 1 < q <= i ensures Less(key(a[j - 1]), key(a[q])) {
      if q > j {
        assert a[q] == before[q];
      }
    }
    forall p, q | 0 <= p < q <= i && p != j - 1 && q != j - 1 ensures Le(key(a[p]), key(a[q])) {
      if p == j {
        assert Le(key(before[j - 1]), key(before[q]));
      } else if q == j {
        assert Le(key(before[p]), key(before[j - 1]));
      }
    }
    if 0 < j - 1 {
      assert Le(key(before[j - 2]), key(before[j - 1]));
    }
    assert a[..] == before[j - 1 := before[j]][j := before[j - 1]];
  }
}
