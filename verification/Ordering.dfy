/**
 Stable sorting by a key, and what a stably sorted list is determined by. Rust's
 `sort`, `sort_by` and `sort_by_key` are stable, so their result is a function
 of the input; insertion sort is that function here, and
 `StableSortDetermined` says what it depends on.
 */
module Ordering {
  ghost predicate StrictTotalOrder<K(!new)>(less: (K, K) -> bool) {
    && (forall a, b :: less(a, b) || a == b || less(b, a))
    && (forall a, b :: less(a, b) ==> !less(b, a))
    && (forall a, b, c :: less(a, b) && less(b, c) ==> less(a, c))
  }

  /** Inserts `x` in front of the first element whose key is not below its own. */
  function Insert<T, K>(x: T, s: seq<T>, key: T -> K, less: (K, K) -> bool): (r: seq<T>)
    ensures |r| == |s| + 1
  {
    if s == [] || !less(key(s[0]), key(x)) then [x] + s
    else [s[0]] + Insert(x, s[1..], key, less)
  }

  function StableSort<T, K>(s: seq<T>, key: T -> K, less: (K, K) -> bool): (r: seq<T>)
    ensures |r| == |s|
  {
    if s == [] then [] else Insert(s[0], StableSort(s[1..], key, less), key, less)
  }

  /** The elements of `s` that have key `k`, in the order they appear. */
  function WithKey<T, K(==)>(s: seq<T>, k: K, key: T -> K): seq<T> {
    if s == [] then []
    else (if key(s[0]) == k then [s[0]] else []) + WithKey(s[1..], k, key)
  }

  /** For every key, `a` and `b` hold the same elements with it, in the same order. */
  ghost predicate SameSublists<T, K(!new)>(a: seq<T>, b: seq<T>, key: T -> K) {
    forall k :: WithKey(a, k, key) == WithKey(b, k, key)
  }

  ghost predicate SortedBy<T, K>(s: seq<T>, key: T -> K, less: (K, K) -> bool) {
    forall i, j :: 0 <= i < j < |s| ==> !less(key(s[j]), key(s[i]))
  }

  ghost predicate StrictlyAscending<T, K>(s: seq<T>, key: T -> K, less: (K, K) -> bool) {
    forall i, j :: 0 <= i < j < |s| ==> less(key(s[i]), key(s[j]))
  }

  ghost predicate DistinctKeys<T, K>(s: seq<T>, key: T -> K) {
    forall i, j :: 0 <= i < j < |s| ==> key(s[i]) != key(s[j])
  }

  lemma {:induction false} InsertMultiset<T, K>(x: T, s: seq<T>, key: T -> K, less: (K, K) -> bool)
    ensures multiset(Insert(x, s, key, less)) == multiset([x]) + multiset(s)
  {
    if s != [] && less(key(s[0]), key(x)) {
      InsertMultiset(x, s[1..], key, less);
      assert s == [s[0]] + s[1..];
    }
  }

  lemma {:induction false} StableSortMultiset<T, K>(s: seq<T>, key: T -> K, less: (K, K) -> bool)
    ensures multiset(StableSort(s, key, less)) == multiset(s)
  {
    if s != [] {
      StableSortMultiset(s[1..], key, less);
      InsertMultiset(s[0], StableSort(s[1..], key, less), key, less);
      assert s == [s[0]] + s[1..];
    }
  }

  lemma MultisetMember<T>(a: seq<T>, b: seq<T>, x: T)
    requires multiset(a) == multiset(b) && x in a
    ensures x in b
  {
    assert x in multiset(a);
  }

  lemma {:induction false} InsertSorted<T, K(!new)>(x: T, s: seq<T>, key: T -> K, less: (K, K) -> bool)
    requires StrictTotalOrder(less) && SortedBy(s, key, less)
    ensures SortedBy(Insert(x, s, key, less), key, less)
  {
    if s != [] && less(key(s[0]), key(x)) {
      var t := Insert(x, s[1..], key, less);
      InsertSorted(x, s[1..], key, less);
      InsertMultiset(x, s[1..], key, less);
      forall j | 0 <= j < |t|
        ensures !less(key(t[j]), key(s[0]))
      {
        MultisetMember(t, [x] + s[1..], t[j]);
      }
    }
  }

  lemma {:induction false} StableSortSorted<T, K(!new)>(s: seq<T>, key: T -> K, less: (K, K) -> bool)
    requires StrictTotalOrder(less)
    ensures SortedBy(StableSort(s, key, less), key, less)
  {
    if s != [] {
      StableSortSorted(s[1..], key, less);
      InsertSorted(s[0], StableSort(s[1..], key, less), key, less);
    }
  }

  lemma Irreflexive<K(!new)>(less: (K, K) -> bool, a: K)
    requires StrictTotalOrder(less)
    ensures !less(a, a)
  {}

  lemma WithKeyCons<T, K>(x: T, s: seq<T>, k: K, key: T -> K)
    ensures WithKey([x] + s, k, key) == (if key(x) == k then [x] else []) + WithKey(s, k, key)
  {
    assert ([x] + s)[1..] == s;
  }

  lemma {:induction false} InsertWithKey<T, K(!new)>(x: T, s: seq<T>, k: K, key: T -> K, less: (K, K) -> bool)
    requires StrictTotalOrder(less)
    ensures WithKey(Insert(x, s, key, less), k, key)
         == (if key(x) == k then [x] else []) + WithKey(s, k, key)
  {
    hide StrictTotalOrder, WithKey;
    if s == [] || !less(key(s[0]), key(x)) {
      WithKeyCons(x, s, k, key);
    } else {
      var rest := Insert(x, s[1..], key, less);
      InsertWithKey(x, s[1..], k, key, less);
      Irreflexive(less, k);
      WithKeyCons(s[0], rest, k, key);
      WithKeyCons(s[0], s[1..], k, key);
      assert s == [s[0]] + s[1..];
    }
  }

  /** Sorting keeps, for each key, the order of the elements that have it. */
  lemma {:induction false} StableSortWithKey<T, K(!new)>(s: seq<T>, k: K, key: T -> K, less: (K, K) -> bool)
    requires StrictTotalOrder(less)
    ensures WithKey(StableSort(s, key, less), k, key) == WithKey(s, k, key)
  {
    if s != [] {
      StableSortWithKey(s[1..], k, key, less);
      InsertWithKey(s[0], StableSort(s[1..], key, less), k, key, less);
    }
  }

  lemma {:induction false} WithKeyMember<T, K>(s: seq<T>, k: K, key: T -> K)
    ensures WithKey(s, k, key) != [] <==> exists i :: 0 <= i < |s| && key(s[i]) == k
  {
    if s != [] {
      WithKeyMember(s[1..], k, key);
      if i :| 0 <= i < |s| && key(s[i]) == k {
        assert i == 0 || key(s[1..][i - 1]) == k;
      }
    }
  }

  /** A sorted list is determined by its per-key sublists. */
  lemma {:induction false} SortedDetermined<T, K(!new)>(a: seq<T>, b: seq<T>, key: T -> K, less: (K, K) -> bool)
    requires StrictTotalOrder(less) && SortedBy(a, key, less) && SortedBy(b, key, less)
    requires SameSublists(a, b, key)
    ensures a == b
  {
    if a + b != [] {
      var first := key((a + b)[0]);
      WithKeyMember(a, first, key);
      WithKeyMember(b, first, key);
      var k := key(a[0]);
      WithKeyMember(a, k, key);
      WithKeyMember(b, k, key);
      WithKeyMember(a, key(b[0]), key);
      WithKeyMember(b, key(b[0]), key);
      assert !less(key(b[0]), k) && !less(k, key(b[0]));
      assert a[0] == WithKey(a, k, key)[0] && b[0] == WithKey(b, k, key)[0];
      forall j
        ensures WithKey(a[1..], j, key) == WithKey(b[1..], j, key)
      {
        var head := if k == j then 1 else 0;
        assert WithKey(a[1..], j, key) == WithKey(a, j, key)[head..];
        assert WithKey(b[1..], j, key) == WithKey(b, j, key)[head..];
      }
      SortedDetermined(a[1..], b[1..], key, less);
    }
  }

  /**
   Two lists sort to the same list exactly when, for every key, they hold the
   same elements with that key in the same order.
   */
  lemma {:induction false} StableSortDetermined<T, K(!new)>(a: seq<T>, b: seq<T>, key: T -> K, less: (K, K) -> bool)
    requires StrictTotalOrder(less)
    ensures StableSort(a, key, less) == StableSort(b, key, less)
       <==> SameSublists(a, b, key)
  {
    var sa, sb := StableSort(a, key, less), StableSort(b, key, less);
    forall k
      ensures WithKey(sa, k, key) == WithKey(a, k, key) && WithKey(sb, k, key) == WithKey(b, k, key)
    {
      StableSortWithKey(a, k, key, less);
      StableSortWithKey(b, k, key, less);
    }
    if sa == sb {
      assert SameSublists(a, b, key);
    } else if SameSublists(a, b, key) {
      StableSortSorted(a, key, less);
      StableSortSorted(b, key, less);
      assert SameSublists(sa, sb, key);
      SortedDetermined(sa, sb, key, less);
    }
  }

  /** Lists with the same keys position by position sort alike only if they are equal. */
  lemma {:induction false} SameKeysDetermined<T, K(!new)>(a: seq<T>, b: seq<T>, key: T -> K)
    requires |a| == |b| && forall i :: 0 <= i < |a| ==> key(a[i]) == key(b[i])
    requires SameSublists(a, b, key)
    ensures a == b
  {
    if a != [] {
      var k0 := key(a[0]);
      assert WithKey(a, k0, key)[0] == a[0] && WithKey(b, k0, key)[0] == b[0];
      forall k
        ensures WithKey(a[1..], k, key) == WithKey(b[1..], k, key)
      {
        var head := if k0 == k then 1 else 0;
        assert WithKey(a[1..], k, key) == WithKey(a, k, key)[head..];
        assert WithKey(b[1..], k, key) == WithKey(b, k, key)[head..];
      }
      SameKeysDetermined(a[1..], b[1..], key);
      assert a == [a[0]] + a[1..] && b == [b[0]] + b[1..];
    }
  }

  lemma {:induction false} WithKeyMultiset<T, K>(s: seq<T>, k: K, x: T, key: T -> K)
    ensures multiset(WithKey(s, k, key))[x] == if key(x) == k then multiset(s)[x] else 0
  {
    if s != [] {
      WithKeyMultiset(s[1..], k, x, key);
      assert s == [s[0]] + s[1..];
    }
  }

  lemma {:induction false} WithKeyDistinct<T, K>(s: seq<T>, k: K, key: T -> K)
    requires DistinctKeys(s, key)
    ensures |WithKey(s, k, key)| <= 1
  {
    if s != [] {
      WithKeyDistinct(s[1..], k, key);
      WithKeyMember(s[1..], k, key);
    }
  }

  lemma WithKeyPermuted<T(!new), K>(a: seq<T>, b: seq<T>, k: K, key: T -> K)
    requires multiset(a) == multiset(b)
    ensures multiset(WithKey(a, k, key)) == multiset(WithKey(b, k, key))
    ensures |WithKey(a, k, key)| == |WithKey(b, k, key)|
  {
    var wa, wb := WithKey(a, k, key), WithKey(b, k, key);
    forall x
      ensures multiset(wa)[x] == multiset(wb)[x]
    {
      WithKeyMultiset(a, k, x, key);
      WithKeyMultiset(b, k, x, key);
    }
    assert multiset(wa) == multiset(wb);
    assert |wa| == |multiset(wa)| && |wb| == |multiset(wb)|;
  }

  lemma DistinctSublistsAgree<T(!new), K>(a: seq<T>, b: seq<T>, k: K, key: T -> K)
    requires DistinctKeys(a, key) && multiset(a) == multiset(b)
    ensures WithKey(a, k, key) == WithKey(b, k, key)
  {
    WithKeyDistinct(a, k, key);
    WithKeyPermuted(a, b, k, key);
    SmallPermutation(WithKey(a, k, key), WithKey(b, k, key));
  }

  lemma SmallPermutation<T>(a: seq<T>, b: seq<T>)
    requires multiset(a) == multiset(b) && |a| == |b| <= 1
    ensures a == b
  {
    if a != [] {
      assert a[0] in multiset(b);
    }
  }

  /** When keys are distinct, rearranging a list does not change what it sorts to. */
  lemma PermutationSortsAlike<T(!new), K(!new)>(a: seq<T>, b: seq<T>, key: T -> K, less: (K, K) -> bool)
    requires StrictTotalOrder(less) && DistinctKeys(a, key) && multiset(a) == multiset(b)
    ensures StableSort(a, key, less) == StableSort(b, key, less)
  {
    forall k
      ensures WithKey(a, k, key) == WithKey(b, k, key)
    {
      DistinctSublistsAgree(a, b, k, key);
    }
    StableSortDetermined(a, b, key, less);
  }

  lemma {:induction false} WithKeyPair<T, K>(s: seq<T>, i: nat, j: nat, key: T -> K)
    requires i < j < |s| && key(s[i]) == key(s[j])
    ensures |WithKey(s, key(s[j]), key)| >= 2
  {
    if i == 0 {
      WithKeyMember(s[1..], key(s[j]), key);
      assert key(s[1..][j - 1]) == key(s[j]);
    } else {
      WithKeyPair(s[1..], i - 1, j - 1, key);
    }
  }

  lemma DistinctPermuted<T(!new), K>(a: seq<T>, b: seq<T>, key: T -> K)
    requires DistinctKeys(a, key) && multiset(a) == multiset(b)
    ensures DistinctKeys(b, key)
  {
    forall i, j | 0 <= i < j < |b|
      ensures key(b[i]) != key(b[j])
    {
      WithKeyDistinct(a, key(b[j]), key);
      WithKeyPermuted(a, b, key(b[j]), key);
      if key(b[i]) == key(b[j]) {
        WithKeyPair(b, i, j, key);
      }
    }
  }

  /** Sorting a list with distinct keys leaves its keys strictly ascending. */
  lemma StableSortAscends<T(!new), K(!new)>(s: seq<T>, key: T -> K, less: (K, K) -> bool)
    requires StrictTotalOrder(less) && DistinctKeys(s, key)
    ensures StrictlyAscending(StableSort(s, key, less), key, less)
  {
    StableSortSorted(s, key, less);
    StableSortMultiset(s, key, less);
    DistinctPermuted(s, StableSort(s, key, less), key);
  }

  /** Sorting commutes with a change of elements that keeps their keys. */
  lemma {:induction false} StableSortMapped<T, U, K>(
    s: seq<T>, t: seq<U>, f: T -> U, keyT: T -> K, keyU: U -> K, less: (K, K) -> bool)
    requires forall x :: keyU(f(x)) == keyT(x)
    requires t == Mapped(s, f)
    ensures StableSort(t, keyU, less) == Mapped(StableSort(s, keyT, less), f)
  {
    if s != [] {
      assert t[1..] == Mapped(s[1..], f);
      StableSortMapped(s[1..], t[1..], f, keyT, keyU, less);
      InsertMapped(s[0], StableSort(s[1..], keyT, less), f, keyT, keyU, less);
    }
  }

  function Mapped<T, U>(s: seq<T>, f: T -> U): (r: seq<U>)
    ensures |r| == |s| && forall i :: 0 <= i < |s| ==> r[i] == f(s[i])
  {
    seq(|s|, i requires 0 <= i < |s| => f(s[i]))
  }

  lemma {:induction false} InsertMapped<T, U, K>(
    x: T, s: seq<T>, f: T -> U, keyT: T -> K, keyU: U -> K, less: (K, K) -> bool)
    requires forall y :: keyU(f(y)) == keyT(y)
    ensures Insert(f(x), Mapped(s, f), keyU, less) == Mapped(Insert(x, s, keyT, less), f)
  {
    if s != [] && less(keyT(s[0]), keyT(x)) {
      InsertMapped(x, s[1..], f, keyT, keyU, less);
      assert Mapped(s, f)[1..] == Mapped(s[1..], f);
    }
  }

  // ----- `sort` followed by `dedup` -----

  function Self<T>(x: T): T { x }

  /** Removes each element equal to the one after it. */
  function Dedup<T(==)>(s: seq<T>): (r: seq<T>)
    ensures |r| <= |s|
    ensures s != [] ==> r != [] && r[0] == s[0]
  {
    if |s| <= 1 then s
    else if s[0] == s[1] then Dedup(s[1..])
    else [s[0]] + Dedup(s[1..])
  }

  function SortDedup<T(==)>(s: seq<T>, less: (T, T) -> bool): (r: seq<T>)
    ensures |r| <= |s|
  {
    Dedup(StableSort(s, Self, less))
  }

  lemma {:induction false} DedupMembers<T>(s: seq<T>, x: T)
    ensures x in Dedup(s) <==> x in s
  {
    if |s| > 1 {
      DedupMembers(s[1..], x);
      assert s == [s[0]] + s[1..];
    }
  }

  lemma {:induction false} DedupAscends<T(!new)>(s: seq<T>, less: (T, T) -> bool)
    requires StrictTotalOrder(less) && SortedBy(s, Self, less)
    ensures StrictlyAscending(Dedup(s), Self, less)
  {
    if |s| > 1 {
      var t := Dedup(s[1..]);
      DedupAscends(s[1..], less);
      if s[0] != s[1] {
        forall j | 0 <= j < |t|
          ensures less(s[0], t[j])
        {
          DedupMembers(s[1..], t[j]);
          assert !less(Self(s[1]), Self(s[0]));
        }
      }
    }
  }

  lemma SortDedupMembers<T>(s: seq<T>, x: T, less: (T, T) -> bool)
    ensures x in SortDedup(s, less) <==> x in s
  {
    var t := StableSort(s, Self, less);
    StableSortMultiset(s, Self, less);
    DedupMembers(t, x);
    assert x in s <==> x in multiset(s);
    assert x in t <==> x in multiset(t);
  }

  /** Strictly ascending lists with the same members are the same list. */
  lemma {:induction false} AscendingDetermined<T(!new)>(a: seq<T>, b: seq<T>, less: (T, T) -> bool)
    requires StrictTotalOrder(less)
    requires StrictlyAscending(a, Self, less) && StrictlyAscending(b, Self, less)
    requires forall x :: x in a <==> x in b
    ensures a == b
  {
    if a + b != [] {
      assert (a + b)[0] in a && (a + b)[0] in b;
      assert b[0] in a && a[0] in b;
      var i :| 0 <= i < |a| && a[i] == b[0];
      var j :| 0 <= j < |b| && b[j] == a[0];
      assert a[0] == b[0];
      forall x
        ensures x in a[1..] <==> x in b[1..]
      {
        assert x in a <==> x == a[0] || x in a[1..];
        assert x in b <==> x == b[0] || x in b[1..];
        assert a[0] !in a[1..] && b[0] !in b[1..] by {
          assert forall n :: 0 < n < |a| ==> less(Self(a[0]), Self(a[n]));
          assert forall n :: 0 < n < |b| ==> less(Self(b[0]), Self(b[n]));
        }
      }
      AscendingDetermined(a[1..], b[1..], less);
      assert a == [a[0]] + a[1..] && b == [b[0]] + b[1..];
    }
  }

  /** `sort` then `dedup` gives equal lists exactly for lists with equal members. */
  lemma SortDedupDetermined<T(!new)>(a: seq<T>, b: seq<T>, less: (T, T) -> bool)
    requires StrictTotalOrder(less)
    ensures SortDedup(a, less) == SortDedup(b, less) <==> (forall x :: x in a <==> x in b)
  {
    var da, db := SortDedup(a, less), SortDedup(b, less);
    forall x
      ensures (x in da <==> x in a) && (x in db <==> x in b)
    {
      SortDedupMembers(a, x, less);
      SortDedupMembers(b, x, less);
    }
    if forall x :: x in a <==> x in b {
      StableSortSorted(a, Self, less);
      StableSortSorted(b, Self, less);
      DedupAscends(StableSort(a, Self, less), less);
      DedupAscends(StableSort(b, Self, less), less);
      AscendingDetermined(da, db, less);
    }
  }
}
