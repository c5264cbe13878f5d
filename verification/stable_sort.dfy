/**
 Stable sorting by an abstract real-valued key, the contract of Python's
 `sorted(xs, key=f)`.

 A sequence `t` is a stable sort of `s` by `key` when `t` is in
 non-decreasing key order and, for every key value `k`, the elements of `t`
 with key `k` are exactly those of `s` with key `k`, in the same order.
 `SortByKey` computes one (by insertion), and `StableSortIsUnique` shows there
 is only one, so any stable algorithm (Timsort included) produces the same
 sequence.
 */
module StableSort {

  /** `s` is in non-decreasing key order. */
  ghost predicate SortedBy<T>(s: seq<T>, key: T -> real) {
    forall i, j | 0 <= i <= j < |s| :: key(s[i]) <= key(s[j])
  }

  /** The elements of `s` whose key is `k`, in their order in `s`. */
  function WithKey<T>(s: seq<T>, key: T -> real, k: real): (r: seq<T>)
    ensures |r| <= |s|
  {
    if |s| == 0 then []
    else if key(s[0]) == k then [s[0]] + WithKey(s[1..], key, k)
    else WithKey(s[1..], key, k)
  }

  /** `t` is a stable sort of `s` by `key`. */
  ghost predicate IsStableSortOf<T>(t: seq<T>, s: seq<T>, key: T -> real) {
    && SortedBy(t, key)
    && forall k :: WithKey(t, key, k) == WithKey(s, key, k)
  }

  /** An element belongs to `WithKey(s, key, k)` iff it belongs to `s` and has key `k`. */
  lemma {:induction false} WithKeyMembers<T>(s: seq<T>, key: T -> real, k: real, x: T)
    ensures x in WithKey(s, key, k) <==> x in s && key(x) == k
  {
    if |s| > 0 {
      WithKeyMembers(s[1..], key, k, x);
      assert s == [s[0]] + s[1..];
    }
  }

  /** Inserts `x` into the sorted `t` in front of the first element whose key
      is not smaller than `x`'s, so `x` comes before the elements it ties with. */
  function Insert<T(==)>(x: T, t: seq<T>, key: T -> real): (r: seq<T>)
    requires SortedBy(t, key)
    ensures |r| == |t| + 1
    ensures forall y | y in r :: y == x || y in t
    ensures SortedBy(r, key)
    ensures multiset(r) == multiset(t) + multiset{x}
  {
    if |t| == 0 || key(x) <= key(t[0]) then
      [x] + t
    else
      var rest := Insert(x, t[1..], key);
      HeadBoundsTail(t, key);
      ConsSorted(t[0], rest, key);
      assert t == [t[0]] + t[1..];
      [t[0]] + rest
  }

  /** In a sorted sequence, no later element has a smaller key than the first. */
  lemma HeadBoundsTail<T>(t: seq<T>, key: T -> real)
    requires |t| > 0 && SortedBy(t, key)
    ensures forall y | y in t[1..] :: key(t[0]) <= key(y)
  {
  }

  /** Putting an element in front of a sorted sequence whose keys it does
      not exceed keeps it sorted. */
  lemma ConsSorted<T>(x: T, t: seq<T>, key: T -> real)
    requires SortedBy(t, key)
    requires forall y | y in t :: key(x) <= key(y)
    ensures SortedBy([x] + t, key)
  {
  }

  /** Inserting `x` adds it at the front of the run of its own key and leaves
      every other run unchanged. */
  lemma {:induction false} InsertWithKey<T>(x: T, t: seq<T>, key: T -> real, k: real)
    requires SortedBy(t, key)
    ensures WithKey(Insert(x, t, key), key, k) ==
      if key(x) == k then [x] + WithKey(t, key, k) else WithKey(t, key, k)
  {
    var r := Insert(x, t, key);
    if |t| == 0 || key(x) <= key(t[0]) {
      assert r[1..] == t;
    } else {
      var rest := Insert(x, t[1..], key);
      assert r[1..] == rest;
      InsertWithKey(x, t[1..], key, k);
      if key(t[0]) == k {
        // then key(x) > k, so x is not in this run
        assert WithKey(t, key, k) == [t[0]] + WithKey(t[1..], key, k);
      }
    }
  }

  /** Python's `sorted(s, key=key)`: a stable sort of `s`. */
  function SortByKey<T(==)>(s: seq<T>, key: T -> real): (r: seq<T>)
    ensures |r| == |s|
    ensures multiset(r) == multiset(s)
    ensures IsStableSortOf(r, s, key)
  {
    if |s| == 0 then []
    else
      var rest := SortByKey(s[1..], key);
      var r := Insert(s[0], rest, key);
      assert s == [s[0]] + s[1..];
      assert forall k :: WithKey(r, key, k) == WithKey(s, key, k) by {
        forall k
          ensures WithKey(r, key, k) == WithKey(s, key, k)
        {
          InsertWithKey(s[0], rest, key, k);
        }
      }
      r
  }

  /** The run of the first element's key is never empty. */
  lemma WithKeyOfHead<T>(s: seq<T>, key: T -> real)
    requires |s| > 0
    ensures WithKey(s, key, key(s[0])) != []
  {
  }

  /** Two sequences that are both in key order and agree, key by key, on the
      ordered run of elements with that key are equal. */
  lemma {:induction false} SortedRunsDetermine<T>(a: seq<T>, b: seq<T>, key: T -> real)
    requires SortedBy(a, key) && SortedBy(b, key)
    requires forall k :: WithKey(a, key, k) == WithKey(b, key, k)
    ensures a == b
  {
    if |a| == 0 && |b| == 0 {
    } else if |a| == 0 {
      WithKeyOfHead(b, key);
      assert false;
    } else if |b| == 0 {
      WithKeyOfHead(a, key);
      assert false;
    } else {
      SortedRunsHead(a, b, key);
      forall k
        ensures WithKey(a[1..], key, k) == WithKey(b[1..], key, k)
      {
        WithKeyOfTail(a, key, k);
        WithKeyOfTail(b, key, k);
      }
      SortedRunsDetermine(a[1..], b[1..], key);
      assert a == [a[0]] + a[1..] && b == [b[0]] + b[1..];
    }
  }

  /** Under the hypotheses of `SortedRunsDetermine`, the first elements agree. */
  lemma SortedRunsHead<T>(a: seq<T>, b: seq<T>, key: T -> real)
    requires |a| > 0 && |b| > 0
    requires SortedBy(a, key) && SortedBy(b, key)
    requires forall k :: WithKey(a, key, k) == WithKey(b, key, k)
    ensures a[0] == b[0]
  {
    var ka, kb := key(a[0]), key(b[0]);
    assert a[0] in WithKey(a, key, ka);
    WithKeyMembers(b, key, ka, a[0]);
    assert b[0] in WithKey(b, key, kb);
    WithKeyMembers(a, key, kb, b[0]);
    assert ka == kb;
    assert a[0] == WithKey(a, key, ka)[0];
    assert b[0] == WithKey(b, key, ka)[0];
  }

  /** The runs of the tail: the head drops out of its own run only. */
  lemma WithKeyOfTail<T>(s: seq<T>, key: T -> real, k: real)
    requires |s| > 0
    ensures WithKey(s[1..], key, k) == if key(s[0]) == k then WithKey(s, key, k)[1..] else WithKey(s, key, k)
  {
  }

  /** The run of key `d` in a prefix of `s` is a prefix of the run in `s`. */
  lemma {:induction false} WithKeyOfPrefix<T>(s: seq<T>, key: T -> real, d: real, m: nat)
    requires m <= |s|
    ensures exists n | 0 <= n <= |WithKey(s, key, d)| :: WithKey(s[..m], key, d) == WithKey(s, key, d)[..n]
  {
    if m == 0 {
      assert WithKey(s[..m], key, d) == WithKey(s, key, d)[..0];
    } else {
      WithKeyOfPrefix(s[1..], key, d, m - 1);
      var n :| 0 <= n <= |WithKey(s[1..], key, d)| && WithKey(s[1..][..m - 1], key, d) == WithKey(s[1..], key, d)[..n];
      assert s[..m][1..] == s[1..][..m - 1];
      if key(s[0]) == d {
        assert WithKey(s[..m], key, d) == WithKey(s, key, d)[..n + 1];
      } else {
        assert WithKey(s[..m], key, d) == WithKey(s, key, d)[..n];
      }
    }
  }

  /** The stable sort of a sequence by a key is unique. */
  lemma StableSortIsUnique<T>(a: seq<T>, b: seq<T>, s: seq<T>, key: T -> real)
    requires IsStableSortOf(a, s, key) && IsStableSortOf(b, s, key)
    ensures a == b
  {
    SortedRunsDetermine(a, b, key);
  }

  /** Every stable sort of `s` is `SortByKey(s, key)`. */
  lemma StableSortIsSortByKey<T>(t: seq<T>, s: seq<T>, key: T -> real)
    requires IsStableSortOf(t, s, key)
    ensures t == SortByKey(s, key)
  {
    StableSortIsUnique(t, SortByKey(s, key), s, key);
  }

  /** The first `m` elements of the stable sort are a top-`m` selection:
      drawn from `s`, led by a minimum of `s`, and never beaten by an
      element left out. */
  lemma SortedPrefixIsTopK<T>(s: seq<T>, key: T -> real, m: nat)
    requires m <= |s|
    ensures forall x | x in SortByKey(s, key)[..m] :: x in s
    ensures m > 0 ==> forall y | y in s :: key(SortByKey(s, key)[0]) <= key(y)
    ensures forall x, y | x in SortByKey(s, key)[..m] && y in s && y !in SortByKey(s, key)[..m] :: key(x) <= key(y)
  {
    var sorted := SortByKey(s, key);
    SameMembers(sorted, s);
    PrefixOfSortedIsTopK(sorted, s, key, m);
  }

  /** The top-`m` argument on any sorted sequence holding the same members
      as `s`. */
  lemma PrefixOfSortedIsTopK<T>(sorted: seq<T>, s: seq<T>, key: T -> real, m: nat)
    requires m <= |sorted| && SortedBy(sorted, key)
    requires forall x | x in sorted :: x in s
    requires forall y | y in s :: exists j | 0 <= j < |sorted| :: sorted[j] == y
    ensures forall x | x in sorted[..m] :: x in s
    ensures m > 0 ==> forall y | y in s :: key(sorted[0]) <= key(y)
    ensures forall x, y | x in sorted[..m] && y in s && y !in sorted[..m] :: key(x) <= key(y)
  {
    forall x | x in sorted[..m]
      ensures x in s
    {
      var i :| 0 <= i < m && sorted[..m][i] == x;
      assert sorted[i] == x;
    }
    forall x, y | x in sorted[..m] && y in s && y !in sorted[..m]
      ensures key(x) <= key(y)
    {
      var i :| 0 <= i < m && sorted[..m][i] == x;
      var j :| 0 <= j < |sorted| && sorted[j] == y;
      assert sorted[i] == x;
    }
  }

  /** Sequences with the same multiset have the same members. */
  lemma SameMembers<T>(a: seq<T>, b: seq<T>)
    requires multiset(a) == multiset(b)
    ensures forall x | x in a :: x in b
    ensures forall y | y in b :: exists j | 0 <= j < |a| :: a[j] == y
  {
    forall x | x in a
      ensures x in b
    {
      assert x in multiset(a);
    }
    forall y | y in b
      ensures exists j | 0 <= j < |a| :: a[j] == y
    {
      assert y in multiset(b);
    }
  }
}
