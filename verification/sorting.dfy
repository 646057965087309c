/** LINQ `OrderBy` over an integer key, which .NET documents as a stable sort. */
module Sorting {
  import opened Sequences

  /** Keys never decrease along `s`. */
  predicate SortedBy<T>(s: seq<T>, key: T -> int)
  {
    forall i, j :: 0 <= i < j < |s| ==> key(s[i]) <= key(s[j])
  }

  /** The elements of `s` whose key is `k`, in the order they have in `s`. It is
      `Filter` with the predicate "has key `k`" (see `WithKeyIsFilter`), written out so
      that it needs no equality on `T` and unfolds directly in the sorting proofs. */
  function WithKey<T>(s: seq<T>, key: T -> int, k: int): seq<T>
  {
    if s == [] then []
    else if key(s[0]) == k then [s[0]] + WithKey(s[1..], key, k)
    else WithKey(s[1..], key, k)
  }

  /** `WithKey` is the LINQ `Where` of the elements with key `k`. */
  lemma {:induction false} WithKeyIsFilter<T>(s: seq<T>, key: T -> int, k: int)
    ensures WithKey(s, key, k) == Filter(s, x => key(x) == k)
  {
    if s != [] {
      WithKeyIsFilter(s[1..], key, k);
    }
  }

  /** Inserts `x` after every element whose key is not greater than its own. */
  function Insert<T>(t: seq<T>, x: T, key: T -> int): (r: seq<T>)
    requires SortedBy(t, key)
    ensures SortedBy(r, key)
    ensures multiset(r) == multiset(t) + multiset{x}
    decreases |t|, 2
  {
    if t == [] then [x]
    else if key(t[0]) <= key(x) then
      var rest := Insert(t[1..], x, key);
      assert t == [t[0]] + t[1..];
      InsertBounded(t, x, key);
      [t[0]] + rest
    else [x] + t
  }

  /** A stable sort by `key`: the model of `OrderBy(key)`. The result is sorted, is a
      permutation of `s`, and for every key the elements carrying that key keep the
      relative order they had in `s`. */
  function SortByKey<T>(s: seq<T>, key: T -> int): (r: seq<T>)
    ensures SortedBy(r, key)
    ensures multiset(r) == multiset(s)
    ensures forall k :: WithKey(r, key, k) == WithKey(s, key, k)
  {
    if s == [] then []
    else
      var init := s[..|s| - 1];
      var x := s[|s| - 1];
      assert s == init + [x];
      var sortedInit := SortByKey(init, key);
      InsertWithKey(sortedInit, x, key);
      WithKeySnoc(init, x, key);
      Insert(sortedInit, x, key)
  }

  /** The first element of `t` stays at or below everything `Insert` puts after it. */
  lemma InsertBounded<T>(t: seq<T>, x: T, key: T -> int)
    requires SortedBy(t, key) && t != [] && key(t[0]) <= key(x)
    ensures forall j :: 0 <= j < |Insert(t[1..], x, key)| ==>
      key(t[0]) <= key(Insert(t[1..], x, key)[j])
    decreases |t|, 1
  {
    var rest := Insert(t[1..], x, key);
    forall j | 0 <= j < |rest|
      ensures key(t[0]) <= key(rest[j])
    {
      assert rest[j] in multiset(rest);
      if rest[j] != x {
        assert rest[j] in t[1..];
      }
    }
  }

  lemma {:induction false} WithKeySnoc<T>(a: seq<T>, x: T, key: T -> int)
    ensures forall k :: WithKey(a + [x], key, k)
                        == WithKey(a, key, k) + (if key(x) == k then [x] else [])
    decreases |a|
  {
    forall k
      ensures WithKey(a + [x], key, k) == WithKey(a, key, k) + (if key(x) == k then [x] else [])
    {
      if a == [] {
        assert a + [x] == [x];
        assert [x][1..] == [];
      } else {
        WithKeySnoc(a[1..], x, key);
        assert (a + [x])[0] == a[0];
        assert (a + [x])[1..] == a[1..] + [x];
      }
    }
  }

  lemma {:induction false} WithKeyAbsent<T>(s: seq<T>, key: T -> int, k: int)
    requires forall i :: 0 <= i < |s| ==> key(s[i]) != k
    ensures WithKey(s, key, k) == []
  {
    if s != [] {
      WithKeyAbsent(s[1..], key, k);
    }
  }

  lemma {:induction false} WithKeyMembers<T>(s: seq<T>, key: T -> int, k: int)
    ensures forall i :: 0 <= i < |WithKey(s, key, k)| ==>
      WithKey(s, key, k)[i] in s && key(WithKey(s, key, k)[i]) == k
  {
    if s != [] {
      WithKeyMembers(s[1..], key, k);
    }
  }

  /** Insertion places `x` after every element with its key. */
  lemma {:induction false} InsertWithKey<T>(t: seq<T>, x: T, key: T -> int)
    requires SortedBy(t, key)
    ensures forall k :: WithKey(Insert(t, x, key), key, k)
                        == WithKey(t, key, k) + (if key(x) == k then [x] else [])
  {
    if t != [] && key(t[0]) <= key(x) {
      InsertWithKey(t[1..], x, key);
    }
    forall k
      ensures WithKey(Insert(t, x, key), key, k)
              == WithKey(t, key, k) + (if key(x) == k then [x] else [])
    {
      InsertWithKeyAt(t, x, key, k);
    }
  }

  /** One step of `InsertWithKey`, for a single key `k`, given the claim for the tail. */
  lemma {:induction false} InsertWithKeyAt<T>(t: seq<T>, x: T, key: T -> int, k: int)
    requires SortedBy(t, key)
    requires t != [] && key(t[0]) <= key(x) ==>
      WithKey(Insert(t[1..], x, key), key, k)
        == WithKey(t[1..], key, k) + (if key(x) == k then [x] else [])
    ensures WithKey(Insert(t, x, key), key, k)
            == WithKey(t, key, k) + (if key(x) == k then [x] else [])
  {
    if t == [] {
      assert Insert(t, x, key) == [x];
      assert [x][1..] == [];
    } else if key(t[0]) <= key(x) {
      var rest := Insert(t[1..], x, key);
      assert Insert(t, x, key) == [t[0]] + rest;
      assert ([t[0]] + rest)[1..] == rest;
    } else {
      assert Insert(t, x, key) == [x] + t;
      assert ([x] + t)[1..] == t;
      if key(x) == k {
        WithKeyAbsent(t, key, k);
      }
    }
  }

  lemma WithKeyHead<T>(s: seq<T>, key: T -> int)
    requires s != []
    ensures WithKey(s, key, key(s[0])) != []
  {
  }

  /** Two sorted sequences that agree, key by key, on the order of their elements are
      equal: the stable sort of a sequence is unique, so `SortByKey` is exactly the
      order `OrderBy` produces. */
  lemma {:induction false} StableSortUnique<T>(a: seq<T>, b: seq<T>, key: T -> int)
    requires SortedBy(a, key) && SortedBy(b, key)
    requires forall k :: WithKey(a, key, k) == WithKey(b, key, k)
    ensures a == b
    decreases |a|
  {
    if a == [] || b == [] {
      if a != [] {
        WithKeyHead(a, key);
        assert false;
      } else if b != [] {
        WithKeyHead(b, key);
        assert false;
      }
    } else {
      var k0, k1 := key(a[0]), key(b[0]);
      WithKeyMembers(a, key, k1);
      WithKeyMembers(b, key, k0);
      assert WithKey(a, key, k0) == [a[0]] + WithKey(a[1..], key, k0);
      assert WithKey(b, key, k1) == [b[0]] + WithKey(b[1..], key, k1);
      assert WithKey(b, key, k0)[0] in b;
      assert WithKey(a, key, k1)[0] in a;
      assert k0 == k1;
      assert a[0] == b[0];
      forall k
        ensures WithKey(a[1..], key, k) == WithKey(b[1..], key, k)
      {
        var pa, pb := WithKey(a[1..], key, k), WithKey(b[1..], key, k);
        if k == k0 {
          assert [a[0]] + pa == [b[0]] + pb;
          assert pa == ([a[0]] + pa)[1..];
          assert pb == ([b[0]] + pb)[1..];
        } else {
          assert WithKey(a, key, k) == pa;
          assert WithKey(b, key, k) == pb;
        }
      }
      StableSortUnique(a[1..], b[1..], key);
      assert a == [a[0]] + a[1..] && b == [b[0]] + b[1..];
    }
  }

  /** `rel` holds of every ordered pair of positions of `s`. */
  ghost predicate Pairwise<T>(s: seq<T>, rel: (T, T) -> bool)
  {
    forall i, j :: 0 <= i < j < |s| ==> rel(s[i], s[j])
  }

  /** Within `s`, `rel` holds of any pair listed in strictly increasing key order. */
  ghost predicate ImpliedByKeyOrder<T>(s: seq<T>, key: T -> int, rel: (T, T) -> bool)
  {
    forall i, j :: 0 <= i < |s| && 0 <= j < |s| && key(s[i]) < key(s[j]) ==> rel(s[i], s[j])
  }

  lemma {:induction false} InsertKeepsPairwise<T>(t: seq<T>, x: T, key: T -> int, rel: (T, T) -> bool)
    requires SortedBy(t, key) && Pairwise(t, rel)
    requires forall i :: 0 <= i < |t| ==> rel(t[i], x)
    requires forall i :: 0 <= i < |t| && key(x) < key(t[i]) ==> rel(x, t[i])
    ensures Pairwise(Insert(t, x, key), rel)
  {
    if t == [] {
    } else if key(t[0]) <= key(x) {
      InsertKeepsPairwise(t[1..], x, key, rel);
      InsertAfterFirstPairwise(t, x, key, rel);
    } else {
      InsertBeforeAllPairwise(t, x, key, rel);
    }
  }

  /** The step of `InsertKeepsPairwise` where `x` goes after the first element. */
  lemma {:induction false} InsertAfterFirstPairwise<T>(t: seq<T>, x: T, key: T -> int, rel: (T, T) -> bool)
    requires SortedBy(t, key) && t != [] && key(t[0]) <= key(x)
    requires Pairwise(t, rel) && Pairwise(Insert(t[1..], x, key), rel)
    requires forall i :: 0 <= i < |t| ==> rel(t[i], x)
    ensures Pairwise(Insert(t, x, key), rel)
  {
    var tail := t[1..];
    var rest := Insert(tail, x, key);
    var r := Insert(t, x, key);
    assert r == [t[0]] + rest;
    forall i, j | 0 <= i < j < |r|
      ensures rel(r[i], r[j])
    {
      var y := rest[j - 1];
      if i == 0 {
        assert rel(t[0], y) by {
          if y != x {
            assert y in multiset(tail) by {
              assert y in multiset(rest);
              assert multiset(rest) == multiset(tail) + multiset{x};
            }
            var m :| 0 <= m < |tail| && tail[m] == y;
            assert t[m + 1] == y;
          }
        }
      } else {
        assert r[i] == rest[i - 1];
      }
    }
  }

  /** The step of `InsertKeepsPairwise` where `x` goes before every element. */
  lemma {:induction false} InsertBeforeAllPairwise<T>(t: seq<T>, x: T, key: T -> int, rel: (T, T) -> bool)
    requires SortedBy(t, key) && t != [] && key(x) < key(t[0])
    requires Pairwise(t, rel)
    requires forall i :: 0 <= i < |t| && key(x) < key(t[i]) ==> rel(x, t[i])
    ensures Pairwise(Insert(t, x, key), rel)
  {
    var r := Insert(t, x, key);
    assert r == [x] + t;
    forall i, j | 0 <= i < j < |r|
      ensures rel(r[i], r[j])
    {
      assert r[j] == t[j - 1];
      if i == 0 {
        assert key(x) < key(t[j - 1]) by {
          assert key(t[0]) <= key(t[j - 1]);
        }
      } else {
        assert r[i] == t[i - 1];
      }
    }
  }

  /** A relation that holds of every ordered pair before sorting still holds after
      sorting, provided it holds of any two elements whose keys put them the other way
      round. Instances: distinct keys stay distinct, and elements with equal keys keep
      any order they had. */
  lemma {:induction false} SortKeepsPairwise<T>(s: seq<T>, key: T -> int, rel: (T, T) -> bool)
    requires Pairwise(s, rel) && ImpliedByKeyOrder(s, key, rel)
    ensures Pairwise(SortByKey(s, key), rel)
  {
    if s != [] {
      var init := s[..|s| - 1];
      var x := s[|s| - 1];
      SortKeepsPairwise(init, key, rel);
      var t := SortByKey(init, key);
      forall i | 0 <= i < |t|
        ensures rel(t[i], x)
        ensures key(x) < key(t[i]) ==> rel(x, t[i])
      {
        assert t[i] in multiset(init);
        var m :| 0 <= m < |init| && init[m] == t[i];
        assert s[m] == t[i];
      }
      InsertKeepsPairwise(t, x, key, rel);
    }
  }

  /** Deleting elements from a sorted sequence leaves it sorted. */
  lemma {:induction false} SubsequenceOfSortedIsSorted<T>(a: seq<T>, b: seq<T>, key: T -> int)
    requires IsSubsequence(a, b) && SortedBy(b, key)
    ensures SortedBy(a, key)
    decreases |b|
  {
    if a != [] {
      if a[0] == b[0] {
        SubsequenceOfSortedIsSorted(a[1..], b[1..], key);
        SubsequenceMembers(a[1..], b[1..]);
        forall j | 0 < j < |a|
          ensures key(a[0]) <= key(a[j])
        {
          assert a[j] == a[1..][j - 1];
          var m :| 0 <= m < |b[1..]| && b[1..][m] == a[j];
          assert b[m + 1] == a[j];
        }
        assert a == [a[0]] + a[1..];
      } else {
        SubsequenceOfSortedIsSorted(a, b[1..], key);
      }
    }
  }

  /** Deleting elements keeps, for every key, the elements with that key in order. */
  lemma {:induction false} SubsequenceWithKey<T>(a: seq<T>, b: seq<T>, key: T -> int, k: int)
    requires IsSubsequence(a, b)
    ensures IsSubsequence(WithKey(a, key, k), WithKey(b, key, k))
    decreases |b|
  {
    if a == [] {
    } else if a[0] == b[0] {
      SubsequenceWithKey(a[1..], b[1..], key, k);
    } else {
      SubsequenceWithKey(a, b[1..], key, k);
      if key(b[0]) == k {
        SubsequenceSkip(WithKey(a, key, k), WithKey(b, key, k));
      }
    }
  }
}
