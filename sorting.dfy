/**
 * The stable ordering that LINQ's `OrderBy` / `OrderByDescending` provide,
 * as a functional insertion sort on an integer key. The library's own sort
 * is not modelled; only its documented result: sorted by key, a permutation,
 * and stable (equal keys keep their input order).
 */
module Sorting {

  /** The entries of `s` whose key is `k`, in their order in `s`. */
  function WithKey<T>(s: seq<T>, key: T -> int, k: int): (r: seq<T>)
    ensures |r| <= |s|
  {
    if s == [] then []
    else (if key(s[0]) == k then [s[0]] else []) + WithKey(s[1..], key, k)
  }

  /** Keys are non-decreasing along `s`. */
  predicate SortedBy<T>(s: seq<T>, key: T -> int)
  {
    forall i, j :: 0 <= i < j < |s| ==> key(s[i]) <= key(s[j])
  }

  /** Inserts `x` before the first entry whose key is strictly larger. */
  function InsertBy<T>(x: T, s: seq<T>, key: T -> int): seq<T>
  {
    if s == [] then [x]
    else if key(x) < key(s[0]) then [x] + s
    else [s[0]] + InsertBy(x, s[1..], key)
  }

  /** Stable sort: each entry is inserted after every earlier entry with an equal key. */
  function SortBy<T>(s: seq<T>, key: T -> int): seq<T>
  {
    if s == [] then [] else InsertBy(s[|s| - 1], SortBy(s[..|s| - 1], key), key)
  }

  lemma {:induction false} InsertByPermutes<T>(x: T, s: seq<T>, key: T -> int)
    ensures multiset(InsertBy(x, s, key)) == multiset(s) + multiset{x}
  {
    if s != [] && key(s[0]) <= key(x) {
      InsertByPermutes(x, s[1..], key);
      assert s == [s[0]] + s[1..];
    }
  }

  /** Where `InsertBy` puts `x`: before the first entry whose key is larger than its own. */
  function InsertPos<T>(x: T, s: seq<T>, key: T -> int): (k: nat)
    ensures k <= |s|
    ensures forall i :: 0 <= i < k ==> key(s[i]) <= key(x)
    ensures k < |s| ==> key(x) < key(s[k])
  {
    if s == [] || key(x) < key(s[0]) then 0
    else
      var k := InsertPos(x, s[1..], key);
      assert forall i :: 1 <= i < k + 1 ==> s[i] == s[1..][i - 1];
      k + 1
  }

  /** `InsertBy` splices `x` in at `InsertPos`. */
  lemma {:induction false} InsertByIsSplice<T>(x: T, s: seq<T>, key: T -> int)
    ensures InsertBy(x, s, key) == s[..InsertPos(x, s, key)] + [x] + s[InsertPos(x, s, key)..]
  {
    if s != [] && key(s[0]) <= key(x) {
      InsertByIsSplice(x, s[1..], key);
      var k := InsertPos(x, s[1..], key);
      assert s[..k + 1] == [s[0]] + s[1..][..k];
      assert s[k + 1..] == s[1..][k..];
    }
  }

  /** The entries of `InsertBy(x, s, key)`, position by position around `InsertPos`. */
  lemma InsertByAt<T>(x: T, s: seq<T>, key: T -> int)
    ensures var r, k := InsertBy(x, s, key), InsertPos(x, s, key);
      && |r| == |s| + 1 && r[k] == x
      && (forall i :: 0 <= i < k ==> r[i] == s[i])
      && (forall i :: k < i < |r| ==> r[i] == s[i - 1])
  {
    InsertByIsSplice(x, s, key);
  }

  lemma {:induction false} InsertBySorts<T>(x: T, s: seq<T>, key: T -> int)
    requires SortedBy(s, key)
    ensures SortedBy(InsertBy(x, s, key), key)
  {
    var k, v := InsertPos(x, s, key), InsertBy(x, s, key);
    InsertByAt(x, s, key);
    forall a, b | 0 <= a < b < |v| ensures key(v[a]) <= key(v[b]) {
      if b < k {
        assert key(s[a]) <= key(s[b]);
      } else if b == k {
        assert key(s[a]) <= key(x);
      } else if a < k {
        assert key(s[a]) <= key(s[b - 1]);
      } else if a == k {
        assert key(s[k]) <= key(s[b - 1]);
      } else {
        assert key(s[a - 1]) <= key(s[b - 1]);
      }
    }
  }

  lemma {:induction false} InsertByWithKey<T>(x: T, s: seq<T>, key: T -> int, k: int)
    requires SortedBy(s, key)
    ensures WithKey(InsertBy(x, s, key), key, k) == WithKey(s, key, k) + (if key(x) == k then [x] else [])
  {
    if s == [] {
    } else if key(x) < key(s[0]) {
      WithKeyCons(x, s, key, k);
      if key(x) == k {
        NoneWithSmallKey(s, key, k);
      }
    } else {
      SortedTail(s, key);
      InsertByWithKey(x, s[1..], key, k);
      WithKeyCons(s[0], InsertBy(x, s[1..], key), key, k);
      WithKeyCons(s[0], s[1..], key, k);
      assert [s[0]] + s[1..] == s;
    }
  }

  lemma WithKeyCons<T>(y: T, t: seq<T>, key: T -> int, k: int)
    ensures WithKey([y] + t, key, k) == (if key(y) == k then [y] else []) + WithKey(t, key, k)
  {
    assert ([y] + t)[0] == y && ([y] + t)[1..] == t;
  }

  lemma SortedTail<T>(s: seq<T>, key: T -> int)
    requires SortedBy(s, key) && s != []
    ensures SortedBy(s[1..], key)
  {
    forall i, j | 0 <= i < j < |s| - 1 ensures key(s[1..][i]) <= key(s[1..][j]) {
      assert s[1..][i] == s[i + 1] && s[1..][j] == s[j + 1];
    }
  }

  /** In a sorted sequence that starts above `k`, no entry has key `k`. */
  lemma {:induction false} NoneWithSmallKey<T>(s: seq<T>, key: T -> int, k: int)
    requires SortedBy(s, key)
    requires s != [] ==> k < key(s[0])
    ensures WithKey(s, key, k) == []
  {
    if s != [] {
      NoneWithSmallKey(s[1..], key, k);
    }
  }

  lemma {:induction false} WithKeyAppend<T>(s: seq<T>, x: T, key: T -> int, k: int)
    ensures WithKey(s + [x], key, k) == WithKey(s, key, k) + (if key(x) == k then [x] else [])
  {
    if s != [] {
      assert (s + [x])[1..] == s[1..] + [x];
      WithKeyAppend(s[1..], x, key, k);
    }
  }

  /** The sort yields a sorted permutation of its input. */
  lemma {:induction false} SortByIsSortedPermutation<T>(s: seq<T>, key: T -> int)
    ensures SortedBy(SortBy(s, key), key)
    ensures multiset(SortBy(s, key)) == multiset(s)
    ensures |SortBy(s, key)| == |s|
  {
    if s != [] {
      var p, x := s[..|s| - 1], s[|s| - 1];
      SortByIsSortedPermutation(p, key);
      assert SortBy(s, key) == InsertBy(x, SortBy(p, key), key);
      InsertBySorts(x, SortBy(p, key), key);
      InsertByPermutes(x, SortBy(p, key), key);
      assert s == p + [x];
      assert multiset(s) == multiset(p) + multiset{x};
      assert |SortBy(s, key)| == |multiset(SortBy(s, key))| == |multiset(s)|;
    }
  }

  /** The sort is stable: for every key, the entries with that key keep their input order. */
  lemma {:induction false} SortByIsStable<T>(s: seq<T>, key: T -> int, k: int)
    ensures WithKey(SortBy(s, key), key, k) == WithKey(s, key, k)
  {
    if s != [] {
      var p := s[..|s| - 1];
      SortByIsStable(p, key, k);
      SortByIsSortedPermutation(p, key);
      InsertByWithKey(s[|s| - 1], SortBy(p, key), key, k);
      assert s == p + [s[|s| - 1]];
      WithKeyAppend(p, s[|s| - 1], key, k);
    }
  }

  /** Entries with equal keys appear in increasing order. */
  predicate TiesAscending(s: seq<int>, key: int -> int)
  {
    forall a, b :: 0 <= a < b < |s| && key(s[a]) == key(s[b]) ==> s[a] < s[b]
  }

  /** Each entry is smaller than the next. */
  predicate StrictlyIncreasing(s: seq<int>)
  {
    forall a, b :: 0 <= a < b < |s| ==> s[a] < s[b]
  }

  /** Inserting an entry larger than all others keeps equal keys in increasing order. */
  lemma InsertByTies(x: int, t: seq<int>, key: int -> int)
    requires SortedBy(t, key) && TiesAscending(t, key)
    requires forall k :: 0 <= k < |t| ==> t[k] < x
    ensures TiesAscending(InsertBy(x, t, key), key)
  {
    var v := InsertBy(x, t, key);
    forall a, b | 0 <= a < b < |v| && key(v[a]) == key(v[b]) ensures v[a] < v[b] {
      InsertByTiesAt(x, t, key, a, b);
    }
  }

  /** `InsertByTies` for one pair of positions `a < b`. */
  lemma InsertByTiesAt(x: int, t: seq<int>, key: int -> int, a: int, b: int)
    requires SortedBy(t, key) && TiesAscending(t, key)
    requires forall k :: 0 <= k < |t| ==> t[k] < x
    requires 0 <= a < b < |InsertBy(x, t, key)|
    requires key(InsertBy(x, t, key)[a]) == key(InsertBy(x, t, key)[b])
    ensures InsertBy(x, t, key)[a] < InsertBy(x, t, key)[b]
  {
    var k, v := InsertPos(x, t, key), InsertBy(x, t, key);
    InsertByAt(x, t, key);
    if b < k {
      assert v[a] == t[a] && v[b] == t[b];
    } else if b == k {
      assert v[a] == t[a];
    } else if a < k {
      assert v[a] == t[a] && v[b] == t[b - 1];
    } else if a == k {
      assert false;
    } else {
      assert v[a] == t[a - 1] && v[b] == t[b - 1];
    }
  }

  /** Sorting an increasing sequence keeps entries with equal keys in increasing order. */
  lemma {:induction false} SortByTiesAscending(s: seq<int>, key: int -> int)
    requires StrictlyIncreasing(s)
    ensures TiesAscending(SortBy(s, key), key)
  {
    if s != [] {
      var p := s[..|s| - 1];
      var x := s[|s| - 1];
      SortByTiesAscending(p, key);
      SortByIsSortedPermutation(p, key);
      var t := SortBy(p, key);
      forall k | 0 <= k < |t| ensures t[k] < x {
        assert t[k] in multiset(t);
        var i :| 0 <= i < |p| && p[i] == t[k];
      }
      InsertByTies(x, t, key);
    }
  }
}
