/** Small value types shared by every part of the model. */
module Basics {

  /** A value that may be absent: the model of a nullable reference. */
  datatype Option<T> = None | Some(value: T)

  /**
   * An integer extended with +infinity. It models the IEEE doubles of the
   * original that are either finite or `double.PositiveInfinity`
   * (uncapacitated edges, unknown distances).
   */
  datatype ExtInt = Finite(n: int) | Infinity

  /** `a + b` for a finite `b`; infinity absorbs everything. */
  function Plus(a: ExtInt, b: int): (r: ExtInt)
    ensures r.Finite? <==> a.Finite?
    ensures a.Finite? ==> r.n == a.n + b
  {
    match a
    case Finite(x) => Finite(x + b)
    case Infinity => Infinity
  }

  /** Strict comparison of extended integers (`+inf < +inf` is false). */
  predicate Less(a: ExtInt, b: ExtInt)
  {
    match (a, b)
    case (Finite(x), Finite(y)) => x < y
    case (Finite(_), Infinity) => true
    case (Infinity, _) => false
  }

  /** `a <= b` on extended integers. */
  predicate AtMost(a: ExtInt, b: ExtInt)
  {
    !Less(b, a)
  }

  lemma {:induction false} AtMostTransitive(a: ExtInt, b: ExtInt, c: ExtInt)
    requires AtMost(a, b) && AtMost(b, c)
    ensures AtMost(a, c)
  {
    match (a, b, c)
    case (Finite(x), Finite(y), Finite(z)) =>
    case _ =>
  }

  /** No element occurs twice. */
  predicate Distinct<T(==)>(s: seq<T>)
  {
    forall i, j :: 0 <= i < j < |s| ==> s[i] != s[j]
  }

  /** In a sequence without repetitions, an entry does not occur before its own position. */
  lemma DistinctNotInPrefix<T>(s: seq<T>, i: int)
    requires Distinct(s) && 0 <= i < |s|
    ensures s[i] !in s[..i]
  {
    forall k | 0 <= k < i ensures s[..i][k] != s[i] {
      assert s[..i][k] == s[k];
    }
  }

  /** Without repetitions, the front of a sequence has none and lacks the last entry. */
  lemma DistinctFront<T>(s: seq<T>)
    requires Distinct(s) && s != []
    ensures Distinct(s[..|s| - 1]) && s[|s| - 1] !in s[..|s| - 1]
  {
    DistinctNotInPrefix(s, |s| - 1);
    var front := s[..|s| - 1];
    forall i, j | 0 <= i < j < |front| ensures front[i] != front[j] {
      assert front[i] == s[i] && front[j] == s[j];
    }
  }

  /** A prefix one entry longer is the prefix followed by that entry. */
  lemma TakeSnoc<T>(s: seq<T>, i: int)
    requires 0 <= i < |s|
    ensures s[..i + 1] == s[..i] + [s[i]]
  {
  }

  /** The prefix of full length is the whole sequence. */
  lemma TakeAll<T>(s: seq<T>)
    ensures s[..|s|] == s
  {
  }

  /** The set `{0, 1, ..., n - 1}`. */
  function Range(n: nat): (r: set<int>)
    ensures forall i :: i in r <==> 0 <= i < n
    ensures |r| == n
  {
    if n == 0 then {} else Range(n - 1) + {n - 1}
  }

  /** A set that contains all of `0 .. c-1` has at least `c` elements. */
  lemma {:induction false} RangeBelowSize(c: nat, s: set<int>)
    requires forall i :: 0 <= i < c ==> i in s
    ensures c <= |s|
  {
    SubsetSize(Range(c), s);
  }

  /** A subset of `0 .. n-1` has at most `n` elements. */
  lemma SubsetOfRangeSize(s: set<int>, n: nat)
    requires forall i :: i in s ==> 0 <= i < n
    ensures |s| <= n
  {
    SubsetSize(s, Range(n));
  }

  /** Some element of a non-empty set. */
  lemma Pick<T>(s: set<T>) returns (x: T)
    requires s != {}
    ensures x in s
  {
    x :| x in s;
  }

  /** A subset is no larger than its superset. */
  lemma {:induction false} SubsetSize<T>(a: set<T>, b: set<T>)
    requires a <= b
    ensures |a| <= |b|
  {
    if a != {} {
      var x :| x in a;
      SubsetSize(a - {x}, b - {x});
    }
  }

  /** A sequence without repetitions has as many distinct elements as entries. */
  lemma {:induction false} DistinctCardinality<T>(s: seq<T>)
    requires Distinct(s)
    ensures |set x | x in s| == |s|
  {
    if s != [] {
      var t := s[1..];
      DistinctCardinality(t);
      assert (set x | x in s) == (set x | x in t) + {s[0]};
      assert forall k :: 0 <= k < |t| ==> t[k] == s[k + 1] && s[k + 1] != s[0];
      assert s[0] !in t;
    }
  }

  /** A sequence without repetitions drawn from `0 .. n-1` has at most `n` entries. */
  lemma DistinctBelow(s: seq<int>, n: nat)
    requires Distinct(s)
    requires forall k :: 0 <= k < |s| ==> 0 <= s[k] < n
    ensures |s| <= n
  {
    DistinctCardinality(s);
    SubsetOfRangeSize((set x | x in s), n);
  }

  /** A subset with as many elements as the whole set is the whole set. */
  lemma SubsetSameSize<T>(a: set<T>, b: set<T>)
    requires a <= b && |a| == |b|
    ensures a == b
  {
    if a != b {
      var x :| x in b && x !in a;
      SubsetSize(a, b - {x});
    }
  }
}
