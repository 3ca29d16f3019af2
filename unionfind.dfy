/**
 * Disjoint sets over the indices 0 .. n-1 (Utils/UnionFind.cs): a parent
 * array with union by rank and recursive path compression.
 *
 * The partition is given by the root reached from each index. Ranks grow
 * strictly along every parent link, which is what makes the walk to the
 * root terminate.
 */
module UnionFindModel {

  /** Parent links stay in range, and each link leads to a strictly higher rank. */
  predicate Forest(p: seq<int>, rk: seq<int>)
  {
    |p| == |rk| &&
    (forall i :: 0 <= i < |p| ==> 0 <= p[i] < |p|) &&
    (forall i :: 0 <= i < |p| && p[i] != i ==> rk[i] < rk[p[i]])
  }

  /** The indices ranked strictly above `x`. */
  function Higher(rk: seq<int>, x: int): set<int>
    requires 0 <= x < |rk|
  {
    set i | 0 <= i < |rk| && rk[i] > rk[x]
  }

  lemma HigherShrinks(rk: seq<int>, x: int, y: int)
    requires 0 <= x < |rk| && 0 <= y < |rk| && rk[x] < rk[y]
    ensures Higher(rk, y) < Higher(rk, x)
  {
    assert y in Higher(rk, x);
  }

  /** The representative of `x`: the end of its chain of parent links. */
  function RootOf(p: seq<int>, rk: seq<int>, x: int): (r: int)
    requires Forest(p, rk) && 0 <= x < |p|
    ensures 0 <= r < |p| && p[r] == r
    ensures r == x || rk[x] < rk[r]
    decreases Higher(rk, x)
  {
    if p[x] == x then x
    else
      HigherShrinks(rk, x, p[x]);
      RootOf(p, rk, p[x])
  }

  /** The representative of every index, position by position. */
  function Partition(p: seq<int>, rk: seq<int>): (s: seq<int>)
    requires Forest(p, rk)
    ensures |s| == |p|
    ensures forall i :: 0 <= i < |p| ==> s[i] == RootOf(p, rk, i)
  {
    seq(|p|, i requires 0 <= i < |p| => RootOf(p, rk, i))
  }

  /**
   * `f2` is the labelling `f` with the classes of `x` and `y` joined under
   * `w`, the label of one of them; every other class keeps its label.
   */
  predicate Joined(f: seq<int>, f2: seq<int>, x: int, y: int, w: int)
    requires 0 <= x < |f| && 0 <= y < |f|
  {
    |f2| == |f| && (w == f[x] || w == f[y]) &&
    forall i :: 0 <= i < |f| ==> f2[i] == if f[i] == f[x] || f[i] == f[y] then w else f[i]
  }

  /** Pointing `x` straight at its root keeps the forest and every representative. */
  lemma CompressKeepsRoots(p: seq<int>, rk: seq<int>, x: int)
    requires Forest(p, rk) && 0 <= x < |p|
    ensures Forest(p[x := RootOf(p, rk, x)], rk)
    ensures forall i :: 0 <= i < |p| ==> RootOf(p[x := RootOf(p, rk, x)], rk, i) == RootOf(p, rk, i)
  {
    var q := p[x := RootOf(p, rk, x)];
    forall i | 0 <= i < |p|
      ensures RootOf(q, rk, i) == RootOf(p, rk, i)
    {
      CompressedRoot(p, rk, x, i);
    }
  }

  lemma {:induction false} CompressedRoot(p: seq<int>, rk: seq<int>, x: int, i: int)
    requires Forest(p, rk) && 0 <= x < |p| && 0 <= i < |p|
    ensures Forest(p[x := RootOf(p, rk, x)], rk)
    ensures RootOf(p[x := RootOf(p, rk, x)], rk, i) == RootOf(p, rk, i)
    decreases Higher(rk, i)
  {
    var q := p[x := RootOf(p, rk, x)];
    if i == x {
      var r := RootOf(p, rk, x);
      if r != x {
        assert q[r] == r;
      }
    } else if p[i] != i {
      HigherShrinks(rk, i, p[i]);
      CompressedRoot(p, rk, x, p[i]);
    }
  }

  /**
   * Linking root `b` under root `a` (with any ranks that keep the forest)
   * sends the class of `b` to `a` and leaves every other class alone.
   */
  lemma {:induction false} LinkedRoot(p: seq<int>, rk: seq<int>, rk2: seq<int>, a: int, b: int, i: int)
    requires Forest(p, rk) && 0 <= a < |p| && 0 <= b < |p| && 0 <= i < |p|
    requires p[a] == a && p[b] == b && a != b
    requires Forest(p[b := a], rk2)
    ensures RootOf(p[b := a], rk2, i) == if RootOf(p, rk, i) == b then a else RootOf(p, rk, i)
    decreases Higher(rk, i)
  {
    var q := p[b := a];
    if i == b {
      assert q[a] == a;
    } else if p[i] != i {
      HigherShrinks(rk, i, p[i]);
      LinkedRoot(p, rk, rk2, a, b, p[i]);
    }
  }

  /** Linking root `b` under root `a` joins their two classes under `a`. */
  lemma LinkJoins(p: seq<int>, rk: seq<int>, rk2: seq<int>, a: int, b: int)
    requires Forest(p, rk) && 0 <= a < |p| && 0 <= b < |p|
    requires p[a] == a && p[b] == b && a != b
    requires Forest(p[b := a], rk2)
    ensures Joined(Partition(p, rk), Partition(p[b := a], rk2), a, b, a)
    ensures Joined(Partition(p, rk), Partition(p[b := a], rk2), b, a, a)
  {
    forall i | 0 <= i < |p|
      ensures RootOf(p[b := a], rk2, i) == if RootOf(p, rk, i) == b then a else RootOf(p, rk, i)
    {
      LinkedRoot(p, rk, rk2, a, b, i);
    }
  }

  /** The disjoint-set structure. */
  class UnionFind {
    var parent: array<int>
    var rank: array<int>

    ghost predicate Valid()
      reads this, parent, rank
    {
      parent != rank && Forest(parent[..], rank[..])
    }

    /** The representative of the set that holds `x`. */
    ghost function Root(x: int): int
      reads this, parent, rank
      requires Valid() && 0 <= x < parent.Length
    {
      RootOf(parent[..], rank[..], x)
    }

    /** The representatives of all indices. */
    ghost function Roots(): seq<int>
      reads this, parent, rank
      requires Valid()
    {
      Partition(parent[..], rank[..])
    }

    /** `new UnionFind(size)`: every index alone in its own set, every rank 0. */
    constructor (size: nat)
      ensures Valid() && fresh(parent) && fresh(rank)
      ensures parent.Length == size
      ensures forall i :: 0 <= i < size ==> parent[i] == i && rank[i] == 0
      ensures forall i :: 0 <= i < size ==> Root(i) == i
    {
      var p := new int[size];
      var r := new int[size];
      var i := 0;
      while i < size
        invariant 0 <= i <= size
        invariant forall k :: 0 <= k < i ==> p[k] == k && r[k] == 0
      {
        p[i] := i;
        r[i] := 0;
        i := i + 1;
      }
      parent := p;
      rank := r;
    }

    /**
     * `Find(x)`: the representative of `x`. On the way back every index on
     * the path is pointed straight at the root; no set changes.
     */
    method Find(x: int) returns (r: int)
      requires Valid() && 0 <= x < parent.Length
      modifies parent
      ensures Valid() && rank[..] == old(rank[..])
      ensures r == old(Root(x)) && parent[x] == r
      ensures Roots() == old(Roots())
      decreases Higher(rank[..], x)
    {
      if parent[x] != x {
        HigherShrinks(rank[..], x, parent[x]);
        var root := Find(parent[x]);
        CompressKeepsRoots(parent[..], rank[..], x);
        parent[x] := root;
      }
      r := parent[x];
      assert Roots() == old(Roots());
    }

    /**
     * `Union(x, y)`: false, with no set changed, when `x` and `y` already
     * share a representative; otherwise the root of lower rank is linked
     * under the other (on a tie the root of `y` goes under the root of `x`,
     * whose rank grows by one) and the two sets become one.
     */
    method Union(x: int, y: int) returns (merged: bool)
      requires Valid() && 0 <= x < parent.Length && 0 <= y < parent.Length
      modifies parent, rank
      ensures Valid()
      ensures merged <==> old(Root(x)) != old(Root(y))
      ensures Root(x) == Root(y)
      ensures !merged ==> Roots() == old(Roots()) && rank[..] == old(rank[..])
      ensures merged ==> Joined(old(Roots()), Roots(), x, y, Root(x))
      ensures merged && old(rank[Root(x)]) < old(rank[Root(y)]) ==>
        Root(x) == old(Root(y)) && rank[..] == old(rank[..])
      ensures merged && old(rank[Root(x)]) > old(rank[Root(y)]) ==>
        Root(x) == old(Root(x)) && rank[..] == old(rank[..])
      ensures merged && old(rank[Root(x)]) == old(rank[Root(y)]) ==>
        Root(x) == old(Root(x)) && rank[..] == old(rank[..])[Root(x) := old(rank[Root(x)]) + 1]
    {
      var rootX := Find(x);
      var rootY := Find(y);
      if rootX == rootY {
        return false;
      }
      Link(rootX, rootY);
      return true;
    }

    /** The linking step of `Union` on two distinct roots. */
    method Link(rootX: int, rootY: int)
      requires Valid() && 0 <= rootX < parent.Length && 0 <= rootY < parent.Length
      requires parent[rootX] == rootX && parent[rootY] == rootY && rootX != rootY
      modifies parent, rank
      ensures Valid()
      ensures Joined(old(Roots()), Roots(), rootX, rootY,
                     if old(rank[rootX]) < old(rank[rootY]) then rootY else rootX)
      ensures old(rank[rootX]) != old(rank[rootY]) ==> rank[..] == old(rank[..])
      ensures old(rank[rootX]) == old(rank[rootY]) ==> rank[..] == old(rank[..])[rootX := old(rank[rootX]) + 1]
    {
      ghost var p := parent[..];
      ghost var rk := rank[..];
      if rank[rootX] < rank[rootY] {
        parent[rootX] := rootY;
        assert parent[..] == p[rootX := rootY];
        LinkJoins(p, rk, rk, rootY, rootX);
      } else if rank[rootX] > rank[rootY] {
        parent[rootY] := rootX;
        assert parent[..] == p[rootY := rootX];
        LinkJoins(p, rk, rk, rootX, rootY);
      } else {
        parent[rootY] := rootX;
        rank[rootX] := rank[rootX] + 1;
        assert parent[..] == p[rootY := rootX];
        assert rank[..] == rk[rootX := rk[rootX] + 1];
        LinkJoins(p, rk, rank[..], rootX, rootY);
      }
    }

    /** `Connected(x, y)`: whether `x` and `y` are in the same set; no set changes. */
    method Connected(x: int, y: int) returns (same: bool)
      requires Valid() && 0 <= x < parent.Length && 0 <= y < parent.Length
      modifies parent
      ensures Valid() && rank[..] == old(rank[..])
      ensures same <==> old(Root(x)) == old(Root(y))
      ensures Roots() == old(Roots())
    {
      var rootX := Find(x);
      var rootY := Find(y);
      same := rootX == rootY;
    }
  }
}
