/**
 * Maintenance shifts by Welsh-Powell greedy coloring
 * (Algorithms/WelshPowellAlgorithm.cs). The vertices of the conflict graph
 * are the positions of the edges in `GetAllEdges()`; two positions conflict
 * when a listed pair names them. Positions are colored greedily in
 * non-increasing conflict degree, and each color becomes a shift holding
 * the edges of that color.
 */
module WelshPowellModel {
  import opened Basics
  import opened EdgeModel
  import opened Sorting
  import opened GraphModel
  import opened Results

  /** A conflict pair is used only when both of its indices are below the edge count. */
  predicate InBounds(m: nat, p: (int, int))
  {
    p.0 < m && p.1 < m
  }

  /**
   * The pairs that the scheduler would use have no negative index (the
   * dictionary lookup `conflictGraph[idx]` throws on a missing key).
   */
  predicate NoNegativeIndex(m: nat, cs: seq<(int, int)>)
  {
    forall k :: 0 <= k < |cs| && InBounds(m, cs[k]) ==> cs[k].0 >= 0 && cs[k].1 >= 0
  }

  /** What one conflict pair adds to the neighbours of index `i`. */
  function Contribution(m: nat, p: (int, int), i: int): set<int>
  {
    if InBounds(m, p) then (if p.0 == i then {p.1} else {}) + (if p.1 == i then {p.0} else {}) else {}
  }

  /** The neighbours of `i` in the conflict graph built from the pairs `cs`, taken in order. */
  function Neighbours(m: nat, cs: seq<(int, int)>, i: int): set<int>
  {
    if cs == [] then {} else Neighbours(m, cs[..|cs| - 1], i) + Contribution(m, cs[|cs| - 1], i)
  }

  /** The conflict graph: an entry for each edge index `0 .. m-1`. */
  function ConflictGraph(m: nat, cs: seq<(int, int)>): map<int, set<int>>
  {
    map i | 0 <= i < m :: Neighbours(m, cs, i)
  }

  /**
   * `j` is a neighbour of `i` exactly when some in-range pair is `(i, j)` or
   * `(j, i)`: out-of-range pairs are ignored, the others recorded both ways.
   */
  lemma {:induction false} NeighboursExact(m: nat, cs: seq<(int, int)>, i: int, j: int)
    ensures j in Neighbours(m, cs, i) <==>
      exists k :: 0 <= k < |cs| && InBounds(m, cs[k]) && (cs[k] == (i, j) || cs[k] == (j, i))
  {
    if cs != [] {
      var p := cs[..|cs| - 1];
      NeighboursExact(m, p, i, j);
      if j in Neighbours(m, p, i) {
        var k :| 0 <= k < |p| && InBounds(m, p[k]) && (p[k] == (i, j) || p[k] == (j, i));
        assert cs[k] == p[k];
      } else if j in Contribution(m, cs[|cs| - 1], i) {
        assert InBounds(m, cs[|cs| - 1]) && (cs[|cs| - 1] == (i, j) || cs[|cs| - 1] == (j, i));
      } else {
        forall k | 0 <= k < |cs| && InBounds(m, cs[k]) ensures cs[k] != (i, j) && cs[k] != (j, i) {
          if k < |p| {
            assert cs[k] == p[k];
          }
        }
      }
    }
  }

  /** The conflict relation is symmetric. */
  lemma NeighboursSymmetric(m: nat, cs: seq<(int, int)>, i: int, j: int)
    ensures j in Neighbours(m, cs, i) <==> i in Neighbours(m, cs, j)
  {
    NeighboursExact(m, cs, i, j);
    NeighboursExact(m, cs, j, i);
  }

  /** Neighbours are edge indices when no used pair is negative. */
  lemma NeighboursInRange(m: nat, cs: seq<(int, int)>, i: int, j: int)
    requires NoNegativeIndex(m, cs)
    requires j in Neighbours(m, cs, i)
    ensures 0 <= i < m && 0 <= j < m
  {
    NeighboursExact(m, cs, i, j);
  }

  /**
   * The first two loops of `ScheduleMaintenanceShifts`: an empty set for
   * each edge index, then each in-range pair recorded in both directions.
   */
  method BuildConflictGraph(m: nat, conflicts: seq<(int, int)>) returns (conflictGraph: map<int, set<int>>)
    requires NoNegativeIndex(m, conflicts)
    ensures conflictGraph == ConflictGraph(m, conflicts)
  {
    conflictGraph := map[];
    var i := 0;
    while i < m
      invariant 0 <= i <= m
      invariant forall k :: k in conflictGraph <==> 0 <= k < i
      invariant forall k :: k in conflictGraph ==> conflictGraph[k] == {}
    {
      conflictGraph := conflictGraph[i := {}];
      i := i + 1;
    }
    var j := 0;
    while j < |conflicts|
      invariant 0 <= j <= |conflicts|
      invariant forall k :: k in conflictGraph <==> 0 <= k < m
      invariant forall k :: k in conflictGraph ==> conflictGraph[k] == Neighbours(m, conflicts[..j], k)
    {
      var (idx1, idx2) := conflicts[j];
      assert conflicts[..j + 1][..j] == conflicts[..j];
      if idx1 < m && idx2 < m {
        conflictGraph := conflictGraph[idx1 := conflictGraph[idx1] + {idx2}];
        conflictGraph := conflictGraph[idx2 := conflictGraph[idx2] + {idx1}];
      }
      j := j + 1;
    }
    assert conflicts[..j] == conflicts;
  }

  /** The conflict degree of index `i`: the size of its neighbour set. */
  function Degree(cg: map<int, set<int>>, i: int): nat
  {
    if i in cg then |cg[i]| else 0
  }

  /** The key of `OrderByDescending(x => x.Degree)`, as an ascending key. */
  function DescendingDegree(cg: map<int, set<int>>): int -> int
  {
    i => -(Degree(cg, i) as int)
  }

  /** The indices `0 .. m-1`: the key order of the conflict dictionary. */
  function Indices(m: nat): (r: seq<int>)
    ensures |r| == m && forall i :: 0 <= i < m ==> r[i] == i
  {
    seq(m, i => i)
  }

  /** A rearrangement of `0 .. m-1` holds only indices in that range. */
  lemma IndicesRearranged(s: seq<int>, m: nat)
    requires multiset(s) == multiset(Indices(m))
    ensures forall k :: 0 <= k < |s| ==> 0 <= s[k] < m
  {
    forall k | 0 <= k < |s| ensures 0 <= s[k] < m {
      assert s[k] in multiset(Indices(m));
      var i :| 0 <= i < m && Indices(m)[i] == s[k];
    }
  }

  /** The order in which edge indices are colored: by non-increasing degree, stable. */
  function DegreeOrder(cg: map<int, set<int>>, m: nat): (r: seq<int>)
    ensures |r| == m && forall k :: 0 <= k < |r| ==> 0 <= r[k] < m
  {
    var r := SortBy(Indices(m), DescendingDegree(cg));
    SortByIsSortedPermutation(Indices(m), DescendingDegree(cg));
    IndicesRearranged(r, m);
    r
  }

  /**
   * The coloring order lists each of `0 .. m-1` once, by non-increasing
   * degree, and indices of equal degree in increasing order.
   */
  lemma DegreeOrderFacts(cg: map<int, set<int>>, m: nat)
    ensures |DegreeOrder(cg, m)| == m
    ensures forall i :: i in DegreeOrder(cg, m) <==> 0 <= i < m
    ensures Distinct(DegreeOrder(cg, m))
    ensures forall a, b :: 0 <= a < b < m ==> Degree(cg, DegreeOrder(cg, m)[a]) >= Degree(cg, DegreeOrder(cg, m)[b])
    ensures forall a, b :: 0 <= a < b < m && Degree(cg, DegreeOrder(cg, m)[a]) == Degree(cg, DegreeOrder(cg, m)[b]) ==>
      DegreeOrder(cg, m)[a] < DegreeOrder(cg, m)[b]
  {
    DegreeOrderMembers(cg, m);
    DegreeOrderRanks(cg, m);
  }

  /** The order is a rearrangement of `0 .. m-1`. */
  lemma DegreeOrderMembers(cg: map<int, set<int>>, m: nat)
    ensures forall i :: i in DegreeOrder(cg, m) <==> 0 <= i < m
    ensures Distinct(DegreeOrder(cg, m))
  {
    var key := DescendingDegree(cg);
    var s := Indices(m);
    var o := DegreeOrder(cg, m);
    SortByIsSortedPermutation(s, key);
    SortByTiesAscending(s, key);
    forall i ensures i in o <==> 0 <= i < m {
      assert i in o <==> i in multiset(s);
      if 0 <= i < m {
        assert s[i] == i;
      }
    }
    forall a, b | 0 <= a < b < |o| ensures o[a] != o[b] {
      if key(o[a]) == key(o[b]) {
        assert o[a] < o[b];
      }
    }
  }

  /** Along the order degrees do not increase, and equal degrees come in increasing index order. */
  lemma DegreeOrderRanks(cg: map<int, set<int>>, m: nat)
    ensures forall a, b :: 0 <= a < b < m ==> Degree(cg, DegreeOrder(cg, m)[a]) >= Degree(cg, DegreeOrder(cg, m)[b])
    ensures forall a, b :: 0 <= a < b < m && Degree(cg, DegreeOrder(cg, m)[a]) == Degree(cg, DegreeOrder(cg, m)[b]) ==>
      DegreeOrder(cg, m)[a] < DegreeOrder(cg, m)[b]
  {
    var key := DescendingDegree(cg);
    var s := Indices(m);
    var o := DegreeOrder(cg, m);
    SortByIsSortedPermutation(s, key);
    SortByTiesAscending(s, key);
    forall a, b | 0 <= a < b < m ensures Degree(cg, o[a]) >= Degree(cg, o[b]) {
      assert key(o[a]) <= key(o[b]);
    }
    forall a, b | 0 <= a < b < m && Degree(cg, o[a]) == Degree(cg, o[b]) ensures o[a] < o[b] {
      assert key(o[a]) == key(o[b]);
    }
  }

  /** The neighbours of `i`, or none for an index without an entry. */
  function Nbrs(cg: map<int, set<int>>, i: int): set<int>
  {
    if i in cg then cg[i] else {}
  }

  /** `usedColors`: the colors of the members of `nbrs` that already have one. */
  function UsedColors(colors: map<int, int>, nbrs: set<int>): set<int>
  {
    set nb | nb in nbrs && nb in colors :: colors[nb]
  }

  /** Neighbours give at most one color each. */
  lemma {:induction false} UsedColorsSize(colors: map<int, int>, nbrs: set<int>)
    ensures |UsedColors(colors, nbrs)| <= |nbrs|
    decreases |nbrs|
  {
    if nbrs != {} {
      var x := Pick(nbrs);
      var rest := nbrs - {x};
      UsedColorsSize(colors, rest);
      var extra: set<int> := if x in colors then {colors[x]} else {};
      assert UsedColors(colors, nbrs) <= UsedColors(colors, rest) + extra;
      SubsetSize(UsedColors(colors, nbrs), UsedColors(colors, rest) + extra);
    }
  }

  /** Counting up from `c`: the first color that is not used. */
  function LeastFreeFrom(used: set<int>, c: nat): (r: nat)
    requires forall d :: 0 <= d < c ==> d in used
    ensures r !in used && c <= r
    ensures forall d :: 0 <= d < r ==> d in used
    decreases |used| - c
  {
    if c in used then
      RangeBelowSize(c + 1, used);
      LeastFreeFrom(used, c + 1)
    else c
  }

  /** The least non-negative color not in `used`; it is at most `|used|`. */
  function LeastFree(used: set<int>): (r: nat)
    ensures r !in used
    ensures forall d :: 0 <= d < r ==> d in used
    ensures r <= |used|
  {
    var r := LeastFreeFrom(used, 0);
    RangeBelowSize(r, used);
    r
  }

  /**
   * The `colors` dictionary after the indices of `order` are colored in
   * turn, each with the least color its already-colored neighbours lack.
   */
  function Greedy(cg: map<int, set<int>>, order: seq<int>): map<int, int>
  {
    if order == [] then map[]
    else
      var colors := Greedy(cg, order[..|order| - 1]);
      var x := order[|order| - 1];
      colors[x := LeastFree(UsedColors(colors, Nbrs(cg, x)))]
  }

  /** Exactly the indices of `order` get a color. */
  lemma {:induction false} GreedyKeys(cg: map<int, set<int>>, order: seq<int>)
    ensures forall i :: i in Greedy(cg, order) <==> i in order
  {
    if order != [] {
      var p := order[..|order| - 1];
      GreedyKeys(cg, p);
      assert order == p + [order[|order| - 1]];
    }
  }

  /** A color is never negative and never exceeds the conflict degree. */
  lemma {:induction false} GreedyBound(cg: map<int, set<int>>, order: seq<int>)
    requires Distinct(order)
    ensures forall i :: i in Greedy(cg, order) ==> 0 <= Greedy(cg, order)[i] <= Degree(cg, i)
  {
    if order != [] {
      var p := order[..|order| - 1];
      var x := order[|order| - 1];
      assert Distinct(p) by {
        forall a, b | 0 <= a < b < |p| ensures p[a] != p[b] {
          assert p[a] == order[a] && p[b] == order[b];
        }
      }
      GreedyBound(cg, p);
      var colors := Greedy(cg, p);
      UsedColorsSize(colors, Nbrs(cg, x));
    }
  }

  /** Entries of a sequence without repetitions: the prefix has none either, and lacks the last. */
  lemma DistinctPrefix(order: seq<int>)
    requires Distinct(order) && order != []
    ensures Distinct(order[..|order| - 1])
    ensures order[|order| - 1] !in order[..|order| - 1]
  {
    var p := order[..|order| - 1];
    forall a, b | 0 <= a < b < |p| ensures p[a] != p[b] {
      assert p[a] == order[a] && p[b] == order[b];
    }
    DistinctNotInPrefix(order, |order| - 1);
  }

  /** Every neighbour has an entry, and conflicts go both ways. */
  ghost predicate Symmetric(cg: map<int, set<int>>)
  {
    forall i, j :: i in cg && j in cg[i] ==> j in cg && i in cg[j]
  }

  /**
   * The greedy coloring is proper on a symmetric conflict graph: two
   * distinct colored indices that conflict have different colors.
   */
  lemma {:induction false} GreedyProper(cg: map<int, set<int>>, order: seq<int>)
    requires Distinct(order) && Symmetric(cg)
    ensures forall i, j :: i in Greedy(cg, order) && j in Greedy(cg, order) && i != j && j in Nbrs(cg, i) ==>
      Greedy(cg, order)[i] != Greedy(cg, order)[j]
  {
    if order != [] {
      var p := order[..|order| - 1];
      var x := order[|order| - 1];
      DistinctPrefix(order);
      GreedyProper(cg, p);
      GreedyKeys(cg, p);
      var before := Greedy(cg, p);
      var after := Greedy(cg, order);
      var c := LeastFree(UsedColors(before, Nbrs(cg, x)));
      assert after == before[x := c];
      forall i, j | i in after && j in after && i != j && j in Nbrs(cg, i) ensures after[i] != after[j] {
        if i == x {
          assert j in before && before[j] in UsedColors(before, Nbrs(cg, x));
        } else if j == x {
          assert i in Nbrs(cg, x);
          assert i in before && before[i] in UsedColors(before, Nbrs(cg, x));
        }
      }
    }
  }

  /** The colors of `ScheduleMaintenanceShifts`: the greedy coloring in degree order. */
  function Coloring(m: nat, cs: seq<(int, int)>): map<int, int>
  {
    Greedy(ConflictGraph(m, cs), DegreeOrder(ConflictGraph(m, cs), m))
  }

  /** Every edge index gets a color between 0 and its conflict degree. */
  lemma ColoringBound(m: nat, cs: seq<(int, int)>)
    ensures forall i :: i in Coloring(m, cs) <==> 0 <= i < m
    ensures forall i :: 0 <= i < m ==> 0 <= Coloring(m, cs)[i] <= |Neighbours(m, cs, i)|
  {
    var cg := ConflictGraph(m, cs);
    DegreeOrderFacts(cg, m);
    GreedyKeys(cg, DegreeOrder(cg, m));
    GreedyBound(cg, DegreeOrder(cg, m));
  }

  /** The conflict graph has an entry for every neighbour, and conflicts go both ways. */
  lemma ConflictGraphSymmetric(m: nat, cs: seq<(int, int)>)
    requires NoNegativeIndex(m, cs)
    ensures Symmetric(ConflictGraph(m, cs))
  {
    var cg := ConflictGraph(m, cs);
    forall i, j | i in cg && j in cg[i] ensures j in cg && i in cg[j] {
      NeighboursInRange(m, cs, i, j);
      NeighboursSymmetric(m, cs, i, j);
    }
  }

  /** The coloring separates the two edges of every in-range conflict pair with distinct indices. */
  lemma ColoringProper(m: nat, cs: seq<(int, int)>)
    requires NoNegativeIndex(m, cs)
    ensures forall k :: 0 <= k < |cs| && InBounds(m, cs[k]) && cs[k].0 != cs[k].1 ==>
      cs[k].0 in Coloring(m, cs) && cs[k].1 in Coloring(m, cs) && Coloring(m, cs)[cs[k].0] != Coloring(m, cs)[cs[k].1]
  {
    var cg := ConflictGraph(m, cs);
    var order := DegreeOrder(cg, m);
    var colors := Coloring(m, cs);
    DegreeOrderFacts(cg, m);
    GreedyKeys(cg, order);
    ConflictGraphSymmetric(m, cs);
    GreedyProper(cg, order);
    forall k | 0 <= k < |cs| && InBounds(m, cs[k]) && cs[k].0 != cs[k].1
      ensures cs[k].0 in colors && cs[k].1 in colors && colors[cs[k].0] != colors[cs[k].1]
    {
      var (a, b) := cs[k];
      NeighboursExact(m, cs, a, b);
      assert b in Nbrs(cg, a);
    }
  }

  /** One more neighbour adds its color, if it has one. */
  lemma UsedColorsAdd(colors: map<int, int>, done: set<int>, x: int)
    ensures UsedColors(colors, done + {x}) == UsedColors(colors, done) + (if x in colors then {colors[x]} else {})
  {
    var extra: set<int> := if x in colors then {colors[x]} else {};
    forall c | c in UsedColors(colors, done + {x}) ensures c in UsedColors(colors, done) + extra {
      var nb :| nb in done + {x} && nb in colors && colors[nb] == c;
      if nb != x {
        assert c in UsedColors(colors, done);
      }
    }
  }

  /** Collects the colors of the already-colored neighbours (the `foreach` over the neighbour set). */
  method CollectUsedColors(colors: map<int, int>, nbrs: set<int>) returns (usedColors: set<int>)
    ensures usedColors == UsedColors(colors, nbrs)
  {
    usedColors := {};
    var rest := nbrs;
    while rest != {}
      invariant rest <= nbrs
      invariant usedColors == UsedColors(colors, nbrs - rest)
      decreases |rest|
    {
      ghost var some := Pick(rest);
      var neighbor :| neighbor in rest;
      assert nbrs - (rest - {neighbor}) == (nbrs - rest) + {neighbor};
      UsedColorsAdd(colors, nbrs - rest, neighbor);
      if neighbor in colors {
        usedColors := usedColors + {colors[neighbor]};
      }
      rest := rest - {neighbor};
    }
  }

  /** `int color = 0; while (usedColors.Contains(color)) color++;` */
  method FirstFreeColor(usedColors: set<int>) returns (color: nat)
    ensures color == LeastFree(usedColors)
  {
    color := 0;
    while color in usedColors
      invariant forall d :: 0 <= d < color ==> d in usedColors
      decreases |usedColors| - color
    {
      RangeBelowSize(color + 1, usedColors);
      color := color + 1;
    }
    var least := LeastFree(usedColors);
    assert !(color < least) && !(least < color);
  }

  /** The coloring loop: each index of `order` in turn gets the least color its colored neighbours lack. */
  method AssignColors(conflictGraph: map<int, set<int>>, order: seq<int>) returns (colors: map<int, int>)
    requires forall k :: 0 <= k < |order| ==> order[k] in conflictGraph
    ensures colors == Greedy(conflictGraph, order)
  {
    colors := map[];
    var i := 0;
    while i < |order|
      invariant 0 <= i <= |order|
      invariant colors == Greedy(conflictGraph, order[..i])
    {
      var edgeIdx := order[i];
      var usedColors := CollectUsedColors(colors, conflictGraph[edgeIdx]);
      var color := FirstFreeColor(usedColors);
      TakeSnoc(order, i);
      colors := colors[edgeIdx := color];
      i := i + 1;
    }
    TakeAll(order);
  }

  /** The entries of `keys` whose color is `c`, in order. */
  function ColoredWith(keys: seq<int>, colors: map<int, int>, c: int): (r: seq<int>)
    ensures forall k :: 0 <= k < |r| ==> r[k] in keys
  {
    if keys == [] then []
    else
      var x := keys[|keys| - 1];
      ColoredWith(keys[..|keys| - 1], colors, c) + (if x in colors && colors[x] == c then [x] else [])
  }

  /** An entry is listed for color `c` exactly when it is in `keys` with color `c`. */
  lemma {:induction false} ColoredWithMembers(keys: seq<int>, colors: map<int, int>, c: int, x: int)
    ensures x in ColoredWith(keys, colors, c) <==> x in keys && x in colors && colors[x] == c
  {
    if keys != [] {
      var p := keys[..|keys| - 1];
      ColoredWithMembers(p, colors, c, x);
      assert keys == p + [keys[|keys| - 1]];
    }
  }

  /**
   * Each entry of a sequence without repetitions is listed once for its own
   * color and for no other: every edge lands in exactly one shift.
   */
  lemma {:induction false} ColoredWithOnce(keys: seq<int>, colors: map<int, int>, c: int, x: int)
    requires Distinct(keys) && x in keys && x in colors
    ensures multiset(ColoredWith(keys, colors, c))[x] == if colors[x] == c then 1 else 0
  {
    var p := keys[..|keys| - 1];
    var y := keys[|keys| - 1];
    DistinctPrefix(keys);
    assert keys == p + [y];
    if x == y {
      ColoredWithMembers(p, colors, c, x);
      assert multiset(ColoredWith(p, colors, c))[x] == 0;
    } else {
      assert x in p;
      ColoredWithOnce(p, colors, c, x);
    }
  }

  /** The edges at the positions `ks`, in that order. */
  function EdgesAt(edges: seq<Edge>, ks: seq<int>): (r: seq<Edge>)
    requires forall k :: 0 <= k < |ks| ==> 0 <= ks[k] < |edges|
    ensures |r| == |ks| && forall k :: 0 <= k < |ks| ==> r[k] == edges[ks[k]]
  {
    seq(|ks|, k requires 0 <= k < |ks| => edges[ks[k]])
  }

  /**
   * The shifts of a coloring: one per color of the listed keys, listed once
   * each in `shiftOrder`, holding the edges of that color in key order.
   */
  ghost predicate ShiftsOf(result: ColoringResult, edges: seq<Edge>, keys: seq<int>, colors: map<int, int>)
    requires forall k :: 0 <= k < |keys| ==> 0 <= keys[k] < |edges|
  {
    ShiftKeys(result, keys, colors) && ShiftLists(result, edges, keys, colors)
  }

  /** The colors of `keys`, each once, in the order of the first key with that color. */
  function FirstColors(keys: seq<int>, colors: map<int, int>): seq<int>
  {
    if keys == [] then []
    else
      var x, front := keys[|keys| - 1], FirstColors(keys[..|keys| - 1], colors);
      if x in colors && colors[x] !in front then front + [colors[x]] else front
  }

  /**
   * The shift colors are exactly the colors of the listed keys, each listed
   * once in `shiftOrder`, in the order of the first key with that color.
   */
  ghost predicate ShiftKeys(result: ColoringResult, keys: seq<int>, colors: map<int, int>)
  {
    && Distinct(result.shiftOrder)
    && result.shiftOrder == FirstColors(keys, colors)
    && (forall c :: c in result.shifts <==> c in result.shiftOrder)
    && (forall c :: c in result.shifts <==> ColoredWith(keys, colors, c) != [])
  }

  /** Each shift holds the edges of its color, in key order. */
  ghost predicate ShiftLists(result: ColoringResult, edges: seq<Edge>, keys: seq<int>, colors: map<int, int>)
    requires forall k :: 0 <= k < |keys| ==> 0 <= keys[k] < |edges|
  {
    forall c :: c in result.shifts ==> result.shifts[c] == EdgesAt(edges, ColoredWith(keys, colors, c))
  }

  /** One step of the grouping: the lists of the other colors stay as they were. */
  lemma ColoredWithSnoc(keys: seq<int>, colors: map<int, int>, x: int, c: int)
    ensures ColoredWith(keys + [x], colors, c) ==
      ColoredWith(keys, colors, c) + (if x in colors && colors[x] == c then [x] else [])
  {
    assert (keys + [x])[..|keys|] == keys;
  }

  /**
   * The last loop: walks the colored indices in dictionary order and adds
   * each edge to the shift of its color, creating the shift when it is new.
   */
  method GroupIntoShifts(edges: seq<Edge>, keys: seq<int>, colors: map<int, int>) returns (result: ColoringResult)
    requires forall k :: 0 <= k < |keys| ==> keys[k] in colors && 0 <= keys[k] < |edges|
    ensures ShiftsOf(result, edges, keys, colors)
  {
    result := NoShifts;
    var i := 0;
    while i < |keys|
      invariant 0 <= i <= |keys|
      invariant ShiftsOf(result, edges, keys[..i], colors)
    {
      result := AddToShift(result, edges, keys, colors, i);
      i := i + 1;
    }
    TakeAll(keys);
  }

  /** One pass of that loop: the edge of `keys[i]` joins the shift of its color, which is created when new. */
  method AddToShift(result: ColoringResult, edges: seq<Edge>, keys: seq<int>, colors: map<int, int>, i: int)
    returns (result': ColoringResult)
    requires 0 <= i < |keys|
    requires forall k :: 0 <= k < |keys| ==> keys[k] in colors && 0 <= keys[k] < |edges|
    requires ShiftsOf(result, edges, keys[..i], colors)
    ensures ShiftsOf(result', edges, keys[..i + 1], colors)
  {
    var edgeIdx := keys[i];
    var shift := colors[edgeIdx];
    result' := result;
    if shift !in result'.shifts {
      result' := result'.(shiftOrder := result'.shiftOrder + [shift], shifts := result'.shifts[shift := []]);
    }
    result' := result'.(shifts := result'.shifts[shift := result'.shifts[shift] + [edges[edgeIdx]]]);
    GroupStep(result, result', edges, keys, colors, i);
  }

  /** Adding the edge of `keys[i]` to the shift of its color, creating it when new, extends the grouping by one key. */
  lemma GroupStep(r: ColoringResult, r': ColoringResult, edges: seq<Edge>, keys: seq<int>, colors: map<int, int>, i: int)
    requires 0 <= i < |keys|
    requires forall k :: 0 <= k < |keys| ==> keys[k] in colors && 0 <= keys[k] < |edges|
    requires ShiftsOf(r, edges, keys[..i], colors)
    requires colors[keys[i]] in r.shifts ==> r'.shiftOrder == r.shiftOrder
    requires colors[keys[i]] !in r.shifts ==> r'.shiftOrder == r.shiftOrder + [colors[keys[i]]]
    requires r'.shifts == r.shifts[colors[keys[i]] :=
      (if colors[keys[i]] in r.shifts then r.shifts[colors[keys[i]]] else []) + [edges[keys[i]]]]
    ensures ShiftsOf(r', edges, keys[..i + 1], colors)
  {
    TakeSnoc(keys, i);
    GroupKeysStep(r, r', keys[..i], colors, keys[i]);
    GroupListsStep(r, r', edges, keys[..i], colors, keys[i]);
  }

  /** The colors after one more key: the old ones and the color of the new key. */
  lemma GroupKeysStep(r: ColoringResult, r': ColoringResult, keys: seq<int>, colors: map<int, int>, x: int)
    requires x in colors && ShiftKeys(r, keys, colors)
    requires colors[x] in r.shifts ==> r'.shiftOrder == r.shiftOrder
    requires colors[x] !in r.shifts ==> r'.shiftOrder == r.shiftOrder + [colors[x]]
    requires r'.shifts.Keys == r.shifts.Keys + {colors[x]}
    ensures ShiftKeys(r', keys + [x], colors)
  {
    forall c ensures ColoredWith(keys + [x], colors, c) == ColoredWith(keys, colors, c) + (if colors[x] == c then [x] else []) {
      ColoredWithSnoc(keys, colors, x, c);
    }
    GroupOrderStep(r.shiftOrder, r'.shiftOrder, colors[x]);
    assert (keys + [x])[..|keys|] == keys;
  }

  /** The lists after one more key: the edge of the new key is appended to the list of its color. */
  lemma GroupListsStep(r: ColoringResult, r': ColoringResult, edges: seq<Edge>, keys: seq<int>, colors: map<int, int>, x: int)
    requires forall k :: 0 <= k < |keys| ==> 0 <= keys[k] < |edges|
    requires x in colors && 0 <= x < |edges|
    requires ShiftLists(r, edges, keys, colors)
    requires colors[x] !in r.shifts ==> ColoredWith(keys, colors, colors[x]) == []
    requires r'.shifts == r.shifts[colors[x] := (if colors[x] in r.shifts then r.shifts[colors[x]] else []) + [edges[x]]]
    ensures forall k :: 0 <= k < |keys + [x]| ==> 0 <= (keys + [x])[k] < |edges|
    ensures ShiftLists(r', edges, keys + [x], colors)
  {
    forall c | c in r'.shifts ensures r'.shifts[c] == EdgesAt(edges, ColoredWith(keys + [x], colors, c)) {
      GroupListAt(r, r', edges, keys, colors, x, c);
    }
  }

  /** `GroupListsStep` for the list of one color `c`. */
  lemma GroupListAt(r: ColoringResult, r': ColoringResult, edges: seq<Edge>, keys: seq<int>, colors: map<int, int>,
                    x: int, c: int)
    requires forall k :: 0 <= k < |keys| ==> 0 <= keys[k] < |edges|
    requires x in colors && 0 <= x < |edges| && c in r'.shifts
    requires c in r.shifts ==> r.shifts[c] == EdgesAt(edges, ColoredWith(keys, colors, c))
    requires colors[x] !in r.shifts ==> ColoredWith(keys, colors, colors[x]) == []
    requires r'.shifts == r.shifts[colors[x] := (if colors[x] in r.shifts then r.shifts[colors[x]] else []) + [edges[x]]]
    ensures forall k :: 0 <= k < |keys + [x]| ==> 0 <= (keys + [x])[k] < |edges|
    ensures r'.shifts[c] == EdgesAt(edges, ColoredWith(keys + [x], colors, c))
  {
    forall k | 0 <= k < |keys + [x]| ensures 0 <= (keys + [x])[k] < |edges| {
      if k < |keys| {
        assert (keys + [x])[k] == keys[k];
      }
    }
    ColoredWithBounds(keys + [x], colors, c, |edges|);
    ColoredWithSnoc(keys, colors, x, c);
    if c == colors[x] {
      EdgesAtSnoc(edges, ColoredWith(keys, colors, c), x);
    }
  }

  /** The keys of one color are within any bound that holds for all of the keys. */
  lemma ColoredWithBounds(keys: seq<int>, colors: map<int, int>, c: int, n: int)
    requires forall k :: 0 <= k < |keys| ==> 0 <= keys[k] < n
    ensures forall k :: 0 <= k < |ColoredWith(keys, colors, c)| ==> 0 <= ColoredWith(keys, colors, c)[k] < n
  {
    var w := ColoredWith(keys, colors, c);
    forall k | 0 <= k < |w| ensures 0 <= w[k] < n {
      assert w[k] in keys;
      var j :| 0 <= j < |keys| && keys[j] == w[k];
    }
  }

  /** Appending a color not yet listed keeps the shift order free of repetitions. */
  lemma GroupOrderStep(order: seq<int>, order': seq<int>, shift: int)
    requires Distinct(order)
    requires shift in order ==> order' == order
    requires shift !in order ==> order' == order + [shift]
    ensures Distinct(order') && forall c :: c in order' <==> c in order || c == shift
  {
    if shift !in order {
      forall a, b | 0 <= a < b < |order'| ensures order'[a] != order'[b] {
        assert order'[a] == order[a];
        if b < |order| {
          assert order'[b] == order[b];
        }
      }
    }
  }

  /** The edges at one more position. */
  lemma EdgesAtSnoc(edges: seq<Edge>, ks: seq<int>, x: int)
    requires forall k :: 0 <= k < |ks| ==> 0 <= ks[k] < |edges|
    requires 0 <= x < |edges|
    ensures EdgesAt(edges, ks + [x]) == EdgesAt(edges, ks) + [edges[x]]
  {
  }

  /** The largest conflict degree among `0 .. n-1`. */
  function MaxDegree(cg: map<int, set<int>>, n: nat): (d: nat)
    ensures forall i :: 0 <= i < n ==> Degree(cg, i) <= d
  {
    if n == 0 then 0
    else
      var d := MaxDegree(cg, n - 1);
      if Degree(cg, n - 1) > d then Degree(cg, n - 1) else d
  }

  /**
   * `ScheduleMaintenanceShifts(graph, conflicts)`: no shifts for a graph
   * without edges; otherwise each shift holds, in coloring order, exactly
   * the edges of its color, and there are at most max degree + 1 shifts.
   */
  method ScheduleMaintenanceShifts(graph: LogisticsGraph, conflicts: seq<(int, int)>) returns (result: ColoringResult)
    requires graph.Valid()
    requires NoNegativeIndex(|graph.View().GetAllEdges()|, conflicts)
    ensures graph.View().GetAllEdges() == [] ==> result == NoShifts
    ensures ShiftsOf(result, graph.View().GetAllEdges(),
                     DegreeOrder(ConflictGraph(|graph.View().GetAllEdges()|, conflicts), |graph.View().GetAllEdges()|),
                     Coloring(|graph.View().GetAllEdges()|, conflicts))
    ensures |result.shiftOrder| <= MaxDegree(ConflictGraph(|graph.View().GetAllEdges()|, conflicts), |graph.View().GetAllEdges()|) + 1
  {
    result := NoShifts;
    var edges := graph.View().GetAllEdges();
    var m := |edges|;
    if m == 0 {
      return;
    }
    var conflictGraph := BuildConflictGraph(m, conflicts);
    DegreeOrderFacts(conflictGraph, m);
    var degrees := DegreeOrder(conflictGraph, m);
    var colors := AssignColors(conflictGraph, degrees);
    GreedyKeys(conflictGraph, degrees);
    result := GroupIntoShifts(edges, degrees, colors);
    ShiftCount(result, edges, conflictGraph, degrees, colors, m);
  }

  /** Every shift is a color between 0 and the largest degree, so there are at most that many plus one. */
  lemma ShiftCount(result: ColoringResult, edges: seq<Edge>, cg: map<int, set<int>>, order: seq<int>,
                   colors: map<int, int>, m: nat)
    requires Distinct(order) && colors == Greedy(cg, order)
    requires forall k :: 0 <= k < |order| ==> 0 <= order[k] < m && order[k] < |edges|
    requires ShiftsOf(result, edges, order, colors)
    ensures |result.shiftOrder| <= MaxDegree(cg, m) + 1
  {
    GreedyKeys(cg, order);
    GreedyBound(cg, order);
    var d := MaxDegree(cg, m);
    forall k | 0 <= k < |result.shiftOrder| ensures 0 <= result.shiftOrder[k] < d + 1 {
      var c := result.shiftOrder[k];
      assert c in result.shifts;
      var x := ColoredWith(order, colors, c)[0];
      ColoredWithMembers(order, colors, c, x);
    }
    DistinctBelow(result.shiftOrder, d + 1);
  }

  /** Two edges share a hub when any endpoint of one is an endpoint of the other. */
  predicate ShareNode(e: Edge, f: Edge)
  {
    e.Src() == f.Src() || e.Src() == f.Tgt() || e.Tgt() == f.Src() || e.Tgt() == f.Tgt()
  }

  /** Lexicographic order on index pairs. */
  predicate LexLess(p: (int, int), q: (int, int))
  {
    p.0 < q.0 || (p.0 == q.0 && p.1 < q.1)
  }

  /** A pair `(i, j)` with `i < j` of edges that share a hub. */
  predicate SharedPair(edges: seq<Edge>, p: (int, int))
  {
    0 <= p.0 < p.1 < |edges| && ShareNode(edges[p.0], edges[p.1])
  }

  /**
   * `cs` lists exactly the pairs of edges that share a hub, each with the
   * smaller index first, in strictly increasing lexicographic order.
   */
  ghost predicate SharedPairs(edges: seq<Edge>, cs: seq<(int, int)>)
  {
    && (forall k :: 0 <= k < |cs| ==> SharedPair(edges, cs[k]))
    && (forall i, j :: 0 <= i < j < |edges| && ShareNode(edges[i], edges[j]) ==> (i, j) in cs)
    && (forall a, b :: 0 <= a < b < |cs| ==> LexLess(cs[a], cs[b]))
  }

  /** The inner loop of `GenerateConflictsFromSharedNodes` for the pairs `(i, j)`, `j > i`. */
  method PairsFrom(edges: seq<Edge>, i: nat, conflicts: seq<(int, int)>) returns (conflicts': seq<(int, int)>)
    requires i < |edges|
    requires forall k :: 0 <= k < |conflicts| ==> SharedPair(edges, conflicts[k]) && conflicts[k].0 < i
    requires forall a, b :: 0 <= a < i && a < b < |edges| && ShareNode(edges[a], edges[b]) ==> (a, b) in conflicts
    requires forall a, b :: 0 <= a < b < |conflicts| ==> LexLess(conflicts[a], conflicts[b])
    ensures forall k :: 0 <= k < |conflicts'| ==> SharedPair(edges, conflicts'[k]) && conflicts'[k].0 <= i
    ensures forall a, b :: 0 <= a <= i && a < b < |edges| && ShareNode(edges[a], edges[b]) ==> (a, b) in conflicts'
    ensures forall a, b :: 0 <= a < b < |conflicts'| ==> LexLess(conflicts'[a], conflicts'[b])
  {
    conflicts' := conflicts;
    var j := i + 1;
    while j < |edges|
      invariant i + 1 <= j <= |edges|
      invariant PairsUpTo(edges, i, j, conflicts')
    {
      ghost var before := conflicts';
      if edges[i].Src() == edges[j].Src() || edges[i].Src() == edges[j].Tgt() ||
         edges[i].Tgt() == edges[j].Src() || edges[i].Tgt() == edges[j].Tgt() {
        conflicts' := conflicts' + [(i, j)];
      }
      PairsStep(edges, i, j, before, conflicts');
      j := j + 1;
    }
  }

  /** The state of the inner loop before position `j`: the pairs so far, all below `(i, j)`. */
  ghost predicate PairsUpTo(edges: seq<Edge>, i: nat, j: nat, conflicts: seq<(int, int)>)
    requires i < j <= |edges|
  {
    && (forall k :: 0 <= k < |conflicts| ==> SharedPair(edges, conflicts[k]) && LexLess(conflicts[k], (i, j)))
    && (forall a, b :: 0 <= a < i && a < b < |edges| && ShareNode(edges[a], edges[b]) ==> (a, b) in conflicts)
    && (forall b :: i < b < j && ShareNode(edges[i], edges[b]) ==> (i, b) in conflicts)
    && (forall a, b :: 0 <= a < b < |conflicts| ==> LexLess(conflicts[a], conflicts[b]))
  }

  /** Recording `(i, j)` exactly when the two edges share a hub moves the inner loop on by one. */
  lemma PairsStep(edges: seq<Edge>, i: nat, j: nat, conflicts: seq<(int, int)>, conflicts': seq<(int, int)>)
    requires i < j < |edges| && PairsUpTo(edges, i, j, conflicts)
    requires conflicts' == conflicts + (if ShareNode(edges[i], edges[j]) then [(i, j)] else [])
    ensures PairsUpTo(edges, i, j + 1, conflicts')
  {
  }

  /**
   * `GenerateConflictsFromSharedNodes(graph)`: every pair of positions in
   * `GetAllEdges()` whose edges share a hub, in lexicographic order.
   */
  method GenerateConflictsFromSharedNodes(graph: LogisticsGraph) returns (conflicts: seq<(int, int)>)
    requires graph.Valid()
    ensures SharedPairs(graph.View().GetAllEdges(), conflicts)
  {
    conflicts := [];
    var edges := graph.View().GetAllEdges();
    var i := 0;
    while i < |edges|
      invariant 0 <= i <= |edges|
      invariant forall k :: 0 <= k < |conflicts| ==> SharedPair(edges, conflicts[k]) && conflicts[k].0 < i
      invariant forall a, b :: 0 <= a < i && a < b < |edges| && ShareNode(edges[a], edges[b]) ==> (a, b) in conflicts
      invariant forall a, b :: 0 <= a < b < |conflicts| ==> LexLess(conflicts[a], conflicts[b])
    {
      conflicts := PairsFrom(edges, i, conflicts);
      i := i + 1;
    }
  }

  /**
   * Fed back into the scheduler, the generated pairs make two distinct
   * edge positions conflict exactly when their edges share a hub.
   */
  lemma SharedNeighbours(edges: seq<Edge>, cs: seq<(int, int)>, i: int, j: int)
    requires SharedPairs(edges, cs)
    requires 0 <= i < |edges| && 0 <= j < |edges|
    ensures NoNegativeIndex(|edges|, cs)
    ensures j in Neighbours(|edges|, cs, i) <==> i != j && ShareNode(edges[i], edges[j])
  {
    NeighboursExact(|edges|, cs, i, j);
    if i < j && ShareNode(edges[i], edges[j]) {
      var k :| 0 <= k < |cs| && cs[k] == (i, j);
      assert InBounds(|edges|, cs[k]);
    } else if j < i && ShareNode(edges[i], edges[j]) {
      assert ShareNode(edges[j], edges[i]);
      var k :| 0 <= k < |cs| && cs[k] == (j, i);
      assert InBounds(|edges|, cs[k]);
    }
  }
}
