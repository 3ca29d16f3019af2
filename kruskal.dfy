/**
 * Minimum spanning forest by Kruskal's method
 * (Algorithms/KruskalAlgorithm.cs): edges in ascending cost, hubs renumbered
 * densely in ascending id order, an edge accepted exactly when it joins two
 * different sets of the union-find structure.
 *
 * Connectivity is judged against a reference that does not use the
 * union-find structure: a component labelling built edge by edge, where an
 * edge relabels the component of its target with the label of its source.
 */
module KruskalModel {
  import opened Basics
  import opened NodeModel
  import opened EdgeModel
  import opened Sorting
  import opened GraphModel
  import opened UnionFindModel
  import opened Results

  /** The sort key of `OrderBy(e => e.Cost)`. */
  function CostKey(e: Edge): int { e.cost }

  /** The sort key of `OrderBy(id => id)`. */
  function IdKey(id: int): int { id }

  /** The edges in the order the algorithm considers them. */
  function SortedEdges(g: Graph): seq<Edge>
  {
    SortBy(g.GetAllEdges(), CostKey)
  }

  /** `Select(n => n.Id)` */
  function NodeIds(ns: seq<Node>): seq<int>
  {
    seq(|ns|, i requires 0 <= i < |ns| => ns[i].id)
  }

  /** The node ids in ascending order. */
  function SortedIds(g: Graph): seq<int>
  {
    SortBy(NodeIds(g.GetAllNodes()), IdKey)
  }

  /** The dictionary filled by writing `ids[i] -> i` for i = 0, 1, ... in turn. */
  function IndexMap(ids: seq<int>): (m: map<int, int>)
    ensures forall x :: x in m <==> x in ids
    ensures forall x :: x in m ==> 0 <= m[x] < |ids| && ids[m[x]] == x
  {
    if ids == [] then map[]
    else IndexMap(ids[..|ids| - 1])[ids[|ids| - 1] := |ids| - 1]
  }

  /** `idToIndex`: the dense index of each node id. */
  function DenseIndex(g: Graph): map<int, int>
  {
    IndexMap(SortedIds(g))
  }

  /** A dictionary lookup, with -1 for a missing key. */
  function Lookup(idx: map<int, int>, id: int): int
  {
    if id in idx then idx[id] else -1
  }

  /** Both endpoints of `e` have an index below `n`. */
  predicate InRange(n: nat, idx: map<int, int>, e: Edge)
  {
    0 <= Lookup(idx, e.Src()) < n && 0 <= Lookup(idx, e.Tgt()) < n
  }

  /** Every index in a component of its own. */
  function Singletons(n: nat): (lab: seq<int>)
    ensures |lab| == n
    ensures forall i :: 0 <= i < n ==> lab[i] == i
  {
    seq(n, i => i)
  }

  /** The labelling after joining the components of `a` and `b`. */
  function Merge(lab: seq<int>, a: int, b: int): seq<int>
    requires 0 <= a < |lab| && 0 <= b < |lab|
  {
    seq(|lab|, i requires 0 <= i < |lab| => if lab[i] == lab[b] then lab[a] else lab[i])
  }

  /** The component labelling of the indices `0 .. n-1` under the edges `es`. */
  function Components(n: nat, idx: map<int, int>, es: seq<Edge>): (lab: seq<int>)
    ensures |lab| == n
  {
    if es == [] then Singletons(n)
    else
      var lab := Components(n, idx, es[..|es| - 1]);
      var e := es[|es| - 1];
      if InRange(n, idx, e) then Merge(lab, Lookup(idx, e.Src()), Lookup(idx, e.Tgt())) else lab
  }

  /** Indices `a` and `b` are joined by a chain of edges of `es`, read as undirected. */
  predicate Connects(n: nat, idx: map<int, int>, es: seq<Edge>, a: int, b: int)
  {
    0 <= a < n && 0 <= b < n && Components(n, idx, es)[a] == Components(n, idx, es)[b]
  }

  /** Each edge of `es` joined two components that the earlier edges had left apart. */
  predicate JoinsSeparate(n: nat, idx: map<int, int>, es: seq<Edge>)
  {
    es == [] ||
    var p := es[..|es| - 1];
    var e := es[|es| - 1];
    JoinsSeparate(n, idx, p) && InRange(n, idx, e) &&
    !Connects(n, idx, p, Lookup(idx, e.Src()), Lookup(idx, e.Tgt()))
  }

  /** The distinct labels, one per component. */
  function Classes(lab: seq<int>): set<int>
  {
    set i | 0 <= i < |lab| :: lab[i]
  }

  /** The sum of the costs. */
  function CostSum(es: seq<Edge>): int
  {
    if es == [] then 0 else CostSum(es[..|es| - 1]) + es[|es| - 1].cost
  }

  /**
   * `sub` is a subsequence of `s`: the last entry of `s` is either the
   * last entry of `sub` or left out.
   */
  predicate Subsequence(sub: seq<Edge>, s: seq<Edge>)
    decreases |s|
  {
    if s == [] then sub == []
    else
      (sub != [] && sub[|sub| - 1] == s[|s| - 1] && Subsequence(sub[..|sub| - 1], s[..|s| - 1]))
      || Subsequence(sub, s[..|s| - 1])
  }

  // ----- Properties of the reference and of the renumbering -----

  /** Every edge of `es` with endpoints in range connects its endpoints. */
  lemma {:induction false} EdgesConnect(n: nat, idx: map<int, int>, es: seq<Edge>, k: int)
    requires 0 <= k < |es| && InRange(n, idx, es[k])
    ensures Connects(n, idx, es, Lookup(idx, es[k].Src()), Lookup(idx, es[k].Tgt()))
  {
    var p := es[..|es| - 1];
    if k < |es| - 1 {
      assert p[k] == es[k];
      EdgesConnect(n, idx, p, k);
    }
  }

  /** Adding an edge never separates what was connected. */
  lemma ConnectsSnoc(n: nat, idx: map<int, int>, es: seq<Edge>, e: Edge, a: int, b: int)
    requires Connects(n, idx, es, a, b)
    ensures Connects(n, idx, es + [e], a, b)
  {
    assert (es + [e])[..|es|] == es;
  }

  /** Joining two different components removes exactly one label. */
  lemma MergeClasses(lab: seq<int>, a: int, b: int)
    requires 0 <= a < |lab| && 0 <= b < |lab| && lab[a] != lab[b]
    ensures Classes(Merge(lab, a, b)) == Classes(lab) - {lab[b]}
    ensures |Classes(Merge(lab, a, b))| == |Classes(lab)| - 1
  {
    var m := Merge(lab, a, b);
    forall c | c in Classes(lab) - {lab[b]} ensures c in Classes(m) {
      var i :| 0 <= i < |lab| && lab[i] == c;
      assert m[i] == c;
    }
    assert lab[b] in Classes(lab);
  }

  /** The singletons labelling has `n` labels. */
  lemma SingletonClasses(n: nat)
    ensures Classes(Singletons(n)) == Range(n)
    ensures |Classes(Singletons(n))| == n
  {
    forall i | 0 <= i < n ensures i in Classes(Singletons(n)) {
      assert Singletons(n)[i] == i;
    }
  }

  /** A forest of `k` edges on `n` vertices has `n - k` components. */
  lemma {:induction false} ForestComponents(n: nat, idx: map<int, int>, es: seq<Edge>)
    requires JoinsSeparate(n, idx, es)
    ensures |Classes(Components(n, idx, es))| == n - |es|
  {
    if es == [] {
      SingletonClasses(n);
    } else {
      var p := es[..|es| - 1];
      var e := es[|es| - 1];
      ForestComponents(n, idx, p);
      MergeClasses(Components(n, idx, p), Lookup(idx, e.Src()), Lookup(idx, e.Tgt()));
    }
  }

  /** When a labelling of at least one index has a single label, everything is connected. */
  lemma OneClass(lab: seq<int>, a: int, b: int)
    requires |Classes(lab)| <= 1 && 0 <= a < |lab| && 0 <= b < |lab|
    ensures lab[a] == lab[b]
  {
    assert lab[a] in Classes(lab) && lab[b] in Classes(lab);
    if lab[a] != lab[b] {
      assert {lab[a], lab[b]} <= Classes(lab);
      SubsetSize({lab[a], lab[b]}, Classes(lab));
    }
  }

  /** With at least one index there is at least one label. */
  lemma SomeClass(lab: seq<int>)
    requires |lab| > 0
    ensures |Classes(lab)| >= 1
  {
    assert lab[0] in Classes(lab);
  }

  /** The accepted edges of a forest on `n` hubs number at most `n - 1`. */
  lemma ForestSize(n: nat, idx: map<int, int>, es: seq<Edge>)
    requires JoinsSeparate(n, idx, es)
    ensures |es| <= if n == 0 then 0 else n - 1
  {
    ForestComponents(n, idx, es);
    if n > 0 {
      SomeClass(Components(n, idx, es));
    }
  }

  /** A forest with `n - 1` edges connects every pair of the `n` vertices. */
  lemma FullForestSpans(n: nat, idx: map<int, int>, es: seq<Edge>, a: int, b: int)
    requires JoinsSeparate(n, idx, es) && |es| == n - 1
    requires 0 <= a < n && 0 <= b < n
    ensures Connects(n, idx, es, a, b)
  {
    ForestComponents(n, idx, es);
    OneClass(Components(n, idx, es), a, b);
  }

  /** Two labellings that group indices alike. */
  predicate SameKernel(f: seq<int>, g: seq<int>)
  {
    |f| == |g| &&
    forall a, b :: 0 <= a < |f| && 0 <= b < |f| ==> (f[a] == f[b] <==> g[a] == g[b])
  }

  /** Joining the same two groups in two labellings that group alike keeps them alike. */
  lemma JoinKeepsKernel(f: seq<int>, g: seq<int>, f2: seq<int>, g2: seq<int>, x: int, y: int, wf: int, wg: int)
    requires SameKernel(f, g) && 0 <= x < |f| && 0 <= y < |f|
    requires Joined(f, f2, x, y, wf) && Joined(g, g2, x, y, wg)
    ensures SameKernel(f2, g2)
  {
  }

  /** The endpoints of each of the first `j` entries of `edges` are connected by `es`. */
  predicate SeenConnected(n: nat, idx: map<int, int>, es: seq<Edge>, edges: seq<Edge>, j: int)
  {
    forall k :: 0 <= k < j && k < |edges| ==>
      Connects(n, idx, es, Lookup(idx, edges[k].Src()), Lookup(idx, edges[k].Tgt()))
  }

  /**
   * Accepting `edges[j]`, whose endpoints were in different classes: the
   * classes and the reference components still group alike, the accepted
   * edges still form a forest, and edges already seen stay connected.
   */
  lemma AcceptStep(n: nat, idx: map<int, int>, es: seq<Edge>, edges: seq<Edge>, j: int,
                   before: seq<int>, after: seq<int>, w: int)
    requires 0 <= j < |edges| && InRange(n, idx, edges[j]) && |before| == n
    requires SameKernel(before, Components(n, idx, es))
    requires Joined(before, after, Lookup(idx, edges[j].Src()), Lookup(idx, edges[j].Tgt()), w)
    requires before[Lookup(idx, edges[j].Src())] != before[Lookup(idx, edges[j].Tgt())]
    requires JoinsSeparate(n, idx, es)
    requires SeenConnected(n, idx, es, edges, j)
    ensures SameKernel(after, Components(n, idx, es + [edges[j]]))
    ensures JoinsSeparate(n, idx, es + [edges[j]])
    ensures SeenConnected(n, idx, es + [edges[j]], edges, j + 1)
  {
    var e := edges[j];
    var acc := es + [e];
    var s, t := Lookup(idx, e.Src()), Lookup(idx, e.Tgt());
    var lab := Components(n, idx, es);
    assert acc[..|acc| - 1] == es && acc[|acc| - 1] == e;
    assert Components(n, idx, acc) == Merge(lab, s, t);
    MergeJoins(lab, s, t);
    JoinKeepsKernel(before, lab, after, Merge(lab, s, t), s, t, w, lab[s]);
    forall k | 0 <= k < j
      ensures Connects(n, idx, acc, Lookup(idx, edges[k].Src()), Lookup(idx, edges[k].Tgt()))
    {
      ConnectsSnoc(n, idx, es, e, Lookup(idx, edges[k].Src()), Lookup(idx, edges[k].Tgt()));
    }
    EdgesConnect(n, idx, acc, |acc| - 1);
  }

  /** Rejecting `edges[j]`: its endpoints were already connected. */
  lemma RejectStep(n: nat, idx: map<int, int>, es: seq<Edge>, edges: seq<Edge>, j: int, before: seq<int>)
    requires 0 <= j < |edges| && InRange(n, idx, edges[j]) && |before| == n
    requires SameKernel(before, Components(n, idx, es))
    requires before[Lookup(idx, edges[j].Src())] == before[Lookup(idx, edges[j].Tgt())]
    requires SeenConnected(n, idx, es, edges, j)
    ensures SeenConnected(n, idx, es, edges, j + 1)
  {
  }

  /** The merge of the reference is a join under the label of the source. */
  lemma MergeJoins(lab: seq<int>, a: int, b: int)
    requires 0 <= a < |lab| && 0 <= b < |lab|
    ensures Joined(lab, Merge(lab, a, b), a, b, lab[a])
  {
  }

  /** Distinct entries occur once each in the multiset. */
  lemma {:induction false} DistinctOnce(s: seq<int>, x: int)
    requires Distinct(s)
    ensures multiset(s)[x] <= 1
  {
    if s != [] {
      DistinctTail(s);
      DistinctOnce(s[1..], x);
      assert s == [s[0]] + s[1..];
    }
  }

  /** A rearrangement of a sequence without repetitions has none either. */
  lemma PermutedDistinct(a: seq<int>, b: seq<int>)
    requires Distinct(a) && multiset(a) == multiset(b)
    ensures Distinct(b)
  {
    forall i, j | 0 <= i < j < |b| ensures b[i] != b[j] {
      DistinctOnce(a, b[j]);
      assert b == b[..j] + [b[j]] + b[j + 1..];
      assert multiset(b)[b[j]] == multiset(b[..j])[b[j]] + 1 + multiset(b[j + 1..])[b[j]];
      assert b[j] !in b[..j];
      assert b[..j][i] == b[i];
    }
  }

  /** `GetAllNodes().Select(n => n.Id)` lists the ids in key order. */
  lemma NodeIdsAreIds(g: Graph)
    requires g.Valid()
    ensures NodeIds(g.GetAllNodes()) == g.ids
  {
    AllNodesFacts(g);
  }

  /** The sorted ids are the graph's ids, each once, in strictly ascending order. */
  lemma SortedIdsFacts(g: Graph)
    requires g.Valid()
    ensures |SortedIds(g)| == g.NodeCount()
    ensures forall id :: id in SortedIds(g) <==> id in g.nodes
    ensures Ascending(SortedIds(g))
  {
    NodeIdsAreIds(g);
    IdsFacts(g);
    var s := SortedIds(g);
    SortByIsSortedPermutation(g.ids, IdKey);
    PermutedDistinct(g.ids, s);
    forall id ensures id in s <==> id in g.nodes {
      assert id in s <==> id in multiset(s);
      assert id in g.ids <==> id in multiset(g.ids);
    }
    forall i, j | 0 <= i < j < |s| ensures s[i] < s[j] {
      assert IdKey(s[i]) <= IdKey(s[j]);
    }
  }

  /** Strictly increasing. */
  predicate Ascending(s: seq<int>)
  {
    forall i, j :: 0 <= i < j < |s| ==> s[i] < s[j]
  }

  /** In a strictly increasing list, the dictionary built from it maps each entry to its position. */
  lemma IndexMapAscending(s: seq<int>)
    requires Ascending(s)
    ensures forall i :: 0 <= i < |s| ==> Lookup(IndexMap(s), s[i]) == i
    ensures forall a, b :: a in s && b in s ==> (Lookup(IndexMap(s), a) < Lookup(IndexMap(s), b) <==> a < b)
  {
    var m := IndexMap(s);
    forall i | 0 <= i < |s| ensures Lookup(m, s[i]) == i {
      assert s[i] in s;
      AscendingOrder(s, m[s[i]], i);
    }
    forall a, b | a in s && b in s ensures Lookup(m, a) < Lookup(m, b) <==> a < b {
      AscendingOrder(s, m[a], m[b]);
    }
  }

  /** Positions and entries of a strictly increasing list are in the same order. */
  lemma AscendingOrder(s: seq<int>, i: int, j: int)
    requires Ascending(s) && 0 <= i < |s| && 0 <= j < |s|
    ensures i < j <==> s[i] < s[j]
    ensures i == j <==> s[i] == s[j]
  {
  }

  /**
   * The renumbering of lines 15-20: every node id gets an index below the
   * node count, the indices follow ascending id order (so distinct ids get
   * distinct indices), and the id at sorted position `i` gets index `i`.
   */
  lemma DenseIndexFacts(g: Graph)
    requires g.Valid()
    ensures forall id :: id in g.nodes ==> 0 <= Lookup(DenseIndex(g), id) < g.NodeCount()
    ensures forall a, b :: a in g.nodes && b in g.nodes ==>
      (Lookup(DenseIndex(g), a) < Lookup(DenseIndex(g), b) <==> a < b)
    ensures forall i :: 0 <= i < |SortedIds(g)| ==> Lookup(DenseIndex(g), SortedIds(g)[i]) == i
  {
    SortedIdsFacts(g);
    IndexMapAscending(SortedIds(g));
  }

  /** Every edge the algorithm considers has both endpoints renumbered. */
  lemma SortedEdgesFacts(g: Graph)
    requires g.Valid()
    ensures SortedBy(SortedEdges(g), CostKey)
    ensures multiset(SortedEdges(g)) == multiset(g.GetAllEdges())
    ensures forall k :: 0 <= k < |SortedEdges(g)| ==> InRange(g.NodeCount(), DenseIndex(g), SortedEdges(g)[k])
  {
    SortByIsSortedPermutation(g.GetAllEdges(), CostKey);
    DenseIndexFacts(g);
    var s := SortedEdges(g);
    forall k | 0 <= k < |s| ensures InRange(g.NodeCount(), DenseIndex(g), s[k]) {
      assert s[k] in multiset(g.GetAllEdges());
      InAllEdges(g, s[k]);
    }
  }

  // ----- The algorithm -----

  /** The loop of lines 16-20: `idToIndex[nodeIds[i]] = i` for each position in turn. */
  method BuildIndex(nodeIds: seq<int>) returns (idToIndex: map<int, int>)
    ensures idToIndex == IndexMap(nodeIds)
  {
    idToIndex := map[];
    var i := 0;
    while i < |nodeIds|
      invariant 0 <= i <= |nodeIds|
      invariant idToIndex == IndexMap(nodeIds[..i])
    {
      TakeSnoc(nodeIds, i);
      idToIndex := idToIndex[nodeIds[i] := i];
      i := i + 1;
    }
    TakeAll(nodeIds);
  }

  /**
   * `FindMinimumSpanningTree(graph)`. The accepted edges are a subsequence
   * of the cost-sorted edges (so their costs never decrease), the total is
   * their cost sum, each joined two separate components (so the result is a
   * forest and has at most n - 1 edges), and on return the endpoints of
   * every edge of the graph are connected through accepted edges.
   */
  method FindMinimumSpanningTree(graph: LogisticsGraph) returns (result: MSTResult)
    requires graph.Valid()
    ensures Subsequence(result.edges, SortedEdges(graph.View()))
    ensures SortedBy(result.edges, CostKey)
    ensures result.totalCost == CostSum(result.edges)
    ensures JoinsSeparate(graph.View().NodeCount(), DenseIndex(graph.View()), result.edges)
    ensures |result.edges| <= if graph.View().NodeCount() == 0 then 0 else graph.View().NodeCount() - 1
    ensures forall e :: e in graph.View().GetAllEdges() ==>
      Connects(graph.View().NodeCount(), DenseIndex(graph.View()), result.edges,
               Lookup(DenseIndex(graph.View()), e.Src()), Lookup(DenseIndex(graph.View()), e.Tgt()))
  {
    ghost var g := graph.View();
    var edges := SortBy(graph.View().GetAllEdges(), CostKey);
    var nodeIds := SortBy(NodeIds(graph.View().GetAllNodes()), IdKey);
    var idToIndex := BuildIndex(nodeIds);
    SortedIdsFacts(g);
    SortedEdgesFacts(g);
    result := AcceptEdges(edges, idToIndex, |nodeIds|);
    ForestSize(|nodeIds|, idToIndex, result.edges);
    SubsequenceSorted(result.edges, edges);
    SpansGraph(g, result.edges);
  }

  /**
   * The loop of lines 24-37 over the sorted `edges`: an edge is kept when
   * `Union` joins two sets, and the loop stops once `n - 1` edges are kept.
   * On exit either `n - 1` edges were kept or every edge was considered,
   * and then all of them have their endpoints connected.
   */
  method AcceptEdges(edges: seq<Edge>, idToIndex: map<int, int>, n: nat) returns (result: MSTResult)
    requires forall k :: 0 <= k < |edges| ==> InRange(n, idToIndex, edges[k])
    ensures Subsequence(result.edges, edges)
    ensures result.totalCost == CostSum(result.edges)
    ensures JoinsSeparate(n, idToIndex, result.edges)
    ensures |result.edges| == n - 1 || forall k :: 0 <= k < |edges| ==>
      Connects(n, idToIndex, result.edges, Lookup(idToIndex, edges[k].Src()), Lookup(idToIndex, edges[k].Tgt()))
  {
    var accepted, total := [], 0;
    var uf := new UnionFind(n);
    assert uf.Roots() == Singletons(n);
    var j := 0;
    while j < |edges|
      invariant 0 <= j <= |edges|
      invariant uf.Valid() && uf.parent.Length == n && fresh(uf.parent) && fresh(uf.rank)
      invariant SameKernel(uf.Roots(), Components(n, idToIndex, accepted))
      invariant Subsequence(accepted, edges[..j])
      invariant total == CostSum(accepted)
      invariant JoinsSeparate(n, idToIndex, accepted)
      invariant SeenConnected(n, idToIndex, accepted, edges, j)
    {
      accepted, total := Consider(uf, n, idToIndex, accepted, total, edges, j);
      j := j + 1;
      if |accepted| == n - 1 {
        break;
      }
    }
    SubsequenceOfPrefix(accepted, edges, j);
    result := MSTResult(total, accepted);
  }

  /**
   * One round of the loop of `FindMinimumSpanningTree`: `Union` on the
   * endpoints of `edges[j]`, which is accepted exactly when that merged two
   * classes. The union-find classes keep matching the components of the
   * accepted edges, which stay a forest, a subsequence of the edges seen,
   * costing `total`, and connecting the endpoints of every edge seen.
   */
  method Consider(uf: UnionFind, n: nat, idToIndex: map<int, int>, accepted: seq<Edge>, total: int,
                  edges: seq<Edge>, j: nat)
    returns (accepted': seq<Edge>, total': int)
    requires 0 <= j < |edges| && InRange(n, idToIndex, edges[j])
    requires uf.Valid() && uf.parent.Length == n
    requires SameKernel(uf.Roots(), Components(n, idToIndex, accepted))
    requires Subsequence(accepted, edges[..j])
    requires total == CostSum(accepted)
    requires JoinsSeparate(n, idToIndex, accepted)
    requires SeenConnected(n, idToIndex, accepted, edges, j)
    modifies uf.parent, uf.rank
    ensures uf.Valid() && uf.parent.Length == n
    ensures accepted' == accepted || accepted' == accepted + [edges[j]]
    ensures SameKernel(uf.Roots(), Components(n, idToIndex, accepted'))
    ensures Subsequence(accepted', edges[..j + 1])
    ensures total' == CostSum(accepted')
    ensures JoinsSeparate(n, idToIndex, accepted')
    ensures SeenConnected(n, idToIndex, accepted', edges, j + 1)
  {
    var edge := edges[j];
    var sourceIdx := idToIndex[edge.source.id];
    var targetIdx := idToIndex[edge.target.id];
    ghost var before := uf.Roots();
    var merged := uf.Union(sourceIdx, targetIdx);
    TakeSnoc(edges, j);
    if merged {
      AcceptStep(n, idToIndex, accepted, edges, j, before, uf.Roots(), uf.Root(sourceIdx));
      SubsequenceKeep(accepted, edges[..j], edge);
      CostSumSnoc(accepted, edge);
      accepted', total' := accepted + [edge], total + edge.cost;
    } else {
      RejectStep(n, idToIndex, accepted, edges, j, before);
      SubsequenceSkip(accepted, edges[..j], edge);
      accepted', total' := accepted, total;
    }
  }

  /** Keeping the next entry extends a subsequence. */
  lemma SubsequenceKeep(sub: seq<Edge>, s: seq<Edge>, x: Edge)
    requires Subsequence(sub, s)
    ensures Subsequence(sub + [x], s + [x])
  {
    assert (sub + [x])[..|sub|] == sub;
    assert (s + [x])[..|s|] == s;
  }

  /** Skipping the next entry keeps a subsequence. */
  lemma SubsequenceSkip(sub: seq<Edge>, s: seq<Edge>, x: Edge)
    requires Subsequence(sub, s)
    ensures Subsequence(sub, s + [x])
  {
    assert (s + [x])[..|s|] == s;
  }

  /** A subsequence of a prefix is a subsequence of the whole. */
  lemma {:induction false} SubsequenceOfPrefix(sub: seq<Edge>, s: seq<Edge>, j: int)
    requires 0 <= j <= |s| && Subsequence(sub, s[..j])
    ensures Subsequence(sub, s)
    decreases |s| - j
  {
    if j < |s| {
      TakeSnoc(s, j);
      SubsequenceSkip(sub, s[..j], s[j]);
      SubsequenceOfPrefix(sub, s, j + 1);
    } else {
      TakeAll(s);
    }
  }

  /** Every entry of a subsequence is an entry of the whole. */
  lemma {:induction false} SubsequenceMembers(sub: seq<Edge>, s: seq<Edge>, x: Edge)
    requires Subsequence(sub, s) && x in sub
    ensures x in s
    decreases |s|
  {
    var p := s[..|s| - 1];
    if sub != [] && sub[|sub| - 1] == s[|s| - 1] && Subsequence(sub[..|sub| - 1], p) {
      if x != s[|s| - 1] {
        assert sub == sub[..|sub| - 1] + [sub[|sub| - 1]];
        SubsequenceMembers(sub[..|sub| - 1], p, x);
      }
    } else {
      SubsequenceMembers(sub, p, x);
    }
    assert s == p + [s[|s| - 1]];
  }

  /** A subsequence of a list sorted by cost is sorted by cost. */
  lemma {:induction false} SubsequenceSorted(sub: seq<Edge>, s: seq<Edge>)
    requires Subsequence(sub, s) && SortedBy(s, CostKey)
    ensures SortedBy(sub, CostKey)
    decreases |s|
  {
    if s != [] {
      var p := s[..|s| - 1];
      assert SortedBy(p, CostKey);
      if sub != [] && sub[|sub| - 1] == s[|s| - 1] && Subsequence(sub[..|sub| - 1], p) {
        var q := sub[..|sub| - 1];
        SubsequenceSorted(q, p);
        forall i | 0 <= i < |q| ensures CostKey(q[i]) <= CostKey(s[|s| - 1]) {
          SubsequenceMembers(q, p, q[i]);
          var k :| 0 <= k < |p| && p[k] == q[i];
        }
        assert sub == q + [s[|s| - 1]];
      } else {
        SubsequenceSorted(sub, p);
      }
    }
  }

  lemma CostSumSnoc(es: seq<Edge>, e: Edge)
    ensures CostSum(es + [e]) == CostSum(es) + e.cost
  {
    assert (es + [e])[..|es|] == es;
  }

  /**
   * A forest on the renumbered hubs that either has `n - 1` edges or
   * connects the endpoints of every sorted edge connects the endpoints of
   * every edge of the graph.
   */
  lemma SpansGraph(g: Graph, acc: seq<Edge>)
    requires g.Valid()
    requires JoinsSeparate(g.NodeCount(), DenseIndex(g), acc)
    requires |acc| == g.NodeCount() - 1 || forall k :: 0 <= k < |SortedEdges(g)| ==>
      Connects(g.NodeCount(), DenseIndex(g), acc,
               Lookup(DenseIndex(g), SortedEdges(g)[k].Src()), Lookup(DenseIndex(g), SortedEdges(g)[k].Tgt()))
    ensures forall e :: e in g.GetAllEdges() ==>
      Connects(g.NodeCount(), DenseIndex(g), acc, Lookup(DenseIndex(g), e.Src()), Lookup(DenseIndex(g), e.Tgt()))
  {
    var n := g.NodeCount();
    var idx := DenseIndex(g);
    var edges := SortedEdges(g);
    SortedEdgesFacts(g);
    forall e | e in g.GetAllEdges()
      ensures Connects(n, idx, acc, Lookup(idx, e.Src()), Lookup(idx, e.Tgt()))
    {
      assert e in multiset(edges);
      var k :| 0 <= k < |edges| && edges[k] == e;
      if |acc| == n - 1 {
        assert InRange(n, idx, edges[k]);
        FullForestSpans(n, idx, acc, Lookup(idx, e.Src()), Lookup(idx, e.Tgt()));
      }
    }
  }
}
