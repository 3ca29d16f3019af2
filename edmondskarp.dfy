/**
 * Maximum flow between two hubs (Algorithms/EdmondsKarpAlgorithm.cs).
 *
 * The residual capacities are a dictionary keyed by ordered pairs of hub
 * ids. Each round a breadth-first search over `GetAllNodes` finds a chain of
 * pairs with positive residual from the source to the sink; the least
 * residual along it is pushed through. When no such chain is left, the edges
 * leaving the hubs still residual-reachable from the source are the
 * bottleneck (a minimum cut). Capacities are finite integers here.
 */
module EdmondsKarpModel {
  import opened Basics
  import opened NodeModel
  import opened EdgeModel
  import opened GraphModel
  import opened Results

  /** `Dictionary<(int, int), double> residualCapacity` */
  type Residual = map<(int, int), int>

  /** The residual of the pair `(u, v)`, 0 when it has no entry. */
  function Res(r: Residual, u: int, v: int): int
  {
    if (u, v) in r then r[(u, v)] else 0
  }

  /** `residualCapacity.ContainsKey((u, v)) && residualCapacity[(u, v)] > 0` */
  predicate Open(r: Residual, u: int, v: int)
  {
    (u, v) in r && r[(u, v)] > 0
  }

  /** Every listed edge has a finite capacity. */
  predicate FiniteKeys(ks: seq<EdgeKey>)
  {
    forall k :: 0 <= k < |ks| ==> ks[k].capacity.Finite?
  }

  /** The capacity of the last edge from `u` to `v`, if any. */
  function LastCapacity(ks: seq<EdgeKey>, u: int, v: int): Option<int>
    requires FiniteKeys(ks)
  {
    if ks == [] then None
    else if ks[|ks| - 1].src == u && ks[|ks| - 1].tgt == v then Some(ks[|ks| - 1].capacity.n)
    else LastCapacity(ks[..|ks| - 1], u, v)
  }

  /** The initial residual of `(u, v)`: the last such edge's capacity, or 0 if there is none. */
  function Cap(ks: seq<EdgeKey>, u: int, v: int): int
    requires FiniteKeys(ks)
  {
    match LastCapacity(ks, u, v)
    case Some(c) => c
    case None => 0
  }

  /** Some edge runs between `u` and `v`, in one direction or the other. */
  predicate Joins(ks: seq<EdgeKey>, u: int, v: int)
    requires FiniteKeys(ks)
  {
    LastCapacity(ks, u, v).Some? || LastCapacity(ks, v, u).Some?
  }

  /**
   * The residual map of lines 18-27 for the edges with keys `ks`: an entry for
   * both directions of every edge, holding the capacity of the last edge in
   * that direction, or 0 when no edge runs that way.
   */
  ghost predicate InitialResidualOf(ks: seq<EdgeKey>, r: Residual)
    requires FiniteKeys(ks)
  {
    && (forall u, v :: (u, v) in r <==> Joins(ks, u, v))
    && (forall u, v :: (u, v) in r ==> r[(u, v)] == Cap(ks, u, v))
  }

  /** `LastCapacity` is the capacity at the last position with those endpoints. */
  lemma {:induction false} LastCapacityIsLast(ks: seq<EdgeKey>, u: int, v: int, c: int)
    requires FiniteKeys(ks)
    ensures LastCapacity(ks, u, v) == Some(c) <==>
      exists i :: 0 <= i < |ks| && ks[i].src == u && ks[i].tgt == v && ks[i].capacity == Finite(c) &&
        forall j :: i < j < |ks| ==> !(ks[j].src == u && ks[j].tgt == v)
  {
    if ks != [] {
      var n := |ks| - 1;
      var front := ks[..n];
      LastCapacityIsLast(front, u, v, c);
      if ks[n].src == u && ks[n].tgt == v {
        if ks[n].capacity != Finite(c) {
          forall i | 0 <= i < |ks| && ks[i].src == u && ks[i].tgt == v && ks[i].capacity == Finite(c)
            ensures exists j :: i < j < |ks| && ks[j].src == u && ks[j].tgt == v
          {
            assert i != n;
            assert ks[n].src == u && ks[n].tgt == v;
          }
        }
      } else {
        if LastCapacity(front, u, v) == Some(c) {
          var i :| 0 <= i < |front| && front[i].src == u && front[i].tgt == v && front[i].capacity == Finite(c) &&
            forall j :: i < j < |front| ==> !(front[j].src == u && front[j].tgt == v);
          assert ks[i] == front[i];
          forall j | i < j < |ks| ensures !(ks[j].src == u && ks[j].tgt == v) {
            if j < n {
              assert ks[j] == front[j];
            }
          }
        } else {
          forall i | 0 <= i < |ks| && ks[i].src == u && ks[i].tgt == v && ks[i].capacity == Finite(c)
            ensures exists j :: i < j < |ks| && ks[j].src == u && ks[j].tgt == v
          {
            assert i < n && ks[i] == front[i];
            var j :| i < j < |front| && front[j].src == u && front[j].tgt == v;
            assert ks[j] == front[j];
          }
        }
      }
    }
  }

  /** One more edge overrides the entry of its own direction only. */
  lemma LastCapacitySnoc(ks: seq<EdgeKey>, k: EdgeKey, u: int, v: int)
    requires FiniteKeys(ks + [k]) && k.capacity.Finite?
    ensures FiniteKeys(ks)
    ensures LastCapacity(ks + [k], u, v) ==
      if k.src == u && k.tgt == v then Some(k.capacity.n) else LastCapacity(ks, u, v)
  {
    assert FiniteKeys(ks) by {
      forall i | 0 <= i < |ks| ensures ks[i].capacity.Finite? {
        assert (ks + [k])[i] == ks[i];
      }
    }
    assert (ks + [k])[..|ks|] == ks;
  }

  /** The loop of lines 20-27 over `workingGraph.GetAllEdges()`. */
  method InitialResidual(edges: seq<Edge>) returns (r: Residual)
    requires FiniteKeys(Keys(edges))
    ensures InitialResidualOf(Keys(edges), r)
  {
    r := map[];
    var i := 0;
    while i < |edges|
      invariant 0 <= i <= |edges|
      invariant FiniteKeys(Keys(edges[..i]))
      invariant InitialResidualOf(Keys(edges[..i]), r)
    {
      var edge := edges[i];
      ghost var ks := Keys(edges[..i]);
      ghost var k := Key(edge);
      assert Keys(edges[..i + 1]) == ks + [k];
      assert Keys(edges)[i] == k && k.capacity.Finite?;
      forall u, v ensures LastCapacity(ks + [k], u, v) ==
        if k.src == u && k.tgt == v then Some(k.capacity.n) else LastCapacity(ks, u, v)
      {
        LastCapacitySnoc(ks, k, u, v);
      }
      r := r[(edge.Src(), edge.Tgt()) := edge.capacity.n];
      if (edge.Tgt(), edge.Src()) !in r {
        r := r[(edge.Tgt(), edge.Src()) := 0];
      }
      i := i + 1;
    }
    assert edges[..i] == edges;
  }

  /** Every residual entry is between two hubs of `g`. */
  ghost predicate OnNodes(g: Graph, r: Residual)
  {
    forall u, v :: (u, v) in r ==> u in g.nodes && v in g.nodes
  }

  /** `p` lists hubs from `s` to `t`, each pair of neighbours with positive residual. */
  ghost predicate ResidualPath(r: Residual, p: seq<int>, s: int, t: int)
  {
    && |p| > 0 && p[0] == s && p[|p| - 1] == t
    && forall i :: 0 <= i < |p| - 1 ==> Open(r, p[i], p[i + 1])
  }

  /** `t` is residual-reachable from `s`. */
  ghost predicate Reachable(r: Residual, s: int, t: int)
  {
    exists p :: ResidualPath(r, p, s, t)
  }

  /** No pair with positive residual leaves `c`. */
  ghost predicate Closed(r: Residual, c: set<int>)
  {
    forall u, v :: u in c && Open(r, u, v) ==> v in c
  }

  /** A closed set holding the start holds every hub of a residual path from it. */
  lemma {:induction false} ClosedHoldsPath(r: Residual, c: set<int>, p: seq<int>, s: int, t: int, i: int)
    requires Closed(r, c) && s in c && ResidualPath(r, p, s, t) && 0 <= i < |p|
    ensures p[i] in c
  {
    if i > 0 {
      ClosedHoldsPath(r, c, p, s, t, i - 1);
      assert Open(r, p[i - 1], p[i]);
    }
  }

  /** Hence a closed set holding `s` holds every hub reachable from `s`. */
  lemma ClosedHoldsReachable(r: Residual, c: set<int>, s: int, t: int)
    requires Closed(r, c) && s in c && Reachable(r, s, t)
    ensures t in c
  {
    var p :| ResidualPath(r, p, s, t);
    ClosedHoldsPath(r, c, p, s, t, |p| - 1);
  }

  /**
   * A breadth-first tree: `parent[v]` is the hub `v` was discovered from,
   * across a pair with positive residual, at a smaller (ghost) level; every
   * discovered hub other than the root `s` has a parent.
   */
  ghost predicate ParentTree(r: Residual, s: int, parent: map<int, int>, level: map<int, nat>)
  {
    && s in level && s !in parent
    && (forall v :: v in parent ==> v in level && parent[v] in level && level[parent[v]] < level[v])
    && (forall v :: v in parent ==> Open(r, parent[v], v))
    && (forall v :: v in level ==> v == s || v in parent)
  }

  /** The hubs from the root down to `v` along `parent`. */
  ghost function ChainTo(parent: map<int, int>, level: map<int, nat>, v: int): seq<int>
    requires forall u :: u in parent ==> u in level && parent[u] in level && level[parent[u]] < level[u]
    requires v in level
    decreases level[v]
  {
    if v !in parent then [v] else ChainTo(parent, level, parent[v]) + [v]
  }

  /**
   * The chain to a discovered hub starts at the root, climbs in level (so no
   * hub repeats), follows `parent` and is a residual path.
   */
  lemma {:induction false} ChainFacts(r: Residual, s: int, parent: map<int, int>, level: map<int, nat>, v: int)
    requires ParentTree(r, s, parent, level) && v in level
    ensures var p := ChainTo(parent, level, v);
      && |p| > 0 && p[0] == s && p[|p| - 1] == v
      && (forall i :: 0 <= i < |p| ==> p[i] in level)
      && (forall i :: 0 < i < |p| ==> p[i] in parent && parent[p[i]] == p[i - 1])
      && (forall i, j :: 0 <= i < j < |p| ==> level[p[i]] < level[p[j]])
    decreases level[v]
  {
    if v in parent {
      ChainFacts(r, s, parent, level, parent[v]);
      var q := ChainTo(parent, level, parent[v]);
      var p := q + [v];
      assert ChainTo(parent, level, v) == p;
      forall i, j | 0 <= i < j < |p| ensures level[p[i]] < level[p[j]] {
        if j == |p| - 1 {
          assert level[p[i]] <= level[q[|q| - 1]];
        }
      }
    }
  }

  /** The chain to a discovered hub is a residual path without repeated hubs. */
  lemma ChainIsPath(r: Residual, s: int, parent: map<int, int>, level: map<int, nat>, v: int)
    requires ParentTree(r, s, parent, level) && v in level
    ensures ResidualPath(r, ChainTo(parent, level, v), s, v)
    ensures Distinct(ChainTo(parent, level, v))
  {
    ChainFacts(r, s, parent, level, v);
  }

  /** The queue of a search: the hubs found but not yet expanded. */
  ghost predicate Frontier(g: Graph, r: Residual, visited: set<int>, queue: seq<int>, done: set<int>)
  {
    && visited <= g.nodes.Keys && done <= visited
    && (forall k :: 0 <= k < |queue| ==> queue[k] in visited)
    && (forall v :: v in visited ==> v in done || v in queue)
    && (forall u, v :: u in done && Open(r, u, v) ==> v in visited)
  }

  /**
   * The `foreach` over `graph.GetAllNodes()` of lines 98-110: every hub not
   * yet visited with positive residual from `current` is visited, gets
   * `current` as parent and joins the queue.
   */
  method Discover(g: Graph, r: Residual, s: int, current: int, visited: set<int>, parent: map<int, int>,
                  queue: seq<int>, ghost level: map<int, nat>)
    returns (visited': set<int>, parent': map<int, int>, queue': seq<int>, ghost level': map<int, nat>)
    requires g.Valid() && OnNodes(g, r) && current in visited && visited == level.Keys && visited <= g.nodes.Keys
    requires ParentTree(r, s, parent, level)
    ensures visited' == level'.Keys && visited <= visited' <= g.nodes.Keys
    ensures ParentTree(r, s, parent', level')
    ensures forall v :: Open(r, current, v) ==> v in visited'
    ensures |queue| <= |queue'| && queue'[..|queue|] == queue
    ensures forall k :: |queue| <= k < |queue'| ==> queue'[k] in visited'
    ensures forall v :: v in visited' ==> v in visited || v in queue'
    ensures visited' == visited ==> queue' == queue
  {
    AllNodesFacts(g);
    IdsFacts(g);
    var nodes := g.GetAllNodes();
    visited', parent', queue', level' := visited, parent, queue, level;
    var i := 0;
    while i < |nodes|
      invariant 0 <= i <= |nodes|
      invariant visited' == level'.Keys && visited <= visited' <= g.nodes.Keys
      invariant ParentTree(r, s, parent', level')
      invariant forall k :: 0 <= k < i && Open(r, current, g.ids[k]) ==> g.ids[k] in visited'
      invariant |queue| <= |queue'| && queue'[..|queue|] == queue
      invariant forall k :: |queue| <= k < |queue'| ==> queue'[k] in visited'
      invariant forall v :: v in visited' ==> v in visited || v in queue'
      invariant visited' == visited ==> queue' == queue
    {
      var neighbor := nodes[i].id;
      if neighbor !in visited' && (current, neighbor) in r && r[(current, neighbor)] > 0 {
        visited' := visited' + {neighbor};
        parent' := parent'[neighbor := current];
        queue' := queue' + [neighbor];
        level' := level'[neighbor := level'[current] + 1];
      }
      i := i + 1;
    }
    forall v | Open(r, current, v) ensures v in visited' {
      assert v in g.ids;
    }
  }

  /**
   * `BFS` (lines 76-114): the parent map once the sink is taken from the
   * queue, with its breadth-first tree; null when the queue runs dry, and
   * then the sink is not residual-reachable.
   */
  method Bfs(g: Graph, sourceId: int, sinkId: int, r: Residual)
    returns (parent: Option<map<int, int>>, ghost level: map<int, nat>)
    requires g.Valid() && OnNodes(g, r) && sourceId in g.nodes
    ensures parent.Some? ==> ParentTree(r, sourceId, parent.value, level) && sinkId in level
    ensures parent.None? ==> !Reachable(r, sourceId, sinkId)
  {
    var visited := {sourceId};
    var queue := [sourceId];
    var tree: map<int, int> := map[];
    level := map[sourceId := 0];
    ghost var done: set<int> := {};
    while |queue| > 0
      invariant visited == level.Keys && ParentTree(r, sourceId, tree, level)
      invariant Frontier(g, r, visited, queue, done) && sinkId !in done
      decreases g.nodes.Keys - visited, |queue|
    {
      var current := queue[0];
      queue := queue[1..];
      if current == sinkId {
        return Some(tree), level;
      }
      ghost var before := visited;
      visited, tree, queue, level := Discover(g, r, sourceId, current, visited, tree, queue, level);
      done := done + {current};
      assert g.nodes.Keys - visited < g.nodes.Keys - before || visited == before;
    }
    if Reachable(r, sourceId, sinkId) {
      ClosedHoldsReachable(r, visited, sourceId, sinkId);
    }
    return None, level;
  }

  /**
   * `GetReachableNodes` (lines 116-146): the hubs residual-reachable from the
   * source, found by the same breadth-first search without a target.
   */
  method GetReachableNodes(g: Graph, sourceId: int, r: Residual) returns (reachable: set<int>)
    requires g.Valid() && OnNodes(g, r) && sourceId in g.nodes
    ensures forall v :: v in reachable <==> Reachable(r, sourceId, v)
  {
    reachable := {sourceId};
    var queue := [sourceId];
    ghost var tree: map<int, int> := map[];
    ghost var level: map<int, nat> := map[sourceId := 0];
    ghost var done: set<int> := {};
    while |queue| > 0
      invariant reachable == level.Keys && ParentTree(r, sourceId, tree, level)
      invariant Frontier(g, r, reachable, queue, done)
      decreases g.nodes.Keys - reachable, |queue|
    {
      var current := queue[0];
      queue := queue[1..];
      ghost var before := reachable;
      reachable, queue, tree, level := Reach(g, r, sourceId, current, reachable, queue, tree, level);
      done := done + {current};
      assert g.nodes.Keys - reachable < g.nodes.Keys - before || reachable == before;
    }
    forall v ensures v in reachable <==> Reachable(r, sourceId, v) {
      if v in reachable {
        ChainIsPath(r, sourceId, tree, level, v);
      }
      if Reachable(r, sourceId, v) {
        ClosedHoldsReachable(r, reachable, sourceId, v);
      }
    }
  }

  /** The `foreach` of lines 131-142: like `Discover`, with the tree kept as a ghost. */
  method Reach(g: Graph, r: Residual, s: int, current: int, reachable: set<int>, queue: seq<int>,
               ghost parent: map<int, int>, ghost level: map<int, nat>)
    returns (reachable': set<int>, queue': seq<int>, ghost parent': map<int, int>, ghost level': map<int, nat>)
    requires g.Valid() && OnNodes(g, r) && current in reachable && reachable == level.Keys && reachable <= g.nodes.Keys
    requires ParentTree(r, s, parent, level)
    ensures reachable' == level'.Keys && reachable <= reachable' <= g.nodes.Keys
    ensures ParentTree(r, s, parent', level')
    ensures forall v :: Open(r, current, v) ==> v in reachable'
    ensures |queue| <= |queue'| && queue'[..|queue|] == queue
    ensures forall k :: |queue| <= k < |queue'| ==> queue'[k] in reachable'
    ensures forall v :: v in reachable' ==> v in reachable || v in queue'
    ensures reachable' == reachable ==> queue' == queue
  {
    AllNodesFacts(g);
    IdsFacts(g);
    var nodes := g.GetAllNodes();
    reachable', queue', parent', level' := reachable, queue, parent, level;
    var i := 0;
    while i < |nodes|
      invariant 0 <= i <= |nodes|
      invariant reachable' == level'.Keys && reachable <= reachable' <= g.nodes.Keys
      invariant ParentTree(r, s, parent', level')
      invariant forall k :: 0 <= k < i && Open(r, current, g.ids[k]) ==> g.ids[k] in reachable'
      invariant |queue| <= |queue'| && queue'[..|queue|] == queue
      invariant forall k :: |queue| <= k < |queue'| ==> queue'[k] in reachable'
      invariant forall v :: v in reachable' ==> v in reachable || v in queue'
      invariant reachable' == reachable ==> queue' == queue
    {
      var neighbor := nodes[i].id;
      if neighbor !in reachable' && (current, neighbor) in r && r[(current, neighbor)] > 0 {
        reachable' := reachable' + {neighbor};
        queue' := queue' + [neighbor];
        parent' := parent'[neighbor := current];
        level' := level'[neighbor := level'[current] + 1];
      }
      i := i + 1;
    }
    forall v | Open(r, current, v) ensures v in reachable' {
      assert v in g.ids;
    }
  }

  /** `Math.Min(pathFlow, c)` with `+inf` as the identity. */
  function MinWith(a: ExtInt, c: int): (m: ExtInt)
    ensures m == Finite(c) || m == a
    ensures m.Finite? && m.n <= c && (a.Finite? ==> m.n <= a.n)
  {
    match a
    case Finite(x) => if x <= c then a else Finite(c)
    case Infinity => Finite(c)
  }

  /**
   * `p` runs from `s` along `parent` links: each hub after the first has the
   * one before it as parent, no hub repeats and every pair has positive residual.
   */
  ghost predicate TreePath(r: Residual, s: int, parent: map<int, int>, p: seq<int>)
  {
    && |p| > 0 && p[0] == s && s !in parent && Distinct(p)
    && (forall i :: 0 < i < |p| ==> p[i] in parent && parent[p[i]] == p[i - 1])
    && (forall i :: 0 < i < |p| ==> Open(r, p[i - 1], p[i]))
  }

  lemma ChainIsTreePath(r: Residual, s: int, parent: map<int, int>, level: map<int, nat>, v: int)
    requires ParentTree(r, s, parent, level) && v in level
    ensures TreePath(r, s, parent, ChainTo(parent, level, v))
    ensures ChainTo(parent, level, v)[|ChainTo(parent, level, v)| - 1] == v
  {
    ChainFacts(r, s, parent, level, v);
    ChainIsPath(r, s, parent, level, v);
  }

  /**
   * The first loop of lines 38-46, walking the chain `p` back from the sink:
   * the least residual along it. It is positive, no pair of the chain has
   * less and some pair has exactly that much.
   */
  method PathFlow(r: Residual, sourceId: int, sinkId: int, parent: map<int, int>, ghost p: seq<int>)
    returns (pathFlow: ExtInt)
    requires TreePath(r, sourceId, parent, p) && p[|p| - 1] == sinkId && sinkId != sourceId
    ensures pathFlow.Finite? && pathFlow.n > 0
    ensures forall i :: 0 < i < |p| ==> pathFlow.n <= Res(r, p[i - 1], p[i])
    ensures exists i :: 0 < i < |p| && pathFlow.n == Res(r, p[i - 1], p[i])
  {
    pathFlow := Infinity;
    var current := sinkId;
    ghost var j := |p| - 1;
    while current != sourceId
      invariant 0 <= j < |p| && current == p[j]
      invariant pathFlow.Infinity? <==> j == |p| - 1
      invariant pathFlow.Finite? ==> pathFlow.n > 0
      invariant pathFlow.Finite? ==> forall i :: j < i < |p| ==> pathFlow.n <= Res(r, p[i - 1], p[i])
      invariant pathFlow.Finite? ==> exists i :: j < i < |p| && pathFlow.n == Res(r, p[i - 1], p[i])
      decreases j
    {
      assert j > 0;
      var prev := parent[current];
      assert prev == p[j - 1];
      assert Open(r, p[j - 1], p[j]);
      pathFlow := MinWith(pathFlow, r[(prev, current)]);
      current := prev;
      j := j - 1;
    }
    assert j == 0;
  }

  /**
   * Both directions of the pairs of the chain `p` after position `j`: the
   * entries a push along the chain touches. They join hubs of `p[j..]`.
   */
  function ChainPairs(p: seq<int>, j: nat): (c: set<(int, int)>)
    requires j <= |p|
    ensures forall q :: q in c ==> q.0 in p[j..] && q.1 in p[j..]
    decreases |p| - j
  {
    if j + 1 >= |p| then {}
    else {(p[j], p[j + 1]), (p[j + 1], p[j])} + ChainPairs(p, j + 1)
  }

  /** Both directions of every pair have an entry. */
  ghost predicate Symmetric(r: Residual)
  {
    forall u, v :: (u, v) in r ==> (v, u) in r
  }

  /** No residual is negative. */
  ghost predicate NonNegative(r: Residual)
  {
    forall q :: q in r ==> r[q] >= 0
  }

  /**
   * The residuals after pushing `f` along the pairs of the chain `p` after
   * position `j`: each of them loses `f`, its reverse gains `f`, nothing
   * else changes.
   */
  ghost predicate Pushed(r: Residual, r': Residual, p: seq<int>, j: int, f: int)
  {
    && 0 <= j < |p| && r'.Keys == r.Keys
    && PushedForward(r, r', p, j, f)
    && PushedBackward(r, r', p, j, f)
    && PushedElsewhere(r, r', p, j)
  }

  ghost predicate PushedForward(r: Residual, r': Residual, p: seq<int>, j: int, f: int)
  {
    forall i :: 0 <= j < i < |p| ==> Res(r', p[i - 1], p[i]) == Res(r, p[i - 1], p[i]) - f
  }

  ghost predicate PushedBackward(r: Residual, r': Residual, p: seq<int>, j: int, f: int)
  {
    forall i :: 0 <= j < i < |p| ==> Res(r', p[i], p[i - 1]) == Res(r, p[i], p[i - 1]) + f
  }

  ghost predicate PushedElsewhere(r: Residual, r': Residual, p: seq<int>, j: int)
    requires 0 <= j <= |p|
  {
    forall q :: q in r && q in r' && q !in ChainPairs(p, j) ==> r'[q] == r[q]
  }

  /**
   * The second loop of lines 48-55: `pathFlow` is taken off every pair of
   * the chain and given to its reverse; no other entry changes.
   */
  method Augment(r: Residual, sourceId: int, sinkId: int, parent: map<int, int>, ghost p: seq<int>,
                 pathFlow: int)
    returns (r': Residual)
    requires TreePath(r, sourceId, parent, p) && p[|p| - 1] == sinkId && Symmetric(r)
    ensures Pushed(r, r', p, 0, pathFlow)
  {
    r' := r;
    var current := sinkId;
    ghost var j := |p| - 1;
    while current != sourceId
      invariant 0 <= j < |p| && current == p[j]
      invariant Pushed(r, r', p, j, pathFlow)
      decreases j
    {
      assert j > 0;
      var prev := parent[current];
      assert prev == p[j - 1];
      assert Open(r, p[j - 1], p[j]);
      var forward := r'[(prev, current)] - pathFlow;
      var backward := r'[(current, prev)] + pathFlow;
      ghost var r0 := r';
      r' := r'[(prev, current) := forward][(current, prev) := backward];
      AugmentStep(r, r0, r', p, j, pathFlow);
      current := prev;
      j := j - 1;
    }
    assert j == 0;
  }

  /** The hubs of the chain after position `j` differ from both ends of pair `j`. */
  lemma Untouched(p: seq<int>, j: int)
    requires Distinct(p) && 0 < j < |p|
    ensures p[j - 1] != p[j] && p[j - 1] !in p[j..]
    ensures forall i :: j < i < |p| ==> p[i] != p[j - 1] && p[i] != p[j]
  {
    forall k | 0 <= k < |p| - j ensures p[j..][k] != p[j - 1] {
      assert p[j..][k] == p[j + k];
    }
  }

  /** One step of `Augment`: pushing along pair `j` extends `Pushed` to position `j - 1`. */
  lemma AugmentStep(r: Residual, r1: Residual, r2: Residual, p: seq<int>, j: int, f: int)
    requires Distinct(p) && 0 < j < |p| && Pushed(r, r1, p, j, f)
    requires (p[j - 1], p[j]) in r && (p[j], p[j - 1]) in r
    requires var a, b := p[j - 1], p[j];
      r2 == r1[(a, b) := r1[(a, b)] - f][(b, a) := r1[(b, a)] + f]
    ensures Pushed(r, r2, p, j - 1, f)
  {
    var a, b := p[j - 1], p[j];
    Untouched(p, j);
    assert (a, b) !in ChainPairs(p, j) && (b, a) !in ChainPairs(p, j);
    assert r1[(a, b)] == r[(a, b)] && r1[(b, a)] == r[(b, a)];
    ForwardStep(r, r1, r2, p, j, f, a, b);
    BackwardStep(r, r1, r2, p, j, f, a, b);
    ElsewhereStep(r, r1, r2, p, j, f, a, b);
  }

  lemma ForwardStep(r: Residual, r1: Residual, r2: Residual, p: seq<int>, j: int, f: int, a: int, b: int)
    requires 0 < j < |p| && a == p[j - 1] && b == p[j] && a != b
    requires (a, b) in r1 && (b, a) in r1 && r1[(a, b)] == Res(r, a, b)
    requires r2 == r1[(a, b) := r1[(a, b)] - f][(b, a) := r1[(b, a)] + f]
    requires forall i :: j < i < |p| ==> p[i] != a && p[i] != b
    requires PushedForward(r, r1, p, j, f)
    ensures PushedForward(r, r2, p, j - 1, f)
  {
    forall i | j - 1 < i < |p| ensures Res(r2, p[i - 1], p[i]) == Res(r, p[i - 1], p[i]) - f {
      if i > j {
        UpdateElsewhere(r1, a, b, f, p[i - 1], p[i]);
      }
    }
  }

  lemma BackwardStep(r: Residual, r1: Residual, r2: Residual, p: seq<int>, j: int, f: int, a: int, b: int)
    requires 0 < j < |p| && a == p[j - 1] && b == p[j] && a != b
    requires (a, b) in r1 && (b, a) in r1 && r1[(b, a)] == Res(r, b, a)
    requires r2 == r1[(a, b) := r1[(a, b)] - f][(b, a) := r1[(b, a)] + f]
    requires forall i :: j < i < |p| ==> p[i] != a && p[i] != b
    requires PushedBackward(r, r1, p, j, f)
    ensures PushedBackward(r, r2, p, j - 1, f)
  {
    forall i | j - 1 < i < |p| ensures Res(r2, p[i], p[i - 1]) == Res(r, p[i], p[i - 1]) + f {
      if i > j {
        UpdateElsewhere(r1, a, b, f, p[i], p[i - 1]);
      }
    }
  }

  lemma ElsewhereStep(r: Residual, r1: Residual, r2: Residual, p: seq<int>, j: int, f: int, a: int, b: int)
    requires 0 < j < |p| && a == p[j - 1] && b == p[j] && (a, b) in r1 && (b, a) in r1
    requires r2 == r1[(a, b) := r1[(a, b)] - f][(b, a) := r1[(b, a)] + f]
    requires PushedElsewhere(r, r1, p, j)
    ensures PushedElsewhere(r, r2, p, j - 1)
  {
    assert ChainPairs(p, j - 1) == {(a, b), (b, a)} + ChainPairs(p, j);
  }

  /** The two entries a push updates are the only entries it changes. */
  lemma UpdateElsewhere(r: Residual, a: int, b: int, f: int, x: int, y: int)
    requires (a, b) in r && (b, a) in r && (x, y) != (a, b) && (x, y) != (b, a)
    ensures Res(r[(a, b) := r[(a, b)] - f][(b, a) := r[(b, a)] + f], x, y) == Res(r, x, y)
  {
  }

  /** Every pair of `ChainPairs(p, j)` is a pair of the chain after `j`, one way or the other. */
  lemma {:induction false} ChainPairsAt(p: seq<int>, j: nat, q: (int, int)) returns (i: int)
    requires j <= |p| && q in ChainPairs(p, j)
    ensures j < i < |p| && (q == (p[i - 1], p[i]) || q == (p[i], p[i - 1]))
    decreases |p| - j
  {
    if q == (p[j], p[j + 1]) || q == (p[j + 1], p[j]) {
      i := j + 1;
    } else {
      i := ChainPairsAt(p, j + 1, q);
    }
  }

  /** Both directions of each pair of the chain after `j` are in `ChainPairs(p, j)`. */
  lemma {:induction false} ChainPairsHas(p: seq<int>, j: nat, i: int)
    requires j < i < |p|
    ensures (p[i - 1], p[i]) in ChainPairs(p, j) && (p[i], p[i - 1]) in ChainPairs(p, j)
    decreases |p| - j
  {
    if i > j + 1 {
      ChainPairsHas(p, j + 1, i);
    }
  }

  /** Among the pairs leaving the source, a push changes only the first pair of the chain. */
  lemma PushAtSource(r: Residual, r': Residual, p: seq<int>, f: int)
    requires Distinct(p) && |p| >= 2 && Pushed(r, r', p, 0, f)
    ensures Res(r', p[0], p[1]) == Res(r, p[0], p[1]) - f
    ensures forall v :: v != p[1] ==> Res(r', p[0], v) == Res(r, p[0], v)
  {
    assert PushedForward(r, r', p, 0, f);
    Untouched(p, 1);
    forall v | v != p[1] ensures Res(r', p[0], v) == Res(r, p[0], v) {
      if (p[0], v) in ChainPairs(p, 0) {
        var i := ChainPairsAt(p, 0, (p[0], v));
        assert false;
      }
    }
  }

  /** A push keeps `Res(u, v) + Res(v, u)` for every pair of hubs. */
  lemma PushKeepsPairSums(r: Residual, r': Residual, p: seq<int>, f: int)
    requires Pushed(r, r', p, 0, f)
    ensures forall u, v :: Res(r', u, v) + Res(r', v, u) == Res(r, u, v) + Res(r, v, u)
  {
    assert PushedForward(r, r', p, 0, f) && PushedBackward(r, r', p, 0, f);
    forall u, v ensures Res(r', u, v) + Res(r', v, u) == Res(r, u, v) + Res(r, v, u) {
      if (u, v) in ChainPairs(p, 0) {
        var i := ChainPairsAt(p, 0, (u, v));
        if (u, v) == (p[i - 1], p[i]) {
          assert Res(r', u, v) == Res(r, u, v) - f && Res(r', v, u) == Res(r, v, u) + f;
        } else {
          assert Res(r', u, v) == Res(r, u, v) + f && Res(r', v, u) == Res(r, v, u) - f;
        }
      } else if (v, u) in ChainPairs(p, 0) {
        var i := ChainPairsAt(p, 0, (v, u));
        ChainPairsHas(p, 0, i);
        assert false;
      }
    }
  }

  /** A push of no more than the least residual on the chain keeps every residual non-negative. */
  lemma PushKeepsNonNegative(r: Residual, r': Residual, p: seq<int>, f: int)
    requires Pushed(r, r', p, 0, f) && NonNegative(r) && f >= 0
    requires forall i :: 0 < i < |p| ==> f <= Res(r, p[i - 1], p[i])
    ensures NonNegative(r')
  {
    assert PushedForward(r, r', p, 0, f) && PushedBackward(r, r', p, 0, f);
    forall q | q in r' ensures r'[q] >= 0 {
      if q in ChainPairs(p, 0) {
        var i := ChainPairsAt(p, 0, q);
        if q == (p[i - 1], p[i]) {
          assert Res(r', p[i - 1], p[i]) == Res(r, p[i - 1], p[i]) - f;
        } else {
          assert Res(r', p[i], p[i - 1]) == Res(r, p[i], p[i - 1]) + f;
        }
      }
    }
  }

  /** `Pos(x)`: `x` when positive, 0 otherwise. */
  function Pos(x: int): (y: nat)
    ensures y >= x && (x >= 0 ==> y == x)
  {
    if x > 0 then x else 0
  }

  /** The residuals of the pairs from `s` to the hubs `ids`, summed. */
  function OutSum(r: Residual, s: int, ids: seq<int>): int
  {
    if ids == [] then 0 else OutSum(r, s, ids[..|ids| - 1]) + Res(r, s, ids[|ids| - 1])
  }

  /** The positive residuals of the pairs from `s` to the hubs `ids`, summed. */
  function Slack(r: Residual, s: int, ids: seq<int>): nat
  {
    if ids == [] then 0 else Slack(r, s, ids[..|ids| - 1]) + Pos(Res(r, s, ids[|ids| - 1]))
  }

  /** The initial residuals (capacities) of the pairs from `s` to the hubs `ids`, summed. */
  function CapSum(ks: seq<EdgeKey>, s: int, ids: seq<int>): int
    requires FiniteKeys(ks)
  {
    if ids == [] then 0 else CapSum(ks, s, ids[..|ids| - 1]) + Cap(ks, s, ids[|ids| - 1])
  }

  /**
   * Changing the pair `(s, b)` only, by taking `f` off it, takes `f` off the
   * sums over a list of distinct hubs holding `b` (off the slack too when the
   * pair keeps a non-negative residual).
   */
  lemma {:induction false} SumsChangeOne(r: Residual, r': Residual, s: int, ids: seq<int>, b: int, f: int)
    requires Distinct(ids) && Res(r', s, b) == Res(r, s, b) - f
    requires forall v :: v in ids && v != b ==> Res(r', s, v) == Res(r, s, v)
    ensures OutSum(r', s, ids) == OutSum(r, s, ids) - (if b in ids then f else 0)
    ensures Res(r, s, b) >= f >= 0 ==> Slack(r', s, ids) == Slack(r, s, ids) - (if b in ids then f else 0)
  {
    if ids != [] {
      var n := |ids| - 1;
      var front := ids[..n];
      assert Distinct(front) by {
        forall a, c | 0 <= a < c < |front| ensures front[a] != front[c] {
          assert front[a] == ids[a] && front[c] == ids[c];
        }
      }
      forall v | v in front && v != b ensures Res(r', s, v) == Res(r, s, v) {
        assert v in ids;
      }
      SumsChangeOne(r, r', s, front, b, f);
      assert b in ids <==> b in front || ids[n] == b by {
        assert ids == front + [ids[n]];
      }
      if ids[n] == b {
        assert b !in front by {
          forall k | 0 <= k < n ensures front[k] != b {
            assert front[k] == ids[k];
          }
        }
      }
    }
  }

  /** Sums over non-negative residuals are non-negative. */
  lemma {:induction false} OutSumNonNegative(r: Residual, s: int, ids: seq<int>)
    requires NonNegative(r)
    ensures OutSum(r, s, ids) >= 0
  {
    if ids != [] {
      OutSumNonNegative(r, s, ids[..|ids| - 1]);
    }
  }

  /** The residual of every pair starts at the capacity of the last edge in that direction. */
  lemma InitialRes(ks: seq<EdgeKey>, r: Residual)
    requires FiniteKeys(ks) && InitialResidualOf(ks, r)
    ensures forall u, v :: Res(r, u, v) == Cap(ks, u, v)
  {
    forall u, v ensures Res(r, u, v) == Cap(ks, u, v) {
      if (u, v) !in r {
        assert !Joins(ks, u, v);
      }
    }
  }

  /** So the residuals out of `s` start summing to the capacities out of `s`. */
  lemma {:induction false} InitialOutSum(ks: seq<EdgeKey>, r: Residual, s: int, ids: seq<int>)
    requires FiniteKeys(ks) && forall v :: Res(r, s, v) == Cap(ks, s, v)
    ensures OutSum(r, s, ids) == CapSum(ks, s, ids)
  {
    if ids != [] {
      InitialOutSum(ks, r, s, ids[..|ids| - 1]);
    }
  }

  /** A recorded direction belongs to some edge with those endpoints, whose capacity it carries. */
  lemma {:induction false} LastCapacityFound(ks: seq<EdgeKey>, u: int, v: int) returns (i: int)
    requires FiniteKeys(ks) && LastCapacity(ks, u, v).Some?
    ensures 0 <= i < |ks| && ks[i].src == u && ks[i].tgt == v
    ensures LastCapacity(ks, u, v) == Some(ks[i].capacity.n)
  {
    var n := |ks| - 1;
    if ks[n].src == u && ks[n].tgt == v {
      i := n;
    } else {
      i := LastCapacityFound(ks[..n], u, v);
    }
  }

  /** The initial residual map only joins hubs of the graph and has both directions of each pair. */
  lemma InitialShape(g: Graph, r: Residual)
    requires g.Valid() && FiniteKeys(Keys(g.GetAllEdges())) && InitialResidualOf(Keys(g.GetAllEdges()), r)
    ensures OnNodes(g, r) && Symmetric(r)
  {
    var es := g.GetAllEdges();
    var ks := Keys(es);
    forall q | q in r ensures q.0 in g.nodes && q.1 in g.nodes {
      var i;
      if LastCapacity(ks, q.0, q.1).Some? {
        i := LastCapacityFound(ks, q.0, q.1);
      } else {
        i := LastCapacityFound(ks, q.1, q.0);
      }
      assert ks[i] == Key(es[i]) && es[i] in es;
      InAllEdges(g, es[i]);
    }
  }

  /** Edges whose capacities are all non-negative. */
  predicate NonNegativeCaps(ks: seq<EdgeKey>)
    requires FiniteKeys(ks)
  {
    forall k :: 0 <= k < |ks| ==> ks[k].capacity.n >= 0
  }

  /** With non-negative capacities the initial residuals are non-negative. */
  lemma InitialNonNegative(ks: seq<EdgeKey>, r: Residual)
    requires FiniteKeys(ks) && InitialResidualOf(ks, r) && NonNegativeCaps(ks)
    ensures NonNegative(r)
  {
    forall q | q in r ensures r[q] >= 0 {
      if LastCapacity(ks, q.0, q.1).Some? {
        var i := LastCapacityFound(ks, q.0, q.1);
      }
    }
  }

  /** What one augmentation does to the sums out of the source, to the pair sums and to the signs. */
  lemma RoundFacts(g: Graph, r: Residual, r': Residual, p: seq<int>, f: int)
    requires g.Valid() && OnNodes(g, r) && |p| >= 2 && Distinct(p) && Open(r, p[0], p[1])
    requires Pushed(r, r', p, 0, f) && f > 0
    requires forall i :: 0 < i < |p| ==> f <= Res(r, p[i - 1], p[i])
    ensures OutSum(r', p[0], g.ids) == OutSum(r, p[0], g.ids) - f
    ensures Slack(r', p[0], g.ids) == Slack(r, p[0], g.ids) - f
    ensures forall u, v :: Res(r', u, v) + Res(r', v, u) == Res(r, u, v) + Res(r, v, u)
    ensures NonNegative(r) ==> NonNegative(r')
  {
    PushAtSource(r, r', p, f);
    IdsFacts(g);
    assert p[1] in g.ids && f <= Res(r, p[0], p[1]);
    SumsChangeOne(r, r', p[0], g.ids, p[1], f);
    PushKeepsPairSums(r, r', p, f);
    if NonNegative(r) {
      PushKeepsNonNegative(r, r', p, f);
    }
  }

  /**
   * Changing two pairs out of `x` only, one down by `f` and the other up by
   * `f`, keeps the sum over a list of distinct hubs that holds both.
   */
  lemma SumsChangeTwo(r: Residual, r': Residual, x: int, ids: seq<int>, a: int, b: int, f: int)
    requires Distinct(ids) && a != b && a in ids && b in ids
    requires Res(r', x, a) == Res(r, x, a) + f && Res(r', x, b) == Res(r, x, b) - f
    requires forall v :: v in ids && v != a && v != b ==> Res(r', x, v) == Res(r, x, v)
    ensures OutSum(r', x, ids) == OutSum(r, x, ids)
  {
    var mid := r[(x, b) := Res(r, x, b) - f];
    SumsChangeOne(r, mid, x, ids, b, f);
    SumsChangeOne(mid, r', x, ids, a, -f);
  }

  /** A push changes no pair out of a hub off the chain. */
  lemma OffChainPush(r: Residual, r': Residual, p: seq<int>, x: int, f: int)
    requires Pushed(r, r', p, 0, f) && x !in p
    ensures forall v :: Res(r', x, v) == Res(r, x, v)
  {
    assert p[0..] == p;
    forall v ensures Res(r', x, v) == Res(r, x, v) {
      assert (x, v) !in ChainPairs(p, 0);
    }
  }

  /**
   * Out of an inner hub of the chain, a push takes `f` off the pair to the
   * next hub, gives `f` to the pair to the previous hub and leaves the other
   * pairs as they are.
   */
  lemma InnerPush(r: Residual, r': Residual, p: seq<int>, i: int, f: int)
    requires Distinct(p) && 0 < i < |p| - 1 && Pushed(r, r', p, 0, f)
    ensures Res(r', p[i], p[i + 1]) == Res(r, p[i], p[i + 1]) - f
    ensures Res(r', p[i], p[i - 1]) == Res(r, p[i], p[i - 1]) + f
    ensures forall v :: v != p[i - 1] && v != p[i + 1] ==> Res(r', p[i], v) == Res(r, p[i], v)
  {
    assert PushedForward(r, r', p, 0, f) && PushedBackward(r, r', p, 0, f);
    assert Res(r', p[i + 1 - 1], p[i + 1]) == Res(r, p[i + 1 - 1], p[i + 1]) - f;
    forall v | v != p[i - 1] && v != p[i + 1] ensures Res(r', p[i], v) == Res(r, p[i], v) {
      if (p[i], v) in ChainPairs(p, 0) {
        var k := ChainPairsAt(p, 0, (p[i], v));
        if (p[i], v) == (p[k - 1], p[k]) {
          assert k - 1 == i;
        } else {
          assert k == i;
        }
      }
    }
  }

  /**
   * Flow conservation: a push along a chain without repeats keeps the sum of
   * the residuals out of every hub other than the two ends of the chain.
   */
  lemma PushConserves(g: Graph, r: Residual, r': Residual, p: seq<int>, f: int)
    requires g.Valid() && OnNodes(g, r) && |p| >= 2 && Distinct(p) && Pushed(r, r', p, 0, f)
    requires forall i :: 0 < i < |p| ==> Open(r, p[i - 1], p[i])
    ensures forall x :: x != p[0] && x != p[|p| - 1] ==> OutSum(r', x, g.ids) == OutSum(r, x, g.ids)
  {
    IdsFacts(g);
    forall x | x != p[0] && x != p[|p| - 1] ensures OutSum(r', x, g.ids) == OutSum(r, x, g.ids) {
      if x in p {
        var i :| 0 <= i < |p| && p[i] == x;
        assert 0 < i < |p| - 1;
        InnerPush(r, r', p, i, f);
        assert Open(r, p[i - 1], p[i]) && Open(r, p[i + 1 - 1], p[i + 1]);
        SumsChangeTwo(r, r', x, g.ids, p[i - 1], p[i + 1], f);
      } else {
        OffChainPush(r, r', p, x, f);
        SumsChangeOne(r, r', x, g.ids, x, 0);
      }
    }
  }

  /**
   * One round of the outer loop of lines 31-58: a breadth-first search for a
   * chain of positive residuals to the sink; when there is none the residuals
   * stay as they are, otherwise the least residual of the chain (positive) is
   * pushed along it. The residuals out of the source then sum to that much
   * less, those out of every other hub but the sink sum as before, and the
   * sum of the two directions of every pair is kept.
   */
  method Round(g: Graph, sourceId: int, sinkId: int, r: Residual) returns (found: bool, pathFlow: int, r': Residual)
    requires g.Valid() && OnNodes(g, r) && Symmetric(r) && sourceId in g.nodes && sinkId != sourceId
    ensures !found ==> r' == r && !Reachable(r, sourceId, sinkId)
    ensures found ==> pathFlow > 0 && r'.Keys == r.Keys
    ensures found ==> OutSum(r', sourceId, g.ids) == OutSum(r, sourceId, g.ids) - pathFlow
    ensures found ==> Slack(r', sourceId, g.ids) == Slack(r, sourceId, g.ids) - pathFlow
    ensures found ==> forall u, v :: Res(r', u, v) + Res(r', v, u) == Res(r, u, v) + Res(r, v, u)
    ensures found ==> forall x :: x != sourceId && x != sinkId ==> OutSum(r', x, g.ids) == OutSum(r, x, g.ids)
    ensures found && NonNegative(r) ==> NonNegative(r')
  {
    var parent: Option<map<int, int>>;
    ghost var level: map<int, nat>;
    parent, level := Bfs(g, sourceId, sinkId, r);
    if parent.None? {
      found, pathFlow, r' := false, 0, r;
      return;
    }
    ghost var p := ChainTo(parent.value, level, sinkId);
    ChainIsTreePath(r, sourceId, parent.value, level, sinkId);
    var flow := PathFlow(r, sourceId, sinkId, parent.value, p);
    r' := Augment(r, sourceId, sinkId, parent.value, p, flow.n);
    found, pathFlow := true, flow.n;
    assert |p| >= 2 && Open(r, p[0], p[1]);
    RoundFacts(g, r, r', p, pathFlow);
    PushConserves(g, r, r', p, pathFlow);
  }

  /**
   * The edges of `es`, in order, that leave the hubs residual-reachable from
   * `s` for a hub that is not.
   */
  ghost function CutOf(es: seq<Edge>, r: Residual, s: int): seq<Edge>
  {
    if es == [] then []
    else
      var e := es[|es| - 1];
      CutOf(es[..|es| - 1], r, s) + (if Reachable(r, s, e.Src()) && !Reachable(r, s, e.Tgt()) then [e] else [])
  }

  lemma {:induction false} CutOfMembers(es: seq<Edge>, r: Residual, s: int, e: Edge)
    ensures e in CutOf(es, r, s) <==> e in es && Reachable(r, s, e.Src()) && !Reachable(r, s, e.Tgt())
  {
    if es != [] {
      var n := |es| - 1;
      CutOfMembers(es[..n], r, s, e);
      assert es == es[..n] + [es[n]];
    }
  }

  /** The loop of lines 64-71 over the edges, keeping those that cross out of `reachable`. */
  method CollectCut(edges: seq<Edge>, ghost r: Residual, s: int, reachable: set<int>) returns (cut: seq<Edge>)
    requires forall v :: v in reachable <==> Reachable(r, s, v)
    ensures cut == CutOf(edges, r, s)
  {
    cut := [];
    var i := 0;
    while i < |edges|
      invariant 0 <= i <= |edges|
      invariant cut == CutOf(edges[..i], r, s)
    {
      var edge := edges[i];
      assert edges[..i + 1][..i] == edges[..i];
      if edge.Src() in reachable && edge.Tgt() !in reachable {
        cut := cut + [edge];
      }
      i := i + 1;
    }
    assert edges[..i] == edges;
  }

  /**
   * The hubs of `vs`, in order, that are in `c` (when `inside` holds) or
   * that are not (otherwise).
   */
  function Side(vs: seq<int>, c: set<int>, inside: bool): seq<int>
  {
    if vs == [] then []
    else Side(vs[..|vs| - 1], c, inside) + (if (vs[|vs| - 1] in c) == inside then [vs[|vs| - 1]] else [])
  }

  lemma {:induction false} SideFacts(vs: seq<int>, c: set<int>, inside: bool)
    ensures forall v :: v in Side(vs, c, inside) <==> v in vs && (v in c) == inside
    ensures Distinct(vs) ==> Distinct(Side(vs, c, inside))
  {
    if vs != [] {
      var n := |vs| - 1;
      var front, w := vs[..n], Side(vs[..n], c, inside);
      SideFacts(front, c, inside);
      assert vs == front + [vs[n]];
      if Distinct(vs) && (vs[n] in c) == inside {
        DistinctFront(vs);
        assert Side(vs, c, inside) == w + [vs[n]];
        forall i, j | 0 <= i < j < |w| + 1 ensures (w + [vs[n]])[i] != (w + [vs[n]])[j] {
          if j == |w| {
            assert (w + [vs[n]])[i] == w[i] && w[i] in w;
          } else {
            assert (w + [vs[n]])[i] == w[i] && (w + [vs[n]])[j] == w[j];
          }
        }
      }
    }
  }

  /** A sum out of `x` over a list and one more hub. */
  lemma OutSumSnoc(r: Residual, x: int, w: seq<int>, v: int)
    ensures OutSum(r, x, w + [v]) == OutSum(r, x, w) + Res(r, x, v)
  {
    assert (w + [v])[..|w|] == w;
  }

  /** Sums over pairs with zero residual are zero. */
  lemma {:induction false} OutSumZero(r: Residual, x: int, vs: seq<int>)
    requires forall v :: v in vs ==> Res(r, x, v) == 0
    ensures OutSum(r, x, vs) == 0
  {
    if vs != [] {
      var n := |vs| - 1;
      assert forall v :: v in vs[..n] ==> v in vs;
      OutSumZero(r, x, vs[..n]);
    }
  }

  /** The sum out of `x` splits into the part into `c` and the part outside it. */
  lemma {:induction false} OutSumSplit(r: Residual, x: int, vs: seq<int>, c: set<int>)
    ensures OutSum(r, x, vs) == OutSum(r, x, Side(vs, c, true)) + OutSum(r, x, Side(vs, c, false))
  {
    if vs != [] {
      var n := |vs| - 1;
      var into := vs[n] in c;
      OutSumSplit(r, x, vs[..n], c);
      assert Side(vs, c, into) == Side(vs[..n], c, into) + [vs[n]];
      assert Side(vs, c, !into) == Side(vs[..n], c, !into);
      OutSumSnoc(r, x, Side(vs[..n], c, into), vs[n]);
    }
  }

  /** The residuals of the pairs from each hub of `xs` to each hub of `vs`, summed. */
  function BlockSum(r: Residual, xs: seq<int>, vs: seq<int>): int
  {
    if xs == [] then 0 else BlockSum(r, xs[..|xs| - 1], vs) + OutSum(r, xs[|xs| - 1], vs)
  }

  /** The residuals of the pairs from each hub of `xs` to `v`, summed. */
  function InSum(r: Residual, xs: seq<int>, v: int): int
  {
    if xs == [] then 0 else InSum(r, xs[..|xs| - 1], v) + Res(r, xs[|xs| - 1], v)
  }

  /** A block sum splits into the part into `c` and the part outside it. */
  lemma {:induction false} BlockSplit(r: Residual, xs: seq<int>, vs: seq<int>, c: set<int>)
    ensures BlockSum(r, xs, vs) == BlockSum(r, xs, Side(vs, c, true)) + BlockSum(r, xs, Side(vs, c, false))
  {
    if xs != [] {
      var n := |xs| - 1;
      BlockSplit(r, xs[..n], vs, c);
      OutSumSplit(r, xs[n], vs, c);
    }
  }

  /** One more target hub `y` adds the residuals into `y`. */
  lemma {:induction false} BlockSnocTarget(r: Residual, xs: seq<int>, vs: seq<int>, y: int)
    ensures BlockSum(r, xs, vs + [y]) == BlockSum(r, xs, vs) + InSum(r, xs, y)
  {
    if xs != [] {
      var n := |xs| - 1;
      BlockSnocTarget(r, xs[..n], vs, y);
      OutSumSnoc(r, xs[n], vs, y);
    }
  }

  /** The residuals into `y` and out of `y` over `xs`, together, depend only on the pair sums. */
  lemma {:induction false} CrossSumsAgree(a: Residual, b: Residual, xs: seq<int>, y: int)
    requires forall u, v :: Res(a, u, v) + Res(a, v, u) == Res(b, u, v) + Res(b, v, u)
    ensures InSum(a, xs, y) + OutSum(a, y, xs) == InSum(b, xs, y) + OutSum(b, y, xs)
  {
    if xs != [] {
      var n := |xs| - 1;
      CrossSumsAgree(a, b, xs[..n], y);
      assert Res(a, xs[n], y) + Res(a, y, xs[n]) == Res(b, xs[n], y) + Res(b, y, xs[n]);
    }
  }

  /**
   * The residuals among the hubs of `xs`, summed, depend only on the pair
   * sums: each pair inside counts in both directions.
   */
  lemma {:induction false} BlockAgrees(a: Residual, b: Residual, xs: seq<int>)
    requires forall u, v :: Res(a, u, v) + Res(a, v, u) == Res(b, u, v) + Res(b, v, u)
    ensures BlockSum(a, xs, xs) == BlockSum(b, xs, xs)
  {
    if xs != [] {
      var n := |xs| - 1;
      var front, y := xs[..n], xs[n];
      assert xs == front + [y];
      BlockAgrees(a, b, front);
      BlockSnocTarget(a, front, front, y);
      BlockSnocTarget(b, front, front, y);
      CrossSumsAgree(a, b, front, y);
      OutSumSnoc(a, y, front, y);
      OutSumSnoc(b, y, front, y);
      assert Res(a, y, y) + Res(a, y, y) == Res(b, y, y) + Res(b, y, y);
    }
  }

  /** Block sums over pairs with zero residual are zero. */
  lemma {:induction false} BlockZero(r: Residual, xs: seq<int>, vs: seq<int>)
    requires forall x, v :: x in xs && v in vs ==> Res(r, x, v) == 0
    ensures BlockSum(r, xs, vs) == 0
  {
    if xs != [] {
      var n := |xs| - 1;
      assert forall x :: x in xs[..n] ==> x in xs;
      BlockZero(r, xs[..n], vs);
      OutSumZero(r, xs[n], vs);
    }
  }

  /** Over distinct hubs whose sums out agree except at `s`, two block sums differ by the row of `s`. */
  lemma {:induction false} BlockDiffAt(a: Residual, b: Residual, xs: seq<int>, vs: seq<int>, s: int)
    requires Distinct(xs)
    requires forall x :: x in xs && x != s ==> OutSum(a, x, vs) == OutSum(b, x, vs)
    ensures BlockSum(a, xs, vs) - BlockSum(b, xs, vs) == if s in xs then OutSum(a, s, vs) - OutSum(b, s, vs) else 0
  {
    if xs != [] {
      var n := |xs| - 1;
      DistinctFront(xs);
      assert forall x :: x in xs[..n] ==> x in xs;
      BlockDiffAt(a, b, xs[..n], vs, s);
      assert xs == xs[..n] + [xs[n]];
    }
  }

  /** Changing the pair `(a, b)` only, by adding `f`, adds `f` to block sums over distinct lists holding `a` and `b`. */
  lemma {:induction false} BlockChangeOne(m: Residual, m': Residual, xs: seq<int>, vs: seq<int>, a: int, b: int, f: int)
    requires Distinct(xs) && Distinct(vs) && Res(m', a, b) == Res(m, a, b) + f
    requires forall u, v :: (u, v) != (a, b) ==> Res(m', u, v) == Res(m, u, v)
    ensures BlockSum(m', xs, vs) == BlockSum(m, xs, vs) + (if a in xs && b in vs then f else 0)
  {
    if xs != [] {
      var n := |xs| - 1;
      DistinctFront(xs);
      BlockChangeOne(m, m', xs[..n], vs, a, b, f);
      assert xs == xs[..n] + [xs[n]];
      if xs[n] == a {
        SumsChangeOne(m, m', a, vs, b, -f);
      } else {
        SumsChangeOne(m, m', xs[n], vs, b, 0);
      }
    }
  }

  /** The map holding, for each pair joined by an edge, the capacity of the last such edge. */
  function CapMap(ks: seq<EdgeKey>): Residual
    requires FiniteKeys(ks)
  {
    if ks == [] then map[]
    else
      var k := ks[|ks| - 1];
      CapMap(ks[..|ks| - 1])[(k.src, k.tgt) := k.capacity.n]
  }

  lemma {:induction false} CapMapRes(ks: seq<EdgeKey>)
    requires FiniteKeys(ks)
    ensures forall u, v :: Res(CapMap(ks), u, v) == Cap(ks, u, v)
  {
    if ks != [] {
      var n := |ks| - 1;
      var front, k := ks[..n], ks[n];
      assert FiniteKeys(front) by {
        forall i | 0 <= i < n ensures front[i].capacity.Finite? {
          assert front[i] == ks[i];
        }
      }
      CapMapRes(front);
      forall u, v ensures Res(CapMap(ks), u, v) == Cap(ks, u, v) {
        if (u, v) != (k.src, k.tgt) {
          assert Res(CapMap(ks), u, v) == Res(CapMap(front), u, v);
          assert LastCapacity(ks, u, v) == LastCapacity(front, u, v);
        }
      }
    }
  }

  /**
   * Without parallel edges, the last edge adds its capacity to the entry of
   * its own pair, which no earlier edge has, and changes no other entry.
   */
  lemma CapMapLast(ks: seq<EdgeKey>)
    requires FiniteKeys(ks) && NoParallel(ks) && ks != []
    ensures var n := |ks| - 1; FiniteKeys(ks[..n])
    ensures var n, k := |ks| - 1, ks[|ks| - 1];
      Res(CapMap(ks), k.src, k.tgt) == Res(CapMap(ks[..n]), k.src, k.tgt) + k.capacity.n
    ensures var n, k := |ks| - 1, ks[|ks| - 1];
      forall u, v :: (u, v) != (k.src, k.tgt) ==> Res(CapMap(ks), u, v) == Res(CapMap(ks[..n]), u, v)
  {
    var n, k := |ks| - 1, ks[|ks| - 1];
    var front := ks[..n];
    assert FiniteKeys(front) by {
      forall i | 0 <= i < n ensures front[i].capacity.Finite? {
        assert front[i] == ks[i];
      }
    }
    CapMapRes(front);
    if LastCapacity(front, k.src, k.tgt).Some? {
      var i := LastCapacityFound(front, k.src, k.tgt);
      assert false;
    }
  }

  /**
   * Max-flow/min-cut on the residuals. Let `c` hold the source and not the
   * sink, with no positive residual leaving `c` and no residual negative;
   * let flow be conserved at every other hub and each pair sum equal the
   * pair's capacities. Then the flow out of the source (its capacities
   * minus its residuals) equals the capacities from the hubs in `c` to the
   * hubs outside it, summed.
   */
  lemma FlowIsCutCapacity(ks: seq<EdgeKey>, r: Residual, ids: seq<int>, s: int, t: int, c: set<int>)
    requires FiniteKeys(ks) && Distinct(ids) && s in ids && s in c && t !in c
    requires forall u, v :: Res(r, u, v) + Res(r, v, u) == Cap(ks, u, v) + Cap(ks, v, u)
    requires forall x :: x != s && x != t ==> OutSum(r, x, ids) == CapSum(ks, x, ids)
    requires NonNegative(r) && Closed(r, c)
    ensures CapSum(ks, s, ids) - OutSum(r, s, ids) == BlockSum(CapMap(ks), Side(ids, c, true), Side(ids, c, false))
  {
    var m := CapMap(ks);
    var inner, outer := Side(ids, c, true), Side(ids, c, false);
    CapMapRes(ks);
    forall x ensures OutSum(m, x, ids) == CapSum(ks, x, ids) {
      InitialOutSum(ks, m, x, ids);
    }
    SideFacts(ids, c, true);
    SideFacts(ids, c, false);
    BlockDiffAt(m, r, inner, ids, s);
    BlockSplit(m, inner, ids, c);
    BlockSplit(r, inner, ids, c);
    BlockAgrees(m, r, inner);
    forall x, v | x in inner && v in outer ensures Res(r, x, v) == 0 {
      assert !Open(r, x, v);
    }
    BlockZero(r, inner, outer);
  }

  /** Residual reachability from `s` is closed under steps of positive residual. */
  lemma ReachableClosed(r: Residual, s: int, c: set<int>)
    requires forall v :: v in c <==> Reachable(r, s, v)
    ensures Closed(r, c)
  {
    forall u, v | u in c && Open(r, u, v) ensures v in c {
      var p :| ResidualPath(r, p, s, u);
      assert ResidualPath(r, p + [v], s, v);
    }
  }

  /** No two edges run from the same hub to the same hub (edges in opposite directions may). */
  predicate NoParallel(ks: seq<EdgeKey>)
  {
    forall i, j :: 0 <= i < j < |ks| ==> ks[i].src != ks[j].src || ks[i].tgt != ks[j].tgt
  }

  /** The finite capacities of the edges `es`, summed. */
  function CapacityOf(es: seq<Edge>): int
  {
    if es == [] then 0
    else
      var e := es[|es| - 1];
      CapacityOf(es[..|es| - 1]) + (if e.capacity.Finite? then e.capacity.n else 0)
  }

  lemma CapacityOfSnoc(es: seq<Edge>, e: Edge)
    ensures CapacityOf(es + [e]) == CapacityOf(es) + (if e.capacity.Finite? then e.capacity.n else 0)
  {
    assert (es + [e])[..|es|] == es;
  }

  /**
   * Without parallel edges, the capacities of the edges of `es` that leave
   * the hubs reachable from `s`, summed, are the capacities from those hubs
   * to the others, summed.
   */
  lemma {:induction false} CutCapacityIsBlock(es: seq<Edge>, r: Residual, s: int, ids: seq<int>, c: set<int>)
    requires FiniteKeys(Keys(es)) && NoParallel(Keys(es)) && Distinct(ids)
    requires forall e :: e in es ==> e.Src() in ids && e.Tgt() in ids
    requires forall v :: v in c <==> Reachable(r, s, v)
    ensures CapacityOf(CutOf(es, r, s)) == BlockSum(CapMap(Keys(es)), Side(ids, c, true), Side(ids, c, false))
  {
    if es != [] {
      var n := |es| - 1;
      var front, e := es[..n], es[n];
      var ks := Keys(es);
      KeysFront(es);
      assert forall x :: x in front ==> x in es;
      CutCapacityIsBlock(front, r, s, ids, c);
      CapMapLast(ks);
      SideFacts(ids, c, true);
      SideFacts(ids, c, false);
      BlockChangeOne(CapMap(ks[..n]), CapMap(ks), Side(ids, c, true), Side(ids, c, false), e.Src(), e.Tgt(), e.capacity.n);
      assert e in es && ks[n] == Key(e);
      var cut, crosses := CutOf(front, r, s), e.Src() in c && e.Tgt() !in c;
      assert e.Src() in Side(ids, c, true) && e.Tgt() in Side(ids, c, false) <==> crosses;
      assert CutOf(es, r, s) == cut + (if crosses then [e] else []);
      if crosses {
        CapacityOfSnoc(cut, e);
      } else {
        assert cut + [] == cut;
      }
    } else {
      BlockZero(CapMap(Keys(es)), Side(ids, c, true), Side(ids, c, false));
    }
  }

  /** The keys of the front of a list are the front of its keys, and keep `NoParallel`. */
  lemma KeysFront(es: seq<Edge>)
    requires es != []
    ensures Keys(es)[..|es| - 1] == Keys(es[..|es| - 1])
    ensures NoParallel(Keys(es)) ==> NoParallel(Keys(es[..|es| - 1]))
    ensures FiniteKeys(Keys(es)) ==> FiniteKeys(Keys(es[..|es| - 1]))
  {
    var ks, kf := Keys(es), Keys(es[..|es| - 1]);
    assert ks[..|es| - 1] == kf;
  }

  /**
   * Max-flow/min-cut for networks without parallel edges: with the final
   * residuals of the loop, the flow equals the summed capacities of the
   * edges leaving the hubs still reachable from the source.
   */
  lemma MaxFlowIsCut(g: Graph, r: Residual, s: int, t: int, reachable: set<int>, maxFlow: int)
    requires g.Valid() && s in g.nodes && FiniteKeys(Keys(g.GetAllEdges())) && NoParallel(Keys(g.GetAllEdges()))
    requires var ks := Keys(g.GetAllEdges());
      && (forall u, v :: Res(r, u, v) + Res(r, v, u) == Cap(ks, u, v) + Cap(ks, v, u))
      && (forall x :: x != s && x != t ==> OutSum(r, x, g.ids) == CapSum(ks, x, g.ids))
      && maxFlow == CapSum(ks, s, g.ids) - OutSum(r, s, g.ids)
    requires NonNegative(r) && !Reachable(r, s, t)
    requires forall v :: v in reachable <==> Reachable(r, s, v)
    ensures maxFlow == CapacityOf(CutOf(g.GetAllEdges(), r, s))
  {
    var es := g.GetAllEdges();
    IdsFacts(g);
    ReachableClosed(r, s, reachable);
    assert ResidualPath(r, [s], s, s);
    FlowIsCutCapacity(Keys(es), r, g.ids, s, t, reachable);
    forall e | e in es ensures e.Src() in g.ids && e.Tgt() in g.ids {
      InAllEdges(g, e);
    }
    CutCapacityIsBlock(es, r, s, g.ids, reachable);
  }

  /**
   * The outer loop of lines 29-58, from the initial residuals `r0` (the
   * capacities `ks`): rounds run until the sink is no longer
   * residual-reachable. Every round pushes a positive amount, which the slack
   * out of the source bounds, so the loop ends. The flow is then what left the
   * source, the residual entries are those of `r0`, both directions of
   * every pair still sum to their capacities, and the residuals out of every
   * hub but the source and the sink still sum to its capacities out (flow is
   * conserved there).
   */
  method Saturate(g: Graph, ghost ks: seq<EdgeKey>, sourceId: int, sinkId: int, r0: Residual)
    returns (r: Residual, maxFlow: int)
    requires g.Valid() && sourceId in g.nodes && sourceId != sinkId && FiniteKeys(ks)
    requires OnNodes(g, r0) && Symmetric(r0) && forall u, v :: Res(r0, u, v) == Cap(ks, u, v)
    ensures r.Keys == r0.Keys && OnNodes(g, r)
    ensures forall u, v :: Res(r, u, v) + Res(r, v, u) == Cap(ks, u, v) + Cap(ks, v, u)
    ensures !Reachable(r, sourceId, sinkId)
    ensures maxFlow == CapSum(ks, sourceId, g.ids) - OutSum(r, sourceId, g.ids) && maxFlow >= 0
    ensures forall x :: x != sourceId && x != sinkId ==> OutSum(r, x, g.ids) == CapSum(ks, x, g.ids)
    ensures NonNegative(r0) ==> NonNegative(r)
  {
    r := r0;
    forall x ensures OutSum(r, x, g.ids) == CapSum(ks, x, g.ids) {
      InitialOutSum(ks, r, x, g.ids);
    }
    maxFlow := 0;
    while true
      invariant OnNodes(g, r) && Symmetric(r) && r.Keys == r0.Keys
      invariant forall u, v :: Res(r, u, v) + Res(r, v, u) == Cap(ks, u, v) + Cap(ks, v, u)
      invariant maxFlow == CapSum(ks, sourceId, g.ids) - OutSum(r, sourceId, g.ids) && maxFlow >= 0
      invariant forall x :: x != sourceId && x != sinkId ==> OutSum(r, x, g.ids) == CapSum(ks, x, g.ids)
      invariant NonNegative(r0) ==> NonNegative(r)
      decreases Slack(r, sourceId, g.ids)
    {
      var found, pathFlow, r' := Round(g, sourceId, sinkId, r);
      if !found {
        break;
      }
      r := r';
      maxFlow := maxFlow + pathFlow;
    }
  }

  /** The residuals built from a clone's edges are those of the original's edges. */
  lemma ClonedResidual(g: Graph, r: Residual)
    requires g.Valid() && FiniteKeys(Keys(g.GetAllEdges()))
    requires Keys(g.Cloned().GetAllEdges()) == Keys(g.GetAllEdges())
    requires InitialResidualOf(Keys(g.Cloned().GetAllEdges()), r)
    ensures g.Cloned().Valid() && g.Cloned().ids == g.ids && g.Cloned().nodes.Keys == g.nodes.Keys
    ensures OnNodes(g.Cloned(), r) && Symmetric(r)
    ensures forall u, v :: Res(r, u, v) == Cap(Keys(g.GetAllEdges()), u, v)
    ensures InitialResidualOf(Keys(g.GetAllEdges()), r)
    ensures NonNegativeCaps(Keys(g.GetAllEdges())) ==> NonNegative(r)
  {
    var ks := Keys(g.GetAllEdges());
    CloneFacts(g);
    InitialShape(g.Cloned(), r);
    InitialRes(ks, r);
    if NonNegativeCaps(ks) {
      InitialNonNegative(ks, r);
    }
  }

  /**
   * `CalculateMaxFlow` (lines 8-74). An absent source or sink gives zero flow
   * and no edges. Otherwise the rounds run on a clone until the sink is no
   * longer residual-reachable; the final residual map has an entry for both
   * directions of every edge, keeps the sum of both directions of every pair,
   * and the flow value is what left the source: its capacities minus its
   * residuals. The flow is never negative and, with non-negative capacities,
   * the residuals stay non-negative and the flow is at most the source's
   * capacity. Flow is conserved at every hub but the source and the sink.
   * The bottleneck edges are the original edges, in order, that leave the
   * residual-reachable hubs; without parallel edges and with non-negative
   * capacities their capacities sum to the flow (max-flow/min-cut).
   */
  method CalculateMaxFlow(graph: LogisticsGraph, sourceId: int, sinkId: int)
    returns (result: MaxFlowResult, ghost residual: Residual)
    requires graph.Valid() && (sourceId != sinkId || !graph.View().ContainsNode(sourceId))
    requires FiniteKeys(Keys(graph.View().GetAllEdges()))
    ensures !graph.View().ContainsNode(sourceId) || !graph.View().ContainsNode(sinkId) ==> result == NoFlow
    ensures var g := graph.View(); var ks := Keys(g.GetAllEdges());
      g.ContainsNode(sourceId) && g.ContainsNode(sinkId) ==>
        && (forall u, v :: (u, v) in residual <==> Joins(ks, u, v))
        && (forall u, v :: Res(residual, u, v) + Res(residual, v, u) == Cap(ks, u, v) + Cap(ks, v, u))
        && !Reachable(residual, sourceId, sinkId)
        && result.maxFlow == CapSum(ks, sourceId, g.ids) - OutSum(residual, sourceId, g.ids)
        && (forall x :: x != sourceId && x != sinkId ==> OutSum(residual, x, g.ids) == CapSum(ks, x, g.ids))
        && result.maxFlow >= 0
        && (NonNegativeCaps(ks) ==> NonNegative(residual) && result.maxFlow <= CapSum(ks, sourceId, g.ids))
        && result.bottleneckEdges == CutOf(g.GetAllEdges(), residual, sourceId)
        && (NoParallel(ks) && NonNegativeCaps(ks) ==> result.maxFlow == CapacityOf(result.bottleneckEdges))
  {
    result := NoFlow;
    residual := map[];
    var g := graph.View();
    if !g.ContainsNode(sourceId) || !g.ContainsNode(sinkId) {
      return;
    }
    var workingGraph := graph.Clone();
    var wg := workingGraph.View();
    ClonedAllEdgeKeys(g);
    ghost var ks := Keys(g.GetAllEdges());
    var r := InitialResidual(wg.GetAllEdges());
    ClonedResidual(g, r);
    var maxFlow;
    r, maxFlow := Saturate(wg, ks, sourceId, sinkId, r);
    residual := r;
    if NonNegativeCaps(ks) {
      OutSumNonNegative(r, sourceId, wg.ids);
    }
    var reachable := GetReachableNodes(wg, sourceId, r);
    var bottleneck := CollectCut(graph.View().GetAllEdges(), r, sourceId, reachable);
    result := MaxFlowResult(maxFlow, bottleneck);
    if NoParallel(ks) && NonNegativeCaps(ks) {
      MaxFlowIsCut(g, r, sourceId, sinkId, reachable, maxFlow);
    }
  }
}
