/**
 * Cheapest route between two hubs (Algorithms/DijkstraAlgorithm.cs).
 *
 * The .NET `PriorityQueue<int, double>` is a multiset of (id, priority)
 * entries; `Dequeue` removes an entry of least priority, ties broken
 * arbitrarily. Distances are exact integers with +inf for "not reached".
 * Costs must not be negative, which the algorithm relies on but does not check.
 */
module DijkstraModel {
  import opened Basics
  import opened NodeModel
  import opened EdgeModel
  import opened GraphModel
  import opened Results

  /** `e` sits in its source's outgoing list. */
  ghost predicate GraphEdge(g: Graph, e: Edge)
  {
    e.Src() in g.adj && e in g.adj[e.Src()]
  }

  /** No edge has a negative cost. */
  ghost predicate NonNegativeCosts(g: Graph)
  {
    forall u, k :: u in g.adj && 0 <= k < |g.adj[u]| ==> g.adj[u][k].cost >= 0
  }

  lemma GraphEdgeCost(g: Graph, e: Edge)
    requires NonNegativeCosts(g) && GraphEdge(g, e)
    ensures e.cost >= 0
  {
    var k :| 0 <= k < |g.adj[e.Src()]| && g.adj[e.Src()][k] == e;
  }

  /** The sum of the costs along `p`. */
  function PathCost(p: seq<Edge>): int
  {
    if p == [] then 0 else PathCost(p[..|p| - 1]) + p[|p| - 1].cost
  }

  /** The hub reached after the first `i` edges of a walk from `s`. */
  function Stop(p: seq<Edge>, s: int, i: int): int
    requires 0 <= i <= |p|
  {
    if i == 0 then s else p[i - 1].Tgt()
  }

  /**
   * `p` is a walk along graph edges from hub `s` to hub `t`: it starts at
   * `s`, ends at `t`, and each edge leaves where the one before it ends.
   */
  ghost predicate IsPath(g: Graph, p: seq<Edge>, s: int, t: int)
  {
    && s in g.nodes && t in g.nodes
    && (forall i :: 0 <= i < |p| ==> GraphEdge(g, p[i]))
    && (forall i {:trigger p[i].Src()} :: 0 <= i < |p| ==> p[i].Src() == Stop(p, s, i))
    && Stop(p, s, |p|) == t
  }

  /** `path.Reverse()` */
  function Reversed(p: seq<Edge>): (r: seq<Edge>)
    ensures |r| == |p|
    ensures forall i :: 0 <= i < |p| ==> r[i] == p[|p| - 1 - i]
  {
    if p == [] then [] else [p[|p| - 1]] + Reversed(p[..|p| - 1])
  }

  lemma {:induction false} PathCostCons(e: Edge, p: seq<Edge>)
    ensures PathCost([e] + p) == e.cost + PathCost(p)
  {
    if p != [] {
      assert ([e] + p)[..|p|] == [e] + p[..|p| - 1];
      PathCostCons(e, p[..|p| - 1]);
    } else {
      assert ([e] + p)[..0] == [];
    }
  }

  /** Reversing a walk does not change its cost. */
  lemma {:induction false} ReversedCost(p: seq<Edge>)
    ensures PathCost(Reversed(p)) == PathCost(p)
  {
    if p != [] {
      ReversedCost(p[..|p| - 1]);
      PathCostCons(p[|p| - 1], Reversed(p[..|p| - 1]));
    }
  }

  /** A graph edge into the start of a walk extends it at the front. */
  lemma PathCons(g: Graph, e: Edge, p: seq<Edge>, u: int, t: int)
    requires IsPath(g, p, u, t) && GraphEdge(g, e) && e.Tgt() == u && e.Src() in g.nodes
    ensures IsPath(g, [e] + p, e.Src(), t)
  {
    var q := [e] + p;
    forall i | 0 <= i < |q| ensures q[i].Src() == Stop(q, e.Src(), i) {
      if i > 0 {
        assert q[i] == p[i - 1];
      }
    }
  }

  /** A prefix of a walk costs no more than the walk when no cost is negative. */
  lemma {:induction false} PathCostPrefix(g: Graph, p: seq<Edge>, i: int)
    requires NonNegativeCosts(g) && 0 <= i <= |p|
    requires forall k :: 0 <= k < |p| ==> GraphEdge(g, p[k])
    ensures PathCost(p[..i]) <= PathCost(p)
    decreases |p| - i
  {
    if i < |p| {
      var q := p[..i + 1];
      assert q[..i] == p[..i];
      GraphEdgeCost(g, p[i]);
      PathCostPrefix(g, p, i + 1);
    } else {
      assert p[..i] == p;
    }
  }

  /** The locals of the search loop: `distances`, `predecessors`, `visited` and the queue. */
  datatype Search = Search(distances: map<int, ExtInt>, predecessors: map<int, Option<Edge>>,
                           visited: set<int>, pq: multiset<(int, int)>)

  /** Every hub has a distance and a predecessor entry; visited ids are hubs. */
  ghost predicate Labelled(g: Graph, st: Search)
  {
    st.distances.Keys == g.nodes.Keys && st.predecessors.Keys == g.nodes.Keys && st.visited <= g.nodes.Keys
  }

  /** The source keeps distance 0 and no predecessor. */
  ghost predicate SourceFixed(s: int, dist: map<int, ExtInt>, pred: map<int, Option<Edge>>)
  {
    s in dist && dist[s] == Finite(0) && s in pred && pred[s] == None
  }

  /** The finite distance of `v`. */
  function Dist(dist: map<int, ExtInt>, v: int): int
  {
    if v in dist && dist[v].Finite? then dist[v].n else 0
  }

  /** `v` has been reached: it has a finite distance. */
  ghost predicate Reached(dist: map<int, ExtInt>, v: int)
  {
    v in dist && dist[v].Finite?
  }

  ghost predicate NonNegative(dist: map<int, ExtInt>)
  {
    forall v :: Reached(dist, v) ==> Dist(dist, v) >= 0
  }

  /** Queue entries name reached hubs, with a priority no smaller than their distance. */
  ghost predicate Queued(dist: map<int, ExtInt>, pq: multiset<(int, int)>)
  {
    forall e :: e in pq ==> Reached(dist, e.0) && Dist(dist, e.0) <= e.1
  }

  /** A reached hub that is not yet visited is queued with its current distance. */
  ghost predicate Pending(dist: map<int, ExtInt>, visited: set<int>, pq: multiset<(int, int)>)
  {
    forall v :: Reached(dist, v) && v !in visited ==> (v, Dist(dist, v)) in pq
  }

  /** Visited hubs are reached. */
  ghost predicate VisitedReached(dist: map<int, ExtInt>, visited: set<int>)
  {
    forall v :: v in visited ==> Reached(dist, v)
  }

  /** Visited hubs are no farther than any queued priority. */
  ghost predicate Settled(dist: map<int, ExtInt>, visited: set<int>, pq: multiset<(int, int)>)
  {
    forall v, e :: v in visited && e in pq ==> Dist(dist, v) <= e.1
  }

  /** Visit ranks: each visited hub got a rank below `n` when it was visited. */
  ghost predicate Ranked(visited: set<int>, rank: map<int, nat>, n: nat)
  {
    forall v :: v in visited ==> v in rank && rank[v] < n
  }

  /**
   * The predecessor edge of `v`: a graph edge into `v` from a visited hub,
   * whose cost closes the gap between the two distances; when `v` is
   * visited too, its predecessor was visited first.
   */
  ghost predicate TreeEdge(g: Graph, dist: map<int, ExtInt>, visited: set<int>, rank: map<int, nat>, v: int, e: Edge)
  {
    && e.Tgt() == v && GraphEdge(g, e)
    && e.Src() in visited && Reached(dist, v) && Reached(dist, e.Src())
    && Dist(dist, v) == Dist(dist, e.Src()) + e.cost
    && (v in visited ==> e.Src() in rank && v in rank && rank[e.Src()] < rank[v])
  }

  ghost predicate Tree(g: Graph, dist: map<int, ExtInt>, pred: map<int, Option<Edge>>, visited: set<int>,
                       rank: map<int, nat>)
  {
    forall v :: v in pred && pred[v].Some? ==> TreeEdge(g, dist, visited, rank, v, pred[v].value)
  }

  /** Every reached hub other than the source has a predecessor. */
  ghost predicate Linked(s: int, dist: map<int, ExtInt>, pred: map<int, Option<Edge>>)
  {
    forall v :: Reached(dist, v) && v != s ==> v in pred && pred[v].Some?
  }

  /** The relaxation condition for one edge: its target is no farther than its source plus its cost. */
  ghost predicate EdgeRelaxed(dist: map<int, ExtInt>, e: Edge)
  {
    Reached(dist, e.Src()) && Reached(dist, e.Tgt()) && Dist(dist, e.Tgt()) <= Dist(dist, e.Src()) + e.cost
  }

  /** Every outgoing edge of every hub in `done` is relaxed. */
  ghost predicate Relaxed(g: Graph, dist: map<int, ExtInt>, done: set<int>)
  {
    forall u, k :: u in done && u in g.adj && 0 <= k < |g.adj[u]| ==> EdgeRelaxed(dist, g.adj[u][k])
  }

  /** The first `j` outgoing edges of `x` are relaxed. */
  ghost predicate RelaxedUpTo(g: Graph, dist: map<int, ExtInt>, x: int, j: int)
  {
    forall k :: 0 <= k < j && x in g.adj && k < |g.adj[x]| ==> EdgeRelaxed(dist, g.adj[x][k])
  }

  /** The loop invariant of the search, with the hubs whose edges are relaxed. */
  ghost predicate Inv(g: Graph, s: int, st: Search, rank: map<int, nat>, n: nat, done: set<int>)
  {
    && Labelled(g, st) && SourceFixed(s, st.distances, st.predecessors) && NonNegative(st.distances)
    && Queued(st.distances, st.pq) && Pending(st.distances, st.visited, st.pq)
    && VisitedReached(st.distances, st.visited) && Settled(st.distances, st.visited, st.pq)
    && Ranked(st.visited, rank, n) && Tree(g, st.distances, st.predecessors, st.visited, rank)
    && Linked(s, st.distances, st.predecessors) && Relaxed(g, st.distances, done)
  }

  /** Every visited hub is at most as far as `x` (the hub whose edges are being relaxed). */
  ghost predicate Frontier(dist: map<int, ExtInt>, visited: set<int>, x: int)
  {
    forall v :: v in visited ==> Dist(dist, v) <= Dist(dist, x)
  }

  /** A non-empty multiset of entries has one of least priority. */
  lemma {:induction false} MinEntry(pq: multiset<(int, int)>) returns (m: (int, int))
    requires |pq| > 0
    ensures m in pq && forall e :: e in pq ==> m.1 <= e.1
    decreases |pq|
  {
    var x :| x in pq;
    var rest := pq - multiset{x};
    if |rest| == 0 {
      m := x;
      assert pq == multiset{x};
    } else {
      var r := MinEntry(rest);
      m := if x.1 <= r.1 then x else r;
      forall e | e in pq ensures m.1 <= e.1 {
        if e != x {
          assert e in rest;
        }
      }
    }
  }

  /** `pq.Dequeue()`: removes an entry of least priority (the priority is returned for the proof only). */
  method Dequeue(pq: multiset<(int, int)>) returns (id: int, ghost priority: int, pq': multiset<(int, int)>)
    requires |pq| > 0
    ensures (id, priority) in pq && forall e :: e in pq ==> priority <= e.1
    ensures pq' == pq - multiset{(id, priority)}
  {
    ghost var m := MinEntry(pq);
    var e :| e in pq && forall f :: f in pq ==> e.1 <= f.1;
    id, priority := e.0, e.1;
    pq' := pq - multiset{e};
  }

  /** The labels before the search: every hub at +inf and without predecessor. */
  method InitialLabels(g: Graph) returns (distances: map<int, ExtInt>, predecessors: map<int, Option<Edge>>)
    requires g.Valid()
    ensures distances.Keys == g.nodes.Keys && predecessors.Keys == g.nodes.Keys
    ensures forall u :: u in distances ==> distances[u] == Infinity
    ensures forall u :: u in predecessors ==> predecessors[u] == None
  {
    AllNodesFacts(g);
    IdsFacts(g);
    var nodes := g.GetAllNodes();
    distances, predecessors := map[], map[];
    var i := 0;
    while i < |nodes|
      invariant 0 <= i <= |nodes|
      invariant forall u :: u in distances <==> u in g.ids[..i]
      invariant forall u :: u in predecessors <==> u in g.ids[..i]
      invariant forall u :: u in distances ==> distances[u] == Infinity
      invariant forall u :: u in predecessors ==> predecessors[u] == None
    {
      TakeSnoc(g.ids, i);
      distances := distances[nodes[i].id := Infinity];
      predecessors := predecessors[nodes[i].id := None];
      i := i + 1;
    }
    TakeAll(g.ids);
    assert forall u :: u in distances.Keys <==> u in g.nodes.Keys;
    assert forall u :: u in predecessors.Keys <==> u in g.nodes.Keys;
  }

  /** The state after `distances[sourceId] = 0; pq.Enqueue(sourceId, 0)` satisfies the invariant. */
  lemma InitialInv(g: Graph, s: int, st: Search)
    requires s in g.nodes
    requires st.distances.Keys == g.nodes.Keys && st.predecessors.Keys == g.nodes.Keys
    requires forall u :: u in st.distances ==> st.distances[u] == (if u == s then Finite(0) else Infinity)
    requires forall u :: u in st.predecessors ==> st.predecessors[u] == None
    requires st.visited == {} && st.pq == multiset{(s, 0)}
    ensures Inv(g, s, st, map[], 0, {})
  {
  }

  /** Removing an entry of an already visited hub keeps the invariant. */
  lemma SkipVisited(g: Graph, s: int, st: Search, rank: map<int, nat>, n: nat, x: int, k: int, pq: multiset<(int, int)>)
    requires Inv(g, s, st, rank, n, st.visited) && (x, k) in st.pq && x in st.visited
    requires pq == st.pq - multiset{(x, k)}
    ensures Inv(g, s, st.(pq := pq), rank, n, st.visited)
  {
    var dist := st.distances;
    forall v | Reached(dist, v) && v !in st.visited ensures (v, Dist(dist, v)) in pq {
      assert (v, Dist(dist, v)) in st.pq && (v, Dist(dist, v)) != (x, k);
    }
    assert Queued(dist, pq) && Settled(dist, st.visited, pq);
  }

  /** The distance of the hub of a least entry, not yet visited, is that entry's priority. */
  lemma LeastIsExact(st: Search, x: int, k: int)
    requires Queued(st.distances, st.pq) && Pending(st.distances, st.visited, st.pq)
    requires (x, k) in st.pq && x !in st.visited && forall e :: e in st.pq ==> k <= e.1
    ensures Reached(st.distances, x) && Dist(st.distances, x) == k
  {
    assert (x, Dist(st.distances, x)) in st.pq;
  }

  /**
   * Visiting the hub `x` of a least entry: its distance is that priority, no
   * visited hub is farther, and the invariant holds with `x` visited and ranked
   * `n`, except that the edges of `x` are not yet relaxed.
   */
  lemma Visit(g: Graph, s: int, st: Search, rank: map<int, nat>, n: nat, x: int, k: int, pq: multiset<(int, int)>)
    requires Inv(g, s, st, rank, n, st.visited) && (x, k) in st.pq && x !in st.visited
    requires forall e :: e in st.pq ==> k <= e.1
    requires pq == st.pq - multiset{(x, k)}
    ensures Inv(g, s, st.(pq := pq, visited := st.visited + {x}), rank[x := n], n + 1, st.visited)
    ensures Frontier(st.distances, st.visited + {x}, x)
  {
    LeastIsExact(st, x, k);
    VisitPending(st, x, k);
    VisitSettled(st, x, k);
    VisitTree(g, st, rank, n, x);
    VisitFrontier(st, x, k);
    assert Queued(st.distances, pq) && Ranked(st.visited + {x}, rank[x := n], n + 1);
  }

  lemma VisitPending(st: Search, x: int, k: int)
    requires Pending(st.distances, st.visited, st.pq)
    ensures Pending(st.distances, st.visited + {x}, st.pq - multiset{(x, k)})
  {
    var dist := st.distances;
    forall v | Reached(dist, v) && v !in st.visited + {x} ensures (v, Dist(dist, v)) in st.pq - multiset{(x, k)} {
      assert (v, Dist(dist, v)) in st.pq && (v, Dist(dist, v)) != (x, k);
    }
  }

  lemma VisitFrontier(st: Search, x: int, k: int)
    requires Settled(st.distances, st.visited, st.pq) && (x, k) in st.pq && Dist(st.distances, x) == k
    ensures Frontier(st.distances, st.visited + {x}, x)
  {
    forall v | v in st.visited + {x} ensures Dist(st.distances, v) <= Dist(st.distances, x) {
      if v != x {
        assert Dist(st.distances, v) <= k;
      }
    }
  }

  lemma VisitSettled(st: Search, x: int, k: int)
    requires Settled(st.distances, st.visited, st.pq) && (x, k) in st.pq && Dist(st.distances, x) == k
    requires forall e :: e in st.pq ==> k <= e.1
    ensures Settled(st.distances, st.visited + {x}, st.pq - multiset{(x, k)})
  {
    var pq := st.pq - multiset{(x, k)};
    forall v, e | v in st.visited + {x} && e in pq ensures Dist(st.distances, v) <= e.1 {
      assert e in st.pq;
    }
  }

  lemma VisitTree(g: Graph, st: Search, rank: map<int, nat>, n: nat, x: int)
    requires Tree(g, st.distances, st.predecessors, st.visited, rank) && Ranked(st.visited, rank, n)
    requires x !in st.visited
    ensures Tree(g, st.distances, st.predecessors, st.visited + {x}, rank[x := n])
  {
    forall v | v in st.predecessors && st.predecessors[v].Some?
      ensures TreeEdge(g, st.distances, st.visited + {x}, rank[x := n], v, st.predecessors[v].value)
    {
      assert TreeEdge(g, st.distances, st.visited, rank, v, st.predecessors[v].value);
    }
  }

  /** After the last outgoing edge of `x`, all edges of the visited hubs are relaxed. */
  lemma RelaxedAll(g: Graph, dist: map<int, ExtInt>, visited: set<int>, x: int)
    requires x in visited && Relaxed(g, dist, visited - {x})
    requires RelaxedUpTo(g, dist, x, if x in g.adj then |g.adj[x]| else 0)
    ensures Relaxed(g, dist, visited)
  {
  }

  /** The update made when an edge improves its target: new distance, the edge as predecessor, a queue entry. */
  function Improve(st: Search, edge: Edge, newDistance: int): Search
  {
    st.(distances := st.distances[edge.Tgt() := Finite(newDistance)],
        predecessors := st.predecessors[edge.Tgt() := Some(edge)],
        pq := st.pq + multiset{(edge.Tgt(), newDistance)})
  }

  /** The `j`-th outgoing edge of a visited hub `x`: it leaves `x`, ends at a hub, costs at least 0. */
  lemma OutgoingEdge(g: Graph, st: Search, x: int, j: int)
    requires g.Valid() && NonNegativeCosts(g) && Labelled(g, st) && x in st.visited
    requires 0 <= j < |g.GetOutgoingEdges(x)|
    ensures x in g.adj && g.GetOutgoingEdges(x) == g.adj[x]
    ensures var e := g.adj[x][j]; e.Src() == x && e.Tgt() in g.nodes && e.cost >= 0 && GraphEdge(g, e)
  {
    assert g.adj[x][j] in g.adj[x];
  }

  /**
   * An edge of `x` that improves its target: the target is neither visited
   * (no visited hub is farther than `x`) nor the source (distances are not
   * negative), and the invariant is kept with one more edge of `x` relaxed.
   */
  lemma Improving(g: Graph, s: int, st: Search, rank: map<int, nat>, n: nat, x: int, j: int, e: Edge, d: int)
    requires g.Valid() && NonNegativeCosts(g)
    requires x in st.visited && x in g.adj && 0 <= j < |g.adj[x]| && e == g.adj[x][j]
    requires e.Src() == x && e.Tgt() in g.nodes && e.cost >= 0 && GraphEdge(g, e)
    requires Inv(g, s, st, rank, n, st.visited - {x}) && Frontier(st.distances, st.visited, x)
    requires RelaxedUpTo(g, st.distances, x, j)
    requires d == Dist(st.distances, x) + e.cost && Less(Finite(d), st.distances[e.Tgt()])
    ensures Improve(st, e, d).visited == st.visited
    ensures Inv(g, s, Improve(st, e, d), rank, n, st.visited - {x}) && Frontier(Improve(st, e, d).distances, st.visited, x)
    ensures RelaxedUpTo(g, Improve(st, e, d).distances, x, j + 1)
  {
    var v := e.Tgt();
    var st' := Improve(st, e, d);
    var dist' := st.distances[v := Finite(d)];
    assert Reached(st.distances, x);
    assert v !in st.visited;
    assert v != s;
    ImproveLabels(g, s, st, x, e, d);
    ImproveQueue(st, v, d, st.pq + multiset{(v, d)});
    ImproveTree(g, st, rank, x, e, d);
    LowerKeepsRelaxed(g, st.distances, v, d, st.visited - {x});
    forall k | 0 <= k < j + 1 && x in g.adj && k < |g.adj[x]| ensures EdgeRelaxed(dist', g.adj[x][k]) {
      if k < j {
        assert g.adj[x][k].Src() == x;
        LowerKeepsEdge(st.distances, v, d, g.adj[x][k]);
      }
    }
  }

  /** The label facts after an improvement of `e`'s target, unvisited and other than the source. */
  lemma ImproveLabels(g: Graph, s: int, st: Search, x: int, e: Edge, d: int)
    requires Labelled(g, st) && SourceFixed(s, st.distances, st.predecessors) && NonNegative(st.distances)
    requires VisitedReached(st.distances, st.visited) && Linked(s, st.distances, st.predecessors)
    requires Frontier(st.distances, st.visited, x) && x in st.visited && e.Src() == x
    requires e.Tgt() in g.nodes && e.Tgt() !in st.visited && e.Tgt() != s
    requires Reached(st.distances, x) && d == Dist(st.distances, x) + e.cost && e.cost >= 0
    ensures var st' := Improve(st, e, d);
      && Labelled(g, st') && SourceFixed(s, st'.distances, st'.predecessors) && NonNegative(st'.distances)
      && VisitedReached(st'.distances, st'.visited) && Linked(s, st'.distances, st'.predecessors)
      && Frontier(st'.distances, st'.visited, x) && EdgeRelaxed(st'.distances, e)
  {
    var st' := Improve(st, e, d);
    assert Dist(st.distances, x) >= 0;
    forall w | Reached(st'.distances, w) ensures Dist(st'.distances, w) >= 0 {
      if w != e.Tgt() {
        assert Reached(st.distances, w);
      }
    }
    assert st'.distances.Keys == st.distances.Keys;
    assert st'.predecessors.Keys == st.predecessors.Keys;
    forall w | w in st.visited ensures Dist(st'.distances, w) <= Dist(st'.distances, x) {
      assert Dist(st.distances, w) <= Dist(st.distances, x);
    }
  }

  /** Lowering the distance of a hub keeps relaxed every relaxed edge that does not leave it. */
  lemma LowerKeepsEdge(dist: map<int, ExtInt>, v: int, d: int, f: Edge)
    requires v in dist && Less(Finite(d), dist[v]) && EdgeRelaxed(dist, f) && f.Src() != v
    ensures EdgeRelaxed(dist[v := Finite(d)], f)
  {
  }

  /** Lowering the distance of a hub outside `done` keeps the edges of `done` relaxed. */
  lemma LowerKeepsRelaxed(g: Graph, dist: map<int, ExtInt>, v: int, d: int, done: set<int>)
    requires g.Valid() && v in dist && Less(Finite(d), dist[v]) && v !in done && Relaxed(g, dist, done)
    ensures Relaxed(g, dist[v := Finite(d)], done)
  {
    forall u, k | u in done && u in g.adj && 0 <= k < |g.adj[u]|
      ensures EdgeRelaxed(dist[v := Finite(d)], g.adj[u][k])
    {
      assert g.adj[u][k].Src() == u;
      LowerKeepsEdge(dist, v, d, g.adj[u][k]);
    }
  }

  /** The queue facts after lowering `v`, unvisited, to `d` and queueing it with priority `d`. */
  lemma ImproveQueue(st: Search, v: int, d: int, pq': multiset<(int, int)>)
    requires Queued(st.distances, st.pq) && Pending(st.distances, st.visited, st.pq)
    requires Settled(st.distances, st.visited, st.pq)
    requires forall w :: w in st.visited ==> Dist(st.distances, w) <= d
    requires v in st.distances && v !in st.visited && Less(Finite(d), st.distances[v])
    requires pq' == st.pq + multiset{(v, d)}
    ensures Queued(st.distances[v := Finite(d)], pq')
    ensures Pending(st.distances[v := Finite(d)], st.visited, pq')
    ensures Settled(st.distances[v := Finite(d)], st.visited, pq')
  {
    var dist' := st.distances[v := Finite(d)];
    forall f | f in pq' ensures Reached(dist', f.0) && Dist(dist', f.0) <= f.1 {
      if f != (v, d) {
        assert f in st.pq;
      }
    }
    forall w, f | w in st.visited && f in pq' ensures Dist(dist', w) <= f.1 {
      if f != (v, d) {
        assert f in st.pq;
      }
    }
    forall w | Reached(dist', w) && w !in st.visited ensures (w, Dist(dist', w)) in pq' {
      if w != v {
        assert (w, Dist(st.distances, w)) in st.pq;
      }
    }
  }

  /** The predecessor tree after `v` gets the edge `e` from the visited hub `x`. */
  lemma ImproveTree(g: Graph, st: Search, rank: map<int, nat>, x: int, e: Edge, d: int)
    requires Tree(g, st.distances, st.predecessors, st.visited, rank)
    requires x in st.visited && Reached(st.distances, x) && GraphEdge(g, e) && e.Src() == x
    requires e.Tgt() in st.distances && e.Tgt() !in st.visited && d == Dist(st.distances, x) + e.cost
    ensures Tree(g, st.distances[e.Tgt() := Finite(d)], st.predecessors[e.Tgt() := Some(e)], st.visited, rank)
  {
    var v := e.Tgt();
    var dist' := st.distances[v := Finite(d)];
    var pred' := st.predecessors[v := Some(e)];
    forall w | w in pred' && pred'[w].Some? ensures TreeEdge(g, dist', st.visited, rank, w, pred'[w].value) {
      if w != v {
        assert TreeEdge(g, st.distances, st.visited, rank, w, st.predecessors[w].value);
      }
    }
  }

  /**
   * The inner loop: `foreach (var edge in graph.GetOutgoingEdges(currentId))`,
   * relaxing each edge in turn.
   */
  method RelaxEdges(g: Graph, s: int, st: Search, currentId: int, ghost rank: map<int, nat>, ghost n: nat)
    returns (st': Search)
    requires g.Valid() && NonNegativeCosts(g)
    requires currentId in st.visited
    requires Inv(g, s, st, rank, n, st.visited - {currentId}) && Frontier(st.distances, st.visited, currentId)
    ensures st'.visited == st.visited
    ensures Inv(g, s, st', rank, n, st'.visited)
  {
    st' := st;
    var edges := g.GetOutgoingEdges(currentId);
    var j := 0;
    while j < |edges|
      invariant 0 <= j <= |edges| && st'.visited == st.visited
      invariant Inv(g, s, st', rank, n, st.visited - {currentId}) && Frontier(st'.distances, st.visited, currentId)
      invariant RelaxedUpTo(g, st'.distances, currentId, j)
    {
      st' := RelaxEdge(g, s, st', currentId, edges, j, rank, n);
      j := j + 1;
    }
    assert st'.visited - {currentId} == st.visited - {currentId};
    RelaxedAll(g, st'.distances, st'.visited, currentId);
  }

  /**
   * One pass of the inner loop: the new distance through `currentId`; when
   * it is smaller than the neighbour's, the neighbour is improved.
   */
  method RelaxEdge(g: Graph, s: int, st: Search, currentId: int, edges: seq<Edge>, j: int,
                   ghost rank: map<int, nat>, ghost n: nat) returns (st': Search)
    requires g.Valid() && NonNegativeCosts(g)
    requires currentId in st.visited && edges == g.GetOutgoingEdges(currentId) && 0 <= j < |edges|
    requires Inv(g, s, st, rank, n, st.visited - {currentId}) && Frontier(st.distances, st.visited, currentId)
    requires RelaxedUpTo(g, st.distances, currentId, j)
    ensures st'.visited == st.visited
    ensures Inv(g, s, st', rank, n, st.visited - {currentId}) && Frontier(st'.distances, st.visited, currentId)
    ensures RelaxedUpTo(g, st'.distances, currentId, j + 1)
  {
    OutgoingEdge(g, st, currentId, j);
    var edge := edges[j];
    var neighborId := edge.Tgt();
    var newDistance := st.distances[currentId].n + edge.cost;
    if Less(Finite(newDistance), st.distances[neighborId]) {
      Improving(g, s, st, rank, n, currentId, j, edge, newDistance);
      st' := Improve(st, edge, newDistance);
    } else {
      st' := st;
      assert EdgeRelaxed(st.distances, edge);
    }
  }

  /** Along a walk whose first `i` edges are relaxed, the stop after `i` edges is no farther than their cost. */
  lemma {:induction false} WalkBound(dist: map<int, ExtInt>, s: int, p: seq<Edge>, i: int)
    requires s in dist && dist[s] == Finite(0) && 0 <= i <= |p|
    requires forall k :: 0 <= k < i ==> p[k].Src() == Stop(p, s, k) && EdgeRelaxed(dist, p[k])
    ensures Reached(dist, Stop(p, s, i)) && Dist(dist, Stop(p, s, i)) <= PathCost(p[..i])
  {
    if i > 0 {
      WalkBound(dist, s, p, i - 1);
      assert p[..i][..i - 1] == p[..i - 1];
    }
  }

  /** The edges of a walk that leave hubs in `done` are relaxed. */
  lemma WalkRelaxed(g: Graph, dist: map<int, ExtInt>, s: int, t: int, p: seq<Edge>, done: set<int>, i: int)
    requires IsPath(g, p, s, t) && Relaxed(g, dist, done)
    requires 0 <= i <= |p| && forall k :: 0 <= k < i ==> Stop(p, s, k) in done
    ensures forall k :: 0 <= k < i ==> p[k].Src() == Stop(p, s, k) && EdgeRelaxed(dist, p[k])
  {
    forall k | 0 <= k < i ensures p[k].Src() == Stop(p, s, k) && EdgeRelaxed(dist, p[k]) {
      assert p[k].Src() == Stop(p, s, k) && GraphEdge(g, p[k]);
      DoneEdgeRelaxed(g, dist, done, p[k]);
    }
  }

  /** A graph edge out of a hub in `done` is relaxed. */
  lemma DoneEdgeRelaxed(g: Graph, dist: map<int, ExtInt>, done: set<int>, e: Edge)
    requires Relaxed(g, dist, done) && GraphEdge(g, e) && e.Src() in done
    ensures EdgeRelaxed(dist, e)
  {
    var k :| 0 <= k < |g.adj[e.Src()]| && g.adj[e.Src()][k] == e;
  }

  /** The first stop of a walk outside `done`, if the walk ends outside it. */
  lemma {:induction false} FirstOutside(p: seq<Edge>, s: int, done: set<int>, i: int) returns (j: int)
    requires 0 <= i <= |p| && Stop(p, s, |p|) !in done
    requires forall k :: 0 <= k < i ==> Stop(p, s, k) in done
    ensures i <= j <= |p| && Stop(p, s, j) !in done
    ensures forall k :: 0 <= k < j ==> Stop(p, s, k) in done
    decreases |p| - i
  {
    if Stop(p, s, i) !in done {
      j := i;
    } else {
      j := FirstOutside(p, s, done, i + 1);
    }
  }

  /**
   * When the target is taken from the queue, no walk to it is cheaper than
   * its distance: the first stop of the walk that is not settled is queued,
   * hence no nearer than the target.
   */
  lemma Optimal(g: Graph, s: int, t: int, st: Search, rank: map<int, nat>, n: nat, p: seq<Edge>)
    requires NonNegativeCosts(g) && t in st.visited
    requires Inv(g, s, st, rank, n, st.visited - {t})
    requires IsPath(g, p, s, t)
    ensures Dist(st.distances, t) <= PathCost(p)
  {
    var done := st.visited - {t};
    assert Stop(p, s, |p|) !in done;
    var j := FirstOutside(p, s, done, 0);
    WalkRelaxed(g, st.distances, s, t, p, done, j);
    WalkBound(st.distances, s, p, j);
    PathCostPrefix(g, p, j);
    var w := Stop(p, s, j);
    if w != t {
      assert w !in st.visited;
      assert (w, Dist(st.distances, w)) in st.pq;
    }
  }

  /** When the queue runs empty, every hub that a walk from the source reaches is visited. */
  lemma {:induction false} AllReachedVisited(g: Graph, s: int, t: int, st: Search, rank: map<int, nat>, n: nat,
                                             p: seq<Edge>, i: int)
    requires Inv(g, s, st, rank, n, st.visited) && |st.pq| == 0
    requires IsPath(g, p, s, t) && 0 <= i <= |p|
    ensures Stop(p, s, i) in st.visited
  {
    var v := Stop(p, s, i);
    if i > 0 {
      AllReachedVisited(g, s, t, st, rank, n, p, i - 1);
      var e := p[i - 1];
      assert e.Src() == Stop(p, s, i - 1) && GraphEdge(g, e);
      DoneEdgeRelaxed(g, st.distances, st.visited, e);
    }
    assert Reached(st.distances, v);
    assert (v, Dist(st.distances, v)) !in st.pq;
  }

  /** A visited hub always has a finite distance, so an unreached target has no walk to it. */
  lemma NoWalk(g: Graph, s: int, t: int, st: Search, rank: map<int, nat>, n: nat)
    requires Inv(g, s, st, rank, n, st.visited) && |st.pq| == 0 && !Reached(st.distances, t)
    ensures forall p :: !IsPath(g, p, s, t)
  {
    forall p | IsPath(g, p, s, t) ensures false {
      AllReachedVisited(g, s, t, st, rank, n, p, |p|);
    }
  }

  /** When the queue runs empty, no walk to a hub is cheaper than its distance. */
  lemma Exhausted(g: Graph, s: int, t: int, st: Search, rank: map<int, nat>, n: nat, p: seq<Edge>)
    requires Inv(g, s, st, rank, n, st.visited) && |st.pq| == 0
    requires IsPath(g, p, s, t)
    ensures Reached(st.distances, t) && Dist(st.distances, t) <= PathCost(p)
  {
    forall k | 0 <= k < |p| ensures Stop(p, s, k) in st.visited {
      AllReachedVisited(g, s, t, st, rank, n, p, k);
    }
    WalkRelaxed(g, st.distances, s, t, p, st.visited, |p|);
    WalkBound(st.distances, s, p, |p|);
    assert p[..|p|] == p;
  }

  /**
   * Following `predecessors` back from the target, then reversing: a walk
   * along graph edges from the source to the target whose cost is the
   * target's distance. Each step goes to a hub visited earlier, so it ends.
   */
  method ReconstructPath(g: Graph, sourceId: int, targetId: int, st: Search, ghost rank: map<int, nat>,
                         ghost n: nat, ghost done: set<int>) returns (path: seq<Edge>)
    requires Inv(g, sourceId, st, rank, n, done) && targetId in st.visited
    ensures IsPath(g, path, sourceId, targetId) && PathCost(path) == Dist(st.distances, targetId)
    ensures sourceId == targetId ==> path == []
  {
    path := [];
    var current := targetId;
    while current != sourceId
      invariant current in st.visited
      invariant IsPath(g, Reversed(path), current, targetId)
      invariant Dist(st.distances, current) + PathCost(path) == Dist(st.distances, targetId)
      invariant sourceId == targetId ==> current == targetId && path == []
      decreases rank[current]
    {
      var edge := st.predecessors[current];
      if edge.None? {
        break;
      }
      assert TreeEdge(g, st.distances, st.visited, rank, current, edge.value);
      PathCons(g, edge.value, Reversed(path), current, targetId);
      assert Reversed(path + [edge.value]) == [edge.value] + Reversed(path);
      path := path + [edge.value];
      current := edge.value.Src();
    }
    ReversedCost(path);
    path := Reversed(path);
  }

  /**
   * `FindShortestPath(graph, sourceId, targetId)`. With both hubs present
   * and no negative cost: on success the path is a walk along graph edges
   * from the source to the target whose cost is `TotalCost` and is no more
   * than that of any such walk; failure happens exactly when no walk exists
   * and leaves the default result. For `sourceId == targetId` the empty path
   * of cost 0 is returned.
   */
  method FindShortestPath(graph: LogisticsGraph, sourceId: int, targetId: int) returns (result: DijkstraResult)
    requires graph.Valid() && NonNegativeCosts(graph.View())
    ensures !graph.View().ContainsNode(sourceId) || !graph.View().ContainsNode(targetId) ==> result == NoPath
    ensures result.success ==> IsPath(graph.View(), result.path, sourceId, targetId)
    ensures result.success ==> result.totalCost == Finite(PathCost(result.path))
    ensures result.success ==> forall p :: IsPath(graph.View(), p, sourceId, targetId) ==> PathCost(result.path) <= PathCost(p)
    ensures !result.success ==> result == NoPath && forall p :: !IsPath(graph.View(), p, sourceId, targetId)
    ensures graph.View().ContainsNode(sourceId) && sourceId == targetId ==> result == DijkstraResult(Finite(0), [], true)
  {
    result := NoPath;
    var g := graph.View();
    if !g.ContainsNode(sourceId) || !g.ContainsNode(targetId) {
      return;
    }
    var st;
    ghost var rank, n, reached;
    st, rank, n, reached := Explore(g, sourceId, targetId);
    Outcome(g, sourceId, targetId, st, rank, n, reached);
    if st.distances[targetId] == Infinity {
      return;
    }
    result := result.(totalCost := st.distances[targetId], success := true);
    ghost var done := if reached then st.visited - {targetId} else st.visited;
    var path := ReconstructPath(g, sourceId, targetId, st, rank, n, done);
    result := result.(path := path);
  }

  /**
   * The main loop of the search: take entries from the queue until the target
   * is taken or the queue runs dry, visiting each node once and relaxing its
   * outgoing edges.
   */
  method Explore(g: Graph, sourceId: int, targetId: int) returns (st: Search, ghost rank: map<int, nat>, ghost n: nat, reached: bool)
    requires g.Valid() && NonNegativeCosts(g) && g.ContainsNode(sourceId) && g.ContainsNode(targetId)
    ensures Inv(g, sourceId, st, rank, n, if reached then st.visited - {targetId} else st.visited)
    ensures reached ==> targetId in st.visited
    ensures !reached ==> |st.pq| == 0
  {
    st := Start(g, sourceId);
    rank, n := map[], 0;
    reached := false;
    while |st.pq| > 0
      invariant Inv(g, sourceId, st, rank, n, st.visited) && !reached
      decreases g.nodes.Keys - st.visited, |st.pq|
    {
      ghost var before := st;
      st, rank, n, reached := Step(g, sourceId, targetId, st, rank, n);
      if reached {
        return;
      }
      assert g.nodes.Keys - st.visited < g.nodes.Keys - before.visited || st.visited == before.visited;
    }
  }

  /** The state before the loop: every hub at +inf without predecessor but the source at 0, which alone is queued. */
  method Start(g: Graph, sourceId: int) returns (st: Search)
    requires g.Valid() && g.ContainsNode(sourceId)
    ensures Inv(g, sourceId, st, map[], 0, {})
    ensures st.visited == {} && st.pq == multiset{(sourceId, 0)}
  {
    var distances, predecessors := InitialLabels(g);
    distances := distances[sourceId := Finite(0)];
    st := Search(distances, predecessors, {}, multiset{(sourceId, 0)});
    InitialInv(g, sourceId, st);
  }

  /**
   * One round of the loop: take a least entry from the queue; skip it if its
   * hub is visited, otherwise visit the hub and, unless it is the target,
   * relax its outgoing edges.
   */
  method Step(g: Graph, sourceId: int, targetId: int, st: Search, ghost rank: map<int, nat>, ghost n: nat)
    returns (st': Search, ghost rank': map<int, nat>, ghost n': nat, reached: bool)
    requires g.Valid() && NonNegativeCosts(g) && Inv(g, sourceId, st, rank, n, st.visited) && |st.pq| > 0
    ensures reached ==> Inv(g, sourceId, st', rank', n', st'.visited - {targetId}) && targetId in st'.visited
    ensures !reached ==> Inv(g, sourceId, st', rank', n', st'.visited)
    ensures st.visited <= st'.visited
    ensures st'.visited == st.visited ==> |st'.pq| < |st.pq|
  {
    var currentId, pq;
    ghost var priority;
    currentId, priority, pq := Dequeue(st.pq);
    if currentId in st.visited {
      SkipVisited(g, sourceId, st, rank, n, currentId, priority, pq);
      return st.(pq := pq), rank, n, false;
    }
    Visit(g, sourceId, st, rank, n, currentId, priority, pq);
    st' := st.(pq := pq, visited := st.visited + {currentId});
    rank', n' := rank[currentId := n], n + 1;
    assert st'.visited - {currentId} == st.visited;
    if currentId == targetId {
      return st', rank', n', true;
    }
    st' := RelaxEdges(g, sourceId, st', currentId, rank', n');
    reached := false;
  }

  /**
   * What the search has established when its loop ends, by taking the target
   * from the queue or by running out of entries: a reached target is visited
   * and no walk to it is cheaper than its distance; an unreached one has no
   * walk to it at all.
   */
  lemma Outcome(g: Graph, s: int, t: int, st: Search, rank: map<int, nat>, n: nat, reached: bool)
    requires NonNegativeCosts(g)
    requires Inv(g, s, st, rank, n, if reached then st.visited - {t} else st.visited)
    requires reached ==> t in st.visited
    requires !reached ==> |st.pq| == 0
    ensures Reached(st.distances, t) ==> t in st.visited
    ensures Reached(st.distances, t) ==> forall p :: IsPath(g, p, s, t) ==> Dist(st.distances, t) <= PathCost(p)
    ensures !Reached(st.distances, t) ==> forall p :: !IsPath(g, p, s, t)
  {
    if reached {
      forall p | IsPath(g, p, s, t) ensures Dist(st.distances, t) <= PathCost(p) {
        Optimal(g, s, t, st, rank, n, p);
      }
    } else {
      if !Reached(st.distances, t) {
        NoWalk(g, s, t, st, rank, n);
      } else {
        assert (t, Dist(st.distances, t)) !in st.pq;
      }
      forall p | IsPath(g, p, s, t) ensures Dist(st.distances, t) <= PathCost(p) {
        Exhausted(g, s, t, st, rank, n, p);
      }
    }
  }
}
