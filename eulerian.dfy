/**
 * Eulerian trails (Algorithms/EulerianAlgorithm.cs).
 *
 * The degree scan counts the unbalanced hubs and picks a start; a
 * breadth-first search that follows edges in both directions checks weak
 * connectivity; Fleury's walk then repeatedly takes an outgoing edge of the
 * current hub that is not a bridge of what is left, removing it from a
 * working copy. Connectivity is over the undirected links of the graph: the
 * (source, target) pairs of its edges, followed either way.
 */
module EulerianModel {
  import opened Basics
  import opened NodeModel
  import opened EdgeModel
  import opened GraphModel
  import opened Results

  // ---------------------------------------------------------------------
  // Finding and removing edges of a list
  // ---------------------------------------------------------------------

  /** The position of the first edge of `es` from `u` to `v`, or `|es|` when there is none. */
  function FirstWith(es: seq<Edge>, u: int, v: int): (k: nat)
    ensures k <= |es|
    ensures k < |es| ==> es[k].Src() == u && es[k].Tgt() == v
    ensures forall j :: 0 <= j < k ==> es[j].Src() != u || es[j].Tgt() != v
  {
    if es == [] then 0
    else if es[0].Src() == u && es[0].Tgt() == v then 0
    else 1 + FirstWith(es[1..], u, v)
  }

  /** An entry with the given ends bounds the first one from above. */
  lemma FirstWithAt(es: seq<Edge>, k: int)
    requires 0 <= k < |es|
    ensures FirstWith(es, es[k].Src(), es[k].Tgt()) <= k
  {
  }

  /** Lists with the same keys have their first edge between two hubs at the same place. */
  lemma {:induction false} FirstWithKeys(a: seq<Edge>, b: seq<Edge>, u: int, v: int)
    requires Keys(a) == Keys(b)
    ensures FirstWith(a, u, v) == FirstWith(b, u, v)
  {
    if a != [] {
      assert Key(a[0]) == Keys(a)[0] == Keys(b)[0] == Key(b[0]);
      assert Keys(a[1..]) == Keys(b[1..]) by {
        forall i | 0 <= i < |a| - 1 ensures Key(a[1..][i]) == Key(b[1..][i]) {
          assert Key(a[i + 1]) == Keys(a)[i + 1] == Keys(b)[i + 1] == Key(b[i + 1]);
        }
      }
      FirstWithKeys(a[1..], b[1..], u, v);
    }
  }

  /** The list without its entry at `k`: `List.Remove` of that entry. */
  function RemoveAt(es: seq<Edge>, k: int): (r: seq<Edge>)
    requires 0 <= k < |es|
    ensures |r| == |es| - 1
    ensures multiset(r) == multiset(es) - multiset{es[k]}
  {
    assert es == es[..k] + [es[k]] + es[k + 1..];
    es[..k] + es[k + 1..]
  }

  /** Removing the same position from lists with the same keys leaves lists with the same keys. */
  lemma RemoveAtKeys(a: seq<Edge>, b: seq<Edge>, k: int)
    requires Keys(a) == Keys(b) && 0 <= k < |a|
    ensures Keys(RemoveAt(a, k)) == Keys(RemoveAt(b, k))
  {
    var ra, rb := RemoveAt(a, k), RemoveAt(b, k);
    forall i | 0 <= i < |ra| ensures Key(ra[i]) == Key(rb[i]) {
      if i < k {
        assert ra[i] == a[i] && rb[i] == b[i] && Keys(a)[i] == Keys(b)[i];
      } else {
        assert ra[i] == a[i + 1] && rb[i] == b[i + 1] && Keys(a)[i + 1] == Keys(b)[i + 1];
      }
    }
  }

  /**
   * What `RemoveEdge(graph, e)` leaves, for `e` from `u` to `v`: the first
   * edge of `u`'s list that runs from `u` to `v` is dropped; nothing changes
   * when there is none.
   */
  function Without(g: Graph, u: int, v: int): Graph
  {
    var es := g.GetOutgoingEdges(u);
    var k := FirstWith(es, u, v);
    if k < |es| then g.(adj := g.adj[u := RemoveAt(es, k)]) else g
  }

  /** Dropping the entry at `k` of `u`'s list. */
  function DropAt(g: Graph, u: int, k: int): Graph
    requires u in g.adj && 0 <= k < |g.adj[u]|
  {
    g.(adj := g.adj[u := RemoveAt(g.adj[u], k)])
  }

  /** Dropping one listed edge keeps the invariant, the hubs and their order. */
  lemma DropAtValid(g: Graph, u: int, k: int)
    requires g.Valid() && u in g.adj && 0 <= k < |g.adj[u]|
    ensures DropAt(g, u, k).Valid()
    ensures DropAt(g, u, k).ids == g.ids && DropAt(g, u, k).nodes == g.nodes
  {
    var es := g.adj[u];
    var h := DropAt(g, u, k);
    var r := RemoveAt(es, k);
    forall w, i | w in h.adj && 0 <= i < |h.adj[w]| ensures h.adj[w][i].Src() == w && h.adj[w][i].Tgt() in h.nodes {
      if w == u {
        if i < k { assert r[i] == es[i]; } else { assert r[i] == es[i + 1]; }
      }
    }
  }

  /** Dropping one listed edge takes exactly that edge out of the edge multiset. */
  lemma DropAtEdges(g: Graph, u: int, k: int)
    requires g.Valid() && u in g.adj && 0 <= k < |g.adj[u]|
    ensures g.adj[u][k] in g.GetAllEdges()
    ensures multiset(DropAt(g, u, k).GetAllEdges()) == multiset(g.GetAllEdges()) - multiset{g.adj[u][k]}
    ensures DropAt(g, u, k).EdgeCount() + 1 == g.EdgeCount()
  {
    var es := g.adj[u];
    IdsFacts(g);
    FlattenUpdate(g.ids, g.adj, u, RemoveAt(es, k));
    FlattenContainsList(g.ids, g.adj, u);
    assert es[k] in multiset(es);
    SwapOne(multiset(g.GetAllEdges()), multiset(es), es[k]);
  }

  /** Replacing a part of a multiset by that part less one element removes that element. */
  lemma SwapOne<T>(all: multiset<T>, part: multiset<T>, x: T)
    requires part <= all && x in part
    ensures all - part + (part - multiset{x}) == all - multiset{x}
    ensures x in all
  {
  }

  /** Both facts about dropping one listed edge. */
  lemma DropAtFacts(g: Graph, u: int, k: int)
    requires g.Valid() && u in g.adj && 0 <= k < |g.adj[u]|
    ensures DropAt(g, u, k).Valid()
    ensures DropAt(g, u, k).ids == g.ids && DropAt(g, u, k).nodes == g.nodes
    ensures g.adj[u][k] in g.GetAllEdges()
    ensures multiset(DropAt(g, u, k).GetAllEdges()) == multiset(g.GetAllEdges()) - multiset{g.adj[u][k]}
    ensures DropAt(g, u, k).EdgeCount() + 1 == g.EdgeCount()
  {
    DropAtValid(g, u, k);
    DropAtEdges(g, u, k);
  }

  /** `Without` is `DropAt` at the first edge with the given ends, or the graph itself. */
  lemma WithoutIsDrop(g: Graph, u: int, v: int)
    ensures var es := g.GetOutgoingEdges(u);
            var k := FirstWith(es, u, v);
            (k < |es| ==> u in g.adj && Without(g, u, v) == DropAt(g, u, k)) && (k == |es| ==> Without(g, u, v) == g)
  {
  }

  /**
   * `RemoveEdge` (lines 152-163): the first edge of the source's list with
   * the same source and target ids is removed from that list in place.
   */
  method RemoveEdge(graph: LogisticsGraph, edgeToRemove: Edge)
    requires graph.Valid()
    modifies graph
    ensures graph.Valid()
    ensures graph.View() == Without(old(graph.View()), edgeToRemove.Src(), edgeToRemove.Tgt())
  {
    var u := edgeToRemove.Src();
    var edges := graph.View().GetOutgoingEdges(u);
    var k := FirstWith(edges, u, edgeToRemove.Tgt());
    if k < |edges| {
      DropAtFacts(graph.View(), u, k);
      graph.adj := graph.adj[u := RemoveAt(edges, k)];
    }
  }

  // ---------------------------------------------------------------------
  // Undirected reachability
  // ---------------------------------------------------------------------

  /** The (source id, target id) pair of each edge. */
  function Ends(es: seq<Edge>): (r: seq<(int, int)>)
    ensures |r| == |es|
    ensures forall i :: 0 <= i < |es| ==> r[i] == (es[i].Src(), es[i].Tgt())
  {
    seq(|es|, i requires 0 <= i < |es| => (es[i].Src(), es[i].Tgt()))
  }

  /** Lists with the same keys have the same ends. */
  lemma EndsOfKeys(a: seq<Edge>, b: seq<Edge>)
    requires Keys(a) == Keys(b)
    ensures Ends(a) == Ends(b)
  {
    forall i | 0 <= i < |a| ensures Ends(a)[i] == Ends(b)[i] {
      assert Key(a[i]) == Keys(a)[i] == Keys(b)[i] == Key(b[i]);
    }
  }

  /** The links of a graph: the ends of all its edges. */
  function Links(g: Graph): seq<(int, int)>
  {
    Ends(g.GetAllEdges())
  }

  /** Some link joins `u` and `w`, in one direction or the other. */
  predicate Linked(links: seq<(int, int)>, u: int, w: int)
  {
    (u, w) in links || (w, u) in links
  }

  /** `p` is a chain of hubs from `s` to `t`, each linked to the next. */
  ghost predicate UPath(links: seq<(int, int)>, p: seq<int>, s: int, t: int)
  {
    && |p| > 0 && p[0] == s && p[|p| - 1] == t
    && forall i :: 0 < i < |p| ==> Linked(links, p[i - 1], p[i])
  }

  /** `t` is reachable from `s` when edges may be followed either way. */
  ghost predicate UReach(links: seq<(int, int)>, s: int, t: int)
  {
    exists p :: UPath(links, p, s, t)
  }

  /** A set is closed when every hub linked to one of its hubs belongs to it. */
  ghost predicate LinkClosed(links: seq<(int, int)>, c: set<int>)
  {
    forall u, w :: u in c && Linked(links, u, w) ==> w in c
  }

  /** The hubs reachable from `s` in `g`: the set whose size `CountReachableNodes` returns. */
  ghost function Reached(g: Graph, s: int): set<int>
  {
    set v | v in g.nodes.Keys + {s} && UReach(Links(g), s, v)
  }

  lemma ReachSelf(links: seq<(int, int)>, s: int)
    ensures UReach(links, s, s)
  {
    assert UPath(links, [s], s, s);
  }

  lemma ReachExtend(links: seq<(int, int)>, s: int, u: int, w: int)
    requires UReach(links, s, u) && Linked(links, u, w)
    ensures UReach(links, s, w)
  {
    var p :| UPath(links, p, s, u);
    assert UPath(links, p + [w], s, w);
  }

  /** A closed set holding `s` holds every hub reachable from `s`. */
  lemma ReachInClosed(links: seq<(int, int)>, c: set<int>, s: int, t: int)
    requires LinkClosed(links, c) && s in c && UReach(links, s, t)
    ensures t in c
  {
    var p :| UPath(links, p, s, t);
    var i := 0;
    while i < |p| - 1
      invariant 0 <= i < |p| && p[i] in c
    {
      assert Linked(links, p[i], p[i + 1]);
      i := i + 1;
    }
  }

  /** Reachability is symmetric. */
  lemma ReachReverse(links: seq<(int, int)>, s: int, t: int)
    requires UReach(links, s, t)
    ensures UReach(links, t, s)
  {
    var p :| UPath(links, p, s, t);
    var q := seq(|p|, i requires 0 <= i < |p| => p[|p| - 1 - i]);
    forall i | 0 < i < |q| ensures Linked(links, q[i - 1], q[i]) {
      assert Linked(links, p[|p| - 1 - i], p[|p| - i]);
    }
    assert UPath(links, q, t, s);
  }

  /** Reachability is transitive. */
  lemma ReachJoin(links: seq<(int, int)>, s: int, m: int, t: int)
    requires UReach(links, s, m) && UReach(links, m, t)
    ensures UReach(links, s, t)
  {
    var p :| UPath(links, p, s, m);
    var q :| UPath(links, q, m, t);
    var r := p + q[1..];
    forall i | 0 < i < |r| ensures Linked(links, r[i - 1], r[i]) {
      if i < |p| {
        assert r[i - 1] == p[i - 1] && r[i] == p[i];
      } else if i == |p| {
        assert r[i - 1] == q[0] && r[i] == q[1];
      } else {
        assert r[i - 1] == q[i - |p|] && r[i] == q[i - |p| + 1];
      }
    }
    assert UPath(links, r, s, t);
  }

  /** With fewer links, fewer hubs are reachable. */
  lemma ReachFewer(a: seq<(int, int)>, b: seq<(int, int)>, s: int, t: int)
    requires forall u, w :: (u, w) in a ==> (u, w) in b
    requires UReach(a, s, t)
    ensures UReach(b, s, t)
  {
    var p :| UPath(a, p, s, t);
    assert forall i :: 0 < i < |p| ==> Linked(a, p[i - 1], p[i]) ==> Linked(b, p[i - 1], p[i]);
    assert UPath(b, p, s, t);
  }

  /** Every listed edge gives a link. */
  lemma EdgeLink(g: Graph, e: Edge)
    requires e in g.GetAllEdges()
    ensures (e.Src(), e.Tgt()) in Links(g)
  {
    var all := g.GetAllEdges();
    var i :| 0 <= i < |all| && all[i] == e;
    assert Links(g)[i] == (e.Src(), e.Tgt());
  }

  /** Every link comes from a listed edge. */
  lemma LinkEdge(g: Graph, u: int, w: int) returns (e: Edge)
    requires (u, w) in Links(g)
    ensures e in g.GetAllEdges() && e.Src() == u && e.Tgt() == w
  {
    var all := g.GetAllEdges();
    var i :| 0 <= i < |all| && Links(g)[i] == (u, w);
    e := all[i];
  }

  /** A clone has the same links. */
  lemma ClonedLinks(g: Graph)
    requires g.Valid()
    ensures Links(g.Cloned()) == Links(g)
  {
    ClonedAllEdgeKeys(g);
    EndsOfKeys(g.Cloned().GetAllEdges(), g.GetAllEdges());
  }

  /** Removing an edge from a clone leaves the same links as removing it from the original. */
  lemma ClonedWithoutLinks(g: Graph, u: int, v: int)
    requires g.Valid()
    ensures Links(Without(g.Cloned(), u, v)) == Links(Without(g, u, v))
    ensures Without(g.Cloned(), u, v).nodes.Keys == g.nodes.Keys
  {
    var c := g.Cloned();
    CloneFacts(g);
    var a, b := g.GetOutgoingEdges(u), c.GetOutgoingEdges(u);
    assert Keys(b) == Keys(a);
    FirstWithKeys(a, b, u, v);
    var k := FirstWith(a, u, v);
    if k < |a| {
      RemoveAtKeys(b, a, k);
      var ca, cb := g.adj[u := RemoveAt(a, k)], c.adj[u := RemoveAt(b, k)];
      FlattenKeys(g.ids, cb, ca);
    } else {
      FlattenKeys(g.ids, c.adj, g.adj);
    }
    EndsOfKeys(Without(c, u, v).GetAllEdges(), Without(g, u, v).GetAllEdges());
  }

  /** Hence removing an edge from a clone leaves the same hubs reachable from `u`. */
  lemma ClonedWithoutReached(g: Graph, u: int, v: int)
    requires g.Valid()
    ensures Reached(Without(g.Cloned(), u, v), u) == Reached(Without(g, u, v), u)
  {
    ClonedWithoutLinks(g, u, v);
  }

  /** Removing an edge keeps the hubs and only loses links. */
  lemma WithoutFewerLinks(g: Graph, u: int, v: int)
    requires g.Valid()
    ensures Without(g, u, v).Valid() && Without(g, u, v).nodes == g.nodes && Without(g, u, v).ids == g.ids
    ensures forall x, y :: (x, y) in Links(Without(g, u, v)) ==> (x, y) in Links(g)
  {
    var es := g.GetOutgoingEdges(u);
    var k := FirstWith(es, u, v);
    if k < |es| {
      var h := DropAt(g, u, k);
      DropAtFacts(g, u, k);
      forall x, y | (x, y) in Links(h) ensures (x, y) in Links(g) {
        var e := LinkEdge(h, x, y);
        assert e in multiset(h.GetAllEdges());
        EdgeLink(g, e);
      }
    }
  }

  /** Removing an edge can only shrink the set of reachable hubs. */
  lemma WithoutReachesLess(g: Graph, u: int, v: int, s: int)
    requires g.Valid()
    ensures Reached(Without(g, u, v), s) <= Reached(g, s)
  {
    WithoutFewerLinks(g, u, v);
    forall t | t in Reached(Without(g, u, v), s) ensures t in Reached(g, s) {
      ReachFewer(Links(Without(g, u, v)), Links(g), s, t);
    }
  }

  // ---------------------------------------------------------------------
  // The breadth-first search of CountReachableNodes and IsWeaklyConnected
  // ---------------------------------------------------------------------

  /** The target ids of a list of edges, in order. */
  function Targets(es: seq<Edge>): (r: seq<int>)
    ensures |r| == |es| && forall i :: 0 <= i < |es| ==> r[i] == es[i].Tgt()
  {
    seq(|es|, i requires 0 <= i < |es| => es[i].Tgt())
  }

  /** The source ids of a list of edges, in order. */
  function Sources(es: seq<Edge>): (r: seq<int>)
    ensures |r| == |es| && forall i :: 0 <= i < |es| ==> r[i] == es[i].Src()
  {
    seq(|es|, i requires 0 <= i < |es| => es[i].Src())
  }

  /** The state of the search: found hubs, the queue, and the hubs already expanded. */
  ghost predicate Search(g: Graph, s: int, visited: set<int>, queue: seq<int>, done: set<int>)
  {
    && s in visited && visited <= g.nodes.Keys + {s} && done <= visited
    && (forall v :: v in visited ==> UReach(Links(g), s, v))
    && (forall k :: 0 <= k < |queue| ==> queue[k] in visited)
    && (forall v :: v in visited ==> v in done || v in queue)
    && (forall u, w :: u in done && Linked(Links(g), u, w) ==> w in visited)
  }

  /**
   * One of the two `foreach` loops of the search: every hub of `hubs` not
   * yet visited is visited and joins the queue.
   */
  method Visit(ghost g: Graph, ghost s: int, ghost current: int, hubs: seq<int>, visited: set<int>, queue: seq<int>)
    returns (visited': set<int>, queue': seq<int>)
    requires UReach(Links(g), s, current)
    requires forall k :: 0 <= k < |hubs| ==> hubs[k] in g.nodes && Linked(Links(g), current, hubs[k])
    ensures visited' == visited + set k | 0 <= k < |hubs| :: hubs[k]
    ensures forall v :: v in visited' - visited ==> UReach(Links(g), s, v)
    ensures |queue| <= |queue'| && queue'[..|queue|] == queue
    ensures forall k :: |queue| <= k < |queue'| ==> queue'[k] in visited'
    ensures forall v :: v in visited' ==> v in visited || v in queue'
    ensures visited' == visited ==> queue' == queue
  {
    visited', queue' := visited, queue;
    var i := 0;
    while i < |hubs|
      invariant 0 <= i <= |hubs|
      invariant visited' == visited + set k | 0 <= k < i :: hubs[k]
      invariant forall v :: v in visited' - visited ==> UReach(Links(g), s, v)
      invariant |queue| <= |queue'| && queue'[..|queue|] == queue
      invariant forall k :: |queue| <= k < |queue'| ==> queue'[k] in visited'
      invariant forall v :: v in visited' ==> v in visited || v in queue'
      invariant visited' == visited ==> queue' == queue
    {
      var next := hubs[i];
      ghost var seen := set k | 0 <= k < i :: hubs[k];
      assert (set k | 0 <= k < i + 1 :: hubs[k]) == seen + {next};
      if next !in visited' {
        ReachExtend(Links(g), s, current, next);
        visited' := visited' + {next};
        queue' := queue' + [next];
      }
      i := i + 1;
    }
  }

  /** The targets of the outgoing edges of a hub are hubs linked to it. */
  lemma OutgoingLinked(g: Graph, current: int)
    requires g.Valid()
    ensures forall k :: 0 <= k < |Targets(g.GetOutgoingEdges(current))| ==>
      Targets(g.GetOutgoingEdges(current))[k] in g.nodes && Linked(Links(g), current, Targets(g.GetOutgoingEdges(current))[k])
  {
    var outgoing := g.GetOutgoingEdges(current);
    forall k | 0 <= k < |outgoing| ensures outgoing[k].Tgt() in g.nodes && Linked(Links(g), current, outgoing[k].Tgt()) {
      var e := outgoing[k];
      assert e in outgoing;
      ListedEdge(g, current, e);
      InAllEdges(g, e);
      EdgeLink(g, e);
    }
  }

  /** The sources of the incoming edges of a hub are hubs linked to it. */
  lemma IncomingLinked(g: Graph, current: int)
    requires g.Valid()
    ensures forall k :: 0 <= k < |Sources(g.Incoming(current))| ==>
      Sources(g.Incoming(current))[k] in g.nodes && Linked(Links(g), current, Sources(g.Incoming(current))[k])
  {
    var incoming := g.Incoming(current);
    forall k | 0 <= k < |incoming| ensures incoming[k].Src() in g.nodes && Linked(Links(g), current, incoming[k].Src()) {
      var e := incoming[k];
      assert e in incoming;
      WithTargetMembers(g.GetAllEdges(), current, e);
      InAllEdges(g, e);
      EdgeLink(g, e);
    }
  }

  /** Every hub linked to `current` is a target of its outgoing edges or a source of its incoming ones. */
  lemma LinkedListed(g: Graph, current: int, w: int)
    requires g.Valid() && Linked(Links(g), current, w)
    ensures w in Targets(g.GetOutgoingEdges(current)) || w in Sources(g.Incoming(current))
  {
    if (current, w) in Links(g) {
      var e := LinkEdge(g, current, w);
      InAllEdges(g, e);
      var outgoing := g.GetOutgoingEdges(current);
      var k :| 0 <= k < |outgoing| && outgoing[k] == e;
      assert Targets(outgoing)[k] == w;
    } else {
      var e := LinkEdge(g, w, current);
      WithTargetMembers(g.GetAllEdges(), current, e);
      var incoming := g.Incoming(current);
      var k :| 0 <= k < |incoming| && incoming[k] == e;
      assert Sources(incoming)[k] == w;
    }
  }

  /**
   * The body of the search loop for the hub `current` just dequeued: the
   * targets of its outgoing edges, then the sources of its incoming edges.
   */
  method Expand(graph: LogisticsGraph, ghost s: int, current: int, visited: set<int>, queue: seq<int>)
    returns (visited': set<int>, queue': seq<int>)
    requires graph.Valid() && UReach(Links(graph.View()), s, current)
    ensures visited <= visited' <= visited + graph.View().nodes.Keys
    ensures forall v :: v in visited' - visited ==> UReach(Links(graph.View()), s, v)
    ensures forall w :: Linked(Links(graph.View()), current, w) ==> w in visited'
    ensures |queue| <= |queue'| && queue'[..|queue|] == queue
    ensures forall k :: |queue| <= k < |queue'| ==> queue'[k] in visited'
    ensures forall v :: v in visited' ==> v in visited || v in queue'
    ensures visited' == visited ==> queue' == queue
  {
    ghost var g := graph.View();
    var outgoing := graph.View().GetOutgoingEdges(current);
    OutgoingLinked(g, current);
    var v1, q1 := Visit(g, s, current, Targets(outgoing), visited, queue);
    var incoming := graph.GetIncomingEdges(current);
    IncomingLinked(g, current);
    visited', queue' := Visit(g, s, current, Sources(incoming), v1, q1);
    forall k | |queue| <= k < |queue'| ensures queue'[k] in visited' {
      if k < |q1| {
        assert queue'[k] == q1[k];
      }
    }
    forall w | Linked(Links(g), current, w) ensures w in visited' {
      LinkedListed(g, current, w);
    }
  }

  /** One turn of the search loop keeps its invariant. */
  lemma SearchStep(g: Graph, s: int, visited: set<int>, queue: seq<int>, done: set<int>, current: int,
                   visited': set<int>, queue': seq<int>)
    requires Search(g, s, visited, [current] + queue, done)
    requires visited <= visited' <= visited + g.nodes.Keys
    requires forall v :: v in visited' - visited ==> UReach(Links(g), s, v)
    requires forall w :: Linked(Links(g), current, w) ==> w in visited'
    requires |queue| <= |queue'| && queue'[..|queue|] == queue
    requires forall k :: |queue| <= k < |queue'| ==> queue'[k] in visited'
    requires forall v :: v in visited' ==> v in visited || v in queue'
    ensures Search(g, s, visited', queue', done + {current})
  {
    assert current == ([current] + queue)[0];
    forall k | 0 <= k < |queue| ensures queue'[k] in visited' {
      assert queue'[k] == queue[k] == ([current] + queue)[k + 1];
    }
    forall v | v in visited' ensures v in done + {current} || v in queue' {
      if v in visited && v != current && v !in done {
        var k :| 0 <= k < |[current] + queue| && ([current] + queue)[k] == v;
        assert queue'[k - 1] == queue[k - 1] == v;
      }
    }
  }

  /**
   * The breadth-first search shared by `CountReachableNodes` (lines
   * 118-150) and `IsWeaklyConnected` (lines 165-201): from `start`, along
   * outgoing edges to their targets and along incoming edges to their
   * sources. It visits exactly the hubs reachable from `start`.
   */
  method Explore(graph: LogisticsGraph, start: int) returns (visited: set<int>)
    requires graph.Valid()
    ensures visited == Reached(graph.View(), start)
  {
    ghost var g := graph.View();
    ReachSelf(Links(g), start);
    visited := {start};
    var queue := [start];
    ghost var done: set<int> := {};
    while |queue| > 0
      invariant Search(g, start, visited, queue, done)
      decreases g.nodes.Keys + {start} - visited, |queue|
    {
      var current := queue[0];
      assert queue == [current] + queue[1..];
      queue := queue[1..];
      ghost var before, waiting := visited, queue;
      visited, queue := Expand(graph, start, current, visited, queue);
      SearchStep(g, start, before, waiting, done, current, visited, queue);
      done := done + {current};
      assert g.nodes.Keys + {start} - visited < g.nodes.Keys + {start} - before || visited == before;
    }
    assert LinkClosed(Links(g), visited);
    forall v ensures v in visited <==> v in Reached(g, start) {
      if v in Reached(g, start) {
        ReachInClosed(Links(g), visited, start, v);
      }
    }
  }

  /** `CountReachableNodes` (lines 118-150): the number of hubs the search visits. */
  method CountReachableNodes(graph: LogisticsGraph, startNode: int) returns (count: int)
    requires graph.Valid()
    ensures count == |Reached(graph.View(), startNode)|
  {
    var visited := Explore(graph, startNode);
    count := |visited|;
  }

  /** Every hub is reachable from the first hub of the key order (or there is none). */
  ghost predicate WeaklyConnected(g: Graph)
  {
    g.ids == [] || forall v :: v in g.nodes ==> UReach(Links(g), g.ids[0], v)
  }

  /**
   * `IsWeaklyConnected` (lines 165-201): true for a graph without hubs,
   * else whether the search from the first hub visits every hub.
   */
  method IsWeaklyConnected(graph: LogisticsGraph) returns (connected: bool)
    requires graph.Valid()
    ensures connected <==> WeaklyConnected(graph.View())
  {
    ghost var g := graph.View();
    AllNodesFacts(g);
    var nodes := graph.View().GetAllNodes();
    if |nodes| == 0 {
      return true;
    }
    var visited := Explore(graph, nodes[0].id);
    assert nodes[0].id == g.ids[0] && visited <= g.nodes.Keys;
    assert |g.nodes.Keys| == |nodes|;
    SubsetSize(visited, g.nodes.Keys);
    if |visited| == |nodes| {
      SubsetSameSize(visited, g.nodes.Keys);
    }
    if WeaklyConnected(g) {
      assert g.nodes.Keys <= visited;
      SubsetSize(g.nodes.Keys, visited);
    }
    connected := |visited| == |nodes|;
  }

  /** In a weakly connected graph any hub reaches any other. */
  lemma ConnectedAllPairs(g: Graph, u: int, v: int)
    requires g.Valid() && WeaklyConnected(g) && u in g.nodes && v in g.nodes
    ensures UReach(Links(g), u, v)
  {
    IdsFacts(g);
    var r := g.ids[0];
    ReachReverse(Links(g), r, u);
    ReachJoin(Links(g), u, r, v);
  }

  // ---------------------------------------------------------------------
  // Bridges
  // ---------------------------------------------------------------------

  /** The edge from `u` to `v` is a bridge: removing it lowers the count of hubs reachable from `u`. */
  ghost predicate Bridge(g: Graph, u: int, v: int)
  {
    |Reached(Without(g, u, v), u)| < |Reached(g, u)|
  }

  /**
   * `IsBridge` (lines 106-116): counts the hubs reachable from the edge's
   * source, removes the edge from a clone and counts again.
   */
  method IsBridge(graph: LogisticsGraph, edge: Edge) returns (isBridge: bool)
    requires graph.Valid()
    ensures isBridge <==> Bridge(graph.View(), edge.Src(), edge.Tgt())
  {
    ghost var g := graph.View();
    var reachableBeforeCount := CountReachableNodes(graph, edge.Src());
    var tempGraph := graph.Clone();
    RemoveEdge(tempGraph, edge);
    var reachableAfterCount := CountReachableNodes(tempGraph, edge.Src());
    ClonedWithoutReached(g, edge.Src(), edge.Tgt());
    isBridge := reachableAfterCount < reachableBeforeCount;
  }

  /** An edge is a bridge exactly when some hub reachable from its source is cut off by removing it. */
  lemma BridgeCutsOff(g: Graph, u: int, v: int)
    requires g.Valid()
    ensures Bridge(g, u, v) <==> exists w :: w in Reached(g, u) && w !in Reached(Without(g, u, v), u)
  {
    var before, after := Reached(g, u), Reached(Without(g, u, v), u);
    WithoutReachesLess(g, u, v, u);
    if Bridge(g, u, v) {
      if before <= after {
        SubsetSize(before, after);
      }
    } else if before - after != {} {
      var w := Pick(before - after);
      SubsetSize(after, before - {w});
    }
  }

  // ---------------------------------------------------------------------
  // The degree scan
  // ---------------------------------------------------------------------

  /** A hub whose in-degree and out-degree differ. */
  predicate Unbalanced(g: Graph, v: int)
  {
    g.GetInDegree(v) != g.GetOutDegree(v)
  }

  /** A hub with one outgoing edge more than incoming ones. */
  predicate Surplus(g: Graph, v: int)
  {
    g.GetOutDegree(v) == g.GetInDegree(v) + 1
  }

  /** The unbalanced hubs among `ids`. */
  function UnbalancedAmong(g: Graph, ids: seq<int>): set<int>
  {
    set v | v in ids && Unbalanced(g, v)
  }

  /** The unbalanced hubs of the graph: `oddDegreeCount` is their number. */
  function UnbalancedHubs(g: Graph): set<int>
  {
    set v | v in g.nodes && Unbalanced(g, v)
  }

  /** `startNode` after the scan of `ids`: the last surplus hub, or -1. */
  function LastSurplus(g: Graph, ids: seq<int>): int
  {
    if ids == [] then -1
    else if Surplus(g, ids[|ids| - 1]) then ids[|ids| - 1]
    else LastSurplus(g, ids[..|ids| - 1])
  }

  /** `LastSurplus` is -1 when no hub of `ids` has a surplus, else the last one that has. */
  lemma {:induction false} LastSurplusIsLast(g: Graph, ids: seq<int>)
    ensures || (LastSurplus(g, ids) == -1 && forall k :: 0 <= k < |ids| ==> !Surplus(g, ids[k]))
            || (exists k :: 0 <= k < |ids| && ids[k] == LastSurplus(g, ids) && Surplus(g, ids[k])
                            && forall j :: k < j < |ids| ==> !Surplus(g, ids[j]))
  {
    if ids != [] {
      var n := |ids| - 1;
      if Surplus(g, ids[n]) {
        assert ids[n] == LastSurplus(g, ids);
      } else {
        var front := ids[..n];
        LastSurplusIsLast(g, front);
        assert forall k :: 0 <= k < n ==> front[k] == ids[k];
      }
    }
  }

  /** Scanning one more hub: it joins the unbalanced ones if it is unbalanced, and may become the start. */
  lemma ScanStep(g: Graph, i: int)
    requires Distinct(g.ids) && 0 <= i < |g.ids|
    ensures |UnbalancedAmong(g, g.ids[..i + 1])| == |UnbalancedAmong(g, g.ids[..i])| + (if Unbalanced(g, g.ids[i]) then 1 else 0)
    ensures LastSurplus(g, g.ids[..i + 1]) == if Surplus(g, g.ids[i]) then g.ids[i] else LastSurplus(g, g.ids[..i])
  {
    var id := g.ids[i];
    TakeSnoc(g.ids, i);
    DistinctNotInPrefix(g.ids, i);
    assert g.ids[..i + 1][..i] == g.ids[..i];
    assert UnbalancedAmong(g, g.ids[..i + 1]) == UnbalancedAmong(g, g.ids[..i]) + (if Unbalanced(g, id) then {id} else {});
  }

  /**
   * The `foreach` of lines 15-29: counts the hubs whose in-degree and
   * out-degree differ and keeps the last one with an outgoing surplus of one.
   */
  method ScanDegrees(graph: LogisticsGraph) returns (oddDegreeCount: int, startNode: int)
    requires graph.Valid()
    ensures oddDegreeCount == |UnbalancedHubs(graph.View())|
    ensures startNode == LastSurplus(graph.View(), graph.View().ids)
  {
    var g := graph.View();
    AllNodesFacts(g);
    IdsFacts(g);
    var nodes := g.GetAllNodes();
    oddDegreeCount, startNode := 0, -1;
    var i := 0;
    while i < |nodes|
      invariant 0 <= i <= |nodes|
      invariant oddDegreeCount == |UnbalancedAmong(g, g.ids[..i])|
      invariant startNode == LastSurplus(g, g.ids[..i])
    {
      var id := nodes[i].id;
      var inDegree := g.GetInDegree(id);
      var outDegree := g.GetOutDegree(id);
      ScanStep(g, i);
      if inDegree != outDegree {
        oddDegreeCount := oddDegreeCount + 1;
        if outDegree == inDegree + 1 {
          startNode := id;
        }
      }
      i := i + 1;
    }
    TakeAll(g.ids);
    assert UnbalancedAmong(g, g.ids) == UnbalancedHubs(g);
  }

  // ---------------------------------------------------------------------
  // Fleury's walk
  // ---------------------------------------------------------------------

  /** The edge `e` of `g` is a bridge of what is left. */
  ghost predicate BridgeEdge(g: Graph, e: Edge)
  {
    Bridge(g, e.Src(), e.Tgt())
  }

  /**
   * The choice of lines 72-93: the only outgoing edge; else the first one
   * that is not a bridge; else the first one.
   */
  method ChooseEdge(workingGraph: LogisticsGraph, outgoingEdges: seq<Edge>) returns (j: int)
    requires workingGraph.Valid() && |outgoingEdges| > 0
    ensures 0 <= j < |outgoingEdges|
    ensures |outgoingEdges| == 1 ==> j == 0
    ensures |outgoingEdges| > 1 ==> forall k :: 0 <= k < j ==> BridgeEdge(workingGraph.View(), outgoingEdges[k])
    ensures |outgoingEdges| > 1 ==>
      || !BridgeEdge(workingGraph.View(), outgoingEdges[j])
      || (j == 0 && forall k :: 0 <= k < |outgoingEdges| ==> BridgeEdge(workingGraph.View(), outgoingEdges[k]))
  {
    if |outgoingEdges| == 1 {
      return 0;
    }
    var i := 0;
    while i < |outgoingEdges|
      invariant 0 <= i <= |outgoingEdges|
      invariant forall k :: 0 <= k < i ==> BridgeEdge(workingGraph.View(), outgoingEdges[k])
    {
      var isBridge := IsBridge(workingGraph, outgoingEdges[i]);
      if !isBridge {
        return i;
      }
      i := i + 1;
    }
    return 0;
  }

  /** `p` is a walk from `s`: each edge leaves the hub the previous one entered. */
  predicate Walk(p: seq<Edge>, s: int)
  {
    && (|p| > 0 ==> p[0].Src() == s)
    && forall i :: 0 < i < |p| ==> p[i].Src() == p[i - 1].Tgt()
  }

  /** The hub a walk from `s` ends at. */
  function Stop(p: seq<Edge>, s: int): int
  {
    if p == [] then s else p[|p| - 1].Tgt()
  }

  lemma WalkSnoc(p: seq<Edge>, s: int, e: Edge)
    requires Walk(p, s) && e.Src() == Stop(p, s)
    ensures Walk(p + [e], s) && Stop(p + [e], s) == e.Tgt()
  {
  }

  /** A new graph object holding the same dictionaries: the working copy shares the original edges. */
  method Share(graph: LogisticsGraph) returns (copy: LogisticsGraph)
    ensures fresh(copy) && copy.View() == graph.View()
  {
    copy := new LogisticsGraph();
    copy.ids, copy.nodes, copy.adj := graph.ids, graph.nodes, graph.adj;
  }

  /**
   * A step of the walk: the entry at `j` of the current hub's list is
   * removed itself (`edges.Remove(chosenEdge)`).
   */
  method RemoveChosen(workingGraph: LogisticsGraph, u: int, j: int)
    requires workingGraph.Valid() && u in workingGraph.adj && 0 <= j < |workingGraph.adj[u]|
    modifies workingGraph
    ensures workingGraph.Valid() && workingGraph.View() == DropAt(old(workingGraph.View()), u, j)
  {
    DropAtValid(workingGraph.View(), u, j);
    workingGraph.adj := workingGraph.adj[u := RemoveAt(workingGraph.adj[u], j)];
  }

  /**
   * Fleury's loop (lines 57-104) with the walk recorded by the edges it
   * takes: the working copy holds the graph's own edges, the chosen edge is
   * appended and then removed itself. The result is a walk from `startNode`
   * that uses each edge at most as often as the graph lists it; it uses
   * them all, or else every edge leaving the hub where it stops is used up.
   */
  method Fleury(graph: LogisticsGraph, startNode: int) returns (path: seq<Edge>)
    requires graph.Valid()
    ensures Walk(path, startNode)
    ensures multiset(path) <= multiset(graph.View().GetAllEdges())
    ensures |path| == graph.View().EdgeCount() ==> multiset(path) == multiset(graph.View().GetAllEdges())
    ensures |path| < graph.View().EdgeCount() ==>
      forall e :: e in graph.View().GetAllEdges() && e.Src() == Stop(path, startNode) ==>
        multiset(path)[e] == multiset(graph.View().GetAllEdges())[e]
  {
    ghost var g := graph.View();
    var workingGraph := Share(graph);
    path := [];
    var currentNode := startNode;
    while workingGraph.View().EdgeCount() > 0
      invariant fresh(workingGraph) && workingGraph.Valid()
      invariant multiset(path) + multiset(workingGraph.View().GetAllEdges()) == multiset(g.GetAllEdges())
      invariant |path| + workingGraph.View().EdgeCount() == g.EdgeCount()
      invariant Walk(path, startNode) && Stop(path, startNode) == currentNode
      decreases workingGraph.View().EdgeCount()
    {
      var outgoingEdges := workingGraph.View().GetOutgoingEdges(currentNode);
      if |outgoingEdges| == 0 {
        break;
      }
      var j := ChooseEdge(workingGraph, outgoingEdges);
      var chosenEdge := outgoingEdges[j];
      FleuryStep(g, workingGraph.View(), path, startNode, currentNode, j);
      path := path + [chosenEdge];
      currentNode := chosenEdge.Tgt();
      RemoveChosen(workingGraph, chosenEdge.Src(), j);
    }
    FleuryEnd(g, workingGraph.View(), path, currentNode);
  }

  /** One turn of Fleury's loop keeps its invariant. */
  lemma FleuryStep(g: Graph, w: Graph, path: seq<Edge>, s: int, current: int, j: int)
    requires w.Valid() && 0 <= j < |w.GetOutgoingEdges(current)|
    requires multiset(path) + multiset(w.GetAllEdges()) == multiset(g.GetAllEdges())
    requires |path| + w.EdgeCount() == g.EdgeCount()
    requires Walk(path, s) && Stop(path, s) == current
    ensures current in w.adj && w.adj[current][j].Src() == current
    ensures multiset(path + [w.adj[current][j]]) + multiset(DropAt(w, current, j).GetAllEdges()) == multiset(g.GetAllEdges())
    ensures |path + [w.adj[current][j]]| + DropAt(w, current, j).EdgeCount() == g.EdgeCount()
    ensures Walk(path + [w.adj[current][j]], s) && Stop(path + [w.adj[current][j]], s) == w.adj[current][j].Tgt()
  {
    var e := w.adj[current][j];
    assert e in w.adj[current];
    ListedEdge(w, current, e);
    DropAtEdges(w, current, j);
    WalkSnoc(path, s, e);
  }

  /** What the end of the loop gives: all edges are used, or none is left at the final hub. */
  lemma FleuryEnd(g: Graph, w: Graph, path: seq<Edge>, current: int)
    requires w.Valid()
    requires multiset(path) + multiset(w.GetAllEdges()) == multiset(g.GetAllEdges())
    requires |path| + w.EdgeCount() == g.EdgeCount()
    requires w.EdgeCount() == 0 || w.GetOutgoingEdges(current) == []
    ensures multiset(path) <= multiset(g.GetAllEdges())
    ensures |path| == g.EdgeCount() ==> multiset(path) == multiset(g.GetAllEdges())
    ensures |path| < g.EdgeCount() ==>
      forall e :: e in g.GetAllEdges() && e.Src() == current ==> multiset(path)[e] == multiset(g.GetAllEdges())[e]
  {
    EdgeCountIsAllEdges(w);
    if |path| == g.EdgeCount() {
      assert w.GetAllEdges() == [];
    }
    forall e | e in w.GetAllEdges() && e.Src() == current ensures false {
      InAllEdges(w, e);
      EdgeCountIsAllEdges(w);
    }
  }

  /** Fleury's result is an Eulerian trail from `s`: a walk using every edge exactly once. */
  ghost predicate EulerTrail(g: Graph, p: seq<Edge>, s: int)
  {
    Walk(p, s) && multiset(p) == multiset(g.GetAllEdges())
  }

  /** The start the source picks: the first hub when all are balanced, else the last surplus hub. */
  function StartHub(g: Graph): int
  {
    if |UnbalancedHubs(g)| == 0 && g.ids != [] then g.ids[0] else LastSurplus(g, g.ids)
  }

  /**
   * `FindEulerianPath` (lines 8-55): no walk with more than two unbalanced
   * hubs, or when the graph is not weakly connected; else Fleury's walk from
   * the start hub, reported possible exactly when it uses every edge.
   */
  method FindEulerianPath(graph: LogisticsGraph) returns (result: EulerianResult)
    requires graph.Valid() && graph.View().NodeCount() > 0
    ensures |UnbalancedHubs(graph.View())| > 2 ==> result == NoWalk
    ensures !WeaklyConnected(graph.View()) ==> result == NoWalk
    ensures !result.isPossible ==> result == NoWalk
    ensures result.isPossible ==> EulerTrail(graph.View(), result.path, StartHub(graph.View()))
  {
    ghost var g := graph.View();
    AllNodesFacts(g);
    var oddDegreeCount, startNode := ScanDegrees(graph);
    if oddDegreeCount > 2 {
      return NoWalk;
    }
    if oddDegreeCount == 0 {
      startNode := graph.View().GetAllNodes()[0].id;
    }
    var connected := IsWeaklyConnected(graph);
    if !connected {
      return NoWalk;
    }
    var path := Fleury(graph, startNode);
    if |path| == graph.View().EdgeCount() {
      return EulerianResult(true, path);
    }
    return NoWalk;
  }

  // ---------------------------------------------------------------------
  // The walk as the source records it
  // ---------------------------------------------------------------------

  /** `e` is the first edge of its source's list with its source and target ids. */
  predicate Earliest(g: Graph, e: Edge)
  {
    var es := g.GetOutgoingEdges(e.Src());
    var k := FirstWith(es, e.Src(), e.Tgt());
    k < |es| && es[k] == e
  }

  /** Every edge left in the working copy `w` has a counterpart with the same ends in `g`. */
  ghost predicate Matched(g: Graph, w: Graph)
  {
    forall u, i :: u in w.adj && 0 <= i < |w.adj[u]| ==>
      FirstWith(g.GetOutgoingEdges(u), u, w.adj[u][i].Tgt()) < |g.GetOutgoingEdges(u)|
  }

  /** A clone is matched with its original. */
  lemma MatchedClone(g: Graph)
    requires g.Valid()
    ensures Matched(g, g.Cloned())
  {
    var c := g.Cloned();
    CloneFacts(g);
    forall u, i | u in c.adj && 0 <= i < |c.adj[u]|
      ensures FirstWith(g.GetOutgoingEdges(u), u, c.adj[u][i].Tgt()) < |g.GetOutgoingEdges(u)|
    {
      assert Key(c.adj[u][i]) == Key(g.adj[u][i]);
      assert g.adj[u][i] in g.adj[u];
      ListedEdge(g, u, g.adj[u][i]);
      FirstWithAt(g.adj[u], i);
    }
  }

  /** Removing an edge from the working copy keeps it matched. */
  lemma MatchedDrop(g: Graph, w: Graph, u: int, k: int)
    requires Matched(g, w) && u in w.adj && 0 <= k < |w.adj[u]|
    ensures Matched(g, DropAt(w, u, k))
  {
    var h := DropAt(w, u, k);
    var es := w.adj[u];
    var r := RemoveAt(es, k);
    forall x, i | x in h.adj && 0 <= i < |h.adj[x]|
      ensures FirstWith(g.GetOutgoingEdges(x), x, h.adj[x][i].Tgt()) < |g.GetOutgoingEdges(x)|
    {
      if x == u {
        if i < k { assert r[i] == es[i]; } else { assert r[i] == es[i + 1]; }
      }
    }
  }

  /**
   * Fleury's loop (lines 57-104) as written: the working copy is a clone,
   * `RemoveEdge` drops the first working edge with the chosen edge's ends,
   * and what is recorded is the first edge of the original list with those
   * ends. So every recorded edge is the earliest of its parallel edges.
   */
  method FleuryAsWritten(graph: LogisticsGraph, startNode: int) returns (path: seq<Edge>)
    requires graph.Valid()
    ensures Walk(path, startNode)
    ensures |path| <= graph.View().EdgeCount()
    ensures forall i :: 0 <= i < |path| ==> Earliest(graph.View(), path[i])
  {
    ghost var g := graph.View();
    var workingGraph := graph.Clone();
    CloneFacts(g);
    MatchedClone(g);
    path := [];
    var currentNode := startNode;
    assert AsWrittenInv(g, workingGraph.View(), path, startNode, currentNode);
    while workingGraph.View().EdgeCount() > 0
      invariant fresh(workingGraph) && workingGraph.Valid()
      invariant AsWrittenInv(g, workingGraph.View(), path, startNode, currentNode)
      decreases workingGraph.View().EdgeCount()
    {
      var outgoingEdges := workingGraph.View().GetOutgoingEdges(currentNode);
      if |outgoingEdges| == 0 {
        break;
      }
      var j := ChooseEdge(workingGraph, outgoingEdges);
      var chosenEdge := outgoingEdges[j];
      var original := graph.View().GetOutgoingEdges(currentNode);
      var k := FirstWith(original, chosenEdge.Src(), chosenEdge.Tgt());
      AsWrittenStep(g, workingGraph.View(), path, startNode, currentNode, j);
      path := path + [original[k]];
      currentNode := chosenEdge.Tgt();
      RemoveEdge(workingGraph, chosenEdge);
    }
  }

  /** The invariant of the as-written loop. */
  ghost predicate AsWrittenInv(g: Graph, w: Graph, path: seq<Edge>, s: int, current: int)
  {
    && Matched(g, w)
    && |path| + w.EdgeCount() == g.EdgeCount()
    && Walk(path, s) && Stop(path, s) == current
    && forall i :: 0 <= i < |path| ==> Earliest(g, path[i])
  }

  /** One turn of the as-written loop keeps its invariant. */
  lemma AsWrittenStep(g: Graph, w: Graph, path: seq<Edge>, s: int, current: int, j: int)
    requires g.Valid() && w.Valid() && 0 <= j < |w.GetOutgoingEdges(current)|
    requires AsWrittenInv(g, w, path, s, current)
    ensures var e := w.adj[current][j];
            var es := g.GetOutgoingEdges(current);
            var k := FirstWith(es, e.Src(), e.Tgt());
            && e.Src() == current && k < |es|
            && Without(w, current, e.Tgt()).EdgeCount() < w.EdgeCount()
            && AsWrittenInv(g, Without(w, current, e.Tgt()), path + [es[k]], s, e.Tgt())
  {
    var e := w.adj[current][j];
    assert e in w.adj[current];
    ListedEdge(w, current, e);
    var es := g.GetOutgoingEdges(current);
    var k := FirstWith(es, current, e.Tgt());
    var f := FirstWith(w.adj[current], current, e.Tgt());
    FirstWithAt(w.adj[current], j);
    DropAtEdges(w, current, f);
    MatchedDrop(g, w, current, f);
    WalkSnoc(path, s, es[k]);
  }

  /**
   * Two hubs joined by two parallel edges each way (costs 1 and 2): it has
   * the Eulerian circuit `[a, c, b, d]` from hub 1.
   */
  function ParallelHubs(): Graph
  {
    var n1, n2 := Node(1, "1"), Node(2, "2");
    Graph([1, 2], map[1 := n1, 2 := n2],
          map[1 := [Edge(n1, n2, 1, Infinity, 0), Edge(n1, n2, 2, Infinity, 0)],
              2 := [Edge(n2, n1, 1, Infinity, 0), Edge(n2, n1, 2, Infinity, 0)]])
  }

  lemma ParallelHubsValid()
    ensures ParallelHubs().Valid()
  {
    var g := ParallelHubs();
    assert [1, 2][..1] == [1] && [1][..0] == [];
    assert {1, 2} - {2} == {1} && {1} - {1} == {};
    assert KeyOrder([1, 2], g.nodes.Keys);
  }

  lemma ParallelHubsHaveCircuit()
    ensures var g := ParallelHubs();
            EulerTrail(g, [g.adj[1][0], g.adj[2][0], g.adj[1][1], g.adj[2][1]], 1)
  {
    var g := ParallelHubs();
    assert g.GetAllEdges() == g.adj[1] + g.adj[2];
  }

  /**
   * On `ParallelHubs` no sequence of earliest edges lists every edge: the
   * second edge from 1 to 2 is never recorded, so whatever `FleuryAsWritten`
   * returns is not an Eulerian trail.
   */
  lemma ParallelEdgesLost(p: seq<Edge>)
    requires forall i :: 0 <= i < |p| ==> Earliest(ParallelHubs(), p[i])
    ensures multiset(p) != multiset(ParallelHubs().GetAllEdges())
  {
    var g := ParallelHubs();
    var b := g.adj[1][1];
    assert g.GetAllEdges() == g.adj[1] + g.adj[2];
    assert b in multiset(g.GetAllEdges());
    assert !Earliest(g, b);
    assert b !in multiset(p);
  }

  // ---------------------------------------------------------------------
  // Degrees along an Eulerian trail
  // ---------------------------------------------------------------------

  /** Along a walk from `s`, each hub is left as often as it is entered, save the start and the end. */
  lemma {:induction false} WalkBalance(p: seq<Edge>, s: int, v: int)
    requires Walk(p, s)
    ensures |WithSource(p, v)| + (if v == Stop(p, s) then 1 else 0) == |WithTarget(p, v)| + (if v == s then 1 else 0)
  {
    if p != [] {
      var q, e := p[..|p| - 1], p[|p| - 1];
      assert p == q + [e];
      assert Walk(q, s) by {
        forall i | 0 < i < |q| ensures q[i].Src() == q[i - 1].Tgt() {
          assert q[i] == p[i] && q[i - 1] == p[i - 1];
        }
      }
      WalkBalance(q, s, v);
      WithSourceAppend(q, [e], v);
      WithTargetAppend(q, [e], v);
      assert e.Src() == Stop(q, s) by {
        if q != [] { assert q[|q| - 1] == p[|p| - 2]; }
      }
    }
  }

  /** Taking the entry at `i` out of a list takes its share out of the counts of leaving and entering edges. */
  lemma CountsWithoutEntry(b: seq<Edge>, i: int, v: int)
    requires 0 <= i < |b|
    ensures |WithSource(b, v)| == |WithSource(RemoveAt(b, i), v)| + |WithSource([b[i]], v)|
    ensures |WithTarget(b, v)| == |WithTarget(RemoveAt(b, i), v)| + |WithTarget([b[i]], v)|
  {
    var front, back := b[..i], b[i + 1..];
    assert b == front + [b[i]] + back;
    WithSourceAppend(front, [b[i]], v);
    WithSourceAppend(front + [b[i]], back, v);
    WithSourceAppend(front, back, v);
    WithTargetAppend(front, [b[i]], v);
    WithTargetAppend(front + [b[i]], back, v);
    WithTargetAppend(front, back, v);
  }

  /** Lists holding the same edges have as many leaving, and as many entering, any hub. */
  lemma {:induction false} SameEdgesSameCounts(a: seq<Edge>, b: seq<Edge>, v: int)
    requires multiset(a) == multiset(b)
    ensures |WithSource(a, v)| == |WithSource(b, v)| && |WithTarget(a, v)| == |WithTarget(b, v)|
    decreases |a|
  {
    if a != [] {
      var x := a[0];
      assert x in multiset(a);
      var i :| 0 <= i < |b| && b[i] == x;
      assert a == [x] + a[1..];
      assert multiset(a[1..]) == multiset(a) - multiset{x};
      SameEdgesSameCounts(a[1..], RemoveAt(b, i), v);
      CountsWithoutEntry(b, i, v);
      WithSourceAppend([x], a[1..], v);
      WithTargetAppend([x], a[1..], v);
    }
  }

  /**
   * The degree condition the scan checks is necessary: in a graph with an
   * Eulerian trail from `s` to `t`, every other hub is balanced; if `s` and
   * `t` differ, `s` has one outgoing edge more and `t` one incoming edge
   * more; if they are equal, every hub is balanced.
   */
  lemma TrailDegrees(g: Graph, p: seq<Edge>, s: int)
    requires g.Valid() && EulerTrail(g, p, s)
    ensures forall v :: v != s && v != Stop(p, s) ==> !Unbalanced(g, v)
    ensures s != Stop(p, s) ==> Surplus(g, s) && g.GetInDegree(Stop(p, s)) == g.GetOutDegree(Stop(p, s)) + 1
    ensures s == Stop(p, s) ==> UnbalancedHubs(g) == {}
    ensures |UnbalancedHubs(g)| <= 2
  {
    var t := Stop(p, s);
    forall v ensures g.GetOutDegree(v) + (if v == t then 1 else 0) == g.GetInDegree(v) + (if v == s then 1 else 0) {
      WalkBalance(p, s, v);
      SameEdgesSameCounts(p, g.GetAllEdges(), v);
      OutDegreeCountsSources(g, v);
    }
    assert UnbalancedHubs(g) <= {s, t};
    SubsetSize(UnbalancedHubs(g), {s, t});
    if s == t {
      assert {s, t} == {s};
    }
  }
}
