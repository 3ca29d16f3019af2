/**
 * The directed multigraph of hubs and routes (Models/LogisticsGraph.cs).
 *
 * `Graph` is the value held by a `LogisticsGraph` object: `ids` is the key
 * order of both dictionaries (nodes are never removed, so it is insertion
 * order), `nodes` maps an id to its node and `adj` maps an id to its ordered
 * list of outgoing edges. All queries are functions of that value; the class
 * holds the three fields and the operations that change them.
 */
module GraphModel {
  import opened Basics
  import opened NodeModel
  import opened EdgeModel

  /** The edges of `es` that enter `v`, in order (`edges.Where(e => e.Target.Id == v)`). */
  function WithTarget(es: seq<Edge>, v: int): (r: seq<Edge>)
    ensures |r| <= |es|
  {
    if es == [] then []
    else (if es[0].Tgt() == v then [es[0]] else []) + WithTarget(es[1..], v)
  }

  /** An edge is kept exactly when it is in `es` and enters `v`. */
  lemma {:induction false} WithTargetMembers(es: seq<Edge>, v: int, e: Edge)
    ensures e in WithTarget(es, v) <==> e in es && e.Tgt() == v
  {
    if es != [] {
      WithTargetMembers(es[1..], v, e);
      assert es == [es[0]] + es[1..];
    }
  }

  lemma {:induction false} WithTargetAppend(a: seq<Edge>, b: seq<Edge>, v: int)
    ensures WithTarget(a + b, v) == WithTarget(a, v) + WithTarget(b, v)
  {
    if a != [] {
      var h := if a[0].Tgt() == v then [a[0]] else [];
      calc {
        WithTarget(a + b, v);
        { assert (a + b)[0] == a[0] && (a + b)[1..] == a[1..] + b; }
        h + WithTarget(a[1..] + b, v);
        { WithTargetAppend(a[1..], b, v); }
        h + (WithTarget(a[1..], v) + WithTarget(b, v));
        (h + WithTarget(a[1..], v)) + WithTarget(b, v);
      }
    } else {
      assert a + b == b;
    }
  }

  /** The edges of `es` that leave `u`, in order. */
  function WithSource(es: seq<Edge>, u: int): (r: seq<Edge>)
    ensures |r| <= |es|
  {
    if es == [] then []
    else (if es[0].Src() == u then [es[0]] else []) + WithSource(es[1..], u)
  }

  /** An edge is kept exactly when it is in `es` and leaves `u`. */
  lemma {:induction false} WithSourceMembers(es: seq<Edge>, u: int, e: Edge)
    ensures e in WithSource(es, u) <==> e in es && e.Src() == u
  {
    if es != [] {
      WithSourceMembers(es[1..], u, e);
      assert es == [es[0]] + es[1..];
    }
  }

  lemma {:induction false} WithSourceAppend(a: seq<Edge>, b: seq<Edge>, u: int)
    ensures WithSource(a + b, u) == WithSource(a, u) + WithSource(b, u)
  {
    if a != [] {
      var h := if a[0].Src() == u then [a[0]] else [];
      calc {
        WithSource(a + b, u);
        { assert (a + b)[0] == a[0] && (a + b)[1..] == a[1..] + b; }
        h + WithSource(a[1..] + b, u);
        { WithSourceAppend(a[1..], b, u); }
        h + (WithSource(a[1..], u) + WithSource(b, u));
        (h + WithSource(a[1..], u)) + WithSource(b, u);
      }
    } else {
      assert a + b == b;
    }
  }

  lemma {:induction false} WithSourceAll(es: seq<Edge>, u: int)
    requires forall e :: e in es ==> e.Src() == u
    ensures WithSource(es, u) == es
    ensures forall w :: w != u ==> WithSource(es, w) == []
  {
    if es != [] {
      WithSourceAll(es[1..], u);
    }
  }

  /** The lists of `ids`, one after the other (`SelectMany` over the dictionary values). */
  function Flatten(ids: seq<int>, adj: map<int, seq<Edge>>): seq<Edge>
  {
    if ids == [] then [] else (if ids[0] in adj then adj[ids[0]] else []) + Flatten(ids[1..], adj)
  }

  /** The sum of the lengths of the lists of `ids`. */
  function TotalLength(ids: seq<int>, adj: map<int, seq<Edge>>): nat
  {
    if ids == [] then 0 else (if ids[0] in adj then |adj[ids[0]]| else 0) + TotalLength(ids[1..], adj)
  }

  /** The nodes of `ids`, in that order (the dictionary values). */
  function NodeValues(ids: seq<int>, nodes: map<int, Node>): seq<Node>
  {
    if ids == [] then [] else (if ids[0] in nodes then [nodes[ids[0]]] else []) + NodeValues(ids[1..], nodes)
  }

  lemma {:induction false} FlattenSnoc(ids: seq<int>, adj: map<int, seq<Edge>>, u: int)
    ensures Flatten(ids + [u], adj) == Flatten(ids, adj) + (if u in adj then adj[u] else [])
  {
    if ids != [] {
      assert (ids + [u])[1..] == ids[1..] + [u];
      FlattenSnoc(ids[1..], adj, u);
    }
  }

  lemma {:induction false} TotalLengthIsFlattenLength(ids: seq<int>, adj: map<int, seq<Edge>>)
    ensures TotalLength(ids, adj) == |Flatten(ids, adj)|
  {
    if ids != [] {
      TotalLengthIsFlattenLength(ids[1..], adj);
    }
  }

  /** An edge is in the concatenation exactly when it is in the list of some id. */
  lemma {:induction false} InFlatten(ids: seq<int>, adj: map<int, seq<Edge>>, e: Edge)
    ensures e in Flatten(ids, adj) <==> exists u :: u in ids && u in adj && e in adj[u]
  {
    if ids != [] {
      InFlatten(ids[1..], adj, e);
      var head := if ids[0] in adj then adj[ids[0]] else [];
      assert Flatten(ids, adj) == head + Flatten(ids[1..], adj);
      if ids[0] in adj && e in adj[ids[0]] {
        var u := ids[0];
        assert u in ids && u in adj && e in adj[u];
        assert e in Flatten(ids, adj);
      } else if e in Flatten(ids[1..], adj) {
        var u :| u in ids[1..] && u in adj && e in adj[u];
        assert u in ids;
      } else {
        assert e !in Flatten(ids, adj);
        forall u | u in ids && u in adj ensures e !in adj[u] {
          if u != ids[0] {
            assert u in ids[1..];
          }
        }
      }
    }
  }

  /** The tail of a sequence without repetitions has none either, and lacks the head. */
  lemma DistinctTail(ids: seq<int>)
    requires Distinct(ids) && ids != []
    ensures Distinct(ids[1..]) && ids[0] !in ids[1..]
  {
    forall i, j | 0 <= i < j < |ids[1..]| ensures ids[1..][i] != ids[1..][j] {
      assert ids[1..][i] == ids[i + 1] && ids[1..][j] == ids[j + 1];
    }
    forall k | 0 <= k < |ids[1..]| ensures ids[1..][k] != ids[0] {
      assert ids[1..][k] == ids[k + 1];
    }
  }

  /** Changing the list of an id that is not enumerated changes nothing. */
  lemma {:induction false} FlattenUpdateAbsent(ids: seq<int>, adj: map<int, seq<Edge>>, u: int, l: seq<Edge>)
    requires u !in ids
    ensures Flatten(ids, adj[u := l]) == Flatten(ids, adj)
    ensures TotalLength(ids, adj[u := l]) == TotalLength(ids, adj)
  {
    if ids != [] {
      FlattenUpdateAbsent(ids[1..], adj, u, l);
    }
  }

  /**
   * Replacing the list of an id that is enumerated once replaces its edges in
   * the concatenation: same multiset of edges otherwise, length adjusted.
   */
  lemma {:induction false} FlattenUpdate(ids: seq<int>, adj: map<int, seq<Edge>>, u: int, l: seq<Edge>)
    requires Distinct(ids) && u in ids && u in adj
    ensures multiset(Flatten(ids, adj[u := l])) == multiset(Flatten(ids, adj)) - multiset(adj[u]) + multiset(l)
    ensures TotalLength(ids, adj[u := l]) == TotalLength(ids, adj) - |adj[u]| + |l|
  {
    DistinctTail(ids);
    var adj' := adj[u := l];
    var head := if ids[0] in adj then adj[ids[0]] else [];
    if ids[0] == u {
      FlattenUpdateAbsent(ids[1..], adj, u, l);
      assert Flatten(ids, adj) == adj[u] + Flatten(ids[1..], adj);
      assert Flatten(ids, adj') == l + Flatten(ids[1..], adj);
    } else {
      FlattenUpdate(ids[1..], adj, u, l);
      assert Flatten(ids, adj) == head + Flatten(ids[1..], adj);
      assert Flatten(ids, adj') == head + Flatten(ids[1..], adj');
      assert multiset(adj[u]) <= multiset(Flatten(ids[1..], adj)) by {
        FlattenContainsList(ids[1..], adj, u);
      }
    }
  }

  /** The concatenation contains each enumerated list as a sub-multiset. */
  lemma {:induction false} FlattenContainsList(ids: seq<int>, adj: map<int, seq<Edge>>, u: int)
    requires u in ids && u in adj
    ensures multiset(adj[u]) <= multiset(Flatten(ids, adj))
  {
    if ids[0] != u {
      FlattenContainsList(ids[1..], adj, u);
    }
  }

  /**
   * `ids` lists every key of `keys` exactly once: the enumeration order of a
   * dictionary whose keys are `keys`. Stated recursively, last key first.
   */
  predicate KeyOrder(ids: seq<int>, keys: set<int>)
    decreases |ids|
  {
    if ids == [] then keys == {}
    else ids[|ids| - 1] in keys && KeyOrder(ids[..|ids| - 1], keys - {ids[|ids| - 1]})
  }

  lemma {:induction false} KeyOrderFacts(ids: seq<int>, keys: set<int>)
    requires KeyOrder(ids, keys)
    ensures Distinct(ids)
    ensures forall u :: u in ids <==> u in keys
    ensures |keys| == |ids|
    decreases |ids|
  {
    if ids != [] {
      var p := ids[..|ids| - 1];
      var x := ids[|ids| - 1];
      KeyOrderFacts(p, keys - {x});
      assert ids == p + [x];
      forall a, b | 0 <= a < b < |ids| ensures ids[a] != ids[b] {
        if b == |ids| - 1 {
          assert ids[a] == p[a];
        } else {
          assert ids[a] == p[a] && ids[b] == p[b];
        }
      }
    }
  }

  /** The entry at position `i` is a key and does not occur earlier. */
  lemma KeyOrderAt(ids: seq<int>, keys: set<int>, i: int)
    requires KeyOrder(ids, keys) && 0 <= i < |ids|
    ensures ids[i] in keys && ids[i] !in ids[..i]
  {
    KeyOrderFacts(ids, keys);
    assert ids[i] in ids;
    DistinctNotInPrefix(ids, i);
  }

  /** A value that the enumeration does not list is not a key. */
  lemma KeyOrderAbsent(ids: seq<int>, keys: set<int>, x: int)
    requires KeyOrder(ids, keys) && x !in ids
    ensures x !in keys
  {
    KeyOrderFacts(ids, keys);
  }

  /** Adding a fresh key to the dictionary appends it to the enumeration. */
  lemma KeyOrderSnoc(ids: seq<int>, keys: set<int>, x: int)
    requires KeyOrder(ids, keys) && x !in keys
    ensures KeyOrder(ids + [x], keys + {x})
  {
    assert (ids + [x])[..|ids|] == ids;
    assert keys + {x} - {x} == keys;
  }

  /** The value of a graph: dictionary key order, nodes by id, outgoing lists by id. */
  datatype Graph = Graph(ids: seq<int>, nodes: map<int, Node>, adj: map<int, seq<Edge>>)
  {
    /**
     * The representation invariant: `ids` enumerates the node ids once each,
     * both dictionaries have the same keys, each node is stored under its own
     * id, and each edge sits in its source's list and ends at a node.
     */
    ghost predicate Valid()
    {
      && KeyOrder(ids, nodes.Keys)
      && adj.Keys == nodes.Keys
      && (forall u :: u in nodes ==> nodes[u].id == u)
      && (forall u, k :: u in adj && 0 <= k < |adj[u]| ==> adj[u][k].Src() == u && adj[u][k].Tgt() in nodes)
    }

    /** `ContainsNode(id)` */
    predicate ContainsNode(id: int)
    {
      id in nodes
    }

    /** `GetNode(id)`: the node, or null (`None`) for an absent id. */
    function GetNode(id: int): Option<Node>
    {
      if id in nodes then Some(nodes[id]) else None
    }

    /** `GetOutgoingEdges(id)`: the stored list itself, or an empty one for an absent id. */
    function GetOutgoingEdges(id: int): seq<Edge>
    {
      if id in adj then adj[id] else []
    }

    /** `GetAllNodes()`: the nodes in key order. */
    function GetAllNodes(): seq<Node>
    {
      NodeValues(ids, nodes)
    }

    /** `GetAllEdges()`: every outgoing list, in key order. */
    function GetAllEdges(): seq<Edge>
    {
      Flatten(ids, adj)
    }

    /** `NodeCount`: the number of dictionary entries. */
    function NodeCount(): nat
    {
      |nodes|
    }

    /** `EdgeCount`: the sum of the outgoing list lengths. */
    function EdgeCount(): nat
    {
      TotalLength(ids, adj)
    }

    /** What `GetIncomingEdges(id)` collects: the edges entering `id`, in `GetAllEdges` order. */
    function Incoming(id: int): seq<Edge>
    {
      WithTarget(GetAllEdges(), id)
    }

    /** `GetOutDegree(id)` */
    function GetOutDegree(id: int): nat
    {
      |GetOutgoingEdges(id)|
    }

    /** `GetInDegree(id)`: the number of incoming edges. */
    function GetInDegree(id: int): nat
    {
      |Incoming(id)|
    }

    /** `AddNode(node)`: registers the node and an empty list unless its id is already present. */
    function WithNode(node: Node): Graph
    {
      if node.id in nodes then this
      else Graph(ids + [node.id], nodes[node.id := node], adj[node.id := []])
    }

    /** `AddEdge(edge)`: registers both endpoints, then appends the edge to its source's list. */
    function WithEdge(edge: Edge): Graph
    {
      WithEndpoints(edge).Appended(edge)
    }

    /** The first half of `AddEdge`: `AddNode(edge.Source)`, then `AddNode(edge.Target)`. */
    function WithEndpoints(edge: Edge): Graph
    {
      WithNode(edge.source).WithNode(edge.target)
    }

    /** The second half of `AddEdge`: the edge goes at the end of its source's list. */
    function Appended(edge: Edge): Graph
    {
      this.(adj := adj[edge.Src() := GetOutgoingEdges(edge.Src()) + [edge]])
    }

    /** The nodes of a clone: `new Node(node.Id, node.Name)` for each node. */
    function ClonedNodes(): map<int, Node>
    {
      map u | u in nodes :: CloneNode(nodes[u])
    }

    /** `Clone()`: the same ids in the same order, new nodes and new flow-free edges. */
    function Cloned(): Graph
    {
      var cn := ClonedNodes();
      Graph(ids, cn, map u | u in adj :: ClonedList(cn, adj[u]))
    }
  }

  /** `new Node(node.Id, node.Name)`: the id and a non-empty name are kept; an empty name becomes the default. */
  function CloneNode(n: Node): Node
  {
    Node(n.id, if n.name == [] then DefaultName(n.id) else n.name)
  }

  lemma CloneNodeIsNewNode(n: Node)
    ensures CloneNode(n) == NewNode(n.id, Some(n.name))
  {
  }

  /** The clone's copy of node `n` (`clone.GetNode(n.Id)!`); every endpoint has one under the invariant. */
  function CopyOf(cn: map<int, Node>, n: Node): Node
  {
    if n.id in cn then cn[n.id] else n
  }

  /** An edge rebuilt on the clone's nodes, with no flow. */
  function ClonedEdge(cn: map<int, Node>, e: Edge): Edge
  {
    Edge(CopyOf(cn, e.source), CopyOf(cn, e.target), e.cost, e.capacity, 0)
  }

  lemma ClonedEdgeIsNewEdge(cn: map<int, Node>, e: Edge)
    ensures ClonedEdge(cn, e) == NewEdge(CopyOf(cn, e.source), CopyOf(cn, e.target), e.cost, e.capacity)
  {
  }

  /** A list of edges rebuilt on the clone's nodes. */
  function ClonedList(cn: map<int, Node>, es: seq<Edge>): (r: seq<Edge>)
    ensures |r| == |es|
  {
    seq(|es|, i requires 0 <= i < |es| => ClonedEdge(cn, es[i]))
  }

  lemma ClonedListSnoc(cn: map<int, Node>, es: seq<Edge>, e: Edge)
    ensures ClonedList(cn, es + [e]) == ClonedList(cn, es) + [ClonedEdge(cn, e)]
  {
  }

  /** The empty graph of `new LogisticsGraph()`. */
  function EmptyGraph(): (g: Graph)
    ensures g.Valid() && g.NodeCount() == 0 && g.EdgeCount() == 0
  {
    Graph([], map[], map[])
  }

  /** Every listed edge leaves the node whose list holds it and ends at a node. */
  lemma ListedEdge(g: Graph, u: int, e: Edge)
    requires g.Valid() && u in g.adj && e in g.adj[u]
    ensures e.Src() == u && e.Tgt() in g.nodes
  {
    var k :| 0 <= k < |g.adj[u]| && g.adj[u][k] == e;
  }

  /** The invariant's consequences for the key order. */
  lemma IdsFacts(g: Graph)
    requires g.Valid()
    ensures Distinct(g.ids) && |g.ids| == |g.nodes|
    ensures forall u :: u in g.ids <==> u in g.nodes
    ensures forall u :: u in g.ids <==> u in g.adj
  {
    KeyOrderFacts(g.ids, g.nodes.Keys);
  }

  lemma AddNodeValid(g: Graph, node: Node)
    requires g.Valid()
    ensures g.WithNode(node).Valid()
  {
    if node.id !in g.nodes {
      KeyOrderSnoc(g.ids, g.nodes.Keys, node.id);
      assert g.nodes[node.id := node].Keys == g.nodes.Keys + {node.id};
    }
  }

  /** `AddNode` leaves the edges alone: it only ever adds an empty list. */
  lemma AddNodeKeepsEdges(g: Graph, node: Node)
    requires g.Valid()
    ensures g.WithNode(node).GetAllEdges() == g.GetAllEdges()
    ensures g.WithNode(node).EdgeCount() == g.EdgeCount()
  {
    if node.id !in g.nodes {
      IdsFacts(g);
      var h := g.WithNode(node);
      FlattenSnoc(g.ids, h.adj, node.id);
      FlattenUpdateAbsent(g.ids, g.adj, node.id, []);
      TotalLengthAppendEmpty(g.ids, g.adj, node.id);
    }
  }

  /** `AddNode` on a present id changes nothing; on a new id it appends the node with an empty list. */
  lemma AddNodeEffect(g: Graph, node: Node)
    requires g.Valid()
    ensures g.WithNode(node).Valid()
    ensures node.id in g.nodes ==> g.WithNode(node) == g
    ensures node.id !in g.nodes ==>
      && g.WithNode(node).ids == g.ids + [node.id]
      && g.WithNode(node).GetNode(node.id) == Some(node)
      && g.WithNode(node).GetOutgoingEdges(node.id) == []
    ensures forall u :: u != node.id ==>
      g.WithNode(node).GetNode(u) == g.GetNode(u) && g.WithNode(node).GetOutgoingEdges(u) == g.GetOutgoingEdges(u)
  {
    AddNodeValid(g, node);
  }

  /** Appending an edge whose endpoints are present keeps the invariant. */
  lemma AppendKeepsValid(g: Graph, edge: Edge)
    requires g.Valid() && edge.Src() in g.nodes && edge.Tgt() in g.nodes
    ensures g.Appended(edge).Valid()
  {
    var u := edge.Src();
    var h := g.Appended(edge);
    forall w, e | w in h.adj && e in h.adj[w] ensures e.Src() == w && e.Tgt() in h.nodes {
      if w != u || e != edge {
        assert e in g.adj[w];
      }
    }
    assert h.adj.Keys == g.adj.Keys;
  }

  /** Appending to a present source's list adds exactly that edge to the graph. */
  lemma AppendEffect(g: Graph, edge: Edge)
    requires g.Valid() && edge.Src() in g.nodes && edge.Tgt() in g.nodes
    ensures g.Appended(edge).Valid()
    ensures g.Appended(edge).EdgeCount() == g.EdgeCount() + 1
    ensures multiset(g.Appended(edge).GetAllEdges()) == multiset(g.GetAllEdges()) + multiset{edge}
  {
    var u := edge.Src();
    IdsFacts(g);
    AppendKeepsValid(g, edge);
    FlattenUpdate(g.ids, g.adj, u, g.adj[u] + [edge]);
    FlattenContainsList(g.ids, g.adj, u);
  }

  /** Registering the endpoints keeps the invariant and makes both endpoints nodes. */
  lemma AddEndpointsValid(g: Graph, edge: Edge)
    requires g.Valid()
    ensures g.WithEndpoints(edge).Valid()
    ensures edge.Src() in g.WithEndpoints(edge).nodes && edge.Tgt() in g.WithEndpoints(edge).nodes
  {
    var h1 := g.WithNode(edge.source);
    AddNodeValid(g, edge.source);
    assert edge.Src() in h1.nodes;
    var h2 := h1.WithNode(edge.target);
    AddNodeValid(h1, edge.target);
    assert edge.Src() in h2.nodes && edge.Tgt() in h2.nodes;
    assert g.WithEndpoints(edge) == h2;
  }

  /** Registering the endpoints keeps the edges. */
  lemma AddEndpointsKeepsEdges(g: Graph, edge: Edge)
    requires g.Valid()
    ensures g.WithEndpoints(edge).GetAllEdges() == g.GetAllEdges()
    ensures g.WithEndpoints(edge).EdgeCount() == g.EdgeCount()
  {
    AddNodeValid(g, edge.source);
    AddNodeKeepsEdges(g, edge.source);
    AddNodeKeepsEdges(g.WithNode(edge.source), edge.target);
  }

  /** Registering the endpoints keeps every list and every present node. */
  lemma AddEndpointsKeepsLists(g: Graph, edge: Edge)
    requires g.Valid()
    ensures forall u :: g.WithEndpoints(edge).GetOutgoingEdges(u) == g.GetOutgoingEdges(u)
    ensures forall u :: u in g.nodes ==> g.WithEndpoints(edge).GetNode(u) == g.GetNode(u)
  {
    var h1 := g.WithNode(edge.source);
    AddNodeEffect(g, edge.source);
    AddNodeEffect(h1, edge.target);
    var h2 := h1.WithNode(edge.target);
    assert g.WithEndpoints(edge) == h2;
    forall u ensures h2.GetOutgoingEdges(u) == g.GetOutgoingEdges(u) {
      if u !in g.nodes {
        assert u !in g.adj;
      }
    }
  }

  /** With both endpoints present, `AddEdge` only appends to the source's list. */
  lemma WithEdgePresent(g: Graph, edge: Edge)
    requires g.Valid() && edge.Src() in g.nodes && edge.Tgt() in g.nodes
    ensures g.WithEdge(edge) == g.Appended(edge)
  {
    assert g.WithNode(edge.source) == g;
  }

  /**
   * `AddEdge` keeps the invariant, registers both endpoints, appends the
   * edge at the end of its source's list and leaves every other list alone.
   */
  lemma AddEdgeEffect(g: Graph, edge: Edge)
    requires g.Valid()
    ensures g.WithEdge(edge).Valid()
    ensures g.WithEdge(edge).ContainsNode(edge.Src()) && g.WithEdge(edge).ContainsNode(edge.Tgt())
    ensures g.WithEdge(edge).GetOutgoingEdges(edge.Src()) == g.GetOutgoingEdges(edge.Src()) + [edge]
    ensures forall u :: u != edge.Src() ==> g.WithEdge(edge).GetOutgoingEdges(u) == g.GetOutgoingEdges(u)
    ensures forall u :: u in g.nodes ==> g.WithEdge(edge).GetNode(u) == g.GetNode(u)
  {
    AddEndpointsValid(g, edge);
    AddEndpointsKeepsLists(g, edge);
    AppendKeepsValid(g.WithEndpoints(edge), edge);
  }

  /** `AddEdge` adds exactly one edge to the graph: `EdgeCount` grows by one and `GetAllEdges` gains `edge`. */
  lemma AddEdgeCount(g: Graph, edge: Edge)
    requires g.Valid()
    ensures g.WithEdge(edge).EdgeCount() == g.EdgeCount() + 1
    ensures multiset(g.WithEdge(edge).GetAllEdges()) == multiset(g.GetAllEdges()) + multiset{edge}
  {
    var h := g.WithEndpoints(edge);
    AddEndpointsValid(g, edge);
    AddEndpointsKeepsEdges(g, edge);
    AppendEffect(h, edge);
    assert multiset(h.GetAllEdges()) == multiset(g.GetAllEdges());
  }

  /** Appending a fresh id with an empty list does not change the edge count. */
  lemma {:induction false} TotalLengthAppendEmpty(ids: seq<int>, adj: map<int, seq<Edge>>, u: int)
    requires u !in ids
    ensures TotalLength(ids + [u], adj[u := []]) == TotalLength(ids, adj)
  {
    if ids == [] {
      assert ([u])[1..] == [];
    } else {
      assert (ids + [u])[1..] == ids[1..] + [u];
      TotalLengthAppendEmpty(ids[1..], adj, u);
    }
  }

  /** `EdgeCount` is the number of edges `GetAllEdges` enumerates. */
  lemma EdgeCountIsAllEdges(g: Graph)
    ensures g.EdgeCount() == |g.GetAllEdges()|
  {
    TotalLengthIsFlattenLength(g.ids, g.adj);
  }

  lemma {:induction false} NodeValuesAt(ids: seq<int>, nodes: map<int, Node>)
    requires forall i :: 0 <= i < |ids| ==> ids[i] in nodes
    ensures |NodeValues(ids, nodes)| == |ids|
    ensures forall i :: 0 <= i < |ids| ==> NodeValues(ids, nodes)[i] == nodes[ids[i]]
  {
    if ids != [] {
      assert forall i :: 0 <= i < |ids[1..]| ==> ids[1..][i] == ids[i + 1];
      NodeValuesAt(ids[1..], nodes);
    }
  }

  /** `GetAllNodes` lists every node once, in key order, and `NodeCount` is its length. */
  lemma AllNodesFacts(g: Graph)
    requires g.Valid()
    ensures |g.GetAllNodes()| == |g.ids| == g.NodeCount()
    ensures forall i :: 0 <= i < |g.ids| ==> g.ids[i] in g.nodes && g.GetAllNodes()[i] == g.nodes[g.ids[i]]
    ensures forall i :: 0 <= i < |g.ids| ==> g.GetAllNodes()[i].id == g.ids[i]
    ensures forall n :: n in g.GetAllNodes() <==> n.id in g.nodes && g.nodes[n.id] == n
  {
    IdsFacts(g);
    forall i | 0 <= i < |g.ids| ensures g.ids[i] in g.nodes {
      assert g.ids[i] in g.ids;
    }
    NodeValuesAt(g.ids, g.nodes);
    forall n: Node | n.id in g.nodes && g.nodes[n.id] == n ensures n in g.GetAllNodes() {
      var i :| 0 <= i < |g.ids| && g.ids[i] == n.id;
      assert g.GetAllNodes()[i] == n;
    }
  }

  /** Under the invariant, an edge is listed by `GetAllEdges` exactly when it sits in its source's list. */
  lemma InAllEdges(g: Graph, e: Edge)
    requires g.Valid()
    ensures e in g.GetAllEdges() <==> e.Src() in g.adj && e in g.adj[e.Src()]
    ensures e in g.GetAllEdges() ==> e.Src() in g.nodes && e.Tgt() in g.nodes
  {
    InFlatten(g.ids, g.adj, e);
    IdsFacts(g);
  }

  /** Under the invariant, the edges of `GetAllEdges` that leave `u` are exactly `u`'s list, in order. */
  lemma {:induction false} WithSourceFlatten(ids: seq<int>, adj: map<int, seq<Edge>>, u: int)
    requires Distinct(ids)
    requires forall w, e :: w in adj && e in adj[w] ==> e.Src() == w
    ensures WithSource(Flatten(ids, adj), u) == if u in ids && u in adj then adj[u] else []
  {
    if ids != [] {
      DistinctTail(ids);
      WithSourceFlatten(ids[1..], adj, u);
      var head := if ids[0] in adj then adj[ids[0]] else [];
      WithSourceAppend(head, Flatten(ids[1..], adj), u);
      WithSourceAll(head, ids[0]);
    }
  }

  /** Queries on an absent id are total: no node, no outgoing or incoming edges. */
  lemma AbsentIdQueries(g: Graph, id: int)
    requires g.Valid() && !g.ContainsNode(id)
    ensures g.GetNode(id) == None
    ensures g.GetOutgoingEdges(id) == [] && g.GetOutDegree(id) == 0
    ensures g.Incoming(id) == [] && g.GetInDegree(id) == 0
  {
    if g.Incoming(id) != [] {
      var e := g.Incoming(id)[0];
      WithTargetMembers(g.GetAllEdges(), id, e);
      InAllEdges(g, e);
    }
  }

  /** `GetOutDegree(u)` counts the edges of `GetAllEdges` that leave `u`. */
  lemma OutDegreeCountsSources(g: Graph, u: int)
    requires g.Valid()
    ensures g.GetOutgoingEdges(u) == WithSource(g.GetAllEdges(), u)
    ensures g.GetOutDegree(u) == |WithSource(g.GetAllEdges(), u)|
  {
    IdsFacts(g);
    WithSourceFlatten(g.ids, g.adj, u);
  }

  /**
   * A clone keeps the invariant, the ids in the same order and every node's
   * id and non-empty name; each list keeps its length and the source, target,
   * cost and capacity of every entry, and every cloned edge has no flow.
   */
  lemma CloneFacts(g: Graph)
    requires g.Valid()
    ensures g.Cloned().Valid()
    ensures g.Cloned().ids == g.ids
    ensures forall u :: u in g.nodes <==> u in g.Cloned().nodes
    ensures forall u :: u in g.nodes ==> g.Cloned().nodes[u].id == u
    ensures forall u :: u in g.nodes && g.nodes[u].name != [] ==> g.Cloned().nodes[u] == g.nodes[u]
    ensures forall u :: u in g.adj ==> u in g.Cloned().adj && Keys(g.Cloned().adj[u]) == Keys(g.adj[u])
    ensures forall u, e :: u in g.Cloned().adj && e in g.Cloned().adj[u] ==> e.flow == 0
    ensures g.Cloned().EdgeCount() == g.EdgeCount()
  {
    var c := g.Cloned();
    ClonedNodesFacts(g);
    assert c.adj.Keys == g.adj.Keys;
    forall u, e | u in c.adj && e in c.adj[u] ensures e.Src() == u && e.Tgt() in c.nodes && e.flow == 0 {
      var i :| 0 <= i < |c.adj[u]| && c.adj[u][i] == e;
      var o := g.adj[u][i];
      assert o in g.adj[u];
      assert e == ClonedEdge(c.nodes, o);
    }
    forall u | u in g.adj ensures Keys(c.adj[u]) == Keys(g.adj[u]) {
      forall i | 0 <= i < |g.adj[u]| ensures Key(c.adj[u][i]) == Key(g.adj[u][i]) {
        assert g.adj[u][i] in g.adj[u];
      }
    }
    SameLengthsSameTotal(g.ids, g.adj, c.adj);
  }

  /** The clone lists edges with the same keys in the same order. */
  lemma ClonedAllEdgeKeys(g: Graph)
    requires g.Valid()
    ensures Keys(g.Cloned().GetAllEdges()) == Keys(g.GetAllEdges())
  {
    CloneFacts(g);
    FlattenKeys(g.ids, g.adj, g.Cloned().adj);
  }

  lemma {:induction false} FlattenKeys(ids: seq<int>, a: map<int, seq<Edge>>, b: map<int, seq<Edge>>)
    requires forall u :: u in a <==> u in b
    requires forall u :: u in a ==> Keys(a[u]) == Keys(b[u])
    ensures Keys(Flatten(ids, a)) == Keys(Flatten(ids, b))
  {
    if ids != [] {
      FlattenKeys(ids[1..], a, b);
      var ha := if ids[0] in a then a[ids[0]] else [];
      var hb := if ids[0] in b then b[ids[0]] else [];
      KeysAppend(ha, Flatten(ids[1..], a));
      KeysAppend(hb, Flatten(ids[1..], b));
    }
  }

  lemma {:induction false} SameLengthsSameTotal(ids: seq<int>, a: map<int, seq<Edge>>, b: map<int, seq<Edge>>)
    requires a.Keys == b.Keys
    requires forall u :: u in a ==> |a[u]| == |b[u]|
    ensures TotalLength(ids, a) == TotalLength(ids, b)
  {
    if ids != [] {
      SameLengthsSameTotal(ids[1..], a, b);
    }
  }

  /** The clone's nodes keep the ids they are stored under. */
  lemma ClonedNodesFacts(g: Graph)
    requires g.Valid()
    ensures g.ClonedNodes().Keys == g.nodes.Keys
    ensures forall u :: u in g.ClonedNodes() ==> g.ClonedNodes()[u].id == u
  {
  }

  /**
   * One turn of the first loop of `Clone`: a clone holding the copies of the
   * nodes of `prefix`, with empty lists, gets the copy of the fresh `id`.
   */
  lemma CloneNodeStep(h: Graph, prefix: seq<int>, cn: map<int, Node>, id: int)
    requires h.Valid() && h.ids == prefix && id !in prefix
    requires forall u :: u in h.nodes ==> u in cn && h.nodes[u] == cn[u]
    requires forall u :: u in h.adj ==> h.adj[u] == []
    requires id in cn && cn[id].id == id
    ensures h.WithNode(cn[id]).Valid()
    ensures h.WithNode(cn[id]).ids == prefix + [id]
    ensures forall u :: u in h.WithNode(cn[id]).nodes ==> u in cn && h.WithNode(cn[id]).nodes[u] == cn[u]
    ensures forall u :: u in h.WithNode(cn[id]).adj ==> h.WithNode(cn[id]).adj[u] == []
  {
    KeyOrderAbsent(h.ids, h.nodes.Keys, id);
    AddNodeValid(h, cn[id]);
    var h2 := Graph(h.ids + [id], h.nodes[id := cn[id]], h.adj[id := []]);
    assert h.WithNode(cn[id]) == h2;
    forall u | u in h2.nodes ensures u in cn && h2.nodes[u] == cn[u] {
      if u != id { assert u in h.nodes; }
    }
    forall u | u in h2.adj ensures h2.adj[u] == [] {
      if u != id { assert u in h.adj; }
    }
  }

  /** After the first loop the clone holds every copied node and only empty lists. */
  lemma CloneNodesDone(g: Graph, h: Graph)
    requires g.Valid() && h.Valid() && h.ids == g.ids
    requires forall u :: u in h.nodes ==> u in g.ClonedNodes() && h.nodes[u] == g.ClonedNodes()[u]
    ensures h.nodes == g.ClonedNodes()
  {
    assert KeyOrder(g.ids, g.nodes.Keys) && KeyOrder(h.ids, h.nodes.Keys);
    SameOrderSameKeys(g.ids, g.nodes.Keys, h.nodes.Keys);
    ClonedNodesFacts(g);
    var cn := g.ClonedNodes();
    assert h.nodes.Keys == cn.Keys;
    assert forall u :: u in h.nodes ==> h.nodes[u] == cn[u];
    assert h.nodes == cn;
  }

  /** An enumeration determines its set of keys. */
  lemma SameOrderSameKeys(ids: seq<int>, a: set<int>, b: set<int>)
    requires KeyOrder(ids, a) && KeyOrder(ids, b)
    ensures a == b
  {
    KeyOrderFacts(ids, a);
    KeyOrderFacts(ids, b);
    assert forall u :: u in a <==> u in b;
  }

  /** Two maps with the same keys that agree on every key are equal. */
  lemma SameEntries<K, V>(a: map<K, V>, b: map<K, V>)
    requires a.Keys == b.Keys
    requires forall k :: k in a ==> a[k] == b[k]
    ensures a == b
  {
  }

  /**
   * One turn of the second loop of `Clone`: adding the copy of `edge` to a
   * clone whose lists hold the copies of the edges of `prefix` extends them
   * by that copy.
   */
  lemma CloneEdgeStep(h: Graph, cn: map<int, Node>, prefix: seq<Edge>, edge: Edge)
    requires h.Valid() && h.nodes == cn
    requires edge.Src() in cn && cn[edge.Src()].id == edge.Src()
    requires edge.Tgt() in cn && cn[edge.Tgt()].id == edge.Tgt()
    requires forall u :: u in h.adj ==> h.adj[u] == ClonedList(cn, WithSource(prefix, u))
    ensures h.WithEdge(ClonedEdge(cn, edge)).Valid()
    ensures h.WithEdge(ClonedEdge(cn, edge)).ids == h.ids
    ensures h.WithEdge(ClonedEdge(cn, edge)).nodes == cn
    ensures forall u :: u in h.WithEdge(ClonedEdge(cn, edge)).adj ==>
      h.WithEdge(ClonedEdge(cn, edge)).adj[u] == ClonedList(cn, WithSource(prefix + [edge], u))
  {
    var copy := ClonedEdge(cn, edge);
    WithEdgePresent(h, copy);
    AppendKeepsValid(h, copy);
    CloneEdgeLists(h.adj, cn, prefix, edge);
  }

  lemma CloneEdgeLists(adj: map<int, seq<Edge>>, cn: map<int, Node>, prefix: seq<Edge>, edge: Edge)
    requires edge.Src() in adj && edge.Src() in cn && cn[edge.Src()].id == edge.Src()
    requires forall u :: u in adj ==> adj[u] == ClonedList(cn, WithSource(prefix, u))
    ensures forall u :: u in adj ==>
      adj[edge.Src() := adj[edge.Src()] + [ClonedEdge(cn, edge)]][u] == ClonedList(cn, WithSource(prefix + [edge], u))
  {
    forall u | u in adj
      ensures adj[edge.Src() := adj[edge.Src()] + [ClonedEdge(cn, edge)]][u] == ClonedList(cn, WithSource(prefix + [edge], u))
    {
      WithSourceAppend(prefix, [edge], u);
      if u == edge.Src() {
        ClonedListSnoc(cn, WithSource(prefix, u), edge);
      }
    }
  }

  /** Once every edge of `GetAllEdges()` is copied, the clone is `Cloned()`. */
  lemma CloneComplete(g: Graph, h: Graph)
    requires g.Valid() && h.Valid() && h.ids == g.ids && h.nodes == g.ClonedNodes()
    requires forall u :: u in h.adj ==> h.adj[u] == ClonedList(g.ClonedNodes(), WithSource(g.GetAllEdges(), u))
    ensures h == g.Cloned()
  {
    ClonedNodesFacts(g);
    IdsFacts(g);
    assert h.adj.Keys == g.Cloned().adj.Keys;
    forall u | u in h.adj ensures h.adj[u] == g.Cloned().adj[u] {
      WithSourceFlatten(g.ids, g.adj, u);
    }
    SameEntries(h.adj, g.Cloned().adj);
  }

  /** The mutable graph object: its two dictionaries and their common key order. */
  class LogisticsGraph {
    var ids: seq<int>
    var nodes: map<int, Node>
    var adj: map<int, seq<Edge>>

    function View(): Graph
      reads this
    {
      Graph(ids, nodes, adj)
    }

    ghost predicate Valid()
      reads this
    {
      View().Valid()
    }

    /** `new LogisticsGraph()`: no nodes, no edges. */
    constructor ()
      ensures Valid() && View() == EmptyGraph()
    {
      ids, nodes, adj := [], map[], map[];
    }

    /** `AddNode(node)`: does nothing when the id is present. */
    method AddNode(node: Node)
      requires Valid()
      modifies this
      ensures Valid()
      ensures View() == old(View()).WithNode(node)
    {
      AddNodeValid(View(), node);
      if node.id !in nodes {
        ids := ids + [node.id];
        nodes := nodes[node.id := node];
        adj := adj[node.id := []];
      }
    }

    /** `AddEdge(edge)`: registers both endpoints, then appends to the source's list. */
    method AddEdge(edge: Edge)
      requires Valid()
      modifies this
      ensures Valid()
      ensures View() == old(View()).WithEdge(edge)
    {
      AddEdgeEffect(View(), edge);
      AddNode(edge.source);
      AddNode(edge.target);
      adj := adj[edge.Src() := adj[edge.Src()] + [edge]];
    }

    /** `GetIncomingEdges(id)`: collects, list by list in key order, the edges that end at `id`. */
    method GetIncomingEdges(nodeId: int) returns (incoming: seq<Edge>)
      ensures incoming == View().Incoming(nodeId)
    {
      incoming := [];
      var i := 0;
      while i < |ids|
        invariant 0 <= i <= |ids|
        invariant incoming == WithTarget(Flatten(ids[..i], adj), nodeId)
      {
        var edges := if ids[i] in adj then adj[ids[i]] else [];
        FlattenSnoc(ids[..i], adj, ids[i]);
        assert ids[..i + 1] == ids[..i] + [ids[i]];
        WithTargetAppend(Flatten(ids[..i], adj), edges, nodeId);
        incoming := incoming + WithTarget(edges, nodeId);
        i := i + 1;
      }
      assert ids[..i] == ids;
    }

    /**
     * `Clone()`: copies every node in key order, then re-adds every edge of
     * `GetAllEdges()` between the copied endpoints.
     */
    method Clone() returns (clone: LogisticsGraph)
      requires Valid()
      ensures fresh(clone) && clone.Valid()
      ensures clone.View() == View().Cloned()
    {
      clone := new LogisticsGraph();
      CopyNodesInto(clone);
      CopyEdgesInto(clone);
    }

    /** The first loop of `Clone`: `clone.AddNode(new Node(node.Id, node.Name))` for each node. */
    method CopyNodesInto(clone: LogisticsGraph)
      requires Valid() && clone.Valid() && clone.View() == EmptyGraph() && clone != this
      modifies clone
      ensures clone.Valid() && clone.ids == ids && clone.nodes == View().ClonedNodes()
      ensures forall u :: u in clone.adj ==> clone.adj[u] == []
    {
      ghost var g := View();
      ghost var cn := g.ClonedNodes();
      ClonedNodesFacts(g);
      var i := 0;
      while i < |ids|
        invariant 0 <= i <= |ids|
        invariant clone.Valid() && clone.ids == ids[..i]
        invariant forall u :: u in clone.nodes ==> u in cn && clone.nodes[u] == cn[u]
        invariant forall u :: u in clone.adj ==> clone.adj[u] == []
      {
        KeyOrderAt(ids, nodes.Keys, i);
        var node := nodes[ids[i]];
        CloneNodeIsNewNode(node);
        CloneNodeStep(clone.View(), ids[..i], cn, ids[i]);
        TakeSnoc(ids, i);
        clone.AddNode(NewNode(node.id, Some(node.name)));
        i := i + 1;
      }
      TakeAll(ids);
      CloneNodesDone(g, clone.View());
    }

    /** The second loop of `Clone`: each edge is re-added between the copied endpoints. */
    method CopyEdgesInto(clone: LogisticsGraph)
      requires Valid() && clone.Valid() && clone != this
      requires clone.ids == ids && clone.nodes == View().ClonedNodes()
      requires forall u :: u in clone.adj ==> clone.adj[u] == []
      modifies clone
      ensures clone.Valid() && clone.View() == View().Cloned()
    {
      ghost var g := View();
      ghost var cn := g.ClonedNodes();
      var all := View().GetAllEdges();
      var j := 0;
      while j < |all|
        invariant 0 <= j <= |all|
        invariant clone.Valid() && clone.ids == ids && clone.nodes == cn
        invariant forall u :: u in clone.adj ==> clone.adj[u] == ClonedList(cn, WithSource(all[..j], u))
      {
        var edge := all[j];
        InAllEdges(g, edge);
        var sourceClone := clone.nodes[edge.Src()];
        var targetClone := clone.nodes[edge.Tgt()];
        ClonedEdgeIsNewEdge(cn, edge);
        CloneEdgeStep(clone.View(), cn, all[..j], edge);
        TakeSnoc(all, j);
        clone.AddEdge(NewEdge(sourceClone, targetClone, edge.cost, edge.capacity));
        j := j + 1;
      }
      TakeAll(all);
      CloneComplete(g, clone.View());
    }
  }
}
