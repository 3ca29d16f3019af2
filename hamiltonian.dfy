/**
 * Hamiltonian cycles (Algorithms/HamiltonianAlgorithm.cs).
 *
 * A depth-first search from the first hub extends a shared path of nodes
 * along outgoing edges to unvisited hubs, undoing each extension that leads
 * nowhere; once the path holds every hub, an edge back to the first hub
 * closes the cycle. The wall-clock timeout becomes a budget of calls: the
 * search gives up, with no error, when the budget is spent.
 */
module HamiltonianModel {
  import opened Basics
  import opened NodeModel
  import opened EdgeModel
  import opened GraphModel
  import opened Results

  /** The ids of a sequence of nodes. */
  function IdsOf(path: seq<Node>): (r: seq<int>)
    ensures |r| == |path| && forall i :: 0 <= i < |path| ==> r[i] == path[i].id
  {
    seq(|path|, i requires 0 <= i < |path| => path[i].id)
  }

  /** The set of ids of a sequence of nodes. */
  function IdSet(path: seq<Node>): set<int>
  {
    set x | x in IdsOf(path)
  }

  lemma IdSetSnoc(path: seq<Node>, n: Node)
    ensures IdsOf(path + [n]) == IdsOf(path) + [n.id]
    ensures IdSet(path + [n]) == IdSet(path) + {n.id}
  {
    assert IdsOf(path + [n]) == IdsOf(path) + [n.id];
  }

  /** Some outgoing edge of `u` has the node `n` as its target (`edge.Target`). */
  ghost predicate Joined(g: Graph, u: int, n: Node)
  {
    exists e :: e in g.GetOutgoingEdges(u) && e.target == n
  }

  /** Some outgoing edge of `u` enters the hub `v`. */
  ghost predicate Closes(g: Graph, u: int, v: int)
  {
    exists e :: e in g.GetOutgoingEdges(u) && e.Tgt() == v
  }

  /** Each node of `path` is the target of an outgoing edge of the one before. */
  ghost predicate Chain(g: Graph, path: seq<Node>)
  {
    forall i :: 0 < i < |path| ==> Joined(g, path[i - 1].id, path[i])
  }

  /** Every node of `path` has the id of a hub of `g`. */
  ghost predicate OnHubs(g: Graph, path: seq<Node>)
  {
    forall i :: 0 <= i < |path| ==> path[i].id in g.nodes
  }

  /**
   * What a reported cycle is: the first hub, then every other hub once along
   * outgoing edges, then an edge back and the first hub again.
   */
  ghost predicate HamiltonianCycle(g: Graph, cycle: seq<Node>)
  {
    && g.NodeCount() > 0 && |g.GetAllNodes()| > 0 && |cycle| == g.NodeCount() + 1
    && cycle[0] == g.GetAllNodes()[0] && cycle[|cycle| - 1] == cycle[0]
    && Distinct(IdsOf(cycle[..|cycle| - 1])) && OnHubs(g, cycle)
    && Chain(g, cycle[..|cycle| - 1])
    && Closes(g, cycle[|cycle| - 2].id, cycle[0].id)
  }

  /** The first `NodeCount` entries of a reported cycle visit every hub. */
  lemma CycleVisitsEveryHub(g: Graph, cycle: seq<Node>, v: int)
    requires g.Valid() && |g.ids| > 0 && HamiltonianCycle(g, cycle) && v in g.nodes
    ensures exists i :: 0 <= i < |cycle| - 1 && cycle[i].id == v
  {
    var ids := IdsOf(cycle[..|cycle| - 1]);
    var seen := set x | x in ids;
    DistinctCardinality(ids);
    assert seen <= g.nodes.Keys by {
      forall x | x in seen ensures x in g.nodes {
        var i :| 0 <= i < |ids| && ids[i] == x;
        assert cycle[..|cycle| - 1][i] == cycle[i];
      }
    }
    SubsetSameSize(seen, g.nodes.Keys);
    var i :| 0 <= i < |ids| && ids[i] == v;
    assert cycle[..|cycle| - 1][i] == cycle[i];
  }

  /** Lines 57-62: whether some outgoing edge of `u` leads back to the hub `start`. */
  method EdgeBack(g: Graph, u: int, start: int) returns (any: bool)
    ensures any <==> Closes(g, u, start)
  {
    var edgesToStart := WithTarget(g.GetOutgoingEdges(u), start);
    forall e | e in g.GetOutgoingEdges(u) && e.Tgt() == start ensures e in edgesToStart {
      WithTargetMembers(g.GetOutgoingEdges(u), start, e);
    }
    if |edgesToStart| > 0 {
      WithTargetMembers(g.GetOutgoingEdges(u), start, edgesToStart[0]);
    }
    any := |edgesToStart| > 0;
  }

  /** The search state: `path`, `visited` and what is left of the time budget. */
  class Backtracker {
    var path: seq<Node>
    var visited: set<int>
    var fuel: nat

    /** `visited` holds exactly the ids of `path`, which has no repeated id. */
    ghost predicate Valid()
      reads this
    {
      |path| > 0 && Distinct(IdsOf(path)) && visited == IdSet(path)
    }

    /** Lines 17-19: the path and the visited set hold the first hub; the clock starts. */
    constructor (start: Node, budget: nat)
      ensures Valid() && path == [start] && visited == {start.id} && fuel == budget
    {
      path := [start];
      visited := {start.id};
      fuel := budget;
      assert IdsOf([start]) == [start.id];
    }

    /**
     * `BacktrackHamiltonian` (lines 41-85). With the budget spent it fails at
     * once; with a full path it succeeds exactly when an edge leads back to
     * the first hub; else it tries each unvisited target of an outgoing edge
     * in list order. On failure `path` and `visited` are as on entry; on
     * success the path holds `totalNodes` nodes extending the entry path.
     */
    method Backtrack(graph: LogisticsGraph, currentNodeId: int, totalNodes: int) returns (found: bool)
      requires graph.Valid() && Valid() && |path| <= totalNodes
      requires path[|path| - 1].id == currentNodeId
      requires Chain(graph.View(), path) && OnHubs(graph.View(), path)
      modifies this
      decreases totalNodes - |path|, 1
      ensures Valid() && fuel <= old(fuel)
      ensures old(fuel) == 0 ==> !found
      ensures !found ==> path == old(path) && visited == old(visited)
      ensures old(fuel) > 0 && |old(path)| == totalNodes ==> (found <==> Closes(graph.View(), currentNodeId, path[0].id))
      ensures found ==> |path| == totalNodes && |old(path)| <= |path| && path[..|old(path)|] == old(path)
      ensures found ==> Chain(graph.View(), path) && OnHubs(graph.View(), path)
      ensures found ==> Closes(graph.View(), path[|path| - 1].id, path[0].id)
    {
      if fuel == 0 {
        return false;
      }
      fuel := fuel - 1;
      if |path| == totalNodes {
        found := EdgeBack(graph.View(), currentNodeId, path[0].id);
        return;
      }
      found := TryNeighbors(graph, currentNodeId, totalNodes);
    }

    /** The `foreach` of lines 65-82: each unvisited target in turn, undone when it leads nowhere. */
    method TryNeighbors(graph: LogisticsGraph, currentNodeId: int, totalNodes: int) returns (found: bool)
      requires graph.Valid() && Valid() && |path| < totalNodes
      requires path[|path| - 1].id == currentNodeId
      requires Chain(graph.View(), path) && OnHubs(graph.View(), path)
      modifies this
      decreases totalNodes - |path|, 0
      ensures Valid() && fuel <= old(fuel)
      ensures !found ==> path == old(path) && visited == old(visited)
      ensures found ==> |path| == totalNodes && |old(path)| <= |path| && path[..|old(path)|] == old(path)
      ensures found ==> Chain(graph.View(), path) && OnHubs(graph.View(), path)
      ensures found ==> Closes(graph.View(), path[|path| - 1].id, path[0].id)
    {
      ghost var entry, entryVisited := path, visited;
      var edges := graph.View().GetOutgoingEdges(currentNodeId);
      var i := 0;
      while i < |edges|
        invariant 0 <= i <= |edges|
        invariant Valid() && path == entry && visited == entryVisited && fuel <= old(fuel)
      {
        var edge := edges[i];
        var neighborId := edge.Tgt();
        if neighborId !in visited {
          Extend(graph.View(), edge);
          found := Backtrack(graph, neighborId, totalNodes);
          if found {
            assert path[..|entry|] == (path[..|entry| + 1])[..|entry|];
            return true;
          }
          Retract(neighborId, entry, entryVisited);
        }
        i := i + 1;
      }
      return false;
    }

    /** Lines 71-72: the target of `edge` joins `visited` and the path. */
    method Extend(ghost g: Graph, edge: Edge)
      requires g.Valid() && Valid() && edge.Tgt() !in visited
      requires edge in g.GetOutgoingEdges(path[|path| - 1].id)
      requires Chain(g, path) && OnHubs(g, path)
      modifies this
      ensures Valid() && fuel == old(fuel)
      ensures path == old(path) + [edge.target] && visited == old(visited) + {edge.Tgt()}
      ensures Chain(g, path) && OnHubs(g, path) && path[|path| - 1].id == edge.Tgt()
    {
      ghost var before := path;
      ListedEdge(g, before[|before| - 1].id, edge);
      IdSetSnoc(before, edge.target);
      visited := visited + {edge.Tgt()};
      path := path + [edge.target];
      assert Joined(g, before[|before| - 1].id, edge.target);
      forall i | 0 < i < |path| ensures Joined(g, path[i - 1].id, path[i]) {
        if i < |before| {
          assert path[i - 1] == before[i - 1] && path[i] == before[i];
        }
      }
    }

    /** Lines 79-80: the last node leaves the path and its id leaves `visited`. */
    method Retract(neighborId: int, ghost entry: seq<Node>, ghost entryVisited: set<int>)
      requires Valid() && |entry| > 0 && path == entry + [path[|path| - 1]] && path[|path| - 1].id == neighborId
      requires visited == entryVisited + {neighborId} && neighborId !in entryVisited
      requires entryVisited == IdSet(entry)
      modifies this
      ensures Valid() && path == entry && visited == entryVisited && fuel == old(fuel)
    {
      IdSetSnoc(entry, path[|path| - 1]);
      visited := visited - {neighborId};
      path := path[..|path| - 1];
      assert IdsOf(path) == IdsOf(old(path))[..|path|];
    }
  }

  /**
   * `FindHamiltonianCycle` (lines 9-39), the budget standing for the
   * timeout: no cycle for a graph without hubs or a spent budget; otherwise
   * the search from the first hub, and on success the found path with the
   * first hub appended. A single hub has a cycle exactly when it has an edge
   * to itself.
   */
  method FindHamiltonianCycle(graph: LogisticsGraph, budget: nat) returns (result: HamiltonianResult)
    requires graph.Valid()
    ensures graph.View().NodeCount() == 0 ==> result == NoCycle
    ensures budget == 0 ==> result == NoCycle
    ensures !result.isPossible ==> result == NoCycle
    ensures result.isPossible ==> HamiltonianCycle(graph.View(), result.cycle)
    ensures graph.View().NodeCount() == 1 && budget > 0 ==>
      (result.isPossible <==> Closes(graph.View(), graph.View().ids[0], graph.View().ids[0]))
  {
    AllNodesFacts(graph.View());
    var nodes := graph.View().GetAllNodes();
    if |nodes| == 0 {
      return NoCycle;
    }
    var found, path := Search(graph, nodes[0], |nodes|, budget);
    if found {
      var cycle := path + [nodes[0]];
      ClosedSearch(graph.View(), path, cycle);
      return HamiltonianResult(true, cycle);
    }
    return NoCycle;
  }

  /** Lines 17-28: a fresh search state holding `start`, and the search from it. */
  method Search(graph: LogisticsGraph, start: Node, totalNodes: nat, budget: nat) returns (found: bool, path: seq<Node>)
    requires graph.Valid() && start.id in graph.View().nodes && totalNodes > 0
    ensures budget == 0 ==> !found
    ensures budget > 0 && totalNodes == 1 ==> (found <==> Closes(graph.View(), start.id, start.id))
    ensures found ==> |path| == totalNodes && path[0] == start && Distinct(IdsOf(path))
    ensures found ==> Chain(graph.View(), path) && OnHubs(graph.View(), path)
    ensures found ==> Closes(graph.View(), path[|path| - 1].id, path[0].id)
  {
    var search := new Backtracker(start, budget);
    assert Chain(graph.View(), search.path) && OnHubs(graph.View(), search.path);
    found := search.Backtrack(graph, start.id, totalNodes);
    path := search.path;
    if found {
      assert path[..1] == [start];
    }
  }

  /** A full search path from the first hub, closed by an edge back, with the first hub appended is a cycle. */
  lemma ClosedSearch(g: Graph, path: seq<Node>, cycle: seq<Node>)
    requires g.Valid() && |g.GetAllNodes()| > 0 && |path| == g.NodeCount() && |path| > 0 && path[0] == g.GetAllNodes()[0]
    requires Distinct(IdsOf(path)) && Chain(g, path) && OnHubs(g, path)
    requires Closes(g, path[|path| - 1].id, path[0].id)
    requires cycle == path + [path[0]]
    ensures HamiltonianCycle(g, cycle)
  {
    AllNodesFacts(g);
    assert cycle[..|cycle| - 1] == path;
    assert OnHubs(g, cycle) by {
      forall i | 0 <= i < |cycle| ensures cycle[i].id in g.nodes {
        if i < |path| {
          assert cycle[i] == path[i];
        }
      }
    }
  }
}
