/** A directed route between two hubs (Models/Edge.cs). */
module EdgeModel {
  import opened Basics
  import opened NodeModel

  /**
   * An edge: its endpoint nodes, its cost, its capacity (+inf when
   * uncapacitated) and its flow. The endpoints are node values; algorithms
   * only ever look at their ids.
   */
  datatype Edge = Edge(source: Node, target: Node, cost: int, capacity: ExtInt, flow: int)
  {
    /** `Source.Id` */
    function Src(): int { source.id }

    /** `Target.Id` */
    function Tgt(): int { target.id }
  }

  /** The attributes that tell two edges between the same pair of hubs apart. */
  datatype EdgeKey = EdgeKey(src: int, tgt: int, cost: int, capacity: ExtInt)

  function Key(e: Edge): EdgeKey
  {
    EdgeKey(e.Src(), e.Tgt(), e.cost, e.capacity)
  }

  /** The keys of a list of edges, position by position. */
  function Keys(es: seq<Edge>): seq<EdgeKey>
  {
    seq(|es|, i requires 0 <= i < |es| => Key(es[i]))
  }

  /** The keys of two lists one after the other are the keys of their concatenation. */
  lemma KeysAppend(a: seq<Edge>, b: seq<Edge>)
    ensures Keys(a + b) == Keys(a) + Keys(b)
  {
  }

  /** The constructor `new Edge(source, target, cost, capacity = +inf)`: a new edge carries no flow. */
  function NewEdge(source: Node, target: Node, cost: int, capacity: ExtInt := Infinity): (e: Edge)
    ensures e.flow == 0
    ensures e.Src() == source.id && e.Tgt() == target.id
    ensures Key(e) == EdgeKey(source.id, target.id, cost, capacity)
  {
    Edge(source, target, cost, capacity, 0)
  }

  /** `ResidualCapacity => Capacity - Flow`, where `+inf - flow` stays `+inf`. */
  function ResidualCapacity(e: Edge): (r: ExtInt)
    ensures r.Infinity? <==> e.capacity.Infinity?
    ensures r.Finite? ==> r.n + e.flow == e.capacity.n
  {
    match e.capacity
    case Finite(c) => Finite(c - e.flow)
    case Infinity => Infinity
  }

  /** Omitting the capacity makes an uncapacitated edge with unbounded residual capacity. */
  lemma DefaultIsUncapacitated(source: Node, target: Node, cost: int)
    ensures NewEdge(source, target, cost).capacity == Infinity
    ensures ResidualCapacity(NewEdge(source, target, cost)) == Infinity
  {
  }

  /** A freshly built edge has all of its capacity left. */
  lemma NewEdgeResidual(source: Node, target: Node, cost: int, capacity: ExtInt)
    ensures ResidualCapacity(NewEdge(source, target, cost, capacity)) == capacity
  {
  }

  /**
   * `Clone()`: a new edge on the same endpoint nodes with the same cost and
   * capacity, whose flow is then set to the original's.
   */
  function CloneEdge(e: Edge): (c: Edge)
    ensures c == e
  {
    NewEdge(e.source, e.target, e.cost, e.capacity).(flow := e.flow)
  }
}
