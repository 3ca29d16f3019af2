/**
 * The result records of the algorithms (the files under Algorithms/Results). Each
 * constant is the record as its parameterless constructor leaves it.
 */
module Results {
  import opened Basics
  import opened NodeModel
  import opened EdgeModel

  /** `DijkstraResult`: total cost, the path as a list of edges, success flag. */
  datatype DijkstraResult = DijkstraResult(totalCost: ExtInt, path: seq<Edge>, success: bool)

  /** `new DijkstraResult()`: +inf, no path, not successful. */
  const NoPath: DijkstraResult := DijkstraResult(Infinity, [], false)

  /** `MaxFlowResult`: the flow value and the saturated cut edges. */
  datatype MaxFlowResult = MaxFlowResult(maxFlow: int, bottleneckEdges: seq<Edge>)

  /** `new MaxFlowResult()`: zero flow, no edges. */
  const NoFlow: MaxFlowResult := MaxFlowResult(0, [])

  /** `MSTResult`: the total cost and the accepted edges in acceptance order. */
  datatype MSTResult = MSTResult(totalCost: int, edges: seq<Edge>)

  /** `new MSTResult()`: cost 0, no edges. */
  const EmptyTree: MSTResult := MSTResult(0, [])

  /**
   * `ColoringResult`: the shifts, a dictionary from color to the edges of
   * that color; `shiftOrder` lists its keys in the order they were added,
   * which is the order a .NET `Dictionary` enumerates them in.
   */
  datatype ColoringResult = ColoringResult(shiftOrder: seq<int>, shifts: map<int, seq<Edge>>)

  /** `new ColoringResult()`: no shifts. */
  const NoShifts: ColoringResult := ColoringResult([], map[])

  /** `EulerianResult`: the verdict and the walk. */
  datatype EulerianResult = EulerianResult(isPossible: bool, path: seq<Edge>)

  /** `new EulerianResult()`: not possible, no walk. */
  const NoWalk: EulerianResult := EulerianResult(false, [])

  /** `HamiltonianResult`: the verdict and the cycle as a list of nodes. */
  datatype HamiltonianResult = HamiltonianResult(isPossible: bool, cycle: seq<Node>)

  /** `new HamiltonianResult()`: not possible, no cycle. */
  const NoCycle: HamiltonianResult := HamiltonianResult(false, [])
}
