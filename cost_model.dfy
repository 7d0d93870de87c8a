/** Edges of the campus graph and the two routing cost policies. */
module CostModel {

  /** Routing mode: raw distance, or distance plus an inconvenience penalty. */
  datatype Mode = Shortest | Convenient

  /** One adjacency entry: the neighbour index, the distance and the convenience score. */
  datatype Edge = Edge(to: int, dist: int, conv: int)

  /** Upper bound of the convenience score. */
  const MAX_CONV: int := 600
  /** Penalty weight per unit of missing convenience. */
  const BETA: int := 5

  /** The weights an edge has once the loader has accepted it. */
  predicate WellWeighted(e: Edge)
  {
    e.dist >= 0 && 0 <= e.conv <= MAX_CONV
  }

  /** Routing weight of an edge under a mode. Over an accepted edge the cost
      never falls below the distance, so it is never negative. */
  function EdgeCost(e: Edge, m: Mode): (c: int)
    ensures WellWeighted(e) ==> 0 <= e.dist <= c
  {
    match m
    case Shortest => e.dist
    case Convenient => e.dist + (MAX_CONV - e.conv) * BETA
  }

  /** The shortest mode charges the distance and nothing else; the convenient
      mode charges BETA for every unit of convenience below MAX_CONV on top. */
  lemma ModeCosts(e: Edge)
    ensures EdgeCost(e, Shortest) == e.dist
    ensures EdgeCost(e, Convenient) - EdgeCost(e, Shortest) == (MAX_CONV - e.conv) * BETA
    ensures e.conv == MAX_CONV ==> EdgeCost(e, Convenient) == EdgeCost(e, Shortest)
  {
  }

  /** Between two edges of equal length, the more convenient one is never
      dearer in convenient mode, and each extra unit of convenience saves BETA. */
  lemma MoreConvenientIsCheaper(e1: Edge, e2: Edge)
    requires e1.dist == e2.dist && e1.conv <= e2.conv
    ensures EdgeCost(e2, Convenient) <= EdgeCost(e1, Convenient)
    ensures EdgeCost(e1, Convenient) - EdgeCost(e2, Convenient) == (e2.conv - e1.conv) * BETA
  {
  }
}
