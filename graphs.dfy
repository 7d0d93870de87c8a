/** Adjacency-list graphs, walks over them and what a walk costs. */
module Graphs {
  import opened CostModel

  /** One list of incident edges per node index. */
  type Graph = seq<seq<Edge>>

  /** A tentative cost: unreached (the INT_MAX sentinel) or a finite total. */
  datatype Dist = Inf | Fin(n: int)

  /** Every edge points at a node of the graph and carries accepted weights. */
  ghost predicate WellFormed(G: Graph)
  {
    forall u, i :: 0 <= u < |G| && 0 <= i < |G[u]| ==>
      0 <= G[u][i].to < |G| && WellWeighted(G[u][i])
  }

  /** Some edge of u's list leads to v. */
  ghost predicate Linked(G: Graph, u: int, v: int)
  {
    0 <= u < |G| && exists i :: 0 <= i < |G[u]| && G[u][i].to == v
  }

  /** Every consecutive pair of the node sequence is joined by an edge. */
  ghost predicate IsWalk(G: Graph, p: seq<int>)
  {
    forall i :: 0 <= i < |p| - 1 ==> Linked(G, p[i], p[i + 1])
  }

  /** A walk from s to t. */
  ghost predicate IsPath(G: Graph, p: seq<int>, s: int, t: int)
  {
    |p| > 0 && p[0] == s && p[|p| - 1] == t && IsWalk(G, p)
  }

  ghost predicate Reachable(G: Graph, s: int, t: int)
  {
    exists p :: IsPath(G, p, s, t)
  }

  /** The cheapest edge of `es` that leads to v, or Inf when none does. */
  ghost function MinCost(es: seq<Edge>, v: int, m: Mode): (c: Dist)
    ensures c.Fin? <==> exists i :: 0 <= i < |es| && es[i].to == v
    ensures c.Fin? ==> forall i :: 0 <= i < |es| && es[i].to == v ==> c.n <= EdgeCost(es[i], m)
    ensures c.Fin? ==> exists i :: 0 <= i < |es| && es[i].to == v && c.n == EdgeCost(es[i], m)
    decreases |es|
  {
    if es == [] then Inf
    else
      var rest := MinCost(es[1..], v, m);
      if es[0].to != v then rest
      else if rest.Fin? && rest.n < EdgeCost(es[0], m) then rest
      else Fin(EdgeCost(es[0], m))
  }

  /** Cost of the hop u -> v: its cheapest parallel edge. */
  ghost function HopCost(G: Graph, u: int, v: int, m: Mode): int
    requires Linked(G, u, v)
  {
    MinCost(G[u], v, m).n
  }

  /** Summed hop costs along a walk, accumulated from the last hop back. */
  ghost function PathCost(G: Graph, p: seq<int>, m: Mode): (c: int)
    requires IsWalk(G, p)
    ensures WellFormed(G) ==> c >= 0
    decreases |p|
  {
    if |p| <= 1 then 0
    else PathCost(G, p[..|p| - 1], m) + HopCost(G, p[|p| - 2], p[|p| - 1], m)
  }

  /** A hop costs what one of its parallel edges costs, and no more than
      any of them. */
  lemma HopCostIsCheapestEdge(G: Graph, u: int, v: int, m: Mode)
    requires Linked(G, u, v)
    ensures exists i :: 0 <= i < |G[u]| && G[u][i].to == v && HopCost(G, u, v, m) == EdgeCost(G[u][i], m)
    ensures forall i :: 0 <= i < |G[u]| && G[u][i].to == v ==> HopCost(G, u, v, m) <= EdgeCost(G[u][i], m)
  {
  }

  /** A hop over accepted edges is no cheaper than zero, and no dearer than any of its edges. */
  lemma HopCostBounds(G: Graph, u: int, v: int, m: Mode)
    requires WellFormed(G) && Linked(G, u, v)
    ensures HopCost(G, u, v, m) >= 0
    ensures forall i :: 0 <= i < |G[u]| && G[u][i].to == v ==> HopCost(G, u, v, m) <= EdgeCost(G[u][i], m)
  {
    var i :| 0 <= i < |G[u]| && G[u][i].to == v && HopCost(G, u, v, m) == EdgeCost(G[u][i], m);
    assert WellWeighted(G[u][i]);
  }

  /** Prepending a hop to a walk gives a walk. */
  lemma ConsIsWalk(G: Graph, v: int, p: seq<int>)
    requires |p| > 0 && Linked(G, v, p[0]) && IsWalk(G, p)
    ensures IsWalk(G, [v] + p)
  {
    var q := [v] + p;
    forall i | 0 <= i < |q| - 1
      ensures Linked(G, q[i], q[i + 1])
    {
      if i > 0 {
        assert q[i] == p[i - 1] && q[i + 1] == p[i];
      }
    }
  }

  /** Prepending a hop adds exactly that hop's cost. */
  lemma {:induction false} PathCostCons(G: Graph, v: int, p: seq<int>, m: Mode)
    requires |p| > 0 && Linked(G, v, p[0]) && IsWalk(G, p)
    ensures IsWalk(G, [v] + p)
    ensures PathCost(G, [v] + p, m) == HopCost(G, v, p[0], m) + PathCost(G, p, m)
    decreases |p|
  {
    var q := [v] + p;
    ConsIsWalk(G, v, p);
    if |p| > 1 {
      var p' := p[..|p| - 1];
      PrefixIsWalk(G, p, |p| - 1);
      PathCostCons(G, v, p', m);
      assert q[..|q| - 1] == [v] + p';
      assert q[|q| - 2] == p[|p| - 2] && q[|q| - 1] == p[|p| - 1];
    } else {
      assert q[..1] == [v];
    }
  }

  /** A walk's prefix is a walk. */
  lemma PrefixIsWalk(G: Graph, p: seq<int>, j: int)
    requires IsWalk(G, p) && 0 <= j <= |p|
    ensures IsWalk(G, p[..j])
  {
    assert forall i :: 0 <= i < j ==> p[..j][i] == p[i];
  }

  /** A walk without its first node is a walk. */
  lemma SuffixIsWalk(G: Graph, p: seq<int>)
    requires IsWalk(G, p) && |p| > 0
    ensures IsWalk(G, p[1..])
  {
    assert forall i :: 0 <= i < |p| - 1 ==> p[1..][i] == p[i + 1];
  }

  /** Over accepted edges a prefix of a walk costs no more than the walk. */
  lemma {:induction false} PrefixCostBound(G: Graph, p: seq<int>, j: int, m: Mode)
    requires WellFormed(G) && IsWalk(G, p) && 0 < j <= |p|
    ensures IsWalk(G, p[..j]) && PathCost(G, p[..j], m) <= PathCost(G, p, m)
    decreases |p|
  {
    PrefixIsWalk(G, p, j);
    if j == |p| {
      assert p[..j] == p;
    } else {
      var p' := p[..|p| - 1];
      PrefixIsWalk(G, p, |p| - 1);
      PrefixCostBound(G, p', j, m);
      assert p'[..j] == p[..j];
      HopCostBounds(G, p[|p| - 2], p[|p| - 1], m);
    }
  }

  /** The node sequence read backwards. */
  function Reversed(s: seq<int>): (r: seq<int>)
    ensures |r| == |s|
    ensures forall i :: 0 <= i < |s| ==> r[i] == s[|s| - 1 - i]
  {
    if s == [] then [] else Reversed(s[1..]) + [s[0]]
  }

  /** Reversing a sequence with one more element at its end puts that
      element first. */
  lemma ReversedSnoc(s: seq<int>, x: int)
    ensures Reversed(s + [x]) == [x] + Reversed(s)
  {
    var r, t := Reversed(s + [x]), [x] + Reversed(s);
    assert forall i :: 0 <= i < |t| ==> r[i] == t[i];
  }

  /** Every edge u -> v has a twin v -> u with the same weights: the shape
      the edge loader builds by inserting each row into both lists. */
  ghost predicate Symmetric(G: Graph)
  {
    forall u, v, d, c :: 0 <= u < |G| && 0 <= v < |G| && Edge(v, d, c) in G[u] ==> Edge(u, d, c) in G[v]
  }

  /** In a symmetric graph a hop can be taken backwards at the same cost. */
  lemma HopCostSymmetric(G: Graph, u: int, v: int, m: Mode)
    requires WellFormed(G) && Symmetric(G) && Linked(G, u, v)
    ensures Linked(G, v, u) && HopCost(G, u, v, m) == HopCost(G, v, u, m)
  {
    var i :| 0 <= i < |G[u]| && G[u][i].to == v && HopCost(G, u, v, m) == EdgeCost(G[u][i], m);
    var e := G[u][i];
    assert e == Edge(v, e.dist, e.conv) && e in G[u];
    assert Edge(u, e.dist, e.conv) in G[v];
    var j :| 0 <= j < |G[v]| && G[v][j] == Edge(u, e.dist, e.conv);
    assert EdgeCost(G[v][j], m) == EdgeCost(e, m);
    var j' :| 0 <= j' < |G[v]| && G[v][j'].to == u && HopCost(G, v, u, m) == EdgeCost(G[v][j'], m);
    var f := G[v][j'];
    assert f == Edge(u, f.dist, f.conv) && f in G[v];
    assert Edge(v, f.dist, f.conv) in G[u];
    var i' :| 0 <= i' < |G[u]| && G[u][i'] == Edge(v, f.dist, f.conv);
    assert EdgeCost(G[u][i'], m) == EdgeCost(f, m);
  }

  /** Appending a hop adds exactly that hop's cost. */
  lemma PathCostSnoc(G: Graph, q: seq<int>, x: int, m: Mode)
    requires |q| > 0 && IsWalk(G, q) && Linked(G, q[|q| - 1], x)
    ensures IsWalk(G, q + [x])
    ensures PathCost(G, q + [x], m) == PathCost(G, q, m) + HopCost(G, q[|q| - 1], x, m)
  {
    var r := q + [x];
    assert forall i :: 0 <= i < |q| ==> r[i] == q[i];
    assert r[..|r| - 1] == q;
  }

  /** In a symmetric graph a walk read backwards is a walk of the same cost. */
  lemma {:induction false} ReversedWalkCost(G: Graph, p: seq<int>, m: Mode)
    requires WellFormed(G) && Symmetric(G) && IsWalk(G, p)
    ensures IsWalk(G, Reversed(p)) && PathCost(G, Reversed(p), m) == PathCost(G, p, m)
    decreases |p|
  {
    if |p| > 1 {
      var t := p[1..];
      SuffixIsWalk(G, p);
      ReversedWalkCost(G, t, m);
      HopCostSymmetric(G, p[0], p[1], m);
      assert p == [p[0]] + t;
      PathCostCons(G, p[0], t, m);
      var rt := Reversed(t);
      assert rt[|rt| - 1] == p[1];
      PathCostSnoc(G, rt, p[0], m);
      assert Reversed(p) == rt + [p[0]];
    }
  }

  /** In a symmetric graph t is reachable from s exactly when s is from t. */
  lemma ReachableSymmetric(G: Graph, s: int, t: int)
    requires WellFormed(G) && Symmetric(G)
    ensures Reachable(G, s, t) <==> Reachable(G, t, s)
  {
    if Reachable(G, s, t) {
      var p :| IsPath(G, p, s, t);
      ReversedWalkCost(G, p, Shortest);
      assert IsPath(G, Reversed(p), t, s);
    }
    if Reachable(G, t, s) {
      var p :| IsPath(G, p, t, s);
      ReversedWalkCost(G, p, Shortest);
      assert IsPath(G, Reversed(p), s, t);
    }
  }
}
