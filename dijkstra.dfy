/** Single-source Dijkstra with a lazy frontier, stale-entry skip, early exit
    on the target and path reconstruction through predecessor links. */
module PathEngine {
  import opened CostModel
  import opened Graphs
  import opened Frontier

  /** The value of INF in line 70: the largest 32-bit int. */
  const INT_MAX: int := 0x7fff_ffff

  /** The int the source stores for a tentative cost. */
  function Stored(d: Dist): int
  {
    if d.Inf? then INT_MAX else d.n
  }

  /** The comparison `c < dist[v]` against a tentative cost, INF included:
      for every cost below INT_MAX it agrees with the comparison of ints. */
  predicate Below(c: int, d: Dist)
    ensures c < INT_MAX ==> (Below(c, d) <==> c < Stored(d))
  {
    d.Inf? || c < d.n
  }

  /** The stale test `c > dist[u]`: no int exceeds INF, and for every int
      the test agrees with the comparison of ints. */
  predicate Exceeds(c: int, d: Dist)
    ensures c <= INT_MAX ==> (Exceeds(c, d) <==> c > Stored(d))
  {
    d.Fin? && c > d.n
  }

  // ---- Solver invariants (ghost) ----

  /** No finite tentative cost is negative. */
  ghost predicate NonNegative(dist: seq<Dist>)
  {
    forall w :: 0 <= w < |dist| && dist[w].Fin? ==> dist[w].n >= 0
  }

  /** Every predecessor link is -1 or a node index. */
  ghost predicate PrevInRange(prev: seq<int>)
  {
    forall w :: 0 <= w < |prev| ==> -1 <= prev[w] < |prev|
  }

  /** Every node of Q is reached at cost at most c. */
  ghost predicate CappedBy(dist: seq<Dist>, Q: set<int>, c: int)
  {
    forall x :: x in Q ==> 0 <= x < |dist| && dist[x].Fin? && dist[x].n <= c
  }

  /** Every node of the settled set P has a finite cost, and every edge out of
      it has been relaxed. */
  ghost predicate Relaxed(G: Graph, m: Mode, dist: seq<Dist>, P: set<int>)
    requires WellFormed(G) && |dist| == |G|
  {
    && (forall x :: x in P ==> 0 <= x < |G| && dist[x].Fin?)
    && (forall x, i :: x in P && 0 <= i < |G[x]| ==>
          dist[G[x][i].to].Fin? && dist[G[x][i].to].n <= dist[x].n + EdgeCost(G[x][i], m))
  }

  /** Every reached node outside P waits in the frontier with its current cost. */
  ghost predicate Pending(dist: seq<Dist>, pq: seq<Entry>, P: set<int>)
  {
    forall v :: 0 <= v < |dist| && v !in P && dist[v].Fin? ==> (dist[v].n, v) in pq
  }

  /** Frontier entries name reached nodes, never undercut their current cost,
      and are no cheaper than any settled node. */
  ghost predicate Bounded(dist: seq<Dist>, pq: seq<Entry>, P: set<int>)
  {
    && (forall e :: e in pq ==> 0 <= e.1 < |dist| && dist[e.1].Fin? && dist[e.1].n <= e.0)
    && (forall e, x :: e in pq && x in P && 0 <= x < |dist| && dist[x].Fin? ==> dist[x].n <= e.0)
  }

  /** Predecessor links: every reached node but S has one; each points at a
      settled node whose cost plus the hop does not exceed the node's cost;
      and along links the settle order strictly increases. */
  ghost predicate Tree(G: Graph, m: Mode, S: int, dist: seq<Dist>, prev: seq<int>, P: set<int>, ord: seq<nat>)
    requires |dist| == |G| && |prev| == |G| && |ord| == |G|
  {
    && (forall v {:trigger prev[v]} :: 0 <= v < |G| && v != S && dist[v].Fin? ==> prev[v] != -1)
    && (forall v :: 0 <= v < |G| && prev[v] != -1 ==>
          && 0 <= prev[v] < |G| && prev[v] in P
          && dist[prev[v]].Fin? && dist[v].Fin?
          && Linked(G, prev[v], v)
          && dist[prev[v]].n + HopCost(G, prev[v], v, m) <= dist[v].n
          && (v in P ==> ord[prev[v]] < ord[v]))
  }

  // ---- Lemmas about a state satisfying the invariants ----

  /** If every node before position j of a walk from S is settled, the cost
      recorded for q[j] is finite and at most the cost of the walk up to q[j]. */
  lemma {:induction false} SettledPrefixBound(G: Graph, m: Mode, S: int, dist: seq<Dist>, P: set<int>, q: seq<int>, j: int)
    requires WellFormed(G) && |dist| == |G| && 0 <= S < |G| && dist[S] == Fin(0)
    requires Relaxed(G, m, dist, P)
    requires IsWalk(G, q) && |q| > 0 && q[0] == S && 0 <= j < |q|
    requires forall k :: 0 <= k < j ==> q[k] in P
    ensures IsWalk(G, q[..j + 1]) && 0 <= q[j] < |G|
    ensures dist[q[j]].Fin? && dist[q[j]].n <= PathCost(G, q[..j + 1], m)
    decreases j
  {
    PrefixIsWalk(G, q, j + 1);
    if j > 0 {
      SettledPrefixBound(G, m, S, dist, P, q, j - 1);
      var u, v := q[j - 1], q[j];
      assert Linked(G, u, v);
      var i :| 0 <= i < |G[u]| && G[u][i].to == v && HopCost(G, u, v, m) == EdgeCost(G[u][i], m);
      var p := q[..j + 1];
      assert p[..|p| - 1] == q[..j];
      assert p[|p| - 2] == u && p[|p| - 1] == v;
    }
  }

  /** When the frontier holds nothing cheaper than c, the target is unsettled
      and the invariants hold, every walk from S to T costs at least c. */
  lemma {:induction false} FrontierLowerBound(G: Graph, m: Mode, S: int, T: int, dist: seq<Dist>, pq: seq<Entry>, P: set<int>, c: int, q: seq<int>, j: int)
    requires WellFormed(G) && |dist| == |G| && 0 <= S < |G| && dist[S] == Fin(0)
    requires Relaxed(G, m, dist, P) && Pending(dist, pq, P)
    requires forall e :: e in pq ==> c <= e.0
    requires T !in P && IsPath(G, q, S, T)
    requires 0 <= j < |q| && forall k :: 0 <= k < j ==> q[k] in P
    ensures c <= PathCost(G, q, m)
    decreases |q| - j
  {
    if q[j] in P {
      FrontierLowerBound(G, m, S, T, dist, pq, P, c, q, j + 1);
    } else {
      SettledPrefixBound(G, m, S, dist, P, q, j);
      PrefixCostBound(G, q, j + 1, m);
    }
  }

  /** Popping the target at cost c, with nothing cheaper left, means c is optimal. */
  lemma PoppedTargetIsOptimal(G: Graph, m: Mode, S: int, T: int, dist: seq<Dist>, pq: seq<Entry>, P: set<int>, c: int)
    requires WellFormed(G) && |dist| == |G| && 0 <= S < |G| && dist[S] == Fin(0)
    requires Relaxed(G, m, dist, P) && Pending(dist, pq, P)
    requires forall e :: e in pq ==> c <= e.0
    requires T !in P
    ensures forall q :: IsPath(G, q, S, T) ==> c <= PathCost(G, q, m)
  {
    forall q | IsPath(G, q, S, T)
      ensures c <= PathCost(G, q, m)
    {
      FrontierLowerBound(G, m, S, T, dist, pq, P, c, q, 0);
    }
  }

  /** With the frontier exhausted, every node on a walk from S is settled. */
  lemma {:induction false} ExhaustedWalkSettled(G: Graph, m: Mode, S: int, dist: seq<Dist>, P: set<int>, q: seq<int>, j: int)
    requires WellFormed(G) && |dist| == |G| && 0 <= S < |G| && dist[S].Fin?
    requires Relaxed(G, m, dist, P) && Pending(dist, [], P)
    requires IsWalk(G, q) && |q| > 0 && q[0] == S && 0 <= j < |q|
    ensures q[j] in P
    decreases j
  {
    if j > 0 {
      ExhaustedWalkSettled(G, m, S, dist, P, q, j - 1);
      var u := q[j - 1];
      assert Linked(G, u, q[j]);
      var i :| 0 <= i < |G[u]| && G[u][i].to == q[j];
    }
  }

  /** With the frontier exhausted and the target unsettled, it is unreachable. */
  lemma ExhaustedMeansUnreachable(G: Graph, m: Mode, S: int, T: int, dist: seq<Dist>, P: set<int>)
    requires WellFormed(G) && |dist| == |G| && 0 <= S < |G| && dist[S].Fin?
    requires Relaxed(G, m, dist, P) && Pending(dist, [], P)
    requires T !in P
    ensures !Reachable(G, S, T)
  {
    if q :| IsPath(G, q, S, T) {
      ExhaustedWalkSettled(G, m, S, dist, P, q, |q| - 1);
    }
  }

  /** std::reverse over the rebuilt path: swaps the two ends inwards, in place. */
  method ReverseInPlace(a: array<int>)
    modifies a
    ensures a[..] == Reversed(old(a[..]))
  {
    var n := a.Length;
    var i := 0;
    while i < n / 2
      invariant 0 <= i <= n / 2
      invariant forall k :: 0 <= k < i ==> a[k] == old(a[n - 1 - k]) && a[n - 1 - k] == old(a[k])
      invariant forall k :: i <= k < n - i ==> a[k] == old(a[k])
    {
      a[i], a[n - 1 - i] := a[n - 1 - i], a[i];
      i := i + 1;
    }
  }

  /** The node indices 0 .. n-1. */
  ghost function Nodes(n: nat): (r: set<int>)
    ensures forall v :: v in r <==> 0 <= v < n
  {
    if n == 0 then {} else Nodes(n - 1) + {n - 1}
  }

  /** What a pop from the frontier guarantees: `top` was the smallest entry
      and `rest` holds the others. */
  ghost predicate PoppedFrom(pq0: seq<Entry>, top: Entry, rest: seq<Entry>)
  {
    && top in pq0 && |rest| == |pq0| - 1
    && (forall x :: x in pq0 ==> LexLe(top, x))
    && (forall x :: x in rest ==> x in pq0)
    && (forall x :: x in pq0 && x != top ==> x in rest)
  }

  /** The invariant of the solver's main loop. */
  ghost predicate SolverInv(G: Graph, m: Mode, S: int, T: int, dist: seq<Dist>, prev: seq<int>,
                            pq: seq<Entry>, P: set<int>, ord: seq<nat>, k: nat)
  {
    && WellFormed(G) && 0 <= S < |G| && 0 <= T < |G|
    && |dist| == |G| && |prev| == |G| && |ord| == |G|
    && dist[S] == Fin(0) && prev[S] == -1
    && NonNegative(dist) && PrevInRange(prev)
    && P <= Nodes(|G|) && T !in P
    && (forall x :: x in P ==> ord[x] < k)
    && Relaxed(G, m, dist, P)
    && Pending(dist, pq, P)
    && Bounded(dist, pq, P)
    && Tree(G, m, S, dist, prev, P, ord)
  }

  /** The invariant of the relaxation loop over u's edges, after i of them:
      u has joined the settled set, every settled cost is at most cd, and the first i edges of u are relaxed. */
  ghost predicate RelaxInv(G: Graph, m: Mode, S: int, u: int, cd: int, i: int,
                           dist: seq<Dist>, prev: seq<int>, pq: seq<Entry>,
                           P: set<int>, ord': seq<nat>)
  {
    && WellFormed(G) && 0 <= S < |G| && 0 <= u < |G| && 0 <= i <= |G[u]| && cd >= 0
    && |dist| == |G| && |prev| == |G| && |ord'| == |G|
    && dist[u] == Fin(cd)
    && dist[S] == Fin(0) && prev[S] == -1
    && NonNegative(dist) && PrevInRange(prev) && CappedBy(dist, P + {u}, cd)
    && Relaxed(G, m, dist, P)
    && RelaxedUpTo(G, m, dist, u, cd, i)
    && Pending(dist, pq, P + {u})
    && Bounded(dist, pq, P + {u})
    && Tree(G, m, S, dist, prev, P + {u}, ord')
  }

  /** The first i edges out of u, whose cost is cd, are relaxed. */
  ghost predicate RelaxedUpTo(G: Graph, m: Mode, dist: seq<Dist>, u: int, cd: int, i: int)
    requires WellFormed(G) && |dist| == |G| && 0 <= u < |G| && 0 <= i <= |G[u]|
  {
    forall j :: 0 <= j < i ==>
      dist[G[u][j].to].Fin? && dist[G[u][j].to].n <= cd + EdgeCost(G[u][j], m)
  }

  /** Relaxing edge i of u, lowering its target or not, extends the relaxed prefix. */
  lemma RelaxedUpToNext(G: Graph, m: Mode, dist: seq<Dist>, u: int, cd: int, i: int)
    requires WellFormed(G) && |dist| == |G| && 0 <= u < |G| && 0 <= i < |G[u]|
    requires RelaxedUpTo(G, m, dist, u, cd, i)
    ensures !Below(cd + EdgeCost(G[u][i], m), dist[G[u][i].to]) ==>
      RelaxedUpTo(G, m, dist, u, cd, i + 1)
    ensures Below(cd + EdgeCost(G[u][i], m), dist[G[u][i].to]) ==>
      RelaxedUpTo(G, m, dist[G[u][i].to := Fin(cd + EdgeCost(G[u][i], m))], u, cd, i + 1)
  {
  }

  /** Skipping a stale entry keeps the loop invariant. */
  lemma StaleSkip(G: Graph, m: Mode, S: int, T: int, dist: seq<Dist>, prev: seq<int>,
                  pq0: seq<Entry>, top: Entry, rest: seq<Entry>, P: set<int>, ord: seq<nat>, k: nat)
    requires SolverInv(G, m, S, T, dist, prev, pq0, P, ord, k)
    requires PoppedFrom(pq0, top, rest) && 0 <= top.1 < |dist| && Exceeds(top.0, dist[top.1])
    ensures SolverInv(G, m, S, T, dist, prev, rest, P, ord, k)
  {
  }

  /** A popped entry names a reached node and is no cheaper than its cost. */
  lemma PoppedInRange(G: Graph, m: Mode, S: int, T: int, dist: seq<Dist>, prev: seq<int>,
                      pq0: seq<Entry>, top: Entry, rest: seq<Entry>, P: set<int>, ord: seq<nat>, k: nat)
    requires SolverInv(G, m, S, T, dist, prev, pq0, P, ord, k)
    requires PoppedFrom(pq0, top, rest)
    ensures 0 <= top.1 < |dist| && dist[top.1].Fin? && dist[top.1].n <= top.0
  {
  }

  /** When the target is popped fresh, its cost is the cheapest of all paths. */
  lemma TargetPopped(G: Graph, m: Mode, S: int, T: int, dist: seq<Dist>, prev: seq<int>,
                     pq0: seq<Entry>, top: Entry, rest: seq<Entry>, P: set<int>, ord: seq<nat>, k: nat)
    requires SolverInv(G, m, S, T, dist, prev, pq0, P, ord, k)
    requires PoppedFrom(pq0, top, rest) && top.1 == T && !Exceeds(top.0, dist[T])
    ensures dist[T] == Fin(top.0)
    ensures forall q :: IsPath(G, q, S, T) ==> dist[T].n <= PathCost(G, q, m)
  {
    PoppedTargetIsOptimal(G, m, S, T, dist, pq0, P, top.0);
  }

  /** A fresh pop of u (not the target) starts the relaxation loop with u settled. */
  lemma BeginSettle(G: Graph, m: Mode, S: int, T: int, dist: seq<Dist>, prev: seq<int>,
                    pq0: seq<Entry>, top: Entry, rest: seq<Entry>, P: set<int>, ord: seq<nat>, k: nat)
    requires SolverInv(G, m, S, T, dist, prev, pq0, P, ord, k)
    requires PoppedFrom(pq0, top, rest) && 0 <= top.1 < |dist| && dist[top.1] == Fin(top.0)
    ensures RelaxInv(G, m, S, top.1, top.0, 0, dist, prev, rest, P,
                     if top.1 in P then ord else ord[top.1 := k])
  {
    var u, cd := top.1, top.0;
    var ord' := if u in P then ord else ord[u := k];
    assert forall x :: x in P ==> ord'[x] == ord[x];
  }

  /** Once all of u's edges are relaxed, u joins the settled set for good. */
  lemma FinishSettle(G: Graph, m: Mode, S: int, T: int, u: int, cd: int,
                     dist0: seq<Dist>, prev0: seq<int>, pq0: seq<Entry>,
                     dist: seq<Dist>, prev: seq<int>, pq: seq<Entry>,
                     P: set<int>, ord: seq<nat>, k: nat)
    requires SolverInv(G, m, S, T, dist0, prev0, pq0, P, ord, k)
    requires 0 <= u < |G| && u != T
    requires RelaxInv(G, m, S, u, cd, |G[u]|, dist, prev, pq, P,
                      if u in P then ord else ord[u := k])
    ensures SolverInv(G, m, S, T, dist, prev, pq, P + {u},
                      if u in P then ord else ord[u := k], if u in P then k else k + 1)
    ensures u in P ==> P + {u} == P
  {
    SettledRelaxed(G, m, dist, P, u, cd);
    SettleOrder(P, u, ord, k);
    assert P + {u} <= Nodes(|G|);
  }

  /** With all of u's edges relaxed from its cost, u may join the settled set. */
  lemma SettledRelaxed(G: Graph, m: Mode, dist: seq<Dist>, P: set<int>, u: int, cd: int)
    requires WellFormed(G) && |dist| == |G| && 0 <= u < |G| && dist[u] == Fin(cd)
    requires Relaxed(G, m, dist, P) && RelaxedUpTo(G, m, dist, u, cd, |G[u]|)
    ensures Relaxed(G, m, dist, P + {u})
  {
    forall x, i | x in P + {u} && 0 <= i < |G[x]|
      ensures dist[G[x][i].to].Fin? && dist[G[x][i].to].n <= dist[x].n + EdgeCost(G[x][i], m)
    {
      if x != u {
        assert x in P;
      }
    }
  }

  /** A newly settled node gets the next rank, so every rank stays below the count. */
  lemma SettleOrder(P: set<int>, u: int, ord: seq<nat>, k: nat)
    requires 0 <= u < |ord| && P <= Nodes(|ord|) && forall x :: x in P ==> ord[x] < k
    ensures forall x :: x in P + {u} ==> (if u in P then ord else ord[u := k])[x] < (if u in P then k else k + 1)
  {
  }

  /** A relaxation that leaves the neighbour's cost alone keeps the
      relaxation-loop invariant. */
  lemma RelaxKept(G: Graph, m: Mode, S: int, u: int, cd: int, i: int,
                  dist: seq<Dist>, prev: seq<int>, pq: seq<Entry>,
                  P: set<int>, ord': seq<nat>)
    requires RelaxInv(G, m, S, u, cd, i, dist, prev, pq, P, ord') && i < |G[u]|
    requires !Below(cd + EdgeCost(G[u][i], m), dist[G[u][i].to])
    ensures RelaxInv(G, m, S, u, cd, i + 1, dist, prev, pq, P, ord')
  {
    RelaxedUpToNext(G, m, dist, u, cd, i);
  }

  /** Lowering an unsettled node's cost keeps the settled set relaxed. */
  lemma LowerKeepsRelaxed(G: Graph, m: Mode, dist: seq<Dist>, P: set<int>, v: int, nd: int)
    requires WellFormed(G) && |dist| == |G| && Relaxed(G, m, dist, P)
    requires 0 <= v < |G| && v !in P && Below(nd, dist[v])
    ensures Relaxed(G, m, dist[v := Fin(nd)], P)
  {
    var dist' := dist[v := Fin(nd)];
    forall x, j | x in P && 0 <= j < |G[x]|
      ensures dist'[G[x][j].to].Fin? && dist'[G[x][j].to].n <= dist'[x].n + EdgeCost(G[x][j], m)
    {
    }
  }

  /** Pushing (nd, v) along with the lowered cost keeps every reached
      unsettled node in the frontier. */
  lemma LowerKeepsPending(dist: seq<Dist>, pq: seq<Entry>, P: set<int>, v: int, nd: int)
    requires Pending(dist, pq, P) && 0 <= v < |dist|
    ensures Pending(dist[v := Fin(nd)], pq + [(nd, v)], P)
  {
    var dist', pq' := dist[v := Fin(nd)], pq + [(nd, v)];
    forall w | 0 <= w < |dist'| && w !in P && dist'[w].Fin?
      ensures (dist'[w].n, w) in pq'
    {
      if w == v {
        assert pq'[|pq|] == (nd, v);
      } else {
        assert (dist[w].n, w) in pq;
        assert pq'[..|pq|] == pq;
      }
    }
  }

  /** A pushed entry no cheaper than any settled node keeps the frontier bounded. */
  lemma LowerKeepsBounded(dist: seq<Dist>, pq: seq<Entry>, P: set<int>, v: int, nd: int)
    requires Bounded(dist, pq, P) && 0 <= v < |dist| && v !in P && Below(nd, dist[v])
    requires forall x :: x in P && 0 <= x < |dist| && dist[x].Fin? ==> dist[x].n <= nd
    ensures Bounded(dist[v := Fin(nd)], pq + [(nd, v)], P)
  {
  }

  /** Making u, settled with cost cd, the predecessor of its neighbour v via
      edge i keeps the predecessor links well founded and cost-consistent. */
  lemma LowerKeepsTree(G: Graph, m: Mode, S: int, dist: seq<Dist>, prev: seq<int>, P: set<int>, ord: seq<nat>,
                       u: int, cd: int, i: int, v: int, nd: int)
    requires WellFormed(G) && |dist| == |G| && |prev| == |G| && |ord| == |G|
    requires Tree(G, m, S, dist, prev, P, ord)
    requires 0 <= u < |G| && u in P && dist[u] == Fin(cd) && 0 <= i < |G[u]|
    requires v == G[u][i].to && nd == cd + EdgeCost(G[u][i], m)
    requires v !in P && v != S && Below(nd, dist[v])
    ensures Tree(G, m, S, dist[v := Fin(nd)], prev[v := u], P, ord)
  {
    HopCostBounds(G, u, v, m);
    var dist', prev' := dist[v := Fin(nd)], prev[v := u];
    forall w | 0 <= w < |G| && prev'[w] != -1
      ensures && 0 <= prev'[w] < |G| && prev'[w] in P
              && dist'[prev'[w]].Fin? && dist'[w].Fin?
              && Linked(G, prev'[w], w)
              && dist'[prev'[w]].n + HopCost(G, prev'[w], w, m) <= dist'[w].n
              && (w in P ==> ord[prev'[w]] < ord[w])
    {
      if w == v {
        assert G[u][i].to == v;
      }
    }
  }

  /** Lowering an unsettled node to a non-negative cost keeps the simple
      bookkeeping facts. */
  lemma LowerKeepsBasics(dist: seq<Dist>, prev: seq<int>, Q: set<int>, c: int, u: int, v: int, nd: int)
    requires |prev| == |dist| && NonNegative(dist) && PrevInRange(prev) && CappedBy(dist, Q, c)
    requires 0 <= u < |dist| && 0 <= v < |dist| && v !in Q && nd >= 0
    ensures NonNegative(dist[v := Fin(nd)]) && PrevInRange(prev[v := u]) && CappedBy(dist[v := Fin(nd)], Q, c)
  {
  }

  /** A relaxation that lowers the neighbour v to nd, records u as its
      predecessor and pushes (nd, v) keeps the relaxation-loop invariant;
      v is never a settled node. */
  lemma RelaxLowered(G: Graph, m: Mode, S: int, u: int, cd: int, i: int,
                     dist: seq<Dist>, prev: seq<int>, pq: seq<Entry>,
                     P: set<int>, ord': seq<nat>, v: int, nd: int)
    requires RelaxInv(G, m, S, u, cd, i, dist, prev, pq, P, ord') && i < |G[u]|
    requires v == G[u][i].to && nd == cd + EdgeCost(G[u][i], m) && Below(nd, dist[v])
    ensures 0 <= v < |dist| && v !in P + {u}
    ensures RelaxInv(G, m, S, u, cd, i + 1, dist[v := Fin(nd)], prev[v := u], pq + [(nd, v)],
                     P, ord')
  {
    assert WellWeighted(G[u][i]);
    assert v !in P + {u};
    LowerKeepsRelaxed(G, m, dist, P, v, nd);
    LowerKeepsPending(dist, pq, P + {u}, v, nd);
    LowerKeepsBounded(dist, pq, P + {u}, v, nd);
    LowerKeepsTree(G, m, S, dist, prev, P + {u}, ord', u, cd, i, v, nd);
    LowerKeepsBasics(dist, prev, P + {u}, cd, u, v, nd);
    RelaxedUpToNext(G, m, dist, u, cd, i);
  }

  /** Relaxes every edge out of u, the inner loop of the solver: a neighbour
      whose cost drops gets u as predecessor and a new frontier entry. */
  method RelaxNeighbours(G: Graph, m: Mode, ghost S: int, u: int, cd: int,
                         dist: seq<Dist>, prev: seq<int>, pq: seq<Entry>,
                         ghost P: set<int>, ghost ord': seq<nat>)
    returns (dist': seq<Dist>, prev': seq<int>, pq': seq<Entry>)
    requires RelaxInv(G, m, S, u, cd, 0, dist, prev, pq, P, ord')
    ensures RelaxInv(G, m, S, u, cd, |G[u]|, dist', prev', pq', P, ord')
    ensures u in P ==> pq' == pq
  {
    dist', prev', pq' := dist, prev, pq;
    var i := 0;
    while i < |G[u]|
      invariant RelaxInv(G, m, S, u, cd, i, dist', prev', pq', P, ord')
      invariant u in P ==> pq' == pq
    {
      var e := G[u][i];
      var nd := cd + EdgeCost(e, m);
      if Below(nd, dist'[e.to]) {
        RelaxLowered(G, m, S, u, cd, i, dist', prev', pq', P, ord', e.to, nd);
        dist' := dist'[e.to := Fin(nd)];
        prev' := prev'[e.to := u];
        pq' := pq' + [(nd, e.to)];
      } else {
        RelaxKept(G, m, S, u, cd, i, dist', prev', pq', P, ord');
      }
      i := i + 1;
    }
  }

  /** Settling a new node shrinks the set of unsettled nodes. */
  lemma SettleShrinks(n: nat, P: set<int>, u: int)
    requires 0 <= u < n && u !in P
    ensures |Nodes(n) - (P + {u})| < |Nodes(n) - P|
  {
    assert Nodes(n) - (P + {u}) == (Nodes(n) - P) - {u};
  }

  /** Lines 80-83 after a fresh pop of u other than the target: relax
      every edge of u and count u as settled. The invariant is kept, and
      either one more node is settled or the frontier is shorter. */
  method Settle(G: Graph, m: Mode, ghost S: int, ghost T: int, u: int, cd: int,
                dist: seq<Dist>, prev: seq<int>, rest: seq<Entry>,
                ghost pq0: seq<Entry>, ghost P: set<int>, ghost ord: seq<nat>, ghost k: nat)
    returns (dist': seq<Dist>, prev': seq<int>, queue: seq<Entry>,
             ghost P': set<int>, ghost ord': seq<nat>, ghost k': nat)
    requires SolverInv(G, m, S, T, dist, prev, pq0, P, ord, k)
    requires PoppedFrom(pq0, (cd, u), rest) && 0 <= u < |dist| && dist[u] == Fin(cd) && u != T
    ensures SolverInv(G, m, S, T, dist', prev', queue, P', ord', k')
    ensures || |Nodes(|G|) - P'| < |Nodes(|G|) - P|
            || (|Nodes(|G|) - P'| == |Nodes(|G|) - P| && |queue| < |pq0|)
  {
    BeginSettle(G, m, S, T, dist, prev, pq0, (cd, u), rest, P, ord, k);
    ord' := if u in P then ord else ord[u := k];
    dist', prev', queue := RelaxNeighbours(G, m, S, u, cd, dist, prev, rest, P, ord');
    FinishSettle(G, m, S, T, u, cd, dist, prev, pq0, dist', prev', queue, P, ord, k);
    if u in P {
      P', k' := P, k;
    } else {
      SettleShrinks(|G|, P, u);
      P', k' := P + {u}, k + 1;
    }
  }

  /** One pass of the loop of lines 76-84: pop the cheapest entry, drop it
      when stale, stop (done) when it is the target, otherwise settle it.
      On stopping, the target's cost is optimal and the invariant holds for
      the frontier before the pop; otherwise the invariant is kept, and one
      more node is settled or the frontier is shorter. */
  method Step(G: Graph, m: Mode, ghost S: int, T: int, dist: seq<Dist>, prev: seq<int>,
              queue: seq<Entry>, ghost P: set<int>, ghost ord: seq<nat>, ghost k: nat)
    returns (dist': seq<Dist>, prev': seq<int>, queue': seq<Entry>,
             ghost P': set<int>, ghost ord': seq<nat>, ghost k': nat, done: bool)
    requires SolverInv(G, m, S, T, dist, prev, queue, P, ord, k) && |queue| > 0
    ensures done ==> SolverInv(G, m, S, T, dist', prev', queue, P', ord', k')
    ensures done ==> dist'[T].Fin? && forall q :: IsPath(G, q, S, T) ==> dist'[T].n <= PathCost(G, q, m)
    ensures !done ==> SolverInv(G, m, S, T, dist', prev', queue', P', ord', k')
    ensures !done ==>
            || |Nodes(|G|) - P'| < |Nodes(|G|) - P|
            || (|Nodes(|G|) - P'| == |Nodes(|G|) - P| && |queue'| < |queue|)
  {
    var top, rest := PopMin(queue);
    assert PoppedFrom(queue, top, rest);
    PoppedInRange(G, m, S, T, dist, prev, queue, top, rest, P, ord, k);
    var cd, u := top.0, top.1;
    dist', prev', queue', P', ord', k', done := dist, prev, rest, P, ord, k, false;
    if Exceeds(cd, dist[u]) {
      StaleSkip(G, m, S, T, dist, prev, queue, top, rest, P, ord, k);
    } else if u == T {
      TargetPopped(G, m, S, T, dist, prev, queue, top, rest, P, ord, k);
      done := true;
    } else {
      dist', prev', queue', P', ord', k' := Settle(G, m, S, T, u, cd, dist, prev, rest, queue, P, ord, k);
    }
  }

  /** Lines 70-74: only S is reached, at cost 0, without a predecessor;
      the frontier holds (0, S) and nothing is settled. */
  lemma InitialState(G: Graph, m: Mode, S: int, T: int, dist: seq<Dist>, prev: seq<int>, ord: seq<nat>)
    requires WellFormed(G) && 0 <= S < |G| && 0 <= T < |G|
    requires |dist| == |G| && |prev| == |G| && |ord| == |G|
    requires forall v :: 0 <= v < |G| ==> dist[v] == if v == S then Fin(0) else Inf
    requires forall v :: 0 <= v < |G| ==> prev[v] == -1
    ensures SolverInv(G, m, S, T, dist, prev, [(0, S)], {}, ord, 0)
  {
  }

  /** The search loop of the engine: pop the cheapest entry, skip it when
      stale, stop when it is the target, otherwise relax the node's edges.
      When the target was popped (found), its cost is optimal; otherwise
      the queue ran dry. */
  method Search(G: Graph, S: int, T: int, m: Mode)
    returns (dist: seq<Dist>, prev: seq<int>, ghost pq: seq<Entry>, ghost P: set<int>,
             ghost ord: seq<nat>, ghost k: nat, ghost found: bool)
    requires WellFormed(G)
    requires 0 <= S < |G| && 0 <= T < |G|
    ensures SolverInv(G, m, S, T, dist, prev, pq, P, ord, k)
    ensures found ==> dist[T].Fin? && forall q :: IsPath(G, q, S, T) ==> dist[T].n <= PathCost(G, q, m)
    ensures !found ==> pq == []
  {
    var n := |G|;
    dist := seq(n, v => if v == S then Fin(0) else Inf);
    prev := seq(n, _ => -1);
    var queue: seq<Entry> := [(0, S)];
    P := {};                   // settled: popped fresh and relaxed
    ord := seq(n, _ => 0);     // settle order of the settled nodes
    k := 0;
    found := false;
    pq := queue;
    InitialState(G, m, S, T, dist, prev, ord);

    while |queue| > 0
      invariant SolverInv(G, m, S, T, dist, prev, queue, P, ord, k)
      decreases |Nodes(n) - P|, |queue|
    {
      ghost var pq0 := queue;
      var done;
      dist, prev, queue, P, ord, k, done := Step(G, m, S, T, dist, prev, queue, P, ord, k);
      if done {
        found, pq := true, pq0;
        return;
      }
    }
    pq := queue;
  }

  /** One predecessor link from a reached node that is settled or is the
      target: it ends the chain exactly at S, and otherwise leads back over
      an edge to a settled node that was settled earlier, whose cost plus
      the hop does not exceed the node's cost. */
  lemma LinkStep(G: Graph, m: Mode, S: int, T: int, dist: seq<Dist>, prev: seq<int>,
                 pq: seq<Entry>, P: set<int>, ord: seq<nat>, k: nat, v: int)
    requires SolverInv(G, m, S, T, dist, prev, pq, P, ord, k)
    requires 0 <= v < |G| && dist[v].Fin? && (v == T || v in P)
    ensures prev[v] == -1 <==> v == S
    ensures prev[v] != -1 ==>
      && 0 <= prev[v] < |G| && prev[v] in P && prev[v] != T && dist[prev[v]].Fin?
      && Linked(G, prev[v], v)
      && dist[prev[v]].n + HopCost(G, prev[v], v, m) <= dist[v].n
      && ord[T := k][prev[v]] < ord[T := k][v]
  {
    if v != S {
      assert prev[v] != -1;
    }
  }

  /** The state of the walk along predecessor links: fwd holds the nodes
      visited so far, in path order, and v is the link out of fwd's first
      node; fwd is a walk ending at T whose cost, added to the cost of its
      first node, does not exceed the target's cost. */
  ghost predicate Chain(G: Graph, m: Mode, S: int, T: int, dist: seq<Dist>, prev: seq<int>,
                        P: set<int>, v: int, fwd: seq<int>)
    requires |dist| == |G| && |prev| == |G| && 0 <= T < |G|
  {
    && (v != -1 ==> 0 <= v < |G| && dist[v].Fin? && (v == T || v in P))
    && (v == -1 ==> fwd != [] && fwd[0] == S)
    && (fwd == [] ==> v == T)
    && (fwd != [] ==>
          && 0 <= fwd[0] < |G| && prev[fwd[0]] == v && fwd[|fwd| - 1] == T
          && IsWalk(G, fwd) && dist[fwd[0]].Fin?
          && dist[T].Fin? && dist[fwd[0]].n + PathCost(G, fwd, m) <= dist[T].n)
    && (S == T && fwd != [] ==> fwd == [T])
  }

  /** Putting v in front of the chain keeps the chain state, when the hop
      from v to the chain's first node costs no more than the difference of
      their tentative costs and v's own link is a predecessor link. */
  lemma ChainExtend(G: Graph, m: Mode, S: int, T: int, dist: seq<Dist>, prev: seq<int>,
                    P: set<int>, v: int, fwd: seq<int>)
    requires |dist| == |G| && |prev| == |G| && 0 <= T < |G|
    requires Chain(G, m, S, T, dist, prev, P, v, fwd) && v != -1
    requires prev[v] == -1 <==> v == S
    requires prev[v] != -1 ==>
      && 0 <= prev[v] < |G| && prev[v] in P && dist[prev[v]].Fin?
      && Linked(G, prev[v], v)
      && dist[prev[v]].n + HopCost(G, prev[v], v, m) <= dist[v].n
    requires S == T ==> prev[T] == -1
    requires fwd != [] ==> Linked(G, v, fwd[0]) && dist[v].n + HopCost(G, v, fwd[0], m) <= dist[fwd[0]].n
    ensures Chain(G, m, S, T, dist, prev, P, prev[v], [v] + fwd)
  {
    if fwd != [] {
      PathCostCons(G, v, fwd, m);
    } else {
      assert [v] + fwd == [v];
    }
  }

  /** Following one more link keeps the chain state and, unless the chain
      ends, moves to a node settled earlier. */
  lemma ChainStep(G: Graph, m: Mode, S: int, T: int, dist: seq<Dist>, prev: seq<int>,
                  pq: seq<Entry>, P: set<int>, ord: seq<nat>, k: nat, v: int, fwd: seq<int>)
    requires SolverInv(G, m, S, T, dist, prev, pq, P, ord, k)
    requires Chain(G, m, S, T, dist, prev, P, v, fwd) && v != -1
    ensures Chain(G, m, S, T, dist, prev, P, prev[v], [v] + fwd)
    ensures prev[v] != -1 ==> ord[T := k][prev[v]] < ord[T := k][v]
  {
    LinkStep(G, m, S, T, dist, prev, pq, P, ord, k, v);
    if S == T {
      LinkStep(G, m, S, T, dist, prev, pq, P, ord, k, T);
    }
    ChainExtend(G, m, S, T, dist, prev, P, v, fwd);
  }

  /** The walk starts at the target, with nothing collected. */
  lemma ChainStart(G: Graph, m: Mode, S: int, T: int, dist: seq<Dist>, prev: seq<int>,
                   pq: seq<Entry>, P: set<int>, ord: seq<nat>, k: nat)
    requires SolverInv(G, m, S, T, dist, prev, pq, P, ord, k) && dist[T].Fin?
    ensures Chain(G, m, S, T, dist, prev, P, T, [])
  {
  }

  /** When the links run out, the collected nodes form a path from S to T
      costing at most the target's tentative cost. */
  lemma ChainEnd(G: Graph, m: Mode, S: int, T: int, dist: seq<Dist>, prev: seq<int>,
                 pq: seq<Entry>, P: set<int>, ord: seq<nat>, k: nat, fwd: seq<int>)
    requires SolverInv(G, m, S, T, dist, prev, pq, P, ord, k)
    requires Chain(G, m, S, T, dist, prev, P, -1, fwd)
    ensures IsPath(G, fwd, S, T) && PathCost(G, fwd, m) <= dist[T].n
    ensures S == T ==> fwd == [T]
  {
  }

  /** The loop of line 86 that follows predecessor links from the target:
      it collects the nodes from T back to S, so that read backwards they
      form a path from S to T costing at most the target's tentative cost. */
  method CollectLinks(G: Graph, m: Mode, S: int, T: int, dist: seq<Dist>, prev: seq<int>,
                      ghost pq: seq<Entry>, ghost P: set<int>, ghost ord: seq<nat>, ghost k: nat)
    returns (back: seq<int>)
    requires SolverInv(G, m, S, T, dist, prev, pq, P, ord, k)
    requires dist[T].Fin?
    ensures IsPath(G, Reversed(back), S, T) && PathCost(G, Reversed(back), m) <= dist[T].n
    ensures S == T ==> back == [S]
  {
    ghost var rank := ord[T := k];
    var v := T;
    ghost var fwd: seq<int> := [];
    back := [];
    ChainStart(G, m, S, T, dist, prev, pq, P, ord, k);
    while v != -1
      invariant fwd == Reversed(back)
      invariant Chain(G, m, S, T, dist, prev, P, v, fwd)
      decreases if v == -1 then 0 else rank[v] + 1
    {
      ChainStep(G, m, S, T, dist, prev, pq, P, ord, k, v, fwd);
      ReversedSnoc(back, v);
      back := back + [v];
      fwd := [v] + fwd;
      v := prev[v];
    }
    ChainEnd(G, m, S, T, dist, prev, pq, P, ord, k, fwd);
    if S == T {
      assert |back| == 1 && back[0] == fwd[0];
    }
  }

  /** Reconstruction (line 86): collect the predecessor chain from T, then
      reverse it in place. The result is a path from S to T whose cost is
      at most the target's tentative cost. */
  method Reconstruct(G: Graph, m: Mode, S: int, T: int, dist: seq<Dist>, prev: seq<int>,
                     ghost pq: seq<Entry>, ghost P: set<int>, ghost ord: seq<nat>, ghost k: nat)
    returns (path: seq<int>)
    requires SolverInv(G, m, S, T, dist, prev, pq, P, ord, k)
    requires dist[T].Fin?
    ensures IsPath(G, path, S, T) && PathCost(G, path, m) <= dist[T].n
    ensures S == T ==> path == [S]
  {
    var back := CollectLinks(G, m, S, T, dist, prev, pq, P, ord, k);
    var buf := new int[|back|](i => if 0 <= i < |back| then back[i] else 0);
    assert buf[..] == back;
    ReverseInPlace(buf);
    path := buf[..];
  }

  /** The engine's dijkstra: the cheapest path from S to T under mode m,
      or the empty sequence when T cannot be reached from S. */
  method Dijkstra(G: Graph, S: int, T: int, m: Mode) returns (path: seq<int>)
    requires WellFormed(G)
    requires 0 <= S < |G| && 0 <= T < |G|
    ensures path != [] ==> IsPath(G, path, S, T)
    ensures path != [] ==> forall q :: IsPath(G, q, S, T) ==> PathCost(G, path, m) <= PathCost(G, q, m)
    ensures path == [] <==> !Reachable(G, S, T)
    ensures S == T ==> path == [S]
  {
    var dist, prev, pq, P, ord, k, found := Search(G, S, T, m);
    if dist[T].Fin? {
      path := Reconstruct(G, m, S, T, dist, prev, pq, P, ord, k);
    } else {
      path := [];
      if found { assert false; }
      ExhaustedMeansUnreachable(G, m, S, T, dist, P);
    }
  }
}
