/** The solver's frontier: a min-priority queue of (cost, node) pairs, kept
    as an unordered sequence; pushing appends and popping extracts the
    lexicographically smallest pair. */
module Frontier {

  type Entry = (int, int)

  /** Lexicographic order on (cost, node), the order of std::pair. */
  predicate LexLe(a: Entry, b: Entry)
  {
    a.0 < b.0 || (a.0 == b.0 && a.1 <= b.1)
  }

  /** Removes one smallest entry; every other entry stays, with its multiplicity. */
  method PopMin(pq: seq<Entry>) returns (top: Entry, rest: seq<Entry>)
    requires |pq| > 0
    ensures top in pq
    ensures forall x :: x in pq ==> LexLe(top, x)
    ensures multiset(pq) == multiset(rest) + multiset{top}
    ensures |rest| == |pq| - 1
    ensures forall x :: x in rest ==> x in pq
    ensures forall x :: x in pq && x != top ==> x in rest
  {
    var best := 0;
    var i := 1;
    while i < |pq|
      invariant 0 <= best < i <= |pq|
      invariant forall j :: 0 <= j < i ==> LexLe(pq[best], pq[j])
    {
      if !LexLe(pq[best], pq[i]) {
        best := i;
      }
      i := i + 1;
    }
    top := pq[best];
    rest := pq[..best] + pq[best + 1..];
    assert pq == pq[..best] + [top] + pq[best + 1..];
    forall x | x in pq && x != top
      ensures x in rest
    {
      assert x in multiset(pq);
    }
  }
}
