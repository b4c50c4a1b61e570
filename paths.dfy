/**
 * Walks over an undirected edge list and what a shortest distance is.  These
 * definitions are the reference the shortest-path routine is proved against.
 */
module Paths {
  import opened Types

  /** One step of a walk: leave `from`, arrive at `to`, paying `weight`. */
  datatype Hop = Hop(from: int, to: int, weight: int)

  /** Edge `e` carries hop `h`, in either direction. */
  predicate Joins(e: Edge, h: Hop) {
    && e.weight == h.weight
    && ((e.src == h.from && e.dest == h.to) || (e.dest == h.from && e.src == h.to))
  }

  ghost predicate Link(es: seq<Edge>, h: Hop) {
    exists i :: 0 <= i < |es| && Joins(es[i], h)
  }

  /** `p` is a walk over the edges `es` from `s` to `t`. */
  ghost predicate IsWalk(es: seq<Edge>, p: seq<Hop>, s: int, t: int)
    decreases |p|
  {
    if p == [] then s == t
    else Link(es, p[0]) && p[0].from == s && IsWalk(es, p[1..], p[0].to, t)
  }

  function Weight(p: seq<Hop>): int {
    if p == [] then 0 else p[0].weight + Weight(p[1..])
  }

  ghost predicate Reachable(es: seq<Edge>, s: int, t: int) {
    exists p :: IsWalk(es, p, s, t)
  }

  /** Some walk from `s` to `t` weighs exactly `n`. */
  ghost predicate Achieved(es: seq<Edge>, s: int, t: int, n: int) {
    exists p :: IsWalk(es, p, s, t) && Weight(p) == n
  }

  /** `n` is the least total weight of a walk from `s` to `t`. */
  ghost predicate IsShortest(es: seq<Edge>, s: int, t: int, n: int) {
    && Achieved(es, s, t, n)
    && (forall p :: IsWalk(es, p, s, t) ==> n <= Weight(p))
  }

  /**
   * The distance reported for `t` is right: a finite value is the least walk
   * weight, and `Inf` means that no walk reaches `t`.
   */
  ghost predicate Correct(es: seq<Edge>, s: int, t: int, d: Dist) {
    match d
    case Fin(n) => IsShortest(es, s, t, n)
    case Inf => !Reachable(es, s, t)
  }

  /** Every endpoint names one of the `V` vertices. */
  predicate Bounded(es: seq<Edge>, V: int) {
    forall i :: 0 <= i < |es| ==> 0 <= es[i].src < V && 0 <= es[i].dest < V
  }

  predicate NonNegative(es: seq<Edge>) {
    forall i :: 0 <= i < |es| ==> es[i].weight >= 0
  }

  /** A potential: no edge lets the value change by more than its weight. */
  predicate Feasible(es: seq<Edge>, pi: seq<int>) {
    forall i :: 0 <= i < |es| ==>
      && 0 <= es[i].src < |pi| && 0 <= es[i].dest < |pi|
      && pi[es[i].dest] <= pi[es[i].src] + es[i].weight
      && pi[es[i].src] <= pi[es[i].dest] + es[i].weight
  }

  /** Extending a walk by one hop taken from the edge list. */
  lemma {:induction false} WalkSnoc(es: seq<Edge>, p: seq<Hop>, s: int, t: int, h: Hop)
    requires IsWalk(es, p, s, t) && Link(es, h) && h.from == t
    ensures IsWalk(es, p + [h], s, h.to)
    ensures Weight(p + [h]) == Weight(p) + h.weight
    decreases |p|
  {
    if p != [] {
      assert (p + [h])[1..] == p[1..] + [h];
      WalkSnoc(es, p[1..], p[0].to, t, h);
    }
  }

  /** A walk over bounded edges ends at a vertex. */
  lemma {:induction false} WalkEndsInRange(es: seq<Edge>, p: seq<Hop>, s: int, t: int, V: int)
    requires Bounded(es, V) && 0 <= s < V && IsWalk(es, p, s, t)
    ensures 0 <= t < V
    decreases |p|
  {
    if p != [] {
      var i :| 0 <= i < |es| && Joins(es[i], p[0]);
      WalkEndsInRange(es, p[1..], p[0].to, t, V);
    }
  }

  lemma {:induction false} WeightNonNegative(es: seq<Edge>, p: seq<Hop>, s: int, t: int)
    requires NonNegative(es) && IsWalk(es, p, s, t)
    ensures Weight(p) >= 0
    decreases |p|
  {
    if p != [] {
      var i :| 0 <= i < |es| && Joins(es[i], p[0]);
      WeightNonNegative(es, p[1..], p[0].to, t);
    }
  }

  /** A feasible potential bounds every walk from below: its weight is at least the rise in potential. */
  lemma {:induction false} PotentialBound(es: seq<Edge>, pi: seq<int>, p: seq<Hop>, s: int, t: int)
    requires Feasible(es, pi) && 0 <= s < |pi| && IsWalk(es, p, s, t)
    ensures 0 <= t < |pi| && pi[t] - pi[s] <= Weight(p)
    decreases |p|
  {
    if p != [] {
      var i :| 0 <= i < |es| && Joins(es[i], p[0]);
      PotentialBound(es, pi, p[1..], p[0].to, t);
    }
  }

  /** A walk over a subset of the edges is a walk over the edges. */
  lemma {:induction false} WalkWidens(small: seq<Edge>, big: seq<Edge>, p: seq<Hop>, s: int, t: int)
    requires forall e :: e in small ==> e in big
    requires IsWalk(small, p, s, t)
    ensures IsWalk(big, p, s, t)
    decreases |p|
  {
    if p != [] {
      var i :| 0 <= i < |small| && Joins(small[i], p[0]);
      assert small[i] in big;
      var j :| 0 <= j < |big| && big[j] == small[i];
      assert Joins(big[j], p[0]);
      WalkWidens(small, big, p[1..], p[0].to, t);
    }
  }

  /**
   * Taking lines out of service never shortens a distance: the distance over
   * a subset of the edges is at least the distance over all of them, and a
   * vertex unreachable over all of them stays unreachable.
   */
  lemma RemovalNeverShortens(small: seq<Edge>, big: seq<Edge>, s: int, t: int, dSmall: Dist, dBig: Dist)
    requires forall e :: e in small ==> e in big
    requires Correct(small, s, t, dSmall) && Correct(big, s, t, dBig)
    ensures Le(dBig, dSmall)
  {
    if dSmall.Fin? {
      var p :| IsWalk(small, p, s, t) && Weight(p) == dSmall.n;
      WalkWidens(small, big, p, s, t);
    }
  }

  /**
   * Distances that are correct are pinned by a witness walk per vertex and a
   * feasible potential reaching the same values: they equal the potential.
   */
  lemma PinnedByPotential(es: seq<Edge>, s: int, d: seq<Dist>, pi: seq<int>, wits: seq<seq<Hop>>)
    requires |d| == |pi| == |wits| && 0 <= s < |pi| && pi[s] == 0
    requires forall v :: 0 <= v < |d| ==> Correct(es, s, v, d[v])
    requires Feasible(es, pi)
    requires forall v :: 0 <= v < |d| ==> IsWalk(es, wits[v], s, v) && Weight(wits[v]) == pi[v]
    ensures forall v :: 0 <= v < |d| ==> d[v] == Fin(pi[v])
  {
    forall v | 0 <= v < |d|
      ensures d[v] == Fin(pi[v])
    {
      assert Correct(es, s, v, d[v]);
      assert Reachable(es, s, v) by {
        assert IsWalk(es, wits[v], s, v);
      }
      var p :| IsWalk(es, p, s, v) && Weight(p) == d[v].n;
      PotentialBound(es, pi, p, s, v);
    }
  }
}
