/**
 * The invariants of the shortest-path loop, stated on the sequences held in
 * the `dist` and `visited` arrays, and the lemmas that carry them from one
 * round to the next.
 */
module DijkstraProof {
  import opened Types
  import opened Paths

  /** `d + w`, where an infinite distance stays infinite. */
  function Plus(d: Dist, w: int): Dist {
    if d.Inf? then Inf else Fin(d.n + w)
  }

  predicate Touches(e: Edge, u: int) {
    e.src == u || e.dest == u
  }

  predicate NonNegDist(d: seq<Dist>) {
    forall v :: 0 <= v < |d| && d[v].Fin? ==> d[v].n >= 0
  }

  /** Every finite tentative distance is the weight of a walk recorded in `wit`. */
  ghost predicate Witnessed(es: seq<Edge>, s: int, d: seq<Dist>, wit: seq<seq<Hop>>) {
    && |wit| == |d|
    && forall v :: 0 <= v < |d| && d[v].Fin? ==> IsWalk(es, wit[v], s, v) && Weight(wit[v]) == d[v].n
  }

  /** A visited vertex's distance is at most the weight of every walk to it. */
  ghost predicate SettledBound(es: seq<Edge>, s: int, vis: seq<bool>, d: seq<Dist>) {
    && |vis| == |d|
    && forall v, p :: 0 <= v < |d| && vis[v] && IsWalk(es, p, s, v) ==> Le(d[v], Fin(Weight(p)))
  }

  /** An edge from a visited to an unvisited vertex has been relaxed. */
  predicate RelaxedEdge(e: Edge, vis: seq<bool>, d: seq<Dist>) {
    |vis| == |d| && 0 <= e.src < |d| && 0 <= e.dest < |d| ==>
      && (vis[e.src] && !vis[e.dest] ==> Le(d[e.dest], Plus(d[e.src], e.weight)))
      && (vis[e.dest] && !vis[e.src] ==> Le(d[e.src], Plus(d[e.dest], e.weight)))
  }

  predicate Relaxed(es: seq<Edge>, vis: seq<bool>, d: seq<Dist>) {
    forall i :: 0 <= i < |es| ==> RelaxedEdge(es[i], vis, d)
  }

  /** The vertex at the other end of `e` from `u`, or -1 when `e` does not touch `u`. */
  function Neighbor(e: Edge, u: int): int {
    if e.src == u then e.dest else if e.dest == u then e.src else -1
  }

  /** With non-negative weights the source keeps distance 0 and no distance drops below it. */
  predicate Anchored(es: seq<Edge>, s: int, d: seq<Dist>) {
    NonNegative(es) ==> 0 <= s < |d| && d[s] == Fin(0) && NonNegDist(d)
  }

  /**
   * What holds while the edges at the freshly visited `u` are relaxed: the
   * first `i` edges are done, visited distances are as they were in `d0`.
   */
  ghost predicate PassInv(es: seq<Edge>, s: int, vis: seq<bool>, d0: seq<Dist>, d: seq<Dist>,
                          wit: seq<seq<Hop>>, u: int, i: int) {
    && |vis| == |d0| == |d| && 0 <= s < |d| && 0 <= u < |d| && vis[u] && 0 <= i <= |es|
    && Anchored(es, s, d) && Witnessed(es, s, d, wit)
    && (forall k :: 0 <= k < |d| && vis[k] ==> d[k] == d0[k])
    && (forall j :: 0 <= j < |es| && (j < i || !Touches(es[j], u)) ==> RelaxedEdge(es[j], vis, d))
  }

  /** The relaxation test of `dijkstra` for edge `e` at `u`. */
  predicate Improves(e: Edge, vis: seq<bool>, d: seq<Dist>, u: int) {
    var nb := Neighbor(e, u);
    && |vis| == |d| && 0 <= u < |d|
    && 0 <= nb < |d| && !vis[nb] && d[u].Fin? && Lt(Fin(d[u].n + e.weight), d[nb])
  }

  /** Relaxing edge `i` at `u` carries the pass invariant from `i` to `i + 1`. */
  lemma RelaxStep(es: seq<Edge>, s: int, vis: seq<bool>, d0: seq<Dist>, d: seq<Dist>,
                  wit: seq<seq<Hop>>, u: int, i: int)
    requires PassInv(es, s, vis, d0, d, wit, u, i) && i < |es|
    requires Bounded(es, |d|)
    ensures !Improves(es[i], vis, d, u) ==> PassInv(es, s, vis, d0, d, wit, u, i + 1)
    ensures Improves(es[i], vis, d, u) ==>
      var nb := Neighbor(es[i], u);
      PassInv(es, s, vis, d0, d[nb := Fin(d[u].n + es[i].weight)],
              wit[nb := wit[u] + [Hop(u, nb, es[i].weight)]], u, i + 1)
  {
    var e := es[i];
    var nb := Neighbor(e, u);
    if Improves(e, vis, d, u) {
      var hop := Hop(u, nb, e.weight);
      assert Joins(es[i], hop);
      WalkSnoc(es, wit[u], s, u, hop);
      var d1 := d[nb := Fin(d[u].n + e.weight)];
      var wit1 := wit[nb := wit[u] + [hop]];
      forall j | 0 <= j < |es| && (j < i + 1 || !Touches(es[j], u))
        ensures RelaxedEdge(es[j], vis, d1)
      {
        if j != i {
          assert RelaxedEdge(es[j], vis, d);
        }
      }
      assert Witnessed(es, s, d1, wit1);
    } else {
      forall j | 0 <= j < |es| && (j < i + 1 || !Touches(es[j], u))
        ensures RelaxedEdge(es[j], vis, d)
      {
        if j != i {
          assert RelaxedEdge(es[j], vis, d);
        }
      }
    }
  }

  function CountTrue(s: seq<bool>): nat {
    if s == [] then 0 else (if s[0] then 1 else 0) + CountTrue(s[1..])
  }

  lemma {:induction false} CountTrueNone(s: seq<bool>)
    requires forall k :: 0 <= k < |s| ==> !s[k]
    ensures CountTrue(s) == 0
    decreases |s|
  {
    if s != [] {
      CountTrueNone(s[1..]);
    }
  }

  /** Marking one more vertex visited raises the count by one. */
  lemma {:induction false} CountTrueMark(s: seq<bool>, u: int)
    requires 0 <= u < |s| && !s[u]
    ensures CountTrue(s[u := true]) == CountTrue(s) + 1
    decreases |s|
  {
    if u > 0 {
      assert s[u := true][1..] == s[1..][u - 1 := true];
      CountTrueMark(s[1..], u - 1);
    } else {
      assert s[u := true][1..] == s[1..];
    }
  }

  /** Two unvisited vertices leave room for at most `|s| - 2` visited ones. */
  lemma {:induction false} CountTrueTwoFalse(s: seq<bool>, a: int, b: int)
    requires 0 <= a < |s| && 0 <= b < |s| && a != b && !s[a] && !s[b]
    ensures CountTrue(s) <= |s| - 2
    decreases |s|
  {
    if a == 0 {
      CountTrueOneFalse(s[1..], b - 1);
    } else if b == 0 {
      CountTrueOneFalse(s[1..], a - 1);
    } else {
      CountTrueTwoFalse(s[1..], a - 1, b - 1);
    }
  }

  lemma {:induction false} CountTrueOneFalse(s: seq<bool>, a: int)
    requires 0 <= a < |s| && !s[a]
    ensures CountTrue(s) <= |s| - 1
    decreases |s|
  {
    if a == 0 {
      CountTrueAtMost(s[1..]);
    } else {
      CountTrueOneFalse(s[1..], a - 1);
    }
  }

  lemma {:induction false} CountTrueAtMost(s: seq<bool>)
    ensures CountTrue(s) <= |s|
    decreases |s|
  {
    if s != [] {
      CountTrueAtMost(s[1..]);
    }
  }

  /**
   * Walking from a visited vertex `y`, reached by `pre`, to an unvisited `t`,
   * the walk crosses into the unvisited part at some `x` whose tentative
   * distance already bounds the whole walk.
   */
  lemma {:induction false} FrontierBound(es: seq<Edge>, s: int, vis: seq<bool>, d: seq<Dist>,
                                         pre: seq<Hop>, y: int, q: seq<Hop>, t: int) returns (x: int)
    requires |vis| == |d| && Bounded(es, |d|) && NonNegative(es)
    requires SettledBound(es, s, vis, d) && Relaxed(es, vis, d)
    requires 0 <= y < |d| && vis[y] && IsWalk(es, pre, s, y)
    requires IsWalk(es, q, y, t) && 0 <= t < |d| && !vis[t]
    ensures 0 <= x < |d| && !vis[x] && Le(d[x], Fin(Weight(pre) + Weight(q)))
    decreases |q|
  {
    var h := q[0];
    var i :| 0 <= i < |es| && Joins(es[i], h);
    assert RelaxedEdge(es[i], vis, d);
    WeightNonNegative(es, q[1..], h.to, t);
    assert Le(d[y], Fin(Weight(pre)));
    if !vis[h.to] {
      x := h.to;
    } else {
      WalkSnoc(es, pre, s, y, h);
      x := FrontierBound(es, s, vis, d, pre + [h], h.to, q[1..], t);
    }
  }

  /**
   * The unvisited vertex with the least tentative distance has its final
   * distance: no walk to it is lighter.
   */
  lemma SelectedBound(es: seq<Edge>, s: int, vis: seq<bool>, d: seq<Dist>, u: int)
    requires |vis| == |d| && Bounded(es, |d|) && NonNegative(es)
    requires SettledBound(es, s, vis, d) && Relaxed(es, vis, d)
    requires 0 <= s < |d| && d[s] == Fin(0)
    requires 0 <= u < |d| && !vis[u]
    requires forall k :: 0 <= k < |d| && !vis[k] ==> Le(d[u], d[k])
    ensures forall p :: IsWalk(es, p, s, u) ==> Le(d[u], Fin(Weight(p)))
  {
    forall p | IsWalk(es, p, s, u)
      ensures Le(d[u], Fin(Weight(p)))
    {
      WeightNonNegative(es, p, s, u);
      if vis[s] {
        var x := FrontierBound(es, s, vis, d, [], s, p, u);
        assert Le(d[u], d[x]);
      } else {
        assert Le(d[u], d[s]);
      }
    }
  }

  /** Marking the selected vertex visited keeps every visited distance a lower bound. */
  lemma SettleSelected(es: seq<Edge>, s: int, vis: seq<bool>, d: seq<Dist>, u: int)
    requires |vis| == |d| && Bounded(es, |d|) && NonNegative(es)
    requires SettledBound(es, s, vis, d) && Relaxed(es, vis, d)
    requires 0 <= s < |d| && d[s] == Fin(0)
    requires 0 <= u < |d| && !vis[u]
    requires forall k :: 0 <= k < |d| && !vis[k] ==> Le(d[u], d[k])
    ensures SettledBound(es, s, vis[u := true], d)
  {
    SelectedBound(es, s, vis, d, u);
  }

  /** Marking `u` visited leaves relaxed every edge that does not touch `u`, whatever the weights. */
  lemma MarkKeepsRelaxed(es: seq<Edge>, vis: seq<bool>, d: seq<Dist>, u: int)
    requires |vis| == |d| && Relaxed(es, vis, d) && 0 <= u < |d|
    ensures forall i :: 0 <= i < |es| && !Touches(es[i], u) ==> RelaxedEdge(es[i], vis[u := true], d)
  {
    forall i | 0 <= i < |es| && !Touches(es[i], u)
      ensures RelaxedEdge(es[i], vis[u := true], d)
    {
      assert RelaxedEdge(es[i], vis, d);
    }
  }

  /** Changing only unvisited distances keeps the visited ones settled. */
  lemma SettledFrame(es: seq<Edge>, s: int, vis: seq<bool>, d0: seq<Dist>, d1: seq<Dist>)
    requires SettledBound(es, s, vis, d0) && |d1| == |d0|
    requires forall k :: 0 <= k < |d0| && vis[k] ==> d1[k] == d0[k]
    ensures SettledBound(es, s, vis, d1)
  {
    forall v, p | 0 <= v < |d1| && vis[v] && IsWalk(es, p, s, v)
      ensures Le(d1[v], Fin(Weight(p)))
    {
      assert Le(d0[v], Fin(Weight(p)));
    }
  }

  /**
   * Once at most one vertex is unvisited, every distance is correct: the
   * remaining vertex is the least of the unvisited ones by default.
   */
  lemma FinalCorrect(es: seq<Edge>, s: int, vis: seq<bool>, d: seq<Dist>, wit: seq<seq<Hop>>)
    requires |vis| == |d| && Bounded(es, |d|) && NonNegative(es)
    requires SettledBound(es, s, vis, d) && Relaxed(es, vis, d) && Witnessed(es, s, d, wit)
    requires 0 <= s < |d| && d[s] == Fin(0)
    requires forall a, b :: 0 <= a < |d| && 0 <= b < |d| && !vis[a] && !vis[b] ==> a == b
    ensures forall v :: 0 <= v < |d| ==> Correct(es, s, v, d[v])
  {
    forall v | 0 <= v < |d|
      ensures Correct(es, s, v, d[v])
    {
      if !vis[v] {
        SelectedBound(es, s, vis, d, v);
      }
      assert forall p :: IsWalk(es, p, s, v) ==> Le(d[v], Fin(Weight(p)));
      if d[v].Fin? {
        assert IsWalk(es, wit[v], s, v);
      }
    }
  }
}
