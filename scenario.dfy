/**
 * The network that `main` builds (four vertices, five lines, station 0), put
 * through two failures, one repair and a reset, with the distances from the
 * station after each step.
 */
module Scenario {
  import opened Types
  import opened Paths
  import EdgeStore
  import Network

  function InitialEdges(): seq<Edge> {
    [Edge(0, 1, 10), Edge(0, 2, 6), Edge(0, 3, 5), Edge(1, 3, 15), Edge(2, 3, 4)]
  }

  /** Four pointwise-known distances form the list of those four values. */
  lemma FourValues(d: seq<Dist>, pi: seq<int>)
    requires |d| == 4 && |pi| == 4
    requires forall v :: 0 <= v < 4 ==> d[v] == Fin(pi[v])
    ensures d == [Fin(pi[0]), Fin(pi[1]), Fin(pi[2]), Fin(pi[3])]
  {
  }

  /** A distance list read off a feasible potential with one witness walk per vertex. */
  lemma Pin(es: seq<Edge>, d: seq<Dist>, pi: seq<int>, wits: seq<seq<Hop>>)
    requires |d| == 4 && |pi| == 4 && |wits| == 4 && pi[0] == 0
    requires forall v :: 0 <= v < 4 ==> Correct(es, 0, v, d[v])
    requires Feasible(es, pi)
    requires forall v :: 0 <= v < 4 ==> IsWalk(es, wits[v], 0, v) && Weight(wits[v]) == pi[v]
    ensures d == [Fin(pi[0]), Fin(pi[1]), Fin(pi[2]), Fin(pi[3])]
  {
    PinnedByPotential(es, 0, d, pi, wits);
    FourValues(d, pi);
  }

  lemma OneHop(es: seq<Edge>, i: int, h: Hop)
    requires 0 <= i < |es| && Joins(es[i], h)
    ensures IsWalk(es, [h], h.from, h.to) && Weight([h]) == h.weight
  {
    assert [h][1..] == [];
  }

  lemma TwoHops(es: seq<Edge>, i: int, j: int, h: Hop, g: Hop)
    requires 0 <= i < |es| && Joins(es[i], h)
    requires 0 <= j < |es| && Joins(es[j], g) && g.from == h.to
    ensures IsWalk(es, [h, g], h.from, g.to) && Weight([h, g]) == h.weight + g.weight
  {
    assert [h, g][1..] == [g];
    OneHop(es, j, g);
  }

  /** The lines left after the head line 0-1 fails. */
  function AfterFirstEdges(): seq<Edge> {
    [Edge(0, 2, 6), Edge(0, 3, 5), Edge(1, 3, 15), Edge(2, 3, 4)]
  }

  /** The lines left after the next head line 0-2 fails too. */
  function AfterSecondEdges(): seq<Edge> {
    [Edge(0, 3, 5), Edge(1, 3, 15), Edge(2, 3, 4)]
  }

  /** Line 0-2 repaired: it comes back at the tail. */
  function AfterRestoreEdges(): seq<Edge> {
    [Edge(0, 3, 5), Edge(1, 3, 15), Edge(2, 3, 4), Edge(0, 2, 6)]
  }

  /** With all five lines every house is reached directly from the station. */
  lemma InitialDistances(d: seq<Dist>)
    requires |d| == 4 && forall v :: 0 <= v < 4 ==> Correct(InitialEdges(), 0, v, d[v])
    ensures d == [Fin(0), Fin(10), Fin(6), Fin(5)]
  {
    var es := InitialEdges();
    OneHop(es, 0, Hop(0, 1, 10));
    OneHop(es, 1, Hop(0, 2, 6));
    OneHop(es, 2, Hop(0, 3, 5));
    Pin(es, d, [0, 10, 6, 5], [[], [Hop(0, 1, 10)], [Hop(0, 2, 6)], [Hop(0, 3, 5)]]);
  }

  /** Without line 0-1, house 1 is fed through house 3 at cost 5 + 15. */
  lemma AfterFirstDistances(d: seq<Dist>)
    requires |d| == 4 && forall v :: 0 <= v < 4 ==> Correct(AfterFirstEdges(), 0, v, d[v])
    ensures d == [Fin(0), Fin(20), Fin(6), Fin(5)]
  {
    var es := AfterFirstEdges();
    OneHop(es, 0, Hop(0, 2, 6));
    OneHop(es, 1, Hop(0, 3, 5));
    TwoHops(es, 1, 2, Hop(0, 3, 5), Hop(3, 1, 15));
    Pin(es, d, [0, 20, 6, 5], [[], [Hop(0, 3, 5), Hop(3, 1, 15)], [Hop(0, 2, 6)], [Hop(0, 3, 5)]]);
  }

  /** Without lines 0-1 and 0-2, houses 1 and 2 are both fed through house 3. */
  lemma AfterSecondDistances(d: seq<Dist>)
    requires |d| == 4 && forall v :: 0 <= v < 4 ==> Correct(AfterSecondEdges(), 0, v, d[v])
    ensures d == [Fin(0), Fin(20), Fin(9), Fin(5)]
  {
    var es := AfterSecondEdges();
    OneHop(es, 0, Hop(0, 3, 5));
    TwoHops(es, 0, 1, Hop(0, 3, 5), Hop(3, 1, 15));
    TwoHops(es, 0, 2, Hop(0, 3, 5), Hop(3, 2, 4));
    Pin(es, d, [0, 20, 9, 5], [[], [Hop(0, 3, 5), Hop(3, 1, 15)], [Hop(0, 3, 5), Hop(3, 2, 4)], [Hop(0, 3, 5)]]);
  }

  /** Line 0-2 back in service: house 2 is fed directly again. */
  lemma AfterRestoreDistances(d: seq<Dist>)
    requires |d| == 4 && forall v :: 0 <= v < 4 ==> Correct(AfterRestoreEdges(), 0, v, d[v])
    ensures d == [Fin(0), Fin(20), Fin(6), Fin(5)]
  {
    var es := AfterRestoreEdges();
    OneHop(es, 0, Hop(0, 3, 5));
    OneHop(es, 3, Hop(0, 2, 6));
    TwoHops(es, 0, 1, Hop(0, 3, 5), Hop(3, 1, 15));
    Pin(es, d, [0, 20, 6, 5], [[], [Hop(0, 3, 5), Hop(3, 1, 15)], [Hop(0, 2, 6)], [Hop(0, 3, 5)]]);
  }

  lemma ListsWellFormed()
    ensures Bounded(InitialEdges(), 4) && NonNegative(InitialEdges())
    ensures Bounded(AfterFirstEdges(), 4) && NonNegative(AfterFirstEdges())
    ensures Bounded(AfterSecondEdges(), 4) && NonNegative(AfterSecondEdges())
    ensures Bounded(AfterRestoreEdges(), 4) && NonNegative(AfterRestoreEdges())
  {
  }

  /** The store after each step, as a value. */
  function Stage(k: nat): EdgeStore.Store {
    if k == 0 then EdgeStore.Store(InitialEdges(), [], InitialEdges())
    else if k == 1 then EdgeStore.Store(AfterFirstEdges(), [Edge(0, 1, 10)], InitialEdges())
    else if k == 2 then EdgeStore.Store(AfterSecondEdges(), [Edge(0, 1, 10), Edge(0, 2, 6)], InitialEdges())
    else EdgeStore.Store(AfterRestoreEdges(), [Edge(0, 1, 10)], InitialEdges())
  }

  /** Every stage keeps the active and removed lines a partition of the five lines. */
  lemma StagesClosed(k: nat)
    ensures EdgeStore.Closed(Stage(k))
  {
    var a, b := Edge(0, 1, 10), Edge(0, 2, 6);
    var rest := AfterSecondEdges();
    assert InitialEdges() == [a] + ([b] + rest);
    assert AfterFirstEdges() == [b] + rest;
    assert AfterRestoreEdges() == rest + [b];
    assert [a, b] == [a] + [b];
  }

  /** The first two failures take the head line of the stage before. */
  lemma FailStep(k: nat)
    requires k < 2
    ensures EdgeStore.Remove(Stage(k)) == (Ok(Stage(k).active[0]), Stage(k + 1))
  {
    var s, t := Stage(k), Stage(k + 1);
    assert s.active[1..] == t.active;
    assert s.removed + [s.active[0]] == t.removed;
  }

  method FailHead(net: Network.Network, k: nat) returns (r: Result<Edge>)
    requires k < 2 && net.Ranges() && net.Model() == Stage(k)
    modifies net, net.edges, net.removedStack
    ensures net.Ranges() && net.Model() == Stage(k + 1)
    ensures r == Ok(Stage(k).active[0])
  {
    FailStep(k);
    StagesClosed(k);
    r := net.Remove();
  }

  method RepairLast(net: Network.Network) returns (r: Result<Edge>)
    requires net.Ranges() && net.Model() == Stage(2)
    modifies net, net.edges
    ensures net.Ranges() && net.Model() == Stage(3)
    ensures r == Ok(Edge(0, 2, 6))
  {
    ghost var s := Stage(2);
    assert EdgeStore.Restore(s) == (Ok(Edge(0, 2, 6)), Stage(3)) by {
      assert s.removed[..1] == Stage(3).removed;
      assert s.active + [Edge(0, 2, 6)] == Stage(3).active;
    }
    StagesClosed(2);
    r := net.Restore();
  }

  method ResetAll(net: Network.Network)
    requires net.Ranges() && net.Model() == Stage(3)
    modifies net, net.edges
    ensures net.Ranges() && net.Model() == Stage(0)
  {
    net.Reset();
  }

  /** The distances from the station at each stage. */
  function Expected(k: nat): seq<Dist> {
    if k == 0 then [Fin(0), Fin(10), Fin(6), Fin(5)]
    else if k == 1 then [Fin(0), Fin(20), Fin(6), Fin(5)]
    else if k == 2 then [Fin(0), Fin(20), Fin(9), Fin(5)]
    else [Fin(0), Fin(20), Fin(6), Fin(5)]
  }

  method Measure(net: Network.Network, k: nat) returns (d: seq<Dist>)
    requires k < 4 && net.Ranges() && net.V == 4 && net.Active() == Stage(k).active
    ensures d == Expected(k)
  {
    ListsWellFormed();
    d := net.Dijkstra(0);
    if k == 0 {
      InitialDistances(d);
    } else if k == 1 {
      AfterFirstDistances(d);
    } else if k == 2 {
      AfterSecondDistances(d);
    } else {
      AfterRestoreDistances(d);
    }
  }

  /** Line 0-1 fails; the distances are recomputed. */
  method FirstFailure(net: Network.Network) returns (r: Result<Edge>, d: seq<Dist>)
    requires net.Ranges() && net.V == 4 && net.Model() == Stage(0)
    modifies net, net.edges, net.removedStack
    ensures net.Ranges() && net.Model() == Stage(1)
    ensures r == Ok(Edge(0, 1, 10)) && d == Expected(1)
  {
    r := FailHead(net, 0);
    d := Measure(net, 1);
  }

  /** Line 0-2 fails next; the distances are recomputed. */
  method SecondFailure(net: Network.Network) returns (r: Result<Edge>, d: seq<Dist>)
    requires net.Ranges() && net.V == 4 && net.Model() == Stage(1)
    modifies net, net.edges, net.removedStack
    ensures net.Ranges() && net.Model() == Stage(2)
    ensures r == Ok(Edge(0, 2, 6)) && d == Expected(2)
  {
    r := FailHead(net, 1);
    d := Measure(net, 2);
  }

  /** Line 0-2 is repaired; the distances are recomputed. */
  method Repair(net: Network.Network) returns (r: Result<Edge>, d: seq<Dist>)
    requires net.Ranges() && net.V == 4 && net.Model() == Stage(2)
    modifies net, net.edges
    ensures net.Ranges() && net.Model() == Stage(3)
    ensures r == Ok(Edge(0, 2, 6)) && d == Expected(3)
  {
    r := RepairLast(net);
    d := Measure(net, 3);
  }

  /** Every line is brought back; the distances are recomputed. */
  method ResetAndMeasure(net: Network.Network) returns (d: seq<Dist>)
    requires net.Ranges() && net.V == 4 && net.Model() == Stage(3)
    modifies net, net.edges
    ensures net.Ranges() && net.Model() == Stage(0)
    ensures d == Expected(0)
  {
    ResetAll(net);
    d := Measure(net, 0);
  }

  /** The whole session: build, two failures, one repair, a reset. */
  method Run() returns (initial: seq<Dist>, first: Result<Edge>, afterFirst: seq<Dist>,
                        second: Result<Edge>, afterSecond: seq<Dist>,
                        restored: Result<Edge>, afterRestore: seq<Dist>, afterReset: seq<Dist>)
    ensures initial == [Fin(0), Fin(10), Fin(6), Fin(5)]
    ensures first == Ok(Edge(0, 1, 10))
    ensures afterFirst == [Fin(0), Fin(20), Fin(6), Fin(5)]
    ensures second == Ok(Edge(0, 2, 6))
    ensures afterSecond == [Fin(0), Fin(20), Fin(9), Fin(5)]
    ensures restored == Ok(Edge(0, 2, 6))
    ensures afterRestore == [Fin(0), Fin(20), Fin(6), Fin(5)]
    ensures afterReset == initial
  {
    var net := new Network.Network(4, InitialEdges());
    initial := Measure(net, 0);
    first, afterFirst := FirstFailure(net);
    second, afterSecond := SecondFailure(net);
    restored, afterRestore := Repair(net);
    afterReset := ResetAndMeasure(net);
  }
}
