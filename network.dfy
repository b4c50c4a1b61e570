/**
 * The simulator's engine: the graph with its active edges, the snapshot of
 * the original edges and the undo stack of removed edges, mutated in place by
 * failure, repair and reset, and the array-based shortest-path routine run
 * from the power station after every change.
 */
module Network {
  import opened Types
  import opened Paths
  import opened DijkstraProof
  import EdgeStore

  class Network {
    const V: int
    const edges: array<Edge>
    var E: int
    const originalEdges: array<Edge>
    const originalE: int
    const removedStack: array<Edge>
    var removedCount: int

    ghost predicate Ranges()
      reads this
    {
      && edges.Length == Capacity && originalEdges.Length == Capacity && removedStack.Length == Capacity
      && edges != originalEdges && edges != removedStack && originalEdges != removedStack
      && 0 <= E <= Capacity && 0 <= removedCount <= Capacity && 0 <= originalE <= Capacity
    }

    /** The store as a value: active edges, undo stack (top last), snapshot. */
    ghost function Model(): EdgeStore.Store
      reads this, edges, originalEdges, removedStack
      requires Ranges()
    {
      EdgeStore.Store(edges[..E], removedStack[..removedCount], originalEdges[..originalE])
    }

    ghost predicate Valid()
      reads this, edges, originalEdges, removedStack
    {
      Ranges() && EdgeStore.Closed(Model())
    }

    ghost function Active(): seq<Edge>
      reads this, edges
      requires 0 <= E <= edges.Length
    {
      edges[..E]
    }

    /** `createGraph` followed by the loop of `main` that fills both edge arrays. */
    constructor (vertices: int, initial: seq<Edge>)
      requires |initial| <= Capacity
      ensures Valid() && V == vertices
      ensures fresh(edges) && fresh(originalEdges) && fresh(removedStack)
      ensures Model() == EdgeStore.Store(initial, [], initial)
    {
      V := vertices;
      edges := new Edge[Capacity];
      originalEdges := new Edge[Capacity];
      removedStack := new Edge[Capacity];
      E := |initial|;
      originalE := |initial|;
      removedCount := 0;
      new;
      var i := 0;
      while i < |initial|
        invariant 0 <= i <= |initial|
        invariant E == originalE == |initial| && removedCount == 0
        invariant edges[..i] == initial[..i] && originalEdges[..i] == initial[..i]
      {
        edges[i] := initial[i];
        originalEdges[i] := initial[i];
        i := i + 1;
      }
      assert edges[..E] == initial && originalEdges[..originalE] == initial;
      EdgeStore.InitClosed(initial);
    }

    /**
     * Simulate a line failure (the confirmed branch of `simulateFailure`):
     * take the head edge, push it on the undo stack, shift the rest left.
     */
    method Remove() returns (r: Result<Edge>)
      requires Valid()
      modifies this, edges, removedStack
      ensures Valid()
      ensures (r, Model()) == EdgeStore.Remove(old(Model()))
      ensures old(E) == 0 ==> r == Err(NoEdgesToRemove) && Model() == old(Model())
      ensures old(E) > 0 ==>
        && r == Ok(old(edges[0]))
        && Active() == old(edges[1..E])
        && removedStack[..removedCount] == old(removedStack[..removedCount]) + [r.value]
    {
      if E == 0 {
        return Err(NoEdgesToRemove);
      }
      ghost var before := Model();
      var removedEdge := edges[0];
      removedStack[removedCount] := removedEdge;
      removedCount := removedCount + 1;
      assert removedStack[..removedCount] == before.removed + [removedEdge];
      ShiftLeft();
      E := E - 1;
      r := Ok(removedEdge);
      assert Active() == before.active[1..];
      assert Model() == EdgeStore.Remove(before).1;
      EdgeStore.RemoveKeepsClosed(before);
    }

    /** The shift loop of a failure: every active edge after the head moves one slot left. */
    method ShiftLeft()
      requires Ranges() && 0 < E
      modifies edges
      ensures edges[..E - 1] == old(edges[1..E])
    {
      var i := 0;
      while i < E - 1
        invariant 0 <= i <= E - 1
        invariant forall j :: 0 <= j < i ==> edges[j] == old(edges[j + 1])
        invariant forall j :: i <= j < E ==> edges[j] == old(edges[j])
      {
        edges[i] := edges[i + 1];
        i := i + 1;
      }
    }

    /**
     * Repair the most recent failure (`restoreEdge`): pop the undo stack and
     * append the edge at the tail if the edge array has room.
     */
    method Restore() returns (r: Result<Edge>)
      requires Valid()
      modifies this, edges
      ensures Valid()
      ensures (r, Model()) == EdgeStore.Restore(old(Model()))
      ensures old(removedCount) == 0 ==> r == Err(NothingToRestore) && Model() == old(Model())
      ensures old(removedCount) > 0 ==>
        && r == Ok(old(removedStack[removedCount - 1]))
        && removedCount == old(removedCount) - 1
        && Active() == old(Active()) + [r.value]
    {
      if removedCount == 0 {
        return Err(NothingToRestore);
      }
      ghost var before := Model();
      EdgeStore.RestoreKeepsClosed(before);
      EdgeStore.RestoreNeverDrops(before);
      removedCount := removedCount - 1;
      var restoredEdge := removedStack[removedCount];
      if E < Capacity {
        Append(restoredEdge);
        r := Ok(restoredEdge);
        assert removedStack[..removedCount] == before.removed[..|before.removed| - 1];
        assert Model() == EdgeStore.Restore(before).1;
      } else {
        // unreachable: the closed partition leaves room for the popped edge
        assert false;
        r := Err(EdgeDropped);
      }
    }

    /** Put `e` in the first free slot of the edge array. */
    method Append(e: Edge)
      requires Ranges() && E < Capacity
      modifies this, edges
      ensures Ranges() && Active() == old(Active()) + [e]
      ensures E == old(E) + 1 && removedCount == old(removedCount)
    {
      edges[E] := e;
      E := E + 1;
      assert Active() == old(Active()) + [e];
    }

    /** Bring every line back (`resetNetwork`): copy the snapshot, empty the stack. */
    method Reset()
      requires Ranges()
      modifies this, edges
      ensures Valid()
      ensures Model() == EdgeStore.Reset(old(Model()))
      ensures Active() == originalEdges[..originalE] && removedCount == 0
    {
      var i := 0;
      while i < originalE
        invariant 0 <= i <= originalE
        invariant edges[..i] == originalEdges[..i]
        invariant Ranges() && E == old(E) && removedCount == old(removedCount)
      {
        edges[i] := originalEdges[i];
        i := i + 1;
      }
      E := originalE;
      removedCount := 0;
      EdgeStore.ResetIdempotent(old(Model()));
    }

    /**
     * Single-source distances over the active edges (`dijkstra`): `V - 1`
     * rounds, each settling the unvisited vertex that `SelectNext` picks and
     * relaxing the edges at it.  The result is the `dist` array.
     */
    method Dijkstra(start: int) returns (d: seq<Dist>)
      requires Ranges()
      requires 0 <= start < V <= MaxNodes
      requires Bounded(Active(), V)
      ensures |d| == V
      ensures forall v :: 0 <= v < V && d[v].Fin? ==> Achieved(Active(), start, v, d[v].n)
      ensures NonNegative(Active()) ==> d[start] == Fin(0)
      ensures NonNegative(Active()) ==> forall v :: 0 <= v < V ==> Correct(Active(), start, v, d[v])
      ensures NonNegative(Active()) ==> forall v :: 0 <= v < V ==> (d[v] == Inf <==> !Reachable(Active(), start, v))
    {
      ghost var es := Active();
      ghost var nn := NonNegative(es);
      var dist := new Dist[V];
      var visited := new bool[V];
      var i := 0;
      while i < V
        invariant 0 <= i <= V
        invariant forall k :: 0 <= k < i ==> dist[k] == Inf && !visited[k]
      {
        dist[i] := Inf;
        visited[i] := false;
        i := i + 1;
      }
      dist[start] := Fin(0);
      ghost var wit: seq<seq<Hop>> := seq(V, _ => []);
      CountTrueNone(visited[..]);

      var count := 0;
      while count < V - 1
        invariant 0 <= count <= V - 1
        invariant CountTrue(visited[..]) == count
        invariant Anchored(es, start, dist[..])
        invariant Witnessed(es, start, dist[..], wit)
        invariant Relaxed(es, visited[..], dist[..])
        invariant nn ==> SettledBound(es, start, visited[..], dist[..])
      {
        var u := SelectNext(dist, visited);
        if u == -1 {
          break;
        }
        CountTrueMark(visited[..], u);
        wit := Settle(u, dist, visited, start, wit);
        count := count + 1;
      }

      forall a, b | 0 <= a < V && 0 <= b < V && !visited[a] && !visited[b]
        ensures a == b
      {
        if a != b {
          CountTrueTwoFalse(visited[..], a, b);
        }
      }
      if nn {
        FinalCorrect(es, start, visited[..], dist[..], wit);
      }
      d := dist[..];
      forall v | 0 <= v < V && d[v].Fin?
        ensures Achieved(es, start, v, d[v].n)
      {
        assert IsWalk(es, wit[v], start, v);
      }
    }

    /**
     * One round of `dijkstra` after the selection: mark `u` visited and relax
     * the edges at it, keeping the loop's invariants.
     */
    method Settle(u: int, dist: array<Dist>, visited: array<bool>, ghost start: int, ghost wit: seq<seq<Hop>>)
      returns (ghost wit': seq<seq<Hop>>)
      requires Ranges()
      requires dist.Length == V && visited.Length == V
      requires Bounded(Active(), V)
      requires 0 <= u < V && !visited[u]
      requires forall k :: 0 <= k < V && !visited[k] ==> Le(dist[u], dist[k])
      requires 0 <= start < V && Anchored(Active(), start, dist[..])
      requires Witnessed(Active(), start, dist[..], wit)
      requires Relaxed(Active(), visited[..], dist[..])
      requires NonNegative(Active()) ==> SettledBound(Active(), start, visited[..], dist[..])
      modifies dist, visited
      ensures visited[..] == old(visited[..])[u := true]
      ensures Anchored(Active(), start, dist[..])
      ensures Witnessed(Active(), start, dist[..], wit')
      ensures Relaxed(Active(), visited[..], dist[..])
      ensures NonNegative(Active()) ==> SettledBound(Active(), start, visited[..], dist[..])
    {
      ghost var es := Active();
      ghost var vis0 := visited[..];
      if NonNegative(es) {
        SettleSelected(es, start, vis0, dist[..], u);
      }
      MarkKeepsRelaxed(es, vis0, dist[..], u);
      visited[u] := true;
      assert visited[..] == vis0[u := true];
      ghost var before := dist[..];
      wit' := RelaxFrom(u, dist, visited, start, wit);
      if NonNegative(es) {
        SettledFrame(es, start, visited[..], before, dist[..]);
      }
    }

    /**
     * Relax every active edge at the freshly visited vertex `u`: an unvisited
     * neighbour whose distance would shrink through `u` gets the shorter one.
     */
    method RelaxFrom(u: int, dist: array<Dist>, visited: array<bool>, ghost start: int, ghost wit: seq<seq<Hop>>)
      returns (ghost wit': seq<seq<Hop>>)
      requires Ranges()
      requires dist.Length == V && visited.Length == V
      requires Bounded(Active(), V)
      requires 0 <= u < V && visited[u]
      requires 0 <= start < V && Anchored(Active(), start, dist[..])
      requires Witnessed(Active(), start, dist[..], wit)
      requires forall i :: 0 <= i < |Active()| && !Touches(Active()[i], u) ==> RelaxedEdge(Active()[i], visited[..], dist[..])
      modifies dist
      ensures Anchored(Active(), start, dist[..])
      ensures Witnessed(Active(), start, dist[..], wit')
      ensures Relaxed(Active(), visited[..], dist[..])
      ensures forall k :: 0 <= k < V && visited[k] ==> dist[k] == old(dist[k])
    {
      ghost var es := Active();
      ghost var d0 := dist[..];
      wit' := wit;
      var i := 0;
      while i < E
        invariant 0 <= i <= E
        invariant PassInv(es, start, visited[..], d0, dist[..], wit', u, i)
      {
        var e := edges[i];
        var neighbor := if e.src == u then e.dest else if e.dest == u then e.src else -1;
        RelaxStep(es, start, visited[..], d0, dist[..], wit', u, i);
        if neighbor != -1 && !visited[neighbor] && dist[u].Fin? && Lt(Fin(dist[u].n + e.weight), dist[neighbor]) {
          dist[neighbor] := Fin(dist[u].n + e.weight);
          wit' := wit'[neighbor := wit'[u] + [Hop(u, neighbor, e.weight)]];
        }
        i := i + 1;
      }
    }
  }

  /**
   * The selection scan of `dijkstra`: the unvisited vertex of least tentative
   * distance, the highest index among equals, unreached vertices included;
   * -1 only when every vertex is visited.
   */
  method SelectNext(dist: array<Dist>, visited: array<bool>) returns (u: int)
    requires dist.Length == visited.Length
    ensures -1 <= u < dist.Length
    ensures u == -1 <==> forall k :: 0 <= k < dist.Length ==> visited[k]
    ensures u != -1 ==> !visited[u] && forall k :: 0 <= k < dist.Length && !visited[k] ==> Le(dist[u], dist[k])
    ensures u != -1 ==> forall k :: u < k < dist.Length && !visited[k] ==> Lt(dist[u], dist[k])
  {
    var minDist := Inf;
    u := -1;
    var v := 0;
    while v < dist.Length
      invariant 0 <= v <= dist.Length && -1 <= u < v
      invariant u == -1 ==> minDist == Inf && forall k :: 0 <= k < v ==> visited[k]
      invariant u != -1 ==> !visited[u] && dist[u] == minDist
      invariant forall k :: 0 <= k < v && !visited[k] ==> Le(minDist, dist[k])
      invariant forall k :: u < k < v && !visited[k] ==> Lt(minDist, dist[k])
    {
      if !visited[v] && Le(dist[v], minDist) {
        minDist := dist[v];
        u := v;
      }
      v := v + 1;
    }
  }
}
