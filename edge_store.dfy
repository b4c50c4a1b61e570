/**
 * The edge store as a value: the active edges, the undo stack of removed
 * edges (top at the end) and the snapshot taken at start-up.  The class
 * `Network.Network` is proved against these functions; the lemmas here state
 * what its three mutations promise.
 */
module EdgeStore {
  import opened Types

  datatype Store = Store(active: seq<Edge>, removed: seq<Edge>, original: seq<Edge>)

  /** No edge is created or lost: active and removed edges partition the snapshot. */
  predicate Closed(s: Store) {
    && |s.active| + |s.removed| == |s.original|
    && multiset(s.active) + multiset(s.removed) == multiset(s.original)
  }

  /** Take the head edge out of service and push it on the undo stack. */
  function Remove(s: Store): (Result<Edge>, Store) {
    if s.active == [] then (Err(NoEdgesToRemove), s)
    else (Ok(s.active[0]), Store(s.active[1..], s.removed + [s.active[0]], s.original))
  }

  /**
   * Pop the undo stack and append the edge at the tail.  As in the source, the
   * edge is popped before the capacity test, so a full edge array drops it.
   */
  function Restore(s: Store): (Result<Edge>, Store) {
    if s.removed == [] then (Err(NothingToRestore), s)
    else
      var top := s.removed[|s.removed| - 1];
      var rest := s.removed[..|s.removed| - 1];
      if |s.active| < Capacity then (Ok(top), Store(s.active + [top], rest, s.original))
      else (Err(EdgeDropped), Store(s.active, rest, s.original))
  }

  /** Put every edge of the snapshot back in service and forget the undo stack. */
  function Reset(s: Store): Store {
    Store(s.original, [], s.original)
  }

  function RemoveTimes(s: Store, n: nat): Store
    decreases n
  {
    if n == 0 then s else RemoveTimes(Remove(s).1, n - 1)
  }

  function RestoreTimes(s: Store, n: nat): Store
    decreases n
  {
    if n == 0 then s else RestoreTimes(Restore(s).1, n - 1)
  }

  /** `s` read from its last element to its first. */
  function Reversed(s: seq<Edge>): seq<Edge> {
    if s == [] then [] else [s[|s| - 1]] + Reversed(s[..|s| - 1])
  }

  lemma HeadTail(a: seq<Edge>)
    requires a != []
    ensures multiset(a) == multiset([a[0]]) + multiset(a[1..])
  {
    assert a == [a[0]] + a[1..];
  }

  lemma InitClosed(edges: seq<Edge>)
    ensures Closed(Store(edges, [], edges))
  {
  }

  /** Removal keeps the partition closed, succeeds exactly when an edge is active, and a failed removal changes nothing. */
  lemma RemoveKeepsClosed(s: Store)
    requires Closed(s)
    ensures Closed(Remove(s).1)
    ensures Remove(s).0.Ok? <==> s.active != []
    ensures s.active == [] ==> Remove(s) == (Err(NoEdgesToRemove), s)
  {
    if s.active != [] {
      HeadTail(s.active);
      var t := Remove(s).1;
      assert multiset(t.removed) == multiset(s.removed) + multiset([s.active[0]]);
    }
  }

  /**
   * In a closed store that fits the capacity, the test before appending never
   * fails: restoring pops the most recently removed edge and appends it.
   */
  lemma RestoreNeverDrops(s: Store)
    requires Closed(s) && |s.original| <= Capacity
    requires s.removed != []
    ensures Restore(s) == (Ok(s.removed[|s.removed| - 1]),
                           Store(s.active + [s.removed[|s.removed| - 1]], s.removed[..|s.removed| - 1], s.original))
  {
  }

  /** Restoring keeps the partition closed; an empty stack makes it fail without change. */
  lemma RestoreKeepsClosed(s: Store)
    requires Closed(s) && |s.original| <= Capacity
    ensures Closed(Restore(s).1)
    ensures s.removed == [] ==> Restore(s) == (Err(NothingToRestore), s)
    ensures s.removed != [] ==> Restore(s).0.Ok?
  {
    if s.removed != [] {
      var top := s.removed[|s.removed| - 1];
      var rest := s.removed[..|s.removed| - 1];
      assert s.removed == rest + [top];
      assert multiset(s.removed) == multiset(rest) + multiset([top]);
      assert multiset(s.active + [top]) == multiset(s.active) + multiset([top]);
    }
  }

  /** Reset yields the snapshot with an empty stack, closed, and a second reset changes nothing. */
  lemma ResetIdempotent(s: Store)
    ensures Reset(s).active == s.original && Reset(s).removed == []
    ensures Closed(Reset(s))
    ensures Reset(Reset(s)) == Reset(s)
  {
  }

  /**
   * Restoring right after a successful removal gives the stack back and leaves
   * the active edges rotated by one: the old head now sits at the tail.
   */
  lemma RemoveThenRestore(s: Store)
    requires Closed(s) && |s.original| <= Capacity
    requires s.active != []
    ensures Restore(Remove(s).1) == (Ok(s.active[0]), Store(s.active[1..] + [s.active[0]], s.removed, s.original))
    ensures multiset(s.active[1..] + [s.active[0]]) == multiset(s.active)
  {
    var t := Remove(s).1;
    RemoveKeepsClosed(s);
    assert t.removed[..|t.removed| - 1] == s.removed;
    HeadTail(s.active);
  }

  /**
   * Removing as many times as there are active edges pushes them on the stack
   * in their order, after which removal fails.
   */
  lemma {:induction false} RemoveAllPushesInOrder(s: Store)
    ensures RemoveTimes(s, |s.active|) == Store([], s.removed + s.active, s.original)
    ensures Remove(RemoveTimes(s, |s.active|)).0 == Err(NoEdgesToRemove)
    decreases |s.active|
  {
    if s.active != [] {
      var t := Remove(s).1;
      RemoveAllPushesInOrder(t);
      assert t.removed + t.active == s.removed + s.active by {
        assert [s.active[0]] + s.active[1..] == s.active;
      }
    }
  }

  /**
   * Restoring until the stack is empty appends the removed edges last-in
   * first-out, after which restoring fails.
   */
  lemma {:induction false} RestoreAllUndoes(s: Store)
    requires Closed(s) && |s.original| <= Capacity
    ensures RestoreTimes(s, |s.removed|) == Store(s.active + Reversed(s.removed), [], s.original)
    ensures Restore(RestoreTimes(s, |s.removed|)).0 == Err(NothingToRestore)
    decreases |s.removed|
  {
    if s.removed != [] {
      var top := s.removed[|s.removed| - 1];
      var t := Restore(s).1;
      RestoreKeepsClosed(s);
      RestoreNeverDrops(s);
      RestoreAllUndoes(t);
      assert t.active + Reversed(t.removed) == s.active + Reversed(s.removed) by {
        assert Reversed(s.removed) == [top] + Reversed(t.removed);
        assert t.active == s.active + [top];
      }
    }
  }
}
