# Edge-failure simulator for a small electrical network

The program keeps a graph of houses (vertices) joined by power lines
(weighted, undirected edges), with the power station at vertex 0. Three
actions change the graph, and after each one the program recomputes the
least line loss from the station to every house:

- a line failure takes the first active line out of service and pushes it on
  an undo stack;
- a repair pops the most recently failed line and appends it to the active
  lines;
- a reset brings every line of the start-up snapshot back and empties the stack.

This project models that engine in Dafny:

- `types.dfy`: edges, distances with an explicit `Inf` sentinel in place of
  `INT_MAX`, and the error outcomes.
- `edge_store.dfy`: the store of active edges, undo stack and snapshot as a
  value. It holds the three mutations as functions and the laws they obey:
  - active and removed edges always partition the snapshot;
  - a repair undoes the last failure;
  - a reset is idempotent;
  - failures and repairs run to exhaustion behave as a stack.
- `network.dfy`: class `Network`, holding the graph record and the global undo
  stack. Its arrays are mutated in place by `Remove`, `Restore` and `Reset`,
  each proved against the value-level functions. It also holds `Dijkstra`,
  the array-based shortest-path routine with its `V - 1` rounds and its
  selection scan.
- `paths.dfy`: walks over the edge list and what a shortest distance is; this
  is the reference `Dijkstra` is proved against.
- `dijkstra_proof.dfy`: the loop invariants of `Dijkstra` and the lemmas that
  carry them.
- `scenario.dfy`: the network built by `main`, put through two failures, one
  repair and a reset, with the distances proved at each step.

Where the code and its documentation disagree, the model follows the code:

- The selection scan compares with `<=`. Among equal tentative distances it
  therefore picks the highest index, and it may pick an unreached vertex
  (`SelectNext`).
- The initial edge list starts with line 0-1 (weight 10). The first failure
  removes that line and the second removes line 0-2. The distances from the
  station are:

  | step | distances to houses 0, 1, 2, 3 |
  |---|---|
  | start | 0, 10, 6, 5 |
  | after the first failure | 0, 20, 6, 5 |
  | after the second failure | 0, 20, 9, 5 |
  | after the repair | 0, 20, 6, 5 |
  | after the reset | 0, 10, 6, 5 |

- The routine has no check on the source vertex; the model requires
  `0 <= start < V`.
- A repair pops the stack before it tests whether the edge array has room.
  When the array is full, the popped line would be lost. The value-level
  `Restore` keeps that outcome as `Err(EdgeDropped)`, and
  `RestoreNeverDrops` proves it cannot happen while the partition invariant
  holds.

## Model

| member | source | states |
|---|---|---|
| EdgeStore.RemoveKeepsClosed | reseaux_electrique_final.c:77-93 | A failure keeps active + removed a partition of the snapshot. It succeeds exactly when some line is active, and on an empty graph it fails and changes nothing |
| EdgeStore.RestoreKeepsClosed | reseaux_electrique_final.c:106-113 | A repair keeps the partition. It succeeds whenever the stack is non-empty, and with an empty stack it fails and changes nothing |
| EdgeStore.RestoreNeverDrops | reseaux_electrique_final.c:111-113 | When the partition holds and the snapshot fits the arrays, the capacity test after the pop never fails. The popped (most recent) line is appended at the tail |
| EdgeStore.ResetIdempotent | reseaux_electrique_final.c:124-128 | A reset yields the snapshot as active lines with an empty stack, and a second reset changes nothing |
| EdgeStore.RemoveThenRestore | reseaux_electrique_final.c:88-113 | A repair right after a failure restores the stack. The active lines come back rotated by one: the old head is at the tail, same multiset |
| EdgeStore.RemoveAllPushesInOrder | reseaux_electrique_final.c:77-93 | Failing every active line pushes them on the stack in list order, after which a failure reports that nothing is left |
| EdgeStore.RestoreAllUndoes | reseaux_electrique_final.c:106-113 | Repairing until the stack is empty appends the removed lines last-in first-out, after which a repair reports that nothing is left |
| Network.Network.constructor | reseaux_electrique_final.c:249-260 | Building the graph and filling both edge arrays gives the active lines = snapshot = the given list, an empty stack and a valid store |
| Network.Network.Remove | reseaux_electrique_final.c:77-93 | The in-place failure matches the value-level `Remove`: head returned, rest shifted left, head pushed on the stack. Validity is kept, and an empty graph gives an error with no change |
| Network.Network.ShiftLeft | reseaux_electrique_final.c:91-92 | The shift loop moves every active line after the head one slot left |
| Network.Network.Restore | reseaux_electrique_final.c:106-113 | The in-place repair matches the value-level `Restore`: the top of the stack is popped and appended after the active lines. Validity is kept, and an empty stack gives an error with no change |
| Network.Network.Append | reseaux_electrique_final.c:113 | The restored line goes into the first free slot and the active count grows by one |
| Network.Network.Reset | reseaux_electrique_final.c:124-128 | The in-place reset matches the value-level `Reset`: the snapshot is copied back and the stack is emptied |
| Network.Network.Dijkstra | reseaux_electrique_final.c:40-63 | Every finite distance is the weight of a real walk from the start. With non-negative weights the start has distance 0, every finite distance is the least walk weight, and a distance is `Inf` exactly when no walk reaches the vertex |
| Network.Network.Settle | reseaux_electrique_final.c:54-62 | One round marks the selected vertex visited and relaxes its lines. This keeps the witnessed distances and relaxed lines, and (for non-negative weights) keeps visited distances final |
| Network.Network.RelaxFrom | reseaux_electrique_final.c:56-62 | Relaxing the lines at the new vertex leaves every line from a visited to an unvisited vertex relaxed and changes no visited distance |
| Network.SelectNext | reseaux_electrique_final.c:49-53 | Returns -1 exactly when every vertex is visited. Otherwise it returns an unvisited vertex of least tentative distance, and no later unvisited vertex ties with it |
| DijkstraProof.RelaxStep | reseaux_electrique_final.c:57-61 | One relaxation test keeps every recorded distance the weight of a witness walk and extends the set of relaxed lines by one |
| DijkstraProof.SelectedBound | reseaux_electrique_final.c:50-54 | The unvisited vertex of least tentative distance has no lighter walk from the start (non-negative weights) |
| DijkstraProof.FinalCorrect | reseaux_electrique_final.c:48-63 | After the `V - 1` rounds at most one vertex is unvisited, and then every distance is the shortest walk weight or `Inf` for an unreachable vertex |
| Paths.RemovalNeverShortens | reseaux_electrique_final.c:88-97 | Taking lines out of service never shortens a distance, and a house unreachable before a failure stays unreachable |
| Scenario.InitialDistances | reseaux_electrique_final.c:252-262 | With the five initial lines the distances from the station are 0, 10, 6, 5 |
| Scenario.AfterFirstDistances | reseaux_electrique_final.c:88-97 | After line 0-1 fails, house 1 is fed through house 3 and the distances are 0, 20, 6, 5 |
| Scenario.AfterSecondDistances | reseaux_electrique_final.c:88-97 | After line 0-2 fails too, the distances are 0, 20, 9, 5 |
| Scenario.AfterRestoreDistances | reseaux_electrique_final.c:111-116 | After line 0-2 is repaired (at the tail), the distances are 0, 20, 6, 5 |
| Scenario.FailStep | reseaux_electrique_final.c:88-93 | The first two failures remove lines 0-1 and then 0-2, the head of the list each time |
| Scenario.Run | reseaux_electrique_final.c:249-262 | The start-up network, two failures, one repair and a reset each return the line involved and the distances listed above, and the reset gives back the start-up distances |

## Left out

- The GTK window, buttons, drawing and confirmation dialog are not modelled. A failure is modelled as a confirmed one; a declined dialog changes nothing.
- The `printf` reports are not modelled; `Dijkstra` returns the distance array instead of printing it. `main` calls `dijkstra` once at start-up, and `Scenario.Run` models that call together with the calls after each action.
- `malloc`, `free` and `setlocale` are not modelled. The graph record and the stack are fields of one object, and their arrays have the fixed size `MAX_NODES * MAX_NODES`.
- Network.Network.Dijkstra: integers are unbounded. The `INT_MAX` sentinel is the separate value `Inf`, so the model does not capture a sum `dist + weight` that overflows 32 bits, nor a real distance equal to `INT_MAX` that the source would read as unreachable.
- Network.Network.Dijkstra: optimality and the `Inf` characterisation are stated only for non-negative weights. With negative weights the model promises only that every finite distance is the weight of some walk, because the greedy selection is not optimal then.
- Network.Network.Dijkstra: requires `V <= MAX_NODES` and every line endpoint to be a vertex. The source's fixed-size local arrays would be overrun otherwise.
- Network.Network.Remove: requires the partition invariant, which guarantees the undo stack has room. The source pushes without a check.
