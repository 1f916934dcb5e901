# Three Shapes game engine: the `Game` core, in Dafny

This project models the `Game` class of `three_shapes_game.py`, the engine
behind the Three Shapes family of programs, and proves what it promises. The
class keeps a registry of active objects with deferred additions and
removals. It offers one method per pass over the objects, and the caller's
game loop invokes the passes each tick:
- `do_nearby_calls` makes `nearby` calls in distance order;
- `do_move_calls` calls `move`;
- `do_edge_calls` calls `edge`;
- `draw` applies the staged additions and removals at its top, then checks
  whether the window was closed.

Files:

- `lifecycle.dfy` (module `Lifecycle`) holds the registry as a value: the
  active set plus the pending-add and pending-remove sets. It defines the
  invariant every reachable registry keeps, the request operations, the
  reconciliation rule and their lemmas. It also defines `Enumerates`: one pass
  of a `for` loop over a set, which visits every member exactly once in an
  unspecified order.
- `proximity.dfy` (module `Proximity`) specifies `do_nearby_calls` as
  functions. The steps are:
  - the snapshot of positions;
  - the two directed records `(i, d, j)` and `(j, d, i)` per pair `i < j`, in
    the order the nested loops append them;
  - the lexicographic sort;
  - the blocks of `n - 1` records per left-hand index;
  - the delivery of each block up to and including the first call answered
    false;
  - the whole trace of calls in one tick.

  Its lemmas state the counting, grouping, ordering and early-stop
  properties.
- `edges.dfy` (module `Edges`) specifies `do_edge_calls`: four independent
  threshold tests per object, run in the order left, top, right, bottom.
- `game.dfy` (module `ThreeShapesGame`) holds `class Game` with the source's
  fields, and one method per operation:
  - The state-changing methods state their new state through the registry
    functions.
  - The passes are loops over the active set, proved against the
    specification functions.

What an object reports, and what it answers, is passed in as a parameter:
- the position (`xy`) and the radius (`radius`);
- the square root (`sqrt`), which stands for `math.sqrt`;
- the answer of `nearby` (`nearby`), modelled as an oracle;
- whether the window was closed (`isKilled`).

The calls the engine makes on objects are returned as sequences, in the order
they are made.

`remove_obj` accepts only an object that is already active
(three_shapes_game.py:130). An object that is only pending addition cannot be
removed in the same tick, so an addition cannot be undone before it takes
effect. `Lifecycle.AddThenRemoveRejected` states this.

## Model

| member | source | states |
|---|---|---|
| ThreeShapesGame.Game.constructor | three_shapes_game.py:23-43 | A new game stores its width and height, has no active, pending-add or pending-remove objects, does not subtract radii, and is not over. |
| ThreeShapesGame.Game.ConfigSet | three_shapes_game.py:57-60 | The call is accepted if and only if the name is `account_for_radii_in_dist`. The flag then takes the given value. Any other name is refused and the flag keeps its old value. |
| ThreeShapesGame.Game.SetGameOver | three_shapes_game.py:64-65 | Afterwards the game is over. |
| ThreeShapesGame.Game.IsOver | three_shapes_game.py:66-67 | Reports the game-over flag. |
| ThreeShapesGame.Game.AddObj | three_shapes_game.py:116-118 | Requires the object to be neither active nor pending addition. Only the pending additions change, gaining the object, and the registry invariant is kept. |
| ThreeShapesGame.Game.RemoveObj | three_shapes_game.py:130-131 | Requires the object to be active. Only the pending removals change, gaining the object, and the invariant is kept. |
| ThreeShapesGame.Game.ExecuteAddsAndRemoves | three_shapes_game.py:139-143 | The new registry is the reconciliation of the old one: removals first, then additions, then both staging sets are empty. |
| Lifecycle.EmptyValid | three_shapes_game.py:35-40 | The empty registry of a new game satisfies the invariant: pending removals are active, and pending additions are not. |
| Lifecycle.AddSpec | three_shapes_game.py:116-118 | Adding keeps the invariant. It gives the object to the pending additions, where it was not before, and leaves the active set and the pending removals unchanged. |
| Lifecycle.RemoveSpec | three_shapes_game.py:130-131 | Removing keeps the invariant. It adds exactly the object to the pending removals and leaves the other two sets unchanged. |
| Lifecycle.RemoveIdempotent | three_shapes_game.py:103-105 | Removing the same object again in the same tick is allowed and changes nothing. Removing an already-pending object is a no-op. |
| Lifecycle.PendingDisjoint | three_shapes_game.py:116-131 | In a reachable registry no object is both pending addition and pending removal. |
| Lifecycle.AddThenRemoveRejected | three_shapes_game.py:116-131 | An object just staged for addition cannot be removed in the same tick. |
| Lifecycle.RequestsCommute | three_shapes_game.py:116-131 | An addition and a removal made in one tick give the same registry in either order. Each stays permitted after the other. |
| Lifecycle.ReconcileSpec | three_shapes_game.py:139-143 | After reconciliation an object is active if and only if it was pending addition, or was active and not pending removal. Both staging sets are empty and the invariant holds. |
| Lifecycle.ReconcileIdempotent | three_shapes_game.py:139-143 | Reconciling twice is the same as reconciling once. |
| Lifecycle.ReconcileSize | three_shapes_game.py:139-143 | From a valid registry, the active set's size changes by exactly: pending additions minus pending removals. |
| Lifecycle.EnumeratesCard | three_shapes_game.py:158-161 | A pass over a set that visits every member exactly once makes as many visits as the set has members. |
| ThreeShapesGame.Game.SnapshotPositions | three_shapes_game.py:158-161 | The snapshot lists every active object exactly once, each with the position it reported. So it has as many entries as there are active objects. |
| Proximity.SnapshotCard | three_shapes_game.py:158-161 | A snapshot of the active objects has one entry per active object. Together with `TraceAllAnswered`, n active objects give n*(n-1) calls. |
| Proximity.DistSymmetric | three_shapes_game.py:172 | The distance of a pair does not depend on the order of the two objects. |
| Proximity.DistWithRadii | three_shapes_game.py:172-176 | With the radii setting on, the distance is the plain distance minus both radii, not clamped. |
| Proximity.DistOverlapNegative | three_shapes_game.py:172-176 | Two objects at the same point with positive radii get a negative distance under the radii setting, given that the square root of zero is zero. |
| ThreeShapesGame.Game.SortedDistances | three_shapes_game.py:166-194 | The nested loops followed by the sort produce the sorted records of the snapshot under the current distance setting. |
| Proximity.PairRecordsMember | three_shapes_game.py:166-189 | A record is emitted if and only if its two indices are distinct snapshot indices and it carries that pair's distance. |
| Proximity.PairRecordsBothDirections | three_shapes_game.py:188-189 | Each pair `i < j` contributes both `(i, d, j)` and `(j, d, i)` with the same `d`. |
| Proximity.RowsDistinct | three_shapes_game.py:166-189 | No record is emitted twice. |
| Proximity.PairRecordsCount | three_shapes_game.py:166-189 | Every snapshot index is the left index of exactly n-1 records, and no other index is a left index. |
| Proximity.PairRecordsLength | three_shapes_game.py:166-189 | Exactly n*(n-1) records are emitted. |
| Proximity.SortRecordsSorted | three_shapes_game.py:194 | The sort's result is ordered by (left, distance, right) and is a permutation of its input. |
| Proximity.SortedUnique | three_shapes_game.py:194 | Any two ordered permutations of the same records are equal. So the in-place sort and the value sort used here give the same list. |
| Proximity.SortedRecordsLayout | three_shapes_game.py:194-206 | The sorted records have n*(n-1) elements and are ordered, pairwise distinct and a permutation of the emitted records. They are grouped: every record in block i has left index i. |
| Proximity.SortedRecordsLength | three_shapes_game.py:199-200 | The length check made before the walk always holds: the sorted list has n*(n-1) records. |
| Proximity.BlockSlice | three_shapes_game.py:206-208 | The slice `[(n-1)*i, (n-1)*(i+1))` lies within the list, is block i, and every entry in it has left index i, so the walk's `k1 == i` check always holds. |
| Proximity.CandidatesSpec | three_shapes_game.py:194-208 | Block i holds exactly the n-1 records whose left index is i, one for every other index with the pair's distance. Its distances never decrease, and equal distances come in strictly ascending right index. |
| Proximity.DeliveredSpec | three_shapes_game.py:206-216 | The calls delivered from a block are a prefix of it, and a non-empty block delivers at least one call. Every delivered call but the last was answered true. When the walk stops early, the last delivered call was answered false. |
| Proximity.DeliveredAll | three_shapes_game.py:206-216 | When every call of a block is answered true, the whole block is delivered. |
| Proximity.DeliveredStop | three_shapes_game.py:213-216 | When the first k calls are answered true and call k is answered false, exactly calls 0 .. k are delivered. |
| ThreeShapesGame.Game.WalkBlock | three_shapes_game.py:205-208 | The slice `[(n-1)*i, (n-1)*(i+1))` it takes is block i. Walking it appends to the calls so far exactly the delivered calls of block i. |
| ThreeShapesGame.Game.WalkSlice | three_shapes_game.py:206-216 | Walking a slice of records with left index i appends its calls in order, up to and including the first one answered false, and nothing after it. |
| ThreeShapesGame.Game.DoNearbyCalls | three_shapes_game.py:158-216 | The positions snapshot lists the active objects, one entry each. The calls made are exactly the specified trace of the tick for that snapshot. |
| Proximity.TraceForObject | three_shapes_game.py:205-216 | The calls made by one object in a tick are exactly the delivered prefix of its own candidate list. What other objects answer does not matter: an early stop ends only that object's block. |
| Proximity.TraceAllAnswered | three_shapes_game.py:197-216 | When every call is answered true, all n*(n-1) calls are delivered. |
| ThreeShapesGame.Game.DoMoveCalls | three_shapes_game.py:220-223 | `move` is called on every active object exactly once, so as many times as there are active objects. |
| ThreeShapesGame.Game.EdgeTests | three_shapes_game.py:239-247 | The four tests for one object produce exactly that object's edge calls, in test order. |
| Edges.EdgeCallsForSpec | three_shapes_game.py:239-247 | An object receives the call for a side, with that side's coordinate, if and only if it touches that side. Left and top use 0, right the width and bottom the height. The calls come in the order left, top, right, bottom, so each side at most once, and a corner gives two calls. |
| Edges.EdgeTraceStep | three_shapes_game.py:235-247 | Visiting one more object appends exactly that object's edge calls. |
| Edges.EdgeTraceSpec | three_shapes_game.py:235-247 | Over a whole pass, `edge(side, coord)` reaches an object exactly when it was visited, touches that side, and coord is that side's coordinate. |
| Edges.EdgeTraceForObject | three_shapes_game.py:235-247 | In a pass that visits each object once, the calls an object receives are exactly those of its own four tests: one per side it touches, in the order left, top, right, bottom. |
| Edges.EdgeTraceUnvisited | three_shapes_game.py:235-247 | An object the pass does not visit receives no edge call. |
| ThreeShapesGame.Game.DoEdgeCalls | three_shapes_game.py:235-247 | Every active object is visited exactly once, and the calls made are exactly the edge trace of that visiting order. |
| ThreeShapesGame.Game.Draw | three_shapes_game.py:256-268 | Staged changes are applied first, whatever the window state. A closed window then makes the game over and nothing is drawn. Otherwise every active object is drawn exactly once, and the game-over flag is unchanged. |

## Left out

- The `graphics` window is not modelled: its construction, title, `clear()`, `update_frame(frame_rate)` and the drawing itself. Only `is_killed` remains, as the `isKilled` parameter of `Draw`, and the frame rate and title are not stored.
- Floating point is modelled as `real`. `math.sqrt` is a parameter `sqrt`: no property proved depends on what it computes, except that `DistOverlapNegative` takes `sqrt(0) == 0` as a hypothesis.
- What objects do inside `nearby`, `move`, `edge` and `draw` is left out. `nearby` is an oracle on `(left, right, dist)`; the other calls are recorded.
- Callbacks that call `add_obj`/`remove_obj` during a pass are not modelled. Such calls only touch the staging sets, which `AddObj` and `RemoveObj` cover on their own.
- Python's set iteration order is not modelled. Every pass over a set is an arbitrary enumeration of its members, each exactly once (`Enumerates`, `Snapshot`).
- The in-place `distances.sort()` is modelled by the value sort `SortRecords`. `Proximity.SortedUnique` shows that every correct sort yields the same list.
- `assert len(distances) == n*(n-1)` is not checked inside `DoNearbyCalls`. It is proved to always hold as the lemma `Proximity.SortedRecordsLength`.
- ThreeShapesGame.Game.ConfigSet: an unrecognised name is an assertion failure in the source. Here it is refused with `ok == false` and no state change, rather than halting.
- ThreeShapesGame.Game.AddObj and ThreeShapesGame.Game.RemoveObj: the source's `assert`s on the argument become preconditions, so a violating call is not modelled as a halt.
- ThreeShapesGame.Game.Draw: `Draw` does not return the calls made on the window, only the order of the `draw` calls on objects.
