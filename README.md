# Circle packer: a verified model

This project models the circle-packing engine of a small web page. Circles of given radii are
pulled toward a point set by the page's size and pushed apart where they overlap. The engine
keeps nudging them until they come to rest inside the page's rectangle. It has two halves.

- **Worker** (`src/circlePacker.worker.js`): the engine. Its parts:
  - the `Vector` helpers;
  - the `PackedCircle` record;
  - `PackedCircleManager`, which owns the list of circles, the bounds and the shared target, and
    runs one relaxation step at a time;
  - the worker scope: it runs eight steps per timer tick, reports every position to the main
    thread, and sets a new timer while the circles still move.
- **Main thread** (`src/circlePacker.js`): `CirclePacker`. It hands out circle ids, keeps the
  node behind each id, posts commands to the worker, and attaches the nodes to the positions the
  worker reports.

## Modules

| module | file | what it holds |
|---|---|---|
| `Wrappers` | `wrappers.dfy` | `Option`, for a message field that may be absent |
| `Geometry` | `geometry.dfy` | `Vector`, `Length`, `Normalize`, `Mul`, `DistanceSquared` |
| `Packing` | `packing.dfy` | the circles as values, one step as functions, and the lemmas about them |
| `Manager` | `manager.dfy` | `class PackedCircleManager`, whose methods change the circle list in place and are proved equal to the `Packing` functions |
| `Protocol` | `protocol.dfy` | the messages in both directions |
| `Scheduler` | `scheduler.dfy` | `class Worker`: the worker's scope (the manager, `prevPositions`, `ticking`, the outbox), plus the drift sum and its lemmas |
| `Host` | `host.dfy` | `class CirclePacker<N>` and the payload mapping |

## How things are modelled

- **Numbers.** Coordinates and radii are exact `real`s, not IEEE doubles.
- **Square root.** `Math.sqrt` is a parameter `sqrt: real -> real`. A lemma that needs a fact
  about it says so in its `requires`: `SqrtNonNegative(sqrt)`, or `sqrt(0.0) == 0.0`.
- **Vectors and circles are values.** In the code that runs, no `Vector` or circle object is
  ever reachable from two places: every copy is a `cp()` or a new object. So the in-place
  `mul`/`normalize` and the field writes on circles become functions that return the new value,
  and the manager's `allCircles` is a `seq` field that its methods reassign.
- **Messages.** Posting (in either direction) appends to a log: `Worker.outbox` and
  `CirclePacker.posted`. Calling the update handler appends to `CirclePacker.delivered`.
- **The timer.** `setTimeout` is modelled by:
  - the `ticking` flag;
  - a ghost count `pendingTimers` of timers set and not yet fired;
  - the method `Worker.FireTick`, which is the timer firing.

  `Worker.Valid()` says that at most one timer is pending, and that one is pending exactly
  when `ticking` is set.

### Where the code and its documentation differ (the model follows the code)

- **Coincident circles.** Two circles at the same centre are not pushed apart in an arbitrary
  direction. Their difference vector is zero, `normalize` leaves it zero, and the push is
  zero. `Packing.ResolvePair` states this: equal positions leave the list unchanged.
- **`update` is unhandled.** The main thread's `update` command has no handler in the
  worker. It reaches the `default` arm and changes nothing. `Worker.HandleMessage` states this.
- **Dead checks.** The following never have an effect and are not modelled:
  - the `ci == cj` check (worker line 192), because every circle is a separate object;
  - the `this.desiredTarget` test (line 138), because the target is always an object;
  - the drag branches (lines 209-220), because `dragCircle` is always `null`.
- **Centering uses the shared target.** It pulls every circle toward the manager's
  `desiredTarget`, not toward each circle's own `targetPosition`. The target stamped on a circle
  when it is added is never read again.
- **`removeCircle` is never dispatched.** No message reaches it. It is modelled as a method of
  the manager.

## Model

| member | source | states |
|---|---|---|
| Geometry.Length | src/circlePacker.worker.js:24-30 | the reported length is never 0: it is at least 0.005 in magnitude or exactly 0.000001, and it is positive when `sqrt` is non-negative |
| Geometry.Normalize | src/circlePacker.worker.js:17-22 | total for every vector: each coordinate of the result times the length gives back the input coordinate; the zero vector stays zero |
| Geometry.Mul | src/circlePacker.worker.js:11-15 | scaling by 1 changes nothing and the zero vector stays zero; it is the scaling the centering pull and the collision push use |
| Geometry.DistanceSquared | src/circlePacker.worker.js:38-42 | never negative, equal to the squared distance taken in the other direction, and zero between equal points |
| Packing.NewPackedCircle | src/circlePacker.worker.js:45-54 | the constructor with its `setRadius` call (lines 67-71) folded in: the circle has the given id and radius as its radius and original radius, the radius squared, position and previous position both (x, y), with x and y 0 unless given, and target (0, 0) |
| Packing.Snapshot | src/circlePacker.worker.js:132-136 | one circle per circle, each with its current position copied into `previousPosition` and nothing else changed; it is the first phase of `Step` |
| Packing.CenterCircle | src/circlePacker.worker.js:164-173 | only the position changes, and the offset from the target shrinks by exactly the factor 0.96 on each axis |
| Packing.CenteringPasses | src/circlePacker.worker.js:162-174 | the centering passes change positions only: ids, radii, previous positions and targets are kept |
| Packing.ResolvePair | src/circlePacker.worker.js:190-222 | only circles `i` and `j` move, and only their positions; `i` moves by exactly the negation of `j`'s displacement; a pair that does not overlap (or has one centre) is unchanged; an overlapping `j` moves by `normalize(pj - pi) * (r - sqrt(d)) / 2` |
| Packing.Row | src/circlePacker.worker.js:190-223 | one row of the pair loop changes positions only |
| Packing.Sweep | src/circlePacker.worker.js:187-224 | one sweep over all pairs changes positions only |
| Packing.CollisionPasses | src/circlePacker.worker.js:186-225 | the collision passes change positions only |
| Packing.ClampX | src/circlePacker.worker.js:235-241 | when the bounds are at least a diameter wide the result keeps the whole circle between left and right; a circle already inside keeps its x |
| Packing.ClampY | src/circlePacker.worker.js:243-249 | the same for the vertical axis, with its own strict test against the bottom |
| Packing.HandleBoundary | src/circlePacker.worker.js:228-250 | only the position changes; a circle the bounds can hold ends inside them; a circle already inside is unchanged |
| Packing.Step | src/circlePacker.worker.js:127-152 | the reference for one `updatePositions` call (snapshot, centering, collisions, boundary); it keeps the number of circles, and the lemmas below state what else it keeps |
| Packing.StepRecordsPreviousPosition | src/circlePacker.worker.js:127-152 | after a step, every circle keeps its id, radius and target, and its `previousPosition` is its position before the step |
| Packing.StepKeepsCirclesInBounds | src/circlePacker.worker.js:127-152 | every circle the bounds can hold is entirely inside them after a step, whatever the sizes of the other circles |
| Packing.Steps | src/circlePacker.worker.js:264-267 | the reference for the worker's repeated steps: `n` steps keep the number of circles |
| Packing.StepsKeepIdentity | src/circlePacker.worker.js:264-267 | any number of steps keeps the number of circles and each circle's id, radius and target |
| Packing.StepsKeepCirclesInBounds | src/circlePacker.worker.js:264-267 | after one or more steps every circle the bounds can hold is inside them, whatever the sizes of the other circles |
| Packing.ResolvePairConservesTotal | src/circlePacker.worker.js:209-221 | resolving one pair leaves the sum of all positions unchanged |
| Packing.RowConservesTotal | src/circlePacker.worker.js:190-223 | one row of pairs leaves the sum of all positions unchanged |
| Packing.SweepConservesTotal | src/circlePacker.worker.js:187-224 | one sweep leaves the sum of all positions unchanged |
| Packing.CollisionPassesConserveTotal | src/circlePacker.worker.js:186-225 | the collision passes leave the sum of all positions unchanged |
| Packing.Without | src/circlePacker.worker.js:114-125 | the reference for `removeCircle`: never longer than the input and no circle left has the removed id; the lemmas below give membership and order |
| Packing.WithoutMembership | src/circlePacker.worker.js:114-125 | after removing `id`, a circle remains exactly when it was there and has another id |
| Packing.WithoutConcat | src/circlePacker.worker.js:114-125 | removal distributes over concatenation, so the survivors keep their relative order |
| Packing.WithoutAbsent | src/circlePacker.worker.js:114-125 | removing an id that no circle has changes nothing |
| Manager.MatchingIndices | src/circlePacker.worker.js:115-120 | the collected indices are strictly increasing, each names a circle with the id, and every such circle is named |
| Manager.SpliceStep | src/circlePacker.worker.js:122-124 | splicing out the next index, from the last towards the first, removes one more match and keeps everything after it in place |
| Manager.PackedCircleManager.constructor | src/circlePacker.worker.js:82-89 | no circles, target (0, 0), all bounds 0 |
| Manager.PackedCircleManager.SetBounds | src/circlePacker.worker.js:91-107 | left and top change only when supplied; right becomes the new left plus the width, and bottom the new top plus the height, each only when supplied; with both width and height the target becomes (width / 2, height / 3) |
| Manager.PackedCircleManager.SetTarget | src/circlePacker.worker.js:252-254 | the target changes and the circles already added, with their stamped targets, do not |
| Manager.PackedCircleManager.AddCircle | src/circlePacker.worker.js:109-112 | the circle is appended last, stamped with the current target; earlier circles are unchanged |
| Manager.PackedCircleManager.RemoveCircle | src/circlePacker.worker.js:114-125 | the list becomes exactly the circles with another id, in their original order |
| Manager.PackedCircleManager.UpdatePositions | src/circlePacker.worker.js:127-152 | the list becomes `Step` of the old list: snapshot, centering, collisions, then the boundary of every circle; target and bounds are untouched |
| Manager.PackedCircleManager.PushAllCirclesTowardTarget | src/circlePacker.worker.js:154-175 | the list becomes the centering passes of the old list |
| Manager.PackedCircleManager.HandleCollisions | src/circlePacker.worker.js:177-226 | the list becomes the two collision passes of the old list |
| Manager.PackedCircleManager.CollideRow | src/circlePacker.worker.js:190-223 | one pass of the outer pair loop: the list becomes `Row` of the old list for circle `i` |
| Manager.PackedCircleManager.ResolveCollision | src/circlePacker.worker.js:190-222 | one iteration of the inner pair loop resolves pair (i, j) as `ResolvePair` |
| Manager.PackedCircleManager.HandleBoundaryForCircle | src/circlePacker.worker.js:228-250 | only circle `k` changes, and it is clamped as `HandleBoundary` |
| Scheduler.Records | src/circlePacker.worker.js:269-273 | the reference for the posted payload: one record per circle, with the circle's id, in list order |
| Scheduler.Keyed | src/circlePacker.worker.js:300-303 | the reference for the rebuilt `prevPositions`: every key maps to a record with that id |
| Scheduler.DriftTerm | src/circlePacker.worker.js:283-291 | one circle's share of the drift: never negative when `sqrt` is non-negative; above the rest threshold 4 for an id missing from the previous report; 0 for a circle reported before at the same place (when `sqrt(0) = 0`) |
| Scheduler.DriftOf | src/circlePacker.worker.js:281-292 | the reference for the drift sum: the sum over all records is at least each circle's own share when `sqrt` is non-negative |
| Scheduler.RecordsKeepIds | src/circlePacker.worker.js:269-273 | after any number of steps the payload has one record per circle, with the circles' ids in list order |
| Scheduler.KeyedDomain | src/circlePacker.worker.js:300-303 | the rebuilt `prevPositions` has exactly the reported ids as keys |
| Scheduler.KeyedLatest | src/circlePacker.worker.js:300-303 | each key maps to the last record with that id |
| Scheduler.DriftNonNegative | src/circlePacker.worker.js:281-292 | the drift is never negative when `sqrt` is non-negative |
| Scheduler.DriftOfUnseen | src/circlePacker.worker.js:281-297 | one circle missing from the previous report makes the drift at least 999, so the tick sets a new timer |
| Scheduler.DriftAtRest | src/circlePacker.worker.js:281-297 | when every circle was reported before at the same place the drift is 0, so no new timer is set |
| Scheduler.TotalDrift | src/circlePacker.worker.js:281-292 | the loop's sum is the drift: 999 for each unseen id, otherwise the distance moved |
| Scheduler.Worker.constructor | src/circlePacker.worker.js:260-262 | a fresh empty manager, no previous positions, no timer and no messages |
| Scheduler.Worker.RequestTick | src/circlePacker.worker.js:306-315 | afterwards a timer is pending; when one already was, no second timer is set |
| Scheduler.Worker.FireTick | src/circlePacker.worker.js:310-313 | the flag is cleared before the tick runs, so the tick sets a new timer exactly when the drift exceeds 4 |
| Scheduler.Worker.Advance | src/circlePacker.worker.js:265-267 | the eight-step loop of a tick: the list becomes `Steps` of the old list with the manager's target and bounds |
| Scheduler.Worker.Tick | src/circlePacker.worker.js:264-304 | exactly 8 steps; one `update` message with one record per circle in list order; a new timer only when the drift against the old `prevPositions` exceeds 4; `prevPositions` becomes the reported records keyed by id |
| Scheduler.Worker.HandleMessage | src/circlePacker.worker.js:317-336 | `setDimensions` sets bounds (0, 0, width, height) and target (width / 2, height / 3) and requests a tick; `addNode` appends the new circle, stamped with the target, and requests a tick; anything else changes nothing |
| Host.StripAttach | src/circlePacker.js:38-41 | the processed payload has the payload's length and order, and every element keeps the record's fields |
| Host.Attach | src/circlePacker.js:38-41 | the reference for the mapped payload: one processed position per record |
| Host.AttachIssued | src/circlePacker.js:38-41 | with nodes keyed by `0 .. count - 1`, a position gets a node exactly when its id is one of those, and then the node stored under it |
| Host.IssuedIds | src/circlePacker.js:51-69 | the reference for the ids sent to the worker: the ids of the `addNode` commands in posting order: never more ids than commands, and each id is the id of an `addNode` command in the log |
| Host.CirclePacker.constructor | src/circlePacker.js:16-32 | no nodes, counter 0, size 0 by 0, nothing posted or delivered |
| Host.CirclePacker.AddNode | src/circlePacker.js:51-69 | the id is the old counter value, not yet in use; the counter goes up by exactly 1; only the new entry is added to the node table; one `addNode` message with radius `spacing / 2 + size` and position (width / 2 + jx, height / 2 + jy) is posted; ids are posted as 0, 1, 2, ... |
| Host.CirclePacker.Update | src/circlePacker.js:71-76 | exactly one `update` message is posted, asking for one iteration unless another count is given |
| Host.CirclePacker.SetDimensions | src/circlePacker.js:78-85 | the size is stored, and exactly one `setDimensions` message with the same values is posted |
| Host.CirclePacker.HandleWorkerMessage | src/circlePacker.js:34-49 | an `update` message delivers the payload with nodes attached, and a position gets a node exactly when its id was issued; any other message delivers nothing |

## Left out

- `Vector.distance`, `PackedCircle.setPosition`, `delta` and
  `distanceSquaredFromTargetPosition`: nothing calls them.
- `PackedCircle.setRadius`: its only call is in the constructor, and `Packing.NewPackedCircle`
  states its effect.
- `Vector.cp`: its two calls (worker lines 111 and 135) are modelled by copying a datatype
  value, in `Manager.PackedCircleManager.AddCircle` and in `Packing.Snapshot`; it has no member
  of its own.
- The square root itself: `Math.sqrt` is a parameter. Only non-negativity, and `sqrt(0) = 0` for
  the rest case, are assumed where they are needed.
- Facts that need nonlinear real arithmetic are not stated: that `normalize` gives a unit vector,
  or that `n` centering passes scale the offset by 0.96 to the power `n`. The manager runs one
  pass, and `CenterCircle` states that pass exactly.
- IEEE-754 doubles: rounding, NaN and infinities.
- Manager.PackedCircleManager.SetBounds: when width or height is missing, the source sets the
  target to NaN coordinates. The model leaves the target unchanged and states it only when both
  are given. The worker always passes both.
- The drag-circle forces (worker lines 209-220): dead code, as above.
- The timer delay `ITERATIONS_PER_UPDATE * 16` milliseconds, and all real time: a timer is
  pending or it is not.
- `console.warn` in the default arms: logging with no effect on state.
- `self.postMessage`, `addEventListener` and `new Worker`: each is replaced by a log or by
  calling the method directly.
- Host.CirclePacker.constructor: the `onUpdate` callback is replaced by the `delivered` log.
- `./config` (`CIRCLE_SPACING`) and `./randRange` are not part of this model. The spacing is
  the constructor's parameter `circleSpacing`. The two `randRange(-5, 5)` draws are the
  parameters `jitterX` and `jitterY` of `AddNode`, with no assumed range.
- `DEFAULT_NODE_SIZE` (`src/circlePacker.js` line 4): never used.
- JavaScript object keys are strings. Ids are integers here, which index `#nodes` and
  `prevPositions` the same way.
- Convergence: the code does not promise that the circles settle or end up overlap-free, and no
  such property is stated.
