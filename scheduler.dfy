/**
 * The worker's module scope: one `PackedCircleManager`, the positions last reported, the
 * `ticking` flag that keeps at most one simulation timer pending, and the dispatch of the
 * main thread's messages. A pending `setTimeout` is modelled by `ticking` (and the ghost count
 * `pendingTimers`); its firing is the method `FireTick`.
 */
module Scheduler {
  import opened Wrappers
  import opened Geometry
  import opened Packing
  import opened Manager
  import opened Protocol

  const IterationsPerUpdate: nat := 8
  const RestThreshold: real := 4.0
  /** The distance charged for a circle that was not in the previous report. */
  const UnseenPenalty: real := 999.0

  /** The `update` payload: one record per circle, in the engine's order. */
  function Records(cs: seq<PackedCircle>): (rs: seq<PositionRecord>)
    ensures |rs| == |cs|
    ensures forall k :: 0 <= k < |cs| ==> rs[k].id == cs[k].id
  {
    seq(|cs|, k requires 0 <= k < |cs| => PositionRecord(cs[k].id, cs[k].position.x, cs[k].position.y))
  }

  /** After any number of steps the payload names the same ids, in the same order. */
  lemma RecordsKeepIds(cs: seq<PackedCircle>, target: Vector, b: Bounds, sqrt: real -> real, n: nat)
    ensures |Records(Steps(cs, target, b, sqrt, n))| == |cs|
    ensures forall k :: 0 <= k < |cs| ==> Records(Steps(cs, target, b, sqrt, n))[k].id == cs[k].id
  {
    StepsKeepIdentity(cs, target, b, sqrt, n);
  }

  /** The `reduce` that rebuilds `prevPositions`: records keyed by id, a later record replacing an earlier one. */
  function Keyed(rs: seq<PositionRecord>): (m: map<int, PositionRecord>)
    ensures forall id :: id in m ==> m[id].id == id
  {
    if rs == [] then map[] else Keyed(rs[..|rs| - 1])[rs[|rs| - 1].id := rs[|rs| - 1]]
  }

  /** The keys are exactly the ids of the records. */
  lemma {:induction false} KeyedDomain(rs: seq<PositionRecord>, id: int)
    ensures id in Keyed(rs) <==> exists n :: 0 <= n < |rs| && rs[n].id == id
  {
    if rs != [] {
      var init := rs[..|rs| - 1];
      KeyedDomain(init, id);
      if id in Keyed(init) {
        var n :| 0 <= n < |init| && init[n].id == id;
        assert rs[n].id == id;
      }
      if exists n :: 0 <= n < |rs| && rs[n].id == id {
        var n :| 0 <= n < |rs| && rs[n].id == id;
        if n < |init| {
          assert init[n].id == id;
        }
      }
    }
  }

  /** Each id maps to the last record that carries it. */
  lemma {:induction false} KeyedLatest(rs: seq<PositionRecord>, n: nat)
    requires n < |rs|
    requires forall m :: n < m < |rs| ==> rs[m].id != rs[n].id
    ensures rs[n].id in Keyed(rs) && Keyed(rs)[rs[n].id] == rs[n]
  {
    if n < |rs| - 1 {
      var init := rs[..|rs| - 1];
      assert init[n] == rs[n];
      KeyedLatest(init, n);
    }
  }

  /** What one record adds to the total distance travelled. */
  function DriftTerm(r: PositionRecord, prev: map<int, PositionRecord>, sqrt: real -> real): (t: real)
    ensures SqrtNonNegative(sqrt) ==> 0.0 <= t
    ensures r.id !in prev ==> RestThreshold < t
    ensures r.id in prev && prev[r.id].x == r.x && prev[r.id].y == r.y && sqrt(0.0) == 0.0 ==> t == 0.0
  {
    if r.id !in prev then UnseenPenalty
    else
      var p := prev[r.id];
      sqrt(DistanceSquared(Vector(p.x, p.y), Vector(r.x, r.y)))
  }

  /** The total distance travelled since the previous report. */
  function DriftOf(rs: seq<PositionRecord>, prev: map<int, PositionRecord>, sqrt: real -> real): (d: real)
    ensures SqrtNonNegative(sqrt) ==> forall n :: 0 <= n < |rs| ==> DriftTerm(rs[n], prev, sqrt) <= d
  {
    if rs == [] then 0.0
    else
      var init := rs[..|rs| - 1];
      assert forall n :: 0 <= n < |init| ==> init[n] == rs[n];
      DriftOf(init, prev, sqrt) + DriftTerm(rs[|rs| - 1], prev, sqrt)
  }

  /** The drift is never negative. */
  lemma {:induction false} DriftNonNegative(rs: seq<PositionRecord>, prev: map<int, PositionRecord>, sqrt: real -> real)
    requires SqrtNonNegative(sqrt)
    ensures 0.0 <= DriftOf(rs, prev, sqrt)
  {
    if rs != [] {
      DriftNonNegative(rs[..|rs| - 1], prev, sqrt);
    }
  }

  /** A circle missing from the previous report puts the drift above the rest threshold. */
  lemma {:induction false} DriftOfUnseen(rs: seq<PositionRecord>, prev: map<int, PositionRecord>, sqrt: real -> real, n: nat)
    requires SqrtNonNegative(sqrt)
    requires n < |rs| && rs[n].id !in prev
    ensures UnseenPenalty <= DriftOf(rs, prev, sqrt)
    ensures RestThreshold < DriftOf(rs, prev, sqrt)
  {
    var init := rs[..|rs| - 1];
    if n == |rs| - 1 {
      DriftNonNegative(init, prev, sqrt);
    } else {
      assert init[n] == rs[n];
      DriftOfUnseen(init, prev, sqrt, n);
    }
  }

  /** When every circle was reported before at the same place, the drift is zero. */
  lemma {:induction false} DriftAtRest(rs: seq<PositionRecord>, prev: map<int, PositionRecord>, sqrt: real -> real)
    requires sqrt(0.0) == 0.0
    requires forall n :: 0 <= n < |rs| ==> rs[n].id in prev && prev[rs[n].id].x == rs[n].x && prev[rs[n].id].y == rs[n].y
    ensures DriftOf(rs, prev, sqrt) == 0.0
  {
    if rs != [] {
      var init := rs[..|rs| - 1];
      assert forall n :: 0 <= n < |init| ==> init[n] == rs[n];
      DriftAtRest(init, prev, sqrt);
      var r := rs[|rs| - 1];
      var p := prev[r.id];
      assert Vector(p.x, p.y) == Vector(r.x, r.y);
    }
  }

  /** The loop of `updatePositions` that sums the distance each reported circle travelled. */
  method TotalDrift(updatedPositions: seq<PositionRecord>, prevPositions: map<int, PositionRecord>, sqrt: real -> real)
    returns (diffAmt: real)
    ensures diffAmt == DriftOf(updatedPositions, prevPositions, sqrt)
  {
    diffAmt := 0.0;
    for n := 0 to |updatedPositions|
      invariant diffAmt == DriftOf(updatedPositions[..n], prevPositions, sqrt)
    {
      var newPosition := updatedPositions[n];
      if newPosition.id !in prevPositions {
        diffAmt := diffAmt + UnseenPenalty;
      } else {
        var prevPosition := prevPositions[newPosition.id];
        diffAmt := diffAmt + sqrt(DistanceSquared(Vector(prevPosition.x, prevPosition.y), Vector(newPosition.x, newPosition.y)));
      }
      assert updatedPositions[..n + 1][..n] == updatedPositions[..n];
    }
    assert updatedPositions[..|updatedPositions|] == updatedPositions;
  }

  class Worker {
    const packer: PackedCircleManager
    var prevPositions: map<int, PositionRecord>
    var ticking: bool
    /** The messages posted to the main thread, oldest first. */
    var outbox: seq<WorkerEvent>
    /** The number of timers set and not yet fired. */
    ghost var pendingTimers: nat

    /** At most one timer is pending, and one is exactly when `ticking` is set. */
    ghost predicate Valid()
      reads this
    {
      pendingTimers == if ticking then 1 else 0
    }

    constructor ()
      ensures Valid()
      ensures fresh(packer)
      ensures packer.allCircles == [] && packer.desiredTarget == Vector(0.0, 0.0)
      ensures packer.bounds == Bounds(0.0, 0.0, 0.0, 0.0)
      ensures prevPositions == map[] && !ticking && outbox == []
    {
      packer := new PackedCircleManager();
      prevPositions := map[];
      ticking := false;
      outbox := [];
      pendingTimers := 0;
    }

    /** `requestTick`: set a timer unless one is already pending. */
    method RequestTick()
      requires Valid()
      modifies this`ticking, this`pendingTimers
      ensures Valid()
      ensures ticking
      ensures old(ticking) ==> pendingTimers == old(pendingTimers)
    {
      if !ticking {
        ticking := true;
        pendingTimers := pendingTimers + 1;
      }
    }

    /** The pending timer fires: clear the flag, then run `updatePositions`. */
    method FireTick(sqrt: real -> real)
      requires Valid() && ticking
      modifies packer`allCircles, this`ticking, this`pendingTimers, this`prevPositions, this`outbox
      ensures Valid()
      ensures packer.allCircles
                == Steps(old(packer.allCircles), packer.desiredTarget, packer.bounds, sqrt, IterationsPerUpdate)
      ensures outbox == old(outbox) + [Positions(Records(packer.allCircles))]
      ensures ticking == (DriftOf(Records(packer.allCircles), old(prevPositions), sqrt) > RestThreshold)
      ensures prevPositions == Keyed(Records(packer.allCircles))
    {
      ticking := false;
      pendingTimers := pendingTimers - 1;
      Tick(sqrt);
    }

    /** The loop at the start of `updatePositions`: `ITERATIONS_PER_UPDATE` relaxation steps. */
    method Advance(sqrt: real -> real)
      modifies packer`allCircles
      ensures packer.allCircles
                == Steps(old(packer.allCircles), packer.desiredTarget, packer.bounds, sqrt, IterationsPerUpdate)
    {
      for i := 0 to IterationsPerUpdate
        invariant packer.allCircles == Steps(old(packer.allCircles), packer.desiredTarget, packer.bounds, sqrt, i)
      {
        packer.UpdatePositions(sqrt);
      }
    }

    /**
     * The module-level `updatePositions`: advance the simulation, report every position, and
     * set a new timer when the circles moved more than the rest threshold in total.
     */
    method Tick(sqrt: real -> real)
      requires Valid()
      modifies packer`allCircles, this`ticking, this`pendingTimers, this`prevPositions, this`outbox
      ensures Valid()
      ensures packer.allCircles
                == Steps(old(packer.allCircles), packer.desiredTarget, packer.bounds, sqrt, IterationsPerUpdate)
      ensures outbox == old(outbox) + [Positions(Records(packer.allCircles))]
      ensures ticking == (old(ticking) || DriftOf(Records(packer.allCircles), old(prevPositions), sqrt) > RestThreshold)
      ensures prevPositions == Keyed(Records(packer.allCircles))
    {
      Advance(sqrt);
      var updatedPositions := Records(packer.allCircles);
      outbox := outbox + [Positions(updatedPositions)];
      var diffAmt := TotalDrift(updatedPositions, prevPositions, sqrt);
      if diffAmt > RestThreshold {
        RequestTick();
      }
      prevPositions := Keyed(updatedPositions);
    }

    /** `handleMessage`: `setDimensions` and `addNode` change the engine and request a tick; anything else is ignored. */
    method HandleMessage(command: WorkerCommand)
      requires Valid()
      modifies packer`allCircles, packer`bounds, packer`desiredTarget, this`ticking, this`pendingTimers
      ensures Valid()
      ensures command.SetDimensions? ==>
                && packer.bounds == Bounds(0.0, 0.0, command.width, command.height)
                && packer.desiredTarget == Vector(command.width / 2.0, command.height / 3.0)
                && packer.allCircles == old(packer.allCircles)
                && ticking
      ensures command.AddNode? ==>
                && packer.allCircles == old(packer.allCircles)
                     + [NewPackedCircle(command.id, command.radius, command.x, command.y).(targetPosition := packer.desiredTarget)]
                && packer.bounds == old(packer.bounds)
                && packer.desiredTarget == old(packer.desiredTarget)
                && ticking
      ensures !command.SetDimensions? && !command.AddNode? ==>
                && packer.allCircles == old(packer.allCircles)
                && packer.bounds == old(packer.bounds)
                && packer.desiredTarget == old(packer.desiredTarget)
                && ticking == old(ticking)
                && pendingTimers == old(pendingTimers)
    {
      match command {
        case SetDimensions(width, height) =>
          packer.SetBounds(BoundsUpdate(Some(0.0), Some(0.0), Some(width), Some(height)));
          RequestTick();
        case AddNode(id, radius, x, y) =>
          packer.AddCircle(NewPackedCircle(id, radius, x, y));
          RequestTick();
        case _ =>
      }
    }
  }
}
