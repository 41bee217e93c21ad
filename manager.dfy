/**
 * `PackedCircleManager`: the mutable engine state (the list of circles, the bounds and the
 * shared target) and the operations that change it in place. Every method is proved against
 * the functions of `Packing`.
 */
module Manager {
  import opened Wrappers
  import opened Geometry
  import opened Packing

  /** The argument of `setBounds`: a field is `None` when it is absent or not a number. */
  datatype BoundsUpdate = BoundsUpdate(left: Option<real>, top: Option<real>, width: Option<real>, height: Option<real>)

  /**
   * The positions of the circles carrying `id`, in increasing order: the indices collected by
   * the `reduce` at the start of `removeCircle`.
   */
  method MatchingIndices(cs: seq<PackedCircle>, id: int) returns (indices: seq<nat>)
    ensures forall n :: 0 <= n < |indices| ==> indices[n] < |cs| && cs[indices[n]].id == id
    ensures forall n, m :: 0 <= n < m < |indices| ==> indices[n] < indices[m]
    ensures forall k :: 0 <= k < |cs| && cs[k].id == id ==> k in indices
  {
    indices := [];
    for index := 0 to |cs|
      invariant forall n :: 0 <= n < |indices| ==> indices[n] < index && cs[indices[n]].id == id
      invariant forall n, m :: 0 <= n < m < |indices| ==> indices[n] < indices[m]
      invariant forall k :: 0 <= k < index && cs[k].id == id ==> k in indices
    {
      if cs[index].id == id {
        indices := indices + [index];
      }
    }
  }

  /**
   * One splice of the reverse loop of `removeCircle`: `current` has the matches at and after `p`
   * removed, `q` is a matching index, and the circles strictly between `q` and `p` carry other
   * ids; splicing out `q` leaves the matches at and after `q` removed.
   */
  lemma SpliceStep(cs: seq<PackedCircle>, current: seq<PackedCircle>, id: int, q: nat, p: nat)
    requires q < p <= |cs|
    requires current == cs[..p] + Without(cs[p..], id)
    requires cs[q].id == id
    requires forall k :: q < k < p ==> cs[k].id != id
    ensures current[..q] + current[q + 1..] == cs[..q] + Without(cs[q..], id)
  {
    SpliceSlices(cs, current, Without(cs[p..], id), q, p);
    WithoutFromMatch(cs, id, q, p);
  }

  /** Splicing position `q` out of `cs[..p] + rest`, as sequences. */
  lemma SpliceSlices(cs: seq<PackedCircle>, current: seq<PackedCircle>, rest: seq<PackedCircle>, q: nat, p: nat)
    requires q < p <= |cs|
    requires current == cs[..p] + rest
    ensures current[..q] + current[q + 1..] == cs[..q] + (cs[q + 1..p] + rest)
  {
    assert current[..q] == cs[..q];
    assert current[q + 1..] == cs[q + 1..p] + rest;
  }

  /** From a match at `q` up to `p`, removal keeps exactly the circles strictly between them. */
  lemma WithoutFromMatch(cs: seq<PackedCircle>, id: int, q: nat, p: nat)
    requires q < p <= |cs|
    requires cs[q].id == id
    requires forall k :: q < k < p ==> cs[k].id != id
    ensures Without(cs[q..], id) == cs[q + 1..p] + Without(cs[p..], id)
  {
    var gap, tail := cs[q + 1..p], cs[p..];
    assert cs[q..] == [cs[q]] + (gap + tail);
    assert ([cs[q]] + (gap + tail))[1..] == gap + tail;
    WithoutConcat(gap, tail, id);
    assert forall k :: 0 <= k < |gap| ==> gap[k] == cs[q + 1 + k];
    WithoutAbsent(gap, id);
  }

  /** Once every match at or after `p` is removed and none lies before `p`, all are removed. */
  lemma SpliceDone(cs: seq<PackedCircle>, id: int, p: nat)
    requires p <= |cs|
    requires forall k :: 0 <= k < p ==> cs[k].id != id
    ensures cs[..p] + Without(cs[p..], id) == Without(cs, id)
  {
    var before := cs[..p];
    assert forall k :: 0 <= k < |before| ==> before[k] == cs[k];
    WithoutAbsent(before, id);
    WithoutConcat(cs[..p], cs[p..], id);
    assert cs[..p] + cs[p..] == cs;
  }

  /**
   * Between two consecutive collected indices (or before the first, or after the last) no
   * circle carries `id`.
   */
  lemma NoMatchInGap(cs: seq<PackedCircle>, id: int, indices: seq<nat>, n: nat)
    requires forall n :: 0 <= n < |indices| ==> indices[n] < |cs| && cs[indices[n]].id == id
    requires forall n, m :: 0 <= n < m < |indices| ==> indices[n] < indices[m]
    requires forall k :: 0 <= k < |cs| && cs[k].id == id ==> k in indices
    requires n <= |indices|
    ensures forall k :: (n == 0 || indices[n - 1] < k) && k < (if n == |indices| then |cs| else indices[n]) && 0 <= k
                 ==> cs[k].id != id
  {
    forall k | (n == 0 || indices[n - 1] < k) && k < (if n == |indices| then |cs| else indices[n]) && 0 <= k
      ensures cs[k].id != id
    {
      forall m | 0 <= m < |indices|
        ensures indices[m] != k
      {
        if m < n - 1 {
          assert indices[m] < indices[n - 1];
        } else if n <= m {
          assert indices[n] <= indices[m];
        }
      }
    }
  }

  class PackedCircleManager {
    var allCircles: seq<PackedCircle>
    var desiredTarget: Vector
    var bounds: Bounds

    constructor ()
      ensures allCircles == [] && desiredTarget == Vector(0.0, 0.0) && bounds == Bounds(0.0, 0.0, 0.0, 0.0)
    {
      allCircles := [];
      desiredTarget := Vector(0.0, 0.0);
      bounds := Bounds(0.0, 0.0, 0.0, 0.0);
    }

    /**
     * `setBounds`: each of left and top changes only when supplied; right and bottom are set from
     * the already updated left and top plus the supplied width and height, and kept otherwise.
     * The target becomes (width / 2, height / 3) when both are supplied.
     */
    method SetBounds(update: BoundsUpdate)
      modifies this`bounds, this`desiredTarget
      ensures bounds.left == (if update.left.Some? then update.left.value else old(bounds.left))
      ensures bounds.top == (if update.top.Some? then update.top.value else old(bounds.top))
      ensures bounds.right == (if update.width.Some? then bounds.left + update.width.value else old(bounds.right))
      ensures bounds.bottom == (if update.height.Some? then bounds.top + update.height.value else old(bounds.bottom))
      ensures update.width.Some? && update.height.Some? ==>
                desiredTarget == Vector(update.width.value / 2.0, update.height.value / 3.0)
      ensures !(update.width.Some? && update.height.Some?) ==> desiredTarget == old(desiredTarget)
    {
      if update.left.Some? {
        bounds := bounds.(left := update.left.value);
      }
      if update.top.Some? {
        bounds := bounds.(top := update.top.value);
      }
      if update.width.Some? {
        bounds := bounds.(right := bounds.left + update.width.value);
      }
      if update.height.Some? {
        bounds := bounds.(bottom := bounds.top + update.height.value);
      }
      if update.width.Some? && update.height.Some? {
        SetTarget(Vector(update.width.value / 2.0, update.height.value / 3.0));
      }
    }

    /** `setTarget`: only the shared target changes; circles already added keep their own `targetPosition`. */
    method SetTarget(position: Vector)
      modifies this`desiredTarget
      ensures desiredTarget == position
      ensures allCircles == old(allCircles)
    {
      desiredTarget := position;
    }

    /** `addCircle`: append the circle, stamped with a copy of the current target. */
    method AddCircle(circle: PackedCircle)
      modifies this`allCircles
      ensures allCircles == old(allCircles) + [circle.(targetPosition := desiredTarget)]
    {
      allCircles := allCircles + [circle.(targetPosition := desiredTarget)];
    }

    /**
     * `removeCircle`: collect the matching indices, then splice them out from the last to the
     * first, so that the indices not yet removed stay valid.
     */
    method RemoveCircle(id: int)
      modifies this`allCircles
      ensures allCircles == Without(old(allCircles), id)
    {
      ghost var cs := allCircles;
      var indicesToRemove := MatchingIndices(allCircles, id);
      var n := |indicesToRemove|;
      ghost var p := |cs|;
      while n > 0
        invariant 0 <= n <= |indicesToRemove|
        invariant p == if n == |indicesToRemove| then |cs| else indicesToRemove[n]
        invariant p <= |cs|
        invariant allCircles == cs[..p] + Without(cs[p..], id)
      {
        var q := indicesToRemove[n - 1];
        NoMatchInGap(cs, id, indicesToRemove, n);
        SpliceStep(cs, allCircles, id, q, p);
        allCircles := allCircles[..q] + allCircles[q + 1..];
        n := n - 1;
        p := q;
      }
      NoMatchInGap(cs, id, indicesToRemove, 0);
      SpliceDone(cs, id, p);
    }

    /** `updatePositions`: snapshot, centering, collisions, then the boundary of every circle. */
    method UpdatePositions(sqrt: real -> real)
      modifies this`allCircles
      ensures allCircles == Step(old(allCircles), desiredTarget, bounds, sqrt)
    {
      var circleCount := |allCircles|;
      ghost var start := allCircles;
      for i := 0 to circleCount
        invariant |allCircles| == circleCount
        invariant forall k :: 0 <= k < i ==> allCircles[k] == start[k].(previousPosition := start[k].position)
        invariant forall k :: i <= k < circleCount ==> allCircles[k] == start[k]
      {
        allCircles := allCircles[i := allCircles[i].(previousPosition := allCircles[i].position)];
      }
      assert allCircles == Snapshot(start);
      PushAllCirclesTowardTarget(desiredTarget);
      HandleCollisions(sqrt);
      ghost var collided := allCircles;
      for i := 0 to circleCount
        invariant |allCircles| == circleCount
        invariant forall k :: 0 <= k < i ==> allCircles[k] == HandleBoundary(collided[k], bounds)
        invariant forall k :: i <= k < circleCount ==> allCircles[k] == collided[k]
      {
        HandleBoundaryForCircle(i);
      }
      assert allCircles == BoundAll(collided, bounds);
    }

    /** `pushAllCirclesTowardTarget`. */
    method PushAllCirclesTowardTarget(target: Vector)
      modifies this`allCircles
      ensures allCircles == CenteringPasses(old(allCircles), target, CenteringPassCount)
    {
      var len := |allCircles|;
      for n := 0 to CenteringPassCount
        invariant allCircles == CenteringPasses(old(allCircles), target, n)
      {
        ghost var passStart := allCircles;
        for i := 0 to len
          invariant |allCircles| == len
          invariant forall k :: 0 <= k < i ==> allCircles[k] == CenterCircle(passStart[k], target)
          invariant forall k :: i <= k < len ==> allCircles[k] == passStart[k]
        {
          var c := allCircles[i];
          var v := Vector(c.position.x - target.x, c.position.y - target.y);
          v := Mul(v, CenteringDamping);
          allCircles := allCircles[i := c.(position := Vector(c.position.x - v.x, c.position.y - v.y))];
        }
        assert allCircles == CenterAll(passStart, target);
      }
    }

    /** `handleCollisions`, with no circle being dragged. */
    method HandleCollisions(sqrt: real -> real)
      modifies this`allCircles
      ensures allCircles == CollisionPasses(old(allCircles), CollisionPassCount, sqrt)
    {
      var circleCount := |allCircles|;
      for n := 0 to CollisionPassCount
        invariant allCircles == CollisionPasses(old(allCircles), n, sqrt)
        invariant |allCircles| == circleCount
      {
        ghost var passStart := allCircles;
        for i := 0 to circleCount
          invariant |allCircles| == circleCount
          invariant allCircles == Sweep(passStart, i, sqrt)
        {
          CollideRow(i, sqrt);
        }
      }
    }

    /** The loop over `j` in `handleCollisions`: resolve the pairs (i, i + 1), ..., (i, n - 1) in order. */
    method CollideRow(i: nat, sqrt: real -> real)
      requires i < |allCircles|
      modifies this`allCircles
      ensures allCircles == Row(old(allCircles), i, |old(allCircles)|, sqrt)
    {
      var circleCount := |allCircles|;
      for j := i + 1 to circleCount
        invariant |allCircles| == circleCount
        invariant allCircles == Row(old(allCircles), i, j, sqrt)
      {
        ResolveCollision(i, j, sqrt);
      }
    }

    /**
     * The body of the inner loop of `handleCollisions`: if the circles at `i` and `j` overlap,
     * move them apart along the line between their centres, each by half the missing distance.
     */
    method ResolveCollision(i: nat, j: nat, sqrt: real -> real)
      requires i < j < |allCircles|
      modifies this`allCircles
      ensures allCircles == ResolvePair(old(allCircles), i, j, sqrt)
    {
      var ci := allCircles[i];
      var cj := allCircles[j];
      var dx := cj.position.x - ci.position.x;
      var dy := cj.position.y - ci.position.y;
      var r := (ci.radius + cj.radius) * CollisionPadding;
      var d := DistanceSquared(ci.position, cj.position);
      if d < r * r - OverlapSlack {
        var v := Vector(dx, dy);
        v := Normalize(v, sqrt);
        var inverseForce := (r - sqrt(d)) * 0.5;
        v := Mul(v, inverseForce);
        allCircles := allCircles[j := cj.(position := Vector(cj.position.x + v.x, cj.position.y + v.y))];
        allCircles := allCircles[i := ci.(position := Vector(ci.position.x - v.x, ci.position.y - v.y))];
      }
    }

    /** `handleBoundaryForCircle` for the circle at index `k`. */
    method HandleBoundaryForCircle(k: nat)
      requires k < |allCircles|
      modifies this`allCircles
      ensures allCircles == old(allCircles)[k := HandleBoundary(old(allCircles)[k], bounds)]
    {
      var c := allCircles[k];
      var x := c.position.x;
      var y := c.position.y;
      var radius := c.radius;
      if x + radius >= bounds.right {
        x := bounds.right - radius;
      } else if x - radius < bounds.left {
        x := bounds.left + radius;
      }
      if y + radius > bounds.bottom {
        y := bounds.bottom - radius;
      } else if y - radius < bounds.top {
        y := bounds.top + radius;
      }
      allCircles := allCircles[k := c.(position := Vector(x, y))];
    }
  }
}
