/**
 * The circles of the packing engine and one relaxation step of `PackedCircleManager`,
 * written as functions on values: the specification that the imperative methods of
 * `Manager.PackedCircleManager` are proved against, and the lemmas about it.
 *
 * A step is: snapshot every position into `previousPosition`, pull every circle toward
 * the shared target, push overlapping pairs apart (two sweeps over all pairs), and clamp
 * every circle into the bounds, each axis on its own.
 */
module Packing {
  import opened Geometry

  /** `PackedCircle`. `radiusSquared` and `originalRadius` are set from the radius and never read by the step. */
  datatype PackedCircle = PackedCircle(
    id: int,
    radius: real,
    radiusSquared: real,
    originalRadius: real,
    position: Vector,
    previousPosition: Vector,
    targetPosition: Vector)

  /** The manager's `bounds` rectangle. */
  datatype Bounds = Bounds(left: real, top: real, right: real, bottom: real)

  /** The damping of the centering pass (the manager's own `damping` field, 0.025, is never read). */
  const CenteringDamping: real := 0.04
  /** Circles are pushed apart as though their radii were 8% larger. */
  const CollisionPadding: real := 1.08
  /** Slack of the overlap test `d < r * r - 0.02`. */
  const OverlapSlack: real := 0.02
  /** `numberOfCenteringPasses` and `numberOfCollisionPasses` of the manager. */
  const CenteringPassCount: nat := 1
  const CollisionPassCount: nat := 2

  /**
   * `new PackedCircle(id, radius, x, y)`: at rest at `(x, y)`, with target `(0, 0)` until it is
   * added. `x` and `y` default to 0, as in the source.
   */
  function NewPackedCircle(id: int, radius: real, x: real := 0.0, y: real := 0.0): (c: PackedCircle)
    ensures c.id == id && c.radius == radius && c.originalRadius == radius
    ensures c.radiusSquared == radius * radius
    ensures c.position == Vector(x, y) && c.previousPosition == c.position
    ensures c.targetPosition == Vector(0.0, 0.0)
  {
    PackedCircle(id, radius, radius * radius, radius, Vector(x, y), Vector(x, y), Vector(0.0, 0.0))
  }

  /** `after` is `before` with possibly other positions and every other field as it was. */
  ghost predicate OnlyPositionsMoved(before: seq<PackedCircle>, after: seq<PackedCircle>) {
    |after| == |before| &&
    forall k :: 0 <= k < |before| ==> after[k] == before[k].(position := after[k].position)
  }

  // ----- Snapshot

  /** The first loop of `updatePositions`: every circle records a copy of its position. */
  function Snapshot(cs: seq<PackedCircle>): (r: seq<PackedCircle>)
    ensures |r| == |cs|
    ensures forall k :: 0 <= k < |cs| ==>
              r[k].previousPosition == cs[k].position && r[k] == cs[k].(previousPosition := r[k].previousPosition)
  {
    seq(|cs|, k requires 0 <= k < |cs| => cs[k].(previousPosition := cs[k].position))
  }

  // ----- Centering

  /** One circle's centering: the offset from the target shrinks by the factor 1 - 0.04 on each axis. */
  function CenterCircle(c: PackedCircle, target: Vector): (r: PackedCircle)
    ensures r == c.(position := r.position)
    ensures r.position.x - target.x == 0.96 * (c.position.x - target.x)
    ensures r.position.y - target.y == 0.96 * (c.position.y - target.y)
  {
    var v := Mul(Vector(c.position.x - target.x, c.position.y - target.y), CenteringDamping);
    c.(position := Vector(c.position.x - v.x, c.position.y - v.y))
  }

  function CenterAll(cs: seq<PackedCircle>, target: Vector): seq<PackedCircle> {
    seq(|cs|, k requires 0 <= k < |cs| => CenterCircle(cs[k], target))
  }

  /** `n` centering passes, each over every circle. */
  function CenteringPasses(cs: seq<PackedCircle>, target: Vector, n: nat): (r: seq<PackedCircle>)
    ensures OnlyPositionsMoved(cs, r)
  {
    if n == 0 then cs else CenterAll(CenteringPasses(cs, target, n - 1), target)
  }

  // ----- Collisions

  /** The padded centre distance `r` below which two circles count as overlapping. */
  function PaddedReach(ci: PackedCircle, cj: PackedCircle): real {
    (ci.radius + cj.radius) * CollisionPadding
  }

  predicate Overlapping(ci: PackedCircle, cj: PackedCircle) {
    var r := PaddedReach(ci, cj);
    DistanceSquared(ci.position, cj.position) < r * r - OverlapSlack
  }

  /** The push `v` applied to `cj` (and `-v` to `ci`): half the penetration depth along the unit vector from `ci` to `cj`. */
  function Correction(ci: PackedCircle, cj: PackedCircle, sqrt: real -> real): Vector {
    var dx := cj.position.x - ci.position.x;
    var dy := cj.position.y - ci.position.y;
    var r := PaddedReach(ci, cj);
    var d := DistanceSquared(ci.position, cj.position);
    Mul(Normalize(Vector(dx, dy), sqrt), (r - sqrt(d)) * 0.5)
  }

  /**
   * The body of the inner collision loop for the pair `(i, j)`: a pair that does not overlap is
   * left alone; otherwise `j` moves by the correction and `i` by exactly its negation, so the
   * pair's summed displacement is zero. Two circles at the very same point are not moved at all:
   * the vector between them is zero, and so is its normalization.
   */
  function ResolvePair(cs: seq<PackedCircle>, i: nat, j: nat, sqrt: real -> real): (r: seq<PackedCircle>)
    requires i < j < |cs|
    ensures OnlyPositionsMoved(cs, r)
    ensures forall k :: 0 <= k < |cs| && k != i && k != j ==> r[k] == cs[k]
    ensures r[i].position.x - cs[i].position.x == -(r[j].position.x - cs[j].position.x)
    ensures r[i].position.y - cs[i].position.y == -(r[j].position.y - cs[j].position.y)
    ensures !Overlapping(cs[i], cs[j]) ==> r == cs
    ensures Overlapping(cs[i], cs[j]) ==>
              r[j].position == Vector(cs[j].position.x + Correction(cs[i], cs[j], sqrt).x,
                                      cs[j].position.y + Correction(cs[i], cs[j], sqrt).y)
    ensures cs[i].position == cs[j].position ==> r == cs
  {
    var ci, cj := cs[i], cs[j];
    if Overlapping(ci, cj) then
      var v := Correction(ci, cj, sqrt);
      cs[j := cj.(position := Vector(cj.position.x + v.x, cj.position.y + v.y))]
        [i := ci.(position := Vector(ci.position.x - v.x, ci.position.y - v.y))]
    else
      cs
  }

  /** The pairs `(i, i + 1)` .. `(i, j - 1)`, in that order. */
  function Row(cs: seq<PackedCircle>, i: nat, j: nat, sqrt: real -> real): (r: seq<PackedCircle>)
    requires i < j <= |cs|
    ensures OnlyPositionsMoved(cs, r)
    decreases j
  {
    if j == i + 1 then cs else ResolvePair(Row(cs, i, j - 1, sqrt), i, j - 1, sqrt)
  }

  /** The rows of the first `i` circles, each against every later circle. */
  function Sweep(cs: seq<PackedCircle>, i: nat, sqrt: real -> real): (r: seq<PackedCircle>)
    requires i <= |cs|
    ensures OnlyPositionsMoved(cs, r)
  {
    if i == 0 then cs else Row(Sweep(cs, i - 1, sqrt), i - 1, |cs|, sqrt)
  }

  /** `n` collision passes, each over every unordered pair. */
  function CollisionPasses(cs: seq<PackedCircle>, n: nat, sqrt: real -> real): (r: seq<PackedCircle>)
    ensures OnlyPositionsMoved(cs, r)
  {
    if n == 0 then cs else Sweep(CollisionPasses(cs, n - 1, sqrt), |cs|, sqrt)
  }

  // ----- Boundary

  /** The horizontal clamp: the right edge is tested first, with `>=`. */
  function ClampX(x: real, radius: real, left: real, right: real): (r: real)
    ensures 2.0 * radius <= right - left ==> left <= r - radius && r + radius <= right
    ensures left <= x - radius && x + radius <= right ==> r == x
  {
    if x + radius >= right then right - radius
    else if x - radius < left then left + radius
    else x
  }

  /** The vertical clamp: the bottom edge is tested first, with a strict `>`. */
  function ClampY(y: real, radius: real, top: real, bottom: real): (r: real)
    ensures 2.0 * radius <= bottom - top ==> top <= r - radius && r + radius <= bottom
    ensures top <= y - radius && y + radius <= bottom ==> r == y
  {
    if y + radius > bottom then bottom - radius
    else if y - radius < top then top + radius
    else y
  }

  /** The bounds are wide and high enough for the circle. */
  predicate Fits(c: PackedCircle, b: Bounds) {
    2.0 * c.radius <= b.right - b.left && 2.0 * c.radius <= b.bottom - b.top
  }

  /** The whole circle, not only its centre, lies within the bounds. */
  predicate InBounds(c: PackedCircle, b: Bounds) {
    b.left <= c.position.x - c.radius && c.position.x + c.radius <= b.right &&
    b.top <= c.position.y - c.radius && c.position.y + c.radius <= b.bottom
  }

  /** `handleBoundaryForCircle`: clamp each axis on its own. */
  function HandleBoundary(c: PackedCircle, b: Bounds): (r: PackedCircle)
    ensures r == c.(position := r.position)
    ensures Fits(c, b) ==> InBounds(r, b)
    ensures InBounds(c, b) ==> r == c
  {
    c.(position := Vector(ClampX(c.position.x, c.radius, b.left, b.right),
                          ClampY(c.position.y, c.radius, b.top, b.bottom)))
  }

  function BoundAll(cs: seq<PackedCircle>, b: Bounds): seq<PackedCircle> {
    seq(|cs|, k requires 0 <= k < |cs| => HandleBoundary(cs[k], b))
  }

  // ----- The whole step

  /** `PackedCircleManager.updatePositions`. */
  function Step(cs: seq<PackedCircle>, target: Vector, b: Bounds, sqrt: real -> real): (r: seq<PackedCircle>)
    ensures |r| == |cs|
  {
    var centered := CenteringPasses(Snapshot(cs), target, CenteringPassCount);
    BoundAll(CollisionPasses(centered, CollisionPassCount, sqrt), b)
  }

  /** `n` consecutive steps. */
  function Steps(cs: seq<PackedCircle>, target: Vector, b: Bounds, sqrt: real -> real, n: nat): (r: seq<PackedCircle>)
    ensures |r| == |cs|
  {
    if n == 0 then cs else Step(Steps(cs, target, b, sqrt, n - 1), target, b, sqrt)
  }

  /**
   * After a step every circle has the same id, radius and target as before, and its
   * `previousPosition` is where it was before the step.
   */
  lemma StepRecordsPreviousPosition(cs: seq<PackedCircle>, target: Vector, b: Bounds, sqrt: real -> real)
    ensures |Step(cs, target, b, sqrt)| == |cs|
    ensures forall k :: 0 <= k < |cs| ==>
              Step(cs, target, b, sqrt)[k]
                == cs[k].(position := Step(cs, target, b, sqrt)[k].position, previousPosition := cs[k].position)
  {
    var snap := Snapshot(cs);
    var centered := CenteringPasses(snap, target, CenteringPassCount);
    var collided := CollisionPasses(centered, CollisionPassCount, sqrt);
    var r := BoundAll(collided, b);
    assert OnlyPositionsMoved(snap, collided) by {
      assert OnlyPositionsMoved(snap, centered);
      assert OnlyPositionsMoved(centered, collided);
    }
    forall k | 0 <= k < |cs|
      ensures r[k] == cs[k].(position := r[k].position, previousPosition := cs[k].position)
    {
      assert r[k] == collided[k].(position := r[k].position);
      assert collided[k] == snap[k].(position := collided[k].position);
    }
  }

  /**
   * Boundary containment: every circle the bounds are large enough for ends a step entirely
   * inside them, whatever the centering and collision passes did and however large the others are.
   */
  lemma StepKeepsCirclesInBounds(cs: seq<PackedCircle>, target: Vector, b: Bounds, sqrt: real -> real)
    ensures |Step(cs, target, b, sqrt)| == |cs|
    ensures forall k :: 0 <= k < |cs| && Fits(cs[k], b) ==> InBounds(Step(cs, target, b, sqrt)[k], b)
  {
    var snap := Snapshot(cs);
    var collided := CollisionPasses(CenteringPasses(snap, target, CenteringPassCount), CollisionPassCount, sqrt);
    StepRecordsPreviousPosition(cs, target, b, sqrt);
    forall k | 0 <= k < |cs| && Fits(cs[k], b)
      ensures InBounds(Step(cs, target, b, sqrt)[k], b)
    {
      assert collided[k].radius == cs[k].radius;
      assert Fits(collided[k], b);
    }
  }

  /** Steps never change ids, radii or targets: the target stamped when a circle was added stays. */
  lemma {:induction false} StepsKeepIdentity(cs: seq<PackedCircle>, target: Vector, b: Bounds, sqrt: real -> real, n: nat)
    ensures |Steps(cs, target, b, sqrt, n)| == |cs|
    ensures forall k :: 0 <= k < |cs| ==>
              var c := Steps(cs, target, b, sqrt, n)[k];
              c.id == cs[k].id && c.radius == cs[k].radius && c.targetPosition == cs[k].targetPosition
  {
    if n > 0 {
      StepsKeepIdentity(cs, target, b, sqrt, n - 1);
      StepRecordsPreviousPosition(Steps(cs, target, b, sqrt, n - 1), target, b, sqrt);
    }
  }

  /** Containment after any positive number of steps, for every circle the bounds are large enough for. */
  lemma StepsKeepCirclesInBounds(cs: seq<PackedCircle>, target: Vector, b: Bounds, sqrt: real -> real, n: nat)
    requires 0 < n
    ensures |Steps(cs, target, b, sqrt, n)| == |cs|
    ensures forall k :: 0 <= k < |cs| && Fits(cs[k], b) ==> InBounds(Steps(cs, target, b, sqrt, n)[k], b)
  {
    var before := Steps(cs, target, b, sqrt, n - 1);
    StepsKeepIdentity(cs, target, b, sqrt, n - 1);
    StepKeepsCirclesInBounds(before, target, b, sqrt);
    forall k | 0 <= k < |cs| && Fits(cs[k], b)
      ensures InBounds(Steps(cs, target, b, sqrt, n)[k], b)
    {
      assert before[k].radius == cs[k].radius;
      assert Fits(before[k], b);
    }
  }

  // ----- Conservation of the summed position by the collision passes

  /** The sum of all positions. */
  function Total(cs: seq<PackedCircle>): Vector {
    if cs == [] then Vector(0.0, 0.0)
    else Vector(cs[0].position.x + Total(cs[1..]).x, cs[0].position.y + Total(cs[1..]).y)
  }

  lemma {:induction false} TotalUpdate(cs: seq<PackedCircle>, k: nat, c: PackedCircle)
    requires k < |cs|
    ensures Total(cs[k := c]).x == Total(cs).x - cs[k].position.x + c.position.x
    ensures Total(cs[k := c]).y == Total(cs).y - cs[k].position.y + c.position.y
  {
    if k == 0 {
      assert cs[k := c][1..] == cs[1..];
    } else {
      assert cs[k := c][1..] == cs[1..][k - 1 := c];
      TotalUpdate(cs[1..], k - 1, c);
    }
  }

  lemma ResolvePairConservesTotal(cs: seq<PackedCircle>, i: nat, j: nat, sqrt: real -> real)
    requires i < j < |cs|
    ensures Total(ResolvePair(cs, i, j, sqrt)) == Total(cs)
  {
    var r := ResolvePair(cs, i, j, sqrt);
    if Overlapping(cs[i], cs[j]) {
      var mid := cs[j := r[j]];
      assert r == mid[i := r[i]];
      TotalUpdate(cs, j, r[j]);
      TotalUpdate(mid, i, r[i]);
    }
  }

  lemma {:induction false} RowConservesTotal(cs: seq<PackedCircle>, i: nat, j: nat, sqrt: real -> real)
    requires i < j <= |cs|
    ensures Total(Row(cs, i, j, sqrt)) == Total(cs)
    decreases j
  {
    if j > i + 1 {
      RowConservesTotal(cs, i, j - 1, sqrt);
      ResolvePairConservesTotal(Row(cs, i, j - 1, sqrt), i, j - 1, sqrt);
    }
  }

  lemma {:induction false} SweepConservesTotal(cs: seq<PackedCircle>, i: nat, sqrt: real -> real)
    requires i <= |cs|
    ensures Total(Sweep(cs, i, sqrt)) == Total(cs)
  {
    if i > 0 {
      SweepConservesTotal(cs, i - 1, sqrt);
      RowConservesTotal(Sweep(cs, i - 1, sqrt), i - 1, |cs|, sqrt);
    }
  }

  /** Every collision pass is momentum-neutral: the sum of all positions does not change. */
  lemma {:induction false} CollisionPassesConserveTotal(cs: seq<PackedCircle>, n: nat, sqrt: real -> real)
    ensures Total(CollisionPasses(cs, n, sqrt)) == Total(cs)
  {
    if n > 0 {
      CollisionPassesConserveTotal(cs, n - 1, sqrt);
      SweepConservesTotal(CollisionPasses(cs, n - 1, sqrt), |cs|, sqrt);
    }
  }

  // ----- Removal

  /** The circles whose id differs from `id`, in their original order. */
  function Without(cs: seq<PackedCircle>, id: int): (r: seq<PackedCircle>)
    ensures |r| <= |cs|
    ensures forall k :: 0 <= k < |r| ==> r[k].id != id
  {
    if cs == [] then []
    else if cs[0].id == id then Without(cs[1..], id)
    else [cs[0]] + Without(cs[1..], id)
  }

  /** Exactly the circles with another id remain. */
  lemma {:induction false} WithoutMembership(cs: seq<PackedCircle>, id: int, c: PackedCircle)
    ensures c in Without(cs, id) <==> c in cs && c.id != id
  {
    if cs != [] {
      WithoutMembership(cs[1..], id, c);
      assert cs == [cs[0]] + cs[1..];
    }
  }

  /** Removal distributes over concatenation, so the survivors keep their relative order. */
  lemma {:induction false} WithoutConcat(a: seq<PackedCircle>, b: seq<PackedCircle>, id: int)
    ensures Without(a + b, id) == Without(a, id) + Without(b, id)
  {
    if a != [] {
      assert (a + b)[1..] == a[1..] + b;
      WithoutConcat(a[1..], b, id);
    } else {
      assert a + b == b;
    }
  }

  /** Removing an id that no circle carries changes nothing. */
  lemma {:induction false} WithoutAbsent(cs: seq<PackedCircle>, id: int)
    requires forall k :: 0 <= k < |cs| ==> cs[k].id != id
    ensures Without(cs, id) == cs
  {
    if cs != [] {
      WithoutAbsent(cs[1..], id);
    }
  }
}
