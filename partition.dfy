/**
 * The slice-partition policy shared by verticalSlicer and
 * horizontalSlicer: the canvas extent along the sliced axis is cut into
 * bands, one per image, each as long as the remaining extent divided by the
 * number of images still to place (at least 1), until the extent or the
 * images run out.  Plan is the sequence of job descriptors the loop emits;
 * Starts and Widths are the same loop seen along the axis only, and the
 * lemmas state that the bands tile the canvas.
 */
module Partition {
  import opened Geometry

  datatype Axis = Vertical | Horizontal

  /** The arguments of one newPhotoJob call: source path, toCopy and toPlace */
  datatype Slice = Slice(path: string, toCopy: Rectangle, toPlace: Point)

  /**
   * numColsToCopy: remaining / left rounded down, raised to 1 when that
   * is 0, which happens exactly when remaining < left (StepMatchesLoop)
   */
  function Step(remaining: nat, left: nat): (s: nat)
    requires left > 0
    ensures 1 <= s
    ensures remaining >= 1 ==> s <= remaining
  {
    DivLe(remaining, left);
    if remaining < left then 1 else remaining / left
  }

  /**
   * The job for the band [pos, pos + step) along the axis, spanning
   * [0, cross) across it.  Its corners are already in order, so the
   * rectangle is the one image.Rect builds from them (BandIsRect).
   */
  function Band(axis: Axis, path: string, pos: int, step: nat, cross: nat): Slice {
    match axis
    case Vertical => Slice(path, Rectangle(Point(pos, 0), Point(pos + step, cross)), Point(pos, 0))
    case Horizontal => Slice(path, Rectangle(Point(0, pos), Point(cross, pos + step)), Point(0, pos))
  }

  /**
   * The jobs the slicer loop emits from the state (i, pos, remaining):
   * it runs while remaining > 0 and i < |list|.
   */
  function Plan(axis: Axis, list: seq<string>, i: nat, pos: int, remaining: nat, cross: nat): seq<Slice>
    requires i <= |list|
    decreases |list| - i
  {
    if remaining == 0 || i == |list| then []
    else
      var s := Step(remaining, |list| - i);
      [Band(axis, list[i], pos, s, cross)] + Plan(axis, list, i + 1, pos + s, remaining - s, cross)
  }

  /** The whole plan for a canvas of the given extent along the axis and cross extent across it */
  function SlicePlan(axis: Axis, list: seq<string>, extent: nat, cross: nat): seq<Slice> {
    Plan(axis, list, 0, 0, extent, cross)
  }

  /**
   * The same loop along the axis only: the widths it cuts when `left`
   * images are still to place and `remaining` extent is still to fill
   */
  function Widths(left: nat, remaining: nat): seq<nat>
    decreases left
  {
    if remaining == 0 || left == 0 then []
    else
      var s := Step(remaining, left);
      [s] + Widths(left - 1, remaining - s)
  }

  /** ... and the positions the cuts start at, from pos on */
  function Starts(left: nat, pos: int, remaining: nat): seq<int>
    decreases left
  {
    if remaining == 0 || left == 0 then []
    else
      var s := Step(remaining, left);
      [pos] + Starts(left - 1, pos + s, remaining - s)
  }

  /** Some cut covers coordinate t. */
  predicate Covered(starts: seq<int>, widths: seq<nat>, t: int) {
    exists k :: 0 <= k < |starts| && k < |widths| && starts[k] <= t < starts[k] + widths[k]
  }

  /** The canvas [0, W) x [0, H) seen from the axis: W is the extent for Vertical, H for Horizontal */
  function CanvasRect(axis: Axis, extent: nat, cross: nat): Rectangle {
    match axis
    case Vertical => Rect(0, 0, extent, cross)
    case Horizontal => Rect(0, 0, cross, extent)
  }

  /** Start and end of a rectangle along the sliced axis, and across it */
  function Lo(axis: Axis, r: Rectangle): int { if axis == Vertical then r.min.x else r.min.y }
  function Hi(axis: Axis, r: Rectangle): int { if axis == Vertical then r.max.x else r.max.y }
  function CrossLo(axis: Axis, r: Rectangle): int { if axis == Vertical then r.min.y else r.min.x }
  function CrossHi(axis: Axis, r: Rectangle): int { if axis == Vertical then r.max.y else r.max.x }

  /** The coordinate of a point along the axis, and across it */
  function Along(axis: Axis, p: Point): int { if axis == Vertical then p.x else p.y }
  function Across(axis: Axis, p: Point): int { if axis == Vertical then p.y else p.x }

  /** How many units along the axis a job covers */
  function Extent(axis: Axis, s: Slice): int { Hi(axis, s.toCopy) - Lo(axis, s.toCopy) }

  function Extents(axis: Axis, plan: seq<Slice>): (e: seq<int>)
    ensures |e| == |plan| && forall k :: 0 <= k < |plan| ==> e[k] == Extent(axis, plan[k])
  {
    if plan == [] then [] else [Extent(axis, plan[0])] + Extents(axis, plan[1..])
  }

  function Sum(s: seq<int>): int {
    if s == [] then 0 else s[0] + Sum(s[1..])
  }

  /** remaining / left rounded up */
  function Ceil(remaining: nat, left: nat): nat
    requires left > 0
  {
    (remaining + left - 1) / left
  }

  /** No two jobs' rectangles share a point. */
  predicate Disjoint(plan: seq<Slice>) {
    forall k, j :: 0 <= k < |plan| && 0 <= j < |plan| && k != j ==> !plan[k].toCopy.Overlaps(plan[j].toCopy)
  }

  // ----- arithmetic of one step -----

  lemma MulNonNeg(a: int, b: int)
    requires a >= 0 && b >= 0
    ensures a * b >= 0
  {
  }

  /** Division characterised by its quotient and remainder */
  lemma DivIs(a: int, d: int, q: int, r: int)
    requires d > 0 && 0 <= r < d && a == q * d + r
    ensures a / d == q && a % d == r
  {
    var q', r' := a / d, a % d;
    assert a == q' * d + r';
    assert (q - q') * d == r' - r;
    if q' < q {
      MulNonNeg(q - q' - 1, d);
      assert false;
    } else if q' > q {
      MulNonNeg(q' - q - 1, d);
      assert false;
    }
  }

  /** The quotient of naturals lies between 0 and the dividend, and is the floor */
  lemma DivLe(a: int, d: int)
    requires a >= 0 && d >= 1
    ensures 0 <= a / d <= a
    ensures (a / d) * d <= a < (a / d + 1) * d
  {
    var q, r := a / d, a % d;
    assert a == q * d + r;
    assert (q + 1) * d == q * d + d;
    if q < 0 {
      MulNonNeg(-q, d);
      assert false;
    }
    MulNonNeg(q, d - 1);
    assert q * d == q + q * (d - 1);
  }

  /** The step is the floor of remaining / left whenever that is not 0. */
  lemma StepIsFloor(remaining: nat, left: nat)
    requires 1 <= left <= remaining
    ensures Step(remaining, left) * left <= remaining < (Step(remaining, left) + 1) * left
  {
    DivLe(remaining, left);
  }

  /** Step is numColsToCopy as the slicer loops compute it: the quotient, or 1 when the quotient is 0. */
  lemma StepMatchesLoop(remaining: nat, left: nat)
    requires left > 0
    ensures Step(remaining, left) == if remaining / left == 0 then 1 else remaining / left
  {
    if remaining < left {
      DivIs(remaining, left, 0, remaining);
    } else {
      DivLe(remaining, left);
    }
  }

  /** With at least as much extent as images left, the step is the quotient. */
  lemma StepIsQuotient(remaining: nat, left: nat)
    requires 1 <= left <= remaining
    ensures Step(remaining, left) == remaining / left
  {
    DivLe(remaining, left);
  }

  /** With one image left, the step takes everything that remains. */
  lemma StepLast(remaining: nat)
    requires remaining >= 1
    ensures Step(remaining, 1) == remaining
  {
    DivIs(remaining, 1, remaining, 0);
  }

  /** When at least as much extent remains as images, the step leaves enough for every later image. */
  lemma StepLeavesEnough(remaining: nat, left: nat)
    requires 1 <= left <= remaining
    ensures remaining - Step(remaining, left) >= left - 1
  {
    var s := Step(remaining, left);
    StepIsFloor(remaining, left);
    MulNonNeg(s - 1, left - 1);
    assert (s - 1) * (left - 1) == s * left - s - left + 1;
  }

  /** With q and r the quotient and remainder by d + 1, what one step leaves divides by d to at least q. */
  lemma NextFloor(q: nat, r: nat, d: nat)
    requires d >= 1 && r <= d
    ensures q <= (q * d + r) / d
  {
    if r < d {
      DivIs(q * d + r, d, q, r);
    } else {
      assert q * d + r == (q + 1) * d;
      DivIs(q * d + r, d, q + 1, 0);
    }
  }

  /** ... and its ceiling by d is at most the ceiling of the whole by d + 1. */
  lemma NextCeil(q: nat, r: nat, d: nat)
    requires d >= 1 && r <= d
    ensures Ceil(q * d + r, d) <= Ceil(q * (d + 1) + r, d + 1)
  {
    var left := d + 1;
    if r == 0 {
      DivIs(q * d + r + d - 1, d, q, d - 1);
      DivIs(q * left + r + left - 1, left, q, left - 1);
    } else if r < d {
      DivIs(q * d + r + d - 1, d, q + 1, r - 1);
      DivIs(q * left + r + left - 1, left, q + 1, r - 1);
    } else {
      DivIs(q * d + r + d - 1, d, q + 1, d - 1);
      DivIs(q * left + r + left - 1, left, q + 1, r - 1);
    }
  }

  /**
   * One step keeps the next quotient between this one and this ceiling:
   * the arithmetic behind the balanced-extents lemma.
   */
  lemma StepNext(remaining: nat, left: nat)
    requires 2 <= left <= remaining
    ensures remaining - Step(remaining, left) >= left - 1
    ensures remaining / left <= (remaining - Step(remaining, left)) / (left - 1)
    ensures Ceil(remaining - Step(remaining, left), left - 1) <= Ceil(remaining, left)
  {
    StepLeavesEnough(remaining, left);
    StepIsQuotient(remaining, left);
    var q, r, d := remaining / left, remaining % left, left - 1;
    assert remaining == q * (d + 1) + r;
    assert remaining - q == q * d + r;
    NextFloor(q, r, d);
    NextCeil(q, r, d);
  }

  /** The ceiling is the floor, plus one when the division leaves a remainder */
  lemma CeilIs(remaining: nat, left: nat)
    requires left >= 1
    ensures Ceil(remaining, left) == remaining / left + (if remaining % left == 0 then 0 else 1)
  {
    var q, r := remaining / left, remaining % left;
    assert remaining == q * left + r;
    if r == 0 {
      DivIs(remaining + left - 1, left, q, left - 1);
    } else {
      DivIs(remaining + left - 1, left, q + 1, r - 1);
    }
  }

  lemma FloorLeCeil(remaining: nat, left: nat)
    requires left >= 1
    ensures remaining / left <= Ceil(remaining, left)
  {
    CeilIs(remaining, left);
  }

  // ----- the cuts along the axis -----

  /** One turn of the loop along the axis: the first cut, then the cuts of what is left */
  lemma {:induction false} CutsUnfold(left: nat, pos: int, remaining: nat)
    requires left >= 1 && remaining >= 1
    ensures var s := Step(remaining, left);
      && Widths(left, remaining) == [s] + Widths(left - 1, remaining - s)
      && Starts(left, pos, remaining) == [pos] + Starts(left - 1, pos + s, remaining - s)
  {
  }

  /** The loop cuts min(images left, extent left) times. */
  lemma {:induction false} CutsLength(left: nat, pos: int, remaining: nat)
    ensures |Widths(left, remaining)| == |Starts(left, pos, remaining)| == Min(left, remaining)
    decreases left
  {
    if remaining != 0 && left != 0 {
      var s := Step(remaining, left);
      CutsUnfold(left, pos, remaining);
      CutsLength(left - 1, pos + s, remaining - s);
      if left > 1 && remaining >= left {
        StepLeavesEnough(remaining, left);
      }
    }
  }

  /**
   * Cut k lies within [pos, pos + remaining), is at least one unit wide,
   * and is Step(what remains from its start, images still left) wide: the
   * floor rule of the loop.
   */
  lemma {:induction false} CutAt(left: nat, pos: int, remaining: nat, k: nat)
    requires k < |Starts(left, pos, remaining)|
    ensures k < left && k < |Widths(left, remaining)|
    ensures var start, width := Starts(left, pos, remaining)[k], Widths(left, remaining)[k];
      && pos <= start && 1 <= width && start + width <= pos + remaining
      && width == Step(pos + remaining - start, left - k)
    decreases k
  {
    var s := Step(remaining, left);
    CutsUnfold(left, pos, remaining);
    if k > 0 {
      CutAt(left - 1, pos + s, remaining - s, k - 1);
      assert (pos + s) + (remaining - s) == pos + remaining;
      assert (left - 1) - (k - 1) == left - k;
    }
  }

  /** Cut k + 1 starts where cut k ends. */
  lemma {:induction false} CutNext(left: nat, pos: int, remaining: nat, k: nat)
    requires k + 1 < |Starts(left, pos, remaining)|
    ensures k + 1 < |Widths(left, remaining)|
    ensures Starts(left, pos, remaining)[k + 1] == Starts(left, pos, remaining)[k] + Widths(left, remaining)[k]
    decreases k
  {
    var s := Step(remaining, left);
    CutsUnfold(left, pos, remaining);
    CutsLength(left, pos, remaining);
    if k == 0 {
      CutsUnfold(left - 1, pos + s, remaining - s);
    } else {
      CutNext(left - 1, pos + s, remaining - s, k - 1);
    }
  }

  /** The last cut ends at pos + remaining: the loop stops only once the extent is used up. */
  lemma {:induction false} CutLast(left: nat, pos: int, remaining: nat, k: nat)
    requires k + 1 == |Starts(left, pos, remaining)|
    ensures k < |Widths(left, remaining)|
    ensures Starts(left, pos, remaining)[k] + Widths(left, remaining)[k] == pos + remaining
    decreases k
  {
    var s := Step(remaining, left);
    CutsIndex(left, pos, remaining, k);
    if k == 0 {
      // the loop stops after this cut only when it took everything that remained
      CutsLength(left - 1, pos + s, remaining - s);
      if left == 1 {
        StepLast(remaining);
      }
    } else {
      CutLast(left - 1, pos + s, remaining - s, k - 1);
      assert (pos + s) + (remaining - s) == pos + remaining;
    }
  }

  /** A later cut starts at or after the end of an earlier one. */
  lemma {:induction false} CutsOrdered(left: nat, pos: int, remaining: nat, k: nat, j: nat)
    requires k < j < |Starts(left, pos, remaining)|
    ensures k < |Widths(left, remaining)|
    ensures Starts(left, pos, remaining)[k] + Widths(left, remaining)[k] <= Starts(left, pos, remaining)[j]
    decreases k
  {
    var s := Step(remaining, left);
    CutsUnfold(left, pos, remaining);
    if k == 0 {
      CutAt(left - 1, pos + s, remaining - s, j - 1);
    } else {
      CutsOrdered(left - 1, pos + s, remaining - s, k - 1, j - 1);
    }
  }

  /** With an image left, every point of [pos, pos + remaining) falls in some cut. */
  lemma {:induction false} CutsCover(left: nat, pos: int, remaining: nat, t: int)
    requires left >= 1
    requires pos <= t < pos + remaining
    ensures Covered(Starts(left, pos, remaining), Widths(left, remaining), t)
    decreases left
  {
    var s := Step(remaining, left);
    var starts, widths := Starts(left, pos, remaining), Widths(left, remaining);
    CutsUnfold(left, pos, remaining);
    if left == 1 {
      StepLast(remaining);
    }
    if t < pos + s {
      assert starts[0] <= t < starts[0] + widths[0];
    } else {
      var starts', widths' := Starts(left - 1, pos + s, remaining - s), Widths(left - 1, remaining - s);
      CutsCover(left - 1, pos + s, remaining - s, t);
      var k :| 0 <= k < |starts'| && k < |widths'| && starts'[k] <= t < starts'[k] + widths'[k];
      assert starts[k + 1] == starts'[k] && widths[k + 1] == widths'[k];
    }
  }

  /** With an image left (or nothing to fill), the widths add up to the whole extent. */
  lemma {:induction false} WidthsSum(left: nat, remaining: nat)
    requires left >= 1 || remaining == 0
    ensures Sum(Widths(left, remaining)) == remaining
    decreases left
  {
    if remaining != 0 {
      var s := Step(remaining, left);
      CutsUnfold(left, 0, remaining);
      var w := Widths(left, remaining);
      assert w[1..] == Widths(left - 1, remaining - s);
      if left == 1 {
        StepLast(remaining);
      }
      WidthsSum(left - 1, remaining - s);
    }
  }

  /** With at least as much extent as images, each width is between the floor and the ceiling of their quotient. */
  lemma {:induction false} WidthBounded(left: nat, remaining: nat, k: nat)
    requires 1 <= left <= remaining
    requires k < |Widths(left, remaining)|
    ensures remaining / left <= Widths(left, remaining)[k] <= Ceil(remaining, left)
    decreases k
  {
    var s := Step(remaining, left);
    var tail := Widths(left - 1, remaining - s);
    assert Widths(left, remaining) == [s] + tail;
    StepIsQuotient(remaining, left);
    FloorLeCeil(remaining, left);
    if k > 0 {
      StepNext(remaining, left);
      WidthBounded(left - 1, remaining - s, k - 1);
      assert Widths(left, remaining)[k] == tail[k - 1];
    }
  }

  /** With at least as much extent as images, each width is at most the next one. */
  lemma {:induction false} WidthMonotone(left: nat, remaining: nat, k: nat)
    requires 1 <= left <= remaining
    requires k + 1 < |Widths(left, remaining)|
    ensures Widths(left, remaining)[k] <= Widths(left, remaining)[k + 1]
    decreases k
  {
    var s := Step(remaining, left);
    var tail := Widths(left - 1, remaining - s);
    assert Widths(left, remaining) == [s] + tail;
    assert |tail| >= 1;
    StepIsQuotient(remaining, left);
    StepNext(remaining, left);
    if k == 0 {
      WidthBounded(left - 1, remaining - s, 0);
    } else {
      WidthMonotone(left - 1, remaining - s, k - 1);
    }
  }

  // ----- the plan, by induction on the loop -----

  /** The shape of one band */
  lemma BandShape(axis: Axis, path: string, pos: int, step: nat, cross: nat)
    ensures var b := Band(axis, path, pos, step, cross);
      && b.path == path && b.toCopy.Canonical()
      && Lo(axis, b.toCopy) == pos && Hi(axis, b.toCopy) == pos + step
      && CrossLo(axis, b.toCopy) == 0 && CrossHi(axis, b.toCopy) == cross
      && b.toPlace == b.toCopy.min
  {
  }

  /** A band is what newPhotoJob receives in the slicer loops: image.Rect of the band's corners and the band's first corner. */
  lemma BandIsRect(axis: Axis, path: string, pos: int, step: nat, cross: nat)
    ensures axis == Vertical ==> Band(axis, path, pos, step, cross) == Slice(path, Rect(pos, 0, pos + step, cross), Pt(pos, 0))
    ensures axis == Horizontal ==> Band(axis, path, pos, step, cross) == Slice(path, Rect(0, pos, cross, pos + step), Pt(0, pos))
  {
  }

  /** One turn of the slicer loop: the plan from image i is image i's band followed by the plan from image i + 1. */
  lemma {:induction false} PlanHead(axis: Axis, list: seq<string>, i: nat, pos: int, remaining: nat, cross: nat)
    requires i < |list| && remaining > 0
    ensures var s := Step(remaining, |list| - i);
      Plan(axis, list, i, pos, remaining, cross)
      == [Band(axis, list[i], pos, s, cross)] + Plan(axis, list, i + 1, pos + s, remaining - s, cross)
  {
  }

  /** The loop emits min(images left, extent left) jobs. */
  lemma {:induction false} PlanLength(axis: Axis, list: seq<string>, i: nat, pos: int, remaining: nat, cross: nat)
    requires i <= |list|
    ensures |Plan(axis, list, i, pos, remaining, cross)| == Min(|list| - i, remaining)
    decreases |list| - i
  {
    if remaining != 0 && i != |list| {
      var left := |list| - i;
      var s := Step(remaining, left);
      PlanLength(axis, list, i + 1, pos + s, remaining - s, cross);
      if left > 1 && remaining >= left {
        StepLeavesEnough(remaining, left);
      }
    }
  }

  /** Job k of the plan from image i: image i's band first, then job k - 1 of the plan from image i + 1 */
  lemma {:induction false} PlanIndex(axis: Axis, list: seq<string>, i: nat, pos: int, remaining: nat, cross: nat, k: nat)
    requires i <= |list|
    requires k < |Plan(axis, list, i, pos, remaining, cross)|
    ensures i < |list| && remaining > 0
    ensures var s := Step(remaining, |list| - i);
      var plan := Plan(axis, list, i, pos, remaining, cross);
      var tail := Plan(axis, list, i + 1, pos + s, remaining - s, cross);
      && |plan| == |tail| + 1
      && (k == 0 ==> plan[k] == Band(axis, list[i], pos, s, cross))
      && (k > 0 ==> plan[k] == tail[k - 1])
  {
  }

  /** Cut k: the first cut, or cut k - 1 of what is left after it */
  lemma {:induction false} CutsIndex(left: nat, pos: int, remaining: nat, k: nat)
    requires left >= 1 && remaining >= 1
    ensures var s := Step(remaining, left);
      var starts, widths := Starts(left, pos, remaining), Widths(left, remaining);
      var starts', widths' := Starts(left - 1, pos + s, remaining - s), Widths(left - 1, remaining - s);
      && |starts| == |starts'| + 1 && |widths| == |widths'| + 1
      && (k == 0 ==> starts[k] == pos && widths[k] == s)
      && (0 < k < |starts| ==> starts[k] == starts'[k - 1])
      && (0 < k < |widths| ==> widths[k] == widths'[k - 1])
  {
  }

  /** CutsIndex with the images left written as n - i, as the plan counts them */
  lemma {:induction false} CutsIndexFrom(n: nat, i: nat, pos: int, remaining: nat, k: nat)
    requires i < n && remaining >= 1
    ensures var s := Step(remaining, n - i);
      var starts, widths := Starts(n - i, pos, remaining), Widths(n - i, remaining);
      var starts', widths' := Starts(n - (i + 1), pos + s, remaining - s), Widths(n - (i + 1), remaining - s);
      && |starts| == |starts'| + 1 && |widths| == |widths'| + 1
      && (k == 0 ==> starts[k] == pos && widths[k] == s)
      && (0 < k < |starts| ==> starts[k] == starts'[k - 1])
      && (0 < k < |widths| ==> widths[k] == widths'[k - 1])
  {
    CutsIndex(n - i, pos, remaining, k);
    assert n - (i + 1) == n - i - 1;
  }

  /** Job k of the plan from image i is the band of image i + k over cut k. */
  lemma {:induction false} PlanAt(axis: Axis, list: seq<string>, i: nat, pos: int, remaining: nat, cross: nat, k: nat)
    requires i <= |list|
    requires k < |Plan(axis, list, i, pos, remaining, cross)|
    ensures i + k < |list|
    ensures k < |Starts(|list| - i, pos, remaining)| && k < |Widths(|list| - i, remaining)|
    ensures Plan(axis, list, i, pos, remaining, cross)[k]
      == Band(axis, list[i + k], Starts(|list| - i, pos, remaining)[k], Widths(|list| - i, remaining)[k], cross)
    decreases k
  {
    var s := Step(remaining, |list| - i);
    PlanIndex(axis, list, i, pos, remaining, cross, k);
    CutsIndexFrom(|list|, i, pos, remaining, k);
    if k > 0 {
      PlanAt(axis, list, i + 1, pos + s, remaining - s, cross, k - 1);
      assert (i + 1) + (k - 1) == i + k;
    }
  }

  /** Job k of a whole plan, from its cut */
  lemma {:induction false} SlicePlanAt(axis: Axis, list: seq<string>, extent: nat, cross: nat, k: nat)
    requires k < |SlicePlan(axis, list, extent, cross)|
    ensures k < |list| && k < |Starts(|list|, 0, extent)| && k < |Widths(|list|, extent)|
    ensures var b := SlicePlan(axis, list, extent, cross)[k];
      var start, width := Starts(|list|, 0, extent)[k], Widths(|list|, extent)[k];
      && b.path == list[k] && b.toCopy.Canonical() && b.toPlace == b.toCopy.min
      && Lo(axis, b.toCopy) == start && Hi(axis, b.toCopy) == start + width && Extent(axis, b) == width
      && CrossLo(axis, b.toCopy) == 0 && CrossHi(axis, b.toCopy) == cross
  {
    PlanAt(axis, list, 0, 0, extent, cross, k);
    BandShape(axis, list[k], Starts(|list|, 0, extent)[k], Widths(|list|, extent)[k], cross);
  }

  /** With no more extent left than images, each cut takes a single unit. */
  lemma UnitStep(remaining: nat, left: nat)
    requires 1 <= remaining <= left
    ensures Step(remaining, left) == 1
  {
    if remaining == left {
      DivIs(remaining, left, 1, 0);
    }
  }

  /** With no more extent than images, cut k starts k units in and is one unit wide. */
  lemma {:induction false} UnitCuts(left: nat, pos: int, remaining: nat, k: nat)
    requires remaining <= left && k < remaining
    ensures k < |Starts(left, pos, remaining)| && k < |Widths(left, remaining)|
    ensures Starts(left, pos, remaining)[k] == pos + k && Widths(left, remaining)[k] == 1
    decreases k
  {
    UnitStep(remaining, left);
    CutsIndex(left, pos, remaining, k);
    if k > 0 {
      UnitCuts(left - 1, pos + 1, remaining - 1, k - 1);
    }
  }

  // ----- the properties of a whole plan -----

  /**
   * A slicer over N >= 1 paths and an extent E emits min(N, E) jobs; job k
   * uses list[k] (so when N > E the last N - E paths get no job); every job
   * is at least one unit long, with length Step(extent left, images left),
   * lies within [0, E) along the axis, spans the whole cross extent and is
   * placed at its own minimum corner.
   */
  lemma SlicePlanJobs(axis: Axis, list: seq<string>, extent: nat, cross: nat)
    requires |list| >= 1
    ensures var plan := SlicePlan(axis, list, extent, cross);
      && |plan| == Min(|list|, extent)
      && (forall k :: 0 <= k < |plan| ==>
            && plan[k].path == list[k]
            && 0 <= Lo(axis, plan[k].toCopy) < Hi(axis, plan[k].toCopy) <= extent
            && Extent(axis, plan[k]) == Step(extent - Lo(axis, plan[k].toCopy), |list| - k)
            && CrossLo(axis, plan[k].toCopy) == 0 && CrossHi(axis, plan[k].toCopy) == cross
            && plan[k].toPlace == plan[k].toCopy.min)
  {
    var plan := SlicePlan(axis, list, extent, cross);
    PlanLength(axis, list, 0, 0, extent, cross);
    forall k | 0 <= k < |plan|
      ensures && plan[k].path == list[k]
              && 0 <= Lo(axis, plan[k].toCopy) < Hi(axis, plan[k].toCopy) <= extent
              && Extent(axis, plan[k]) == Step(extent - Lo(axis, plan[k].toCopy), |list| - k)
              && CrossLo(axis, plan[k].toCopy) == 0 && CrossHi(axis, plan[k].toCopy) == cross
              && plan[k].toPlace == plan[k].toCopy.min
    {
      SlicePlanAt(axis, list, extent, cross, k);
      CutAt(|list|, 0, extent, k);
    }
  }

  /** The first job starts at 0 and the last one ends at E. */
  lemma SlicePlanEnds(axis: Axis, list: seq<string>, extent: nat, cross: nat)
    ensures var plan := SlicePlan(axis, list, extent, cross);
      |plan| > 0 ==> Lo(axis, plan[0].toCopy) == 0 && Hi(axis, plan[|plan| - 1].toCopy) == extent
  {
    var plan := SlicePlan(axis, list, extent, cross);
    if |plan| > 0 {
      var n := |plan| - 1;
      PlanLength(axis, list, 0, 0, extent, cross);
      CutsLength(|list|, 0, extent);
      SlicePlanAt(axis, list, extent, cross, 0);
      SlicePlanAt(axis, list, extent, cross, n);
      CutsIndex(|list|, 0, extent, 0);
      CutLast(|list|, 0, extent, n);
    }
  }

  /** Each job starts where the previous one ends. */
  lemma SlicePlanAdjacent(axis: Axis, list: seq<string>, extent: nat, cross: nat)
    ensures var plan := SlicePlan(axis, list, extent, cross);
      forall k :: 0 <= k < |plan| - 1 ==> Hi(axis, plan[k].toCopy) == Lo(axis, plan[k + 1].toCopy)
  {
    var plan := SlicePlan(axis, list, extent, cross);
    forall k | 0 <= k < |plan| - 1
      ensures Hi(axis, plan[k].toCopy) == Lo(axis, plan[k + 1].toCopy)
    {
      SlicePlanAt(axis, list, extent, cross, k);
      SlicePlanAt(axis, list, extent, cross, k + 1);
      CutNext(|list|, 0, extent, k);
    }
  }

  /** The extents of the jobs add up to exactly E. */
  lemma {:induction false} SlicePlanSum(axis: Axis, list: seq<string>, extent: nat, cross: nat)
    requires |list| >= 1
    ensures Sum(Extents(axis, SlicePlan(axis, list, extent, cross))) == extent
  {
    var plan := SlicePlan(axis, list, extent, cross);
    var widths := Widths(|list|, extent);
    PlanLength(axis, list, 0, 0, extent, cross);
    CutsLength(|list|, 0, extent);
    forall k | 0 <= k < |plan|
      ensures Extents(axis, plan)[k] == widths[k]
    {
      SlicePlanAt(axis, list, extent, cross, k);
    }
    assert Extents(axis, plan) == widths;
    WidthsSum(|list|, extent);
  }

  /**
   * The jobs are contiguous from 0: the first starts at 0, each starts
   * where the previous one ends, the last ends at E, and so their extents
   * add up to exactly E.
   */
  lemma {:induction false} SlicePlanContiguous(axis: Axis, list: seq<string>, extent: nat, cross: nat)
    requires |list| >= 1
    ensures var plan := SlicePlan(axis, list, extent, cross);
      && (|plan| > 0 ==> Lo(axis, plan[0].toCopy) == 0 && Hi(axis, plan[|plan| - 1].toCopy) == extent)
      && (forall k :: 0 <= k < |plan| - 1 ==> Hi(axis, plan[k].toCopy) == Lo(axis, plan[k + 1].toCopy))
      && Sum(Extents(axis, plan)) == extent
  {
    SlicePlanEnds(axis, list, extent, cross);
    SlicePlanAdjacent(axis, list, extent, cross);
    SlicePlanSum(axis, list, extent, cross);
  }

  /** The canvas seen from the axis: [0, extent) along it and [0, cross) across it */
  lemma CanvasRectShape(axis: Axis, extent: nat, cross: nat, p: Point)
    ensures CanvasRect(axis, extent, cross).Contains(p) <==> 0 <= Along(axis, p) < extent && 0 <= Across(axis, p) < cross
  {
  }

  /** A job's rectangle holds exactly the points within its band along and across the axis. */
  lemma ContainsAlongAcross(axis: Axis, r: Rectangle, p: Point)
    ensures r.Contains(p) <==> Lo(axis, r) <= Along(axis, p) < Hi(axis, r) && CrossLo(axis, r) <= Across(axis, p) < CrossHi(axis, r)
  {
  }

  /** Every job's rectangle lies inside the canvas. */
  lemma SlicePlanInside(axis: Axis, list: seq<string>, extent: nat, cross: nat)
    requires |list| >= 1
    ensures var plan := SlicePlan(axis, list, extent, cross);
      forall k, p :: 0 <= k < |plan| && plan[k].toCopy.Contains(p) ==> CanvasRect(axis, extent, cross).Contains(p)
  {
    var plan := SlicePlan(axis, list, extent, cross);
    forall k, p | 0 <= k < |plan| && plan[k].toCopy.Contains(p)
      ensures CanvasRect(axis, extent, cross).Contains(p)
    {
      SlicePlanAt(axis, list, extent, cross, k);
      CutAt(|list|, 0, extent, k);
      ContainsAlongAcross(axis, plan[k].toCopy, p);
      CanvasRectShape(axis, extent, cross, p);
    }
  }

  /** No two jobs' rectangles overlap. */
  lemma SlicePlanDisjoint(axis: Axis, list: seq<string>, extent: nat, cross: nat)
    requires |list| >= 1
    ensures Disjoint(SlicePlan(axis, list, extent, cross))
  {
    var plan := SlicePlan(axis, list, extent, cross);
    forall k, j | 0 <= k < |plan| && 0 <= j < |plan| && k != j
      ensures !plan[k].toCopy.Overlaps(plan[j].toCopy)
    {
      SlicePlanAt(axis, list, extent, cross, k);
      SlicePlanAt(axis, list, extent, cross, j);
      if k < j {
        CutsOrdered(|list|, 0, extent, k, j);
      } else {
        CutsOrdered(|list|, 0, extent, j, k);
      }
    }
  }

  /** Every canvas point lies in some job's rectangle. */
  lemma SlicePlanCovers(axis: Axis, list: seq<string>, extent: nat, cross: nat, p: Point)
    requires |list| >= 1
    requires CanvasRect(axis, extent, cross).Contains(p)
    ensures var plan := SlicePlan(axis, list, extent, cross);
      exists k :: 0 <= k < |plan| && plan[k].toCopy.Contains(p)
  {
    var plan := SlicePlan(axis, list, extent, cross);
    var starts, widths := Starts(|list|, 0, extent), Widths(|list|, extent);
    CanvasRectShape(axis, extent, cross, p);
    CutsCover(|list|, 0, extent, Along(axis, p));
    var k :| 0 <= k < |starts| && k < |widths| && starts[k] <= Along(axis, p) < starts[k] + widths[k];
    PlanLength(axis, list, 0, 0, extent, cross);
    CutsLength(|list|, 0, extent);
    SlicePlanAt(axis, list, extent, cross, k);
    ContainsAlongAcross(axis, plan[k].toCopy, p);
  }

  /** The bands of a plan with at least one pixel per image never shrink along the axis, differ by at most one, and none is thinner than the quotient. */
  lemma SlicePlanBalanced(axis: Axis, list: seq<string>, extent: nat, cross: nat)
    requires 1 <= |list| <= extent
    ensures var plan := SlicePlan(axis, list, extent, cross);
      && (forall k :: 0 <= k < |plan| - 1 ==> Extent(axis, plan[k]) <= Extent(axis, plan[k + 1]))
      && (forall k, j :: 0 <= k < |plan| && 0 <= j < |plan| ==> Extent(axis, plan[k]) - Extent(axis, plan[j]) <= 1)
      && (forall k :: 0 <= k < |plan| ==> extent / |list| <= Extent(axis, plan[k]))
  {
    var plan := SlicePlan(axis, list, extent, cross);
    CeilIs(extent, |list|);
    forall k | 0 <= k < |plan|
      ensures extent / |list| <= Extent(axis, plan[k]) <= extent / |list| + 1
    {
      SlicePlanAt(axis, list, extent, cross, k);
      WidthBounded(|list|, extent, k);
    }
    forall k | 0 <= k < |plan| - 1
      ensures Extent(axis, plan[k]) <= Extent(axis, plan[k + 1])
    {
      SlicePlanAt(axis, list, extent, cross, k);
      SlicePlanAt(axis, list, extent, cross, k + 1);
      WidthMonotone(|list|, extent, k);
    }
  }

  /** Ten columns over three images: floor division gives 3, 3 and then the remaining 4. */
  lemma SlicePlanExample(cross: nat)
    ensures Extents(Vertical, SlicePlan(Vertical, ["a", "b", "c"], 10, cross)) == [3, 3, 4]
  {
    var list := ["a", "b", "c"];
    assert Step(10, 3) == 3;
    assert Step(7, 2) == 3;
    assert Step(4, 1) == 4;
    PlanHead(Vertical, list, 0, 0, 10, cross);
    PlanHead(Vertical, list, 1, 3, 7, cross);
    PlanHead(Vertical, list, 2, 6, 4, cross);
    BandShape(Vertical, "a", 0, 3, cross);
    BandShape(Vertical, "b", 3, 3, cross);
    BandShape(Vertical, "c", 6, 4, cross);
    var plan := SlicePlan(Vertical, list, 10, cross);
    assert |plan| == 3;
  }

  /**
   * With at least as many paths as units of extent, job k is the unit band
   * [k, k + 1) taken from path k: the slicer then copies one column (or
   * row) per image, from the same position.
   */
  lemma {:induction false} SlicePlanUnitBands(axis: Axis, list: seq<string>, extent: nat, cross: nat)
    requires |list| >= extent
    ensures var plan := SlicePlan(axis, list, extent, cross);
      && |plan| == extent
      && forall k :: 0 <= k < |plan| ==>
           && plan[k].path == list[k]
           && Lo(axis, plan[k].toCopy) == k && Hi(axis, plan[k].toCopy) == k + 1
           && CrossLo(axis, plan[k].toCopy) == 0 && CrossHi(axis, plan[k].toCopy) == cross
           && plan[k].toPlace == plan[k].toCopy.min
  {
    var plan := SlicePlan(axis, list, extent, cross);
    PlanLength(axis, list, 0, 0, extent, cross);
    forall k | 0 <= k < |plan|
      ensures && plan[k].path == list[k]
              && Lo(axis, plan[k].toCopy) == k && Hi(axis, plan[k].toCopy) == k + 1
              && CrossLo(axis, plan[k].toCopy) == 0 && CrossHi(axis, plan[k].toCopy) == cross
              && plan[k].toPlace == plan[k].toCopy.min
    {
      SlicePlanAt(axis, list, extent, cross, k);
      UnitCuts(|list|, 0, extent, k);
    }
  }
}
