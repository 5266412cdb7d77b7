/**
 * The wrist-motion classifier: it turns the hand landmarks seen on
 * successive camera frames into a compass direction (from the inter-frame
 * motion of the wrist) and a boost flag (from a thumb/index pinch).
 * Coordinates are normalised image coordinates, `y` growing downward.
 */
module GestureControl {
  import opened Optional
  import opened Compass

  datatype Point = Point(x: real, y: real)

  /** The landmarks of one hand, indexed as the hand tracker numbers them. */
  type HandPose = seq<Point>

  const Wrist := 0
  const ThumbTip := 4
  const IndexTip := 8

  /** Minimum per-axis wrist travel between two frames that counts as a swipe. */
  const GestureThreshold: real := 0.05
  /** Thumb/index distance below which the hand counts as pinching. */
  const PinchThreshold: real := 0.05

  function Abs(r: real): real {
    if r < 0.0 then -r else r
  }

  /** How far the wrist moved from `from` to `to` in direction `d` (negative when it moved the other way). */
  function Travel(from: Point, to: Point, d: Direction): real {
    match d
    case Right => to.x - from.x
    case Left => from.x - to.x
    case Down => to.y - from.y
    case Up => from.y - to.y
  }

  /**
   * The swipe seen between the previous and the current wrist position.
   * Without a previous position there is none; otherwise a swipe fires
   * exactly when the wrist travelled more than the threshold in some
   * direction, and it is a direction of greatest travel, a tie between the
   * horizontal and the vertical axis going to the vertical one.
   */
  function Classify(prev: Option<Point>, cur: Point): (g: Option<Direction>)
    ensures prev.None? ==> g.None?
    ensures prev.Some? ==> (g.None? <==> forall d :: Travel(prev.value, cur, d) <= GestureThreshold)
    ensures g.Some? ==> Travel(prev.value, cur, g.value) > GestureThreshold
    ensures g.Some? ==> forall d :: Travel(prev.value, cur, d) <= Travel(prev.value, cur, g.value)
    ensures g.Some? && IsHorizontal(g.value) ==>
              forall d :: !IsHorizontal(d) ==> Travel(prev.value, cur, d) < Travel(prev.value, cur, g.value)
  {
    match prev
    case None => None
    case Some(p) =>
      var dx := cur.x - p.x;
      var dy := cur.y - p.y;
      if Abs(dx) > GestureThreshold || Abs(dy) > GestureThreshold then
        if Abs(dx) > Abs(dy) then
          (if dx > 0.0 then Some(Right) else Some(Left))
        else
          (if dy > 0.0 then Some(Down) else Some(Up))
      else
        None
  }

  function SquaredGap(a: Point, b: Point): real {
    (a.x - b.x) * (a.x - b.x) + (a.y - b.y) * (a.y - b.y)
  }

  /** `dist` is the Euclidean distance between `a` and `b`. */
  predicate IsDistance(dist: real, a: Point, b: Point) {
    0.0 <= dist && dist * dist == SquaredGap(a, b)
  }

  // Monotonicity of products, one fact per lemma and each product handed in
  // as a plain number, so that no proof below leaves the solver to relate
  // products on its own.
  lemma MulLeftAtMost(c: real, x: real, y: real, cx: real, cy: real)
    requires x <= y && 0.0 <= c
    requires cx == c * x && cy == c * y
    ensures cx <= cy
  {
  }

  lemma MulRightLess(x: real, y: real, c: real, xc: real, yc: real)
    requires x < y && 0.0 < c
    requires xc == x * c && yc == y * c
    ensures xc < yc
  {
  }

  lemma MulRightAtMost(x: real, y: real, c: real, xc: real, yc: real)
    requires x <= y && 0.0 <= c
    requires xc == x * c && yc == y * c
    ensures xc <= yc
  {
  }

  /** The ordering of two squares, with the three products handed in as plain numbers. */
  lemma SquareOrderOf(a: real, b: real, aa: real, ab: real, bb: real)
    requires 0.0 <= a && 0.0 <= b
    requires aa == a * a && ab == a * b && bb == b * b
    ensures aa < bb <==> a < b
  {
    if a < b {
      MulLeftAtMost(a, a, b, aa, ab);
      MulRightLess(a, b, b, ab, bb);
    } else {
      MulRightAtMost(b, a, b, bb, ab);
      MulLeftAtMost(a, b, a, ab, aa);
    }
  }

  lemma SquareOrder(a: real, bound: real)
    requires 0.0 <= a && 0.0 <= bound
    ensures a * a < bound * bound <==> a < bound
  {
    SquareOrderOf(a, bound, a * a, a * bound, bound * bound);
  }

  lemma SquareBelow(r: real, bound: real)
    requires 0.0 <= bound
    ensures r * r < bound * bound <==> Abs(r) < bound
  {
    var a := Abs(r);
    assert a * a == r * r;
    SquareOrder(a, bound);
  }

  /**
   * Whether thumb tip and index tip are pinched together. Only those two
   * landmarks are read; a pinch needs both coordinate gaps below the threshold.
   */
  function DetectPinch(hand: HandPose): (pinched: bool)
    requires |hand| > IndexTip
    ensures pinched ==> Abs(hand[ThumbTip].x - hand[IndexTip].x) < PinchThreshold
    ensures pinched ==> Abs(hand[ThumbTip].y - hand[IndexTip].y) < PinchThreshold
  {
    var dx := hand[ThumbTip].x - hand[IndexTip].x;
    var dy := hand[ThumbTip].y - hand[IndexTip].y;
    SquareBelow(dx, PinchThreshold);
    SquareBelow(dy, PinchThreshold);
    SquaredGap(hand[ThumbTip], hand[IndexTip]) < PinchThreshold * PinchThreshold
  }

  /** The pinch test is the distance test: thumb/index distance below 0.05. */
  lemma PinchIsCloseness(hand: HandPose, dist: real)
    requires |hand| > IndexTip
    requires IsDistance(dist, hand[ThumbTip], hand[IndexTip])
    ensures DetectPinch(hand) <==> dist < PinchThreshold
  {
    SquareBelow(dist, PinchThreshold);
  }

  /** Two hands that agree on thumb tip and index tip agree on the pinch. */
  lemma PinchReadsTipsOnly(a: HandPose, b: HandPose)
    requires |a| > IndexTip && |b| > IndexTip
    requires a[ThumbTip] == b[ThumbTip] && a[IndexTip] == b[IndexTip]
    ensures DetectPinch(a) == DetectPinch(b)
  {
  }

  /** What the classifier holds and reports after a camera frame. */
  datatype Scan = Scan(prev: Option<Point>, current: Option<Direction>, gesture: Option<Direction>, boost: bool)

  predicate AllHands(hands: seq<HandPose>) {
    forall i :: 0 <= i < |hands| ==> |hands[i]| > IndexTip
  }

  /**
   * The classifier after it has seen every hand of `hands` in order, from
   * stored wrist position `prev` and displayed direction `current`. With no
   * hand nothing changes and the frame reports no gesture and no boost.
   * Otherwise the stored position is the last hand's wrist, the boost is the
   * last hand's pinch and the gesture is the swipe from the wrist before it;
   * the displayed direction stays as it was when no hand fired a swipe and
   * otherwise becomes a swipe that some hand of the frame fired.
   */
  function ScanHands(prev: Option<Point>, current: Option<Direction>, hands: seq<HandPose>): (r: Scan)
    requires AllHands(hands)
    ensures hands == [] ==> r == Scan(prev, current, None, false)
    ensures hands != [] ==> r.prev == Some(hands[|hands| - 1][Wrist])
    ensures hands != [] ==> r.boost == DetectPinch(hands[|hands| - 1])
    ensures hands != [] ==>
              r.gesture == Classify(if |hands| == 1 then prev else Some(hands[|hands| - 2][Wrist]),
                                    hands[|hands| - 1][Wrist])
    ensures r.gesture.Some? ==> r.current == r.gesture
    ensures (forall i | 0 <= i < |hands| :: SwipeAt(prev, hands, i).None?) ==> r.current == current
    ensures r.current == current
            || exists i | 0 <= i < |hands| :: SwipeAt(prev, hands, i).Some? && r.current == SwipeAt(prev, hands, i)
  {
    if hands == [] then Scan(prev, current, None, false)
    else
      var init := hands[..|hands| - 1];
      var before := ScanHands(prev, current, init);
      var hand := hands[|hands| - 1];
      var g := Classify(before.prev, hand[Wrist]);
      assert forall i | 0 <= i < |init| :: SwipeAt(prev, init, i) == SwipeAt(prev, hands, i);
      assert g == SwipeAt(prev, hands, |hands| - 1);
      Scan(Some(hand[Wrist]), if g.Some? then g else before.current, g, DetectPinch(hand))
  }

  /** The swipe the `i`-th hand of a frame fires, measured from the wrist seen before it. */
  function SwipeAt(prev: Option<Point>, hands: seq<HandPose>, i: nat): Option<Direction>
    requires AllHands(hands) && i < |hands|
  {
    Classify(if i == 0 then prev else Some(hands[i - 1][Wrist]), hands[i][Wrist])
  }

  /** The wrist moved at most the threshold along each axis from `a` to `b`. */
  predicate Still(a: Point, b: Point) {
    Abs(b.x - a.x) <= GestureThreshold && Abs(b.y - a.y) <= GestureThreshold
  }

  /**
   * A hand that only drifts, never moving more than the threshold between
   * two observations, fires no gesture and leaves the displayed direction
   * alone, while the stored position follows it to the last wrist seen.
   */
  lemma {:induction false} DriftFiresNothing(prev: Option<Point>, current: Option<Direction>, hands: seq<HandPose>)
    requires AllHands(hands)
    requires hands != [] && prev.Some? ==> Still(prev.value, hands[0][Wrist])
    requires forall i :: 0 < i < |hands| ==> Still(hands[i - 1][Wrist], hands[i][Wrist])
    ensures ScanHands(prev, current, hands).gesture == None
    ensures ScanHands(prev, current, hands).current == current
    ensures hands != [] ==> ScanHands(prev, current, hands).prev == Some(hands[|hands| - 1][Wrist])
  {
    if hands != [] {
      var init := hands[..|hands| - 1];
      DriftFiresNothing(prev, current, init);
    }
  }

  class GestureController {
    /** The wrist position of the last hand seen; never cleared when no hand is seen. */
    var prevHandPosition: Option<Point>
    /** The last swipe that fired, shown on the camera overlay. */
    var currentDirection: Option<Direction>

    constructor ()
      ensures prevHandPosition == None && currentDirection == None
    {
      prevHandPosition := None;
      currentDirection := None;
    }

    /** Classifies the wrist motion since the last call and remembers the wrist. */
    method DetectGestures(hand: HandPose) returns (gesture: Option<Direction>)
      requires |hand| > Wrist
      modifies this`prevHandPosition
      ensures gesture == Classify(old(prevHandPosition), hand[Wrist])
      ensures prevHandPosition == Some(hand[Wrist])
    {
      var current := hand[Wrist];
      gesture := None;
      if prevHandPosition.Some? {
        var dx := current.x - prevHandPosition.value.x;
        var dy := current.y - prevHandPosition.value.y;
        if Abs(dx) > GestureThreshold || Abs(dy) > GestureThreshold {
          if Abs(dx) > Abs(dy) {
            gesture := if dx > 0.0 then Some(Right) else Some(Left);
          } else {
            gesture := if dy > 0.0 then Some(Down) else Some(Up);
          }
        }
      }
      prevHandPosition := Some(current);
    }

    /**
     * The hand part of one camera frame: every hand the tracker reports is
     * classified in turn, and the frame reports the last one's gesture and pinch.
     */
    method ProcessHands(hands: seq<HandPose>) returns (gesture: Option<Direction>, boost: bool)
      requires AllHands(hands)
      modifies this
      ensures Scan(prevHandPosition, currentDirection, gesture, boost)
              == ScanHands(old(prevHandPosition), old(currentDirection), hands)
    {
      gesture, boost := None, false;
      var i := 0;
      while i < |hands|
        invariant 0 <= i <= |hands|
        invariant Scan(prevHandPosition, currentDirection, gesture, boost)
                  == ScanHands(old(prevHandPosition), old(currentDirection), hands[..i])
      {
        assert hands[..i + 1][..i] == hands[..i];
        gesture := DetectGestures(hands[i]);
        boost := DetectPinch(hands[i]);
        if gesture.Some? {
          currentDirection := gesture;
        }
        i := i + 1;
      }
      assert hands[..|hands|] == hands;
    }
  }
}
