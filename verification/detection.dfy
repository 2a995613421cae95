/**
  One frame's detection outcome in `onCameraFrame`. The pixel work (colour
  conversion, thresholding, morphology, contour extraction, the circular table
  mask and the minimum enclosing circle) is done by OpenCV; here it is an
  oracle whose results arrive in a `Frame`: for every table contour its area
  and bounding rectangle, and for every ball contour (found inside the table
  disk) its area and the centre of its enclosing circle. What remains is the
  choice of contours, the table geometry and the normalisation of the ball
  position to the 1000..2000 scale of the table's bounding box.
 */
module Detection {
  import opened JavaInt
  import opened Remap
  import opened Contours

  /** The longest side of a processed frame (the camera is capped at 640x480). */
  const MaxSide: int := 640

  /** Smallest table area accepted (exclusive). */
  const MinTableArea: int := 1000

  /** Ends of the normalised position scale. */
  const PositionMin: int := 1000
  const PositionMax: int := 2000

  /** An OpenCV `Rect`: top-left corner and size. */
  datatype Rect = Rect(x: int, y: int, width: int, height: int)

  datatype TableContour = TableContour(area: int, bounds: Rect)

  datatype BallContour = BallContour(area: int, centerX: real, centerY: real)

  /** What OpenCV reports about one frame. */
  datatype Frame = Frame(tables: seq<TableContour>, balls: seq<BallContour>)

  predicate InFrame(b: Rect) {
    && 0 <= b.x && 0 <= b.width && b.x + b.width <= MaxSide
    && 0 <= b.y && 0 <= b.height && b.y + b.height <= MaxSide
  }

  predicate InFrameReal(c: real) {
    0.0 <= c <= MaxSide as real
  }

  /** Rectangles and circle centres lie inside a frame of at most 640 pixels a
      side, as they do for anything OpenCV finds in the camera image. */
  predicate FrameSized(f: Frame) {
    && (forall i :: 0 <= i < |f.tables| ==> InFrame(f.tables[i].bounds))
    && (forall j :: 0 <= j < |f.balls| ==> InFrameReal(f.balls[j].centerX) && InFrameReal(f.balls[j].centerY))
  }

  function TableAreas(ts: seq<TableContour>): (areas: seq<int>)
    ensures |areas| == |ts| && forall i :: 0 <= i < |ts| ==> areas[i] == ts[i].area
  {
    seq(|ts|, i requires 0 <= i < |ts| => ts[i].area)
  }

  function BallAreas(bs: seq<BallContour>): (areas: seq<int>)
    ensures |areas| == |bs| && forall j :: 0 <= j < |bs| ==> areas[j] == bs[j].area
  {
    seq(|bs|, j requires 0 <= j < |bs| => bs[j].area)
  }

  /** The table's centre (integer pixel) and radius estimate. */
  datatype Table = Table(bounds: Rect, centerX: int, centerY: int, radius: int)

  /** Table geometry from its bounding rectangle: the centre is the midpoint of
      the top-left and bottom-right corners, rounded down, and the radius is half
      the mean of width and height, rounded down. */
  function TableGeometry(b: Rect): (t: Table)
    requires InFrame(b)
    ensures t.bounds == b
    ensures 2 * t.centerX <= 2 * b.x + b.width <= 2 * t.centerX + 1
    ensures 2 * t.centerY <= 2 * b.y + b.height <= 2 * t.centerY + 1
    ensures 0 <= 4 * t.radius <= b.height + b.width < 4 * t.radius + 4
  {
    DivNonNeg(b.height + b.width, 4);
    var cx := Trunc((b.x as real + (b.x + b.width) as real) / 2.0);
    var cy := Trunc((b.y as real + (b.y + b.height) as real) / 2.0);
    Table(b, cx, cy, Div(b.height + b.width, 4))
  }

  /** The ball centre's offset from the table centre, cast to whole pixels. */
  function Offset(c: real, center: int): (d: int)
    // the signed pixel distance, with the fraction dropped toward zero
    ensures center as real <= c ==> 0 <= d && d as real <= c - center as real < d as real + 1.0
    ensures c < center as real ==> d <= 0 && d as real - 1.0 < c - center as real <= d as real
  {
    Trunc(c - center as real)
  }

  /** The ball position on the 1000..2000 scale, or why there is none: the
      offset from the table centre is re-mapped from [-width/2, width/2] (and
      likewise for height) with Java integer division, and must land in
      [1000, 2000] on both axes. A bounding box less than 2 pixels wide or high
      makes `map` divide by zero; the exception aborts the frame. */
  function Locate(b: Rect, cx: real, cy: real): (o: Outcome)
    requires InFrame(b) && InFrameReal(cx) && InFrameReal(cy)
    ensures o.ProcessingFault? || o.WrongBallPosition? || o.Located?
    ensures o.ProcessingFault? <==> b.width < 2 || b.height < 2
    ensures o.Located? ==> PositionMin <= o.x <= PositionMax && PositionMin <= o.y <= PositionMax
    ensures !o.ProcessingFault? ==>
      var t := TableGeometry(b);
      (o.Located? <==> && -(b.width / 2) <= Offset(cx, t.centerX) <= b.width / 2
                       && -(b.height / 2) <= Offset(cy, t.centerY) <= b.height / 2)
    // a located ball sits at the mapped offsets of its centre on both axes
    ensures o.Located? ==>
      var t := TableGeometry(b);
      && o.x == MapAxis(Offset(cx, t.centerX), b.width)
      && o.y == MapAxis(Offset(cy, t.centerY), b.height)
  {
    var t := TableGeometry(b);
    DivNeg(b.width, 2);
    DivNeg(b.height, 2);
    if Div(-b.width, 2) == Div(b.width, 2) then ProcessingFault
    else if Div(-b.height, 2) == Div(b.height, 2) then ProcessingFault
    else
      var x := MapAxis(Offset(cx, t.centerX), b.width);
      var y := MapAxis(Offset(cy, t.centerY), b.height);
      if PositionMin <= x <= PositionMax && PositionMin <= y <= PositionMax then Located(x, y)
      else WrongBallPosition
  }

  /** `map(offset, -side / 2, side / 2, 1000, 2000)`; on frame-sized inputs it
      lands in [1000, 2000] exactly when the offset lies within half the side. */
  function MapAxis(offset: int, side: int): (p: int)
    requires 2 <= side <= MaxSide && -MaxSide <= offset <= MaxSide
    // it is `map` over the half-side window, with no 32-bit overflow on the way
    ensures && Representable(offset, -(side / 2), side / 2, PositionMin, PositionMax)
            && p == Map(offset, -(side / 2), side / 2, PositionMin, PositionMax)
    ensures PositionMin <= p <= PositionMax <==> -(side / 2) <= offset <= side / 2
  {
    DivNeg(side, 2);
    DivNonNeg(side, 2);
    var inMin, inMax := Div(-side, 2), Div(side, 2);
    var n := (offset - inMin) * (PositionMax - PositionMin);
    DivMagnitude(n, inMax - inMin);
    MapInsideIff(offset, inMin, inMax, PositionMin, PositionMax);
    Map(offset, inMin, inMax, PositionMin, PositionMax)
  }

  /** A ball centred on the table maps to the middle of the scale on either axis. */
  lemma CentredMapsToMiddle(side: int)
    requires 2 <= side <= MaxSide
    ensures MapAxis(0, side) == (PositionMin + PositionMax) / 2
  {
    var h := side / 2;
    DivExact(500, 2 * h);
    assert (0 - -h) * (PositionMax - PositionMin) == 500 * (2 * h);
  }

  /** How a frame ended: one of the five failures the overlay reports, a ball
      position, or an exception that aborted the frame. */
  datatype Outcome =
    | TableNotFound
    | TableTooSmall
    | BallNotFound
    | WrongBallSize
    | WrongBallPosition
    | Located(x: int, y: int)
    | ProcessingFault

  /** Some table contour is large enough. */
  predicate TableLargeEnough(f: Frame) {
    exists i :: 0 <= i < |f.tables| && f.tables[i].area > MinTableArea
  }

  /** Some ball contour's area lies in the window set by the largest table
      contour. */
  predicate BallInWindow(f: Frame) {
    exists j :: 0 <= j < |f.balls| && InBallWindow(f.balls[j].area, SelectTable(TableAreas(f.tables)).maxArea)
  }

  /** The decision chain of `onCameraFrame`: no table contour, a largest table
      contour of 1000 pixels or less, no ball contour, no ball contour inside
      the area window, the ball outside the table's box, or its position. */
  function Detect(f: Frame): (o: Outcome)
    requires FrameSized(f)
    ensures o.TableNotFound? <==> |f.tables| == 0
    ensures o.TableTooSmall? <==> |f.tables| > 0 && !TableLargeEnough(f)
    ensures o.BallNotFound? <==> TableLargeEnough(f) && |f.balls| == 0
    ensures o.WrongBallSize? <==>
      && TableLargeEnough(f) && |f.balls| > 0
      && forall j :: 0 <= j < |f.balls|
           ==> !InBallWindow(f.balls[j].area, SelectTable(TableAreas(f.tables)).maxArea)
    ensures o.Located? || o.WrongBallPosition? || o.ProcessingFault? <==>
      TableLargeEnough(f) && BallInWindow(f)
    ensures o.Located? ==> PositionMin <= o.x <= PositionMax && PositionMin <= o.y <= PositionMax
    // once a ball lies in the window, the outcome is the position check of the
    // chosen table's box against the chosen ball's centre
    ensures TableLargeEnough(f) && BallInWindow(f) ==>
      var t := SelectTable(TableAreas(f.tables));
      var b := SelectBall(BallAreas(f.balls), t.maxArea);
      && 0 <= t.index < |f.tables| && 0 <= b < |f.balls|
      && o == Locate(f.tables[t.index].bounds, f.balls[b].centerX, f.balls[b].centerY)
  {
    if |f.tables| == 0 then TableNotFound
    else
      var table := SelectTable(TableAreas(f.tables));
      if table.maxArea <= MinTableArea then TableTooSmall
      else if |f.balls| == 0 then BallNotFound
      else
        var ball := SelectBall(BallAreas(f.balls), table.maxArea);
        if ball < 0 then WrongBallSize
        else
          Locate(f.tables[table.index].bounds, f.balls[ball].centerX, f.balls[ball].centerY)
  }
}
