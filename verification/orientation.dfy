/**
  Orientation correction at the start of every frame: depending on how the
  device is held (`Surface.ROTATION_*`) and on whether the front camera is in
  use, the frame is transposed and/or flipped so that the table always appears
  the same way up. OpenCV's `transpose` and `flip` are modelled by where they
  send one pixel position.
 */
module Orientation {

  /** The display rotation reported by the window manager. */
  datatype Rotation = Rotation0 | Rotation90 | Rotation180 | Rotation270

  /** `Core.transpose`, `Core.flip(.., 0)` (around the x axis: rows reversed) and
      `Core.flip(.., 1)` (around the y axis: columns reversed). */
  datatype FrameOp = Transpose | FlipRows | FlipColumns

  datatype Size = Size(rows: nat, cols: nat)

  datatype Position = Position(row: int, col: int)

  datatype Placed = Placed(size: Size, at: Position)

  predicate Inside(p: Placed) {
    0 <= p.at.row < p.size.rows && 0 <= p.at.col < p.size.cols
  }

  /** Where one operation sends a pixel, together with the frame size after it. */
  function ApplyOp(op: FrameOp, p: Placed): Placed {
    var rows, cols := p.size.rows, p.size.cols;
    match op
    case Transpose => Placed(Size(cols, rows), Position(p.at.col, p.at.row))
    case FlipRows => Placed(p.size, Position(rows - 1 - p.at.row, p.at.col))
    case FlipColumns => Placed(p.size, Position(p.at.row, cols - 1 - p.at.col))
  }

  /** Operations applied in order. */
  function ApplyOps(ops: seq<FrameOp>, p: Placed): Placed
    decreases |ops|
  {
    if |ops| == 0 then p else ApplyOps(ops[1..], ApplyOp(ops[0], p))
  }

  /** Rigid turns of a frame (by multiples of a quarter turn), defined independently of OpenCV's operations. */
  datatype Turn = Upright | Clockwise | CounterClockwise | HalfTurn

  function Turned(t: Turn, p: Placed): Placed {
    var rows, cols := p.size.rows, p.size.cols;
    match t
    case Upright => p
    case Clockwise => Placed(Size(cols, rows), Position(p.at.col, rows - 1 - p.at.row))
    case CounterClockwise => Placed(Size(cols, rows), Position(cols - 1 - p.at.col, p.at.row))
    case HalfTurn => Placed(p.size, Position(rows - 1 - p.at.row, cols - 1 - p.at.col))
  }

  function Opposite(t: Turn): Turn {
    match t
    case Upright => Upright
    case Clockwise => CounterClockwise
    case CounterClockwise => Clockwise
    case HalfTurn => HalfTurn
  }

  /** The turn each display rotation calls for; the front camera's image is
      mirrored, so for the two portrait rotations it turns the other way. */
  function CorrectionTurn(rot: Rotation, front: bool): Turn {
    match rot
    case Rotation0 => if front then CounterClockwise else Clockwise
    case Rotation90 => Upright
    case Rotation180 => if front then Clockwise else CounterClockwise
    case Rotation270 => HalfTurn
  }

  /** The operations `onCameraFrame` applies for a display rotation. They amount
      to the rigid turn `CorrectionTurn(rot, front)` on every pixel. */
  function Correction(rot: Rotation, front: bool): (ops: seq<FrameOp>)
    ensures forall p :: ApplyOps(ops, p) == Turned(CorrectionTurn(rot, front), p)
  {
    match rot
    case Rotation0 =>
      var ops := [Transpose, if front then FlipRows else FlipColumns];
      ApplyPair(ops[0], ops[1]);
      ops
    case Rotation270 =>
      ApplyPair(FlipRows, FlipColumns);
      [FlipRows, FlipColumns]
    case Rotation180 =>
      var ops := [Transpose, if front then FlipColumns else FlipRows];
      ApplyPair(ops[0], ops[1]);
      ops
    case Rotation90 => []
  }

  /** Two operations in a row. */
  lemma ApplyPair(a: FrameOp, b: FrameOp)
    ensures forall p :: ApplyOps([a, b], p) == ApplyOp(b, ApplyOp(a, p))
  {
    forall p ensures ApplyOps([a, b], p) == ApplyOp(b, ApplyOp(a, p)) {
      assert [a, b][1..] == [b];
      assert ApplyOps([a, b], p) == ApplyOps([b], ApplyOp(a, p));
      assert [b][1..] == [];
      assert ApplyOps([b], ApplyOp(a, p)) == ApplyOps([], ApplyOp(b, ApplyOp(a, p)));
    }
  }

  /** A turn keeps every pixel inside the (possibly transposed) frame and the
      opposite turn puts it back: the correction loses and duplicates nothing. */
  lemma TurnRoundTrip(t: Turn, p: Placed)
    requires Inside(p)
    ensures Inside(Turned(t, p))
    ensures Turned(Opposite(t), Turned(t, p)) == p
  {
  }

  /** For the two portrait rotations the front camera is turned the opposite
      way from the back camera; the landscape rotations ignore the camera. */
  lemma FrontCameraMirrors(rot: Rotation)
    ensures rot == Rotation0 || rot == Rotation180
        ==> CorrectionTurn(rot, true) == Opposite(CorrectionTurn(rot, false))
    ensures rot == Rotation90 || rot == Rotation270
        ==> Correction(rot, true) == Correction(rot, false)
  {
  }
}
