/**
  Choosing the table and the ball among the contours OpenCV found. Both are a
  single left-to-right scan keeping the largest area seen so far and replacing
  it only on a strictly larger one, so the earliest of equal areas wins. The
  areas are the `(int)`-cast results of `Imgproc.contourArea`.
 */
module Contours {
  import opened JavaInt

  /** The table scan's result: the largest area (0 if none is positive) and
      the index holding it (0 if none is positive). */
  datatype TableChoice = TableChoice(maxArea: int, index: int)

  /** After scanning `areas[..i]`, `best` is the largest of 0 and those areas
      and `index` the first place it occurs, or 0 while nothing was positive. */
  ghost predicate TableScanned(areas: seq<int>, i: int, best: int, index: int)
    requires 0 <= i <= |areas|
  {
    && 0 <= best
    && (forall j :: 0 <= j < i ==> areas[j] <= best)
    && (best == 0 ==> index == 0)
    && (best > 0 ==> 0 <= index < i && areas[index] == best
                     && forall j :: 0 <= j < index ==> areas[j] < best)
  }

  /** The loop of `onCameraFrame` over the table contours, from contour `i` on. */
  function ScanTable(areas: seq<int>, i: int, best: int, index: int): (r: TableChoice)
    requires 0 <= i <= |areas|
    requires TableScanned(areas, i, best, index)
    ensures TableScanned(areas, |areas|, r.maxArea, r.index)
    decreases |areas| - i
  {
    if i == |areas| then TableChoice(best, index)
    else if areas[i] > best then ScanTable(areas, i + 1, areas[i], i)
    else ScanTable(areas, i + 1, best, index)
  }

  /** The table contour: the first one of largest area; the area is 0 and the
      index 0 when no area is positive. */
  function SelectTable(areas: seq<int>): (r: TableChoice)
    ensures 0 <= r.maxArea
    ensures forall j :: 0 <= j < |areas| ==> areas[j] <= r.maxArea
    ensures r.maxArea == 0 ==> r.index == 0
    ensures r.maxArea > 0 ==> 0 <= r.index < |areas| && areas[r.index] == r.maxArea
    ensures r.maxArea > 0 ==> forall j :: 0 <= j < r.index ==> areas[j] < r.maxArea
  {
    ScanTable(areas, 0, 0, 0)
  }

  /** The contract of `SelectTable` leaves no choice: any two results meeting
      it are equal. */
  lemma TableChoiceUnique(areas: seq<int>, r1: TableChoice, r2: TableChoice)
    requires TableScanned(areas, |areas|, r1.maxArea, r1.index)
    requires TableScanned(areas, |areas|, r2.maxArea, r2.index)
    ensures r1 == r2
  {
    if r1.maxArea > 0 {
      assert areas[r1.index] <= r2.maxArea;
    }
    if r2.maxArea > 0 {
      assert areas[r2.index] <= r1.maxArea;
    }
  }

  /** Smallest area a ball contour must exceed. */
  const MinBallArea: int := 100

  /** A ball contour's area must lie strictly between 100 and a quarter of the
      table's area (Java integer division). */
  predicate InBallWindow(area: int, tableArea: int) {
    MinBallArea < area < Div(tableArea, 4)
  }

  /** After scanning `areas[..i]`, `index` is -1 if no area seen lies in the
      window, and otherwise the first place of the largest area in it, `best`. */
  ghost predicate BallScanned(areas: seq<int>, tableArea: int, i: int, best: int, index: int)
    requires 0 <= i <= |areas|
  {
    && (forall j :: 0 <= j < i && InBallWindow(areas[j], tableArea) ==> areas[j] <= best)
    && (index == -1 ==> best == MinBallArea
                        && forall j :: 0 <= j < i ==> !InBallWindow(areas[j], tableArea))
    && (index != -1 ==> 0 <= index < i && areas[index] == best
                        && InBallWindow(areas[index], tableArea)
                        && forall j :: 0 <= j < index && InBallWindow(areas[j], tableArea)
                                       ==> areas[j] < best)
  }

  /** The loop of `onCameraFrame` over the ball contours, from contour `i` on. */
  function ScanBall(areas: seq<int>, tableArea: int, i: int, best: int, index: int): (r: int)
    requires 0 <= i <= |areas|
    requires BallScanned(areas, tableArea, i, best, index)
    ensures -1 <= r < |areas|
    ensures r == -1 <==> forall j :: 0 <= j < |areas| ==> !InBallWindow(areas[j], tableArea)
    ensures r != -1 ==> BallScanned(areas, tableArea, |areas|, areas[r], r)
    decreases |areas| - i
  {
    if i == |areas| then index
    else if areas[i] > best && areas[i] < Div(tableArea, 4) then
      ScanBall(areas, tableArea, i + 1, areas[i], i)
    else ScanBall(areas, tableArea, i + 1, best, index)
  }

  /** The ball contour: -1 when no area lies in the window, otherwise the first
      contour of largest area inside it. */
  function SelectBall(areas: seq<int>, tableArea: int): (r: int)
    ensures -1 <= r < |areas|
    ensures r == -1 <==> forall j :: 0 <= j < |areas| ==> !InBallWindow(areas[j], tableArea)
    ensures r != -1 ==> InBallWindow(areas[r], tableArea)
    ensures r != -1 ==> forall j :: 0 <= j < |areas| && InBallWindow(areas[j], tableArea)
                                    ==> areas[j] <= areas[r]
    ensures r != -1 ==> forall j :: 0 <= j < r && InBallWindow(areas[j], tableArea)
                                    ==> areas[j] < areas[r]
  {
    ScanBall(areas, tableArea, 0, MinBallArea, -1)
  }
}
