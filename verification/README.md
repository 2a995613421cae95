# PiPo-Ballus ball tracker — Dafny model

This project models the numeric decision logic of `OpenCVHandler`, the per-frame
tracker of the PiPo-Ballus Android application. The tracker finds a round table
and a small ball in each camera frame. It reports the ball's position on a
1000..2000 scale across the table's bounding box, smoothed over time. It keeps
the last position for a grace window of five frames when the ball is briefly
lost.

OpenCV does the pixel work. The model treats it as an oracle: a `Frame` carries,
for every table contour, its (`(int)`-cast) area and bounding rectangle, and for
every ball contour found inside the table disk, its area and the centre of its
enclosing circle. Everything decided from those numbers is modelled:

- `JavaInt`: Java's truncating `int` division and the `(int)` cast of a
  `double`. Dafny's own `/` is Euclidean, so these are written out, and their
  uniqueness, sign, symmetry and monotonicity are proved.
- `Remap`: the Arduino-style `map` helper, with its endpoint, monotonicity and
  "in-between to in-between" promises. It also proves an exact acceptance
  criterion that the position check relies on.
- `ColorRanges`: the three-way hue case split of `initView`. It is used for the
  table and the ball alike. `Core.inRange` is modelled on single HSV pixels of
  the normal or the hue-rotated frame.
- `Orientation`: the transpose/flip dispatch on the display rotation. Each
  choice is proved to be a rigid rotation of the frame: a quarter turn either
  way, a half turn, or none.
- `Contours`: the largest-area scans that choose the table contour and the ball
  contour. Ties go to the earliest contour.
- `Detection`: the per-frame decision chain. It yields one outcome out of
  `TableNotFound`, `TableTooSmall`, `BallNotFound`, `WrongBallSize`,
  `WrongBallPosition`, `Located(x, y)` and `ProcessingFault`. It also computes
  the table geometry and normalises the ball position.
- `Tracker`: the persistent state (position, detected flag, `lostFrames`) and
  its per-frame `Step`. Runs of frames are proved to obey the grace window.

`ProcessingFault` is the exception path of `onCameraFrame`. Within the modelled
arithmetic, the only exception is `map` dividing by zero. That happens when the
table's bounding box is less than 2 pixels wide or high. The catch block then
returns the raw frame before the `lostFrames` bookkeeping runs, so the state is
left entirely unchanged.

The detected flag is cleared on the frame that finds `lostFrames` already at 0.
It is not cleared on the frame that brings the counter down to 0. A sighting
re-arms the counter to 5 and the same frame decrements it to 4. So the fifth
consecutive miss after a sighting is the one that clears the flag.

A note on wrap-around colour ranges. When the lower hue exceeds the upper one,
the range `[lower/2 - 90, upper/2 + 90]` is applied to a frame whose hue was
turned by 180 degrees. `ColorRanges.InvertedSelectsArcIff` shows that this
selects exactly the intended arc (lower hue up through 0 to upper hue) if and
only if `WrapEncodable` holds. That predicate essentially means the lower hue
is at least 180 degrees and the upper hue below 180 degrees.
`ColorRanges.InvertedSelection` says what the range selects in every case: the
hues from the lower hue up on the upper half of the circle, and the hues up to
the upper hue on the lower half. It never selects a hue outside the arc; it
misses the part of the arc on the wrong half. For example, lower 160 degrees
and upper 20 degrees misses hues from 160 up to 180 degrees
(`ColorRanges.WrapExample`). When the bounds are not `WrapEncodable` and the
two hues halve to values more than one half-degree apart,
`ColorRanges.NoSingleInterval` shows that no single interval on either hue axis
holds the arc. When they halve to the same or adjacent half-degrees (lower 100
and upper 99 degrees, say), the arc is the whole circle
(`ColorRanges.AdjacentIsWholeCircle`). Unless the bounds are `WrapEncodable`,
the range still misses part of it, although `[0, 179]` on the normal axis would
hold it. This assumes the idealised hue rotation described under "Left out".

## Model

| member | source | states |
|---|---|---|
| JavaInt.Div | app/src/main/java/com/fern/pipo_ballus/OpenCVHandler.java:511 | Java `int` division: the remainder is smaller than the divisor in magnitude and never has the opposite sign of the dividend (quotient rounded toward zero) |
| JavaInt.DivUnique | app/src/main/java/com/fern/pipo_ballus/OpenCVHandler.java:511 | those two properties determine the quotient, so `Div` is exactly Java's `/` |
| JavaInt.DivMonotone | app/src/main/java/com/fern/pipo_ballus/OpenCVHandler.java:511 | for a positive divisor the truncated quotient never decreases as the dividend grows |
| JavaInt.DivNeg | app/src/main/java/com/fern/pipo_ballus/OpenCVHandler.java:399 | `-width / 2` in Java is the negation of `width / 2` (unlike Euclidean division for odd widths) |
| JavaInt.Trunc | app/src/main/java/com/fern/pipo_ballus/OpenCVHandler.java:398-403 | the `(int)` cast of a double drops the fraction toward zero: within one of the value, on the side of zero |
| Remap.Map | app/src/main/java/com/fern/pipo_ballus/OpenCVHandler.java:510-512 | the result minus `out_min` is the scaled offset `(value - in_min) * (out_max - out_min)` divided by `in_max - in_min` with Java's truncation toward zero, and the result is a Java `int` |
| Remap.MapEndpoints | app/src/main/java/com/fern/pipo_ballus/OpenCVHandler.java:496-512 | `map(in_min) == out_min` and `map(in_max) == out_max` for any non-empty input range, either orientation |
| Remap.MapMonotone | app/src/main/java/com/fern/pipo_ballus/OpenCVHandler.java:496-512 | over increasing ranges `map` is monotone non-decreasing despite truncating division |
| Remap.MapWithinRange | app/src/main/java/com/fern/pipo_ballus/OpenCVHandler.java:496-512 | values in the input range map into the output range |
| Remap.MapInsideIff | app/src/main/java/com/fern/pipo_ballus/OpenCVHandler.java:510-512 | when the output range is at least as wide as the input range, the result lies in the output range if and only if the value lies in the input range |
| ColorRanges.DeriveRange | app/src/main/java/com/fern/pipo_ballus/OpenCVHandler.java:132-171 | the range is inverted exactly when the lower hue exceeds the upper hue; saturation and value bounds come from the lower and upper colour; the same rule serves table and ball |
| ColorRanges.NotInvertedSelectsArc | app/src/main/java/com/fern/pipo_ballus/OpenCVHandler.java:132-150 | equal hues select every hue, gated by saturation and value only; a lower hue below the upper selects exactly the half-degree hues between them |
| ColorRanges.WrapEncodingIff | app/src/main/java/com/fern/pipo_ballus/OpenCVHandler.java:242-266 | thresholding rotated hues against `[l - 90, u + 90]` agrees with the arc `h >= l or h <= u` on every hue if and only if `WrapEncodable(l, u)` |
| ColorRanges.InvertedSelectsArcIff | app/src/main/java/com/fern/pipo_ballus/OpenCVHandler.java:138-143 | a lower hue above the upper gives an inverted range whose selection on the hue-rotated frame is the intended wrap-around arc if and only if the bounds are `WrapEncodable` |
| ColorRanges.InvertedSelection | app/src/main/java/com/fern/pipo_ballus/OpenCVHandler.java:138-143 | for a lower hue above the upper, a half-degree hue of 90 or more is selected iff it is at least the halved lower hue, and a smaller one iff it is at most the halved upper hue; every selected hue lies in the intended arc |
| ColorRanges.WrapExample | app/src/main/java/com/fern/pipo_ballus/OpenCVHandler.java:138-143 | lower 160 and upper 20 degrees select half-degree hues 0..10 and 90..179, while the arc is 0..10 and 80..179 |
| ColorRanges.AdjacentIsWholeCircle | app/src/main/java/com/fern/pipo_ballus/OpenCVHandler.java:138-143 | halved bounds at most one apart make the wrap-around arc every hue |
| ColorRanges.NoSingleInterval | app/src/main/java/com/fern/pipo_ballus/OpenCVHandler.java:138-143 | halved bounds more than one apart and not `WrapEncodable` give an arc that no interval matches, on the normal and on the rotated hue axis alike |
| Orientation.Correction | app/src/main/java/com/fern/pipo_ballus/OpenCVHandler.java:219-234 | the transpose/flip sequence for each display rotation moves every pixel as the rigid turn `CorrectionTurn` does (clockwise, counter-clockwise, half turn or none) |
| Orientation.FrontCameraMirrors | app/src/main/java/com/fern/pipo_ballus/OpenCVHandler.java:219-234 | for rotations 0 and 180 the front camera is turned the opposite way from the back camera; rotations 90 and 270 ignore the camera |
| Contours.ScanTable | app/src/main/java/com/fern/pipo_ballus/OpenCVHandler.java:290-296 | the table loop keeps the largest area seen so far (at least 0) and the first index holding it |
| Contours.SelectTable | app/src/main/java/com/fern/pipo_ballus/OpenCVHandler.java:288-296 | the chosen area is the maximum of 0 and all areas; the index holds it and is the earliest such, and stays 0 when no area is positive |
| Contours.TableChoiceUnique | app/src/main/java/com/fern/pipo_ballus/OpenCVHandler.java:288-296 | the table choice is completely determined by that characterisation |
| Contours.ScanBall | app/src/main/java/com/fern/pipo_ballus/OpenCVHandler.java:379-385 | the ball loop returns -1 exactly when no area lies in the window, otherwise an index whose area is the largest in the window |
| Contours.SelectBall | app/src/main/java/com/fern/pipo_ballus/OpenCVHandler.java:377-388 | -1 if and only if no contour has `100 < area < tableArea / 4`; otherwise the earliest contour of largest area inside that window |
| Detection.TableGeometry | app/src/main/java/com/fern/pipo_ballus/OpenCVHandler.java:302-311 | the centre is the midpoint of the bounding rectangle's corners rounded down; the radius is half the mean of width and height rounded down |
| Detection.Offset | app/src/main/java/com/fern/pipo_ballus/OpenCVHandler.java:398-401 | the `(int)` cast of the ball centre's offset from the table centre: the signed pixel distance with its fraction dropped toward zero |
| Detection.MapAxis | app/src/main/java/com/fern/pipo_ballus/OpenCVHandler.java:398-403 | the normalised coordinate is `map(offset, -side / 2, side / 2, 1000, 2000)` with every intermediate value a Java `int`; it lies in [1000, 2000] if and only if the ball's pixel offset from the table centre is within half the box side |
| Detection.CentredMapsToMiddle | app/src/main/java/com/fern/pipo_ballus/OpenCVHandler.java:398-403 | a ball centred on the table (offset 0) maps to 1500, the middle of the scale, for every box side from 2 to 640 |
| Detection.Locate | app/src/main/java/com/fern/pipo_ballus/OpenCVHandler.java:389-407 | aborts exactly when the box is under 2 pixels wide or high; otherwise locates the ball exactly when its offset lies within the half-box on both axes, at the position `MapAxis` gives for the truncated offsets of its centre, within [1000, 2000] |
| Detection.Detect | app/src/main/java/com/fern/pipo_ballus/OpenCVHandler.java:286-407 | "table not found", "table too small", "ball not found" and "wrong ball size" each occur exactly under their condition (no table contour; none over 1000; no ball contour; none in the area window); otherwise the outcome is `Locate` applied to the chosen table contour's box and the chosen ball's centre, so "wrong ball position" and the divide-by-zero abort occur exactly as `Locate` states; a located ball is within [1000, 2000] |
| Tracker.Step | app/src/main/java/com/fern/pipo_ballus/OpenCVHandler.java:406-469 | first sighting copies the position; later ones shrink the gap to the observation by the filter factor, landing between old and observed for a filter in [0, 1]; a sighting re-arms the counter; misses touch only the counter and flag; the flag is cleared only once the counter is spent; an aborted frame changes nothing |
| Tracker.Sighting | app/src/main/java/com/fern/pipo_ballus/OpenCVHandler.java:409-434 | a valid position leaves the ball detected with the counter re-armed at 5; the first sighting copies the observation; a later one leaves `filter` times the old gap to the observation, so it lands between old and observed for a filter in [0, 1], at the observation for filter 0 and at the old position for filter 1 |
| Tracker.EndOfFrame | app/src/main/java/com/fern/pipo_ballus/OpenCVHandler.java:463-469 | the per-frame countdown never touches the position; while frames of grace remain it uses one up and keeps the flag, otherwise it clears the flag and leaves the counter |
| Tracker.BlendBetween | app/src/main/java/com/fern/pipo_ballus/OpenCVHandler.java:419-430 | the smoothed coordinate `old * f + obs * (1 - f)` with `f` in [0, 1] lies between old and observed |
| Tracker.ProcessFrame | app/src/main/java/com/fern/pipo_ballus/OpenCVHandler.java:286-469 | the frame's outcome is `Detect` and the new state is `Step` of it: a located ball leaves the state detected with 4 frames of grace, copied on a first sighting; an aborted frame changes nothing; the position changes only on a located frame; no table contour reports "table not found" |
| Tracker.MissesCountDown | app/src/main/java/com/fern/pipo_ballus/OpenCVHandler.java:463-469 | a run of misses keeps the position, counts `lostFrames` down to 0 and clears the flag exactly when misses outnumber the remaining frames of grace |
| Tracker.GraceWindow | app/src/main/java/com/fern/pipo_ballus/OpenCVHandler.java:434-469 | after a sighting the ball stays detected at the sighted position through four misses and is declared lost on the fifth consecutive miss, never earlier |
| Tracker.CounterBounded | app/src/main/java/com/fern/pipo_ballus/OpenCVHandler.java:463-469 | starting in [0, 5], `lostFrames` stays in [0, 5] and is in [0, 4] once any frame has completed |
| Tracker.FaultsChangeNothing | app/src/main/java/com/fern/pipo_ballus/OpenCVHandler.java:486-492 | frames that abort with an exception leave the tracker state untouched |
| Tracker.SmoothingExample | app/src/main/java/com/fern/pipo_ballus/OpenCVHandler.java:419-434 | with filter 0.5, old position 1500 and observation 1600 the new position is 1550 and 4 frames of grace remain |

## Left out

- OpenCV image operations are foreign calls. Their frame-level results enter only through `Frame`: the thresholded masks, erosion and dilation, `findContours`, `contourArea`, `boundingRect`, the circular table mask and `minEnclosingCircle`. The ball contours' dependence on the table disk is therefore hidden in the oracle. The per-pixel meaning of `inRange` and of the hue rotation that the RGB inversion causes is modelled in `ColorRanges` on single HSV pixels. Whole-image colour conversion, channel extraction and merge are not modelled.
- All drawing is debug output with no effect on the state and is not modelled. This covers the table rectangle, the centre mark, the P/Q/R reference points (which use `Math.sqrt`), the ball set-point circle, the ball circle and the five overlay texts. The ball radius from `minEnclosingCircle` is only drawn and is not modelled either.
- Android and camera plumbing is not modelled: the orientation query and its `scaled` caching, `setScaleY`, `resize`, the camera set-up in `initView`, and the exception log.
- The hue rotation of the RGB-inverted frame is idealised as exactly `(h + 90) % 180` in half degrees. OpenCV's 8-bit rounding of hue is not modelled.
- `HSVColor` and `PositionContainer` are not part of this model. The configured colours enter as hue in degrees (`real`, [0, 360)) with saturation and value as given integers.
- `SettingsActivity.java` and `SettingsHandler.java` are UI and JSON persistence glue. `pid.h` holds only controller constants.
- Tracker.Step: positions are `real`, so the IEEE double rounding of the smoothing filter is not captured.
- Remap.Map: requires every operand and intermediate value to be a Java `int` instead of modelling 32-bit wrap-around. `Detection.MapAxis` proves that frame-sized inputs (sides of at most 640 pixels) meet this.
- JavaInt.Trunc: NaN and the saturation of out-of-range doubles in the `(int)` cast are not modelled. All cast values here are frame-sized.
- The inverse mapping from the 1000..2000 scale back to pixels is used only to draw the set-point and ball circles, so its round trip is not modelled.
- The filter coefficient is not restricted by the source. `Tracker.Step` accepts any value and states the between-old-and-observed property only for coefficients in [0, 1].
