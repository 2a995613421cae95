/**
  The state `onCameraFrame` keeps between frames: the normalised ball position
  and its detected flag (the position container) and the count of frames the
  last sighting stays valid (`lostFrames`). A frame's outcome advances it:
  a located ball is copied in (first sighting) or blended into the old
  position (later sightings) and re-arms the counter at 5; every frame that
  completes then counts down once, and a frame that finds the counter already
  at 0 clears the detected flag. A frame aborted by an exception changes
  nothing.

  Positions are doubles in the source; they are `real` here, so the rounding
  of the blend is not modelled.
 */
module Tracker {
  import opened Detection

  /** `ALLOWED_LOST_FRAMES`. */
  const AllowedLostFrames: int := 5

  datatype TrackerState = TrackerState(x: real, y: real, detected: bool, lostFrames: int)

  /** The five outcomes after which only the overlay text differs. */
  predicate IsMiss(o: Outcome) {
    o.TableNotFound? || o.TableTooSmall? || o.BallNotFound? || o.WrongBallSize? || o.WrongBallPosition?
  }

  /** `v` lies between `a` and `b`, whichever is larger. */
  predicate Between(v: real, a: real, b: real) {
    (a <= v <= b) || (b <= v <= a)
  }

  /** A blend `a * f + b * (1 - f)` lies between `a` and `b` whenever `f` is in [0, 1]. */
  lemma BlendBetween(a: real, b: real, f: real)
    ensures 0.0 <= f <= 1.0 ==> Between(a * f + b * (1.0 - f), a, b)
  {
    if 0.0 <= f <= 1.0 {
      assert a * f + b * (1.0 - f) == b + f * (a - b);
      var d := if a >= b then a - b else b - a;
      MulNonNeg(f, d);
      MulNonNeg(1.0 - f, d);
      assert (1.0 - f) * d == d - f * d;
    }
  }

  lemma MulNonNeg(x: real, y: real)
    requires 0.0 <= x && 0.0 <= y
    ensures 0.0 <= x * y
  {
  }

  /** A valid position: copied on the first sighting, otherwise
      `old * filter + observed * (1 - filter)`; the counter is re-armed. */
  function Sighting(s: TrackerState, x: int, y: int, filter: real): (r: TrackerState)
    // the ball is detected with the full grace window ahead
    ensures r.detected && r.lostFrames == AllowedLostFrames
    // the first sighting takes the observation as it is
    ensures !s.detected ==> r.x == x as real && r.y == y as real
    // later sightings land between the old position and the observation
    ensures s.detected && 0.0 <= filter <= 1.0 ==> Between(r.x, s.x, x as real) && Between(r.y, s.y, y as real)
    // later sightings shrink the gap to the observation by the filter factor
    ensures s.detected ==>
      && r.x - x as real == filter * (s.x - x as real)
      && r.y - y as real == filter * (s.y - y as real)
    // a filter of 0 follows the observation, a filter of 1 holds the old position
    ensures s.detected && filter == 0.0 ==> r.x == x as real && r.y == y as real
    ensures s.detected && filter == 1.0 ==> r.x == s.x && r.y == s.y
  {
    if !s.detected then TrackerState(x as real, y as real, true, AllowedLostFrames)
    else
      BlendBetween(s.x, x as real, filter);
      BlendBetween(s.y, y as real, filter);
      TrackerState(s.x * filter + x as real * (1.0 - filter),
                   s.y * filter + y as real * (1.0 - filter),
                   true, AllowedLostFrames)
  }

  /** The bookkeeping that closes every completed frame. */
  function EndOfFrame(s: TrackerState): (r: TrackerState)
    // the position is never touched
    ensures r.x == s.x && r.y == s.y
    // a frame of grace is used up while any remain, and the flag then stands
    ensures s.lostFrames > 0 ==> r.detected == s.detected && r.lostFrames == s.lostFrames - 1
    // once the grace is spent the counter stays and the ball is lost
    ensures s.lostFrames <= 0 ==> !r.detected && r.lostFrames == s.lostFrames
    // the counter never goes below 0 from a non-negative start
    ensures 0 <= s.lostFrames ==> 0 <= r.lostFrames
  {
    if s.lostFrames > 0 then s.(lostFrames := s.lostFrames - 1)
    else s.(detected := false)
  }

  /** One frame's effect on the tracker state. */
  function Step(s: TrackerState, o: Outcome, filter: real): (r: TrackerState)
    // an aborted frame leaves everything as it was
    ensures o.ProcessingFault? ==> r == s
    // a sighting leaves the ball detected with 4 frames of grace left
    ensures o.Located? ==> r.detected && r.lostFrames == AllowedLostFrames - 1
    // the first sighting takes the observed position as it is
    ensures o.Located? && !s.detected ==> r.x == o.x as real && r.y == o.y as real
    // later sightings move the position toward the observed one, never past it
    ensures o.Located? && s.detected && 0.0 <= filter <= 1.0 ==>
      Between(r.x, s.x, o.x as real) && Between(r.y, s.y, o.y as real)
    // by shrinking the gap to the observed position by the filter factor
    ensures o.Located? && s.detected ==>
      && r.x - o.x as real == filter * (s.x - o.x as real)
      && r.y - o.y as real == filter * (s.y - o.y as real)
    // a miss touches only the counter and, once it has run out, the flag
    ensures IsMiss(o) ==> r.x == s.x && r.y == s.y
    ensures IsMiss(o) && s.lostFrames > 0 ==>
      r.detected == s.detected && r.lostFrames == s.lostFrames - 1
    ensures IsMiss(o) && s.lostFrames <= 0 ==> !r.detected && r.lostFrames == s.lostFrames
    // the flag is raised only by a sighting and lowered only when the count is spent
    ensures r.detected && !s.detected ==> o.Located?
    ensures s.detected && !r.detected ==> IsMiss(o) && s.lostFrames <= 0
    // from a counter in [0, 5], a completed frame ends with it in [0, 4]
    ensures 0 <= s.lostFrames <= AllowedLostFrames && !o.ProcessingFault? ==>
      0 <= r.lostFrames < AllowedLostFrames
  {
    match o
    case ProcessingFault => s
    case Located(x, y) => EndOfFrame(Sighting(s, x, y, filter))
    case _ => EndOfFrame(s)
  }

  /** One camera frame: detection followed by the state update. */
  function ProcessFrame(s: TrackerState, f: Frame, filter: real): (r: (TrackerState, Outcome))
    requires FrameSized(f)
    ensures r.1 == Detect(f)
    ensures r.0.x != s.x || r.0.y != s.y ==> r.1.Located?
    ensures |f.tables| == 0 ==> r.0.x == s.x && r.0.y == s.y && r.1.TableNotFound?
    // the state moves exactly as the frame's outcome dictates
    ensures r.0 == Step(s, r.1, filter)
    // a located ball is recorded: detected, with 4 frames of grace left
    ensures r.1.Located? ==> r.0.detected && r.0.lostFrames == AllowedLostFrames - 1
    ensures r.1.Located? && !s.detected ==> r.0.x == r.1.x as real && r.0.y == r.1.y as real
    // a frame aborted by an exception leaves the state as it was
    ensures r.1.ProcessingFault? ==> r.0 == s
  {
    var o := Detect(f);
    (Step(s, o, filter), o)
  }

  /** Frames processed one after another. */
  function Run(s: TrackerState, os: seq<Outcome>, filter: real): TrackerState
    decreases |os|
  {
    if |os| == 0 then s else Run(Step(s, os[0], filter), os[1..], filter)
  }

  function Max(a: int, b: int): int {
    if a >= b then a else b
  }

  /** A run of misses keeps the position, counts down to 0 and clears the
      detected flag exactly when there are more misses than frames of grace. */
  lemma {:induction false} MissesCountDown(s: TrackerState, os: seq<Outcome>, filter: real)
    requires 0 <= s.lostFrames
    requires forall k :: 0 <= k < |os| ==> IsMiss(os[k])
    ensures Run(s, os, filter).x == s.x && Run(s, os, filter).y == s.y
    ensures Run(s, os, filter).lostFrames == Max(s.lostFrames - |os|, 0)
    ensures Run(s, os, filter).detected <==> s.detected && |os| <= s.lostFrames
    decreases |os|
  {
    if |os| > 0 {
      var s' := Step(s, os[0], filter);
      assert forall k :: 0 <= k < |os[1..]| ==> IsMiss(os[1..][k]) by {
        forall k | 0 <= k < |os[1..]| ensures IsMiss(os[1..][k]) {
          assert os[1..][k] == os[k + 1];
        }
      }
      MissesCountDown(s', os[1..], filter);
    }
  }

  /** The grace window: after a sighting the ball stays detected, at the
      position the sighting left, through four consecutive misses and is
      declared lost on the fifth, never earlier. */
  lemma GraceWindow(s: TrackerState, x: int, y: int, misses: seq<Outcome>, filter: real)
    requires forall k :: 0 <= k < |misses| ==> IsMiss(misses[k])
    ensures var seen := Step(s, Located(x, y), filter);
      && Run(s, [Located(x, y)] + misses, filter).x == seen.x
      && Run(s, [Located(x, y)] + misses, filter).y == seen.y
      && (Run(s, [Located(x, y)] + misses, filter).detected <==> |misses| < AllowedLostFrames)
  {
    var os := [Located(x, y)] + misses;
    assert os[0] == Located(x, y) && os[1..] == misses;
    MissesCountDown(Step(s, Located(x, y), filter), misses, filter);
  }

  /** The counter stays within [0, 5] across any run, and within [0, 4] once
      some frame has completed. */
  lemma {:induction false} CounterBounded(s: TrackerState, os: seq<Outcome>, filter: real)
    requires 0 <= s.lostFrames <= AllowedLostFrames
    ensures 0 <= Run(s, os, filter).lostFrames <= AllowedLostFrames
    ensures (exists k :: 0 <= k < |os| && !os[k].ProcessingFault?) ==>
      Run(s, os, filter).lostFrames < AllowedLostFrames
    decreases |os|
  {
    if |os| > 0 {
      var s' := Step(s, os[0], filter);
      CounterBounded(s', os[1..], filter);
      if exists k :: 0 <= k < |os| && !os[k].ProcessingFault? {
        var k :| 0 <= k < |os| && !os[k].ProcessingFault?;
        if k > 0 {
          assert os[1..][k - 1] == os[k];
        } else if !(exists k' :: 0 <= k' < |os[1..]| && !os[1..][k'].ProcessingFault?) {
          // the remaining frames all aborted, so the counter the first one left stands
          FaultsChangeNothing(s', os[1..], filter);
        }
      }
    }
  }

  /** Frames that all abort leave the state as it was. */
  lemma {:induction false} FaultsChangeNothing(s: TrackerState, os: seq<Outcome>, filter: real)
    requires forall k :: 0 <= k < |os| ==> os[k].ProcessingFault?
    ensures Run(s, os, filter) == s
    decreases |os|
  {
    if |os| > 0 {
      assert forall k :: 0 <= k < |os[1..]| ==> os[1..][k] == os[k + 1];
      FaultsChangeNothing(Step(s, os[0], filter), os[1..], filter);
    }
  }

  /** The smoothing example: filter 0.5, old position 1500, observation 1600. */
  lemma SmoothingExample()
    ensures Step(TrackerState(1500.0, 1500.0, true, 2), Located(1600, 1600), 0.5)
         == TrackerState(1550.0, 1550.0, true, AllowedLostFrames - 1)
  {
  }
}
