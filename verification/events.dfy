/**
  The temporal event builder: a state machine over integer frame indices that
  turns per-frame `(frameIdx, motion, boxes)` detections into a list of events,
  padded by a pre-roll before the first motion frame and a post-roll after the
  last one, and dropped when shorter than a minimum number of frames.
 */
module Events {

  import opened Options
  import opened Geometry

  /** An emitted event: frames `startIdx..endIdx` inclusive, with the envelope
      of the regions seen on its motion frames, if any. */
  datatype Event = Event(id: int, startIdx: int, endIdx: int, bbox: Option<Box>) {
    /** Number of frames the event spans. */
    function Span(): int { endIdx - startIdx + 1 }
  }

  /** The builder's parameters and its mutable state, as one immutable record. */
  datatype Builder = Builder(
    preRoll: int,
    postRoll: int,
    minEventFrames: int,
    active: bool,
    startIdx: int,
    lastMotionIdx: int,
    bbox: Option<Box>,
    events: seq<Event>,
    nextId: int)

  /** A freshly constructed builder: idle, no events, the first id is 1. */
  function NewBuilder(preRoll: int, postRoll: int, minEventFrames: int): (b: Builder)
    ensures b.preRoll == preRoll && b.postRoll == postRoll && b.minEventFrames == minEventFrames
    ensures !b.active && b.bbox.None? && b.lastMotionIdx < 0
    ensures b.events == [] && b.nextId == 1
  {
    Builder(preRoll, postRoll, minEventFrames, false, 0, -1, None, [], 1)
  }

  /** The start a run opened at `frameIdx` is given: pre-roll frames earlier,
      but never before frame 0. */
  function PreRollStart(frameIdx: int, preRoll: int): (s: int)
    ensures 0 <= s
    ensures frameIdx >= 0 && preRoll >= 0 ==> s <= frameIdx
    ensures s == 0 || s == frameIdx - preRoll
    ensures s >= frameIdx - preRoll
  {
    Max(0, frameIdx - preRoll)
  }

  /** Whether a non-motion frame `frameIdx` lies past the post-roll of the run
      `b` holds open. */
  predicate PastPostRoll(b: Builder, frameIdx: int) {
    b.lastMotionIdx >= 0 && frameIdx > b.lastMotionIdx + b.postRoll
  }

  /** Whether a run from `b.startIdx` to `endIdx` is long enough to emit. */
  predicate LongEnough(b: Builder, endIdx: int) {
    endIdx - b.startIdx + 1 >= b.minEventFrames
  }

  /** The event list after the run of `b` ends at `endIdx`: one more event with
      the next id if the run is long enough, otherwise unchanged. */
  function Emitted(b: Builder, endIdx: int): (es: seq<Event>)
    ensures |es| == |b.events| + 1 <==> LongEnough(b, endIdx)
    ensures |b.events| <= |es| <= |b.events| + 1 && es[..|b.events|] == b.events
    ensures |es| > |b.events| ==>
              && es[|b.events|].id == b.nextId
              && es[|b.events|].Span() >= b.minEventFrames
              && es[|b.events|].startIdx == b.startIdx && es[|b.events|].endIdx == endIdx
              && es[|b.events|].bbox == b.bbox
  {
    if LongEnough(b, endIdx) then b.events + [Event(b.nextId, b.startIdx, endIdx, b.bbox)]
    else b.events
  }

  /** Closes the open run of `b` at the end of its post-roll: emits it if it is
      long enough (using up one id), then returns to idle. */
  function CloseRun(b: Builder): (r: Builder)
    ensures !r.active && r.bbox.None? && r.lastMotionIdx < 0
    // an id is used up exactly when an event is emitted, and only then
    ensures r.nextId - b.nextId == |r.events| - |b.events|
    ensures |b.events| <= |r.events| <= |b.events| + 1 && r.events[..|b.events|] == b.events
    ensures |r.events| > |b.events| <==> LongEnough(b, b.lastMotionIdx + b.postRoll)
    ensures |r.events| > |b.events| ==>
              r.events[|b.events|].endIdx == b.lastMotionIdx + b.postRoll
              && r.events[|b.events|].id == b.nextId
    ensures r.preRoll == b.preRoll && r.postRoll == b.postRoll && r.minEventFrames == b.minEventFrames
  {
    var endIdx := b.lastMotionIdx + b.postRoll;
    b.(events := Emitted(b, endIdx),
       nextId := if LongEnough(b, endIdx) then b.nextId + 1 else b.nextId,
       active := false,
       bbox := None,
       lastMotionIdx := -1)
  }

  /** Feeds one frame's detection to the builder. */
  function Update(b: Builder, frameIdx: int, motion: bool, boxes: seq<Box>): (r: Builder)
    // parameters never change
    ensures r.preRoll == b.preRoll && r.postRoll == b.postRoll && r.minEventFrames == b.minEventFrames
    // a motion frame opens or extends a run and never closes one
    ensures motion ==> r.active && r.lastMotionIdx == frameIdx && r.events == b.events && r.nextId == b.nextId
    ensures motion && !b.active ==>
              r.startIdx == PreRollStart(frameIdx, b.preRoll) && r.bbox == Accumulate(None, boxes)
    ensures motion && b.active ==> r.startIdx == b.startIdx && r.bbox == Accumulate(b.bbox, boxes)
    // the accumulated region only grows
    ensures motion && b.active && b.bbox.Some? ==> r.bbox.Some? && Contains(r.bbox.value, b.bbox.value)
    ensures motion ==> forall i :: 0 <= i < |boxes| ==> r.bbox.Some? && Contains(r.bbox.value, boxes[i])
    // a non-motion frame closes a run exactly when it lies past the post-roll
    ensures !motion && !(b.active && PastPostRoll(b, frameIdx)) ==> r == b
    ensures !motion && b.active && PastPostRoll(b, frameIdx) ==>
              && !r.active && r.bbox.None? && r.lastMotionIdx == -1
              && r.events == Emitted(b, b.lastMotionIdx + b.postRoll)
    // ids are used up by emitted events only
    ensures r.nextId - b.nextId == |r.events| - |b.events|
    ensures |b.events| <= |r.events| <= |b.events| + 1 && r.events[..|b.events|] == b.events
  {
    if motion then
      var started := if b.active then b else b.(active := true, startIdx := PreRollStart(frameIdx, b.preRoll), bbox := None);
      started.(lastMotionIdx := frameIdx, bbox := Accumulate(started.bbox, boxes))
    else if b.active && PastPostRoll(b, frameIdx) then
      CloseRun(b)
    else
      b
  }

  /** The end a forced close at stream end gives the open run: the end of its
      post-roll, cut at the last frame; the last frame if no motion frame was
      recorded. */
  function FinalEnd(b: Builder, lastFrameIdx: int): (e: int)
    ensures e <= lastFrameIdx
    ensures b.lastMotionIdx >= 0 ==> e <= b.lastMotionIdx + b.postRoll
    ensures e == lastFrameIdx || (b.lastMotionIdx >= 0 && e == b.lastMotionIdx + b.postRoll)
  {
    Min(lastFrameIdx, if b.lastMotionIdx >= 0 then b.lastMotionIdx + b.postRoll else lastFrameIdx)
  }

  /** Flushes the run still open at stream end. The emitted event takes the
      next id, but the id counter itself is not advanced. */
  function Finalize(b: Builder, lastFrameIdx: int): (r: Builder)
    ensures !r.active
    ensures !b.active ==> r == b
    ensures b.active ==> r == b.(active := false, events := Emitted(b, FinalEnd(b, lastFrameIdx)))
    ensures r.nextId == b.nextId
    ensures |b.events| <= |r.events| <= |b.events| + 1 && r.events[..|b.events|] == b.events
  {
    if b.active then
      b.(events := Emitted(b, FinalEnd(b, lastFrameIdx)), active := false)
    else
      b
  }

}
