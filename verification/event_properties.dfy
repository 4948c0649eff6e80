/**
  Properties of the event builder: the invariant it keeps between updates, the
  shape of the event list it produces when driven with gap-free increasing
  frame indices and flushed once at the end, and worked scenarios.
 */
module EventProperties {

  import opened Options
  import opened Geometry
  import opened Events

  /** An emitted event list: ids 1, 2, 3, ... in order; every event lies inside
      frames `0..lastFrameIdx`, spans at least `minEventFrames` frames; starts
      never decrease. Events may overlap (see `OverlapWitness`). */
  predicate WellFormedEvents(es: seq<Event>, minEventFrames: int, lastFrameIdx: int) {
    && (forall i :: 0 <= i < |es| ==> es[i].id == i + 1)
    && (forall i :: 0 <= i < |es| ==> 0 <= es[i].startIdx <= es[i].endIdx <= lastFrameIdx)
    && (forall i :: 0 <= i < |es| ==> es[i].Span() >= minEventFrames)
    && (forall i, j :: 0 <= i < j < |es| ==> es[i].startIdx <= es[j].startIdx)
  }

  /** What holds of the builder between two updates, `lastFrameIdx` being the
      index of the latest update (-1 before the first one). */
  predicate Inv(b: Builder, lastFrameIdx: int) {
    && lastFrameIdx >= -1
    && b.preRoll >= 0 && b.postRoll >= 0
    && b.nextId == |b.events| + 1
    && WellFormedEvents(b.events, b.minEventFrames, lastFrameIdx)
    && (forall i :: 0 <= i < |b.events| ==> b.events[i].startIdx <= PreRollStart(lastFrameIdx, b.preRoll))
    && (b.active ==>
          && 0 <= b.startIdx <= b.lastMotionIdx <= lastFrameIdx
          && b.startIdx <= PreRollStart(lastFrameIdx, b.preRoll)
          && forall i :: 0 <= i < |b.events| ==> b.events[i].startIdx <= b.startIdx)
    && (!b.active ==> b.lastMotionIdx == -1 && b.bbox.None?)
  }

  lemma NewBuilderInv(preRoll: int, postRoll: int, minEventFrames: int)
    requires preRoll >= 0 && postRoll >= 0
    ensures Inv(NewBuilder(preRoll, postRoll, minEventFrames), -1)
  {
  }

  /** A later frame never gets an earlier pre-roll start. */
  lemma PreRollStartMonotone(f: int, g: int, preRoll: int)
    requires f <= g
    ensures PreRollStart(f, preRoll) <= PreRollStart(g, preRoll)
  {
  }

  /** The invariant survives a later index when nothing else changes. */
  lemma InvLater(b: Builder, lastFrameIdx: int, frameIdx: int)
    requires Inv(b, lastFrameIdx)
    requires frameIdx >= lastFrameIdx
    ensures Inv(b, frameIdx)
  {
    PreRollStartMonotone(lastFrameIdx, frameIdx, b.preRoll);
  }

  /** Closing a run past its post-roll keeps the invariant. */
  lemma CloseKeepsInv(b: Builder, lastFrameIdx: int, frameIdx: int)
    requires Inv(b, lastFrameIdx)
    requires frameIdx > lastFrameIdx
    requires b.active && PastPostRoll(b, frameIdx)
    ensures Inv(CloseRun(b), frameIdx)
  {
    PreRollStartMonotone(lastFrameIdx, frameIdx, b.preRoll);
    var r := CloseRun(b);
    if LongEnough(b, b.lastMotionIdx + b.postRoll) {
      var e := Event(b.nextId, b.startIdx, b.lastMotionIdx + b.postRoll, b.bbox);
      assert r.events == b.events + [e];
      assert r.events[|b.events|] == e;
    }
  }

  /** Each update with a larger frame index keeps the invariant. */
  lemma UpdateKeepsInv(b: Builder, lastFrameIdx: int, frameIdx: int, motion: bool, boxes: seq<Box>)
    requires Inv(b, lastFrameIdx)
    requires frameIdx > lastFrameIdx
    ensures Inv(Update(b, frameIdx, motion, boxes), frameIdx)
  {
    if motion {
      PreRollStartMonotone(lastFrameIdx, frameIdx, b.preRoll);
    } else if b.active && PastPostRoll(b, frameIdx) {
      CloseKeepsInv(b, lastFrameIdx, frameIdx);
    } else {
      InvLater(b, lastFrameIdx, frameIdx);
    }
  }

  /** The per-frame detection the driver hands to the builder. */
  datatype Detection = Detection(motion: bool, boxes: seq<Box>)

  /** Feeds `ds` to the builder at indices `firstIdx`, `firstIdx + 1`, ... */
  function Feed(b: Builder, firstIdx: int, ds: seq<Detection>): (r: Builder)
    ensures r.preRoll == b.preRoll && r.postRoll == b.postRoll && r.minEventFrames == b.minEventFrames
    ensures |b.events| <= |r.events| && r.events[..|b.events|] == b.events
    decreases |ds|
  {
    if |ds| == 0 then b
    else Feed(Update(b, firstIdx, ds[0].motion, ds[0].boxes), firstIdx + 1, ds[1..])
  }

  /** Feeding consecutive indices keeps the invariant. */
  lemma {:induction false} FeedKeepsInv(b: Builder, lastFrameIdx: int, ds: seq<Detection>)
    requires Inv(b, lastFrameIdx)
    ensures Inv(Feed(b, lastFrameIdx + 1, ds), lastFrameIdx + |ds|)
    decreases |ds|
  {
    if |ds| > 0 {
      var f := lastFrameIdx + 1;
      var b' := Update(b, f, ds[0].motion, ds[0].boxes);
      assert Feed(b, f, ds) == Feed(b', f + 1, ds[1..]);
      UpdateKeepsInv(b, lastFrameIdx, f, ds[0].motion, ds[0].boxes);
      FeedKeepsInv(b', f, ds[1..]);
    }
  }

  /** Flushing at or after the latest update yields a well-formed list; the
      flushed event, if any, carries the id the counter holds, which the
      counter does not move past. */
  lemma FinalizeWellFormed(b: Builder, lastFrameIdx: int, finalIdx: int)
    requires Inv(b, lastFrameIdx)
    requires finalIdx >= lastFrameIdx
    ensures var r := Finalize(b, finalIdx);
      && !r.active
      && WellFormedEvents(r.events, b.minEventFrames, finalIdx)
      && (|r.events| == |b.events| ==> r.nextId == |r.events| + 1)
      && (|r.events| > |b.events| ==> r.nextId == |r.events|)
  {
  }

  /** Non-motion frames leave an idle builder untouched. */
  lemma {:induction false} QuietFeed(b: Builder, firstIdx: int, ds: seq<Detection>)
    ensures !b.active && (forall i :: 0 <= i < |ds| ==> !ds[i].motion) ==> Feed(b, firstIdx, ds) == b
    decreases |ds|
  {
    if |ds| > 0 && !b.active && forall i :: 0 <= i < |ds| ==> !ds[i].motion {
      assert Update(b, firstIdx, ds[0].motion, ds[0].boxes) == b;
      QuietFeed(b, firstIdx + 1, ds[1..]);
    }
  }

  /** The whole driver protocol: a fresh builder, frames numbered 1, 2, ...,
      one update per frame, and one flush with the last index (0 when the
      stream held no compared frame). A stream without motion yields no
      event. */
  function Segment(preRoll: int, postRoll: int, minEventFrames: int, ds: seq<Detection>): (es: seq<Event>)
    ensures (forall i :: 0 <= i < |ds| ==> !ds[i].motion) ==> es == []
  {
    var b0 := NewBuilder(preRoll, postRoll, minEventFrames);
    QuietFeed(b0, 1, ds);
    Finalize(Feed(b0, 1, ds), |ds|).events
  }

  /** Every list the protocol produces is well formed: consecutive ids from 1,
      starts that never decrease, each event within the stream and at least
      `minEventFrames` long. */
  lemma SegmentWellFormed(preRoll: int, postRoll: int, minEventFrames: int, ds: seq<Detection>)
    requires preRoll >= 0 && postRoll >= 0
    ensures WellFormedEvents(Segment(preRoll, postRoll, minEventFrames, ds), minEventFrames, |ds|)
  {
    var b0 := NewBuilder(preRoll, postRoll, minEventFrames);
    NewBuilderInv(preRoll, postRoll, minEventFrames);
    FeedKeepsInv(b0, 0, ds);
    FinalizeWellFormed(Feed(b0, 1, ds), |ds|, |ds|);
  }

  /** The boxes supplied on the motion frames of the current run, after one
      more detection. */
  function RunBoxesAfter(b: Builder, motion: bool, boxes: seq<Box>, run: seq<Box>): seq<Box> {
    if !motion then run else if b.active then run + boxes else boxes
  }

  /** The accumulated region of an open run is the envelope of exactly the
      boxes supplied on its motion frames, so an event closed by an update has
      no region exactly when no box was supplied during its run. */
  lemma UpdateTracksRunBoxes(b: Builder, frameIdx: int, motion: bool, boxes: seq<Box>, run: seq<Box>)
    requires b.active ==> b.bbox == Accumulate(None, run)
    ensures var r := Update(b, frameIdx, motion, boxes);
      && (r.active ==> r.bbox == Accumulate(None, RunBoxesAfter(b, motion, boxes, run)))
      && (|r.events| > |b.events| ==>
            && r.events[|b.events|].bbox == Accumulate(None, run)
            && (r.events[|b.events|].bbox.None? <==> run == []))
  {
    if motion {
      if b.active {
        AccumulateAppend(None, run, boxes);
      } else {
        assert RunBoxesAfter(b, motion, boxes, run) == boxes;
      }
    }
  }

  /** The same for the run flushed at stream end. */
  lemma FinalizeTracksRunBoxes(b: Builder, lastFrameIdx: int, run: seq<Box>)
    requires b.active ==> b.bbox == Accumulate(None, run)
    ensures var r := Finalize(b, lastFrameIdx);
      |r.events| > |b.events| ==>
        && r.events[|b.events|].bbox == Accumulate(None, run)
        && (r.events[|b.events|].bbox.None? <==> run == [])
  {
  }

  /** Scenario: pre-roll 10, post-roll 15, minimum 8, motion only at frame 100.
      The run starts at 90, stays open through frame 115, closes at 116 as
      event `[90, 115]`; a flush before that cuts the end at the last frame. */
  lemma SingleMotionFrame()
    ensures var b1 := Update(NewBuilder(10, 15, 8), 100, true, []);
      && b1.active && b1.startIdx == 90
      && (forall f :: 100 < f <= 115 ==> Update(b1, f, false, []) == b1)
      && Update(b1, 116, false, []).events == [Event(1, 90, 115, None)]
      && (forall f :: 100 <= f ==> Finalize(b1, f).events == [Event(1, 90, Min(f, 115), None)])
  {
  }

  /** Scenario: a run opened at frame 5 with pre-roll 10 starts at 0. */
  lemma PreRollClamped()
    ensures Update(NewBuilder(10, 15, 8), 5, true, []).startIdx == 0
  {
  }

  /** Scenario: a run one frame shorter than the minimum emits nothing and uses
      no id. */
  lemma ShortRunDropped()
    ensures var b := Update(Update(NewBuilder(10, 15, 27), 100, true, []), 116, false, []);
      !b.active && b.events == [] && b.nextId == 1
  {
  }

  /** Scenario: two bursts further apart than the post-roll give two events. */
  lemma TwoBursts()
    ensures var b1 := Update(Update(NewBuilder(10, 15, 8), 100, true, []), 116, false, []);
      var b2 := Update(Update(b1, 200, true, []), 216, false, []);
      b2.events == [Event(1, 90, 115, None), Event(2, 190, 215, None)] && b2.nextId == 3
  {
  }

  /** Events can overlap: with pre-roll 10, post-roll 0 and minimum 1, motion on
      frames 1 and 3 of four gives `[0, 1]` and `[0, 3]`. */
  lemma OverlapWitness()
    ensures var es := Segment(10, 0, 1, [Detection(true, []), Detection(false, []),
                                         Detection(true, []), Detection(false, [])]);
      es == [Event(1, 0, 1, None), Event(2, 0, 3, None)]
      && es[1].startIdx <= es[0].endIdx
  {
  }

}
