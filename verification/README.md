# Motion events and live-feed gating, modelled in Dafny

This project models the two stateful parts of a video motion detector:

- **The event builder** (`src/events.py`). It turns per-frame detections `(frameIdx, motion, boxes)` into `Event(id, startIdx, endIdx, bbox)` records.
  - A run of motion opens with a pre-roll: its start is moved back to `max(0, frameIdx - preRoll)`.
  - The run stays open through a post-roll after its last motion frame.
  - A run shorter than `minEventFrames` is dropped and uses no id.
  - The regions seen during the run are merged into one envelope rectangle.
  - `finalize` flushes a run still open at the end of the stream.
- **The live detector's state machine** (`src/live_motion.py`). This covers:
  - the background-present flag and the frame counter;
  - `reset`;
  - the odd blur kernel and the erosion floor;
  - the contour area filter;
  - the warm-up gate on the verdict.

  The pixel pipeline is a record of uninterpreted functions (`LiveMotion.Vision`): grayscale and blur, the running-average background, the threshold and morphology mask, contour extraction and the changed-pixel score.

Modules:

- `Options`: the optional value.
- `Geometry`: `(x, y, w, h)` rectangles, the envelope union `MergeBbox`, and the accumulation loop `Accumulate`.
- `Events`: the builder state as an immutable record, with the pure steps `Update` and `Finalize`.
- `EventProperties`: the builder invariant and the driver protocol (`Feed`, `Segment`). It also holds the well-formedness of every produced event list and some worked scenarios.
- `LiveMotion`: the detector settings, its state, `Reset` and `Update`.
- `LiveMotionProperties`: the exact behaviour of the contour filter, the Uninitialized / Warming / Steady life cycle, and what a stream of frames reports after a reset.

The driver protocol comes from `src/processor.py:43-86`:

- a fresh builder is created;
- frames are numbered 1, 2, ... with exactly one `update` per frame;
- `finalize` is called once with the last index, which is 0 when no frame was compared.

`EventProperties.Segment` models this protocol. `EventProperties.SegmentWellFormed` proves that for every input stream, the resulting event list satisfies all of the following:

- ids are 1, 2, 3, ...;
- starts never decrease;
- each event lies within `0..last` with `startIdx <= endIdx`;
- each event spans at least `minEventFrames` frames.

### Behaviour of the code worth knowing

- **Events can overlap.** The code guarantees neither disjoint events nor strictly increasing starts: a new run's pre-roll can reach back past the end of the previous event. `EventProperties.OverlapWitness` shows an example: pre-roll 10, post-roll 0 and minimum 1, with motion on frames 1 and 3 of four frames. This gives the events `[0, 1]` and `[0, 3]`. Only "ids increase" and "starts never decrease" are proved.
- **A flush before the post-roll ends cuts the event at the last frame.** `finalize` ends the open run at `min(last, lastMotionIdx + postRoll)`. With motion only at frame 100 and post-roll 15, a flush at frame `f <= 115` ends the event at `f`, not at 115. See `EventProperties.SingleMotionFrame`.
- **The id counter after a flush.** `finalize` appends its event with the current `_nextId` but does not advance the counter. It also leaves the accumulated box and `_lastMotionIdx` as they were. `Events.Finalize` keeps all of this.

## Model

| member | source | states |
|---|---|---|
| Geometry.MergeBbox | src/events.py:13-20 | the merged rectangle contains both inputs, and every rectangle containing both contains it (the least enclosing rectangle) |
| Geometry.MergeEdges | src/events.py:16-20 | left and top edges are the minima, right and bottom edges the maxima of the inputs' edges |
| Geometry.MergeBboxUnique | src/events.py:13-20 | the least-cover property determines the merge: a rectangle containing both inputs and inside every common cover is the merge |
| Geometry.MergeCommutes | src/events.py:13-20 | merging is commutative |
| Geometry.MergeIdempotent | src/events.py:13-20 | merging a rectangle with itself returns it unchanged |
| Geometry.MergeAssociative | src/events.py:13-20 | merging is associative |
| Geometry.MergeExample | src/events.py:13-20 | `(0,0,10,10)` merged with `(5,5,20,20)` is `(0,0,25,25)` |
| Geometry.Accumulate | src/events.py:48-49 | the accumulated box is absent exactly when there was no previous box and no box was supplied; otherwise it contains the previous box and every supplied box |
| Geometry.AccumulateLeast | src/events.py:48-49 | any rectangle covering the previous box and all supplied boxes covers the accumulated box |
| Geometry.AccumulateAppend | src/events.py:45-49 | accumulating two batches in turn equals accumulating their concatenation |
| Geometry.AccumulateIsEnvelope | src/events.py:48-49 | starting from no box, the accumulation of a non-empty list is its envelope: it covers every box and lies inside every common cover |
| Events.NewBuilder | src/events.py:26-36 | a new builder is inactive, has no box, no events and next id 1, and keeps its parameters |
| Events.PreRollStart | src/events.py:42 | a run's start is never negative, never after the frame that opened it (for non-negative indices and pre-roll), and is either 0 or exactly pre-roll frames earlier |
| Events.Emitted | src/events.py:55-62 | the list grows by exactly one event if and only if the run spans at least the minimum; earlier events are kept; the new event carries the next id, the run's start, box and given end, and spans at least the minimum |
| Events.CloseRun | src/events.py:53-65 | closing leaves the builder idle; the id counter advances by exactly the number of events appended; an event is appended exactly when the run up to `lastMotionIdx + postRoll` is long enough, and it ends there with the next id; earlier events are kept |
| Events.Update | src/events.py:38-65 | a motion frame opens a run (start clamped by pre-roll, box reset) or extends one, and never closes one; the box only grows; a non-motion frame changes nothing unless it lies past the post-roll, in which case the run closes; the counter advances by the number of events appended; earlier events are kept |
| Events.FinalEnd | src/events.py:69 | the flush end is at most the last index and at most the post-roll end, and equals one of them (the last index when no motion frame was recorded) |
| Events.Finalize | src/events.py:67-77 | flushing leaves the builder inactive, changes nothing on an idle builder, appends at most the open run under the same length filter, and never advances the id counter |
| EventProperties.NewBuilderInv | src/events.py:26-36 | a new builder with non-negative pre-roll and post-roll satisfies the builder invariant |
| EventProperties.PreRollStartMonotone | src/events.py:42 | a later frame never gets an earlier pre-roll start |
| EventProperties.UpdateKeepsInv | src/events.py:38-65 | an update at a larger index preserves the invariant: while active `0 <= startIdx <= lastMotionIdx`, while idle no box and `lastMotionIdx = -1`, `nextId = len(events) + 1`, and the event list stays well formed |
| EventProperties.CloseKeepsInv | src/events.py:53-65 | closing a run past its post-roll keeps the invariant: the emitted event gets id `len(events) + 1`, lies in `0..frameIdx`, meets the minimum span and starts no earlier than any earlier event |
| EventProperties.Feed | src/processor.py:52-80 | feeding frames never changes the parameters and only appends to the event list |
| EventProperties.FeedKeepsInv | src/processor.py:52-80 | feeding consecutive indices preserves the invariant up to the last index fed |
| EventProperties.FinalizeWellFormed | src/events.py:67-77 | a flush at or after the latest index leaves the builder inactive with a well-formed list; the counter equals `len(events)` after a flushed event and `len(events) + 1` otherwise |
| EventProperties.QuietFeed | src/events.py:51-53 | frames without motion leave an idle builder unchanged |
| EventProperties.Segment | src/processor.py:43-86 | the driver protocol: a stream without any motion frame yields no event |
| EventProperties.SegmentWellFormed | src/processor.py:43-86 | under the driver protocol, event ids are 1..n, starts never decrease, every event lies in `0..last` with `startIdx <= endIdx`, and each spans at least `minEventFrames` |
| EventProperties.UpdateTracksRunBoxes | src/events.py:38-65 | an open run's box is the envelope of exactly the boxes supplied on its motion frames, so an event closed by an update has no box exactly when no box was supplied during its run |
| EventProperties.FinalizeTracksRunBoxes | src/events.py:67-77 | the flushed event's box is the envelope of the run's supplied boxes, and is absent exactly when there were none |
| EventProperties.SingleMotionFrame | src/events.py:38-77 | with pre-roll 10, post-roll 15 and minimum 8, motion only at frame 100 opens at 90, stays open through 115, and closes at 116 as `[90, 115]`; a flush at frame `f >= 100` gives `[90, min(f, 115)]` |
| EventProperties.PreRollClamped | src/events.py:42 | a run opened at frame 5 with pre-roll 10 starts at 0 |
| EventProperties.ShortRunDropped | src/events.py:55-65 | a run one frame shorter than the minimum closes without an event and without using an id |
| EventProperties.TwoBursts | src/events.py:38-65 | two bursts further apart than the post-roll give two events with ids 1 and 2 |
| EventProperties.OverlapWitness | src/events.py:39-65 | the builder can emit overlapping events with equal starts |
| LiveMotion.NewDetector | src/live_motion.py:31-34 | a new detector keeps its settings, has no background and a frame count of 0 |
| LiveMotion.Measure | src/live_motion.py:47-78 | the background is blended with the frame blurred by the odd kernel, the mask is taken against the blended background; the boxes are exactly the rectangles of that mask's contours whose area reaches the minimum, in contour order, and the score is the mask's changed-pixel fraction; no box survives exactly when every contour is small |
| LiveMotion.Reset | src/live_motion.py:36-38 | reset yields exactly a freshly constructed detector with the same settings: no background, a frame count of 0 |
| LiveMotion.BlurKernel | src/live_motion.py:49-51 | the kernel used is odd and is the configured size or one more |
| LiveMotion.ErodeIters | src/live_motion.py:66 | the erosion count is at least 1 and at least `morph_iters - 1`, and equals one of the two |
| LiveMotion.MaskParamsOf | src/live_motion.py:64-66 | the mask is thresholded at the configured level and dilated `morph_iters` times; it is eroded one pass fewer than it is dilated once `morph_iters >= 2`, and exactly once below that |
| LiveMotion.KeptBoxes | src/live_motion.py:70-76 | no more boxes than contours; no box survives exactly when every contour is below the minimum area |
| LiveMotion.Update | src/live_motion.py:40-84 | every frame increments the count by 1 and leaves a background. The first frame without a background reports `(False, [], 0.0)` and stores that frame, grayscale and blurred with the odd kernel, as the background. No motion and no boxes are reported while the count is below the warm-up length. After warm-up, motion is reported exactly when boxes are non-empty, and the boxes are the measured ones. The measured score is passed through even during warm-up |
| LiveMotionProperties.KeptBoxesAppend | src/live_motion.py:70-76 | the filter judges contours one at a time and keeps their order |
| LiveMotionProperties.KeptBoxesSingle | src/live_motion.py:72-76 | one contour contributes its rectangle exactly when its area reaches the minimum |
| LiveMotionProperties.KeptBoxesMember | src/live_motion.py:70-76 | a rectangle is reported exactly when some contour of at least the minimum area has it |
| LiveMotionProperties.UpdateBoxesMember | src/live_motion.py:68-84 | past warm-up, a detector with a background reports a rectangle exactly when some contour of the frame's mask with area at least the minimum has it |
| LiveMotionProperties.BlurKernelIdempotent | src/live_motion.py:49-51 | an odd configured size is used unchanged, so applying the rule twice is applying it once |
| LiveMotionProperties.PhaseTransitions | src/live_motion.py:36-84 | reset returns to Uninitialized; any update leaves Uninitialized; Steady is never left; motion is reported only by an update from an initialised detector that ends in Steady |
| LiveMotionProperties.WarmupOnlyGates | src/live_motion.py:78-84 | changing only the warm-up length changes neither the background, the count nor the score, and once both are past warm-up nothing at all |
| LiveMotionProperties.Run | src/live_motion.py:40-84 | a stream yields one result per frame, advances the count by the number of frames, and leaves a background once any frame was seen |
| LiveMotionProperties.WarmupSilence | src/live_motion.py:80-82 | every frame whose count is below the warm-up length reports no motion and no boxes |
| LiveMotionProperties.AfterReset | src/live_motion.py:45-56 | after a reset the first frame reports `(False, [], 0.0)`, and frames 1 to warm-up − 1 report no motion |
| LiveMotionProperties.ResetForgetsHistory | src/live_motion.py:36-38 | after a reset, the results of a stream depend only on the settings and the frames |
| LiveMotionProperties.DefaultWarmup | src/live_motion.py:13-20 | with the default settings (warm-up 15), frames 1 to 14 after construction never report motion |

## Left out

- Pixel arithmetic is uninterpreted: grayscale conversion, Gaussian blur, `accumulateWeighted` with float `alpha`, `convertScaleAbs`, `absdiff`, thresholding, dilation and erosion, contour extraction and `contourArea`. The model only states which settings are handed to these steps.
- The score `np.count_nonzero(mask) / mask.size` is uninterpreted as well. It is a `real` that is passed through. Its range `[0, 1]` is not modelled.
- Contour areas are `real` values compared with the integer minimum, as the source compares a float with an `int`. Floating-point rounding is not modelled.
- OpenCV errors for a non-positive blur kernel, and frames of mismatched size, are not modelled. They are failures inside the uninterpreted pipeline.
- The frame-difference detector in `src/motion.py` is not part of this model. Its only integer logic is the odd-kernel rule and the area filter, and the same rules are modelled through `src/live_motion.py`.
- The driver's other work is not part of this model: video decode, frame annotation, writing the highlight video and the CSV file with float seconds. `src/processor.py` is used only for its calling protocol.
- The user interface, camera acquisition and video container I/O (`src/gui.py`, `src/live_feed_window.py`, `src/live_feed.py`, `src/video_io.py`) are not part of this model.
- Calling `update` after `finalize` is outside the calling protocol and is left undefined. `Events.Update` accepts it, but the invariant lemmas speak only of builders that have not been flushed.
- Events.Update: the protocol's requirements (non-negative indices, increasing by one per call, non-negative pre-roll and post-roll) are not preconditions of the step. They are hypotheses of `EventProperties.UpdateKeepsInv`, `FeedKeepsInv` and `SegmentWellFormed`, which prove the list-level guarantees under them.
- EventProperties.UpdateTracksRunBoxes: "an event's box is absent exactly when no box was supplied on its run" is proved one step at a time. The caller supplies the run's boxes so far, and `RunBoxesAfter` extends them. The property is not restated over a whole stream.
