/**
  Properties of the live detector: the contour filter's exact behaviour, the
  kernel and erosion rules, the Uninitialized / Warming / Steady life cycle,
  and what a stream of frames reports after construction or reset.
 */
module LiveMotionProperties {

  import opened Geometry
  import opened LiveMotion

  /** The filter distributes over concatenation: contours are judged one at a
      time and their order is kept. */
  lemma {:induction false} KeptBoxesAppend(a: seq<Contour>, b: seq<Contour>, minArea: int)
    ensures KeptBoxes(a + b, minArea) == KeptBoxes(a, minArea) + KeptBoxes(b, minArea)
    decreases |a|
  {
    if |a| == 0 {
      assert a + b == b;
    } else {
      var head := if Large(a[0], minArea) then [a[0].rect] else [];
      assert (a + b)[0] == a[0];
      assert (a + b)[1..] == a[1..] + b;
      KeptBoxesAppend(a[1..], b, minArea);
      calc {
        KeptBoxes(a + b, minArea);
        head + KeptBoxes(a[1..] + b, minArea);
        head + (KeptBoxes(a[1..], minArea) + KeptBoxes(b, minArea));
        (head + KeptBoxes(a[1..], minArea)) + KeptBoxes(b, minArea);
        KeptBoxes(a, minArea) + KeptBoxes(b, minArea);
      }
    }
  }

  /** A single contour contributes its rectangle exactly when it is large enough. */
  lemma KeptBoxesSingle(c: Contour, minArea: int)
    ensures KeptBoxes([c], minArea) == if c.area >= minArea as real then [c.rect] else []
  {
  }

  /** A rectangle is reported exactly when some large-enough contour has it. */
  lemma {:induction false} KeptBoxesMember(cs: seq<Contour>, minArea: int, b: Box)
    ensures b in KeptBoxes(cs, minArea) <==> exists j :: 0 <= j < |cs| && Large(cs[j], minArea) && cs[j].rect == b
    decreases |cs|
  {
    if |cs| > 0 {
      KeptBoxesMember(cs[1..], minArea, b);
      if b in KeptBoxes(cs[1..], minArea) {
        var j :| 0 <= j < |cs[1..]| && Large(cs[1..][j], minArea) && cs[1..][j].rect == b;
        assert cs[j + 1] == cs[1..][j];
      }
      if exists j :: 0 <= j < |cs| && Large(cs[j], minArea) && cs[j].rect == b {
        var j :| 0 <= j < |cs| && Large(cs[j], minArea) && cs[j].rect == b;
        if j > 0 {
          assert cs[1..][j - 1] == cs[j];
        }
      }
    }
  }

  /** Past warm-up, a detector with a background reports a rectangle exactly
      when some large-enough contour of the frame's mask has it. */
  lemma UpdateBoxesMember<F, G, B, M>(d: Detector<B>, v: Vision<F, G, B, M>, frame: F, b: Box)
    requires d.bg.Some? && d.frameCount + 1 >= d.cfg.warmupFrames
    ensures var r := Update(d, v, frame);
      var cs := v.contours(v.mask(v.grayBlur(frame, BlurKernel(d.cfg.blurKsize)), r.0.bg.value, MaskParamsOf(d.cfg)));
      b in r.1.boxes <==> exists j :: 0 <= j < |cs| && Large(cs[j], d.cfg.minContourArea) && cs[j].rect == b
  {
    var r := Update(d, v, frame);
    var cs := v.contours(v.mask(v.grayBlur(frame, BlurKernel(d.cfg.blurKsize)), r.0.bg.value, MaskParamsOf(d.cfg)));
    KeptBoxesMember(cs, d.cfg.minContourArea, b);
  }

  /** An odd configured kernel is used as is, so the rule is idempotent. */
  lemma BlurKernelIdempotent(k: int)
    ensures k % 2 == 1 ==> BlurKernel(k) == k
    ensures BlurKernel(BlurKernel(k)) == BlurKernel(k)
  {
  }

  /** The detector's life cycle. */
  datatype Phase = Uninitialized | Warming | Steady

  function PhaseOf<B>(d: Detector<B>): Phase {
    if d.bg.None? then Uninitialized
    else if d.frameCount < d.cfg.warmupFrames then Warming
    else Steady
  }

  /** Reset returns to Uninitialized; any update leaves it; Steady is never
      left by an update; motion is only reported by an update that ends in
      Steady. */
  lemma PhaseTransitions<F, G, B, M>(d: Detector<B>, v: Vision<F, G, B, M>, frame: F)
    ensures PhaseOf(Reset(d)) == Uninitialized
    ensures PhaseOf(Update(d, v, frame).0) != Uninitialized
    ensures PhaseOf(d) == Steady ==> PhaseOf(Update(d, v, frame).0) == Steady
    ensures Update(d, v, frame).1.hasMotion ==> PhaseOf(d) != Uninitialized && PhaseOf(Update(d, v, frame).0) == Steady
  {
  }

  /** Warm-up gates only the verdict: a detector differing only in its warm-up
      length ends in the same background and frame count and reports the same
      score, and once both are past warm-up the same result. */
  lemma WarmupOnlyGates<F, G, B, M>(d: Detector<B>, v: Vision<F, G, B, M>, frame: F, warmupFrames: int)
    ensures var d' := d.(cfg := d.cfg.(warmupFrames := warmupFrames));
      var r := Update(d, v, frame);
      var r' := Update(d', v, frame);
      && r.0.bg == r'.0.bg && r.0.frameCount == r'.0.frameCount
      && r.1.motionScore == r'.1.motionScore
      && (r.0.frameCount >= d.cfg.warmupFrames && r.0.frameCount >= warmupFrames ==> r.1 == r'.1)
  {
  }

  /** Feeds a stream of frames to the detector, collecting one result per frame. */
  function Run<F, G, B, M>(d: Detector<B>, v: Vision<F, G, B, M>, frames: seq<F>): (r: (Detector<B>, seq<MotionResult>))
    ensures |r.1| == |frames|
    ensures r.0.cfg == d.cfg && r.0.frameCount == d.frameCount + |frames|
    ensures |frames| > 0 ==> r.0.bg.Some?
    decreases |frames|
  {
    if |frames| == 0 then (d, [])
    else
      var (d1, res) := Update(d, v, frames[0]);
      var (dn, rest) := Run(d1, v, frames[1..]);
      (dn, [res] + rest)
  }

  /** The i-th frame of a stream is the detector's `frameCount + i + 1`-th, and
      reports no motion while that count is below the warm-up length. */
  lemma {:induction false} WarmupSilence<F, G, B, M>(d: Detector<B>, v: Vision<F, G, B, M>, frames: seq<F>)
    ensures var res := Run(d, v, frames).1;
      forall i :: 0 <= i < |res| && d.frameCount + i + 1 < d.cfg.warmupFrames ==>
        !res[i].hasMotion && res[i].boxes == []
    decreases |frames|
  {
    if |frames| > 0 {
      var (d1, r1) := Update(d, v, frames[0]);
      WarmupSilence(d1, v, frames[1..]);
      var res := Run(d, v, frames).1;
      assert res == [r1] + Run(d1, v, frames[1..]).1;
      forall i | 0 <= i < |res| && d.frameCount + i + 1 < d.cfg.warmupFrames
        ensures !res[i].hasMotion && res[i].boxes == []
      {
        if i > 0 {
          assert res[i] == Run(d1, v, frames[1..]).1[i - 1];
        }
      }
    }
  }

  /** After construction or reset the first frame reports the quiet result,
      and frames 1 .. warmupFrames - 1 report no motion. */
  lemma AfterReset<F, G, B, M>(d: Detector<B>, v: Vision<F, G, B, M>, frames: seq<F>)
    ensures var res := Run(Reset(d), v, frames).1;
      && (|frames| > 0 ==> res[0] == Quiet)
      && forall i :: 0 <= i < |res| && i + 1 < d.cfg.warmupFrames ==> !res[i].hasMotion && res[i].boxes == []
  {
    WarmupSilence(Reset(d), v, frames);
  }

  /** What a detector reports after a reset depends on its settings and the
      frames alone, not on anything it saw before. */
  lemma ResetForgetsHistory<F, G, B, M>(d1: Detector<B>, d2: Detector<B>, v: Vision<F, G, B, M>, frames: seq<F>)
    requires d1.cfg == d2.cfg
    ensures Run(Reset(d1), v, frames).1 == Run(Reset(d2), v, frames).1
  {
  }

  /** With the default settings (warm-up 15) frames 1 to 14 after a reset
      never report motion. */
  lemma DefaultWarmup<F, G, B, M>(v: Vision<F, G, B, M>, frames: seq<F>)
    ensures var res := Run(NewDetector<B>(DefaultConfig), v, frames).1;
      forall i :: 0 <= i < |res| && i < 14 ==> !res[i].hasMotion && res[i].boxes == []
  {
    WarmupSilence(NewDetector<B>(DefaultConfig), v, frames);
  }

}
