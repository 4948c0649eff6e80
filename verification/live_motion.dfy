/**
  The adaptive-background motion detector for live feeds. The pixel work
  (grayscale, Gaussian blur, running-average background, threshold,
  morphology, contours, changed-pixel fraction) is a record of uninterpreted
  functions; what is modelled is the state around it: the background-present
  flag, the frame counter, the odd blur kernel, the erosion floor, the contour
  area filter and the warm-up gate.
 */
module LiveMotion {

  import opened Options
  import opened Geometry

  /** Detector settings. */
  datatype LiveMotionConfig = LiveMotionConfig(
    diffThreshold: int,
    minContourArea: int,
    blurKsize: int,
    morphIters: int,
    alpha: real,
    warmupFrames: int)

  /** The settings the detector is built with by default. */
  const DefaultConfig := LiveMotionConfig(25, 800, 21, 2, 0.05, 15)

  /** One frame's verdict: motion flag, surviving boxes, fraction of changed
      pixels. */
  datatype MotionResult = MotionResult(hasMotion: bool, boxes: seq<Box>, motionScore: real)

  /** The result reported while no verdict can be given. */
  const Quiet := MotionResult(false, [], 0.0)

  /** An outer contour of the motion mask: its area and its bounding rectangle. */
  datatype Contour = Contour(area: real, rect: Box)

  /** Threshold and morphology settings handed to the mask computation. */
  datatype MaskParams = MaskParams(diffThreshold: int, dilateIters: int, erodeIters: int)

  /** The image pipeline, left uninterpreted. `F` is an input frame, `G` its
      blurred grayscale, `B` the floating-point background and `M` the binary
      motion mask. */
  datatype Vision<!F, !G, !B, !M> = Vision(
    grayBlur: (F, int) -> G,          // grayscale, then a k-by-k Gaussian blur
    seed: G -> B,                     // the first background: the frame as floats
    blend: (G, B, real) -> B,         // running average with weight alpha
    mask: (G, B, MaskParams) -> M,    // |frame - background|, threshold, dilate, erode
    contours: M -> seq<Contour>,      // outer contours with their areas and rectangles
    score: M -> real)                 // fraction of mask pixels set

  /** Detector state: the settings, the background if one exists, and the
      number of frames seen since construction or the latest reset. */
  datatype Detector<B> = Detector(cfg: LiveMotionConfig, bg: Option<B>, frameCount: int)

  /** A freshly constructed detector has no background and has seen no frame. */
  function NewDetector<B>(cfg: LiveMotionConfig): (d: Detector<B>)
    ensures d.cfg == cfg && d.bg.None? && d.frameCount == 0
  {
    Detector(cfg, None, 0)
  }

  /** Discards the background and the frame count, keeping the settings: the
      detector is as if just constructed. */
  function Reset<B>(d: Detector<B>): (r: Detector<B>)
    ensures r == NewDetector(d.cfg)
  {
    d.(bg := None, frameCount := 0)
  }

  /** The blur kernel actually used: the least odd size not below the
      configured one. */
  function BlurKernel(k: int): (r: int)
    ensures r % 2 == 1
    ensures k <= r <= k + 1
  {
    if k % 2 == 0 then k + 1 else k
  }

  /** The erosion pass count: one less than the dilation count, but never
      fewer than one pass. */
  function ErodeIters(morphIters: int): (r: int)
    ensures r >= 1 && r >= morphIters - 1
    ensures r == 1 || r == morphIters - 1
  {
    Max(1, morphIters - 1)
  }

  /** The mask settings derived from the detector settings. */
  function MaskParamsOf(cfg: LiveMotionConfig): (p: MaskParams)
    ensures p.diffThreshold == cfg.diffThreshold
    ensures p.dilateIters == cfg.morphIters
    ensures p.erodeIters == ErodeIters(cfg.morphIters) && p.erodeIters >= 1
    // one more dilation pass than erosion passes, until the erosion floor
    ensures cfg.morphIters >= 2 ==> p.dilateIters == p.erodeIters + 1
    ensures cfg.morphIters <= 1 ==> p.erodeIters == 1
  {
    MaskParams(cfg.diffThreshold, cfg.morphIters, ErodeIters(cfg.morphIters))
  }

  /** Whether a contour is large enough to report. */
  predicate Large(c: Contour, minArea: int) {
    c.area >= minArea as real
  }

  /** The rectangles of the contours whose area reaches `minArea`, in contour
      order. */
  function KeptBoxes(cs: seq<Contour>, minArea: int): (r: seq<Box>)
    ensures |r| <= |cs|
    ensures r == [] <==> forall j :: 0 <= j < |cs| ==> !Large(cs[j], minArea)
    decreases |cs|
  {
    if |cs| == 0 then []
    else (if Large(cs[0], minArea) then [cs[0].rect] else []) + KeptBoxes(cs[1..], minArea)
  }

  /** What the pixel pipeline yields for a frame once a background exists:
      the blended background, the large contours' rectangles and the score,
      before any warm-up gating. */
  datatype Measurement<B> = Measurement(bg: B, boxes: seq<Box>, score: real)

  function Measure<F, G, B, M>(cfg: LiveMotionConfig, v: Vision<F, G, B, M>, bg: B, frame: F): (r: Measurement<B>)
    // the background is blended with the frame blurred by the odd kernel first
    ensures r.bg == v.blend(v.grayBlur(frame, BlurKernel(cfg.blurKsize)), bg, cfg.alpha)
    // the mask is then taken against the blended background, and a box
    // survives only from a large-enough contour of it
    ensures var cs := v.contours(v.mask(v.grayBlur(frame, BlurKernel(cfg.blurKsize)), r.bg, MaskParamsOf(cfg)));
      && |r.boxes| <= |cs|
      && (r.boxes == [] <==> forall j :: 0 <= j < |cs| ==> !Large(cs[j], cfg.minContourArea))
    // the boxes are exactly the large contours' rectangles in contour order,
    // and the score is the mask's changed-pixel fraction
    ensures var m := v.mask(v.grayBlur(frame, BlurKernel(cfg.blurKsize)), r.bg, MaskParamsOf(cfg));
      r.boxes == KeptBoxes(v.contours(m), cfg.minContourArea) && r.score == v.score(m)
  {
    var gray := v.grayBlur(frame, BlurKernel(cfg.blurKsize));
    var bg' := v.blend(gray, bg, cfg.alpha);
    var m := v.mask(gray, bg', MaskParamsOf(cfg));
    Measurement(bg', KeptBoxes(v.contours(m), cfg.minContourArea), v.score(m))
  }

  /** Processes one frame: counts it, and either adopts it as the first
      background (reporting nothing) or blends it into the background and
      reports the large contours, unless still warming up. */
  function Update<F, G, B, M>(d: Detector<B>, v: Vision<F, G, B, M>, frame: F): (r: (Detector<B>, MotionResult))
    ensures r.0.cfg == d.cfg && r.0.frameCount == d.frameCount + 1 && r.0.bg.Some?
    // the first frame after construction or reset only becomes the background
    ensures d.bg.None? ==> r.1 == Quiet && r.0.bg == Some(v.seed(v.grayBlur(frame, BlurKernel(d.cfg.blurKsize))))
    // no motion is ever reported during warm-up
    ensures r.0.frameCount < d.cfg.warmupFrames ==> !r.1.hasMotion && r.1.boxes == []
    // afterwards motion is reported exactly when some box survives
    ensures d.bg.Some? && r.0.frameCount >= d.cfg.warmupFrames ==> (r.1.hasMotion <==> r.1.boxes != [])
    ensures r.1.hasMotion ==> d.bg.Some? && r.0.frameCount >= d.cfg.warmupFrames
    // with a background, the measured score is reported even during warm-up,
    // and the measured boxes once warm-up is over
    ensures d.bg.Some? ==> var ms := Measure(d.cfg, v, d.bg.value, frame);
      && r.0.bg == Some(ms.bg)
      && r.1.motionScore == ms.score
      && (r.0.frameCount >= d.cfg.warmupFrames ==> r.1.boxes == ms.boxes)
  {
    var n := d.frameCount + 1;
    if d.bg.None? then
      var gray := v.grayBlur(frame, BlurKernel(d.cfg.blurKsize));
      (d.(bg := Some(v.seed(gray)), frameCount := n), Quiet)
    else
      var ms := Measure(d.cfg, v, d.bg.value, frame);
      var d' := d.(bg := Some(ms.bg), frameCount := n);
      if n < d.cfg.warmupFrames then (d', MotionResult(false, [], ms.score))
      else (d', MotionResult(|ms.boxes| > 0, ms.boxes, ms.score))
  }

}
