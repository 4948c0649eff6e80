/**
  Axis-aligned rectangles `(x, y, w, h)` in pixel coordinates and the envelope
  union the event builder uses to accumulate the region an event covers.
 */
module Geometry {

  import opened Options

  /** A bounding rectangle; the source keeps these as `(x, y, w, h)` tuples. */
  datatype Box = Box(x: int, y: int, w: int, h: int) {
    function Right(): int { x + w }
    function Bottom(): int { y + h }
  }

  function Min(a: int, b: int): int { if a <= b then a else b }
  function Max(a: int, b: int): int { if a >= b then a else b }

  /** `outer` covers `inner`: every edge of `inner` lies on or inside `outer`. */
  predicate Contains(outer: Box, inner: Box) {
    && outer.x <= inner.x
    && outer.y <= inner.y
    && inner.Right() <= outer.Right()
    && inner.Bottom() <= outer.Bottom()
  }

  /** The smallest rectangle enclosing both `a` and `b`: it contains both, and
      every rectangle that contains both contains it. */
  function MergeBbox(a: Box, b: Box): (r: Box)
    ensures Contains(r, a) && Contains(r, b)
    ensures forall c :: Contains(c, a) && Contains(c, b) ==> Contains(c, r)
  {
    var x1 := Min(a.x, b.x);
    var y1 := Min(a.y, b.y);
    var x2 := Max(a.Right(), b.Right());
    var y2 := Max(a.Bottom(), b.Bottom());
    Box(x1, y1, x2 - x1, y2 - y1)
  }

  /** One step of the accumulation loop: the first box seeds the envelope,
      later boxes extend it. */
  function Absorb(acc: Option<Box>, b: Box): Box {
    if acc.None? then b else MergeBbox(acc.value, b)
  }

  /** Folds `boxes`, left to right, into the accumulated envelope `acc`. The
      result is absent only when nothing was ever supplied, and it covers the
      previous envelope and every supplied box. */
  function Accumulate(acc: Option<Box>, boxes: seq<Box>): (r: Option<Box>)
    ensures r.None? <==> acc.None? && |boxes| == 0
    ensures r.Some? && acc.Some? ==> Contains(r.value, acc.value)
    ensures r.Some? ==> forall i :: 0 <= i < |boxes| ==> Contains(r.value, boxes[i])
    decreases |boxes|
  {
    if |boxes| == 0 then acc
    else Accumulate(Some(Absorb(acc, boxes[0])), boxes[1..])
  }

  /** The merged rectangle's edges are the outermost edges of the inputs. */
  lemma MergeEdges(a: Box, b: Box)
    ensures var r := MergeBbox(a, b);
      && r.x == Min(a.x, b.x) && r.y == Min(a.y, b.y)
      && r.Right() == Max(a.Right(), b.Right())
      && r.Bottom() == Max(a.Bottom(), b.Bottom())
  {
  }

  /** Containment is antisymmetric, so a least enclosing rectangle is unique. */
  lemma ContainsAntisymmetric(a: Box, b: Box)
    requires Contains(a, b) && Contains(b, a)
    ensures a == b
  {
  }

  /** The least-cover contract characterizes the merge: any rectangle that
      contains both inputs and lies inside every common cover is the merge. */
  lemma MergeBboxUnique(a: Box, b: Box, r: Box)
    requires Contains(r, a) && Contains(r, b)
    requires forall c :: Contains(c, a) && Contains(c, b) ==> Contains(c, r)
    ensures r == MergeBbox(a, b)
  {
    var m := MergeBbox(a, b);
    assert Contains(m, r);
    assert Contains(r, m);
    ContainsAntisymmetric(r, m);
  }

  lemma MergeCommutes(a: Box, b: Box)
    ensures MergeBbox(a, b) == MergeBbox(b, a)
  {
  }

  lemma MergeIdempotent(a: Box)
    ensures MergeBbox(a, a) == a
  {
  }

  lemma MergeAssociative(a: Box, b: Box, c: Box)
    ensures MergeBbox(MergeBbox(a, b), c) == MergeBbox(a, MergeBbox(b, c))
  {
  }

  /** The envelope of `(0,0,10,10)` and `(5,5,20,20)` is `(0,0,25,25)`. */
  lemma MergeExample()
    ensures MergeBbox(Box(0, 0, 10, 10), Box(5, 5, 20, 20)) == Box(0, 0, 25, 25)
  {
  }

  /** Every rectangle covering the previous envelope and all supplied boxes
      covers the accumulated envelope: accumulation adds nothing extra. */
  lemma {:induction false} AccumulateLeast(acc: Option<Box>, boxes: seq<Box>, c: Box)
    requires acc.Some? ==> Contains(c, acc.value)
    requires forall i :: 0 <= i < |boxes| ==> Contains(c, boxes[i])
    ensures Accumulate(acc, boxes).Some? ==> Contains(c, Accumulate(acc, boxes).value)
    decreases |boxes|
  {
    if |boxes| > 0 {
      AccumulateLeast(Some(Absorb(acc, boxes[0])), boxes[1..], c);
    }
  }

  /** Feeding two batches one after the other is feeding their concatenation. */
  lemma {:induction false} AccumulateAppend(acc: Option<Box>, s: seq<Box>, t: seq<Box>)
    ensures Accumulate(acc, s + t) == Accumulate(Accumulate(acc, s), t)
    decreases |s|
  {
    if |s| == 0 {
      assert s + t == t;
    } else {
      assert (s + t)[1..] == s[1..] + t;
      AccumulateAppend(Some(Absorb(acc, s[0])), s[1..], t);
    }
  }

  /** Starting from nothing, accumulation over a non-empty list is its envelope:
      the unique rectangle that covers every box and lies inside every cover. */
  lemma AccumulateIsEnvelope(boxes: seq<Box>)
    requires |boxes| > 0
    ensures Accumulate(None, boxes).Some?
    ensures forall i :: 0 <= i < |boxes| ==> Contains(Accumulate(None, boxes).value, boxes[i])
    ensures forall c :: (forall i :: 0 <= i < |boxes| ==> Contains(c, boxes[i]))
                        ==> Contains(c, Accumulate(None, boxes).value)
  {
    forall c | forall i :: 0 <= i < |boxes| ==> Contains(c, boxes[i])
      ensures Contains(c, Accumulate(None, boxes).value)
    {
      AccumulateLeast(None, boxes, c);
    }
  }

}
