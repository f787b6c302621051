/** The candidate-selection and crop step of the text-zone search
    (`zoneOut`). The raster pipeline that precedes it is abstracted to its
    output: the bounding boxes of the external contours, in the order the
    contour finder reported them, and the frame's dimensions. */
module ZoneSearch {
  import opened Geometry

  datatype Option<T> = None | Some(value: T)

  /** The outcome of a successful search: the position of the accepted
      contour in the scan, its bounding box, and the padded region that was
      cropped out of the frame (the returned image has that region's size
      before the final shrink). */
  datatype Zone = Zone(index: nat, candidate: Box, region: Rect)

  /** Box `i` is the first box, in scan order, that passes the test. */
  predicate IsFirstAccepted(boxes: seq<Box>, f: Frame, i: nat) {
    && i < |boxes|
    && Accepts(boxes[i], f)
    && forall j :: 0 <= j < i ==> !Accepts(boxes[j], f)
  }

  /** No box passes the test. */
  predicate NoneAccepted(boxes: seq<Box>, f: Frame) {
    forall j :: 0 <= j < |boxes| ==> !Accepts(boxes[j], f)
  }

  /** The region can be cropped and yields a non-empty image. */
  predicate Croppable(r: Rect, f: Frame) {
    InFrame(r, f) && r.width > 0 && r.height > 0
  }

  /** At most one index is the first accepted one. */
  lemma FirstAcceptedUnique(boxes: seq<Box>, f: Frame, i: nat, j: nat)
    requires IsFirstAccepted(boxes, f, i) && IsFirstAccepted(boxes, f, j)
    ensures i == j
  {
  }

  /** Every first accepted index is the given one. */
  lemma OnlyFirstAccepted(boxes: seq<Box>, f: Frame, i: nat)
    requires IsFirstAccepted(boxes, f, i)
    ensures forall j: nat :: IsFirstAccepted(boxes, f, j) ==> j == i
  {
    forall j: nat | IsFirstAccepted(boxes, f, j) {
      FirstAcceptedUnique(boxes, f, i, j);
    }
  }

  /** Linear first-match search: scans from the front and stops at the
      first box that passes. No ordering by size takes place. */
  function FirstAccepted(boxes: seq<Box>, f: Frame): (r: Option<nat>)
    ensures r.Some? ==> IsFirstAccepted(boxes, f, r.value)
    ensures r.None? <==> NoneAccepted(boxes, f)
  {
    if |boxes| == 0 then None
    else if Accepts(boxes[0], f) then Some(0)
    else match FirstAccepted(boxes[1..], f)
      case None => None
      case Some(k) => Some(k + 1)
  }

  /** `zoneOut` on the contour boxes of a frame: the zone of the first
      passing box when its padded region crops to a non-empty image, and no
      zone otherwise (`zoneOut`'s `null`). */
  function ZoneOut(boxes: seq<Box>, f: Frame): (z: Option<Zone>)
    ensures z.Some? ==>
      && IsFirstAccepted(boxes, f, z.value.index)
      && z.value.candidate == boxes[z.value.index]
      && z.value.region == Padded(z.value.candidate)
      && Croppable(z.value.region, f)
      && Contains(z.value.region, z.value.candidate)
    ensures z.Some? <==>
      exists i: nat :: IsFirstAccepted(boxes, f, i) && Croppable(Padded(boxes[i]), f)
  {
    match FirstAccepted(boxes, f)
    case None => None
    case Some(i) =>
      var roi := CropInto(f, Padded(boxes[i]));
      if !roi.Empty() && roi.cols > 0 then
        Some(Zone(i, boxes[i], Padded(boxes[i])))
      else
        OnlyFirstAccepted(boxes, f, i);
        None
  }

  /** `zoneOut`'s loop, statement for statement: scan in order, and at the
      first passing box pad it, try the crop (an out-of-range request leaves
      `roi` empty) and `break` regardless of the crop's outcome. */
  method ScanContours(boxes: seq<Box>, f: Frame) returns (z: Option<Zone>)
    ensures z == ZoneOut(boxes, f)
    ensures z.Some? ==>
      && IsFirstAccepted(boxes, f, z.value.index)
      && z.value.candidate == boxes[z.value.index]
      && z.value.region == Padded(z.value.candidate)
      && Croppable(z.value.region, f)
    ensures NoneAccepted(boxes, f) ==> z.None?
  {
    var roi := Mat(0, 0);
    var chosen: Option<nat> := None;
    var i := 0;
    while i < |boxes|
      invariant 0 <= i <= |boxes|
      invariant forall j :: 0 <= j < i ==> !Accepts(boxes[j], f)
      invariant roi == Mat(0, 0) && chosen.None?
    {
      var rect := boxes[i];
      if Accepts(rect, f) {
        var region := Padded(rect);
        roi := CropInto(f, region);
        chosen := Some(i);
        break;
      }
      i := i + 1;
    }
    if !roi.Empty() && roi.cols > 0 {
      var k := chosen.value;
      z := Some(Zone(k, boxes[k], Padded(boxes[k])));
    } else {
      z := None;
    }
  }

  // ---------------------------------------------------------------------
  // Properties of the search
  // ---------------------------------------------------------------------

  /** No passing box, no zone. */
  lemma NoCandidateNoZone(boxes: seq<Box>, f: Frame)
    requires NoneAccepted(boxes, f)
    ensures ZoneOut(boxes, f).None?
  {
  }

  /** Once the first passing box is found the scan stops: if its padded
      region cannot be cropped the result is no zone, whatever passing and
      croppable boxes come later. */
  lemma FailedCropEndsSearch(boxes: seq<Box>, f: Frame, i: nat, j: nat)
    requires IsFirstAccepted(boxes, f, i) && !Croppable(Padded(boxes[i]), f)
    requires i < j < |boxes| && Accepts(boxes[j], f) && Croppable(Padded(boxes[j]), f)
    ensures ZoneOut(boxes, f).None?
  {
    if ZoneOut(boxes, f).Some? {
      FirstAcceptedUnique(boxes, f, i, ZoneOut(boxes, f).value.index);
    }
  }

  /** The first passing box decides the outcome: the result is a zone for
      it exactly when its padded region can be cropped. */
  lemma FirstCandidateDecides(boxes: seq<Box>, f: Frame, i: nat)
    requires IsFirstAccepted(boxes, f, i)
    ensures Croppable(Padded(boxes[i]), f) ==> ZoneOut(boxes, f) == Some(Zone(i, boxes[i], Padded(boxes[i])))
    ensures !Croppable(Padded(boxes[i]), f) ==> ZoneOut(boxes, f).None?
  {
    var z := ZoneOut(boxes, f);
    if Croppable(Padded(boxes[i]), f) {
      assert IsFirstAccepted(boxes, f, i) && Croppable(Padded(boxes[i]), f);
    }
    if z.Some? {
      FirstAcceptedUnique(boxes, f, i, z.value.index);
    }
  }

  /** A first passing box whose left edge lies within its own horizontal
      margin of the frame edge (for instance one at `x == 0` at least 34
      pixels wide) always yields no zone: there is no clamping. */
  lemma LeftEdgeCandidateNoZone(boxes: seq<Box>, f: Frame, i: nat)
    requires IsFirstAccepted(boxes, f, i)
    requires boxes[i].x < PadX(boxes[i]) || (boxes[i].x == 0 && boxes[i].width >= 34)
    ensures ZoneOut(boxes, f).None?
  {
    LeftMarginOutOfFrame(boxes[i], f);
    FirstCandidateDecides(boxes, f, i);
  }

  /** A first passing box one pixel high whose bottom edge is above row 34
      gets no vertical margin, so a croppable one yields a zone one pixel
      high. */
  lemma OnePixelHighZone(boxes: seq<Box>, f: Frame, i: nat)
    requires IsFirstAccepted(boxes, f, i)
    requires boxes[i].height == 1 && boxes[i].y <= 32
    requires Croppable(Padded(boxes[i]), f)
    ensures ZoneOut(boxes, f).Some? && ZoneOut(boxes, f).value.region.height == 1
  {
    ThreePercentZero(boxes[i].y + boxes[i].height);
    FirstCandidateDecides(boxes, f, i);
  }

  /** Boxes after the first passing one are never looked at: appending more
      contours leaves the result unchanged. */
  lemma {:induction false} FirstAcceptedPrefix(boxes: seq<Box>, rest: seq<Box>, f: Frame)
    requires !NoneAccepted(boxes, f)
    ensures FirstAccepted(boxes + rest, f) == FirstAccepted(boxes, f)
  {
    assert |boxes| > 0;
    assert (boxes + rest)[0] == boxes[0];
    if !Accepts(boxes[0], f) {
      assert (boxes + rest)[1..] == boxes[1..] + rest;
      var j :| 0 <= j < |boxes| && Accepts(boxes[j], f);
      assert j > 0 && Accepts(boxes[1..][j - 1], f);
      FirstAcceptedPrefix(boxes[1..], rest, f);
    }
  }

  /** Boxes after the first passing one never change the outcome. */
  lemma ZoneOutPrefix(boxes: seq<Box>, rest: seq<Box>, f: Frame)
    requires !NoneAccepted(boxes, f)
    ensures ZoneOut(boxes + rest, f) == ZoneOut(boxes, f)
  {
    FirstAcceptedPrefix(boxes, rest, f);
    var i := FirstAccepted(boxes, f).value;
    assert (boxes + rest)[i] == boxes[i];
  }

  /** Contours that come first and fail the test only shift the index. */
  lemma {:induction false} FirstAcceptedSkipsRejected(rejected: seq<Box>, rest: seq<Box>, f: Frame)
    requires NoneAccepted(rejected, f)
    ensures FirstAccepted(rejected + rest, f) ==
      match FirstAccepted(rest, f)
      case None => None
      case Some(k) => Some(k + |rejected|)
  {
    if |rejected| > 0 {
      assert (rejected + rest)[0] == rejected[0];
      assert (rejected + rest)[1..] == rejected[1..] + rest;
      assert !Accepts(rejected[0], f);
      FirstAcceptedSkipsRejected(rejected[1..], rest, f);
    } else {
      assert rejected + rest == rest;
    }
  }

  /** The result depends on the contour finder's order: with two passing,
      croppable boxes the one reported first wins, so swapping them swaps
      the outcome. */
  lemma OrderDecides(a: Box, b: Box, f: Frame)
    requires Accepts(a, f) && Croppable(Padded(a), f)
    requires Accepts(b, f) && Croppable(Padded(b), f)
    ensures ZoneOut([a, b], f) == Some(Zone(0, a, Padded(a)))
    ensures ZoneOut([b, a], f) == Some(Zone(0, b, Padded(b)))
  {
    FirstCandidateDecides([a, b], f, 0);
    FirstCandidateDecides([b, a], f, 0);
  }
}
