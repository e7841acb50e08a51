/**
 The face gate of `extract_faces`: which detector results become face crops,
 and the pixel window each crop is cut from. Pixels, colour conversion and
 resizing are not modelled; a crop is represented by its window.
 */
module FaceExtract {

  /** A detector box as the detector reports it: origin, width and height in pixels. */
  datatype Box = Box(x: int, y: int, w: int, h: int)

  /** One raw detector result. */
  datatype Detection = Detection(box: Box, confidence: real)

  /** The window cut out of the frame: columns [left, right), rows [top, bottom). */
  datatype Window = Window(left: int, top: int, right: int, bottom: int)

  /** Detections below this confidence are dropped. */
  const MinConfidence: real := 0.8

  /** Extra context around a face box; half of it goes on each side. */
  const Margin: int := 44
  const HalfMargin: int := Margin / 2

  function Abs(v: int): nat { if v < 0 then -v else v }

  /** The gate: a detection is skipped only when its confidence is below 0.8. */
  predicate Passes(d: Detection) {
    !(d.confidence < MinConfidence)
  }

  /** Near edge on one axis: the (absolute) origin moved out by half the margin, floored at 0. */
  function NearEdge(origin: int): int {
    var o := Abs(origin);
    if o - HalfMargin > 0 then o - HalfMargin else 0
  }

  /** Far edge on one axis: the box end moved out by half the margin, capped at the frame size. */
  function FarEdge(origin: int, extent: int, limit: nat): int {
    var e := Abs(origin) + extent;
    if e + HalfMargin < limit then e + HalfMargin else limit
  }

  /** The crop window of one detector box in a frame of the given size. */
  function CropWindow(b: Box, width: nat, height: nat): (r: Window)
    ensures 0 <= r.left && r.right <= width
    ensures 0 <= r.top && r.bottom <= height
  {
    Window(NearEdge(b.x), NearEdge(b.y), FarEdge(b.x, b.w, width), FarEdge(b.y, b.h, height))
  }

  /**
   When the (absolute) origin lies inside the frame and the box has a
   non-negative size, the window is not inverted.
   */
  lemma CropWindowNotInverted(b: Box, width: nat, height: nat)
    requires Abs(b.x) <= width && b.w >= 0
    requires Abs(b.y) <= height && b.h >= 0
    ensures CropWindow(b, width, height).left <= CropWindow(b, width, height).right
    ensures CropWindow(b, width, height).top <= CropWindow(b, width, height).bottom
  {
  }

  /**
   When the box lies inside the frame, the window contains it and reaches at
   most half the margin beyond it on every side.
   */
  lemma CropWindowCoversBox(b: Box, width: nat, height: nat)
    requires b.w >= 0 && Abs(b.x) + b.w <= width
    requires b.h >= 0 && Abs(b.y) + b.h <= height
    ensures var r := CropWindow(b, width, height);
      && r.left <= Abs(b.x) && Abs(b.x) + b.w <= r.right
      && Abs(b.x) - r.left <= HalfMargin && r.right - (Abs(b.x) + b.w) <= HalfMargin
      && r.top <= Abs(b.y) && Abs(b.y) + b.h <= r.bottom
      && Abs(b.y) - r.top <= HalfMargin && r.bottom - (Abs(b.y) + b.h) <= HalfMargin
  {
  }

  /** The detections that pass the gate, in detector order. */
  function Accepted(dets: seq<Detection>): (r: seq<Detection>)
    ensures |r| <= |dets|
    ensures forall j :: 0 <= j < |r| ==> Passes(r[j])
    decreases |dets|
  {
    if dets == [] then []
    else
      var rest := Accepted(dets[..|dets| - 1]);
      if Passes(dets[|dets| - 1]) then rest + [dets[|dets| - 1]] else rest
  }

  /** The detector positions of the accepted detections, in detector order. */
  ghost function KeptPositions(dets: seq<Detection>): (idx: seq<nat>)
    ensures |idx| == |Accepted(dets)|
    ensures forall j :: 0 <= j < |idx| ==> idx[j] < |dets| && Accepted(dets)[j] == dets[idx[j]]
    decreases |dets|
  {
    if dets == [] then []
    else
      var n := |dets| - 1;
      var rest := KeptPositions(dets[..n]);
      if Passes(dets[n]) then rest + [n] else rest
  }

  /** The kept positions are strictly increasing: detector order is preserved. */
  lemma {:induction false} KeptPositionsInOrder(dets: seq<Detection>)
    ensures forall j, k :: 0 <= j < k < |KeptPositions(dets)| ==> KeptPositions(dets)[j] < KeptPositions(dets)[k]
    decreases |dets|
  {
    if dets != [] {
      var n := |dets| - 1;
      KeptPositionsInOrder(dets[..n]);
      var rest := KeptPositions(dets[..n]);
      assert forall j :: 0 <= j < |rest| ==> rest[j] < n;
    }
  }

  /** A detector position is kept exactly when its detection passes the gate. */
  lemma {:induction false} KeptPositionsIff(dets: seq<Detection>)
    ensures forall i :: 0 <= i < |dets| ==> (Passes(dets[i]) <==> i in KeptPositions(dets))
    decreases |dets|
  {
    if dets != [] {
      var n := |dets| - 1;
      var pre := dets[..n];
      KeptPositionsIff(pre);
      var rest := KeptPositions(pre);
      var idx := KeptPositions(dets);
      assert forall j :: 0 <= j < |rest| ==> rest[j] < n;
      assert idx == if Passes(dets[n]) then rest + [n] else rest;
      forall i | 0 <= i < |dets|
        ensures Passes(dets[i]) <==> i in idx
      {
        if i < n {
          assert pre[i] == dets[i];
        }
      }
    }
  }

  /** A face is accepted exactly when its detection passes the gate; 0.8 itself passes. */
  lemma {:induction false} AcceptedIff(dets: seq<Detection>, d: Detection)
    ensures d in Accepted(dets) <==> d in dets && d.confidence >= 0.8
    decreases |dets|
  {
    if dets != [] {
      var n := |dets| - 1;
      AcceptedIff(dets[..n], d);
      assert dets == dets[..n] + [dets[n]];
    }
  }

  /**
   `extract_faces`: walks the detector results, skips those below the gate,
   and for each kept one records its crop window and its raw detector box.
   */
  method ExtractFaces(dets: seq<Detection>, width: nat, height: nat)
    returns (faces: seq<Window>, boxes: seq<Box>)
    ensures |faces| == |boxes| == |Accepted(dets)| <= |dets|
    ensures forall j :: 0 <= j < |boxes| ==> boxes[j] == Accepted(dets)[j].box
    ensures forall j :: 0 <= j < |faces| ==> faces[j] == CropWindow(boxes[j], width, height)
  {
    faces, boxes := [], [];
    var i := 0;
    while i < |dets|
      invariant 0 <= i <= |dets|
      invariant |faces| == |boxes| == |Accepted(dets[..i])|
      invariant forall j :: 0 <= j < |boxes| ==> boxes[j] == Accepted(dets[..i])[j].box
      invariant forall j :: 0 <= j < |faces| ==> faces[j] == CropWindow(boxes[j], width, height)
    {
      assert dets[..i + 1][..i] == dets[..i];
      var face := dets[i];
      if face.confidence < MinConfidence {
        i := i + 1;
        continue;
      }
      var window := CropWindow(face.box, width, height);
      faces := faces + [window];
      boxes := boxes + [face.box];
      i := i + 1;
    }
    assert dets[..i] == dets;
  }
}
