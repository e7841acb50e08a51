/**
 `detect_face`: how one sampled frame's classified faces turn into entries
 of the `list_faces.txt` log. The running label (`name_tag`, `time_start`)
 and the threshold are locals of one call; the threshold is multiplied by
 100 before every face's comparison, so it compounds from face to face.
 */
module Timeline {
  import opened FaceExtract
  import opened Clock

  datatype Option<T> = None | Some(value: T)

  /** The classifier's answer for one face crop: the argmax class, its name and its probability. */
  datatype Classification = Classification(index: int, name: string, prob: real)

  /**
   One line appended to the log: a point `Time(hh:mm:ss),label:score` in
   target mode, a range `Time(start-end),label` in open mode.
   */
  datatype Entry =
    | Point(at: Tod, name: string, score: real)
    | Range(name: string, start: Tod, end: Tod)

  /** The `id` that selects open search. */
  const AnyPerson: int := -1

  /** The run's settings as `detect_face` receives them. */
  datatype Config = Config(id: int, threshold: real, exportVideo: bool, fps: real, frameCount: int)

  /** One decoded frame as the model sees it: its size, the detector's results, and the classifier's answers. */
  datatype FrameInput = FrameInput(width: nat, height: nat, dets: seq<Detection>, classes: seq<Classification>)

  /** The classifier answers once per accepted face, in face order. */
  predicate WellFormed(f: FrameInput) {
    |f.classes| == |Accepted(f.dets)|
  }

  /** The locals of the face loop, plus what it has logged and which boxes it has drawn. */
  datatype Scan = Scan(nameTag: string, timeStart: Option<Tod>, threshold: real, entries: seq<Entry>, drawn: seq<Box>)

  /** A non-empty running label always has a start time. */
  predicate Consistent(s: Scan) {
    s.nameTag != "" ==> s.timeStart.Some?
  }

  /**
   One pass of the face loop for a face classified as `c` with raw box `box`
   at frame time `now`: it keeps a set label paired with a start time,
   multiplies the threshold by 100, and logs and draws at most one item each.
   */
  function Step(s: Scan, id: int, now: Tod, c: Classification, box: Box): (r: Scan)
    requires Consistent(s)
    ensures Consistent(r)
    ensures r.threshold == s.threshold * 100.0
    ensures |s.entries| <= |r.entries| <= |s.entries| + 1
    ensures |s.drawn| <= |r.drawn| <= |s.drawn| + 1
  {
    var threshold := s.threshold * 100.0;
    var score := c.prob * 100.0;
    if id != AnyPerson then
      if score > threshold && c.index == id then
        s.(threshold := threshold, entries := s.entries + [Point(now, c.name, score)], drawn := s.drawn + [box])
      else
        s.(threshold := threshold)
    else if score > threshold then
      if s.nameTag == "" then
        s.(threshold := threshold, nameTag := c.name, timeStart := Some(now), drawn := s.drawn + [box])
      else if s.nameTag != c.name then
        s.(threshold := threshold, entries := s.entries + [Range(s.nameTag, s.timeStart.value, now)],
           nameTag := c.name, timeStart := Some(now), drawn := s.drawn + [box])
      else
        s.(threshold := threshold, drawn := s.drawn + [box])
    else
      s.(threshold := threshold)
  }

  /**
   One pass only appends: the log gains nothing, a point for this face, or
   the range closed by a change of label; the drawn boxes gain nothing or
   this face's box.
   */
  lemma StepAppends(s: Scan, id: int, now: Tod, c: Classification, box: Box)
    requires Consistent(s)
    ensures var r := Step(s, id, now, c, box);
      && (r.entries == s.entries
          || r.entries == s.entries + [Point(now, c.name, c.prob * 100.0)]
          || (s.timeStart.Some? && r.entries == s.entries + [Range(s.nameTag, s.timeStart.value, now)]))
      && (r.drawn == s.drawn || r.drawn == s.drawn + [box])
  {
  }

  /** The face loop's state after the first `k` faces, starting from an empty running label. */
  function ScanFaces(id: int, now: Tod, threshold: real, classes: seq<Classification>, faces: seq<Detection>, k: nat): (s: Scan)
    requires k <= |classes| && k <= |faces|
    ensures Consistent(s)
    ensures |s.entries| <= k && |s.drawn| <= k
    decreases k
  {
    if k == 0 then Scan("", None, threshold, [], [])
    else Step(ScanFaces(id, now, threshold, classes, faces, k - 1), id, now, classes[k - 1], faces[k - 1].box)
  }

  /** What one call of `detect_face` leaves behind. */
  datatype FrameResult = FrameResult(entries: seq<Entry>, drawn: seq<Box>, imageWritten: bool, flushFailed: bool)

  /**
   The frame time `round(frame_number / fps, 2)` as hours, minutes, seconds:
   minutes and seconds in range, adding up to within 0.005 s of the exact time.
   */
  function FrameTime(frameNumber: nat, fps: real): (t: Tod)
    requires fps > 0.0
    ensures t.hours >= 0 && 0 <= t.minutes < 60 && 0.0 <= t.seconds < 60.0
    ensures -0.005 <= 3600.0 * t.hours as real + 60.0 * t.minutes as real + t.seconds - frameNumber as real / fps <= 0.005
  {
    TimeOfDay(Round2(frameNumber as real / fps))
  }

  /**
   The whole of `detect_face` for one frame: the early return for an exported
   frame without faces, the face loop, and the final-frame flush in open
   mode, which fails when no face set the running label.
   */
  function FrameOutput(cfg: Config, frameNumber: nat, frame: FrameInput): (r: FrameResult)
    requires cfg.fps > 0.0 && WellFormed(frame)
    ensures r.imageWritten == cfg.exportVideo
    ensures r.flushFailed ==> frameNumber == cfg.frameCount && cfg.id == AnyPerson
    ensures |r.drawn| <= |Accepted(frame.dets)| && |r.entries| <= |Accepted(frame.dets)| + 1
  {
    var faces := Accepted(frame.dets);
    if |faces| == 0 && cfg.exportVideo then FrameResult([], [], true, false)
    else
      var now := FrameTime(frameNumber, cfg.fps);
      var s := ScanFaces(cfg.id, now, cfg.threshold, frame.classes, faces, |faces|);
      if frameNumber == cfg.frameCount && cfg.id == AnyPerson then
        match s.timeStart
        case None => FrameResult(s.entries, s.drawn, cfg.exportVideo, true)
        case Some(start) => FrameResult(s.entries + [Range(s.nameTag, start, now)], s.drawn, cfg.exportVideo, false)
      else
        FrameResult(s.entries, s.drawn, cfg.exportVideo, false)
  }

  /**
   `detect_face`: extracts the faces, walks them with the running label and
   the compounding threshold, writes the frame image when exporting, and
   flushes the running label on the last frame in open mode.
   */
  method DetectFace(cfg: Config, frameNumber: nat, frame: FrameInput) returns (res: FrameResult)
    requires cfg.fps > 0.0 && WellFormed(frame)
    ensures res == FrameOutput(cfg, frameNumber, frame)
    ensures res.imageWritten == cfg.exportVideo
    ensures res.flushFailed ==> frameNumber == cfg.frameCount && cfg.id == AnyPerson
  {
    var nameTag: string := "";
    var timeStart: Option<Tod> := None;
    var threshold := cfg.threshold;
    var entries: seq<Entry> := [];
    var drawn: seq<Box> := [];
    var faces, boxes := ExtractFaces(frame.dets, frame.width, frame.height);
    if |faces| == 0 && cfg.exportVideo {
      return FrameResult([], [], true, false);
    }
    ghost var now := FrameTime(frameNumber, cfg.fps);
    var timeCur: Option<Tod> := None;
    var i := 0;
    while i < |faces|
      invariant 0 <= i <= |faces|
      invariant Scan(nameTag, timeStart, threshold, entries, drawn)
             == ScanFaces(cfg.id, now, cfg.threshold, frame.classes, Accepted(frame.dets), i)
      invariant i > 0 ==> timeCur == Some(now)
    {
      var c := frame.classes[i];
      var bbox := boxes[i];
      var score := c.prob * 100.0;
      threshold := threshold * 100.0;
      var duration := Round2(frameNumber as real / cfg.fps);
      timeCur := Some(TimeOfDay(duration));
      if cfg.id != AnyPerson {
        if score > threshold && c.index == cfg.id {
          entries := entries + [Point(timeCur.value, c.name, score)];
          drawn := drawn + [bbox];
        }
      } else if score > threshold {
        drawn := drawn + [bbox];
        if nameTag == "" {
          nameTag, timeStart := c.name, timeCur;
        } else if nameTag != c.name {
          entries := entries + [Range(nameTag, timeStart.value, timeCur.value)];
          nameTag, timeStart := c.name, timeCur;
        }
      }
      i := i + 1;
    }
    var written := cfg.exportVideo;
    if frameNumber == cfg.frameCount && cfg.id == AnyPerson {
      if timeStart.None? {
        // `time_start[0]` on the empty list: the call raises.
        return FrameResult(entries, drawn, written, true);
      }
      entries := entries + [Range(nameTag, timeStart.value, timeCur.value)];
    }
    res := FrameResult(entries, drawn, written, false);
  }

  /** The threshold after `k` passes of the face loop: multiplied by 100, `k` times over. */
  function Compounded(threshold: real, k: nat): (r: real) {
    if k == 0 then threshold else Compounded(threshold, k - 1) * 100.0
  }

  /** After `k` faces the loop's threshold has been multiplied by 100 exactly `k` times. */
  lemma {:induction false} ThresholdCompounds(id: int, now: Tod, threshold: real, classes: seq<Classification>, faces: seq<Detection>, k: nat)
    requires k <= |classes| && k <= |faces|
    ensures ScanFaces(id, now, threshold, classes, faces, k).threshold == Compounded(threshold, k)
  {
    if k > 0 {
      ThresholdCompounds(id, now, threshold, classes, faces, k - 1);
    }
  }

  /**
   Face `k` (0-based) is accepted: its score `prob * 100` beats the threshold
   multiplied by 100 `k + 1` times, and in target mode its class is the target.
   From a threshold of 0.01 on, no face after the first can be accepted with
   a probability of at most 1.
   */
  predicate Accepts(id: int, threshold: real, k: nat, c: Classification)
    ensures Accepts(id, threshold, k, c) && threshold >= 0.01 && k >= 1 ==> c.prob > 1.0
  {
    var passes := c.prob * 100.0 > Compounded(threshold, k + 1) && (id != AnyPerson ==> c.index == id);
    if threshold >= 0.01 then CompoundedAtLeast(threshold, k + 1); passes else passes
  }

  /** Reference: the positions, among the first `k` faces, of the accepted ones, in face order. */
  function AcceptedAt(id: int, threshold: real, classes: seq<Classification>, k: nat): (r: seq<nat>)
    requires k <= |classes|
    ensures forall j :: 0 <= j < |r| ==> r[j] < k && Accepts(id, threshold, r[j], classes[r[j]])
    ensures forall j, l :: 0 <= j < l < |r| ==> r[j] < r[l]
  {
    if k == 0 then []
    else
      var rest := AcceptedAt(id, threshold, classes, k - 1);
      if Accepts(id, threshold, k - 1, classes[k - 1]) then rest + [k - 1] else rest
  }

  /** Every position below `k` is listed exactly when its face is accepted. */
  lemma {:induction false} AcceptedAtIff(id: int, threshold: real, classes: seq<Classification>, k: nat)
    requires k <= |classes|
    ensures forall j :: 0 <= j < k ==> (Accepts(id, threshold, j, classes[j]) <==> j in AcceptedAt(id, threshold, classes, k))
  {
    if k > 0 {
      AcceptedAtIff(id, threshold, classes, k - 1);
    }
  }

  /**
   One more face: the comparison the loop makes for face `k - 1`, against its
   running threshold multiplied by 100, is the comparison in `Accepts`.
   */
  lemma ScanStep(id: int, now: Tod, threshold: real, classes: seq<Classification>, faces: seq<Detection>, k: nat)
    requires 0 < k <= |classes| && k <= |faces|
    ensures var s0 := ScanFaces(id, now, threshold, classes, faces, k - 1);
      && s0.threshold * 100.0 == Compounded(threshold, k)
      && (Accepts(id, threshold, k - 1, classes[k - 1])
          <==> (classes[k - 1].prob * 100.0 > s0.threshold * 100.0 && (id != AnyPerson ==> classes[k - 1].index == id)))
  {
    ThresholdCompounds(id, now, threshold, classes, faces, k - 1);
  }

  /** The face loop draws the raw box of exactly the accepted faces, in face order (both modes). */
  lemma {:induction false} ScanDrawsAccepted(id: int, now: Tod, threshold: real, classes: seq<Classification>, faces: seq<Detection>, k: nat)
    requires k <= |classes| && k <= |faces|
    ensures var s := ScanFaces(id, now, threshold, classes, faces, k);
      var acc := AcceptedAt(id, threshold, classes, k);
      |s.drawn| == |acc| && forall j :: 0 <= j < |acc| ==> s.drawn[j] == faces[acc[j]].box
  {
    if k > 0 {
      ScanDrawsAccepted(id, now, threshold, classes, faces, k - 1);
      ScanStep(id, now, threshold, classes, faces, k);
      var s0 := ScanFaces(id, now, threshold, classes, faces, k - 1);
      var s := ScanFaces(id, now, threshold, classes, faces, k);
      if Accepts(id, threshold, k - 1, classes[k - 1]) {
        assert s.drawn == s0.drawn + [faces[k - 1].box];
      } else {
        assert s.drawn == s0.drawn;
      }
    }
  }

  /**
   Target mode logs one point per accepted face (score above the compounded
   threshold and class index equal to the target), at the frame time, and
   never touches the running label.
   */
  lemma {:induction false} TargetModeLogsPoints(id: int, now: Tod, threshold: real, classes: seq<Classification>, faces: seq<Detection>, k: nat)
    requires k <= |classes| && k <= |faces|
    requires id != AnyPerson
    ensures var s := ScanFaces(id, now, threshold, classes, faces, k);
      var acc := AcceptedAt(id, threshold, classes, k);
      && s.nameTag == "" && s.timeStart == None
      && |s.entries| == |acc|
      && forall j :: 0 <= j < |acc| ==> s.entries[j] == Point(now, classes[acc[j]].name, classes[acc[j]].prob * 100.0)
  {
    if k > 0 {
      TargetModeLogsPoints(id, now, threshold, classes, faces, k - 1);
      ScanStep(id, now, threshold, classes, faces, k);
    }
  }

  /**
   Open mode logs only ranges, each starting and ending at the frame time;
   the running label is set exactly when some face was accepted, and every
   range entry was triggered by an accepted face after the first.
   */
  lemma {:induction false} OpenModeRanges(now: Tod, threshold: real, classes: seq<Classification>, faces: seq<Detection>, k: nat)
    requires k <= |classes| && k <= |faces|
    ensures var s := ScanFaces(AnyPerson, now, threshold, classes, faces, k);
      var acc := AcceptedAt(AnyPerson, threshold, classes, k);
      && (forall j :: 0 <= j < |s.entries| ==> s.entries[j] == Range(s.entries[j].name, now, now))
      && (s.timeStart.Some? <==> acc != [])
      && (s.timeStart.Some? ==> s.timeStart.value == now)
      && (s.entries != [] ==> |s.entries| < |acc|)
  {
    if k > 0 {
      OpenModeRanges(now, threshold, classes, faces, k - 1);
      ScanStep(AnyPerson, now, threshold, classes, faces, k);
      var s0 := ScanFaces(AnyPerson, now, threshold, classes, faces, k - 1);
      var s := ScanFaces(AnyPerson, now, threshold, classes, faces, k);
      var c := classes[k - 1];
      if !Accepts(AnyPerson, threshold, k - 1, c) {
        assert s.entries == s0.entries && s.timeStart == s0.timeStart;
      } else if s0.nameTag == "" || s0.nameTag == c.name {
        assert s.entries == s0.entries;
      } else {
        assert s.entries == s0.entries + [Range(s0.nameTag, now, now)];
      }
    }
  }

  /** Every class name is non-empty (class names are the training set's person names). */
  predicate NamedClasses(classes: seq<Classification>) {
    forall j :: 0 <= j < |classes| ==> classes[j].name != ""
  }

  /** Consecutive entries carry different labels. */
  predicate Alternates(entries: seq<Entry>) {
    forall j :: 0 <= j < |entries| - 1 ==> entries[j].name != entries[j + 1].name
  }

  /**
   Open mode, one accepted face at a time: with a running label set, a repeat
   of it logs nothing, and a different label logs one range for the old
   label and becomes the running label; a rejected face changes neither.
   */
  lemma OpenModeStep(now: Tod, threshold: real, classes: seq<Classification>, faces: seq<Detection>, k: nat)
    requires k < |classes| && k < |faces|
    requires ScanFaces(AnyPerson, now, threshold, classes, faces, k).nameTag != ""
    ensures var s := ScanFaces(AnyPerson, now, threshold, classes, faces, k);
      var s' := ScanFaces(AnyPerson, now, threshold, classes, faces, k + 1);
      var c := classes[k];
      && (!Accepts(AnyPerson, threshold, k, c) ==> s'.entries == s.entries && s'.nameTag == s.nameTag)
      && (Accepts(AnyPerson, threshold, k, c) && c.name == s.nameTag ==> s'.entries == s.entries && s'.nameTag == s.nameTag)
      && (Accepts(AnyPerson, threshold, k, c) && c.name != s.nameTag ==>
            s'.entries == s.entries + [Range(s.nameTag, s.timeStart.value, now)] && s'.nameTag == c.name)
  {
    ScanStep(AnyPerson, now, threshold, classes, faces, k + 1);
  }

  /**
   One pass of the face loop in open mode, field by field, for any loop
   state: a face whose score does not beat the multiplied threshold changes
   nothing but the threshold; an accepted face becomes the running label, is
   drawn, and logs the old label as a range when there was a different one.
   */
  lemma OpenStep(s0: Scan, now: Tod, c: Classification, box: Box)
    requires Consistent(s0)
    ensures var s := Step(s0, AnyPerson, now, c, box);
      var pass := c.prob * 100.0 > s0.threshold * 100.0;
      && s.threshold == s0.threshold * 100.0
      && (!pass ==> s.entries == s0.entries && s.nameTag == s0.nameTag && s.timeStart == s0.timeStart && s.drawn == s0.drawn)
      && (pass ==> s.nameTag == c.name && s.drawn == s0.drawn + [box])
      && (pass && (s0.nameTag == "" || s0.nameTag == c.name) ==> s.entries == s0.entries)
      && (pass && s0.nameTag != "" && s0.nameTag != c.name ==>
            s.entries == s0.entries + [Range(s0.nameTag, s0.timeStart.value, now)])
      && (pass && s0.nameTag != c.name ==> s.timeStart == Some(now))
      && (pass && s0.nameTag != "" && s0.nameTag == c.name ==> s.timeStart == s0.timeStart)
  {
  }

  /**
   The running label is empty exactly until a face is accepted, and from
   then on it is the last accepted face's name.
   */
  lemma {:induction false} OpenModeRunningLabel(now: Tod, threshold: real, classes: seq<Classification>, faces: seq<Detection>, k: nat)
    requires k <= |classes| && k <= |faces|
    ensures var s := ScanFaces(AnyPerson, now, threshold, classes, faces, k);
      var acc := AcceptedAt(AnyPerson, threshold, classes, k);
      && (acc == [] ==> s.nameTag == "")
      && (acc != [] ==> s.nameTag == classes[acc[|acc| - 1]].name)
  {
    if k > 0 {
      OpenModeRunningLabel(now, threshold, classes, faces, k - 1);
      ScanStep(AnyPerson, now, threshold, classes, faces, k);
      var s0 := ScanFaces(AnyPerson, now, threshold, classes, faces, k - 1);
      var c := classes[k - 1];
      OpenStep(s0, now, c, faces[k - 1].box);
      var s := ScanFaces(AnyPerson, now, threshold, classes, faces, k);
      assert s == Step(s0, AnyPerson, now, c, faces[k - 1].box);
      var acc0 := AcceptedAt(AnyPerson, threshold, classes, k - 1);
      var acc := AcceptedAt(AnyPerson, threshold, classes, k);
      if Accepts(AnyPerson, threshold, k - 1, c) {
        assert acc == acc0 + [k - 1];
        assert s.nameTag == c.name;
      } else {
        assert acc == acc0 && s.nameTag == s0.nameTag;
      }
    }
  }

  /**
   With non-empty class names, open mode's labels alternate: consecutive
   ranges differ, and the running label differs from the last logged one.
   */
  lemma {:induction false} OpenModeLabelsAlternate(now: Tod, threshold: real, classes: seq<Classification>, faces: seq<Detection>, k: nat)
    requires k <= |classes| && k <= |faces|
    requires NamedClasses(classes)
    ensures var s := ScanFaces(AnyPerson, now, threshold, classes, faces, k);
      && Alternates(s.entries)
      && (s.entries != [] ==> s.nameTag != s.entries[|s.entries| - 1].name)
      && (s.nameTag == "" ==> s.entries == [])
  {
    if k > 0 {
      OpenModeLabelsAlternate(now, threshold, classes, faces, k - 1);
      var s0 := ScanFaces(AnyPerson, now, threshold, classes, faces, k - 1);
      var c := classes[k - 1];
      OpenStep(s0, now, c, faces[k - 1].box);
      var s := ScanFaces(AnyPerson, now, threshold, classes, faces, k);
      assert s == Step(s0, AnyPerson, now, c, faces[k - 1].box);
      assert c.name != "";
      if c.prob * 100.0 > s0.threshold * 100.0 && s0.nameTag != "" && s0.nameTag != c.name {
        AlternatesSnoc(s0.entries, Range(s0.nameTag, s0.timeStart.value, now));
      }
    }
  }

  lemma AlternatesSnoc(entries: seq<Entry>, e: Entry)
    requires Alternates(entries)
    requires entries != [] ==> entries[|entries| - 1].name != e.name
    ensures Alternates(entries + [e])
  {
  }

  /**
   Because the threshold compounds, a threshold of at least 0.01 and
   probabilities of at most 1 leave only the first face able to pass.
   */
  lemma {:induction false} OnlyFirstFaceCanPass(id: int, threshold: real, classes: seq<Classification>, k: nat)
    requires k <= |classes|
    requires threshold >= 0.01
    requires forall j :: 0 <= j < |classes| ==> classes[j].prob <= 1.0
    ensures var acc := AcceptedAt(id, threshold, classes, k);
      |acc| <= 1 && (acc != [] ==> acc[0] == 0)
  {
    if k > 1 {
      OnlyFirstFaceCanPass(id, threshold, classes, k - 1);
      CompoundedAtLeast(threshold, k);
      assert !Accepts(id, threshold, k - 1, classes[k - 1]);
    }
  }

  /** From a threshold of at least 0.01, one pass reaches 1 and two passes reach 100. */
  lemma {:induction false} CompoundedAtLeast(threshold: real, k: nat)
    requires threshold >= 0.01 && k >= 1
    ensures Compounded(threshold, k) >= 1.0
    ensures k >= 2 ==> Compounded(threshold, k) >= 100.0
  {
    if k > 1 {
      CompoundedAtLeast(threshold, k - 1);
    }
  }

  /**
   Consequence: under those inputs open mode never logs a range inside the
   face loop (only the final flush can log), and target mode logs at most
   one point per frame.
   */
  lemma OpenModeNeverSplitsWithinFrame(id: int, now: Tod, threshold: real, classes: seq<Classification>, faces: seq<Detection>, k: nat)
    requires k <= |classes| && k <= |faces|
    requires threshold >= 0.01
    requires forall j :: 0 <= j < |classes| ==> classes[j].prob <= 1.0
    ensures id == AnyPerson ==> ScanFaces(id, now, threshold, classes, faces, k).entries == []
    ensures |ScanFaces(id, now, threshold, classes, faces, k).entries| <= 1
  {
    OnlyFirstFaceCanPass(id, threshold, classes, k);
    if id == AnyPerson {
      OpenModeRanges(now, threshold, classes, faces, k);
    } else {
      TargetModeLogsPoints(id, now, threshold, classes, faces, k);
    }
  }

  /**
   What a call leaves: the image is written exactly when exporting, and the
   call fails exactly on the last frame in open mode when the face loop ran
   (no early return) but accepted no face.
   */
  lemma FrameFlushFails(cfg: Config, frameNumber: nat, frame: FrameInput)
    requires cfg.fps > 0.0 && WellFormed(frame)
    ensures var res := FrameOutput(cfg, frameNumber, frame);
      var faces := Accepted(frame.dets);
      && res.imageWritten == cfg.exportVideo
      && (res.flushFailed <==>
            && cfg.id == AnyPerson && frameNumber == cfg.frameCount
            && !(cfg.exportVideo && |faces| == 0)
            && AcceptedAt(cfg.id, cfg.threshold, frame.classes, |faces|) == [])
  {
    var faces := Accepted(frame.dets);
    if cfg.id == AnyPerson {
      OpenModeRanges(FrameTime(frameNumber, cfg.fps), cfg.threshold, frame.classes, faces, |faces|);
    }
  }

  /** An exported frame without faces is written, logs nothing, draws nothing and returns before the flush. */
  lemma FrameWithoutFacesExported(cfg: Config, frameNumber: nat, frame: FrameInput)
    requires cfg.fps > 0.0 && WellFormed(frame)
    requires Accepted(frame.dets) == [] && cfg.exportVideo
    ensures FrameOutput(cfg, frameNumber, frame) == FrameResult([], [], true, false)
  {
  }

  /** Every range a call logs starts and ends at that frame's time. */
  lemma FrameRangesInstant(cfg: Config, frameNumber: nat, frame: FrameInput)
    requires cfg.fps > 0.0 && WellFormed(frame)
    ensures var res := FrameOutput(cfg, frameNumber, frame);
      var now := FrameTime(frameNumber, cfg.fps);
      forall j :: 0 <= j < |res.entries| && res.entries[j].Range? ==>
        res.entries[j].start == now && res.entries[j].end == now
  {
    var faces := Accepted(frame.dets);
    var now := FrameTime(frameNumber, cfg.fps);
    if cfg.id == AnyPerson {
      OpenModeRanges(now, cfg.threshold, frame.classes, faces, |faces|);
    } else {
      TargetModeLogsPoints(cfg.id, now, cfg.threshold, frame.classes, faces, |faces|);
    }
  }

  /** The time an entry is logged under: a point's time, a range's start, in seconds. */
  function EntryTime(e: Entry): real {
    match e
    case Point(at, _, _) => Seconds(at)
    case Range(_, start, _) => Seconds(start)
  }

  /** A later frame never gets an earlier frame time. */
  lemma FrameTimeMono(n1: nat, n2: nat, fps: real)
    requires fps > 0.0 && n1 <= n2
    ensures Seconds(FrameTime(n1, fps)) <= Seconds(FrameTime(n2, fps))
  {
    var d1, d2 := n1 as real / fps, n2 as real / fps;
    assert d2 - d1 == (n2 - n1) as real / fps;
    Round2Mono(d1, d2);
  }

  /** Every entry a call logs, points and ranges alike, carries that frame's time. */
  lemma FrameEntriesAtFrameTime(cfg: Config, frameNumber: nat, frame: FrameInput)
    requires cfg.fps > 0.0 && WellFormed(frame)
    ensures var res := FrameOutput(cfg, frameNumber, frame);
      forall j :: 0 <= j < |res.entries| ==> EntryTime(res.entries[j]) == Seconds(FrameTime(frameNumber, cfg.fps))
  {
    var faces := Accepted(frame.dets);
    var now := FrameTime(frameNumber, cfg.fps);
    var res := FrameOutput(cfg, frameNumber, frame);
    if cfg.id == AnyPerson {
      var s := ScanFaces(cfg.id, now, cfg.threshold, frame.classes, faces, |faces|);
      OpenModeRanges(now, cfg.threshold, frame.classes, faces, |faces|);
      assert forall j :: 0 <= j < |s.entries| ==> EntryTime(s.entries[j]) == Seconds(now);
    } else {
      TargetModeLogsPoints(cfg.id, now, cfg.threshold, frame.classes, faces, |faces|);
    }
  }

  /** In target mode a call logs exactly the points of its accepted faces and never flushes. */
  lemma TargetFrameLogsPoints(cfg: Config, frameNumber: nat, frame: FrameInput)
    requires cfg.fps > 0.0 && WellFormed(frame)
    requires cfg.id != AnyPerson
    ensures var res := FrameOutput(cfg, frameNumber, frame);
      var faces := Accepted(frame.dets);
      var acc := AcceptedAt(cfg.id, cfg.threshold, frame.classes, |faces|);
      var now := FrameTime(frameNumber, cfg.fps);
      && !res.flushFailed
      && |res.entries| == |acc|
      && forall j :: 0 <= j < |acc| ==>
           res.entries[j] == Point(now, frame.classes[acc[j]].name, frame.classes[acc[j]].prob * 100.0)
  {
    var faces := Accepted(frame.dets);
    TargetModeLogsPoints(cfg.id, FrameTime(frameNumber, cfg.fps), cfg.threshold, frame.classes, faces, |faces|);
  }

  /**
   In open mode with non-empty class names, the labels a call logs alternate,
   the final flush included; a successful flush logs the last accepted face's
   name.
   */
  lemma OpenFrameLabelsAlternate(cfg: Config, frameNumber: nat, frame: FrameInput)
    requires cfg.fps > 0.0 && WellFormed(frame)
    requires cfg.id == AnyPerson && NamedClasses(frame.classes)
    ensures var res := FrameOutput(cfg, frameNumber, frame);
      var faces := Accepted(frame.dets);
      var acc := AcceptedAt(cfg.id, cfg.threshold, frame.classes, |faces|);
      && Alternates(res.entries)
      && (frameNumber == cfg.frameCount && !res.flushFailed && !(cfg.exportVideo && |faces| == 0) ==>
            acc != [] && res.entries[|res.entries| - 1].name == frame.classes[acc[|acc| - 1]].name)
  {
    var faces := Accepted(frame.dets);
    var now := FrameTime(frameNumber, cfg.fps);
    var s := ScanFaces(cfg.id, now, cfg.threshold, frame.classes, faces, |faces|);
    var res := FrameOutput(cfg, frameNumber, frame);
    OpenModeLabelsAlternate(now, cfg.threshold, frame.classes, faces, |faces|);
    OpenModeRunningLabel(now, cfg.threshold, frame.classes, faces, |faces|);
    OpenModeRanges(now, cfg.threshold, frame.classes, faces, |faces|);
    if |faces| == 0 && cfg.exportVideo {
      assert res.entries == [];
    } else if frameNumber == cfg.frameCount && s.timeStart.Some? {
      var last := Range(s.nameTag, s.timeStart.value, now);
      assert res.entries == s.entries + [last];
      AlternatesSnoc(s.entries, last);
    } else {
      assert res.entries == s.entries;
    }
  }
}
