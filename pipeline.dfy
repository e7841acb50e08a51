/**
 The `main` loops of the two scripts: which decoded frames are handed to
 `detect_face`, which frame images are saved, what the log receives, and
 which images `out_video` reads back. The decoder is modelled by the
 sequence of frames it can deliver; a read past its end fails.
 */
module Pipeline {
  import opened FaceExtract
  import opened Clock
  import opened Timeline
  import opened Reassembly

  /** Every frame carries one classifier answer per accepted face. */
  predicate AllWellFormed(frames: seq<FrameInput>) {
    forall j :: 0 <= j < |frames| ==> WellFormed(frames[j])
  }

  /** `frame_skip`: `int(fps)` when the argument is 0, otherwise the argument. */
  function FrameSkip(skipArg: int, fps: real): (r: int)
    requires fps >= 0.0
    ensures skipArg != 0 ==> r == skipArg
    ensures skipArg == 0 ==> r >= 0 && r as real <= fps < r as real + 1.0
  {
    if skipArg == 0 then fps.Floor else skipArg
  }

  /** The seek-scheme script forces a stride of 1 when exporting. */
  function SeekFrameSkip(skipArg: int, fps: real, exportVideo: bool): (r: int)
    requires fps >= 0.0
    ensures exportVideo ==> r == 1
    ensures !exportVideo && skipArg != 0 ==> r == skipArg
    ensures !exportVideo && skipArg == 0 ==> r >= 0 && r as real <= fps < r as real + 1.0
  {
    if exportVideo then 1 else FrameSkip(skipArg, fps)
  }

  /**
   The seek-scheme stride is positive exactly when exporting, when the
   argument is positive, or when it is 0 and the rate is at least 1 fps.
   */
  lemma SeekFrameSkipPositive(skipArg: int, fps: real, exportVideo: bool)
    requires fps >= 0.0
    ensures SeekFrameSkip(skipArg, fps, exportVideo) >= 1
        <==> exportVideo || skipArg >= 1 || (skipArg == 0 && fps >= 1.0)
  {
    if skipArg == 0 && fps >= 1.0 {
      assert (1.0).Floor == 1;
    }
  }

  // ---------------------------------------------------------------------
  // The counter scheme (triplet-model script)
  // ---------------------------------------------------------------------

  /**
   The counter scheme's choice: frame `n` (numbered from 1) goes to
   `detect_face` when it is frame 1, or a multiple of the stride from twice
   the stride on.
   */
  predicate CounterPicks(n: nat, skip: int) {
    n == 1 || (skip >= 1 && n % skip == 0 && n / skip >= 2)
  }

  /** Whether the loop hands frame n (from 1) to `detect_face`, given `count` before the read. */
  predicate Selected(n: nat, count: int) {
    n == 1 || n == count
  }

  /**
   `count` once frames 1 .. i have been read: it starts at the stride and moves
   on by it after each processed frame. With a positive stride it always lies
   ahead of the frames read.
   */
  function CounterAfter(i: nat, skip: int): (r: int)
    ensures skip >= 1 ==> i < r
  {
    if i == 0 then skip
    else
      var count := CounterAfter(i - 1, skip);
      if Selected(i, count) then count + skip else count
  }

  function Max(a: int, b: int): int { if a >= b then a else b }

  /** The closed form of `count`. */
  function CounterClosed(i: nat, skip: int): int {
    if i == 0 then skip
    else if skip <= 0 then 2 * skip
    else skip * Max(2, i / skip + 1)
  }

  /** Euclidean division is determined by quotient and remainder. */
  lemma DivModUnique(n: int, d: int, q: int, r: int)
    requires d > 0 && n == q * d + r && 0 <= r < d
    ensures n / d == q && n % d == r
  {
    var q', r' := n / d, n % d;
    assert n == q' * d + r' && 0 <= r' < d;
    assert (q - q') * d == r' - r;
    MulBounds(q - q', d);
  }

  lemma MulBounds(a: int, d: int)
    requires d > 0
    ensures a >= 1 ==> a * d >= d
    ensures a <= -1 ==> a * d <= -d
  {
    if a >= 1 {
      assert a * d == (a - 1) * d + d;
    } else if a <= -1 {
      assert a * d == (a + 1) * d - d;
    }
  }

  /**
   One read against the closed form: frame i+1 is selected exactly when the
   counter scheme picks it, and the closed form moves on by the stride
   exactly then.
   */
  lemma ClosedStep(i: nat, skip: int)
    ensures Selected(i + 1, CounterClosed(i, skip)) <==> CounterPicks(i + 1, skip)
    ensures CounterClosed(i + 1, skip)
         == if CounterPicks(i + 1, skip) then CounterClosed(i, skip) + skip else CounterClosed(i, skip)
  {
    var n := i + 1;
    if i == 0 {
      if skip >= 1 {
        if skip == 1 {
          DivModUnique(1, 1, 1, 0);
        } else {
          DivModUnique(1, skip, 0, 1);
        }
      }
    } else if skip >= 1 {
      var q, r := i / skip, i % skip;
      assert i == q * skip + r;
      var count := CounterClosed(i, skip);
      DivModUnique(count, skip, Max(2, q + 1), 0);
      if r == skip - 1 {
        assert n == (q + 1) * skip;
        DivModUnique(n, skip, q + 1, 0);
        if q == 0 {
          assert count == 2 * skip;
        }
      } else {
        DivModUnique(n, skip, q, r + 1);
      }
    }
  }

  /** The loop's `count` agrees with its closed form. */
  lemma {:induction false} CounterAfterClosed(i: nat, skip: int)
    ensures CounterAfter(i, skip) == CounterClosed(i, skip)
  {
    if i > 0 {
      CounterAfterClosed(i - 1, skip);
      ClosedStep(i - 1, skip);
    }
  }

  /** Frame i+1 is handed to `detect_face` exactly when the counter scheme picks it. */
  lemma CounterStep(i: nat, skip: int)
    ensures Selected(i + 1, CounterAfter(i, skip)) <==> CounterPicks(i + 1, skip)
  {
    CounterAfterClosed(i, skip);
    ClosedStep(i, skip);
  }

  /** With a stride of 1 the counter scheme processes every frame. */
  lemma StrideOnePicksEvery(n: nat)
    requires n >= 1
    ensures CounterPicks(n, 1)
  {
    if n > 1 {
      DivModUnique(n, 1, n, 0);
    }
  }

  /** The frames among 1 .. i that the counter loop hands to `detect_face`, in reading order. */
  function CounterSchedule(i: nat, skip: int): seq<nat>
  {
    if i == 0 then []
    else CounterSchedule(i - 1, skip) + (if Selected(i, CounterAfter(i - 1, skip)) then [i] else [])
  }

  /**
   The counter loop processes, in increasing order, exactly the frames the
   counter scheme picks.
   */
  lemma {:induction false} CounterScheduleSpec(i: nat, skip: int)
    ensures forall j :: 0 <= j < |CounterSchedule(i, skip)| ==> 1 <= CounterSchedule(i, skip)[j] <= i
    ensures forall j, l :: 0 <= j < l < |CounterSchedule(i, skip)| ==> CounterSchedule(i, skip)[j] < CounterSchedule(i, skip)[l]
    ensures forall n: nat :: n in CounterSchedule(i, skip) <==> 1 <= n <= i && CounterPicks(n, skip)
  {
    if i > 0 {
      CounterScheduleSpec(i - 1, skip);
      CounterStep(i - 1, skip);
      var before := CounterSchedule(i - 1, skip);
      if Selected(i, CounterAfter(i - 1, skip)) {
        assert CounterSchedule(i, skip) == before + [i];
      } else {
        assert CounterSchedule(i, skip) == before;
      }
    }
  }

  // ---------------------------------------------------------------------
  // What a run produces
  // ---------------------------------------------------------------------

  /**
   What `detect_face` returns for each decodable frame, were it called on
   it; frame j of the decoder carries the number j + base.
   */
  function Outputs(cfg: Config, frames: seq<FrameInput>, base: nat): (r: seq<FrameResult>)
    requires cfg.fps > 0.0 && AllWellFormed(frames)
    ensures |r| == |frames|
  {
    if frames == [] then []
    else Outputs(cfg, frames[..|frames| - 1], base) + [FrameOutput(cfg, |frames| - 1 + base, frames[|frames| - 1])]
  }

  /** Entry j of the outputs is the call on decoder frame j, numbered j + base. */
  lemma {:induction false} OutputsAt(cfg: Config, frames: seq<FrameInput>, base: nat, j: nat)
    requires cfg.fps > 0.0 && AllWellFormed(frames) && j < |frames|
    ensures Outputs(cfg, frames, base)[j] == FrameOutput(cfg, j + base, frames[j])
    decreases |frames|
  {
    var n := |frames| - 1;
    if j < n {
      OutputsAt(cfg, frames[..n], base, j);
    }
  }

  /** `detect_face` on decoder frame j, which carries the number j + base. */
  method DetectDecoded(cfg: Config, frames: seq<FrameInput>, base: nat, j: nat) returns (res: FrameResult)
    requires cfg.fps > 0.0 && AllWellFormed(frames) && j < |frames|
    ensures res == Outputs(cfg, frames, base)[j]
    ensures res.imageWritten == cfg.exportVideo
    ensures res.flushFailed ==> j + base == cfg.frameCount && cfg.id == AnyPerson
  {
    res := DetectFace(cfg, j + base, frames[j]);
    OutputsAt(cfg, frames, base, j);
  }

  /**
   Every call writes the frame image exactly when exporting, and a call can
   fail its flush only in open mode on the frame numbered as the frame count.
   */
  lemma OutputsFacts(cfg: Config, frames: seq<FrameInput>, base: nat)
    requires cfg.fps > 0.0 && AllWellFormed(frames)
    ensures forall j :: 0 <= j < |frames| ==> Outputs(cfg, frames, base)[j].imageWritten == cfg.exportVideo
    ensures forall j :: 0 <= j < |frames| ==> Outputs(cfg, frames, base)[j].flushFailed ==>
              j + base == cfg.frameCount && cfg.id == AnyPerson
  {
    forall j | 0 <= j < |frames|
      ensures Outputs(cfg, frames, base)[j].imageWritten == cfg.exportVideo
      ensures Outputs(cfg, frames, base)[j].flushFailed ==> j + base == cfg.frameCount && cfg.id == AnyPerson
    {
      OutputsAt(cfg, frames, base, j);
      FrameFlushFails(cfg, j + base, frames[j]);
    }
  }

  /** One more saved image extends the range of saved frame numbers. */
  lemma FrameRangeSnoc(lo: nat, hi: nat)
    requires lo <= hi
    ensures FrameRange(lo, hi + 1) == FrameRange(lo, hi) + {hi}
  {
  }

  /** The log of a run: the entries of each processed frame, in processing order. */
  function RunLog(outs: seq<FrameResult>, processed: seq<nat>, base: nat): seq<Entry>
    requires forall j :: 0 <= j < |processed| ==> base <= processed[j] < base + |outs|
  {
    if processed == [] then []
    else
      var n := processed[|processed| - 1];
      RunLog(outs, processed[..|processed| - 1], base) + outs[n - base].entries
  }

  /** Processing one more frame appends that frame's entries to the log. */
  lemma RunLogSnoc(outs: seq<FrameResult>, processed: seq<nat>, n: nat, base: nat)
    requires forall j :: 0 <= j < |processed| ==> base <= processed[j] < base + |outs|
    requires base <= n < base + |outs|
    ensures RunLog(outs, processed + [n], base) == RunLog(outs, processed, base) + outs[n - base].entries
  {
    assert (processed + [n])[..|processed|] == processed;
  }

  /** The log is in time order: no entry is logged under an earlier time than one before it. */
  predicate TimeSorted(log: seq<Entry>) {
    forall j, l :: 0 <= j < l < |log| ==> EntryTime(log[j]) <= EntryTime(log[l])
  }

  /** Appending entries that all carry time `t` to a sorted log whose entries are no later than `t`. */
  lemma TimeSortedAppend(a: seq<Entry>, b: seq<Entry>, t: real)
    requires TimeSorted(a) && forall j :: 0 <= j < |a| ==> EntryTime(a[j]) <= t
    requires forall j :: 0 <= j < |b| ==> EntryTime(b[j]) == t
    ensures TimeSorted(a + b) && forall j :: 0 <= j < |a + b| ==> EntryTime((a + b)[j]) <= t
  {
  }

  /**
   Processing frames in increasing order keeps the log in time order, and
   nothing in it is later than the last processed frame's time.
   */
  lemma {:induction false} RunLogSorted(cfg: Config, frames: seq<FrameInput>, base: nat, processed: seq<nat>)
    requires cfg.fps > 0.0 && AllWellFormed(frames)
    requires forall j :: 0 <= j < |processed| ==> base <= processed[j] < base + |frames|
    requires forall j, l :: 0 <= j < l < |processed| ==> processed[j] < processed[l]
    ensures var log := RunLog(Outputs(cfg, frames, base), processed, base);
      && TimeSorted(log)
      && (processed != [] ==>
            forall j :: 0 <= j < |log| ==> EntryTime(log[j]) <= Seconds(FrameTime(processed[|processed| - 1], cfg.fps)))
    decreases |processed|
  {
    if processed != [] {
      var outs := Outputs(cfg, frames, base);
      var before := processed[..|processed| - 1];
      var n := processed[|processed| - 1];
      var t := Seconds(FrameTime(n, cfg.fps));
      assert forall j :: 0 <= j < |before| ==> before[j] == processed[j];
      RunLogSorted(cfg, frames, base, before);
      var log0 := RunLog(outs, before, base);
      assert RunLog(outs, processed, base) == log0 + outs[n - base].entries;
      OutputsAt(cfg, frames, base, n - base);
      FrameEntriesAtFrameTime(cfg, n, frames[n - base]);
      if before != [] {
        FrameTimeMono(before[|before| - 1], n, cfg.fps);
      }
      TimeSortedAppend(log0, outs[n - base].entries, t);
    }
  }

  /** What a `main` loop has built so far: processed frames, log, saved images, and whether the last call failed. */
  datatype RunState = RunState(processed: seq<nat>, log: seq<Entry>, images: set<nat>, aborted: bool)

  /** One read of the counter loop: frame i, with `count` as it stands before the read. */
  function TripletRead(exportVideo: bool, skip: int, outs: seq<FrameResult>, i: nat, s: RunState): (r: RunState)
    requires 1 <= i <= |outs|
    ensures |s.processed| <= |r.processed| <= |s.processed| + 1
    ensures r.aborted ==> |r.processed| == |s.processed| + 1
  {
    if Selected(i, CounterAfter(i - 1, skip)) then
      var res := outs[i - 1];
      RunState(s.processed + [i], s.log + res.entries,
               if res.imageWritten then s.images + {i} else s.images, res.flushFailed)
    else
      RunState(s.processed, s.log, if exportVideo then s.images + {i} else s.images, false)
  }

  /** The counter loop's state after reading frames 1 .. i, given what each `detect_face` call returns. */
  function TripletRun(exportVideo: bool, skip: int, outs: seq<FrameResult>, i: nat): (r: RunState)
    requires i <= |outs|
    ensures |r.processed| <= i
    ensures r.aborted ==> |r.processed| >= 1
  {
    if i == 0 then RunState([], [], {}, false)
    else TripletRead(exportVideo, skip, outs, i, TripletRun(exportVideo, skip, outs, i - 1))
  }

  /** After reading frames 1 .. i the counter loop has processed exactly the counter schedule. */
  lemma {:induction false} TripletRunProcessed(exportVideo: bool, skip: int, outs: seq<FrameResult>, i: nat)
    requires i <= |outs|
    ensures TripletRun(exportVideo, skip, outs, i).processed == CounterSchedule(i, skip)
  {
    if i > 0 {
      TripletRunProcessed(exportVideo, skip, outs, i - 1);
    }
  }

  /** The counter loop's log is the entries of the processed frames, in processing order. */
  lemma {:induction false} TripletRunLog(exportVideo: bool, skip: int, outs: seq<FrameResult>, i: nat)
    requires i <= |outs|
    ensures forall j :: 0 <= j < |CounterSchedule(i, skip)| ==> 1 <= CounterSchedule(i, skip)[j] <= i
    ensures TripletRun(exportVideo, skip, outs, i).log == RunLog(outs, CounterSchedule(i, skip), 1)
  {
    CounterScheduleSpec(i, skip);
    if i > 0 {
      TripletRunLog(exportVideo, skip, outs, i - 1);
      var before := CounterSchedule(i - 1, skip);
      if Selected(i, CounterAfter(i - 1, skip)) {
        assert CounterSchedule(i, skip) == before + [i];
        RunLogSnoc(outs, before, i, 1);
      } else {
        assert CounterSchedule(i, skip) == before;
      }
    }
  }

  /** The counter loop's log is in time order. */
  lemma TripletLogSorted(cfg: Config, skip: int, frames: seq<FrameInput>, i: nat)
    requires cfg.fps > 0.0 && AllWellFormed(frames) && i <= |frames|
    ensures TimeSorted(TripletRun(cfg.exportVideo, skip, Outputs(cfg, frames, 1), i).log)
  {
    TripletRunLog(cfg.exportVideo, skip, Outputs(cfg, frames, 1), i);
    CounterScheduleSpec(i, skip);
    RunLogSorted(cfg, frames, 1, CounterSchedule(i, skip));
  }

  /**
   When every call writes its image exactly when exporting, the counter loop
   saves an image of every frame it reads when exporting (processed ones
   from `detect_face`, the others raw) and none otherwise.
   */
  lemma {:induction false} TripletRunImages(exportVideo: bool, skip: int, outs: seq<FrameResult>, i: nat)
    requires i <= |outs|
    requires forall j :: 0 <= j < |outs| ==> outs[j].imageWritten == exportVideo
    ensures TripletRun(exportVideo, skip, outs, i).images == if exportVideo then FrameRange(1, i + 1) else {}
  {
    if i > 0 {
      TripletRunImages(exportVideo, skip, outs, i - 1);
      FrameRangeSnoc(1, i);
    }
  }

  /**
   The loop stops after frame i exactly when the counter scheme picks frame
   i and that frame's `detect_face` call fails its final flush.
   */
  lemma TripletRunAborts(exportVideo: bool, skip: int, outs: seq<FrameResult>, i: nat)
    requires 1 <= i <= |outs|
    ensures TripletRun(exportVideo, skip, outs, i).aborted <==> CounterPicks(i, skip) && outs[i - 1].flushFailed
  {
    CounterStep(i - 1, skip);
  }

  /**
   `main` of the triplet-model script. Frames are read one by one and
   numbered from 1; frame 1 and every frame equal to `count` go to
   `detect_face` (which bumps `count` by the stride), the others are saved
   raw when exporting. A failing final flush ends the run; otherwise, when
   exporting, the saved images are read back by `out_video`.
   */
  method TripletMain(cfg: Config, skipArg: int, frames: seq<FrameInput>)
    returns (frameNumber: nat, processed: seq<nat>, log: seq<Entry>, images: set<nat>, video: seq<nat>, aborted: bool, videoFailed: bool)
    requires cfg.fps > 0.0 && AllWellFormed(frames)
    ensures frameNumber <= |frames| && (!aborted ==> frameNumber == |frames|)
    ensures var outs, skip := Outputs(cfg, frames, 1), FrameSkip(skipArg, cfg.fps);
      && RunState(processed, log, images, aborted) == TripletRun(cfg.exportVideo, skip, outs, frameNumber)
      && forall i :: 0 <= i < frameNumber ==> !TripletRun(cfg.exportVideo, skip, outs, i).aborted
    ensures video == if cfg.exportVideo && !aborted then ReadOrder(|images|) else []
    ensures videoFailed <==> cfg.exportVideo && !aborted && |images| == 0
  {
    var skip := FrameSkip(skipArg, cfg.fps);
    ghost var outs := Outputs(cfg, frames, 1);
    frameNumber, processed, log, images, video, aborted, videoFailed := 0, [], [], {}, [], false, false;
    var count := skip;
    while frameNumber < |frames| && !aborted
      invariant frameNumber <= |frames|
      invariant count == CounterAfter(frameNumber, skip)
      invariant RunState(processed, log, images, aborted) == TripletRun(cfg.exportVideo, skip, outs, frameNumber)
      invariant forall i :: 0 <= i < frameNumber ==> !TripletRun(cfg.exportVideo, skip, outs, i).aborted
    {
      frameNumber := frameNumber + 1;
      if frameNumber == 1 || frameNumber == count {
        var res := DetectDecoded(cfg, frames, 1, frameNumber - 1);
        processed := processed + [frameNumber];
        log := log + res.entries;
        if res.imageWritten {
          images := images + {frameNumber};
        }
        aborted := res.flushFailed;
        count := count + skip;
      } else if cfg.exportVideo {
        images := images + {frameNumber};
      }
    }
    if cfg.exportVideo && !aborted {
      var written, rate, ok := OutVideo(|images|, cfg.fps);
      video, videoFailed := written, !ok;
    }
  }

  /**
   A completed exporting run of the triplet-model script saves frames
   1 .. n, and the video it rebuilds leaves out exactly the last frame.
   */
  lemma TripletVideoDropsLastFrame(cfg: Config, skip: int, frames: seq<FrameInput>)
    requires cfg.fps > 0.0 && AllWellFormed(frames) && cfg.exportVideo && |frames| >= 1
    ensures var images := TripletRun(cfg.exportVideo, skip, Outputs(cfg, frames, 1), |frames|).images;
      && |images| == |frames|
      && forall p :: p in images ==> (p in ReadOrder(|images|) <==> p != |frames|)
  {
    OutputsFacts(cfg, frames, 1);
    TripletRunImages(cfg.exportVideo, skip, Outputs(cfg, frames, 1), |frames|);
    OneBasedImagesLoseLastFrame(|frames|);
  }

  // ---------------------------------------------------------------------
  // The seek scheme (softmax-model script)
  // ---------------------------------------------------------------------

  /** The frame number of the seek loop's (k+1)-th read: k strides from frame 0. */
  function SeekFrame(k: nat, skip: int): (n: nat)
    requires skip >= 1
    ensures skip == 1 ==> n == k
  {
    if k == 0 then 0 else SeekFrame(k - 1, skip) + skip
  }

  /** The (k+1)-th read is at frame k·skip, and reads move strictly forward. */
  lemma {:induction false} SeekFrameProduct(k: nat, skip: int)
    requires skip >= 1
    ensures SeekFrame(k, skip) == k * skip
    ensures forall j :: 0 <= j < k ==> SeekFrame(j, skip) < SeekFrame(k, skip)
  {
    if k > 0 {
      SeekFrameProduct(k - 1, skip);
      assert k * skip == (k - 1) * skip + skip;
    }
  }

  /** The frames the seek loop hands to `detect_face` in its first k reads: 0, skip, 2·skip, … */
  function SeekSchedule(k: nat, skip: int): (r: seq<nat>)
    requires skip >= 1
    ensures |r| == k
    ensures forall j :: 0 <= j < k ==> r[j] == SeekFrame(j, skip)
  {
    if k == 0 then [] else SeekSchedule(k - 1, skip) + [SeekFrame(k - 1, skip)]
  }

  /** The first k reads of the seek loop all fall on decodable frames. */
  predicate ReadsInRange(k: nat, skip: int, count: nat)
    requires skip >= 1
  {
    forall j :: 0 <= j < k ==> SeekFrame(j, skip) < count
  }

  /** The seek loop's state after k reads, given what each `detect_face` call returns. */
  function SoftmaxRun(exportVideo: bool, skip: int, outs: seq<FrameResult>, k: nat): (r: RunState)
    requires skip >= 1 && ReadsInRange(k, skip, |outs|)
    ensures |r.processed| == k
  {
    if k == 0 then RunState([], [], {}, false)
    else
      var s := SoftmaxRun(exportVideo, skip, outs, k - 1);
      var n := SeekFrame(k - 1, skip);
      var res := outs[n];
      var images := if res.imageWritten then s.images + {n} else s.images;
      RunState(s.processed + [n], s.log + res.entries,
               if !res.flushFailed && exportVideo then images + {n} else images, res.flushFailed)
  }

  /** One more read, at `SeekFrame(k)`, that falls on a decodable frame extends the reads in range. */
  lemma ReadsInRangeNext(k: nat, skip: int, count: nat)
    requires skip >= 1 && ReadsInRange(k, skip, count) && SeekFrame(k, skip) < count
    ensures ReadsInRange(k + 1, skip, count)
  {
  }

  /** The seek loop's (k+1)-th read: it processes `SeekFrame(k)` on top of the state after k reads. */
  lemma SoftmaxRunNext(exportVideo: bool, skip: int, outs: seq<FrameResult>, k: nat)
    requires skip >= 1 && ReadsInRange(k + 1, skip, |outs|)
    ensures ReadsInRange(k, skip, |outs|) && SeekFrame(k, skip) < |outs|
    ensures var s, n := SoftmaxRun(exportVideo, skip, outs, k), SeekFrame(k, skip);
      var images := if outs[n].imageWritten then s.images + {n} else s.images;
      SoftmaxRun(exportVideo, skip, outs, k + 1)
        == RunState(s.processed + [n], s.log + outs[n].entries,
                    if !outs[n].flushFailed && exportVideo then images + {n} else images, outs[n].flushFailed)
  {
  }

  /** After k reads the seek loop has processed frames 0, skip, …, (k-1)·skip. */
  lemma {:induction false} SoftmaxRunProcessed(exportVideo: bool, skip: int, outs: seq<FrameResult>, k: nat)
    requires skip >= 1 && ReadsInRange(k, skip, |outs|)
    ensures SoftmaxRun(exportVideo, skip, outs, k).processed == SeekSchedule(k, skip)
  {
    if k > 0 {
      SoftmaxRunProcessed(exportVideo, skip, outs, k - 1);
    }
  }

  /** The seek loop's log is the entries of the processed frames, in processing order. */
  lemma {:induction false} SoftmaxRunLog(exportVideo: bool, skip: int, outs: seq<FrameResult>, k: nat)
    requires skip >= 1 && ReadsInRange(k, skip, |outs|)
    ensures forall j :: 0 <= j < k ==> SeekSchedule(k, skip)[j] < |outs|
    ensures SoftmaxRun(exportVideo, skip, outs, k).log == RunLog(outs, SeekSchedule(k, skip), 0)
  {
    assert forall j :: 0 <= j < k ==> SeekSchedule(k, skip)[j] < |outs|;
    if k > 0 {
      SoftmaxRunLog(exportVideo, skip, outs, k - 1);
      var before := SeekSchedule(k - 1, skip);
      var n := SeekFrame(k - 1, skip);
      assert SeekSchedule(k, skip) == before + [n];
      RunLogSnoc(outs, before, n, 0);
    }
  }

  /** The seek loop's log is in time order. */
  lemma SoftmaxLogSorted(cfg: Config, skip: int, frames: seq<FrameInput>, k: nat)
    requires cfg.fps > 0.0 && AllWellFormed(frames)
    requires skip >= 1 && ReadsInRange(k, skip, |frames|)
    ensures TimeSorted(SoftmaxRun(cfg.exportVideo, skip, Outputs(cfg, frames, 0), k).log)
  {
    var schedule := SeekSchedule(k, skip);
    SoftmaxRunLog(cfg.exportVideo, skip, Outputs(cfg, frames, 0), k);
    forall l | 0 <= l < k
      ensures forall j :: 0 <= j < l ==> schedule[j] < schedule[l]
    {
      SeekFrameProduct(l, skip);
    }
    RunLogSorted(cfg, frames, 0, schedule);
  }

  /** With the stride of 1 that exporting forces, the seek loop saves frames 0 .. k-1 when exporting and none otherwise. */
  lemma {:induction false} SoftmaxRunImages(exportVideo: bool, outs: seq<FrameResult>, k: nat)
    requires k <= |outs|
    requires forall j :: 0 <= j < |outs| ==> outs[j].imageWritten == exportVideo
    ensures SoftmaxRun(exportVideo, 1, outs, k).images == if exportVideo then FrameRange(0, k) else {}
  {
    if k > 0 {
      SoftmaxRunImages(exportVideo, outs, k - 1);
      FrameRangeSnoc(0, k - 1);
    }
  }

  /** Whatever the stride, a run whose calls write no image saves none: `main` writes only when exporting. */
  lemma {:induction false} SoftmaxRunNoImages(skip: int, outs: seq<FrameResult>, k: nat)
    requires skip >= 1 && ReadsInRange(k, skip, |outs|)
    requires forall j :: 0 <= j < |outs| ==> !outs[j].imageWritten
    ensures SoftmaxRun(false, skip, outs, k).images == {}
  {
    if k > 0 {
      SoftmaxRunNoImages(skip, outs, k - 1);
    }
  }

  /** The seek loop stops after its k-th read exactly when that frame's call fails its final flush. */
  lemma SoftmaxRunAborts(exportVideo: bool, skip: int, outs: seq<FrameResult>, k: nat)
    requires skip >= 1 && k >= 1 && ReadsInRange(k, skip, |outs|)
    ensures SoftmaxRun(exportVideo, skip, outs, k).aborted <==> outs[SeekFrame(k - 1, skip)].flushFailed
  {
  }

  /**
   A flush failure needs the failing frame's number to equal the reported
   frame count; so with a frame count that covers every decodable frame the
   seek loop never stops early.
   */
  lemma SoftmaxNeverAbortsWithinCount(cfg: Config, skip: int, frames: seq<FrameInput>, k: nat)
    requires cfg.fps > 0.0 && AllWellFormed(frames) && skip >= 1
    requires ReadsInRange(k, skip, |frames|)
    requires |frames| <= cfg.frameCount
    ensures !SoftmaxRun(cfg.exportVideo, skip, Outputs(cfg, frames, 0), k).aborted
  {
    OutputsFacts(cfg, frames, 0);
  }

  /**
   The seek loop of the softmax-model script's `main`: it seeks to
   `frame_number` (from 0), reads, hands the frame to `detect_face`, saves it
   when exporting, and advances by the stride, stopping at the first read
   past the last frame or at a call that fails its flush.
   */
  method SeekLoop(cfg: Config, skip: int, frames: seq<FrameInput>)
    returns (frameNumber: nat, processed: seq<nat>, log: seq<Entry>, images: set<nat>, aborted: bool)
    requires cfg.fps > 0.0 && AllWellFormed(frames) && skip >= 1
    ensures var outs, k := Outputs(cfg, frames, 0), |processed|;
      && ReadsInRange(k, skip, |frames|)
      && RunState(processed, log, images, aborted) == SoftmaxRun(cfg.exportVideo, skip, outs, k)
      && (forall j :: 0 <= j < k - 1 ==> !outs[SeekFrame(j, skip)].flushFailed)
      && (!aborted ==> frameNumber == SeekFrame(k, skip) >= |frames|)
      && (aborted ==> k >= 1 && frameNumber == SeekFrame(k - 1, skip))
  {
    ghost var outs := Outputs(cfg, frames, 0);
    frameNumber, processed, log, images, aborted := 0, [], [], {}, false;
    ghost var k := 0;
    while frameNumber < |frames|
      invariant k == |processed| && ReadsInRange(k, skip, |frames|)
      invariant frameNumber == SeekFrame(k, skip)
      invariant RunState(processed, log, images, false) == SoftmaxRun(cfg.exportVideo, skip, outs, k)
      invariant forall j :: 0 <= j < k ==> !outs[SeekFrame(j, skip)].flushFailed
      decreases |frames| - frameNumber
    {
      ReadsInRangeNext(k, skip, |frames|);
      SoftmaxRunNext(cfg.exportVideo, skip, outs, k);
      var res := DetectDecoded(cfg, frames, 0, frameNumber);
      processed := processed + [frameNumber];
      log := log + res.entries;
      images := if res.imageWritten then images + {frameNumber} else images;
      k := k + 1;
      if res.flushFailed {
        // the call raises, which ends the run
        aborted := true;
        return;
      }
      images := if cfg.exportVideo then images + {frameNumber} else images;
      frameNumber := frameNumber + skip;
    }
  }

  /**
   `main` of the softmax-model script: the stride, forced to 1 when
   exporting; the seek loop; and, when exporting a run that did not fail,
   the video rebuilt by `out_video`.
   */
  method SoftmaxMain(cfg: Config, skipArg: int, frames: seq<FrameInput>)
    returns (frameNumber: nat, processed: seq<nat>, log: seq<Entry>, images: set<nat>, video: seq<nat>, aborted: bool, videoFailed: bool)
    requires cfg.fps > 0.0 && AllWellFormed(frames)
    requires SeekFrameSkip(skipArg, cfg.fps, cfg.exportVideo) >= 1
    ensures var skip, outs, k := SeekFrameSkip(skipArg, cfg.fps, cfg.exportVideo), Outputs(cfg, frames, 0), |processed|;
      && ReadsInRange(k, skip, |frames|)
      && RunState(processed, log, images, aborted) == SoftmaxRun(cfg.exportVideo, skip, outs, k)
      && (forall j :: 0 <= j < k - 1 ==> !outs[SeekFrame(j, skip)].flushFailed)
      && (!aborted ==> frameNumber == SeekFrame(k, skip) >= |frames|)
      && (aborted ==> k >= 1 && frameNumber == SeekFrame(k - 1, skip))
    ensures video == if cfg.exportVideo && !aborted then ReadOrder(|images|) else []
    ensures videoFailed <==> cfg.exportVideo && !aborted && |images| == 0
  {
    var skip := SeekFrameSkip(skipArg, cfg.fps, cfg.exportVideo);
    frameNumber, processed, log, images, aborted := SeekLoop(cfg, skip, frames);
    video, videoFailed := [], false;
    if cfg.exportVideo && !aborted {
      var written, rate, ok := OutVideo(|images|, cfg.fps);
      video, videoFailed := written, !ok;
    }
  }

  /**
   A completed exporting run of the softmax-model script saves frames
   0 .. n-1, and the video it rebuilds leaves out exactly frame 0.
   */
  lemma SoftmaxVideoDropsFirstFrame(cfg: Config, frames: seq<FrameInput>)
    requires cfg.fps > 0.0 && AllWellFormed(frames) && cfg.exportVideo && |frames| >= 1
    ensures var images := SoftmaxRun(cfg.exportVideo, 1, Outputs(cfg, frames, 0), |frames|).images;
      && |images| == |frames|
      && forall p :: p in images ==> (p in ReadOrder(|images|) <==> p != 0)
  {
    OutputsFacts(cfg, frames, 0);
    SoftmaxRunImages(cfg.exportVideo, Outputs(cfg, frames, 0), |frames|);
    ZeroBasedImagesLoseFirstFrame(|frames|);
  }
}
