# Finding a person in a video: a Dafny model of the decision logic

The two scripts `find_person_in_video_triplet_model.py` and
`find_person_in_video_softmax_model.py` scan a video for faces. They sample
frames, run a face detector on each sampled frame, and drop detections below
confidence 0.8. They crop the rest with a 44-pixel margin and hand each crop to
a classifier. They log who was seen and when to `list_faces.txt`, and can
rebuild an annotated video from the saved frame images. The scripts differ
only in the classifier and in how `main` walks the video. The triplet script
reads every frame and counts with `count`. The softmax script seeks to
`frame_number` and advances it by the stride.

This project models that logic in Dafny 4.11 and proves properties of it:

- `faces.dfy` (`FaceExtract`): the gate of `extract_faces`. A detection
  survives unless its confidence is below 0.8. The crop window is the
  absolute origin widened by 22 pixels on each side and clamped to the frame.
  The raw box is kept for drawing.
- `clock.dfy` (`Clock`): the frame time. `round(frame_number / fps, 2)` is
  split into `[hours, minutes, seconds]` with Python's float `%` and `int()`.
- `timeline.dfy` (`Timeline`): `detect_face`.
  - The early return for an exported frame without faces.
  - The face loop. The threshold is multiplied by 100 before every
    comparison. Target mode logs a point per accepted face. Open mode keeps a
    running label (`name_tag`, `time_start`) that is local to the call, and
    logs a range when the label changes.
  - The last-frame flush. It fails when no face set the running label.
- `reassembly.dfy` (`Reassembly`): `out_video` reads back images `1 .. n-1`
  of an `n`-file directory, at a fixed 30 frames per second.
- `pipeline.dfy` (`Pipeline`): both `main` loops.
  - The stride (`int(fps)` when the argument is 0; forced to 1 when the
    softmax script exports).
  - The counter schedule (frames `1, 2·skip, 3·skip, …`).
  - The seek schedule (frames `0, skip, 2·skip, …`).
  - The saved images, the log, the abort on a failing flush, and the hand-off
    to `out_video`.

Each loop of the source is a method proved against a specification function.
`ExtractFaces` is proved against `Accepted` and `CropWindow`, `DetectFace`
against `FrameOutput`, `TripletMain` against `TripletRun`, and `SeekLoop`
(the loop of the softmax script's `main`) against `SoftmaxRun`. The lemmas
state what those functions guarantee, among them that every run's log is in
time order.

Behaviour the model keeps exactly as the code has it, though a reader might expect otherwise:

- The default stride is `int(fps)`, not `round(fps)`.
- A negative box origin is replaced by its absolute value, not by zero.
- The open-mode running label is reset on every call. Ranges therefore begin
  and end inside one frame, and are flushed only on the frame numbered as
  the frame count.
- The classification threshold compounds by 100 per face.
- A flush with no running label raises and ends the run.
- `out_video` reads back one image fewer than were saved.

## Model

| member | source | states |
|---|---|---|
| FaceExtract.CropWindow | src/ouput_function/find_person_in_video_triplet_model.py:62-70 | the crop window always lies inside the frame: `0 <= left`, `right <= width`, `0 <= top`, `bottom <= height` |
| FaceExtract.CropWindowNotInverted | src/ouput_function/find_person_in_video_triplet_model.py:66-70 | with the absolute origin inside the frame and a non-negative size, left <= right and top <= bottom |
| FaceExtract.CropWindowCoversBox | src/ouput_function/find_person_in_video_triplet_model.py:63-70 | a box inside the frame is contained in its window, which reaches at most 22 pixels (half the 44-pixel margin) beyond it on each side |
| FaceExtract.Accepted | src/ouput_function/find_person_in_video_triplet_model.py:55-58 | never more faces than detections, and every kept detection passes the gate |
| FaceExtract.KeptPositionsInOrder | src/ouput_function/find_person_in_video_triplet_model.py:55-80 | kept faces appear in detector order (their positions strictly increase) |
| FaceExtract.KeptPositionsIff | src/ouput_function/find_person_in_video_triplet_model.py:55-58 | a detector position is kept exactly when its detection passes the gate |
| FaceExtract.AcceptedIff | src/ouput_function/find_person_in_video_triplet_model.py:56-58 | a detection is kept iff it is among the detections and its confidence is at least 0.8 (0.8 itself passes) |
| FaceExtract.ExtractFaces | src/ouput_function/find_person_in_video_triplet_model.py:48-82 | returns one crop window and one raw box per accepted detection, in order; each window is the crop window of its box |
| Clock.FMod | src/ouput_function/find_person_in_video_triplet_model.py:190 | Python's float `%` by a positive divisor lies in `[0, n)` and differs from `x` by a whole multiple of `n` |
| Clock.Round2 | src/ouput_function/find_person_in_video_triplet_model.py:189 | `round(x, 2)` is non-negative, a whole number of hundredths, and within 0.005 of `x` |
| Clock.Round2Mono | src/ouput_function/find_person_in_video_triplet_model.py:189 | rounding to hundredths never reverses the order of two non-negative values |
| Clock.Round2TiesToEven | src/ouput_function/find_person_in_video_triplet_model.py:189 | for every non-negative `x` exactly halfway between two hundredths, `round(x, 2)` is the even one of the two neighbours |
| Clock.Round2HalfToEven | src/ouput_function/find_person_in_video_triplet_model.py:189 | ties go to the even hundredth (0.125 to 0.12, 0.135 to 0.14) |
| Clock.TimeOfDay | src/ouput_function/find_person_in_video_triplet_model.py:190 | hours >= 0, minutes in [0, 60), seconds in [0, 60), and 3600·h + 60·m + s equals the duration |
| Clock.TimeOfDayUnique | src/ouput_function/find_person_in_video_triplet_model.py:190 | any split with minutes and seconds in range that adds up to the duration is the computed one |
| Timeline.ScanFaces | src/ouput_function/find_person_in_video_triplet_model.py:168-209 | after k faces a non-empty running label has a start time, and at most k entries were logged and k boxes drawn |
| Timeline.DetectFace | src/ouput_function/find_person_in_video_triplet_model.py:156-217 | the call's result is `FrameOutput`; the image is written exactly when exporting; a flush failure only happens in open mode on the frame numbered as the frame count |
| Timeline.ThresholdCompounds | src/ouput_function/find_person_in_video_triplet_model.py:185 | after k faces the threshold has been multiplied by 100 exactly k times |
| Timeline.Step | src/ouput_function/find_person_in_video_triplet_model.py:184-209 | one face keeps a set running label paired with a start time, multiplies the threshold by 100 whatever the mode and outcome, and logs and draws at most one item each |
| Timeline.StepAppends | src/ouput_function/find_person_in_video_triplet_model.py:192-209 | one face only appends: nothing, a point for that face, or the range the old label closes; and nothing or that face's box |
| Timeline.FrameTime | src/ouput_function/find_person_in_video_triplet_model.py:189-190 | the frame time has minutes and seconds in range and adds up to within 0.005 s of `frame_number / fps` |
| Timeline.FrameOutput | src/ouput_function/find_person_in_video_triplet_model.py:156-217 | a call writes its image iff exporting, fails only in open mode on the frame numbered as the frame count, draws at most one box per accepted face and logs at most one entry more than that |
| Timeline.Accepts | src/ouput_function/find_person_in_video_triplet_model.py:184-198 | face k passes when its score beats the threshold multiplied by 100 k+1 times (and it is the target in target mode); from threshold 0.01 on, no face after the first passes with probability at most 1 |
| Timeline.AcceptedAt | src/ouput_function/find_person_in_video_triplet_model.py:184-198 | the accepted positions are below k, each beats its compounded threshold (and is the target in target mode), and they strictly increase |
| Timeline.AcceptedAtIff | src/ouput_function/find_person_in_video_triplet_model.py:184-198 | a position below k is listed exactly when its face beats its compounded threshold (and is the target in target mode) |
| Timeline.ScanStep | src/ouput_function/find_person_in_video_triplet_model.py:184-198 | the loop's comparison for face k-1 against its running threshold ×100 is exactly `Accepts` |
| Timeline.ScanDrawsAccepted | src/ouput_function/find_person_in_video_triplet_model.py:192-200 | the loop draws the raw boxes of exactly the accepted faces, in order, in both modes |
| Timeline.TargetModeLogsPoints | src/ouput_function/find_person_in_video_triplet_model.py:192-197 | target mode logs exactly one point per accepted face (name, score = prob·100, frame time) and never sets the running label |
| Timeline.OpenModeRanges | src/ouput_function/find_person_in_video_triplet_model.py:198-209 | open mode logs only ranges from the frame time to the frame time; the start time is set iff some face was accepted; ranges are fewer than accepted faces |
| Timeline.OpenModeStep | src/ouput_function/find_person_in_video_triplet_model.py:198-209 | with a running label: a rejected face or a repeat logs nothing; a different accepted label logs the old label's range and takes over |
| Timeline.OpenStep | src/ouput_function/find_person_in_video_triplet_model.py:198-209 | one open-mode pass, field by field, from any loop state |
| Timeline.OpenModeRunningLabel | src/ouput_function/find_person_in_video_triplet_model.py:201-209 | the running label is empty iff no face was accepted, otherwise it is the last accepted face's name |
| Timeline.OpenModeLabelsAlternate | src/ouput_function/find_person_in_video_triplet_model.py:201-209 | with non-empty class names, consecutive ranges carry different labels and the running label differs from the last logged one |
| Timeline.OnlyFirstFaceCanPass | src/ouput_function/find_person_in_video_triplet_model.py:184-185 | with threshold >= 0.01 and probabilities <= 1, at most one face is accepted and only face 0 can be |
| Timeline.CompoundedAtLeast | src/ouput_function/find_person_in_video_triplet_model.py:185 | from threshold >= 0.01 one pass reaches 1 and two passes reach 100 |
| Timeline.OpenModeNeverSplitsWithinFrame | src/ouput_function/find_person_in_video_triplet_model.py:185-209 | under those inputs open mode logs no range inside the face loop and target mode at most one point |
| Timeline.FrameFlushFails | src/ouput_function/find_person_in_video_triplet_model.py:211-217 | the image is written iff exporting; the call fails iff open mode, last frame, no early return and no face accepted |
| Timeline.FrameWithoutFacesExported | src/ouput_function/find_person_in_video_triplet_model.py:164-167 | an exported frame with no faces is written and nothing is logged, drawn or flushed |
| Timeline.FrameRangesInstant | src/ouput_function/find_person_in_video_triplet_model.py:189-217 | every range a call logs, the flush included, starts and ends at that frame's time |
| Timeline.FrameTimeMono | src/ouput_function/find_person_in_video_triplet_model.py:189-190 | a later frame number never gets an earlier frame time (in seconds) |
| Timeline.FrameEntriesAtFrameTime | src/ouput_function/find_person_in_video_triplet_model.py:189-217 | every entry a call logs, point or range, flush included, is logged under that frame's time |
| Timeline.TargetFrameLogsPoints | src/ouput_function/find_person_in_video_triplet_model.py:192-197 | in target mode a call never fails and logs exactly the points of its accepted faces |
| Timeline.OpenFrameLabelsAlternate | src/ouput_function/find_person_in_video_triplet_model.py:198-217 | in open mode a call's labels alternate, the flush included, and a successful flush logs the last accepted face's name |
| Reassembly.ReadOrder | src/ouput_function/find_person_in_video_triplet_model.py:141-144 | `range(1, n)`: n-1 indices (none for an empty directory), the j-th being j+1 |
| Reassembly.OutVideo | src/ouput_function/find_person_in_video_triplet_model.py:122-153 | fails iff the directory is empty; otherwise writes images 1 .. n-1 in order; the rate is always 30 |
| Reassembly.OneBasedImagesLoseLastFrame | src/ouput_function/find_person_in_video_triplet_model.py:141-144 | images numbered 1 .. n: every index read names a saved image, and exactly image n is never read |
| Reassembly.ZeroBasedImagesLoseFirstFrame | src/ouput_function/find_person_in_video_softmax_model.py:106-109 | images numbered 0 .. n-1: every index read names a saved image, and exactly image 0 is never read |
| Pipeline.FrameSkip | src/ouput_function/find_person_in_video_triplet_model.py:247-250 | a non-zero argument is the stride; argument 0 gives the whole part of the rate, `int(fps)` |
| Pipeline.SeekFrameSkip | src/ouput_function/find_person_in_video_softmax_model.py:218-223 | exporting forces stride 1; otherwise a non-zero argument is the stride and 0 gives `int(fps)` |
| Pipeline.SeekFrameSkipPositive | src/ouput_function/find_person_in_video_softmax_model.py:218-223 | the seek stride is positive iff exporting, the argument is positive, or the argument is 0 and fps >= 1 |
| Pipeline.CounterAfter | src/ouput_function/find_person_in_video_triplet_model.py:261-274 | `count` after frames 1 .. i; with a positive stride it always lies ahead of the frames read |
| Pipeline.ClosedStep | src/ouput_function/find_person_in_video_triplet_model.py:261-274 | against the closed form of `count`, frame i+1 is selected iff the counter scheme picks it, and `count` moves on by the stride exactly then |
| Pipeline.CounterAfterClosed | src/ouput_function/find_person_in_video_triplet_model.py:261-274 | the loop's `count` after i frames equals its closed form (skip, then skip·max(2, i/skip + 1)) |
| Pipeline.CounterStep | src/ouput_function/find_person_in_video_triplet_model.py:268-274 | frame i+1 goes to `detect_face` iff it is frame 1 or a multiple of the stride from twice the stride on |
| Pipeline.StrideOnePicksEvery | src/ouput_function/find_person_in_video_triplet_model.py:269 | with stride 1 every frame is processed |
| Pipeline.CounterScheduleSpec | src/ouput_function/find_person_in_video_triplet_model.py:264-280 | the processed frames lie in 1 .. i, strictly increase, and are exactly the frames the counter scheme picks |
| Pipeline.OutputsAt | src/ouput_function/find_person_in_video_triplet_model.py:271-273 | the j-th per-frame result is `detect_face` on decoder frame j numbered j + base |
| Pipeline.DetectDecoded | src/ouput_function/find_person_in_video_triplet_model.py:271-273 | the call on decoder frame j returns that frame's result, writes its image iff exporting, and fails only on the frame numbered as the frame count in open mode |
| Pipeline.OutputsFacts | src/ouput_function/find_person_in_video_triplet_model.py:211-217 | every per-frame result writes its image iff exporting and fails only in open mode on the frame numbered as the frame count |
| Pipeline.TripletRead | src/ouput_function/find_person_in_video_triplet_model.py:264-280 | one read of frame i processes at most one frame, and stops the run only when it processed that frame |
| Pipeline.TripletRun | src/ouput_function/find_person_in_video_triplet_model.py:264-280 | after frames 1 .. i at most i frames were processed, and a stopped run processed at least one |
| Pipeline.TripletRunProcessed | src/ouput_function/find_person_in_video_triplet_model.py:264-280 | after reading frames 1 .. i the counter loop has processed exactly the counter schedule |
| Pipeline.TripletRunLog | src/ouput_function/find_person_in_video_triplet_model.py:264-280 | the counter loop's log is the concatenated entries of the processed frames, in processing order |
| Pipeline.RunLogSorted | src/ouput_function/find_person_in_video_triplet_model.py:264-280 | processing frames in increasing order yields a log in time order, nothing in it later than the last processed frame's time |
| Pipeline.TripletLogSorted | src/ouput_function/find_person_in_video_triplet_model.py:264-280 | the counter loop's log is in time order after any number of frames |
| Pipeline.TripletRunImages | src/ouput_function/find_person_in_video_triplet_model.py:269-277 | when exporting every read frame 1 .. i is saved (processed ones by `detect_face`, others raw); otherwise none |
| Pipeline.TripletRunAborts | src/ouput_function/find_person_in_video_triplet_model.py:269-274 | the run stops after frame i iff the counter scheme picks it and its call fails the flush |
| Pipeline.TripletMain | src/ouput_function/find_person_in_video_triplet_model.py:246-288 | the loop's processed frames, log, saved images and abort flag are `TripletRun` after the frames read; no earlier frame aborted; without an abort every frame was read; the video is `out_video`'s order over the saved images when exporting; `out_video` fails exactly when exporting a completed run with no saved image |
| Pipeline.TripletVideoDropsLastFrame | src/ouput_function/find_person_in_video_triplet_model.py:275-287 | an exporting run over n frames saves n images and its video leaves out exactly frame n |
| Pipeline.SeekFrame | src/ouput_function/find_person_in_video_softmax_model.py:238-248 | with stride 1 the k-th read is at frame k |
| Pipeline.SeekFrameProduct | src/ouput_function/find_person_in_video_softmax_model.py:238-248 | read k is at frame k·skip, and reads move strictly forward |
| Pipeline.SeekSchedule | src/ouput_function/find_person_in_video_softmax_model.py:236-251 | k reads, the j-th at `SeekFrame(j)` |
| Pipeline.SoftmaxRun | src/ouput_function/find_person_in_video_softmax_model.py:236-251 | after k reads exactly k frames were processed, one per read |
| Pipeline.SoftmaxRunNext | src/ouput_function/find_person_in_video_softmax_model.py:238-248 | one more read processes `SeekFrame(k)`: its entries are appended, its image is saved by the call and again by `main` unless the call failed |
| Pipeline.SoftmaxRunProcessed | src/ouput_function/find_person_in_video_softmax_model.py:236-251 | after k reads the processed frames are 0, skip, …, (k-1)·skip |
| Pipeline.SoftmaxRunLog | src/ouput_function/find_person_in_video_softmax_model.py:236-251 | the seek loop's log is the concatenated entries of the processed frames, in order |
| Pipeline.SoftmaxLogSorted | src/ouput_function/find_person_in_video_softmax_model.py:236-251 | the seek loop's log is in time order after any number of reads |
| Pipeline.SoftmaxRunImages | src/ouput_function/find_person_in_video_softmax_model.py:242-247 | with the stride 1 that exporting forces, an exporting run saves frames 0 .. k-1 (and with stride 1 a non-exporting one saves none) |
| Pipeline.SoftmaxRunNoImages | src/ouput_function/find_person_in_video_softmax_model.py:242-247 | for every stride, a run whose calls write no image (a non-exporting run) saves none |
| Pipeline.SoftmaxRunAborts | src/ouput_function/find_person_in_video_softmax_model.py:242-244 | the run stops after read k iff that frame's call fails its flush |
| Pipeline.SoftmaxNeverAbortsWithinCount | src/ouput_function/find_person_in_video_softmax_model.py:185-188 | when the frame count covers every decodable frame the seek loop never aborts |
| Pipeline.SeekLoop | src/ouput_function/find_person_in_video_softmax_model.py:236-251 | all reads fall on decodable frames; the state is `SoftmaxRun` after the reads made; no earlier read failed; a completed loop ends at the first seek past the last frame, an aborted one at the failing frame |
| Pipeline.SoftmaxMain | src/ouput_function/find_person_in_video_softmax_model.py:216-259 | all reads fall on decodable frames; the state is `SoftmaxRun` after the reads made; no earlier read failed; a completed run ends at the first seek past the last frame; an aborted one at the failing frame; the video is `out_video`'s order over the saved images when exporting; `out_video` fails exactly when exporting a completed run with no saved image |
| Pipeline.SoftmaxVideoDropsFirstFrame | src/ouput_function/find_person_in_video_softmax_model.py:236-258 | an exporting run over n frames saves n images and its video leaves out exactly frame 0 |

## Left out

- Pixels, colour conversion, resizing, drawing, the detector, the embedding
  network and the classifiers are outside the model. A frame is its size,
  the detector's results and the classifier's answer for each accepted face,
  all given as inputs.
- Files and devices are not modelled: `out_txt` appends are the returned log
  entries, and image files are the set of saved frame numbers. Audio
  extraction, video encoding, muxing, file removal, directory creation and
  the progress bar are left out too.
- Entry text formatting (`{:0>2}` padding, `{:0>2.0f}` seconds) is left out.
  Entries keep the numeric time of day.
- Clock.Round2: rounds the exact quotient. Python rounds the nearest binary
  double, so ties that a double cannot represent exactly may round the other
  way.
- Detection confidences, class probabilities, scores and the threshold are
  exact reals. The program compares binary floats: the 0.8 gate, the score
  `probability * 100`, and the threshold after each `threshold *= 100` are
  all rounded. A score just above the threshold can round to the same float
  and be rejected, where the model accepts it. Rounding at these boundaries
  is not modelled.
- Clock.TimeOfDay: exact real arithmetic; binary floating-point error in `%`
  and `/` is not modelled.
- Timeline.DetectFace, Timeline.FrameTime, Timeline.FrameOutput,
  Pipeline.TripletMain, Pipeline.SeekLoop, Pipeline.SoftmaxMain: require
  `fps > 0`. The source divides by `fps` for every classified face, so with
  `fps` 0 it fails once a face is processed. With `fps` 0, a `frame_skip`
  argument of 0 and no classified face, the triplet script processes only
  frame 1 and completes; the softmax script without export raises at the
  progress bar (see the next line). The model represents none of these runs.
- Pipeline.SoftmaxMain, Pipeline.SeekLoop: require a positive stride. With stride 0 the source's
  progress bar computes `frame_count // 0` and raises; a negative stride seeks
  backwards. Neither is modelled. `SeekFrameSkipPositive` states exactly when
  the requirement holds.
- Pipeline.TripletMain, Pipeline.SoftmaxMain: a failing flush is an uncaught
  exception. It is modelled as the run stopping with the `aborted` flag set,
  nothing after it, and no video. A failing `out_video` (an empty image
  directory) is returned as `videoFailed`. The decoder is the sequence of decodable
  frames, with `cap.isOpened()` and a failed read both meaning the end of
  that sequence.
- `frame_count` is taken as given. The model does not assume it equals the
  number of decodable frames.
- The softmax-training script is not part of this model.
