/**
 `out_video`: the order in which saved frame images are fed to the video
 writer. Audio extraction, decoding the images, encoding, muxing and file
 removal are codec work and are not modelled; only the image indices are.
 */
module Reassembly {

  /** The writer's frame rate, whatever rate the caller passes in. */
  const OutputRate: nat := 30

  /** The frame numbers `lo <= p < hi`, as the set of saved image names. */
  function FrameRange(lo: nat, hi: nat): (r: set<nat>)
    ensures forall p :: p in r <==> lo <= p < hi
    ensures |r| == if lo <= hi then hi - lo else 0
    decreases hi - lo
  {
    if lo >= hi then {} else {lo} + FrameRange(lo + 1, hi)
  }

  /** `range(1, n)`: the image indices read back for a directory of `n` files. */
  function ReadOrder(fileCount: nat): (r: seq<nat>)
    ensures |r| == if fileCount == 0 then 0 else fileCount - 1
    ensures forall j :: 0 <= j < |r| ==> r[j] == j + 1
  {
    if fileCount <= 1 then [] else ReadOrder(fileCount - 1) + [fileCount - 1]
  }

  /**
   `out_video`: fails when the image directory is empty (the first listed
   file is read for the frame size), otherwise writes the images with
   indices 1 .. n-1 in increasing order at the fixed output rate.
   */
  method OutVideo(fileCount: nat, fps: real) returns (written: seq<nat>, rate: nat, ok: bool)
    ensures ok <==> fileCount > 0
    ensures ok ==> written == ReadOrder(fileCount)
    ensures !ok ==> written == []
    ensures rate == OutputRate
  {
    written, rate := [], OutputRate;
    if fileCount == 0 {
      // `list_file[0]` on an empty listing
      return written, rate, false;
    }
    ok := true;
    var i := 1;
    while i < fileCount
      invariant 1 <= i <= fileCount
      invariant written == ReadOrder(i)
    {
      written := written + [i];
      i := i + 1;
    }
  }

  /**
   Images numbered 1 .. n (the counter-scheme script): every index read back
   names a saved image, and exactly the last frame is never written.
   */
  lemma OneBasedImagesLoseLastFrame(n: nat)
    requires n >= 1
    ensures |FrameRange(1, n + 1)| == n
    ensures forall j :: 0 <= j < |ReadOrder(n)| ==> ReadOrder(n)[j] in FrameRange(1, n + 1)
    ensures forall p :: p in FrameRange(1, n + 1) ==> (p in ReadOrder(n) <==> p != n)
  {
    var r := ReadOrder(n);
    forall p | p in FrameRange(1, n + 1)
      ensures p in r <==> p != n
    {
      if p != n {
        assert r[p - 1] == p;
      }
    }
  }

  /**
   Images numbered 0 .. n-1 (the seek-scheme script): every index read back
   names a saved image, and exactly frame 0 is never written.
   */
  lemma ZeroBasedImagesLoseFirstFrame(n: nat)
    requires n >= 1
    ensures |FrameRange(0, n)| == n
    ensures forall j :: 0 <= j < |ReadOrder(n)| ==> ReadOrder(n)[j] in FrameRange(0, n)
    ensures forall p :: p in FrameRange(0, n) ==> (p in ReadOrder(n) <==> p != 0)
  {
    var r := ReadOrder(n);
    forall p | p in FrameRange(0, n)
      ensures p in r <==> p != 0
    {
      if p != 0 {
        assert r[p - 1] == p;
      }
    }
  }
}
