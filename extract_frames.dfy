/** Frame decimation: every `frame_interval`-th frame of a video is written
    as `frame_NNNNNN.jpg`, numbered consecutively from zero, into a
    directory named after the video's stem. */
module ExtractFrames {
  import opened Errors
  import Text
  import Paths

  /** `extract_frames`' default `frame_interval`. */
  const DEFAULT_INTERVAL := 5

  /** `f"frame_{frame_number:06d}.jpg"`. */
  function FrameFileName(n: nat): (name: string)
    ensures |name| >= 16 && name[..6] == "frame_" && name[|name| - 4..] == ".jpg"
  {
    "frame_" + Text.ZeroPad(Text.Dec(n), 6) + ".jpg"
  }

  /** `os.path.join(output_dir, f"frame_{frame_number:06d}.jpg")`. */
  function FramePath(outputDir: string, n: nat): string {
    Paths.OsJoin(outputDir, FrameFileName(n))
  }

  /** A written image: its path and the read index of the frame in it. */
  datatype Written = Written(path: string, frameIndex: nat)

  function Abs(k: int): nat {
    if k < 0 then -k else k
  }

  /** `k` is `ceil(c / d)`: the fewest multiples of `d` that reach `c`. */
  predicate CeilOf(k: nat, c: nat, d: nat) {
    c <= k * d && (k == 0 || (k - 1) * d < c)
  }

  /** The read indices below `c` that the counter loop keeps: those where
      `frame_count % frame_interval == 0`. */
  function Kept(c: nat, interval: int): (ks: seq<nat>)
    requires interval != 0
    ensures |ks| <= c
  {
    if c == 0 then []
    else Kept(c - 1, interval) + (if (c - 1) % interval == 0 then [c - 1] else [])
  }

  /** The images for the kept indices, numbered consecutively. */
  function Files(outputDir: string, ks: seq<nat>): (w: seq<Written>)
    ensures |w| == |ks|
  {
    seq(|ks|, n requires 0 <= n < |ks| => Written(FramePath(outputDir, n), ks[n]))
  }

  /** What `extract_frames` writes for a video that opens and yields
      `frames` frames before the first failed read. A zero interval raises
      on the first frame read. */
  function Extracted(isOpened: bool, frames: nat, outputDir: string, interval: int): (r: Result<seq<Written>>)
    ensures r.Err? <==> isOpened && frames > 0 && interval == 0
    ensures r.Err? ==> r.error == ZeroDivisionError
    ensures !isOpened ==> r == Ok([])
  {
    if !isOpened then Ok([])
    else if interval == 0 then (if frames == 0 then Ok([]) else Err(ZeroDivisionError))
    else Ok(Files(outputDir, Kept(frames, interval)))
  }

  /** `extract_frames`: the counter loop. */
  method Extract(isOpened: bool, frames: nat, outputDir: string, interval: int) returns (r: Result<seq<Written>>)
    ensures r == Extracted(isOpened, frames, outputDir, interval)
  {
    if !isOpened {
      return Ok([]);
    }
    var written: seq<Written> := [];
    var frameCount: nat := 0;
    var frameNumber: nat := 0;
    while frameCount < frames
      invariant frameCount <= frames && frameNumber == |written|
      invariant interval == 0 ==> frameCount == 0 && written == []
      invariant interval != 0 ==> written == Files(outputDir, Kept(frameCount, interval))
      decreases frames - frameCount
    {
      if interval == 0 {
        return Err(ZeroDivisionError);
      }
      if frameCount % interval == 0 {
        written := written + [Written(FramePath(outputDir, frameNumber), frameCount)];
        frameNumber := frameNumber + 1;
      }
      frameCount := frameCount + 1;
      assert written == Files(outputDir, Kept(frameCount, interval));
    }
    return Ok(written);
  }

  /** A read index is kept exactly when it is below the count and the
      interval divides it. */
  lemma {:induction false} KeptIff(c: nat, interval: int, i: int)
    requires interval != 0
    decreases c
    ensures i in Kept(c, interval) <==> 0 <= i < c && i % interval == 0
  {
    if c > 0 {
      KeptIff(c - 1, interval, i);
    }
  }

  /** The n-th kept index is n times the interval's size, and there are
      `ceil(c / |interval|)` of them. */
  lemma {:induction false} KeptSpacing(c: nat, interval: int)
    requires interval != 0
    decreases c
    ensures forall n :: 0 <= n < |Kept(c, interval)| ==> Kept(c, interval)[n] == n * Abs(interval)
    ensures CeilOf(|Kept(c, interval)|, c, Abs(interval))
  {
    if c > 0 {
      var x := c - 1;
      KeptSpacing(x, interval);
      ModAbs(x, interval);
      CeilStep(x, |Kept(x, interval)|, Abs(interval));
      var ks := Kept(c, interval);
      assert forall n :: 0 <= n < |Kept(x, interval)| ==> ks[n] == Kept(x, interval)[n];
    }
  }

  /** One more read index: a multiple of `d` is the next kept one, and the
      count stays the ceiling. */
  lemma CeilStep(x: nat, k: nat, d: nat)
    requires d > 0 && CeilOf(k, x, d)
    ensures x % d == 0 ==> x == k * d && CeilOf(k + 1, x + 1, d)
    ensures x % d != 0 ==> CeilOf(k, x + 1, d)
  {
    if x % d == 0 {
      DivisibleIsMultiple(x, d);
      var m := x / d;
      if m < k { MulLess(m, k - 1, d); }
      if m > k { MulLess(k + 1, m, d); }
    } else if x == k * d {
      MultipleIsDivisible(k, d);
    }
  }

  lemma MulLess(a: int, b: int, d: int)
    requires d > 0 && a <= b
    ensures a * d <= b * d
  {
  }

  lemma DivisibleIsMultiple(c: int, d: int)
    requires d > 0 && c % d == 0
    ensures c == (c / d) * d
  {
  }

  /** Euclidean division is unique. */
  lemma DivUnique(x: int, d: int, q: int, r: int)
    requires d > 0 && x == q * d + r && 0 <= r < d
    ensures x % d == r
  {
    var q' := x / d;
    if q' < q { MulLess(q', q - 1, d); }
    if q < q' { MulLess(q, q' - 1, d); }
  }

  lemma MultipleIsDivisible(m: int, d: int)
    requires d > 0
    ensures (m * d) % d == 0
  {
    DivUnique(m * d, d, m, 0);
  }

  /** Python's `%` by a negative divisor is zero exactly when the divisor's
      size divides, as is Dafny's. */
  lemma ModAbs(c: int, interval: int)
    requires interval != 0
    ensures c % interval == 0 <==> c % Abs(interval) == 0
  {
    if interval < 0 {
      var d := -interval;
      var q, r := c / d, c % d;
      assert c == (-q) * interval + r;
      var q', r' := c / interval, c % interval;
      assert c == (-q') * d + r';
      DivUnique(c, d, -q', r');
    }
  }

  /** A frame is written exactly when its read index is a multiple of the
      interval. */
  lemma WrittenIffMultiple(frames: nat, outputDir: string, interval: int, i: int)
    requires interval != 0
    ensures var w := Extracted(true, frames, outputDir, interval).value;
      (exists n :: 0 <= n < |w| && w[n].frameIndex == i) <==> 0 <= i < frames && i % interval == 0
  {
    var ks := Kept(frames, interval);
    var w := Extracted(true, frames, outputDir, interval).value;
    KeptIff(frames, interval, i);
    if i in ks {
      var n :| 0 <= n < |ks| && ks[n] == i;
      assert w[n].frameIndex == i;
    }
  }

  /** The count of images is `ceil(frames / |interval|)`, the n-th holds
      read index `n * |interval|`, and an unopened video writes nothing. */
  lemma ExtractedCount(frames: nat, outputDir: string, interval: int)
    requires interval != 0
    ensures var w := Extracted(true, frames, outputDir, interval).value;
      CeilOf(|w|, frames, Abs(interval))
      && forall n :: 0 <= n < |w| ==> w[n].frameIndex == n * Abs(interval)
  {
    KeptSpacing(frames, interval);
  }

  /** The written names are the consecutive frame numbers, all different:
      no image overwrites another. */
  lemma FrameNamesDistinct(m: nat, n: nat)
    requires FrameFileName(m) == FrameFileName(n)
    ensures m == n
  {
    var pm, pn := Text.ZeroPad(Text.Dec(m), 6), Text.ZeroPad(Text.Dec(n), 6);
    assert |pm| == |pn|;
    assert pm == FrameFileName(m)[6..|FrameFileName(m)| - 4];
    assert pn == FrameFileName(n)[6..|FrameFileName(n)| - 4];
    Text.PaddedInjective(m, n, 6);
  }

  /** A frame file name is a single path component. */
  lemma FrameFileNameHasNoSlash(n: nat)
    ensures '/' !in FrameFileName(n)
  {
    var d := Text.Dec(n);
    Text.DecDigits(n);
    var pad := Text.ZeroPad(d, 6);
    assert forall i :: 0 <= i < |pad| ==> '0' <= pad[i] <= '9' by {
      forall i | 0 <= i < |pad| ensures '0' <= pad[i] <= '9' {
        if |d| < 6 && i < 6 - |d| {
          assert pad[i] == Text.Zeros(6 - |d|)[i];
        } else if |d| < 6 {
          assert pad[i] == d[i - (6 - |d|)];
        } else {
          assert pad[i] == d[i];
        }
      }
    }
    var name := FrameFileName(n);
    forall i | 0 <= i < |name| ensures name[i] != '/' {
      if i < 6 {
        assert name[i] == "frame_"[i];
      } else if i < 6 + |pad| {
        assert name[i] == pad[i - 6];
      } else {
        assert name[i] == ".jpg"[i - 6 - |pad|];
      }
    }
  }

  lemma WrittenPathsDistinct(frames: nat, outputDir: string, interval: int, j: nat, k: nat)
    requires Extracted(true, frames, outputDir, interval).Ok?
    requires j < k < |Extracted(true, frames, outputDir, interval).value|
    ensures Extracted(true, frames, outputDir, interval).value[j].path
      != Extracted(true, frames, outputDir, interval).value[k].path
  {
    var w := Extracted(true, frames, outputDir, interval).value;
    if w[j].path == w[k].path {
      Paths.OsJoinInjective(outputDir, FrameFileName(j), FrameFileName(k));
      FrameNamesDistinct(j, k);
    }
  }

  /** The first two names, spelled out. */
  lemma FirstFrameNames()
    ensures FrameFileName(0) == "frame_000000.jpg" && FrameFileName(1) == "frame_000001.jpg"
  {
    assert Text.Dec(0) == "0" && Text.Dec(1) == "1";
    assert Text.Zeros(5) == "00000";
  }

  /** A video file found by the `*.mp4` glob, and what reading it gives. */
  datatype Video = Video(name: string, isOpened: bool, frames: nat)

  /** `Path(output_dir) / video_file.stem`. */
  function VideoOutputDir(outputDir: string, videoName: string): string {
    Paths.Join(outputDir, Paths.Stem(videoName))
  }

  /** A video named "<s>.mp4" gets the directory "<output_dir>/<s>". */
  lemma VideoOutputDirOfMp4(outputDir: string, s: string)
    requires s != ""
    ensures VideoOutputDir(outputDir, s + ".mp4") == Paths.Join(outputDir, s)
  {
    Paths.StemOfMp4(s);
  }

  /** `run` is what extracting video `v` with the default interval into its
      own directory under `outputDir` gives. */
  predicate ExtractedInto(outputDir: string, v: Video, run: (string, seq<Written>)) {
    run.0 == VideoOutputDir(outputDir, v.name)
    && Ok(run.1) == Extracted(v.isOpened, v.frames, run.0, DEFAULT_INTERVAL)
  }

  /** `process_all_videos`: each globbed video in turn, extracted with the
      default interval into its own directory. */
  method ProcessAllVideos(outputDir: string, videos: seq<Video>) returns (runs: seq<(string, seq<Written>)>)
    ensures |runs| == |videos|
    ensures forall i :: 0 <= i < |videos| ==> ExtractedInto(outputDir, videos[i], runs[i])
  {
    runs := [];
    for i := 0 to |videos|
      invariant |runs| == i
      invariant forall j :: 0 <= j < i ==> ExtractedInto(outputDir, videos[j], runs[j])
    {
      var run := ProcessVideo(outputDir, videos[i]);
      AppendRun(outputDir, videos, runs, run);
      runs := runs + [run];
    }
  }

  lemma AppendRun(outputDir: string, videos: seq<Video>, runs: seq<(string, seq<Written>)>, run: (string, seq<Written>))
    requires |runs| < |videos| && ExtractedInto(outputDir, videos[|runs|], run)
    requires forall j :: 0 <= j < |runs| ==> ExtractedInto(outputDir, videos[j], runs[j])
    ensures forall j :: 0 <= j <= |runs| ==> ExtractedInto(outputDir, videos[j], (runs + [run])[j])
  {
    forall j | 0 <= j <= |runs|
      ensures ExtractedInto(outputDir, videos[j], (runs + [run])[j])
    {
      if j < |runs| {
        assert (runs + [run])[j] == runs[j];
      }
    }
  }

  /** One pass of `process_all_videos`: the video's own directory, and the
      frames extracted into it. */
  method ProcessVideo(outputDir: string, v: Video) returns (run: (string, seq<Written>))
    ensures ExtractedInto(outputDir, v, run)
  {
    var dir := VideoOutputDir(outputDir, v.name);
    var r := Extract(v.isOpened, v.frames, dir, DEFAULT_INTERVAL);
    run := (dir, r.value);
  }
}
