/** Photos, videos and the timelapse loop (server.py:186-273) as functions
    of the snapshot they start from. The camera tools run as shell commands
    whose exit status is ignored, so each of them is a flag saying whether
    it left its output file; the clock readings and the values of the
    shared `is_capture_timelapse` flag are inputs. */
module Capture {
  import opened Paths
  import opened FileTree
  import opened Stamps
  import opened Library

  const PHOTOS: Path := ["photos"]
  const VIDEOS: Path := ["videos"]
  const TIMELAPSES: Path := ["timelapses"]
  const VIDEO_THUMBNAILS: Path := [THUMBNAILS, "videos"]

  /** What one `capture_photo` call sees: the time `datetime.now()` reads,
      the ctime the new entries get, and whether `libcamera-still` wrote
      its output. */
  datatype Shot = Shot(at: DateTime, ctime: int, written: bool)

  predicate ValidShots(shots: seq<Shot>) {
    forall i :: 0 <= i < |shots| ==> ValidTime(shots[i].at)
  }

  /** `os.mkdir(p)` after an `os.path.exists(p)` that said no. */
  function MakeDirIfMissing(fs: FS, p: Path, ctime: int): (r: FS)
    ensures p in r && forall q :: q in fs ==> q in r && r[q] == fs[q]
    ensures forall q :: q in r ==> q in fs || q == p
  {
    if p in fs then fs else fs[p := Dir(ctime)]
  }

  /** `capture_photo` (server.py:186-199): make `photos/` if missing, then
      `libcamera-still -o ./photos/photo_<stamp>.jpg`. A tool that cannot
      write its output leaves nothing and raises nothing. */
  function CapturePhoto(fs: FS, shot: Shot): FS
    requires ValidTime(shot.at)
  {
    var fs1 := MakeDirIfMissing(fs, PHOTOS, shot.ctime);
    var target := PhotoPath(shot.at);
    if shot.written && IsDir(fs1, PHOTOS) && !IsDir(fs1, target) then fs1[target := File(shot.ctime)]
    else fs1
  }

  /** A photo capture makes `photos/` when it is missing, adds at most
      one file in it, and changes nothing else. */
  lemma CapturePhotoFrame(fs: FS, shot: Shot)
    requires ValidTime(shot.at)
    ensures var r := CapturePhoto(fs, shot);
      && (forall q :: q in fs && !IsPrefix(PHOTOS, q) ==> q in r && r[q] == fs[q])
      && (forall q :: q in r && q !in fs ==> q == PHOTOS || q == PhotoPath(shot.at))
      && (forall q :: q in r && q in fs && r[q] != fs[q] ==> q == PhotoPath(shot.at))
      && ((shot.written && !IsFile(fs, PHOTOS) && !IsDir(fs, PhotoPath(shot.at)))
          ==> IsFile(r, PhotoPath(shot.at)))
      && PHOTOS in r && (PHOTOS !in fs ==> IsDir(r, PHOTOS))
  {
    assert !IsPrefix(PHOTOS, []);
    assert PhotoPath(shot.at)[..1] == PHOTOS;
    if PhotoPath(shot.at) in fs {
      assert PhotoPath(shot.at) != [];
    }
  }

  lemma CapturePhotoValid(fs: FS, shot: Shot)
    requires Valid(fs) && ValidTime(shot.at)
    ensures Valid(CapturePhoto(fs, shot))
  {
    var fs1 := MakeDirIfMissing(fs, PHOTOS, shot.ctime);
    assert PlainPath(PHOTOS) by { assert PlainSegment("photos"); }
    if PHOTOS !in fs {
      assert Parent(PHOTOS) == [];
      PutValid(fs, PHOTOS, Dir(shot.ctime));
    }
    var target := PhotoPath(shot.at);
    PhotoFilenameResolves(shot.at);
    if shot.written && IsDir(fs1, PHOTOS) && !IsDir(fs1, target) {
      assert Parent(target) == PHOTOS;
      PutValid(fs1, target, File(shot.ctime));
    }
  }

  /** The captures of one loop, in order. */
  function Captures(fs: FS, shots: seq<Shot>): FS
    requires ValidShots(shots)
    decreases |shots|
  {
    if shots == [] then fs
    else CapturePhoto(Captures(fs, shots[..|shots| - 1]), shots[|shots| - 1])
  }

  /** Captures only ever add or overwrite entries below `photos/`. */
  lemma {:induction false} CapturesFrame(fs: FS, shots: seq<Shot>)
    requires ValidShots(shots)
    ensures var r := Captures(fs, shots);
      && (forall q :: !IsPrefix(PHOTOS, q) ==> (q in r <==> q in fs))
      && (forall q :: q in fs && !IsPrefix(PHOTOS, q) ==> r[q] == fs[q])
    decreases |shots|
  {
    if shots != [] {
      var last := shots[|shots| - 1];
      var fs1 := Captures(fs, shots[..|shots| - 1]);
      CapturesFrame(fs, shots[..|shots| - 1]);
      CapturePhotoFrame(fs1, last);
      forall q | !IsPrefix(PHOTOS, q) && q in CapturePhoto(fs1, last) ensures q in fs1 {
        assert PhotoPath(last.at)[..1] == PHOTOS;
      }
    }
  }

  lemma {:induction false} CapturesValid(fs: FS, shots: seq<Shot>)
    requires Valid(fs) && ValidShots(shots)
    ensures Valid(Captures(fs, shots))
    decreases |shots|
  {
    if shots != [] {
      CapturesValid(fs, shots[..|shots| - 1]);
      CapturePhotoValid(Captures(fs, shots[..|shots| - 1]), shots[|shots| - 1]);
    }
  }

  /** `os.remove(p)`: a missing file raises `FileNotFoundError` (or
      `NotADirectoryError` when its folder is a regular file), a directory
      `IsADirectoryError`. */
  function Remove(fs: FS, p: Path): (r: Effect)
    requires p != []
    ensures r.outcome.Ok? <==> IsFile(fs, p)
    ensures r.fs == if IsFile(fs, p) then fs - {p} else fs
  {
    if p !in fs then
      Effect(Raised(if IsFile(fs, Parent(p)) then NotADirectory(p) else FileNotFound(p)), fs)
    else if fs[p].Dir? then Effect(Raised(IsADirectory(p)), fs)
    else Effect(Ok(()), fs - {p})
  }

  /** `Image.open(p)` followed by `img.save(p)`: the file must exist, and is
      written again. */
  function Rewrite(fs: FS, p: Path, ctime: int): (r: Effect)
    requires p != []
    ensures r.outcome.Ok? <==> IsFile(fs, p)
    ensures r.fs == if IsFile(fs, p) then fs[p := File(ctime)] else fs
  {
    if p !in fs then
      Effect(Raised(if IsFile(fs, Parent(p)) then NotADirectory(p) else FileNotFound(p)), fs)
    else if fs[p].Dir? then Effect(Raised(IsADirectory(p)), fs)
    else Effect(Ok(()), fs[p := File(ctime)])
  }

  /** `thumbnails/videos/video_<stamp>.jpg`, where `record_video` puts the
      video's thumbnail (server.py:231-237). */
  function VideoThumbPath(t: DateTime): Path
    requires ValidTime(t)
  {
    VIDEO_THUMBNAILS + [VideoThumbName(t)]
  }

  /** The first half of `record_video` (server.py:212-225): make `videos/`
      if missing, record the `.h264`, convert it to `.mp4`. `recorded` and
      `converted` say whether `libcamera-vid` and the `ffmpeg` conversion
      left their output file; each needs its input to exist and its output
      not to be a directory. */
  function Record(fs: FS, t: DateTime, ctime: int, recorded: bool, converted: bool): FS
    requires ValidTime(t)
  {
    var h264 := VideoRawPath(t);
    var mp4 := VideoMp4Path(t);
    var fs1 := MakeDirIfMissing(fs, VIDEOS, ctime);
    var fs2 := if recorded && IsDir(fs1, VIDEOS) && !IsDir(fs1, h264) then fs1[h264 := File(ctime)] else fs1;
    if converted && IsFile(fs2, h264) && !IsDir(fs2, mp4) then fs2[mp4 := File(ctime)] else fs2
  }

  /** The end of `record_video` and `create_video_thumbnail`
      (server.py:231-237, 154-161): make `thumbnails/videos` if missing
      (`os.mkdir` does not make `thumbnails/`), grab a frame with `ffmpeg`
      (`framed` says whether it left the `.jpg`), then open and save the
      thumbnail again. */
  function Thumbnail(fs: FS, t: DateTime, ctime: int, framed: bool): Effect
    requires ValidTime(t)
  {
    var mp4 := VideoMp4Path(t);
    var thumb := VideoThumbPath(t);
    if VIDEO_THUMBNAILS !in fs && !IsDir(fs, [THUMBNAILS]) then
      Effect(Raised(if [THUMBNAILS] in fs then NotADirectory(VIDEO_THUMBNAILS) else FileNotFound(VIDEO_THUMBNAILS)), fs)
    else
      var fs1 := MakeDirIfMissing(fs, VIDEO_THUMBNAILS, ctime);
      var fs2 := if framed && IsFile(fs1, mp4) && IsDir(fs1, VIDEO_THUMBNAILS) && !IsDir(fs1, thumb)
        then fs1[thumb := File(ctime)] else fs1;
      Rewrite(fs2, thumb, ctime)
  }

  /** `record_video` (server.py:210-237): record and convert, remove the
      `.h264` with `os.remove`, then make the thumbnail. */
  function RecordVideo(fs: FS, t: DateTime, ctime: int, recorded: bool, converted: bool, framed: bool): Effect
    requires ValidTime(t)
  {
    var removed := Remove(Record(fs, t, ctime, recorded, converted), VideoRawPath(t));
    if removed.outcome.Raised? then removed else Thumbnail(removed.fs, t, ctime, framed)
  }

  /** A recording whose three tools all succeed leaves the `.mp4` and its
      `.jpg` thumbnail, removes the `.h264`, and changes nothing else but
      the two folders it makes when they are missing. A recording that
      left no `.h264` fails at `os.remove`, keeping what it did before. */
  lemma RecordVideoSpec(fs: FS, t: DateTime, ctime: int, recorded: bool, converted: bool, framed: bool)
    requires Valid(fs) && ValidTime(t)
    requires !IsFile(fs, VIDEOS) && IsDir(fs, [THUMBNAILS]) && !IsFile(fs, VIDEO_THUMBNAILS)
    requires !IsDir(fs, VideoRawPath(t)) && !IsDir(fs, VideoMp4Path(t)) && !IsDir(fs, VideoThumbPath(t))
    ensures var r := RecordVideo(fs, t, ctime, recorded, converted, framed);
      var others := {VIDEOS, VIDEO_THUMBNAILS, VideoRawPath(t), VideoMp4Path(t), VideoThumbPath(t)};
      && (recorded && converted && framed ==>
            && r.outcome == Ok(())
            && IsFile(r.fs, VideoMp4Path(t)) && IsFile(r.fs, VideoThumbPath(t))
            && VideoRawPath(t) !in r.fs
            && IsDir(r.fs, VIDEOS) && IsDir(r.fs, VIDEO_THUMBNAILS)
            && (forall q :: q !in others ==> (q in r.fs <==> q in fs))
            && (forall q :: q in fs && q !in others ==> r.fs[q] == fs[q]))
      && (!recorded && VideoRawPath(t) !in fs ==>
            r == Effect(Raised(FileNotFound(VideoRawPath(t))), MakeDirIfMissing(fs, VIDEOS, ctime)))
  {
    VideoPathsDistinct(t);
    RecordSteps(fs, t, ctime, recorded, converted);
    var h264 := VideoRawPath(t);
    var removed := Remove(Record(fs, t, ctime, recorded, converted), h264);
    if recorded && converted {
      ThumbnailSteps(removed.fs, t, ctime, framed);
    }
  }

  /** The paths `record_video` touches are distinct, each in its folder. */
  lemma VideoPathsDistinct(t: DateTime)
    requires ValidTime(t)
    ensures var h264 := VideoRawPath(t);
      var mp4 := VideoMp4Path(t);
      var thumb := VideoThumbPath(t);
      && h264 != [] && mp4 != [] && thumb != []
      && Parent(h264) == VIDEOS && Parent(mp4) == VIDEOS && Parent(thumb) == VIDEO_THUMBNAILS
      && h264 != mp4 && h264 != thumb && mp4 != thumb
      && VIDEOS != VIDEO_THUMBNAILS && h264 != VIDEOS && mp4 != VIDEOS && thumb != VIDEO_THUMBNAILS
      && h264 != VIDEO_THUMBNAILS && mp4 != VIDEO_THUMBNAILS && thumb != VIDEOS
      && Parent(VIDEOS) == [] && Parent(VIDEO_THUMBNAILS) == [THUMBNAILS]
  {
    var h264 := VideoRawPath(t);
    var mp4 := VideoMp4Path(t);
    var thumb := VideoThumbPath(t);
    VideoFilenamesResolve(t);
    assert Parent(h264) == VIDEOS && Parent(mp4) == VIDEOS && Parent(thumb) == VIDEO_THUMBNAILS;
    assert h264 != thumb && mp4 != thumb by { assert h264[0] != thumb[0]; }
  }

  /** The recording half: with both tools succeeding it leaves the `.h264`
      and the `.mp4` in `videos/`; with no recording and no earlier `.h264`
      it only makes `videos/`. Nothing else changes. */
  lemma RecordSteps(fs: FS, t: DateTime, ctime: int, recorded: bool, converted: bool)
    requires Valid(fs) && ValidTime(t)
    requires !IsFile(fs, VIDEOS) && !IsDir(fs, VideoRawPath(t)) && !IsDir(fs, VideoMp4Path(t))
    ensures var r := Record(fs, t, ctime, recorded, converted);
      && IsDir(r, VIDEOS)
      && (recorded && converted ==> IsFile(r, VideoRawPath(t)) && IsFile(r, VideoMp4Path(t)))
      && (forall q :: q !in {VIDEOS, VideoRawPath(t), VideoMp4Path(t)} ==> (q in r <==> q in fs))
      && (forall q :: q in fs && q !in {VIDEOS, VideoRawPath(t), VideoMp4Path(t)} ==> r[q] == fs[q])
      && (!recorded && VideoRawPath(t) !in fs ==> r == MakeDirIfMissing(fs, VIDEOS, ctime) && VideoRawPath(t) !in r)
  {
    VideoPathsDistinct(t);
  }

  /** The thumbnail half: with `framed` it leaves the `.jpg` in
      `thumbnails/videos/`, making that folder when missing, and changes
      nothing else. */
  lemma ThumbnailSteps(fs: FS, t: DateTime, ctime: int, framed: bool)
    requires ValidTime(t)
    requires IsFile(fs, VideoMp4Path(t)) && IsDir(fs, [THUMBNAILS])
    requires !IsFile(fs, VIDEO_THUMBNAILS) && !IsDir(fs, VideoThumbPath(t))
    ensures var r := Thumbnail(fs, t, ctime, framed);
      && (framed ==> r.outcome == Ok(()) && IsFile(r.fs, VideoThumbPath(t)))
      && IsDir(r.fs, VIDEO_THUMBNAILS)
      && (forall q :: q !in {VIDEO_THUMBNAILS, VideoThumbPath(t)} ==> (q in r.fs <==> q in fs))
      && (forall q :: q in fs && q !in {VIDEO_THUMBNAILS, VideoThumbPath(t)} ==> r.fs[q] == fs[q])
  {
    VideoPathsDistinct(t);
  }

  /** The video names, their folders and the thumbnail are plain paths,
      each in the folder it is made in. */
  lemma VideoPathsPlain(t: DateTime)
    requires ValidTime(t)
    ensures PlainPath(VIDEOS) && PlainPath(VIDEO_THUMBNAILS)
    ensures PlainPath(VideoRawPath(t)) && PlainPath(VideoMp4Path(t)) && PlainPath(VideoThumbPath(t))
    ensures Parent(VideoRawPath(t)) == VIDEOS && Parent(VideoMp4Path(t)) == VIDEOS
    ensures Parent(VideoThumbPath(t)) == VIDEO_THUMBNAILS
    ensures Parent(VIDEOS) == [] && Parent(VIDEO_THUMBNAILS) == [THUMBNAILS]
  {
    VideoFilenamesResolve(t);
    VideoThumbNameIs(t);
    NoSlashAround("video_", t, ".jpg");
    assert PlainSegment(THUMBNAILS) && PlainSegment("videos");
    assert VideoThumbPath(t)[2] == "video_" + Stamp(t) + ".jpg";
  }

  lemma RecordValid(fs: FS, t: DateTime, ctime: int, recorded: bool, converted: bool)
    requires Valid(fs) && ValidTime(t)
    ensures Valid(Record(fs, t, ctime, recorded, converted))
  {
    var h264 := VideoRawPath(t);
    var mp4 := VideoMp4Path(t);
    VideoPathsPlain(t);
    var fs1 := MakeDirIfMissing(fs, VIDEOS, ctime);
    if VIDEOS !in fs { PutValid(fs, VIDEOS, Dir(ctime)); }
    var fs2 := if recorded && IsDir(fs1, VIDEOS) && !IsDir(fs1, h264) then fs1[h264 := File(ctime)] else fs1;
    if recorded && IsDir(fs1, VIDEOS) && !IsDir(fs1, h264) { PutValid(fs1, h264, File(ctime)); }
    if converted && IsFile(fs2, h264) && !IsDir(fs2, mp4) { PutValid(fs2, mp4, File(ctime)); }
  }

  lemma ThumbnailValid(fs: FS, t: DateTime, ctime: int, framed: bool)
    requires Valid(fs) && ValidTime(t)
    ensures Valid(Thumbnail(fs, t, ctime, framed).fs)
  {
    var mp4 := VideoMp4Path(t);
    var thumb := VideoThumbPath(t);
    VideoPathsPlain(t);
    if VIDEO_THUMBNAILS in fs || IsDir(fs, [THUMBNAILS]) {
      var fs1 := MakeDirIfMissing(fs, VIDEO_THUMBNAILS, ctime);
      if VIDEO_THUMBNAILS !in fs { PutValid(fs, VIDEO_THUMBNAILS, Dir(ctime)); }
      var fs2 := if framed && IsFile(fs1, mp4) && IsDir(fs1, VIDEO_THUMBNAILS) && !IsDir(fs1, thumb)
        then fs1[thumb := File(ctime)] else fs1;
      if framed && IsFile(fs1, mp4) && IsDir(fs1, VIDEO_THUMBNAILS) && !IsDir(fs1, thumb) {
        PutValid(fs1, thumb, File(ctime));
      }
      if IsFile(fs2, thumb) { PutValid(fs2, thumb, File(ctime)); }
    }
  }

  lemma RecordVideoValid(fs: FS, t: DateTime, ctime: int, recorded: bool, converted: bool, framed: bool)
    requires Valid(fs) && ValidTime(t)
    ensures Valid(RecordVideo(fs, t, ctime, recorded, converted, framed).fs)
  {
    var fs3 := Record(fs, t, ctime, recorded, converted);
    RecordValid(fs, t, ctime, recorded, converted);
    var removed := Remove(fs3, VideoRawPath(t));
    if removed.outcome.Ok? {
      RemoveFileValid(fs3, VideoRawPath(t));
      ThumbnailValid(removed.fs, t, ctime, framed);
    }
  }

  /** A recorded video's thumbnail outlives the video: `/delete` of the
      `.mp4` looks for `thumbnails/videos/video_<stamp>.mp4`, not the `.jpg`
      that `record_video` made. */
  lemma RecordThenDeleteKeepsThumbnail(fs: FS, t: DateTime, ctime: int)
    requires Valid(fs) && ValidTime(t)
    requires !IsFile(fs, VIDEOS) && IsDir(fs, [THUMBNAILS]) && !IsFile(fs, VIDEO_THUMBNAILS)
    requires !IsDir(fs, VideoRawPath(t)) && !IsDir(fs, VideoMp4Path(t)) && !IsDir(fs, VideoThumbPath(t))
    ensures var r := RecordVideo(fs, t, ctime, true, true, true);
      && IsFile(r.fs, VideoMp4Path(t))
      && VideoThumbPath(t) in DeletePath(r.fs, VideoMp4Path(t)).fs
  {
    RecordVideoSpec(fs, t, ctime, true, true, true);
    var r := RecordVideo(fs, t, ctime, true, true, true);
    RecordVideoValid(fs, t, ctime, true, true, true);
    VideoThumbNameIs(t);
    assert ["videos", Basename(VideoMp4Filename(t))] == VideoMp4Path(t);
    assert [THUMBNAILS, "videos", VideoThumbName(t)] == VideoThumbPath(t);
    DeleteVideoKeepsThumbnail(r.fs, t);
  }

  /** The loop condition `is_capture_timelapse and time.time() - t0 <
      duration` at its `k`-th evaluation, given the flag and the clock as
      seen then. */
  predicate Continues(flags: seq<bool>, clock: seq<real>, t0: real, duration: int, k: nat)
    requires k < |flags| && k < |clock|
  {
    flags[k] && clock[k] - t0 < duration as real
  }

  /** The observations reach an evaluation of the condition that ends the
      loop. */
  predicate Stops(flags: seq<bool>, clock: seq<real>, t0: real, duration: int) {
    exists k: nat :: k < |flags| && k < |clock| && !Continues(flags, clock, t0, duration, k)
  }

  /** The first evaluation at or after `k` that ends the loop. */
  function FirstStop(flags: seq<bool>, clock: seq<real>, t0: real, duration: int, k: nat): (n: nat)
    requires exists j: nat :: k <= j < |flags| && j < |clock| && !Continues(flags, clock, t0, duration, j)
    ensures k <= n < |flags| && n < |clock|
    ensures !Continues(flags, clock, t0, duration, n)
    ensures forall j :: k <= j < n ==> Continues(flags, clock, t0, duration, j)
    decreases |flags| - k
  {
    if !Continues(flags, clock, t0, duration, k) then k
    else FirstStop(flags, clock, t0, duration, k + 1)
  }

  /** How many times the loop body runs. */
  function Iterations(flags: seq<bool>, clock: seq<real>, t0: real, duration: int): (n: nat)
    requires Stops(flags, clock, t0, duration)
    ensures n < |flags| && n < |clock|
    ensures !Continues(flags, clock, t0, duration, n)
    ensures forall j :: 0 <= j < n ==> Continues(flags, clock, t0, duration, j)
  {
    FirstStop(flags, clock, t0, duration, 0)
  }

  /** `time.sleep(interval)` lasts at least `interval`: each reading is at
      least `interval` after the one before, and the first is not before
      `t0`. */
  predicate Paced(clock: seq<real>, t0: real, interval: int) {
    && (|clock| > 0 ==> clock[0] >= t0)
    && forall k :: 0 <= k < |clock| - 1 ==> clock[k + 1] >= clock[k] + interval as real
  }

  lemma {:induction false} ClockAdvance(clock: seq<real>, t0: real, interval: int, k: nat)
    requires Paced(clock, t0, interval) && k < |clock|
    ensures clock[k] >= t0 + (k * interval) as real
  {
    if k > 0 {
      ClockAdvance(clock, t0, interval, k - 1);
      assert clock[k] >= clock[k - 1] + interval as real;
    }
  }

  lemma DivisionBound(duration: int, interval: int)
    requires interval > 0 && duration > 0
    ensures (duration / interval + 1) * interval > duration
  {
    var k := duration / interval;
    assert duration == k * interval + duration % interval;
    assert (k + 1) * interval == k * interval + interval;
  }

  /** With a positive interval the loop ends within `duration / interval + 1`
      iterations however long the flag stays set. The last of `n` passes
      starts at least `(n - 1) * interval` seconds after `t0`, so
      `(n - 1) * interval < duration`. */
  lemma IterationBound(flags: seq<bool>, clock: seq<real>, t0: real, interval: int, duration: int)
    requires interval > 0 && Paced(clock, t0, interval)
    requires var bound := if duration <= 0 then 0 else duration / interval + 1;
      bound < |flags| && bound < |clock|
    ensures Stops(flags, clock, t0, duration)
    ensures Iterations(flags, clock, t0, duration) <= (if duration <= 0 then 0 else duration / interval + 1)
    ensures Iterations(flags, clock, t0, duration) > 0 ==>
      (Iterations(flags, clock, t0, duration) - 1) * interval < duration
  {
    var bound: nat := if duration <= 0 then 0 else duration / interval + 1;
    ClockAdvance(clock, t0, interval, bound);
    if duration > 0 { DivisionBound(duration, interval); }
    assert (bound * interval) as real >= duration as real;
    assert !Continues(flags, clock, t0, duration, bound);
    var n := Iterations(flags, clock, t0, duration);
    if n > 0 {
      assert Continues(flags, clock, t0, duration, n - 1);
      ClockAdvance(clock, t0, interval, n - 1);
    }
  }

  /** The longest whole-second sleep `time.sleep` accepts: CPython converts
      the seconds to a signed 64-bit count of nanoseconds before it looks at
      the sign. */
  const SLEEP_MAX: int := 9223372036

  /** How `time.sleep(interval)` ends for an integer `interval`: an
      `OverflowError` when the nanoseconds do not fit in 64 bits, otherwise
      a `ValueError` when it is negative. */
  function Sleep(interval: int): (r: Outcome<()>)
    ensures r == Ok(()) <==> 0 <= interval <= SLEEP_MAX
    ensures r == Raised(ValueError) <==> -SLEEP_MAX <= interval < 0
    ensures r.Raised? ==> r.error in {ValueError, OverflowError}
  {
    if interval < -SLEEP_MAX || SLEEP_MAX < interval then Raised(OverflowError)
    else if interval < 0 then Raised(ValueError)
    else Ok(())
  }

  /** `capture_timelapse(interval, duration)` (server.py:257-273): make
      `timelapses/` if missing, make `timelapses/timelapse_<stamp>`, then run
      the loop. Each body is one `capture_photo`, followed by
      `time.sleep(interval)`, which raises for an interval it rejects
      (`Sleep`). */
  function Timelapse(fs: FS, interval: int, duration: int, now: DateTime, ctime: int,
                     t0: real, clock: seq<real>, flags: seq<bool>, shots: seq<Shot>): (r: Effect)
    requires ValidTime(now) && ValidShots(shots)
    requires Stops(flags, clock, t0, duration)
    requires Iterations(flags, clock, t0, duration) <= |shots|
  {
    var fs1 := MakeDirIfMissing(fs, TIMELAPSES, ctime);
    var folder := TimelapseFolderPath(now);
    if fs1[TIMELAPSES].File? then Effect(Raised(NotADirectory(folder)), fs1)
    else if folder in fs1 then Effect(Raised(FileExists(folder)), fs1)
    else
      var fs2 := fs1[folder := Dir(ctime)];
      var n := Iterations(flags, clock, t0, duration);
      if n > 0 && Sleep(interval).Raised? then Effect(Sleep(interval), Captures(fs2, shots[..1]))
      else Effect(Ok(()), Captures(fs2, shots[..n]))
  }

  /** What a timelapse does to the library. It fails only on a name clash,
      or on an interval `time.sleep` rejects once it has captured. When it gets past
      `os.mkdir`, it has made exactly one new folder, which stays empty:
      every photo goes to `photos/`. A flag already cleared means no photo
      at all. */
  lemma TimelapseSpec(fs: FS, interval: int, duration: int, now: DateTime, ctime: int,
                      t0: real, clock: seq<real>, flags: seq<bool>, shots: seq<Shot>)
    requires Valid(fs) && ValidTime(now) && ValidShots(shots)
    requires Stops(flags, clock, t0, duration)
    requires Iterations(flags, clock, t0, duration) <= |shots|
    ensures var r := Timelapse(fs, interval, duration, now, ctime, t0, clock, flags, shots);
      var folder := TimelapseFolderPath(now);
      var n := Iterations(flags, clock, t0, duration);
      && (r.outcome == Raised(NotADirectory(folder)) <==> IsFile(fs, TIMELAPSES))
      && (r.outcome == Raised(FileExists(folder)) <==> IsDir(fs, TIMELAPSES) && folder in fs)
      && (r.outcome == Raised(ValueError) <==>
            !IsFile(fs, TIMELAPSES) && folder !in fs && n > 0 && -SLEEP_MAX <= interval < 0)
      && (r.outcome == Raised(OverflowError) <==>
            !IsFile(fs, TIMELAPSES) && folder !in fs && n > 0 && (interval < -SLEEP_MAX || SLEEP_MAX < interval))
      && (r.outcome == Ok(()) || r.outcome.error in {NotADirectory(folder), FileExists(folder), ValueError, OverflowError})
      && ((r.outcome == Ok(()) || r.outcome == Raised(ValueError) || r.outcome == Raised(OverflowError)) ==>
            && folder !in fs && IsDir(r.fs, folder)
            && (forall q :: q in r.fs && IsPrefix(folder, q) ==> q == folder)
            && (forall q :: !IsPrefix(PHOTOS, q) ==> (q in r.fs <==> q in fs || q == folder || q == TIMELAPSES))
            && (forall q :: q in fs && !IsPrefix(PHOTOS, q) ==> r.fs[q] == fs[q]))
      && (!flags[0] && r.outcome == Ok(()) ==> forall q :: q in r.fs <==> q in fs || q == folder || q == TIMELAPSES)
  {
    var fs1 := MakeDirIfMissing(fs, TIMELAPSES, ctime);
    var folder := TimelapseFolderPath(now);
    var n := Iterations(flags, clock, t0, duration);
    assert folder[..1] == TIMELAPSES;
    assert TIMELAPSES != PHOTOS by { assert |TIMELAPSES[0]| != |PHOTOS[0]|; }
    assert !IsPrefix(PHOTOS, folder) && !IsPrefix(PHOTOS, TIMELAPSES);
    if IsDir(fs1, TIMELAPSES) && folder !in fs1 {
      var fs2 := fs1[folder := Dir(ctime)];
      var taken := if n > 0 && Sleep(interval).Raised? then shots[..1] else shots[..n];
      assert ValidShots(taken);
      CapturesFrame(fs2, taken);
      var r := Captures(fs2, taken);
      forall q | q in r && IsPrefix(folder, q) ensures q == folder {
        assert !IsPrefix(PHOTOS, q) by { assert q[0] == "timelapses"; }
        if q != folder {
          assert q in fs by { assert q != TIMELAPSES; }
          AncestorIsDir(fs, folder, q);
        }
      }
      if !flags[0] {
        assert n == 0 && taken == [];
        assert r == fs2;
        assert Timelapse(fs, interval, duration, now, ctime, t0, clock, flags, shots).fs == r;
      }
    }
  }

  lemma TimelapseValid(fs: FS, interval: int, duration: int, now: DateTime, ctime: int,
                       t0: real, clock: seq<real>, flags: seq<bool>, shots: seq<Shot>)
    requires Valid(fs) && ValidTime(now) && ValidShots(shots)
    requires Stops(flags, clock, t0, duration)
    requires Iterations(flags, clock, t0, duration) <= |shots|
    ensures Valid(Timelapse(fs, interval, duration, now, ctime, t0, clock, flags, shots).fs)
  {
    var fs1 := MakeDirIfMissing(fs, TIMELAPSES, ctime);
    assert PlainPath(TIMELAPSES) by { assert PlainSegment("timelapses"); }
    if TIMELAPSES !in fs { PutValid(fs, TIMELAPSES, Dir(ctime)); }
    var folder := TimelapseFolderPath(now);
    TimelapseFolderResolves(now);
    if IsDir(fs1, TIMELAPSES) && folder !in fs1 {
      assert Parent(folder) == TIMELAPSES;
      PutValid(fs1, folder, Dir(ctime));
      var fs2 := fs1[folder := Dir(ctime)];
      var n := Iterations(flags, clock, t0, duration);
      var taken := if n > 0 && Sleep(interval).Raised? then shots[..1] else shots[..n];
      assert ValidShots(taken);
      CapturesValid(fs2, taken);
    }
  }
}
