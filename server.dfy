/** The Flask application's state and request handlers (server.py:112-358):
    the media library below BASE_DIR and the global `is_capture_timelapse`.
    Each handler changes the library step by step, as the source does, and
    is proved to end in the state the functions of `Library`, `Capture` and
    `Archive` describe. */
module WebServer {
  import opened Paths
  import opened FileTree
  import opened Stamps
  import opened Archive
  import opened Listing
  import Library
  import Capture

  class Server {
    /** The media library below BASE_DIR. */
    var fs: FS
    /** `is_capture_timelapse`. */
    var timelapseOn: bool

    /** Module start-up (server.py:112-122): make each category folder and
        `thumbnails/` unless something of that name exists. */
    constructor (disk: FS, ctime: int)
      requires Valid(disk)
      ensures Valid(fs) && !timelapseOn
      ensures forall q :: q in fs <==> q in disk || Library.StartupDir(q)
      ensures forall q :: q in disk ==> fs[q] == disk[q]
      ensures forall q :: q in fs && q !in disk ==> fs[q] == Dir(ctime)
    {
      var dirs := Library.DIRECTORIES;
      var cur := disk;
      for i := 0 to |dirs|
        invariant cur == Library.MakeTopDirs(disk, dirs[..i], ctime)
      {
        Library.MakeTopDirsStep(disk, dirs[..i], dirs[i], ctime);
        assert dirs[..i + 1] == dirs[..i] + [dirs[i]];
        var dir := [dirs[i]];
        if dir !in cur {
          cur := cur[dir := Dir(ctime)];
        }
      }
      var thumbs := [Library.THUMBNAILS];
      Library.MakeTopDirsStep(disk, dirs, Library.THUMBNAILS, ctime);
      assert dirs[..|dirs|] == dirs;
      if thumbs !in cur {
        cur := cur[thumbs := Dir(ctime)];
      }
      assert cur == Library.MakeTopDirs(disk, Library.STARTUP, ctime);
      Library.StartupSpec(disk, ctime);
      fs := cur;
      timelapseOn := false;
    }

    /** The `/` handler (server.py:125-135): for each category, the
        entries of its folder newest first, or an empty list when the folder
        is missing. `os.listdir` raises on a category that is a regular
        file. */
    method Index(ld: Listings) returns (r: Outcome<map<string, seq<string>>>)
      requires Valid(fs)
      requires forall c :: c in Library.DIRECTORIES ==> ListingsAgree(fs, ld, [c])
      ensures r.Ok? <==> forall c :: c in Library.DIRECTORIES ==> !IsFile(fs, [c])
      ensures r.Raised? ==> exists c :: c in Library.DIRECTORIES && r == Raised(NotADirectory([c]))
      ensures r.Ok? ==> r.value.Keys == set c | c in Library.DIRECTORIES
      ensures r.Ok? ==> forall c :: c in Library.DIRECTORIES ==>
        && (forall x :: x in r.value[c] <==> [c] + [x] in fs)
        && (IsDir(fs, [c]) ==> multiset(r.value[c]) == multiset(Names(ld, [c])))
        && NewestFirstOrder(fs, [c], r.value[c])
      ensures r.Ok? ==> forall c :: c in Library.DIRECTORIES ==> CategoryListing(fs, ld, c) == Ok(r.value[c])
    {
      var all: map<string, seq<string>> := map[];
      for i := 0 to |Library.DIRECTORIES|
        invariant all.Keys == set c | c in Library.DIRECTORIES[..i]
        invariant forall c :: c in Library.DIRECTORIES[..i] ==> !IsFile(fs, [c])
        invariant forall c :: c in all ==> CategoryListing(fs, ld, c) == Ok(all[c])
      {
        var c := Library.DIRECTORIES[i];
        var listing := CategoryListing(fs, ld, c);
        if listing.Raised? {
          CategoryListingSpec(fs, ld, c);
          return Raised(listing.error);
        }
        all := all[c := listing.value];
        assert Library.DIRECTORIES[..i + 1] == Library.DIRECTORIES[..i] + [c];
      }
      assert Library.DIRECTORIES[..|Library.DIRECTORIES|] == Library.DIRECTORIES;
      forall c | c in Library.DIRECTORIES
        ensures (forall x :: x in all[c] <==> [c] + [x] in fs)
        ensures IsDir(fs, [c]) ==> multiset(all[c]) == multiset(Names(ld, [c]))
        ensures NewestFirstOrder(fs, [c], all[c])
      {
        CategoryListingSpec(fs, ld, c);
      }
      r := Ok(all);
    }

    /** `capture_photo` (server.py:186-199). */
    method CapturePhoto(shot: Capture.Shot)
      requires Valid(fs) && ValidTime(shot.at)
      modifies this`fs
      ensures Valid(fs)
      ensures fs == Capture.CapturePhoto(old(fs), shot)
    {
      Capture.CapturePhotoValid(fs, shot);
      if Capture.PHOTOS !in fs {
        fs := fs[Capture.PHOTOS := Dir(shot.ctime)];
      }
      var target := PhotoPath(shot.at);
      if shot.written && IsDir(fs, Capture.PHOTOS) && !IsDir(fs, target) {
        fs := fs[target := File(shot.ctime)];
      }
    }

    /** `record_video` (server.py:210-237). */
    method RecordVideo(t: DateTime, ctime: int, recorded: bool, converted: bool, framed: bool)
      returns (r: Outcome<()>)
      requires Valid(fs) && ValidTime(t)
      modifies this`fs
      ensures Valid(fs)
      ensures Effect(r, fs) == Capture.RecordVideo(old(fs), t, ctime, recorded, converted, framed)
    {
      Capture.RecordVideoValid(fs, t, ctime, recorded, converted, framed);
      var h264 := VideoRawPath(t);
      var mp4 := VideoMp4Path(t);
      var thumb := Capture.VideoThumbPath(t);
      if Capture.VIDEOS !in fs {
        fs := fs[Capture.VIDEOS := Dir(ctime)];
      }
      if recorded && IsDir(fs, Capture.VIDEOS) && !IsDir(fs, h264) {
        fs := fs[h264 := File(ctime)];
      }
      if converted && IsFile(fs, h264) && !IsDir(fs, mp4) {
        fs := fs[mp4 := File(ctime)];
      }
      var removed := Capture.Remove(fs, h264);
      if removed.outcome.Raised? {
        return removed.outcome;
      }
      fs := fs - {h264};
      if Capture.VIDEO_THUMBNAILS !in fs {
        if !IsDir(fs, [Library.THUMBNAILS]) {
          return Raised(if [Library.THUMBNAILS] in fs then NotADirectory(Capture.VIDEO_THUMBNAILS)
                        else FileNotFound(Capture.VIDEO_THUMBNAILS));
        }
        fs := fs[Capture.VIDEO_THUMBNAILS := Dir(ctime)];
      }
      if framed && IsFile(fs, mp4) && IsDir(fs, Capture.VIDEO_THUMBNAILS) && !IsDir(fs, thumb) {
        fs := fs[thumb := File(ctime)];
      }
      var reopened := Capture.Rewrite(fs, thumb, ctime);
      fs := reopened.fs;
      r := reopened.outcome;
    }

    /** The `/start_timelapse` handler (server.py:242-249): set the flag,
        then run the timelapse in this request. The handler never clears the
        flag: it is left as the loop last read it, or set when the timelapse
        raised before the loop. */
    method StartTimelapse(interval: int, duration: int, now: DateTime, ctime: int,
                          t0: real, clock: seq<real>, flags: seq<bool>, shots: seq<Capture.Shot>)
      returns (r: Outcome<()>)
      requires Valid(fs) && ValidTime(now) && Capture.ValidShots(shots)
      requires Capture.Stops(flags, clock, t0, duration)
      requires Capture.Iterations(flags, clock, t0, duration) <= |shots|
      modifies this
      ensures Valid(fs)
      ensures Effect(r, fs) == Capture.Timelapse(old(fs), interval, duration, now, ctime, t0, clock, flags, shots)
      ensures var n := Capture.Iterations(flags, clock, t0, duration);
        if r == Ok(()) then timelapseOn == flags[n] && (timelapseOn ==> clock[n] - t0 >= duration as real)
        else timelapseOn
    {
      timelapseOn := true;
      r := CaptureTimelapse(interval, duration, now, ctime, t0, clock, flags, shots);
    }

    /** The `/stop_timelapse` handler (server.py:252-255). */
    method StopTimelapse()
      modifies this`timelapseOn
      ensures !timelapseOn
    {
      timelapseOn := false;
    }

    /** `capture_timelapse` (server.py:257-273). `flags[k]` and `clock[k]`
        are what `is_capture_timelapse` and `time.time()` read at the
        `k`-th test of the loop condition; other requests may clear the
        flag in between, and `timelapseOn` takes each value as it is
        read. */
    method CaptureTimelapse(interval: int, duration: int, now: DateTime, ctime: int,
                            t0: real, clock: seq<real>, flags: seq<bool>, shots: seq<Capture.Shot>)
      returns (r: Outcome<()>)
      requires Valid(fs) && ValidTime(now) && Capture.ValidShots(shots)
      requires Capture.Stops(flags, clock, t0, duration)
      requires Capture.Iterations(flags, clock, t0, duration) <= |shots|
      modifies this
      ensures Valid(fs)
      ensures Effect(r, fs) == Capture.Timelapse(old(fs), interval, duration, now, ctime, t0, clock, flags, shots)
      ensures var n := Capture.Iterations(flags, clock, t0, duration);
        if r == Ok(()) then timelapseOn == flags[n]
        else if r == Raised(ValueError) || r == Raised(OverflowError) then timelapseOn == flags[0]
        else timelapseOn == old(timelapseOn)
    {
      assert PlainPath(Capture.TIMELAPSES) by { assert PlainSegment("timelapses"); }
      if Capture.TIMELAPSES !in fs {
        assert Parent(Capture.TIMELAPSES) == [];
        PutValid(fs, Capture.TIMELAPSES, Dir(ctime));
        fs := fs[Capture.TIMELAPSES := Dir(ctime)];
      }
      assert fs == Capture.MakeDirIfMissing(old(fs), Capture.TIMELAPSES, ctime);
      var folder := TimelapseFolderPath(now);
      if fs[Capture.TIMELAPSES].File? {
        return Raised(NotADirectory(folder));
      }
      if folder in fs {
        return Raised(FileExists(folder));
      }
      TimelapseFolderResolves(now);
      assert Parent(folder) == Capture.TIMELAPSES;
      PutValid(fs, folder, Dir(ctime));
      fs := fs[folder := Dir(ctime)];
      r := TimelapseLoop(interval, duration, t0, clock, flags, shots);
    }

    /** The `while` loop of `capture_timelapse` (server.py:270-273): one
        photo per passing test of the condition, until a test fails; an
        interval `time.sleep` rejects makes the first sleep raise. Each test
        reads the shared flag first, as `flags[k]`. */
    method TimelapseLoop(interval: int, duration: int, t0: real, clock: seq<real>, flags: seq<bool>,
                         shots: seq<Capture.Shot>)
      returns (r: Outcome<()>)
      requires Valid(fs) && Capture.ValidShots(shots)
      requires Capture.Stops(flags, clock, t0, duration)
      requires Capture.Iterations(flags, clock, t0, duration) <= |shots|
      modifies this
      ensures Valid(fs)
      ensures var n := Capture.Iterations(flags, clock, t0, duration);
        if n > 0 && Capture.Sleep(interval).Raised? then
          r == Capture.Sleep(interval) && fs == Capture.Captures(old(fs), shots[..1]) && timelapseOn == flags[0]
        else r == Ok(()) && fs == Capture.Captures(old(fs), shots[..n]) && timelapseOn == flags[n]
    {
      ghost var n := Capture.Iterations(flags, clock, t0, duration);
      var k := 0;
      timelapseOn := flags[k];
      while timelapseOn && clock[k] - t0 < duration as real
        invariant 0 <= k <= n
        invariant timelapseOn == flags[k]
        invariant Valid(fs)
        invariant fs == Capture.Captures(old(fs), shots[..k])
        invariant Capture.Sleep(interval).Raised? ==> k == 0
        decreases n - k
      {
        assert Capture.Continues(flags, clock, t0, duration, k);
        assert shots[..k + 1][..k] == shots[..k];
        CapturePhoto(shots[k]);
        assert fs == Capture.Captures(old(fs), shots[..k + 1]);
        if interval < -Capture.SLEEP_MAX || Capture.SLEEP_MAX < interval {
          return Raised(OverflowError);
        }
        if interval < 0 {
          return Raised(ValueError);
        }
        k := k + 1;
        timelapseOn := flags[k];
      }
      assert !Capture.Continues(flags, clock, t0, duration, k);
      r := Ok(());
    }

    /** The `/download/<path:filepath>` handler (server.py:278-295). A
        directory is first archived to `<parent>/<name>.zip` (the archive
        file is made before the walk, as `ZipFile(..., 'w')` does), and the
        archive is served; anything else is served as it is. */
    method Download(filepath: string, ld: Listings, ctime: int) returns (r: Outcome<Path>, entries: seq<Entry>)
      requires Valid(fs) && PlainPath(Split(filepath))
      requires ListingsAgree(fs, ld, Split(filepath))
      modifies this`fs
      ensures Valid(fs)
      ensures var p := Split(filepath);
        && (IsDir(old(fs), p) && !IsDir(old(fs), ZipOf(p)) ==>
              && r == Ok(ZipOf(p)) && entries == Entries(old(fs), ld, p)
              && fs == old(fs)[ZipOf(p) := File(ctime)])
        && (IsDir(old(fs), p) && IsDir(old(fs), ZipOf(p)) ==>
              r == Raised(IsADirectory(ZipOf(p))) && entries == [] && fs == old(fs))
        && (!IsDir(old(fs), p) ==>
              && fs == old(fs) && entries == []
              && r == if IsFile(old(fs), p) then Ok(p) else Raised(FileNotFound(p)))
    {
      var p := Split(filepath);
      entries := [];
      if !IsDir(fs, p) {
        r := if IsFile(fs, p) then Ok(p) else Raised(FileNotFound(p));
        return;
      }
      var zip := ZipOf(p);
      if IsDir(fs, zip) {
        return Raised(IsADirectory(zip)), [];
      }
      r, entries := WriteArchive(p, zip, ld, ctime);
    }

    /** The `/download_all/<directory>` handler (server.py:299-313): the
        category is archived to `<category>.zip` next to it; a missing
        category gives an empty archive. */
    method DownloadAll(category: string, ld: Listings, ctime: int) returns (r: Outcome<Path>, entries: seq<Entry>)
      requires Valid(fs) && PlainSegment(category)
      requires ListingsAgree(fs, ld, [category])
      modifies this`fs
      ensures Valid(fs)
      ensures var zip := [category + ".zip"];
        && (IsDir(old(fs), zip) ==> r == Raised(IsADirectory(zip)) && entries == [] && fs == old(fs))
        && (!IsDir(old(fs), zip) ==>
              && r == Ok(zip) && entries == Entries(old(fs), ld, [category])
              && fs == old(fs)[zip := File(ctime)])
    {
      var dir := [category];
      var zip := ZipOf(dir);
      assert zip == [category + ".zip"] && Parent(dir) == [];
      if IsDir(fs, zip) {
        return Raised(IsADirectory(zip)), [];
      }
      r, entries := WriteArchive(dir, zip, ld, ctime);
    }

    /** `with ZipFile(zip, 'w')`, then one `zipf.write` per file `os.walk`
        reports below `root`, named by its path relative to `root`
        (server.py:285-291, 305-311). */
    method WriteArchive(root: Path, zip: Path, ld: Listings, ctime: int) returns (r: Outcome<Path>, entries: seq<Entry>)
      requires Valid(fs) && PlainPath(root) && root != [] && zip == ZipOf(root)
      requires ListingsAgree(fs, ld, root) && !IsDir(fs, zip) && IsDir(fs, Parent(root))
      modifies this`fs
      ensures Valid(fs)
      ensures r == Ok(zip) && entries == Entries(old(fs), ld, root)
      ensures fs == old(fs)[zip := File(ctime)]
    {
      ZipOfPlain(root);
      PutValid(fs, zip, File(ctime));
      ghost var before := fs;
      fs := fs[zip := File(ctime)];
      ZipOfNotBelow(root);
      WalkFrame(before, fs, ld, root);
      WalkSpec(before, ld, root);
      var files := Walk(fs, ld, root);
      entries := ZipEntries(root, files);
      r := Ok(zip);
    }

    /** The `/delete` handler (server.py:316-339). */
    method Delete(filepath: Option<string>) returns (r: Outcome<()>)
      requires Valid(fs) && Library.Resolvable(filepath)
      modifies this`fs
      ensures Valid(fs)
      ensures Effect(r, fs) == Library.Delete(old(fs), filepath)
    {
      r := Ok(());
      if filepath.None? || filepath.value == "" {
        return;
      }
      var p := Split(filepath.value);
      Library.DeletePathValid(fs, p);
      if p !in fs {
        return;
      }
      if fs[p].Dir? {
        fs := RemoveTree(fs, p);
        var zip := ZipOf(p);
        if zip in fs {
          if fs[zip].Dir? {
            return Raised(IsADirectory(zip));
          }
          fs := fs - {zip};
        }
      } else {
        fs := fs - {p};
        var thumbnail := Library.ThumbnailOf(p);
        if thumbnail in fs {
          if fs[thumbnail].Dir? {
            return Raised(IsADirectory(thumbnail));
          }
          fs := fs - {thumbnail};
        }
        var zip := ZipOf(Parent(p));
        if zip in fs {
          if fs[zip].Dir? {
            return Raised(IsADirectory(zip));
          }
          fs := fs - {zip};
        }
      }
    }

    /** The `/delete_all/<directory>` handler (server.py:342-358). */
    method DeleteAll(category: string) returns (r: Outcome<()>)
      requires Valid(fs) && PlainSegment(category)
      modifies this`fs
      ensures Valid(fs)
      ensures Effect(r, fs) == Library.DeleteAll(old(fs), category)
    {
      Library.DeleteAllValid(fs, category);
      r := Ok(());
      var dir := [category];
      if dir !in fs {
        return;
      }
      if fs[dir].File? {
        return Raised(NotADirectory(dir));
      }
      fs := RemoveTree(fs, dir);
      var zip := ZipOf(dir);
      if zip in fs {
        if fs[zip].Dir? {
          return Raised(IsADirectory(zip));
        }
        fs := fs - {zip};
      }
      if category !in Library.DIRECTORIES {
        return Raised(KeyError(category));
      }
      var thumbs := [Library.THUMBNAILS, category];
      if thumbs in fs {
        if fs[thumbs].File? {
          return Raised(NotADirectory(thumbs));
        }
        fs := RemoveTree(fs, thumbs);
      }
    }
  }

  /** The members a `ZipFile` receives for the files of a walk, in order. */
  method ZipEntries(root: Path, files: seq<Path>) returns (entries: seq<Entry>)
    requires forall i :: 0 <= i < |files| ==> IsPrefix(root, files[i]) && files[i] != root
    ensures entries == EntriesFor(root, files)
  {
    entries := [];
    for i := 0 to |files|
      invariant |entries| == i
      invariant forall j :: 0 <= j < i ==> entries[j] == Entry(RelName(root, files[j]), files[j])
    {
      entries := entries + [Entry(RelName(root, files[i]), files[i])];
    }
  }
}
