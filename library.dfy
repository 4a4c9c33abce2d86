/** What the `/delete` and `/delete_all/<directory>` handlers do to the media
    library (server.py:315-358), as functions of the snapshot they start
    from. Each step is the `os`/`shutil` call the handler makes; an
    exception stops the handler where it is raised and keeps what was
    already removed. */
module Library {
  import opened Paths
  import opened FileTree
  import opened Stamps

  /** `DIRECTORIES`, the three category folders. */
  const DIRECTORIES: seq<string> := ["photos", "videos", "timelapses"]

  /** `thumbnail_base_dir`, mirrored per category by `THUMBNAIL_DIRECTORIES`. */
  const THUMBNAILS: string := "thumbnails"

  /** The top-level folders made at start-up (server.py:115-122): the
      categories, then `thumbnails`. */
  const STARTUP: seq<string> := DIRECTORIES + [THUMBNAILS]

  /** One of the four folders made at start-up. */
  predicate StartupDir(q: Path) {
    |q| == 1 && q[0] in STARTUP
  }

  /** `if not os.path.exists(d): os.mkdir(d)` for each top-level name in
      turn. */
  function MakeTopDirs(fs: FS, names: seq<string>, ctime: int): FS
    decreases |names|
  {
    if names == [] then fs
    else
      var prev := MakeTopDirs(fs, names[..|names| - 1], ctime);
      var dir := [names[|names| - 1]];
      if dir in prev then prev else prev[dir := Dir(ctime)]
  }

  /** What start-up leaves: `MakeTopDirs` over the start-up names. */
  lemma StartupSpec(fs: FS, ctime: int)
    requires Valid(fs)
    ensures var r := MakeTopDirs(fs, STARTUP, ctime);
      && Valid(r)
      && (forall q :: q in r <==> q in fs || StartupDir(q))
      && (forall q :: q in fs ==> r[q] == fs[q])
      && (forall q :: q in r && q !in fs ==> r[q] == Dir(ctime))
  {
    assert STARTUP == ["photos", "videos", "timelapses", "thumbnails"];
    forall i | 0 <= i < |STARTUP| ensures PlainSegment(STARTUP[i]) {
      assert |STARTUP[i]| > 2;
    }
    MakeTopDirsSpec(fs, STARTUP, ctime);
  }

  lemma MakeTopDirsStep(fs: FS, names: seq<string>, x: string, ctime: int)
    ensures var prev := MakeTopDirs(fs, names, ctime);
      MakeTopDirs(fs, names + [x], ctime) == if [x] in prev then prev else prev[[x] := Dir(ctime)]
  {
    assert (names + [x])[..|names|] == names;
  }

  /** Start-up makes each missing folder, keeps everything that exists
      (even a regular file of the same name), and keeps the library a
      tree. */
  lemma {:induction false} MakeTopDirsSpec(fs: FS, names: seq<string>, ctime: int)
    requires Valid(fs) && forall i :: 0 <= i < |names| ==> PlainSegment(names[i])
    ensures var r := MakeTopDirs(fs, names, ctime);
      && Valid(r)
      && (forall q :: q in r <==> q in fs || (|q| == 1 && q[0] in names))
      && (forall q :: q in fs ==> r[q] == fs[q])
      && (forall q :: q in r && q !in fs ==> r[q] == Dir(ctime))
    decreases |names|
  {
    if names != [] {
      var init := names[..|names| - 1];
      var x := names[|names| - 1];
      MakeTopDirsSpec(fs, init, ctime);
      var prev := MakeTopDirs(fs, init, ctime);
      var dir := [x];
      assert names == init + [x];
      if dir !in prev {
        assert Parent(dir) == [];
        PutValid(prev, dir, Dir(ctime));
      }
      forall q ensures (|q| == 1 && q[0] in names) <==> (|q| == 1 && (q[0] in init || q == dir)) {
        if |q| == 1 && q[0] == x { assert q == dir; }
      }
    }
  }

  /** `if os.path.exists(q): os.remove(q)`; `os.remove` refuses a directory. */
  function RemoveIfExists(fs: FS, q: Path): (r: Effect)
    ensures r.outcome.Raised? <==> IsDir(fs, q)
    ensures r.fs == if IsFile(fs, q) then fs - {q} else fs
  {
    if q !in fs then Effect(Ok(()), fs)
    else if fs[q].Dir? then Effect(Raised(IsADirectory(q)), fs)
    else Effect(Ok(()), fs - {q})
  }

  /** `os.path.join(BASE_DIR, 'thumbnails', filepath.split('/')[0],
      os.path.basename(file_to_delete))`: the thumbnail a file delete looks
      for, named after the file itself (same extension). */
  function ThumbnailOf(p: Path): Path
    requires p != []
  {
    [THUMBNAILS, p[0], Last(p)]
  }

  /** Deleting the asset at `p` (server.py:320-338). */
  function DeletePath(fs: FS, p: Path): Effect
    requires p != []
  {
    if p !in fs then Effect(Ok(()), fs)
    else if fs[p].Dir? then
      // shutil.rmtree, then the archive named after the directory
      RemoveIfExists(RemoveTree(fs, p), ZipOf(p))
    else
      // os.remove, then the thumbnail, then the archive of the file's folder
      var thumb := RemoveIfExists(fs - {p}, ThumbnailOf(p));
      if thumb.outcome.Raised? then thumb
      else RemoveIfExists(thumb.fs, ZipOf(Parent(p)))
  }

  /** The `filepath` form field names a plain relative path (or is absent or
      empty). */
  predicate Resolvable(filepath: Option<string>) {
    filepath.Some? && filepath.value != "" ==> PlainPath(Split(filepath.value))
  }

  /** The `/delete` handler (server.py:316-339): nothing happens unless the
      form carries a non-empty `filepath`. */
  function Delete(fs: FS, filepath: Option<string>): Effect
    requires Resolvable(filepath)
  {
    if filepath.None? || filepath.value == "" then Effect(Ok(()), fs)
    else DeletePath(fs, Split(filepath.value))
  }

  /** An absent or empty field, or a path that does not exist, leaves the
      library as it was. */
  lemma DeleteNothing(fs: FS, filepath: Option<string>)
    requires Resolvable(filepath)
    requires filepath.None? || filepath.value == "" || Split(filepath.value) !in fs
    ensures Delete(fs, filepath) == Effect(Ok(()), fs)
  {
  }

  /** The field is the path written with `/`: it names the path it spells. */
  lemma DeleteByName(fs: FS, p: Path)
    requires p != [] && PlainPath(p)
    ensures Resolvable(Some(Join(p)))
    ensures Delete(fs, Some(Join(p))) == DeletePath(fs, p)
  {
    forall i | 0 <= i < |p| ensures '/' !in p[i] { assert PlainSegment(p[i]); }
    SplitJoin(p);
    assert Join(p) != "" by {
      if |p| > 1 { assert |Join(p)| >= |p[0] + "/"|; } else { assert Join(p) == p[0]; }
    }
  }

  /** Deleting a regular file removes the file, the thumbnail of the same
      name under `thumbnails/<first segment>/` if it exists, and the archive
      `<folder>.zip` of the file's folder if it exists, and nothing else. It
      fails, after the file is gone, only when one of the two is a directory. */
  lemma DeleteFile(fs: FS, p: Path)
    requires Valid(fs) && IsFile(fs, p)
    ensures p != []
    ensures var r := DeletePath(fs, p);
      var thumb := ThumbnailOf(p);
      var zip := ZipOf(Parent(p));
      && (r.outcome == Ok(()) <==> !IsDir(fs, thumb) && !IsDir(fs, zip))
      && (r.outcome == Ok(()) ==> r.fs == fs - {p, thumb, zip})
      && (IsDir(fs, thumb) ==> r == Effect(Raised(IsADirectory(thumb)), fs - {p}))
      && (!IsDir(fs, thumb) && IsDir(fs, zip) ==> r == Effect(Raised(IsADirectory(zip)), fs - {p, thumb}))
  {
    var thumb := ThumbnailOf(p);
    var zip := ZipOf(Parent(p));
    var r := DeletePath(fs, p);
    var fs1 := fs - {p};
    assert IsDir(fs1, thumb) == IsDir(fs, thumb);
    var step := RemoveIfExists(fs1, thumb);
    if IsDir(fs, thumb) {
      assert r == step;
    } else {
      assert step.fs == fs - {p, thumb};
      assert IsDir(step.fs, zip) == IsDir(fs, zip);
      var last := RemoveIfExists(step.fs, zip);
      assert r == last;
      if !IsDir(fs, zip) {
        assert last.fs == fs - {p, thumb, zip};
      }
    }
  }

  /** Deleting a directory removes its whole subtree and the archive
      `<dir>.zip` next to it, and nothing else: no thumbnail outside the
      subtree is touched. */
  lemma DeleteDirectory(fs: FS, p: Path)
    requires Valid(fs) && IsDir(fs, p) && p != []
    ensures var r := DeletePath(fs, p);
      && (r.outcome == Ok(()) <==> !IsDir(fs, ZipOf(p)))
      && (forall q :: q in r.fs <==> q in fs && !IsPrefix(p, q) && (q != ZipOf(p) || IsDir(fs, q)))
      && (forall q :: q in r.fs ==> r.fs[q] == fs[q])
  {
    ZipOfNotBelow(p);
  }

  /** Every handler outcome of a delete leaves the library a tree. */
  lemma DeletePathValid(fs: FS, p: Path)
    requires Valid(fs) && p != []
    ensures Valid(DeletePath(fs, p).fs)
  {
    if p in fs {
      if fs[p].Dir? {
        RemoveTreeValid(fs, p);
        var fs1 := RemoveTree(fs, p);
        if IsFile(fs1, ZipOf(p)) { RemoveFileValid(fs1, ZipOf(p)); }
      } else {
        RemoveFileValid(fs, p);
        var fs1 := fs - {p};
        if IsFile(fs1, ThumbnailOf(p)) { RemoveFileValid(fs1, ThumbnailOf(p)); }
        var thumb := RemoveIfExists(fs1, ThumbnailOf(p));
        if IsFile(thumb.fs, ZipOf(Parent(p))) { RemoveFileValid(thumb.fs, ZipOf(Parent(p))); }
      }
    }
  }

  /** A recorded video's thumbnail is `video_<stamp>.jpg` (server.py:236),
      but deleting `videos/video_<stamp>.mp4` looks for
      `thumbnails/videos/video_<stamp>.mp4`: the `.jpg` thumbnail survives. */
  lemma DeleteVideoKeepsThumbnail(fs: FS, t: DateTime)
    requires Valid(fs) && ValidTime(t)
    requires IsFile(fs, ["videos", Basename(VideoMp4Filename(t))])
    ensures var kept := [THUMBNAILS, "videos", VideoThumbName(t)];
      kept in fs ==> kept in DeletePath(fs, ["videos", Basename(VideoMp4Filename(t))]).fs
  {
    VideoThumbNameIs(t);
    DeleteMp4KeepsJpg(fs, "video_" + Stamp(t));
  }

  lemma DeleteMp4KeepsJpg(fs: FS, stem: string)
    requires IsFile(fs, ["videos", stem + ".mp4"])
    ensures var kept := [THUMBNAILS, "videos", stem + ".jpg"];
      kept in fs ==> kept in DeletePath(fs, ["videos", stem + ".mp4"]).fs
  {
    ExtensionsDiffer(stem);
    var p := ["videos", stem + ".mp4"];
    var kept := [THUMBNAILS, "videos", stem + ".jpg"];
    assert ThumbnailOf(p) != kept;
    assert ZipOf(Parent(p)) != kept;
    assert p != kept;
    if kept in fs {
      DeleteFileKeepsOthers(fs, p, kept);
    }
  }

  lemma ExtensionsDiffer(stem: string)
    ensures stem + ".jpg" != stem + ".mp4"
  {
    var jpg := stem + ".jpg";
    var mp4 := stem + ".mp4";
    assert jpg[|jpg| - 1] == 'g' && mp4[|mp4| - 1] == '4';
  }

  /** A file delete removes nothing but the file, its thumbnail and its
      folder's archive. */
  lemma DeleteFileKeepsOthers(fs: FS, p: Path, q: Path)
    requires p != [] && IsFile(fs, p) && q in fs
    requires q != p && q != ThumbnailOf(p) && q != ZipOf(Parent(p))
    ensures q in DeletePath(fs, p).fs
  {
  }

  /** The `/delete_all/<directory>` handler (server.py:342-358). */
  function DeleteAll(fs: FS, category: string): Effect
    requires PlainSegment(category)
  {
    var dir := [category];
    if dir !in fs then Effect(Ok(()), fs)
    else if fs[dir].File? then Effect(Raised(NotADirectory(dir)), fs)
    else
      var zipped := RemoveIfExists(RemoveTree(fs, dir), ZipOf(dir));
      if zipped.outcome.Raised? then zipped
      // THUMBNAIL_DIRECTORIES[directory] is looked up only now
      else if category !in DIRECTORIES then Effect(Raised(KeyError(category)), zipped.fs)
      else
        var thumbs := [THUMBNAILS, category];
        if thumbs !in zipped.fs then zipped
        else if zipped.fs[thumbs].File? then Effect(Raised(NotADirectory(thumbs)), zipped.fs)
        else Effect(Ok(()), RemoveTree(zipped.fs, thumbs))
  }

  /** A category folder that does not exist leaves everything in place,
      including a stale `<category>.zip`. */
  lemma DeleteAllAbsent(fs: FS, category: string)
    requires PlainSegment(category) && [category] !in fs
    ensures DeleteAll(fs, category) == Effect(Ok(()), fs)
  {
  }

  /** For one of the three categories, deleting everything removes the
      category folder, `<category>.zip` and `thumbnails/<category>` with
      what is below them, and nothing else. */
  lemma DeleteAllCategory(fs: FS, category: string)
    requires Valid(fs) && category in DIRECTORIES && IsDir(fs, [category])
    requires !IsDir(fs, ZipOf([category])) && !IsFile(fs, [THUMBNAILS, category])
    ensures var r := DeleteAll(fs, category);
      && r.outcome == Ok(())
      && (forall q :: q in r.fs <==> (q in fs && !IsPrefix([category], q)
            && q != [category + ".zip"] && !IsPrefix([THUMBNAILS, category], q)))
      && (forall q :: q in r.fs ==> r.fs[q] == fs[q])
  {
    var dir := [category];
    var thumbs := [THUMBNAILS, category];
    var zip := ZipOf(dir);
    assert zip == [category + ".zip"];
    assert !IsPrefix(dir, zip) by { assert |category + ".zip"| != |category|; }
    assert !IsPrefix(thumbs, zip);
    assert category != THUMBNAILS;
    var fs1 := RemoveTree(fs, dir);
    RemoveTreeValid(fs, dir);
    var zipped := RemoveIfExists(fs1, zip);
    if IsFile(fs1, zip) { RemoveFileValid(fs1, zip); }
    assert Valid(zipped.fs);
    assert zipped.fs == fs1 - {zip};
    forall q | IsPrefix(thumbs, q) ensures !IsPrefix(dir, q) {
      assert q[0] == THUMBNAILS;
    }
    if thumbs !in zipped.fs {
      forall q | q in zipped.fs ensures !IsPrefix(thumbs, q) {
        if IsPrefix(thumbs, q) && q != thumbs { AncestorIsDir(zipped.fs, thumbs, q); }
      }
    }
  }

  /** A folder that is not one of the three categories is still removed,
      with its archive, before the `THUMBNAIL_DIRECTORIES` lookup raises. */
  lemma DeleteAllUnknown(fs: FS, category: string)
    requires Valid(fs) && PlainSegment(category) && category !in DIRECTORIES && IsDir(fs, [category])
    requires !IsDir(fs, ZipOf([category]))
    ensures DeleteAll(fs, category) ==
      Effect(Raised(KeyError(category)), RemoveTree(fs, [category]) - {[category + ".zip"]})
  {
    assert ZipOf([category]) == [category + ".zip"];
  }

  lemma DeleteAllValid(fs: FS, category: string)
    requires Valid(fs) && PlainSegment(category)
    ensures Valid(DeleteAll(fs, category).fs)
  {
    var dir := [category];
    if IsDir(fs, dir) {
      RemoveTreeValid(fs, dir);
      var fs1 := RemoveTree(fs, dir);
      if IsFile(fs1, ZipOf(dir)) { RemoveFileValid(fs1, ZipOf(dir)); }
      var z := RemoveIfExists(fs1, ZipOf(dir));
      RemoveTreeValid(z.fs, [THUMBNAILS, category]);
    }
  }
}
