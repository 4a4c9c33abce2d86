# ActionPi media library, modelled in Dafny

ActionPi is a Raspberry Pi camera served by a Flask application
(`server.py`). The application keeps a media library below `BASE_DIR`:

- `photos/`, `videos/` and `timelapses/`, the three categories;
- `thumbnails/`, mirroring them;
- `.zip` archives next to whatever was downloaded.

This project models the library's bookkeeping:

- the folders made at start-up;
- the index listing and its newest-first sort;
- the names derived from the clock;
- photo and video capture;
- the timelapse loop and its shared stop flag;
- the archives that `/download` and `/download_all` write;
- `/delete` and `/delete_all`;
- the MJPEG framing of `/stream`.

The library is a snapshot `FS = map<Path, Node>` from paths below
`BASE_DIR` to files and directories, each with its `ctime`.
`FileTree.Valid` says it is a tree. Python exceptions are `PyError`
values. A handler ends in an `Effect`: its outcome and the snapshot it
leaves, including whatever it did before an exception.

The modules:

| module | contents |
|---|---|
| `Paths` | path strings: split, join, basename, `str.replace`, the sibling `.zip` path |
| `Stamps` | `strftime('%Y%m%d_%H%M%S')` and the photo, video and timelapse names |
| `FileTree` | the snapshot, `shutil.rmtree` and the tree invariant |
| `Archive` | `os.walk` and the zip members |
| `Library` | start-up, `/delete` and `/delete_all` as functions |
| `Listing` | the index sort |
| `Capture` | photo, video and timelapse as functions |
| `Mjpeg` | the stream |
| `WebServer` | the application state and its handlers |

The application state is the class `WebServer.Server`. It has two fields:

- `fs`, the library;
- `timelapseOn`, the global `is_capture_timelapse`.

Its handlers change the state step by step, as the source does. Each one is
proved to end in the state that the matching function describes. The
properties of those functions are proved as lemmas.

`os.listdir` order is an input (`Listings`). It must list every entry of
a directory exactly once (`Archive.ListingsAgree`). The values the clock,
the camera and the stop flag take are also inputs.

The model keeps these behaviours of the code:

- the timelapse `duration` is compared with elapsed seconds;
- timelapse photos are written to `photos/`, not into the timelapse folder;
- the loop does not clear the flag when it ends;
- a request to capture while the camera is busy is not rejected;
- errors from `os.remove`, `os.mkdir` and `shutil.rmtree` propagate out of the handler.

## Model

| member | source | states |
|---|---|---|
| WebServer.Server.constructor | server.py:112-122 | start-up makes each of `photos`, `videos`, `timelapses`, `thumbnails` that is missing, as a new directory; keeps every existing entry unchanged (even a regular file of that name); adds nothing else; the flag starts cleared; the library stays a tree |
| Library.StartupSpec | server.py:115-122 | the start-up fold adds exactly the missing top-level folders, keeps all existing entries, and keeps the tree valid |
| Library.MakeTopDirsSpec | server.py:115-117 | for any list of plain names: membership is "existed before or is one of the names", old entries unchanged, new ones directories |
| WebServer.Server.Index | server.py:125-135 | succeeds iff no category path is a regular file (else raises `NotADirectory` for one); keys are exactly the three categories; each list holds exactly the folder's entries (empty when the folder is missing), is a permutation of `os.listdir`'s list, and is in non-increasing ctime order, in `os.listdir` order among equal ctimes: each list is `Listing.CategoryListing` of its category, the stable sort |
| Listing.CategoryListingSpec | server.py:128-135 | one category: raises iff the path is a file; missing folder gives `[]`; otherwise membership matches the folder's entries, the multiset equals the listing, and the order is newest first |
| Listing.NewestFirstSpec | server.py:132 | the sort is a permutation of its input and in non-increasing ctime order |
| Listing.NewestFirstStable | server.py:132 | entries with equal ctime keep their listing order (Python's sort is stable) |
| Listing.InsertOrder | server.py:132 | inserting into a newest-first list keeps it newest first |
| Listing.InsertStable | server.py:132 | insertion keeps the relative order of equal-ctime entries |
| Listing.Insert | server.py:132 | insertion adds exactly one occurrence of the new name (multiset) |
| Stamps.StampOrder | server.py:194 | stamps compare lexicographically exactly as the readings compare chronologically (both directions) |
| Stamps.ParseStampRoundTrip | server.py:194 | a stamp reads back to the reading it was made from |
| Stamps.StampInjective | server.py:194 | distinct readings give distinct stamps, hence distinct file names |
| Stamps.PhotoFilenameResolves | server.py:194 | `./photos/photo_<stamp>.jpg` splits into BASE_DIR, `photos` and a plain name: the photo lands at `PhotoPath` |
| Stamps.VideoFilenamesResolve | server.py:216-217 | the `.h264` and `.mp4` strings resolve to `videos/video_<stamp>.h264` and `.mp4`, two distinct plain paths |
| Stamps.VideoMp4FilenameIs | server.py:217 | `replace('.h264', '.mp4')` rewrites only the extension |
| Stamps.VideoThumbNameIs | server.py:236 | the thumbnail name is `video_<stamp>.jpg`; the basename of the `.mp4` string is `video_<stamp>.mp4` |
| Stamps.TimelapseFolderResolves | server.py:260-266 | the folder string resolves to `timelapses/timelapse_<stamp>`, a plain path |
| Paths.ReplaceFinal | server.py:217 | `str.replace` of a pattern that occurs only at the end rewrites just that occurrence |
| Paths.SplitJoin | server.py:291 | splitting a `/`-joined path gives the path back |
| Paths.JoinSplit | server.py:291 | joining the pieces of a split gives the string back |
| Paths.JoinInjective | server.py:291 | distinct paths are written as distinct strings |
| Paths.ZipOfWritten | server.py:282-283 | the string the server builds for an archive, the path string with `.zip` appended, splits into BASE_DIR followed by `ZipOf(p)`; for BASE_DIR itself it is the entry `..zip`. For a plain path, the `os.path.join(os.path.dirname(...), basename + '.zip')` built here is that same string (`dirname` and `join` are not modelled on their own) |
| Paths.ZipOfNotBelow | server.py:282-291 | a directory's archive is never inside the directory |
| WebServer.Server.CapturePhoto | server.py:186-199 | ends in `Capture.CapturePhoto(old fs, shot)` and keeps the library a tree |
| Capture.CapturePhotoFrame | server.py:190-197 | afterwards `photos/` exists, and is a new directory when it was missing; a photo capture adds at most `photos/` and `photos/photo_<stamp>.jpg`, changes no other entry, and does add the photo when the tool wrote it and nothing blocks it |
| Capture.CapturePhotoValid | server.py:190-197 | a photo capture keeps the library a tree |
| Capture.CapturesFrame | server.py:271-273 | any number of captures touches nothing outside `photos/` |
| Capture.CapturesValid | server.py:271-273 | any number of captures keeps the library a tree |
| WebServer.Server.RecordVideo | server.py:210-237 | ends in `Capture.RecordVideo(old fs, ...)` and keeps the library a tree |
| Capture.RecordVideoSpec | server.py:210-237 | with all three tools succeeding: `.mp4` and `.jpg` thumbnail exist, `.h264` is gone, `videos/` and `thumbnails/videos/` exist, nothing else changes; with no recording and no earlier `.h264`, `os.remove` raises `FileNotFound` after `videos/` was made |
| Capture.RecordSteps | server.py:212-225 | recording and conversion leave the `.h264` and `.mp4` in `videos/` and change nothing else |
| Capture.ThumbnailSteps | server.py:231-237 | the thumbnail step makes `thumbnails/videos/` if missing and the `.jpg`, and nothing else |
| Capture.RecordVideoValid | server.py:210-237 | recording keeps the library a tree, whatever the tools do |
| Capture.RecordThenDeleteKeepsThumbnail | server.py:329-333 | after a successful recording, deleting the `.mp4` leaves its `.jpg` thumbnail behind |
| Library.DeleteVideoKeepsThumbnail | server.py:331-333 | deleting `videos/video_<stamp>.mp4` does not remove `thumbnails/videos/video_<stamp>.jpg` |
| WebServer.Server.StartTimelapse | server.py:242-249 | sets the flag, runs the timelapse, ends in `Capture.Timelapse(old fs, ...)`, and never clears the flag itself: after a loop that ends `Ok` the flag is what the last test read, and is still set only when `duration` seconds have passed; after an exception before the loop it stays set |
| WebServer.Server.StopTimelapse | server.py:252-255 | clears the flag |
| WebServer.Server.CaptureTimelapse | server.py:257-273 | ends in `Capture.Timelapse(old fs, ...)`, including the `OverflowError` or `ValueError` of the first `time.sleep`, and keeps the library a tree; the flag is what the loop last read, or unchanged when it raised before the loop |
| WebServer.Server.TimelapseLoop | server.py:270-273 | the loop runs `Iterations` times, one capture each, ending `Ok` when `0 <= interval <= 9223372036`; otherwise the first `time.sleep`, after exactly one capture, raises `OverflowError` when the interval's nanoseconds do not fit in 64 bits and `ValueError` when it is negative; the flag ends as the last test of the condition read it |
| Capture.Iterations | server.py:271 | the number of passes is the first evaluation at which the flag is cleared or `duration` seconds have elapsed; every earlier evaluation let the loop continue |
| Capture.IterationBound | server.py:270-273 | with a positive interval the loop stops within `duration / interval + 1` passes however long the flag stays set; the last of `n` passes starts at least `(n - 1) * interval` after `t0`, so `(n - 1) * interval < duration` |
| Capture.TimelapseSpec | server.py:257-273 | raises `NotADirectory` iff `timelapses` is a file, `FileExists` iff the folder exists, `ValueError` iff it captured with an interval in `[-9223372036, 0)`, `OverflowError` iff it captured with an interval outside `[-9223372036, 9223372036]`; otherwise makes exactly one new folder, which stays empty, touches nothing outside `photos/` besides it and `timelapses/`, and makes no photo when the flag was already cleared |
| Capture.TimelapseValid | server.py:257-273 | a timelapse keeps the library a tree |
| WebServer.Server.Download | server.py:278-295 | a directory is archived to its sibling `.zip` (raising `IsADirectory` if that is a directory) with one member per file below it, and the archive path is served; a file is served as it is; a missing path gives `FileNotFound`; only the archive file changes the library |
| WebServer.Server.DownloadAll | server.py:299-313 | the category is archived to `<category>.zip` under BASE_DIR with one member per file below it, empty when the category is missing |
| WebServer.Server.WriteArchive | server.py:285-291 | writing the archive adds only the `.zip` file and produces the members of the walk taken before it |
| WebServer.ZipEntries | server.py:287-291 | the loop produces one member per walked file, in order, named by its path relative to the root |
| Archive.WalkSpec | server.py:286-287 | `os.walk` reports each regular file below the root exactly once and nothing else |
| Archive.SubWalksSpec | server.py:286-287 | the walks of the listed subdirectories report exactly the files two or more levels below whose first step is listed, without repeats |
| Archive.FilesOfSpec | server.py:286-287 | the `filenames` of one directory are exactly its regular files, without repeats |
| Archive.ArchiveSources | server.py:286-291 | a file is a member's source iff it is a regular file below the root; a missing root gives an empty archive |
| Archive.ArchiveUnique | server.py:291 | no file is archived twice and no two members share a name |
| Archive.ArchiveNames | server.py:291 | each member's name, split on `/` and appended to the root, is its source path |
| Archive.WalkFrame | server.py:285-286 | the walk depends only on what lies at and below the root, so writing the sibling archive does not change it |
| Archive.EntriesFor | server.py:289-291 | member `i` is file `i` of the walk, named by its path relative to the root |
| WebServer.Server.Delete | server.py:316-339 | ends in `Library.Delete(old fs, filepath)` and keeps the library a tree |
| Library.DeleteNothing | server.py:317-320 | an absent or empty `filepath`, or one naming nothing, changes nothing and succeeds |
| Library.DeleteByName | server.py:318-319 | a plain path written with `/` deletes exactly that path |
| Library.DeleteFile | server.py:329-338 | deleting a file removes the file, `thumbnails/<first segment>/<basename>` and `<dirname>.zip` when they exist, and nothing else; it raises `IsADirectory` iff one of the two is a directory, keeping what was removed before |
| Library.DeleteFileKeepsOthers | server.py:329-338 | a file delete keeps every entry other than the file, its thumbnail and its folder's archive |
| Library.DeleteDirectory | server.py:321-327 | deleting a directory removes its subtree and `<dir>.zip` when that is a file, and nothing else (no thumbnail); it fails iff `<dir>.zip` is a directory |
| Library.DeletePathValid | server.py:320-338 | every delete outcome leaves the library a tree |
| WebServer.Server.DeleteAll | server.py:342-358 | ends in `Library.DeleteAll(old fs, category)` and keeps the library a tree |
| Library.DeleteAllAbsent | server.py:345 | a missing category folder changes nothing, even with a stale `<category>.zip` |
| Library.DeleteAllCategory | server.py:345-356 | for one of the three categories, removes the folder's subtree, `<category>.zip` and `thumbnails/<category>` with its subtree, and nothing else |
| Library.DeleteAllUnknown | server.py:346-354 | any other existing folder is removed with its archive before the `THUMBNAIL_DIRECTORIES` lookup raises `KeyError` |
| Library.DeleteAllValid | server.py:342-358 | `delete_all` leaves the library a tree |
| FileTree.RemoveTreeValid | server.py:346 | removing a subtree keeps the library a tree |
| Mjpeg.GenFrames | server.py:42-55 | no parts without a camera; otherwise one part per frame, in order, each unframing to its frame |
| Mjpeg.UnframePart | server.py:53-54 | stripping the fixed preamble and the trailing CRLF from a part gives the frame back |
| Mjpeg.UnframeOnlyParts | server.py:53-54 | only a well-formed part unframes: a chunk that unframes to `f` is exactly the part for `f` |
| Mjpeg.StreamIsMultipart | server.py:40-54 | the stream body is the `dash-boundary`, body parts and `encapsulation`s of section 5.1.1 of RFC 2046 for the declared boundary `frame`, followed by the CRLF of the next delimiter |
| Mjpeg.EncapsulationsShift | server.py:53-54 | a run of parts is, shifted by one CRLF, the run of RFC 2046 encapsulations |

## Left out

- Flask routing, `redirect`, `url_for`, `render_template` and `send_from_directory` are left out. A handler's result is the path it would serve. A download of something that is neither file nor directory is modelled as `FileNotFound`.
- `cpu_temperature`, `disk_usage` (floating-point rounding) and `shutdown` are left out.
- `libcamera-still`, `libcamera-vid` and `ffmpeg` run as shell commands whose exit status is ignored. Each is modelled by a flag that says whether it left its output file, and nothing else about it.
- The model does not capture `ffmpeg` prompting before overwriting an existing `.mp4` or `.jpg`.
- The model does not capture file contents: the archive is its member list, and a photo is an entry with a ctime.
- PIL's `Image.thumbnail` resizing is not modelled. The reopen-and-save is modelled as a rewrite that needs the file to exist.
- `create_thumbnail` is never called in `server.py` and is not modelled. Photos get no thumbnail.
- The LEDs, the camera, `time.sleep` pacing and the request threads are left out. The stop flag is modelled as the sequence of values the loop condition reads. The clock is modelled as the readings `time.time()` returns, with `time.sleep(interval)` lasting at least `interval` (`Capture.Paced`).
- `datetime.now()` is an input `DateTime` with a four-digit year. `strftime` pads wider years differently, and that is not modelled.
- `ctime` is an integer supplied by the caller.
- A directory's ctime is not updated when entries are added to it or removed from it. So the index order of sub-folders after such a change is not captured, for example after a `/delete` inside a folder or a `/download` that writes a `.zip` into it.
- Form fields and URL paths must split on `/` into plain segments: no empty, `.` or `..` segment, and no leading `/`. Operating-system path normalisation is not modelled (`Library.Resolvable` and the `PlainPath` requires of `Download` and `DownloadAll`).
- Library.DeleteAll, WebServer.Server.DeleteAll, Library.DeleteAllAbsent: `<directory>` must be a plain segment. The `.` and `..` that Flask's converter lets through make `shutil.rmtree` empty the media root or its parent, and that is not modelled.
- Capture.Timelapse, WebServer.Server.CaptureTimelapse, WebServer.Server.StartTimelapse and WebServer.Server.TimelapseLoop: these require that the loop does stop within the observations given, and that enough camera shots are given for its passes. A loop that never stops, because the flag stays set and the clock never reaches `duration`, is outside the model.
- The `filename` at server.py:267 is built and never used, so the model gives it no counterpart. Timelapse photos go to `photos/`, as `capture_photo` writes them.
- The unused `boundary = "--frameboundary"` at server.py:52 and the dead `____gen_frames` have no counterpart.
- `tools/testFastapiCamera.py` is not part of this model. Its part formatter writes the delimiter `----frameboundary` for a declared boundary `frameboundary`, which does not follow section 5.1.1 of RFC 2046.
