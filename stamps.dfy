/** Capture timestamps and the file names the server derives from them with
    `datetime.now().strftime(...)` (format `%Y%m%d_%H%M%S`), and the two
    `str.replace` rewrites applied to video names. */
module Stamps {
  import opened Paths

  /** The fields of `datetime.now()` that the format uses. */
  datatype DateTime = DateTime(year: int, month: int, day: int, hour: int, minute: int, second: int)

  /** A wall-clock reading the clock can return (four-digit years only, see
      the README). */
  predicate ValidTime(t: DateTime) {
    && 1000 <= t.year <= 9999
    && 1 <= t.month <= 12
    && 1 <= t.day <= 31
    && 0 <= t.hour <= 23
    && 0 <= t.minute <= 59
    && 0 <= t.second <= 59
  }

  /** Chronological order of two readings. */
  predicate Before(a: DateTime, b: DateTime) {
    || a.year < b.year
    || (a.year == b.year && a.month < b.month)
    || (a.year == b.year && a.month == b.month && a.day < b.day)
    || (a.year == b.year && a.month == b.month && a.day == b.day && a.hour < b.hour)
    || (a.year == b.year && a.month == b.month && a.day == b.day && a.hour == b.hour
        && a.minute < b.minute)
    || (a.year == b.year && a.month == b.month && a.day == b.day && a.hour == b.hour
        && a.minute == b.minute && a.second < b.second)
  }

  function Pow10(w: nat): (r: nat)
    ensures r >= 1
  {
    if w == 0 then 1 else 10 * Pow10(w - 1)
  }

  predicate IsDigit(c: char) {
    '0' <= c <= '9'
  }

  function DigitChar(d: int): (c: char)
    requires 0 <= d < 10
    ensures IsDigit(c) && (c as int) - 48 == d
  {
    (48 + d) as char
  }

  /** `n` written with exactly `w` decimal digits, zero-padded, as the `%Y`,
      `%m`, `%d`, `%H`, `%M` and `%S` directives write their fields. */
  function Pad(n: nat, w: nat): (r: string)
    ensures |r| == w
    ensures forall i :: 0 <= i < |r| ==> IsDigit(r[i])
  {
    if w == 0 then "" else Pad(n / 10, w - 1) + [DigitChar(n % 10)]
  }

  /** The number a string of decimal digits denotes. */
  function Value(s: string): int
    requires forall i :: 0 <= i < |s| ==> IsDigit(s[i])
  {
    if s == [] then 0 else 10 * Value(s[..|s| - 1]) + ((s[|s| - 1] as int) - 48)
  }

  /** Reading back a padded number gives the number. */
  lemma {:induction false} ValuePad(n: nat, w: nat)
    requires n < Pow10(w)
    ensures Value(Pad(n, w)) == n
  {
    if w > 0 {
      ValuePad(n / 10, w - 1);
      var s := Pad(n, w);
      assert s[..|s| - 1] == Pad(n / 10, w - 1);
    }
  }

  /** `strftime('%Y%m%d_%H%M%S')`: 15 characters, digits except the `_`. */
  function Stamp(t: DateTime): (r: string)
    requires ValidTime(t)
    ensures |r| == 15 && r[8] == '_'
    ensures forall i :: 0 <= i < 15 && i != 8 ==> IsDigit(r[i])
  {
    Pad(t.year, 4) + (Pad(t.month, 2) + (Pad(t.day, 2) + ("_" + (Pad(t.hour, 2)
      + (Pad(t.minute, 2) + Pad(t.second, 2))))))
  }

  /** The characters a stamp is made of: digits and `_`. */
  predicate StampShaped(s: string) {
    forall i :: 0 <= i < |s| ==> s[i] == '_' || IsDigit(s[i])
  }

  predicate AllDigits(s: string) {
    forall i :: 0 <= i < |s| ==> IsDigit(s[i])
  }

  /** Reads a timestamp back from its 15-character form. */
  function ParseStamp(s: string): (r: Option<DateTime>)
    ensures r.Some? ==> |s| == 15
  {
    if |s| == 15 && s[8] == '_' && AllDigits(s[..8]) && AllDigits(s[9..]) then
      Some(DateTime(Value(s[0..4]), Value(s[4..6]), Value(s[6..8]),
                    Value(s[9..11]), Value(s[11..13]), Value(s[13..15])))
    else None
  }

  /** The stamp of a reading determines the reading: distinct seconds give
      distinct names. */
  lemma {:induction false} ParseStampRoundTrip(t: DateTime)
    requires ValidTime(t)
    ensures ParseStamp(Stamp(t)) == Some(t)
  {
    var s := Stamp(t);
    assert s[0..4] == Pad(t.year, 4);
    assert s[4..6] == Pad(t.month, 2);
    assert s[6..8] == Pad(t.day, 2);
    assert s[9..11] == Pad(t.hour, 2);
    assert s[11..13] == Pad(t.minute, 2);
    assert s[13..15] == Pad(t.second, 2);
    assert AllDigits(s[..8]) && AllDigits(s[9..]) by {
      forall i | 0 <= i < 8 ensures IsDigit(s[..8][i]) { assert s[..8][i] == s[i]; }
      forall i | 0 <= i < 6 ensures IsDigit(s[9..][i]) { assert s[9..][i] == s[9 + i]; }
    }
    ValuePad(t.year, 4);
    ValuePad(t.month, 2);
    ValuePad(t.day, 2);
    ValuePad(t.hour, 2);
    ValuePad(t.minute, 2);
    ValuePad(t.second, 2);
  }

  lemma StampInjective(a: DateTime, b: DateTime)
    requires ValidTime(a) && ValidTime(b)
    requires Stamp(a) == Stamp(b)
    ensures a == b
  {
    ParseStampRoundTrip(a);
    ParseStampRoundTrip(b);
  }

  /** Python's `<` on strings: lexicographic by code point. */
  predicate LexLess(a: string, b: string) {
    if a == [] then b != []
    else if b == [] then false
    else a[0] < b[0] || (a[0] == b[0] && LexLess(a[1..], b[1..]))
  }

  lemma {:induction false} LexLessConcat(x1: string, y1: string, x2: string, y2: string)
    requires |x1| == |x2|
    ensures LexLess(x1 + y1, x2 + y2) <==> LexLess(x1, x2) || (x1 == x2 && LexLess(y1, y2))
    decreases |x1|
  {
    if x1 == [] {
      assert x1 + y1 == y1 && x2 + y2 == y2;
    } else {
      assert (x1 + y1)[1..] == x1[1..] + y1;
      assert (x2 + y2)[1..] == x2[1..] + y2;
      LexLessConcat(x1[1..], y1, x2[1..], y2);
      assert x1 == x2 <==> x1[0] == x2[0] && x1[1..] == x2[1..] by {
        if x1[0] == x2[0] && x1[1..] == x2[1..] {
          assert x1 == [x1[0]] + x1[1..] && x2 == [x2[0]] + x2[1..];
        }
      }
    }
  }

  lemma {:induction false} LexLessLastChar(x: string, c: char, y: string, e: char)
    requires |x| == |y|
    ensures LexLess(x + [c], y + [e]) <==> LexLess(x, y) || (x == y && c < e)
  {
    LexLessConcat(x, [c], y, [e]);
  }

  /** Fixed-width numbers compare as strings the way they compare as numbers. */
  lemma {:induction false} PadOrder(n: nat, m: nat, w: nat)
    requires n < Pow10(w) && m < Pow10(w)
    ensures LexLess(Pad(n, w), Pad(m, w)) <==> n < m
  {
    if w == 0 {
    } else {
      PadOrder(n / 10, m / 10, w - 1);
      LexLessLastChar(Pad(n / 10, w - 1), DigitChar(n % 10), Pad(m / 10, w - 1), DigitChar(m % 10));
      ValuePad(n / 10, w - 1);
      ValuePad(m / 10, w - 1);
      assert Pad(n / 10, w - 1) == Pad(m / 10, w - 1) <==> n / 10 == m / 10;
      assert DigitChar(n % 10) < DigitChar(m % 10) <==> n % 10 < m % 10;
    }
  }

  /** A fixed-width field followed by the rest of a name: names compare by
      the field first, then by the rest. */
  lemma PadThen(n: nat, m: nat, w: nat, r1: string, r2: string)
    requires n < Pow10(w) && m < Pow10(w)
    ensures LexLess(Pad(n, w) + r1, Pad(m, w) + r2) <==> n < m || (n == m && LexLess(r1, r2))
    ensures Pad(n, w) + r1 == Pad(m, w) + r2 <==> n == m && r1 == r2
  {
    PadOrder(n, m, w);
    LexLessConcat(Pad(n, w), r1, Pad(m, w), r2);
    ValuePad(n, w);
    ValuePad(m, w);
    if Pad(n, w) + r1 == Pad(m, w) + r2 {
      assert (Pad(n, w) + r1)[..w] == Pad(n, w) && (Pad(m, w) + r2)[..w] == Pad(m, w);
      assert (Pad(n, w) + r1)[w..] == r1 && (Pad(m, w) + r2)[w..] == r2;
    }
  }

  /** The `_%H%M%S` half of two stamps orders as the times of day do. */
  lemma ClockOrder(a: DateTime, b: DateTime)
    requires ValidTime(a) && ValidTime(b)
    ensures var u1 := "_" + (Pad(a.hour, 2) + (Pad(a.minute, 2) + Pad(a.second, 2)));
      var u2 := "_" + (Pad(b.hour, 2) + (Pad(b.minute, 2) + Pad(b.second, 2)));
      && (LexLess(u1, u2) <==>
            (|| a.hour < b.hour
             || (a.hour == b.hour && a.minute < b.minute)
             || (a.hour == b.hour && a.minute == b.minute && a.second < b.second)))
      && (u1 == u2 <==> a.hour == b.hour && a.minute == b.minute && a.second == b.second)
  {
    var s1, s2 := Pad(a.second, 2), Pad(b.second, 2);
    PadOrder(a.second, b.second, 2);
    ValuePad(a.second, 2);
    ValuePad(b.second, 2);
    var mi1, mi2 := Pad(a.minute, 2) + s1, Pad(b.minute, 2) + s2;
    PadThen(a.minute, b.minute, 2, s1, s2);
    var h1, h2 := Pad(a.hour, 2) + mi1, Pad(b.hour, 2) + mi2;
    PadThen(a.hour, b.hour, 2, mi1, mi2);
    var u1, u2 := "_" + h1, "_" + h2;
    LexLessConcat("_", h1, "_", h2);
    assert u1 == u2 <==> h1 == h2 by {
      if u1 == u2 { assert u1[1..] == h1 && u2[1..] == h2; }
    }
  }

  /** Names derived from timestamps sort in capture order: a later second
      gives a greater name, and only a later second does. */
  lemma StampOrder(a: DateTime, b: DateTime)
    requires ValidTime(a) && ValidTime(b)
    ensures LexLess(Stamp(a), Stamp(b)) <==> Before(a, b)
  {
    ClockOrder(a, b);
    var u1 := "_" + (Pad(a.hour, 2) + (Pad(a.minute, 2) + Pad(a.second, 2)));
    var u2 := "_" + (Pad(b.hour, 2) + (Pad(b.minute, 2) + Pad(b.second, 2)));
    var d1, d2 := Pad(a.day, 2) + u1, Pad(b.day, 2) + u2;
    PadThen(a.day, b.day, 2, u1, u2);
    var m1, m2 := Pad(a.month, 2) + d1, Pad(b.month, 2) + d2;
    PadThen(a.month, b.month, 2, d1, d2);
    PadThen(a.year, b.year, 4, m1, m2);
    assert Stamp(a) == Pad(a.year, 4) + m1 && Stamp(b) == Pad(b.year, 4) + m2;
  }

  // ---- File names built from a timestamp ----

  /** `photo_%Y%m%d_%H%M%S.jpg`, the name `capture_photo` gives a still. */
  function PhotoName(t: DateTime): string
    requires ValidTime(t)
  {
    "photo_" + Stamp(t) + ".jpg"
  }

  /** The string `capture_photo` passes to `libcamera-still -o`. */
  function PhotoFilename(t: DateTime): string
    requires ValidTime(t)
  {
    BASE_DIR + "/photos/" + PhotoName(t)
  }

  /** Where the still lands below BASE_DIR. */
  function PhotoPath(t: DateTime): Path
    requires ValidTime(t)
  {
    ["photos", PhotoName(t)]
  }

  /** The raw recording `./videos/video_%Y%m%d_%H%M%S.h264`. */
  function VideoRawFilename(t: DateTime): string
    requires ValidTime(t)
  {
    BASE_DIR + "/videos/video_" + Stamp(t) + ".h264"
  }

  /** `filename_h264.replace('.h264', '.mp4')`. */
  function VideoMp4Filename(t: DateTime): string
    requires ValidTime(t)
  {
    Replace(VideoRawFilename(t), ".h264", ".mp4")
  }

  /** `os.path.basename(filename_mp4).replace('.mp4', '.jpg')`, the name of the
      video's thumbnail. */
  function VideoThumbName(t: DateTime): string
    requires ValidTime(t)
  {
    Replace(Basename(VideoMp4Filename(t)), ".mp4", ".jpg")
  }

  /** `timelapse_%Y%m%d_%H%M%S`, the folder `capture_timelapse` creates. */
  function TimelapseFolderName(t: DateTime): string
    requires ValidTime(t)
  {
    "timelapse_" + Stamp(t)
  }

  /** The string `capture_timelapse` passes to `os.mkdir`. */
  function TimelapseFolderFilename(t: DateTime): string
    requires ValidTime(t)
  {
    BASE_DIR + "/timelapses/" + TimelapseFolderName(t)
  }

  function TimelapseFolderPath(t: DateTime): Path
    requires ValidTime(t)
  {
    ["timelapses", TimelapseFolderName(t)]
  }

  /** The raw recording and the converted video below BASE_DIR. */
  function VideoRawPath(t: DateTime): Path
    requires ValidTime(t)
  {
    ["videos", "video_" + Stamp(t) + ".h264"]
  }

  function VideoMp4Path(t: DateTime): Path
    requires ValidTime(t)
  {
    ["videos", "video_" + Stamp(t) + ".mp4"]
  }

  /** A name made of a fixed part without separators, a stamp and an
      extension without separators has no separator. */
  lemma NoSlashAround(a: string, t: DateTime, b: string)
    requires ValidTime(t) && '/' !in a && '/' !in b
    ensures '/' !in a + Stamp(t) + b
  {
    NoSlashInStamp(t);
    NoSlashConcat(a, Stamp(t), b);
  }

  lemma NoSlashConcat(a: string, s: string, b: string)
    requires '/' !in a && '/' !in s && '/' !in b
    ensures '/' !in a + s + b
  {
  }

  lemma StampIsShaped(t: DateTime)
    requires ValidTime(t)
    ensures StampShaped(Stamp(t)) && '/' !in Stamp(t)
  {
    NoSlashInStamp(t);
  }

  /** A letter that a stamp cannot hold does not occur after a prefix
      without it. */
  lemma LetterNotIn(pre: string, s: string, c: char)
    requires StampShaped(s) && c !in pre && c != '_' && !IsDigit(c)
    ensures c !in pre + s
  {
    var a := pre + s;
    forall i | 0 <= i < |a| ensures a[i] != c {
      if i < |pre| { assert a[i] == pre[i]; } else { assert a[i] == s[i - |pre|]; }
    }
  }

  /** The timelapse folder string resolves to the folder path under
      BASE_DIR. */
  lemma TimelapseFolderResolves(t: DateTime)
    requires ValidTime(t)
    ensures Split(TimelapseFolderFilename(t)) == [BASE_DIR] + TimelapseFolderPath(t)
    ensures PlainPath(TimelapseFolderPath(t))
  {
    var name := TimelapseFolderName(t);
    NoSlashAround("timelapse_", t, "");
    assert name == "timelapse_" + Stamp(t) + "";
    Join3(BASE_DIR, "timelapses", name);
    assert TimelapseFolderFilename(t) == Join([BASE_DIR, "timelapses", name]);
    SplitJoin([BASE_DIR, "timelapses", name]);
  }

  /** The raw and converted video strings resolve to the video paths under
      BASE_DIR, which differ only in their extension. */
  lemma VideoFilenamesResolve(t: DateTime)
    requires ValidTime(t)
    ensures Split(VideoRawFilename(t)) == [BASE_DIR] + VideoRawPath(t)
    ensures Split(VideoMp4Filename(t)) == [BASE_DIR] + VideoMp4Path(t)
    ensures PlainPath(VideoRawPath(t)) && PlainPath(VideoMp4Path(t))
    ensures VideoRawPath(t) != VideoMp4Path(t)
  {
    StampIsShaped(t);
    VideoMp4FilenameIs(t);
    VideoNameResolves(Stamp(t), ".h264");
    VideoNameResolves(Stamp(t), ".mp4");
    assert |"video_" + Stamp(t) + ".h264"| != |"video_" + Stamp(t) + ".mp4"|;
  }

  /** The video file string is the three segments joined with `/`. */
  lemma VideoFilenameJoined(s: string, ext: string)
    ensures BASE_DIR + "/videos/video_" + s + ext == Join([BASE_DIR, "videos", "video_" + s + ext])
  {
    var name := "video_" + s + ext;
    assert BASE_DIR + "/videos/video_" + s + ext == BASE_DIR + "/" + "videos" + "/" + name;
    Join3(BASE_DIR, "videos", name);
  }

  /** `./videos/video_<s><ext>` splits into BASE_DIR, the folder and the
      name when neither `s` nor `ext` holds a separator. */
  lemma VideoNameResolves(s: string, ext: string)
    requires '/' !in s && '/' !in ext
    ensures Split(BASE_DIR + "/videos/video_" + s + ext) == [BASE_DIR, "videos", "video_" + s + ext]
    ensures PlainPath(["videos", "video_" + s + ext])
  {
    var name := "video_" + s + ext;
    NoSlashConcat("video_", s, ext);
    VideoFilenameJoined(s, ext);
    SplitJoin([BASE_DIR, "videos", name]);
    assert |name| >= 6;
  }

  lemma NoSlashInStamp(t: DateTime)
    requires ValidTime(t)
    ensures '/' !in Stamp(t)
  {
    var s := Stamp(t);
    forall i | 0 <= i < |s| ensures s[i] != '/' {
      if i != 8 { assert IsDigit(s[i]); }
    }
  }

  /** The photo file string resolves to the photo path under BASE_DIR. */
  lemma PhotoFilenameResolves(t: DateTime)
    requires ValidTime(t)
    ensures Split(PhotoFilename(t)) == [BASE_DIR] + PhotoPath(t)
    ensures PlainPath(PhotoPath(t))
  {
    var name := PhotoName(t);
    NoSlashInStamp(t);
    var st := Stamp(t);
    assert '/' !in name by {
      forall i | 0 <= i < |name| ensures name[i] != '/' {
        if i < 6 { assert name[i] == "photo_"[i]; }
        else if i < 21 { assert name[i] == st[i - 6]; }
        else { assert name[i] == ".jpg"[i - 21]; }
      }
    }
    Join3(BASE_DIR, "photos", name);
    assert PhotoFilename(t) == Join([BASE_DIR, "photos", name]);
    SplitJoin([BASE_DIR, "photos", name]);
  }

  /** The `.h264` -> `.mp4` rewrite changes only the extension. */
  lemma VideoMp4FilenameIs(t: DateTime)
    requires ValidTime(t)
    ensures VideoMp4Filename(t) == BASE_DIR + "/videos/video_" + Stamp(t) + ".mp4"
  {
    StampIsShaped(t);
    ReplaceExtension(BASE_DIR + "/videos/video_", Stamp(t), ".h264", ".mp4");
  }

  /** Replacing an extension whose second letter occurs nowhere before it
      rewrites only the extension. */
  lemma ReplaceExtension(pre: string, s: string, ext: string, rep: string)
    requires StampShaped(s) && |ext| >= 2 && ext[0] == '.' && ext[1] !in "._" && !IsDigit(ext[1])
    requires ext[1] !in pre
    ensures Replace(pre + s + ext, ext, rep) == pre + s + rep
  {
    LetterNotIn(pre, s, ext[1]);
    NoOccurrenceBefore(pre + s, ext);
    ReplaceFinal(pre + s, ext, rep);
  }

  /** The thumbnail of a video is its base name with `.jpg` for `.mp4`. */
  lemma VideoThumbNameIs(t: DateTime)
    requires ValidTime(t)
    ensures VideoThumbName(t) == "video_" + Stamp(t) + ".jpg"
    ensures Basename(VideoMp4Filename(t)) == "video_" + Stamp(t) + ".mp4"
  {
    StampIsShaped(t);
    VideoMp4FilenameIs(t);
    var base := "video_" + Stamp(t) + ".mp4";
    VideoNameResolves(Stamp(t), ".mp4");
    ReplaceExtension("video_", Stamp(t), ".mp4", ".jpg");
  }
}
