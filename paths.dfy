/** Paths under the media root (BASE_DIR) and the string operations the
    server applies to them: `str.split('/')`, the matching join, `str.replace`
    and `os.path.basename`. A path is the sequence of its segments below
    BASE_DIR; the empty path is BASE_DIR itself. */
module Paths {

  type Path = seq<string>

  datatype Option<T> = None | Some(value: T)

  /** The media root; the server runs with BASE_DIR = '.'. */
  const BASE_DIR: string := "."

  /** A segment the operating system takes literally: not empty, not `.` or
      `..`, and without a separator. */
  predicate PlainSegment(s: string) {
    s != "" && s != "." && s != ".." && '/' !in s
  }

  predicate PlainPath(p: Path) {
    forall i :: 0 <= i < |p| ==> PlainSegment(p[i])
  }

  predicate IsPrefix(a: Path, b: Path) {
    |a| <= |b| && b[..|a|] == a
  }

  function Parent(p: Path): (r: Path)
    requires p != []
    ensures |r| == |p| - 1 && IsPrefix(r, p)
  {
    p[..|p| - 1]
  }

  function Last(p: Path): string
    requires p != []
  {
    p[|p| - 1]
  }

  /** The sibling archive `<path>.zip`: the path string with ".zip"
      appended. For BASE_DIR itself this is `..zip`, since
      `os.path.dirname('./x')` is `.`. */
  function ZipOf(p: Path): (r: Path)
    ensures |r| == if p == [] then 1 else |p|
    ensures p != [] ==> Parent(r) == Parent(p) && Last(r) == Last(p) + ".zip"
    ensures p == [] ==> r == ["..zip"]
  {
    assert BASE_DIR + ".zip" == "..zip";
    if p == [] then [BASE_DIR + ".zip"] else Parent(p) + [Last(p) + ".zip"]
  }

  lemma ZipOfPlain(p: Path)
    requires PlainPath(p)
    ensures PlainPath(ZipOf(p))
  {
    if p != [] {
      var w := Last(p) + ".zip";
      assert |w| >= 5;
      forall i | 0 <= i < |w|
        ensures w[i] != '/'
      {
        if i < |Last(p)| {
          assert w[i] == Last(p)[i];
        } else {
          assert w[i] == ".zip"[i - |Last(p)|];
        }
      }
      assert ZipOf(p)[|p| - 1] == w;
    }
  }

  /** The paths strictly below `d + [x]` are those strictly below `d`,
      more than one level down, whose first step is `x`. */
  lemma BelowChild(d: Path, x: string, q: Path)
    ensures IsPrefix(d + [x], q) && q != d + [x] <==> |q| > |d| + 1 && IsPrefix(d, q) && q[|d|] == x
  {
    var c := d + [x];
    assert c[..|d|] == d && c[|d|] == x;
    if |q| > |d| + 1 && IsPrefix(d, q) && q[|d|] == x {
      assert q[..|d| + 1] == q[..|d|] + [q[|d|]];
    }
    if IsPrefix(c, q) {
      assert q[..|d|] == c[..|d|];
    }
  }

  /** A directory's archive is its sibling, never inside it. */
  lemma ZipOfNotBelow(p: Path)
    requires p != []
    ensures !IsPrefix(p, ZipOf(p))
  {
    var zip := ZipOf(p);
    assert |zip| == |p| && zip[..|p|] == zip;
    assert zip[|p| - 1] != p[|p| - 1] by { assert |zip[|p| - 1]| == |p[|p| - 1]| + 4; }
  }

  /** `s.split('/')`: the pieces between separators, always at least one. */
  function Split(s: string): (r: seq<string>)
    ensures |r| >= 1
    ensures forall i :: 0 <= i < |r| ==> '/' !in r[i]
  {
    if s == [] then [""]
    else
      var rest := Split(s[1..]);
      if s[0] == '/' then [""] + rest
      else [[s[0]] + rest[0]] + rest[1..]
  }

  /** `'/'.join(p)`, how a relative path is written as one string. */
  function Join(p: seq<string>): string
    requires |p| >= 1
  {
    if |p| == 1 then p[0] else p[0] + "/" + Join(p[1..])
  }

  lemma {:induction false} SplitPrepend(a: string, s: string)
    requires '/' !in a
    ensures Split(a + s) == [a + Split(s)[0]] + Split(s)[1..]
    decreases |a|
  {
    if a != [] {
      assert (a + s)[1..] == a[1..] + s;
      SplitPrepend(a[1..], s);
      assert [a[0]] + (a[1..] + Split(s)[0]) == a + Split(s)[0];
    } else {
      assert a + s == s;
      assert a + Split(s)[0] == Split(s)[0];
      assert Split(s) == [Split(s)[0]] + Split(s)[1..];
    }
  }

  /** Splitting a joined path gives the path back. */
  lemma {:induction false} SplitJoin(p: seq<string>)
    requires |p| >= 1
    requires forall i :: 0 <= i < |p| ==> '/' !in p[i]
    ensures Split(Join(p)) == p
    decreases |p|
  {
    if |p| == 1 {
      SplitPrepend(p[0], "");
      assert p[0] + "" == p[0];
    } else {
      var tail := Join(p[1..]);
      SplitJoin(p[1..]);
      assert Join(p) == p[0] + ("/" + tail);
      SplitPrepend(p[0], "/" + tail);
      assert ("/" + tail)[1..] == tail;
      assert Split("/" + tail) == [""] + p[1..];
      assert p[0] + "" == p[0];
    }
  }

  /** Joining the pieces of a split gives the string back. */
  lemma {:induction false} JoinSplit(s: string)
    ensures Join(Split(s)) == s
  {
    if s != [] {
      var rest := Split(s[1..]);
      JoinSplit(s[1..]);
      if s[0] == '/' {
        assert Split(s) == [""] + rest;
        assert ([""] + rest)[1..] == rest;
        assert s == "/" + s[1..];
      } else {
        var r := Split(s);
        assert r == [[s[0]] + rest[0]] + rest[1..];
        if |rest| == 1 {
          assert s == [s[0]] + s[1..];
        } else {
          assert r[1..] == rest[1..];
          assert Join(rest) == rest[0] + "/" + Join(rest[1..]);
          assert s == [s[0]] + s[1..];
        }
      }
    }
  }

  /** Appending to the joined string is appending to its last segment. */
  lemma {:induction false} JoinAppend(p: seq<string>, s: string)
    requires |p| >= 1
    ensures Join(p[..|p| - 1] + [p[|p| - 1] + s]) == Join(p) + s
    decreases |p|
  {
    var q := p[..|p| - 1] + [p[|p| - 1] + s];
    if |p| > 1 {
      var t := p[1..];
      assert q[0] == p[0];
      assert q[1..] == t[..|t| - 1] + [t[|t| - 1] + s];
      JoinAppend(t, s);
      assert Join(q) == p[0] + "/" + (Join(t) + s);
    }
  }

  /** The archive path as the server writes it, the path string with
      `.zip` appended (`file_to_delete + '.zip'`, the `/download` archive
      next to `full_filepath`, `os.path.dirname(file_to_delete) + '.zip'`),
      names BASE_DIR followed by `ZipOf(p)`; for BASE_DIR itself the string
      `'.' + '.zip'` is the entry `..zip`. `/download` writes its archive as
      `os.path.join(os.path.dirname(full_filepath), basename + '.zip')`;
      for a plain path that is the same string, and `os.path.dirname` and
      `os.path.join` are not modelled on their own. */
  lemma ZipOfWritten(p: Path)
    requires PlainPath(p)
    ensures p != [] ==> Split(Join([BASE_DIR] + p) + ".zip") == [BASE_DIR] + ZipOf(p)
    ensures p == [] ==> Split(Join([BASE_DIR]) + ".zip") == ZipOf(p)
  {
    ZipOfPlain(p);
    var z := ZipOf(p);
    if p != [] {
      var w := [BASE_DIR] + p;
      JoinAppend(w, ".zip");
      assert w[..|w| - 1] + [w[|w| - 1] + ".zip"] == [BASE_DIR] + z;
      assert forall i :: 0 <= i < |[BASE_DIR] + z| ==> '/' !in ([BASE_DIR] + z)[i] by {
        forall i | 0 <= i < |[BASE_DIR] + z|
          ensures '/' !in ([BASE_DIR] + z)[i]
        {
          if i > 0 { assert ([BASE_DIR] + z)[i] == z[i - 1]; }
        }
      }
      SplitJoin([BASE_DIR] + z);
    } else {
      assert Join([BASE_DIR]) + ".zip" == Join(z);
      assert '/' !in z[0] by { assert z[0] == "..zip"; }
      SplitJoin(z);
    }
  }

  lemma Join3(a: string, b: string, c: string)
    ensures Join([a, b, c]) == a + "/" + b + "/" + c
  {
    assert [a, b, c][1..] == [b, c];
    assert [b, c][1..] == [c];
    assert Join([c]) == c;
    assert Join([b, c]) == b + "/" + c;
  }

  /** Distinct relative paths are written as distinct strings. */
  lemma JoinInjective(p: seq<string>, q: seq<string>)
    requires |p| >= 1 && |q| >= 1
    requires forall i :: 0 <= i < |p| ==> '/' !in p[i]
    requires forall i :: 0 <= i < |q| ==> '/' !in q[i]
    requires Join(p) == Join(q)
    ensures p == q
  {
    SplitJoin(p);
    SplitJoin(q);
  }

  /** `os.path.basename(s)`: what follows the last separator. */
  function Basename(s: string): string {
    var parts := Split(s);
    parts[|parts| - 1]
  }

  /** True when `pat` occurs in `s` at index `i`. */
  predicate OccursAt(s: string, pat: string, i: nat) {
    i + |pat| <= |s| && s[i..i + |pat|] == pat
  }

  /** `s.replace(pat, rep)`: every occurrence of `pat`, scanning left to right
      without overlaps, replaced by `rep`. */
  function Replace(s: string, pat: string, rep: string): string
    requires pat != ""
  {
    if |s| < |pat| then s
    else if s[..|pat|] == pat then rep + Replace(s[|pat|..], pat, rep)
    else [s[0]] + Replace(s[1..], pat, rep)
  }

  /** When `pat` occurs in `a + pat` only at its end, replacing turns that
      final occurrence, and only it, into `rep`. */
  lemma {:induction false} ReplaceFinal(a: string, pat: string, rep: string)
    requires pat != ""
    requires forall i :: 0 <= i < |a| ==> !OccursAt(a + pat, pat, i)
    ensures Replace(a + pat, pat, rep) == a + rep
    decreases |a|
  {
    var s := a + pat;
    if a == [] {
      assert s == pat;
      assert s[|pat|..] == [];
      assert rep + "" == rep;
    } else {
      assert !OccursAt(s, pat, 0);
      assert s[..|pat|] != pat;
      forall i | 0 <= i < |a[1..]|
        ensures !OccursAt(a[1..] + pat, pat, i)
      {
        assert !OccursAt(s, pat, i + 1);
        assert (a[1..] + pat)[i..i + |pat|] == s[i + 1..i + 1 + |pat|];
      }
      assert s[1..] == a[1..] + pat;
      ReplaceFinal(a[1..], pat, rep);
      assert [a[0]] + (a[1..] + rep) == a + rep;
    }
  }

  /** A string whose characters avoid `pat`'s second character cannot hold an
      occurrence of `pat` that starts inside it (when what follows does not
      begin with that character either). */
  lemma NoOccurrenceBefore(a: string, pat: string)
    requires |pat| >= 2 && pat[1] !in a && pat[0] != pat[1]
    ensures forall i :: 0 <= i < |a| ==> !OccursAt(a + pat, pat, i)
  {
    forall i | 0 <= i < |a|
      ensures !OccursAt(a + pat, pat, i)
    {
      var s := a + pat;
      if i + |pat| <= |s| {
        if i + 1 < |a| {
          assert s[i + 1] == a[i + 1];
        } else {
          assert s[i + 1] == pat[0];
        }
        assert s[i + 1] != pat[1];
        assert s[i..i + |pat|][1] == s[i + 1];
      }
    }
  }
}
