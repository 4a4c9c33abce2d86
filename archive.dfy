/** `os.walk` over a snapshot and the zip entries `download` and
    `download_all` write from it (server.py:281-311). */
module Archive {
  import opened Paths
  import opened FileTree

  /** What `os.listdir` (and the `os.scandir` inside `os.walk`) returns for
      each directory, in the order the operating system returns it. */
  type Listings = map<Path, seq<string>>

  predicate NoDup<T(==)>(s: seq<T>) {
    forall i, j :: 0 <= i < j < |s| ==> s[i] != s[j]
  }

  /** `names` lists the entries of directory `d`, each exactly once. */
  predicate IsChildList(fs: FS, d: Path, names: seq<string>) {
    && (forall i :: 0 <= i < |names| ==> d + [names[i]] in fs)
    && (forall q :: q in fs && |q| == |d| + 1 && IsPrefix(d, q) ==> q[|d|] in names)
    && NoDup(names)
  }

  /** The listings are those of the snapshot for every directory at or
      below `root`. */
  predicate ListingsAgree(fs: FS, ld: Listings, root: Path) {
    forall d :: d in fs && fs[d].Dir? && IsPrefix(root, d) ==> d in ld && IsChildList(fs, d, ld[d])
  }

  function Names(ld: Listings, d: Path): seq<string> {
    if d in ld then ld[d] else []
  }

  /** The entries strictly below `d`; shrinks on every step down. */
  function Below(fs: FS, d: Path): set<Path> {
    set q | q in fs && IsPrefix(d, q) && q != d
  }

  lemma BelowShrinks(fs: FS, d: Path, c: Path)
    requires c in fs && |c| == |d| + 1 && IsPrefix(d, c)
    ensures |Below(fs, c)| < |Below(fs, d)|
  {
    forall q | q in Below(fs, c) ensures q in Below(fs, d) {
      assert q[..|d|] == c[..|d|];
    }
    var extra := Below(fs, d) - Below(fs, c);
    assert c in extra;
    assert Below(fs, d) == Below(fs, c) + extra;
    assert Below(fs, c) !! extra;
  }

  /** The regular files among `names`, in listing order: the `filenames`
      that `os.walk` yields for `d`. */
  function FilesOf(fs: FS, d: Path, names: seq<string>): seq<Path> {
    if names == [] then []
    else (if IsFile(fs, d + [names[0]]) then [d + [names[0]]] else []) + FilesOf(fs, d, names[1..])
  }

  /** `os.walk(d)` flattened to the files it reports, top-down: the files of
      `d` first, then each subdirectory's walk in listing order. A path that
      is not a directory yields nothing. */
  function Walk(fs: FS, ld: Listings, d: Path): seq<Path>
    decreases |Below(fs, d)|, 1
  {
    if !IsDir(fs, d) then []
    else FilesOf(fs, d, Names(ld, d)) + SubWalks(fs, ld, d, Names(ld, d))
  }

  function SubWalks(fs: FS, ld: Listings, d: Path, names: seq<string>): seq<Path>
    decreases |Below(fs, d)|, 0, |names|
  {
    if names == [] then []
    else
      var c := d + [names[0]];
      (if IsDir(fs, c) then BelowShrinks(fs, d, c); Walk(fs, ld, c) else [])
        + SubWalks(fs, ld, d, names[1..])
  }

  lemma NoDupConcat<T>(a: seq<T>, b: seq<T>)
    requires NoDup(a) && NoDup(b)
    requires forall x :: x in a ==> x !in b
    ensures NoDup(a + b)
  {
    forall i, j | 0 <= i < j < |a + b| ensures (a + b)[i] != (a + b)[j] {
      if j < |a| {
      } else if i >= |a| {
        assert (a + b)[i] == b[i - |a|] && (a + b)[j] == b[j - |a|];
      } else {
        assert (a + b)[i] == a[i] && (a + b)[j] == b[j - |a|];
        assert b[j - |a|] in b;
      }
    }
  }

  lemma {:induction false} FilesOfSpec(fs: FS, d: Path, names: seq<string>)
    requires NoDup(names)
    ensures forall q :: q in FilesOf(fs, d, names) <==>
      IsFile(fs, q) && |q| == |d| + 1 && IsPrefix(d, q) && q[|d|] in names
    ensures NoDup(FilesOf(fs, d, names))
  {
    if names != [] {
      var rest := names[1..];
      assert NoDup(rest) by {
        forall i, j | 0 <= i < j < |rest| ensures rest[i] != rest[j] {
          assert rest[i] == names[i + 1] && rest[j] == names[j + 1];
        }
      }
      FilesOfSpec(fs, d, rest);
      var c := d + [names[0]];
      assert c[..|d|] == d && c[|d|] == names[0];
      forall q | q in FilesOf(fs, d, names) ensures
        IsFile(fs, q) && |q| == |d| + 1 && IsPrefix(d, q) && q[|d|] in names
      {
      }
      forall q | IsFile(fs, q) && |q| == |d| + 1 && IsPrefix(d, q) && q[|d|] in names
        ensures q in FilesOf(fs, d, names)
      {
        if q[|d|] == names[0] {
          assert q == q[..|d|] + [q[|d|]];
        }
      }
      assert forall i :: 0 <= i < |rest| ==> names[0] != rest[i] by {
        forall i | 0 <= i < |rest| ensures names[0] != rest[i] { assert rest[i] == names[i + 1]; }
      }
      NoDupConcat(if IsFile(fs, c) then [c] else [], FilesOf(fs, d, rest));
    }
  }

  lemma ListingsAgreeBelow(fs: FS, ld: Listings, root: Path, d: Path)
    requires ListingsAgree(fs, ld, root) && IsPrefix(root, d)
    ensures ListingsAgree(fs, ld, d)
  {
    forall x | x in fs && fs[x].Dir? && IsPrefix(d, x) ensures IsPrefix(root, x) {
      PrefixTransitive(root, d, x);
    }
  }

  /** Walking a directory reports every regular file below it, and nothing
      else. */
  lemma {:induction false} WalkSpec(fs: FS, ld: Listings, d: Path)
    requires Valid(fs) && ListingsAgree(fs, ld, d)
    ensures forall q :: q in Walk(fs, ld, d) <==> IsFile(fs, q) && IsPrefix(d, q) && q != d
    ensures NoDup(Walk(fs, ld, d))
    decreases |Below(fs, d)|, 1
  {
    if !IsDir(fs, d) {
      forall q | IsFile(fs, q) && IsPrefix(d, q) && q != d ensures false {
        AncestorIsDir(fs, d, q);
      }
    } else {
      var names := ld[d];
      assert IsChildList(fs, d, names);
      FilesOfSpec(fs, d, names);
      SubWalksSpec(fs, ld, d, names);
      var w := Walk(fs, ld, d);
      forall q | IsFile(fs, q) && IsPrefix(d, q) && q != d
        ensures q in w
      {
        assert |q| > |d|;
        var c := q[..|d| + 1];
        assert c[..|d|] == d;
        if c != q {
          AncestorIsDir(fs, c, q);
        }
        assert c in fs && |c| == |d| + 1 && IsPrefix(d, c);
        assert c[|d|] == q[|d|];
      }
      NoDupConcat(FilesOf(fs, d, names), SubWalks(fs, ld, d, names));
    }
  }

  /** The walks of the subdirectories named in `names` report exactly the
      files at least two levels below `d` whose first step is one of
      `names`. */
  lemma {:induction false} SubWalksSpec(fs: FS, ld: Listings, d: Path, names: seq<string>)
    requires Valid(fs) && IsDir(fs, d) && ListingsAgree(fs, ld, d)
    requires NoDup(names)
    ensures forall q :: q in SubWalks(fs, ld, d, names) <==>
      IsFile(fs, q) && |q| > |d| + 1 && IsPrefix(d, q) && q[|d|] in names
    ensures NoDup(SubWalks(fs, ld, d, names))
    decreases |Below(fs, d)|, 0, |names|
  {
    if names != [] {
      var rest := names[1..];
      NoDupTail(names);
      SubWalksSpec(fs, ld, d, rest);
      var c := d + [names[0]];
      var head := if IsDir(fs, c) then Walk(fs, ld, c) else [];
      assert SubWalks(fs, ld, d, names) == head + SubWalks(fs, ld, d, rest);
      ChildWalkSpec(fs, ld, d, names[0]);
      NoDupConcat(head, SubWalks(fs, ld, d, rest));
    }
  }

  lemma NoDupTail<T>(s: seq<T>)
    requires NoDup(s) && s != []
    ensures NoDup(s[1..])
    ensures forall i :: 0 <= i < |s[1..]| ==> s[0] != s[1..][i]
  {
    forall i, j | 0 <= i < j < |s[1..]| ensures s[1..][i] != s[1..][j] {
      assert s[1..][i] == s[i + 1] && s[1..][j] == s[j + 1];
    }
    forall i | 0 <= i < |s[1..]| ensures s[0] != s[1..][i] { assert s[1..][i] == s[i + 1]; }
  }

  /** The walk of the entry `x` of `d`, when it is a directory, reports
      exactly the files below `d` whose first step is `x`. */
  lemma {:induction false} ChildWalkSpec(fs: FS, ld: Listings, d: Path, x: string)
    requires Valid(fs) && IsDir(fs, d) && ListingsAgree(fs, ld, d)
    ensures var c := d + [x];
      var head := if IsDir(fs, c) then Walk(fs, ld, c) else [];
      && (forall q :: q in head <==> IsFile(fs, q) && |q| > |d| + 1 && IsPrefix(d, q) && q[|d|] == x)
      && NoDup(head)
    decreases |Below(fs, d)|, 0, 0
  {
    var c := d + [x];
    forall q ensures IsPrefix(c, q) && q != c <==> |q| > |d| + 1 && IsPrefix(d, q) && q[|d|] == x {
      BelowChild(d, x, q);
    }
    if IsDir(fs, c) {
      assert IsPrefix(d, c);
      ListingsAgreeBelow(fs, ld, d, c);
      BelowShrinks(fs, d, c);
      WalkSpec(fs, ld, c);
    } else {
      forall q | IsFile(fs, q) && IsPrefix(c, q) && q != c ensures false {
        AncestorIsDir(fs, c, q);
      }
    }
  }

  /** One member of an archive: its name inside the zip and the file whose
      bytes it holds. */
  datatype Entry = Entry(arcname: string, source: Path)

  /** `os.path.relpath(file, root)` for a file below `root`. */
  function RelName(root: Path, q: Path): string
    requires IsPrefix(root, q) && q != root
  {
    Join(q[|root|..])
  }

  /** The entries `ZipFile.write` receives, in walk order. */
  function EntriesFor(root: Path, files: seq<Path>): (r: seq<Entry>)
    requires forall i :: 0 <= i < |files| ==> IsPrefix(root, files[i]) && files[i] != root
    ensures |r| == |files|
    ensures forall i :: 0 <= i < |r| ==> r[i] == Entry(RelName(root, files[i]), files[i])
  {
    if files == [] then []
    else [Entry(RelName(root, files[0]), files[0])] + EntriesFor(root, files[1..])
  }

  function Entries(fs: FS, ld: Listings, root: Path): seq<Entry>
    requires Valid(fs) && ListingsAgree(fs, ld, root)
  {
    WalkSpec(fs, ld, root);
    var w := Walk(fs, ld, root);
    EntriesFor(root, w)
  }

  /** The archive of a directory holds each regular file below it, and
      nothing else; a missing directory (or a plain file) gives an empty
      archive. */
  lemma ArchiveSources(fs: FS, ld: Listings, root: Path, q: Path)
    requires Valid(fs) && ListingsAgree(fs, ld, root)
    ensures (exists e :: e in Entries(fs, ld, root) && e.source == q)
      <==> (IsFile(fs, q) && IsPrefix(root, q) && q != root)
    ensures !IsDir(fs, root) ==> Entries(fs, ld, root) == []
  {
    WalkSpec(fs, ld, root);
    var w := Walk(fs, ld, root);
    var es := Entries(fs, ld, root);
    if IsFile(fs, q) && IsPrefix(root, q) && q != root {
      var i :| 0 <= i < |w| && w[i] == q;
      assert es[i] in es && es[i].source == q;
    }
    if exists e :: e in es && e.source == q {
      var e :| e in es && e.source == q;
      var i :| 0 <= i < |es| && es[i] == e;
      assert w[i] in w;
    }
  }

  /** Each file is archived once, and no two members share a name. */
  lemma ArchiveUnique(fs: FS, ld: Listings, root: Path, i: int, j: int)
    requires Valid(fs) && ListingsAgree(fs, ld, root)
    requires 0 <= i < j < |Entries(fs, ld, root)|
    ensures Entries(fs, ld, root)[i].source != Entries(fs, ld, root)[j].source
    ensures Entries(fs, ld, root)[i].arcname != Entries(fs, ld, root)[j].arcname
  {
    WalkSpec(fs, ld, root);
    var w := Walk(fs, ld, root);
    assert w[i] in w && w[j] in w;
    RelSplit(fs, root, w[i]);
    RelSplit(fs, root, w[j]);
  }

  /** A member is named by the file's path relative to the archived root. */
  lemma ArchiveNames(fs: FS, ld: Listings, root: Path, e: Entry)
    requires Valid(fs) && ListingsAgree(fs, ld, root)
    requires e in Entries(fs, ld, root)
    ensures root + Split(e.arcname) == e.source
  {
    WalkSpec(fs, ld, root);
    var w := Walk(fs, ld, root);
    var es := Entries(fs, ld, root);
    var i :| 0 <= i < |es| && es[i] == e;
    assert w[i] in w;
    RelSplit(fs, root, w[i]);
  }

  /** The relative name of a file splits back into its path below the root. */
  lemma RelSplit(fs: FS, root: Path, q: Path)
    requires Valid(fs) && q in fs && IsPrefix(root, q) && q != root
    ensures root + Split(RelName(root, q)) == q
  {
    var rel := q[|root|..];
    assert |q| > |root| by { assert q[..|q|] == q; }
    forall i | 0 <= i < |rel| ensures '/' !in rel[i] {
      assert rel[i] == q[|root| + i];
      assert PlainSegment(q[|root| + i]);
    }
    SplitJoin(rel);
    assert q == q[..|root|] + rel;
  }

  /** The walk of `d` looks only at `d` and what lies below it: two snapshots
      that agree there walk alike. */
  lemma {:induction false} WalkFrame(fs1: FS, fs2: FS, ld: Listings, d: Path)
    requires forall q :: IsPrefix(d, q) ==> (q in fs1 <==> q in fs2)
    requires forall q :: IsPrefix(d, q) && q in fs1 ==> fs1[q] == fs2[q]
    ensures Walk(fs1, ld, d) == Walk(fs2, ld, d)
    decreases |Below(fs1, d)|, 1
  {
    assert d[..|d|] == d;
    if IsDir(fs1, d) {
      FilesOfFrame(fs1, fs2, d, Names(ld, d));
      SubWalksFrame(fs1, fs2, ld, d, Names(ld, d));
    }
  }

  lemma {:induction false} FilesOfFrame(fs1: FS, fs2: FS, d: Path, names: seq<string>)
    requires forall q :: IsPrefix(d, q) ==> (q in fs1 <==> q in fs2)
    requires forall q :: IsPrefix(d, q) && q in fs1 ==> fs1[q] == fs2[q]
    ensures FilesOf(fs1, d, names) == FilesOf(fs2, d, names)
  {
    if names != [] {
      var c := d + [names[0]];
      assert c[..|d|] == d;
      FilesOfFrame(fs1, fs2, d, names[1..]);
    }
  }

  lemma {:induction false} SubWalksFrame(fs1: FS, fs2: FS, ld: Listings, d: Path, names: seq<string>)
    requires forall q :: IsPrefix(d, q) ==> (q in fs1 <==> q in fs2)
    requires forall q :: IsPrefix(d, q) && q in fs1 ==> fs1[q] == fs2[q]
    ensures SubWalks(fs1, ld, d, names) == SubWalks(fs2, ld, d, names)
    decreases |Below(fs1, d)|, 0, |names|
  {
    if names != [] {
      var c := d + [names[0]];
      assert c[..|d|] == d;
      if IsDir(fs1, c) {
        forall q | IsPrefix(c, q) ensures IsPrefix(d, q) { PrefixTransitive(d, c, q); }
        BelowShrinks(fs1, d, c);
        WalkFrame(fs1, fs2, ld, c);
      }
      SubWalksFrame(fs1, fs2, ld, d, names[1..]);
    }
  }
}
