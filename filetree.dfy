/** The part of the filesystem below BASE_DIR as a snapshot: a finite map
    from paths to files and directories, with the handful of `os` and
    `shutil` operations the server calls, and the errors they raise. */
module FileTree {
  import opened Paths

  /** A file or a directory; `ctime` is what `os.path.getctime` reports. */
  datatype Node = File(ctime: int) | Dir(ctime: int)

  type FS = map<Path, Node>

  /** The Python exceptions the modelled operations can raise. */
  datatype PyError =
    | FileNotFound(path: Path)
    | FileExists(path: Path)
    | IsADirectory(path: Path)
    | NotADirectory(path: Path)
    | KeyError(key: string)
    | ValueError
    | OverflowError

  /** What a request handler ends with: a value, or an exception that
      propagated out of it (Flask then answers with a server error). */
  datatype Outcome<T> = Ok(value: T) | Raised(error: PyError)

  /** The state an operation leaves behind and how it ended; an exception
      keeps what was already done before it was raised. */
  datatype Effect = Effect(outcome: Outcome<()>, fs: FS)

  /** A snapshot is a tree: BASE_DIR is a directory, every other entry sits
      in a directory, and every segment is taken literally. */
  predicate Valid(fs: FS) {
    && [] in fs && fs[[]].Dir?
    && (forall q :: q in fs ==> PlainPath(q))
    && (forall q :: q in fs && q != [] ==> Parent(q) in fs && fs[Parent(q)].Dir?)
  }

  predicate IsDir(fs: FS, p: Path) {
    p in fs && fs[p].Dir?
  }

  predicate IsFile(fs: FS, p: Path) {
    p in fs && fs[p].File?
  }

  /** `shutil.rmtree(p)` on a directory: `p` and everything below it goes. */
  function RemoveTree(fs: FS, p: Path): (r: FS)
    ensures forall q :: q in r <==> q in fs && !IsPrefix(p, q)
    ensures forall q :: q in r ==> r[q] == fs[q]
  {
    map q | q in fs && !IsPrefix(p, q) :: fs[q]
  }

  /** Every proper ancestor of an entry is a directory of the snapshot. */
  lemma {:induction false} AncestorIsDir(fs: FS, a: Path, q: Path)
    requires Valid(fs) && q in fs
    requires IsPrefix(a, q) && a != q
    ensures IsDir(fs, a)
    decreases |q|
  {
    assert q[..|q|] == q;
    assert |a| < |q|;
    var pq := Parent(q);
    if pq != a {
      assert pq[..|a|] == q[..|a|];
      AncestorIsDir(fs, a, pq);
    } else {
      assert IsDir(fs, pq);
    }
  }

  lemma PrefixTransitive(a: Path, b: Path, c: Path)
    requires IsPrefix(b, c)
    ensures IsPrefix(a, b) ==> IsPrefix(a, c)
  {
    if |a| <= |b| {
      assert c[..|a|] == b[..|a|];
    }
  }

  /** Removing a whole subtree other than BASE_DIR keeps the snapshot a tree. */
  lemma RemoveTreeValid(fs: FS, p: Path)
    requires Valid(fs) && p != []
    ensures Valid(RemoveTree(fs, p))
  {
    var r := RemoveTree(fs, p);
    assert [] in r by { assert !IsPrefix(p, []); }
    forall q | q in r && q != []
      ensures Parent(q) in r && r[Parent(q)].Dir?
    {
      PrefixTransitive(p, Parent(q), q);
    }
  }

  /** Removing one regular file keeps the snapshot a tree. */
  lemma RemoveFileValid(fs: FS, p: Path)
    requires Valid(fs) && IsFile(fs, p)
    ensures Valid(fs - {p})
  {
    forall q | q in fs - {p} && q != []
      ensures Parent(q) != p
    {
      assert IsDir(fs, Parent(q));
    }
  }

  /** Adding an entry inside an existing directory keeps the snapshot a tree,
      unless a directory would be overwritten by a file. */
  lemma PutValid(fs: FS, p: Path, n: Node)
    requires Valid(fs) && p != [] && PlainPath(p) && IsDir(fs, Parent(p))
    requires p in fs ==> fs[p].Dir? == n.Dir?
    ensures Valid(fs[p := n])
  {
    var r := fs[p := n];
    forall q | q in r && q != []
      ensures Parent(q) in r && r[Parent(q)].Dir?
    {
      if q != p {
        assert q in fs;
        if Parent(q) == p {
          assert fs[p].Dir?;
        }
      }
    }
  }
}
