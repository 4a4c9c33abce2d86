/** The per-category listing the index page shows (server.py:127-135):
    `os.listdir` of the category folder, sorted by `os.path.getctime`,
    newest first. Python's `list.sort(key=..., reverse=True)` is stable:
    entries with the same ctime keep their listing order. */
module Listing {
  import opened Paths
  import opened FileTree
  import opened Archive

  /** `os.path.getctime(os.path.join(dir_path, x))` for an entry `x` of `d`. */
  function CtimeOf(fs: FS, d: Path, x: string): int {
    if d + [x] in fs then fs[d + [x]].ctime else 0
  }

  /** Every entry is at least as new as every entry after it. */
  predicate NewestFirstOrder(fs: FS, d: Path, s: seq<string>) {
    forall i, j :: 0 <= i < j < |s| ==> CtimeOf(fs, d, s[i]) >= CtimeOf(fs, d, s[j])
  }

  /** Puts `x` in front of the first entry that is not newer than it. */
  function Insert(fs: FS, d: Path, x: string, s: seq<string>): (r: seq<string>)
    ensures multiset(r) == multiset(s) + multiset{x}
  {
    if s == [] || CtimeOf(fs, d, s[0]) <= CtimeOf(fs, d, x) then [x] + s
    else
      assert s == [s[0]] + s[1..];
      [s[0]] + Insert(fs, d, x, s[1..])
  }

  /** `files.sort(key=getctime, reverse=True)`: a stable sort, newest first. */
  function NewestFirst(fs: FS, d: Path, names: seq<string>): (r: seq<string>)
  {
    if names == [] then [] else Insert(fs, d, names[0], NewestFirst(fs, d, names[1..]))
  }

  lemma {:induction false} InsertOrder(fs: FS, d: Path, x: string, s: seq<string>)
    requires NewestFirstOrder(fs, d, s)
    ensures NewestFirstOrder(fs, d, Insert(fs, d, x, s))
    decreases |s|
  {
    if s != [] && CtimeOf(fs, d, s[0]) > CtimeOf(fs, d, x) {
      var rest := Insert(fs, d, x, s[1..]);
      assert NewestFirstOrder(fs, d, s[1..]);
      InsertOrder(fs, d, x, s[1..]);
      forall j | 0 <= j < |rest| ensures CtimeOf(fs, d, s[0]) >= CtimeOf(fs, d, rest[j]) {
        assert rest[j] in multiset(rest);
        if rest[j] != x {
          assert rest[j] in multiset(s[1..]);
          var k :| 0 <= k < |s[1..]| && s[1..][k] == rest[j];
          assert s[k + 1] == rest[j];
        }
      }
    }
  }

  /** The sorted listing is a permutation of the listing, newest first. */
  lemma {:induction false} NewestFirstSpec(fs: FS, d: Path, names: seq<string>)
    ensures multiset(NewestFirst(fs, d, names)) == multiset(names)
    ensures NewestFirstOrder(fs, d, NewestFirst(fs, d, names))
  {
    if names != [] {
      NewestFirstSpec(fs, d, names[1..]);
      InsertOrder(fs, d, names[0], NewestFirst(fs, d, names[1..]));
      assert names == [names[0]] + names[1..];
    }
  }

  /** The entries of `s` whose ctime is `k`, in their order in `s`. */
  function WithCtime(fs: FS, d: Path, s: seq<string>, k: int): seq<string> {
    if s == [] then []
    else (if CtimeOf(fs, d, s[0]) == k then [s[0]] else []) + WithCtime(fs, d, s[1..], k)
  }

  lemma {:induction false} InsertStable(fs: FS, d: Path, x: string, s: seq<string>, k: int)
    ensures WithCtime(fs, d, Insert(fs, d, x, s), k)
      == (if CtimeOf(fs, d, x) == k then [x] else []) + WithCtime(fs, d, s, k)
    decreases |s|
  {
    var r := Insert(fs, d, x, s);
    if s == [] || CtimeOf(fs, d, s[0]) <= CtimeOf(fs, d, x) {
      assert r[1..] == s;
    } else {
      assert r[1..] == Insert(fs, d, x, s[1..]);
      InsertStable(fs, d, x, s[1..], k);
    }
  }

  /** The sort is stable: entries with equal ctime keep their listing
      order. */
  lemma {:induction false} NewestFirstStable(fs: FS, d: Path, names: seq<string>, k: int)
    ensures WithCtime(fs, d, NewestFirst(fs, d, names), k) == WithCtime(fs, d, names, k)
  {
    if names != [] {
      NewestFirstStable(fs, d, names[1..], k);
      InsertStable(fs, d, names[0], NewestFirst(fs, d, names[1..]), k);
    }
  }

  /** The index entry of one category: an empty list when the folder is
      missing; `os.listdir` raises when the path is a regular file. */
  function CategoryListing(fs: FS, ld: Listings, category: string): Outcome<seq<string>>
  {
    var dir := [category];
    if dir !in fs then Ok([])
    else if fs[dir].File? then Raised(NotADirectory(dir))
    else Ok(NewestFirst(fs, dir, Names(ld, dir)))
  }

  /** The listing of an existing category folder names each of its entries
      exactly once, newest first; a missing folder lists nothing. */
  lemma CategoryListingSpec(fs: FS, ld: Listings, category: string)
    requires Valid(fs) && ListingsAgree(fs, ld, [category])
    ensures var r := CategoryListing(fs, ld, category);
      && (r.Raised? <==> IsFile(fs, [category]))
      && ([category] !in fs ==> r == Ok([]))
      && (r.Ok? ==> (forall x :: x in r.value <==> [category] + [x] in fs))
      && (IsDir(fs, [category]) ==> multiset(r.value) == multiset(ld[[category]]))
      && (r.Ok? ==> NewestFirstOrder(fs, [category], r.value))
  {
    var dir := [category];
    var r := CategoryListing(fs, ld, category);
    if IsDir(fs, dir) {
      assert dir[..|dir|] == dir;
      assert dir in ld && IsChildList(fs, dir, ld[dir]);
      var names := ld[dir];
      NewestFirstSpec(fs, dir, names);
      forall x ensures x in r.value <==> dir + [x] in fs {
        assert x in r.value <==> x in multiset(names);
        if x in names {
          var i :| 0 <= i < |names| && names[i] == x;
        }
        if dir + [x] in fs {
          var q := dir + [x];
          assert |q| == |dir| + 1 && q[..|dir|] == dir;
          assert q[|dir|] == x;
        }
      }
    } else if dir !in fs {
      forall x ensures dir + [x] !in fs {
        assert Parent(dir + [x]) == dir;
      }
    }
  }
}
