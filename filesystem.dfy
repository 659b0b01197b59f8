/**
 * The filesystem as the storage sees it through `java.io.File`: a finite map
 * from paths to entries. The filesystem root `[]` is implicit: it is never a
 * key and is always a directory.
 */
module FileSystem {
  import opened Paths
  import opened Objects

  /** What a file holds: nothing (as `createNewFile` leaves it) or one serialized object. */
  datatype Content = Empty | Serialized(obj: Obj)

  datatype Entry = Dir | File(content: Content)

  type Fs = map<Path, Entry>

  function Parent(p: Path): Path
    requires p != []
  {
    p[..|p| - 1]
  }

  predicate IsDir(fs: Fs, p: Path) {
    p == [] || (p in fs && fs[p].Dir?)
  }

  predicate IsFile(fs: Fs, p: Path) {
    p in fs && fs[p].File?
  }

  /** The entries form a tree: every entry sits in a directory that exists. */
  predicate WellFormed(fs: Fs) {
    [] !in fs && forall p | p in fs :: IsDir(fs, Parent(p))
  }

  /** Every directory above an entry exists. */
  lemma {:induction false} AncestorsAreDirs(fs: Fs, p: Path, k: nat)
    requires WellFormed(fs) && p in fs && k < |p|
    ensures IsDir(fs, p[..k])
    decreases |p|
  {
    var q := Parent(p);
    if k < |q| {
      AncestorsAreDirs(fs, q, k);
      assert q[..k] == p[..k];
    }
  }

  /** Whatever has an entry below it is a directory. */
  lemma AboveEntryIsDir(fs: Fs, p: Path, q: Path)
    requires WellFormed(fs) && q in fs && p < q
    ensures IsDir(fs, p)
  {
    AncestorsAreDirs(fs, q, |p|);
    assert q[..|p|] == p;
  }

  /** A file sits at `p` or above it, so no directory can exist or be made at `p`. */
  predicate Blocked(fs: Fs, p: Path) {
    exists k | 0 < k <= |p| :: IsFile(fs, p[..k])
  }

  lemma BlockedIsNotDir(fs: Fs, p: Path)
    requires WellFormed(fs)
    ensures Blocked(fs, p) ==> !IsDir(fs, p)
  {
    if Blocked(fs, p) {
      var k :| 0 < k <= |p| && IsFile(fs, p[..k]);
      if k < |p| && p in fs {
        AncestorsAreDirs(fs, p, k);
      }
      assert k == |p| ==> p[..k] == p;
    }
  }

  /** The non-root directories on the way down to `p`, `p` included. */
  function Prefixes(p: Path): set<Path> {
    set k | 0 < k <= |p| :: p[..k]
  }

  /**
   * `File.mkdirs`: creates `p` and every missing directory above it, or
   * changes nothing when a file is in the way.
   */
  function Mkdirs(fs: Fs, p: Path): (r: Fs)
    requires WellFormed(fs)
    ensures WellFormed(r)
    ensures IsDir(r, p) <==> !Blocked(fs, p)
    ensures Blocked(fs, p) || IsDir(fs, p) ==> r == fs
    ensures forall q | q in fs :: q in r && r[q] == fs[q]
    ensures forall q | q in r && q !in fs :: r[q] == Dir && q <= p
  {
    BlockedIsNotDir(fs, p);
    if Blocked(fs, p) then fs
    else
      var r := map q | q in fs.Keys + Prefixes(p) :: if q in fs then fs[q] else Dir;
      MkdirsWellFormed(fs, p, r);
      if IsDir(fs, p) then
        assert r == fs by {
          forall q | q in Prefixes(p) ensures q in fs {
            var k :| 0 < k <= |p| && q == p[..k];
            if k < |p| { AncestorsAreDirs(fs, p, k); } else { assert q == p; }
          }
        }
        r
      else
        assert p != [] && p[..|p|] == p;
        r
  }

  lemma MkdirsWellFormed(fs: Fs, p: Path, r: Fs)
    requires WellFormed(fs) && !Blocked(fs, p)
    requires r == map q | q in fs.Keys + Prefixes(p) :: if q in fs then fs[q] else Dir
    ensures WellFormed(r)
  {
    forall q | q in r ensures IsDir(r, Parent(q)) {
      if q !in fs {
        var k :| 0 < k <= |p| && q == p[..k];
        assert Parent(q) == p[..k - 1];
        if k - 1 > 0 {
          assert Parent(q) in Prefixes(p);
          assert !IsFile(fs, p[..k - 1]);
        }
      }
    }
  }

  /** No entry lies below `p`. */
  predicate IsLeaf(fs: Fs, p: Path) {
    forall q | q in fs :: !(p < q)
  }

  /** `File.delete` succeeds: `p` exists, the system lets it go, and it is a file or an empty directory. */
  predicate CanDelete(fs: Fs, undeletable: set<Path>, p: Path): (r: bool)
    ensures r ==> p in fs && Children(fs, p) == {}
  {
    p in fs && p !in undeletable && IsLeaf(fs, p)
  }

  lemma DeleteLeafWellFormed(fs: Fs, p: Path)
    requires WellFormed(fs) && IsLeaf(fs, p)
    ensures WellFormed(fs - {p})
  {
    forall q | q in fs - {p} ensures IsDir(fs - {p}, Parent(q)) {
      assert Parent(q) < q;
    }
  }

  /** `File.listFiles`: the entries directly inside `p`. */
  function Children(fs: Fs, p: Path): (r: set<Path>)
    ensures forall c | c in r :: c in fs && c != [] && Parent(c) == p
    ensures forall c | c in fs && c != [] && Parent(c) == p :: c in r
  {
    var r := set q | q in fs && |q| == |p| + 1 && p < q;
    assert forall c | c in fs && c != [] && Parent(c) == p :: c[..|p|] == p;
    r
  }
}
