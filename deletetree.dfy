/**
 * Deleting a directory tree bottom-up: what a best-effort recursive delete
 * leaves behind, and the facts its step-by-step proof is made of.
 */
module TreeDeletion {
  import opened Paths
  import opened FileSystem

  /** An entry the system refuses to delete lies at or below `q`, so a bottom-up delete keeps `q`. */
  predicate Pinned(fs: Fs, undeletable: set<Path>, q: Path) {
    exists r | r in fs && r in undeletable :: q <= r
  }

  /** What a complete bottom-up delete of `p` removes: every entry at or below `p` that is not pinned. */
  function Doomed(fs: Fs, undeletable: set<Path>, p: Path): set<Path> {
    set q | q in fs && p <= q && !Pinned(fs, undeletable, q)
  }

  /** The filesystem after deleting the tree at `p` bottom-up, each entry as far as the system allows. */
  function DeleteTree(fs: Fs, undeletable: set<Path>, p: Path): (r: Fs)
    requires WellFormed(fs)
    ensures WellFormed(r)
    ensures forall q | q in fs && !(p <= q) :: q in r && r[q] == fs[q]
    ensures forall q | q in r :: q in fs && r[q] == fs[q]
    ensures forall q | q in fs && p <= q :: q in r <==> Pinned(fs, undeletable, q)
    ensures (forall q | q in fs && q in undeletable :: !(p <= q)) ==> forall q | q in r :: !(p <= q)
  {
    var r := fs - Doomed(fs, undeletable, p);
    forall q | q in r ensures IsDir(r, Parent(q)) {
      var up := Parent(q);
      if up != [] {
        assert up < q;
        if p <= q {
          var w :| w in fs && w in undeletable && q <= w;
          assert up <= w;
        } else {
          assert !(p <= up);
        }
      }
    }
    forall q | q in r && p <= q ensures exists w | w in fs && w in undeletable :: p <= w {
      var w :| w in fs && w in undeletable && q <= w;
      assert p <= w;
    }
    r
  }

  /** The entries at or below `p`. */
  function Subtree(fs: Fs, p: Path): set<Path> {
    set q | q in fs && p <= q
  }

  /** The doomed entries below the children of `p` listed in `done`. */
  function DoomedBelow(fs: Fs, undeletable: set<Path>, p: Path, done: set<Path>): set<Path> {
    set q | q in Doomed(fs, undeletable, p) && |p| < |q| && q[..|p| + 1] in done
  }

  /** Every entry is removed before any directory above it. */
  predicate ChildrenFirst(log: seq<Path>) {
    forall i, j | 0 <= i < |log| && 0 <= j < |log| && log[i] < log[j] :: j < i
  }

  /** Deleting doomed entries never changes which entries are pinned. */
  lemma PinnedUnchanged(fs0: Fs, undeletable: set<Path>, gone: set<Path>, q: Path)
    requires forall x | x in gone :: !Pinned(fs0, undeletable, x)
    ensures Pinned(fs0 - gone, undeletable, q) <==> Pinned(fs0, undeletable, q)
  {
    if Pinned(fs0, undeletable, q) {
      var w :| w in fs0 && w in undeletable && q <= w;
      assert Pinned(fs0, undeletable, w);
      assert w in fs0 - gone;
    }
  }

  /** Deleting the tree of one more child of `p` removes exactly that child's doomed entries. */
  lemma DoomedStep(fs0: Fs, undeletable: set<Path>, p: Path, done: set<Path>, c: Path, fs: Fs)
    requires WellFormed(fs0)
    requires c in Children(fs0, p) && c !in done
    requires fs == fs0 - DoomedBelow(fs0, undeletable, p, done)
    ensures Doomed(fs, undeletable, c)
         == DoomedBelow(fs0, undeletable, p, done + {c}) - DoomedBelow(fs0, undeletable, p, done)
    ensures fs - Doomed(fs, undeletable, c) == fs0 - DoomedBelow(fs0, undeletable, p, done + {c})
  {
    var before := DoomedBelow(fs0, undeletable, p, done);
    var after := DoomedBelow(fs0, undeletable, p, done + {c});
    forall q ensures q in Doomed(fs, undeletable, c) <==> q in after - before {
      PinnedUnchanged(fs0, undeletable, before, q);
      if c <= q {
        assert q[..|p| + 1] == c;
        assert p <= q by { assert p <= c; }
      }
      if q in after - before {
        assert q[..|p| + 1] == c;
        assert c <= q;
      }
    }
    assert before <= after;
  }

  /** The recursive call on a child works on a strictly smaller part of the tree. */
  lemma SubtreeShrinks(fs0: Fs, fs: Fs, p: Path, c: Path)
    requires fs.Keys <= fs0.Keys && c in Children(fs0, p)
    ensures Subtree(fs, c) + {c} < Subtree(fs0, p) + {p}
  {
    forall q | q in Subtree(fs, c) ensures q in Subtree(fs0, p) {
      assert p <= c;
    }
    assert p !in Subtree(fs, c) + {c};
  }

  /** Once every child's tree is deleted, all that is doomed except `p` itself is gone. */
  lemma DoomedBelowAll(fs: Fs, undeletable: set<Path>, p: Path)
    requires WellFormed(fs)
    ensures DoomedBelow(fs, undeletable, p, Children(fs, p)) == Doomed(fs, undeletable, p) - {p}
  {
    forall q | q in Doomed(fs, undeletable, p) - {p}
      ensures q in DoomedBelow(fs, undeletable, p, Children(fs, p))
    {
      assert p <= q && q != p;
      assert |p| < |q|;
      var c := q[..|p| + 1];
      if |c| < |q| {
        AncestorsAreDirs(fs, q, |p| + 1);
      } else {
        assert c == q;
      }
      assert c[..|p|] == p;
      assert c in Children(fs, p);
    }
  }

  /** Nothing lies below a path that is not a directory. */
  lemma NothingBelowNonDir(fs: Fs, undeletable: set<Path>, p: Path)
    requires WellFormed(fs) && !IsDir(fs, p)
    ensures fs == fs - (Doomed(fs, undeletable, p) - {p})
  {
    forall q | q in Doomed(fs, undeletable, p) ensures q == p {
      if p < q {
        AboveEntryIsDir(fs, p, q);
      }
    }
    assert Doomed(fs, undeletable, p) - {p} == {};
  }

  /** With everything below deleted as far as possible, `p` itself can go exactly when it is doomed. */
  lemma FinalDelete(fs0: Fs, undeletable: set<Path>, p: Path, fs: Fs)
    requires WellFormed(fs0)
    requires fs == fs0 - (Doomed(fs0, undeletable, p) - {p})
    ensures CanDelete(fs, undeletable, p) <==> p in Doomed(fs0, undeletable, p)
    ensures p in Doomed(fs0, undeletable, p) ==> fs - {p} == fs0 - Doomed(fs0, undeletable, p)
    ensures p !in Doomed(fs0, undeletable, p) ==> fs == fs0 - Doomed(fs0, undeletable, p)
  {
    if p in Doomed(fs0, undeletable, p) {
      FinalDeleteDoomed(fs0, undeletable, p, fs);
    } else {
      FinalDeletePinned(fs0, undeletable, p, fs);
    }
  }

  lemma FinalDeletePinned(fs0: Fs, undeletable: set<Path>, p: Path, fs: Fs)
    requires WellFormed(fs0)
    requires fs == fs0 - (Doomed(fs0, undeletable, p) - {p})
    requires p !in Doomed(fs0, undeletable, p)
    ensures !CanDelete(fs, undeletable, p)
    ensures fs == fs0 - Doomed(fs0, undeletable, p)
  {
    var doomed := Doomed(fs0, undeletable, p);
    assert doomed - {p} == doomed;
    if p in fs && p !in undeletable {
      var w :| w in fs0 && w in undeletable && p <= w;
      assert Pinned(fs0, undeletable, w);
      assert w !in doomed && w != p;
      assert w in fs && p < w;
    }
  }

  lemma FinalDeleteDoomed(fs0: Fs, undeletable: set<Path>, p: Path, fs: Fs)
    requires WellFormed(fs0)
    requires fs == fs0 - (Doomed(fs0, undeletable, p) - {p})
    requires p in Doomed(fs0, undeletable, p)
    ensures CanDelete(fs, undeletable, p)
    ensures fs - {p} == fs0 - Doomed(fs0, undeletable, p)
  {
    var doomed := Doomed(fs0, undeletable, p);
    assert p in fs && p !in undeletable;
    forall q | q in fs ensures !(p < q) {
      PinnedUnchanged(fs0, undeletable, doomed - {p}, q);
    }
    assert (fs - {p}).Keys == (fs0 - doomed).Keys;
  }

  /** Two logs from the trees of different children of `p` can be run one after the other. */
  lemma DisjointSubtrees(a: seq<Path>, b: seq<Path>, p: Path, done: set<Path>, c: Path)
    requires ChildrenFirst(a) && ChildrenFirst(b) && c !in done
    requires forall x | x in a :: |p| < |x| && x[..|p| + 1] in done
    requires forall y | y in b :: c <= y && |c| == |p| + 1
    ensures ChildrenFirst(a + b)
  {
    var log := a + b;
    forall i, j | 0 <= i < |log| && 0 <= j < |log| && log[i] < log[j] ensures j < i {
      if i < |a| && j >= |a| {
        assert a[i] in a && b[j - |a|] in b;
        NotAboveAcross(a[i], b[j - |a|], p, done, c);
        assert false;
      } else if i < |a| {
        assert log[i] == a[i] && log[j] == a[j];
      } else if j >= |a| {
        assert log[i] == b[i - |a|] && log[j] == b[j - |a|];
      }
    }
  }

  /** An entry below one child of `p` is never above an entry below another. */
  lemma NotAboveAcross(x: Path, y: Path, p: Path, done: set<Path>, c: Path)
    requires |p| < |x| && x[..|p| + 1] in done
    requires c <= y && |c| == |p| + 1 && c !in done
    ensures !(x < y)
  {
    assert c == y[..|p| + 1];
    if x < y {
      HeadOfPrefix(x, y, |p| + 1);
    }
  }

  lemma HeadOfPrefix(x: Path, y: Path, n: nat)
    requires x <= y && n <= |x|
    ensures x[..n] == y[..n]
  {
  }

  /** A directory deleted after everything below it keeps the log in order. */
  lemma ChildrenFirstThenParent(log: seq<Path>, p: Path)
    requires ChildrenFirst(log)
    requires forall x | x in log :: p < x
    ensures ChildrenFirst(log + [p])
  {
    var l := log + [p];
    forall k | 0 <= k < |log| ensures p < l[k] {
      assert l[k] == log[k] && log[k] in log;
    }
    forall i, j | 0 <= i < |l| && 0 <= j < |l| && l[i] < l[j] ensures j < i {
      if i < |log| && j < |log| {
        assert l[i] == log[i] && l[j] == log[j];
      }
    }
  }
}
