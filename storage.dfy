/**
 * `PersistentObjectStorage`: serialized objects kept as files below one
 * storage directory in the user's home directory, plus a "first start"
 * marker file. The filesystem is the object's state; `user.home` and
 * `os.name` are parameters of construction.
 */
module ObjectStorage {
  import opened Wrappers
  import opened Text
  import opened Paths
  import opened Objects
  import opened FileSystem
  import opened TreeDeletion

  /** The Java exceptions the storage lets through to its callers. */
  datatype Exception =
    | NullPointer       // NullPointerException
    | IllegalArgument   // IllegalArgumentException
    | FileNotFound      // FileNotFoundException
    | EndOfFile         // EOFException: the file holds no serialized object
    | IoFailure         // any other IOException
    | ClassCast         // ClassCastException

  /** The marker file whose presence means the application has started before. */
  const MarkerName: string := "notFirstStart"

  predicate IsWindows(osName: string) {
    Contains(osName, "Windows")
  }

  function Separator(osName: string): char {
    if IsWindows(osName) then '\\' else '/'
  }

  /** The storage path the constructor settles on, or the exception it throws. */
  function ResolveStoragePath(directoryName: Option<string>, home: string, osName: string): (r: Result<string, Exception>)
    ensures directoryName.None? ==> r == Failure(NullPointer)
    ensures directoryName.Some? && AllBlank(directoryName.value) ==> r == Failure(IllegalArgument)
    ensures directoryName.Some? && !AllBlank(directoryName.value) ==>
      r.Success? && r.value == home + [Separator(osName)] + Trim(directoryName.value)
  {
    match directoryName
    case None => Failure(NullPointer)
    case Some(name) =>
      var trimmed := Trim(name);
      if trimmed == [] then Failure(IllegalArgument)
      else Success(home + [Separator(osName)] + trimmed)
  }

  /** The storage directory is the home directory followed by the names of the trimmed directory name. */
  lemma StorageRootUnderHome(name: string, home: string, osName: string)
    requires ResolveStoragePath(Some(name), home, osName).Success?
    ensures var windows := IsWindows(osName);
      Segments(ResolveStoragePath(Some(name), home, osName).value, windows)
        == Segments(home, windows) + Segments(Trim(name), windows)
  {
    SegmentsOfJoin(home, Separator(osName), Trim(name), IsWindows(osName));
  }

  /** Reading the file at `t` back as an object of class `requested`. */
  function Lookup(fs: Fs, t: Path, requested: string): (r: Result<Obj, Exception>)
    ensures r == Failure(FileNotFound) <==> !IsFile(fs, t)
    ensures r == Failure(EndOfFile) <==> IsFile(fs, t) && fs[t].content.Empty?
    ensures r.Success? ==> IsFile(fs, t) && fs[t].content == Serialized(r.value) && InstanceOf(r.value, requested)
    ensures IsFile(fs, t) && fs[t].content.Serialized? && !InstanceOf(fs[t].content.obj, requested) ==> r == Failure(ClassCast)
    ensures IsFile(fs, t) && fs[t].content.Serialized? && InstanceOf(fs[t].content.obj, requested) ==>
      r == Success(fs[t].content.obj)
  {
    if !IsFile(fs, t) then Failure(FileNotFound)
    else
      match fs[t].content
      case Empty => Failure(EndOfFile)
      case Serialized(o) => if InstanceOf(o, requested) then Success(o) else Failure(ClassCast)
  }

  /** Replacing the file at `t` makes reading it back give the new value, for every requested class. */
  lemma LookupStored(fs: Fs, t: Path, obj: Obj, requested: string)
    ensures Lookup(fs[t := File(Serialized(obj))], t, requested)
         == if InstanceOf(obj, requested) then Success(obj) else Failure(ClassCast)
  {
  }

  /** A read sees only its own path: keeping that entry, or adding a directory there, changes nothing. */
  lemma LookupElsewhere(fs: Fs, fs': Fs, u: Path, requested: string)
    requires u in fs ==> u in fs' && fs'[u] == fs[u]
    requires u in fs' && u !in fs ==> fs'[u] == Dir
    ensures Lookup(fs', u, requested) == Lookup(fs, u, requested)
  {
  }

  /** `mkdirs` on the parent, then a new file at `t` holding `obj`, when neither fails. */
  lemma StoreEffect(fs: Fs, t: Path, obj: Obj)
    requires WellFormed(fs) && t != [] && !Blocked(fs, Parent(t)) && !IsDir(fs, t)
    ensures var r := Mkdirs(fs, Parent(t))[t := File(Serialized(obj))];
      && WellFormed(r)
      && (forall c :: Lookup(r, t, c) == if InstanceOf(obj, c) then Success(obj) else Failure(ClassCast))
      && (forall u, c | u != t :: Lookup(r, u, c) == Lookup(fs, u, c))
      && (forall q | q in fs && q != t :: q in r && r[q] == fs[q])
      && (forall q | q in r && q !in fs :: q == t || (r[q] == Dir && q < t))
  {
    var m := Mkdirs(fs, Parent(t));
    var r := m[t := File(Serialized(obj))];
    assert IsDir(m, Parent(t));
    forall c ensures Lookup(r, t, c) == if InstanceOf(obj, c) then Success(obj) else Failure(ClassCast) {
      LookupStored(m, t, obj, c);
    }
    forall u, c | u != t ensures Lookup(r, u, c) == Lookup(fs, u, c) {
      LookupElsewhere(fs, r, u, c);
    }
    forall q | q in r && q !in fs ensures q == t || (r[q] == Dir && q < t) {
      if q != t {
        assert q <= Parent(t) && Parent(t) < t;
      }
    }
  }

  class PersistentObjectStorage {
    const storagePath: string
    /** Whether `os.name` names Windows: it picks the separator and how `java.io.File` splits paths. */
    const windows: bool
    /** The storage directory as a filesystem path. */
    const root: Path
    /** The entries the operating system refuses to delete. */
    const undeletable: set<Path>
    var fs: Fs

    ghost predicate Valid()
      reads this
    {
      WellFormed(fs) && root == Segments(storagePath, windows)
    }

    /** Stores an already resolved path; it serves `New`, which is where the Java constructor's checks are modelled. */
    constructor (storagePath: string, windows: bool, fs: Fs, undeletable: set<Path>)
      requires WellFormed(fs)
      ensures Valid()
      ensures this.storagePath == storagePath && this.windows == windows
      ensures this.fs == fs && this.undeletable == undeletable
    {
      this.storagePath := storagePath;
      this.windows := windows;
      this.root := Segments(storagePath, windows);
      this.undeletable := undeletable;
      this.fs := fs;
    }

    /**
     * `new PersistentObjectStorage(directoryName)`, where `home` and `osName`
     * are the system properties `user.home` and `os.name`. Nothing on disk is
     * touched.
     */
    static method New(directoryName: Option<string>, home: string, osName: string, fs: Fs, undeletable: set<Path>)
      returns (r: Result<PersistentObjectStorage, Exception>)
      requires WellFormed(fs)
      ensures directoryName.None? ==> r == Failure(NullPointer)
      ensures directoryName.Some? && AllBlank(directoryName.value) ==> r == Failure(IllegalArgument)
      ensures r.Success? <==> ResolveStoragePath(directoryName, home, osName).Success?
      ensures r.Success? ==>
        && fresh(r.value) && r.value.Valid()
        && r.value.storagePath == ResolveStoragePath(directoryName, home, osName).value
        && r.value.windows == IsWindows(osName)
        && r.value.fs == fs && r.value.undeletable == undeletable
    {
      var path := ResolveStoragePath(directoryName, home, osName);
      if path.Failure? {
        return Failure(path.error);
      }
      var storage := new PersistentObjectStorage(path.value, IsWindows(osName), fs, undeletable);
      r := Success(storage);
    }

    /** `getStoragePath`: the path fixed at construction, which names the storage directory. */
    function GetStoragePath(): (path: string)
      reads this
      requires Valid()
      ensures Segments(path, windows) == root
    {
      storagePath
    }

    function Marker(): Path {
      root + [MarkerName]
    }

    /** `new File(storagePath, fileName)`. */
    function Target(fileName: string): (t: Path)
      ensures root <= t
      ensures t == root <==> fileName == [] || SeparatorsOnly(fileName, windows)
      ensures IsName(fileName, windows) ==> t == root + [fileName]
    {
      root + Segments(fileName, windows)
    }

    /** `isFirstStart`: the marker file is absent. */
    function IsFirstStart(): (r: bool)
      reads this
      ensures r <==> Target(MarkerName) !in fs
      ensures r ==> forall c :: Read(Some(MarkerName), c) == Failure(FileNotFound)
    {
      assert Target(MarkerName) == Marker() by {
        assert IsName(MarkerName, windows);
      }
      Marker() !in fs
    }

    /** `firstStartFinished`: makes the storage directory and an empty marker file in it, unless the marker exists. */
    method FirstStartFinished() returns (r: Outcome<Exception>)
      requires Valid()
      modifies this
      ensures Valid()
      ensures !old(IsFirstStart()) ==> r == Pass && fs == old(fs)
      ensures old(IsFirstStart()) ==> (r == Pass <==> !Blocked(old(fs), root))
      ensures r == Pass ==> !IsFirstStart()
      ensures r == Pass && old(IsFirstStart()) ==> fs[Marker()] == File(Empty)
      ensures r != Pass ==> r == Fail(IoFailure) && fs == old(fs)
      ensures forall q | q in old(fs) :: q in fs && fs[q] == old(fs)[q]
      ensures forall q | q in fs && q !in old(fs) :: q <= Marker()
    {
      var marker := Marker();
      if marker !in fs {
        fs := Mkdirs(fs, root);
        if IsDir(fs, root) {
          assert Parent(marker) == root;
          fs := fs[marker := File(Empty)];
          r := Pass;
        } else {
          r := Fail(IoFailure);
        }
      } else {
        r := Pass;
      }
    }

    /** `resetFirstStart`: deletes the marker file, reporting whether it did. */
    method ResetFirstStart() returns (deleted: bool)
      requires Valid()
      modifies this
      ensures Valid()
      ensures deleted <==> CanDelete(old(fs), undeletable, Marker())
      ensures old(IsFirstStart()) ==> !deleted
      ensures deleted ==> IsFirstStart() && fs == old(fs) - {Marker()}
      ensures !deleted ==> fs == old(fs)
    {
      var marker := Marker();
      deleted := false;
      if marker in fs {
        if CanDelete(fs, undeletable, marker) {
          DeleteLeafWellFormed(fs, marker);
          fs := fs - {marker};
          deleted := true;
        }
      }
    }

    /** `read`: the object stored under `fileName`, cast to `requested`. */
    function Read(fileName: Option<string>, requested: string): (r: Result<Obj, Exception>)
      reads this
      ensures fileName.None? ==> r == Failure(NullPointer)
      ensures fileName.Some? && SeparatorsOnly(fileName.value, windows) ==> r == Failure(FileNotFound)
      ensures fileName.Some? && !SeparatorsOnly(fileName.value, windows) ==>
        var t := Target(fileName.value);
        && (r == Failure(FileNotFound) <==> !IsFile(fs, t))
        && (r == Failure(EndOfFile) <==> IsFile(fs, t) && fs[t].content.Empty?)
        && (r.Success? ==> IsFile(fs, t) && fs[t].content == Serialized(r.value) && InstanceOf(r.value, requested))
        && ((IsFile(fs, t) && fs[t].content.Serialized? && !InstanceOf(fs[t].content.obj, requested))
              ==> r == Failure(ClassCast))
        && ((IsFile(fs, t) && fs[t].content.Serialized? && InstanceOf(fs[t].content.obj, requested))
              ==> r == Success(fs[t].content.obj))
    {
      if fileName.None? then Failure(NullPointer)
      else if SeparatorsOnly(fileName.value, windows) then Failure(FileNotFound)
      else Lookup(fs, Target(fileName.value), requested)
    }

    /** `write`: makes the directories above the target, then replaces the target with `obj`. */
    method Write(obj: Obj, fileName: Option<string>) returns (r: Outcome<Exception>)
      requires Valid()
      modifies this
      ensures Valid()
      ensures fileName.None? ==> r == Fail(NullPointer)
      ensures r != Pass && (fileName.None? || !SeparatorsOnly(fileName.value, windows)) ==> fs == old(fs)
      ensures fileName.Some? ==>
        var t := Target(fileName.value);
        && (t == [] ==> r == Fail(NullPointer))
        && (t != [] && SeparatorsOnly(fileName.value, windows) ==> r == Fail(FileNotFound) && fs == Mkdirs(old(fs), root))
        && (t != [] ==> (r == Pass <==>
              !SeparatorsOnly(fileName.value, windows) && !Blocked(old(fs), Parent(t)) && !IsDir(old(fs), t)))
        && (t != [] && r != Pass ==> r == Fail(FileNotFound))
        && (r == Pass ==> forall c :: Read(fileName, c) == if InstanceOf(obj, c) then Success(obj) else Failure(ClassCast))
        && (forall q | q in old(fs) && q != t :: q in fs && fs[q] == old(fs)[q])
        && (forall q | q in fs && q !in old(fs) :: q == t || (fs[q] == Dir && q < t))
        && (forall n, c | Target(n) != t :: Read(Some(n), c) == old(Read(Some(n), c)))
    {
      if fileName.None? {
        return Fail(NullPointer);
      }
      var target := Target(fileName.value);
      if target == [] {
        return Fail(NullPointer);
      }
      if SeparatorsOnly(fileName.value, windows) {
        // The path is the storage directory with a trailing separator: `mkdirs`
        // makes the storage directory, which then cannot be opened as a file.
        ghost var before := fs;
        fs := Mkdirs(fs, root);
        forall n, c | Target(n) != target ensures Read(Some(n), c) == old(Read(Some(n), c)) {
          LookupElsewhere(before, fs, Target(n), c);
        }
        return Fail(FileNotFound);
      }
      var parent := Parent(target);
      if IsDir(fs, target) {
        AboveEntryIsDir(fs, parent, target);
      }
      ghost var fs0 := fs;
      fs := Mkdirs(fs, parent);
      if !IsDir(fs, parent) || IsDir(fs, target) {
        return Fail(FileNotFound);
      }
      fs := fs[target := File(Serialized(obj))];
      r := Pass;
      StoreEffect(fs0, target, obj);
      forall n, c | Target(n) != target ensures Read(Some(n), c) == old(Read(Some(n), c)) {
        assert Lookup(fs, Target(n), c) == Lookup(fs0, Target(n), c);
      }
    }

    /** `resetAllData`: deletes the storage directory with everything in it, as far as the system allows. */
    method ResetAllData()
      requires Valid()
      modifies this
      ensures Valid()
      ensures fs == DeleteTree(old(fs), undeletable, root)
      ensures (forall q | q in old(fs) && q in undeletable :: !(root <= q)) ==>
        IsFirstStart() && forall name, c :: Read(Some(name), c) == Failure(FileNotFound)
    {
      var removed := DeleteDirectoryRecursively(root);
    }

    /**
     * `deleteDirectoryRecursivly`: deletes every entry inside `p`, children in
     * whatever order the directory lists them, then `p` itself. `removed` logs
     * the entries actually deleted, in order.
     */
    method DeleteDirectoryRecursively(p: Path) returns (ghost removed: seq<Path>)
      requires WellFormed(fs)
      modifies this
      ensures WellFormed(fs)
      ensures fs == DeleteTree(old(fs), undeletable, p)
      ensures forall q :: q in removed <==> q in Doomed(old(fs), undeletable, p)
      ensures ChildrenFirst(removed)
      decreases Subtree(fs, p) + {p}
    {
      removed := [];
      ghost var fs0 := fs;
      if IsDir(fs, p) {
        var pending := Children(fs, p);
        ghost var done: set<Path> := {};
        while pending != {}
          invariant WellFormed(fs)
          invariant pending !! done && pending + done == Children(fs0, p)
          invariant fs == fs0 - DoomedBelow(fs0, undeletable, p, done)
          invariant forall q :: q in removed <==> q in DoomedBelow(fs0, undeletable, p, done)
          invariant ChildrenFirst(removed)
          decreases pending
        {
          var c :| c in pending;
          SubtreeShrinks(fs0, fs, p, c);
          DoomedStep(fs0, undeletable, p, done, c, fs);
          ghost var sub := DeleteDirectoryRecursively(c);
          DisjointSubtrees(removed, sub, p, done, c);
          removed := removed + sub;
          pending := pending - {c};
          done := done + {c};
        }
        DoomedBelowAll(fs0, undeletable, p);
      } else {
        NothingBelowNonDir(fs0, undeletable, p);
      }
      FinalDelete(fs0, undeletable, p, fs);
      if CanDelete(fs, undeletable, p) {
        DeleteLeafWellFormed(fs, p);
        fs := fs - {p};
        ChildrenFirstThenParent(removed, p);
        removed := removed + [p];
      }
    }
  }
}
