# PersistentObjectStorage in Dafny

A model of `PersistentObjectStorage`, a small Java library that keeps serialized objects as files in a storage directory under the user's home directory. The library also keeps a marker file, `notFirstStart`, whose presence means the application has started before.

The model has seven modules:

- `Wrappers`: the `Option`, `Result` and `Outcome` types. A Java `null` argument is `None`, and a thrown exception is `Failure`/`Fail`.
- `Text`: `String.trim` (strips every character up to U+0020 at both ends) and `String.contains`.
- `Paths`: how `java.io.File` turns a path string into names. The string is split at `/`, and on Windows also at `\`. Empty names between separators and trailing separators are dropped. The one exception is a file name made only of separators: `new File(parent, "/")` keeps a single trailing separator, so the path names the parent and requires it to be a directory.
- `Objects`: stored values tagged with their runtime class, and the cast check a typed `read` performs.
- `FileSystem`: the filesystem as a finite map from paths to directories and files. It includes `File.mkdirs`, `File.delete`'s precondition and `File.listFiles`.
- `TreeDeletion`: what a best-effort bottom-up delete of a tree leaves behind, and the lemmas its proof is built from.
- `ObjectStorage`: the storage itself. The constructor's path resolution is a function. The storage object is a class whose mutable state is the filesystem. `isFirstStart` and `read` are functions that read that state. `firstStartFinished`, `resetFirstStart`, `write`, `resetAllData` and the recursive delete are methods that modify it.

The system properties `user.home` and `os.name` are parameters of construction. So is the set of paths the operating system refuses to delete; it models every `File.delete` failure other than a non-empty directory.

## Model

| member | source | states |
|---|---|---|
| Text.TrimStart | src/PersistentObjectStorage.java:28 | the result is a suffix of the input; everything dropped is blank; the result does not start with a blank |
| Text.TrimEnd | src/PersistentObjectStorage.java:28 | the result is a prefix of the input; everything dropped is blank; the result does not end with a blank |
| Text.Trim | src/PersistentObjectStorage.java:28 | the trimmed name is empty exactly when the name is all blanks; otherwise it neither starts nor ends with a blank, and it is the input with a blank block removed on each side |
| Text.TrimIsStripped | src/PersistentObjectStorage.java:28 | trimming the start and then the end removes one blank block in front and one behind |
| Text.TrimEmptyIffBlank | src/PersistentObjectStorage.java:28-30 | the trimmed name is empty exactly when every character of the name is blank |
| Text.EmptyIffBlank | src/PersistentObjectStorage.java:28-30 | once a blank block is removed from the front and one from the back, nothing is left exactly when the whole string was blank |
| Text.StripBoth | src/PersistentObjectStorage.java:28 | removing a blank front block and then a blank back block leaves a contiguous block of the original |
| Text.Contains | src/PersistentObjectStorage.java:35 | the empty string occurs in every string, and a string only occurs in one at least as long |
| Text.ContainsAt | src/PersistentObjectStorage.java:35 | `contains` holds exactly when the pattern occurs at some index |
| Paths.Segments | src/PersistentObjectStorage.java:57 | `new File(parent, name)` splits the name into non-empty names free of separators; a name with no separator in it is a single name |
| Paths.OneName | src/PersistentObjectStorage.java:68 | a string without separators continues the name being read, so the marker name stays one name |
| Paths.NoNames | src/PersistentObjectStorage.java:115 | a string yields no names exactly when it is empty or holds separators only |
| Paths.SegmentsAreNames | src/PersistentObjectStorage.java:115 | every name of a path string is non-empty and free of separators |
| Paths.SegmentsOfJoin | src/PersistentObjectStorage.java:35 | joining two path strings with a separator concatenates their lists of names |
| FileSystem.AncestorsAreDirs | src/PersistentObjectStorage.java:141 | every directory above an existing entry exists |
| FileSystem.AboveEntryIsDir | src/PersistentObjectStorage.java:141 | any path with an entry below it is a directory |
| FileSystem.BlockedIsNotDir | src/PersistentObjectStorage.java:72 | a path with a file at or above it cannot be a directory |
| FileSystem.Mkdirs | src/PersistentObjectStorage.java:72 | `mkdirs` yields a directory exactly when no file is in the way; when a file is in the way or the directory already exists it changes nothing; it keeps every entry and adds only directories on the way to the path; the tree stays well formed |
| FileSystem.MkdirsWellFormed | src/PersistentObjectStorage.java:141 | adding the missing directories on the way to a path no file blocks keeps the tree well formed |
| FileSystem.CanDelete | src/PersistentObjectStorage.java:89 | `delete` succeeds only on an existing entry whose listing is empty: a file or an empty directory |
| FileSystem.Children | src/PersistentObjectStorage.java:164 | `listFiles` gives exactly the entries whose parent is the directory |
| FileSystem.DeleteLeafWellFormed | src/PersistentObjectStorage.java:173 | deleting a file or an empty directory keeps the tree well formed |
| TreeDeletion.DeleteTree | src/PersistentObjectStorage.java:162-174 | a bottom-up delete keeps every entry outside the tree and removes nothing else; inside the tree it keeps exactly the entries with an undeletable entry at or below them; with nothing undeletable, it leaves nothing at or below the path |
| TreeDeletion.PinnedUnchanged | src/PersistentObjectStorage.java:167-169 | deleting entries that are not pinned never changes which entries are pinned |
| TreeDeletion.DoomedStep | src/PersistentObjectStorage.java:167-169 | deleting one more child's tree removes exactly that child's doomed entries |
| TreeDeletion.SubtreeShrinks | src/PersistentObjectStorage.java:169 | the recursive call on a child runs on a strictly smaller part of the tree |
| TreeDeletion.DoomedBelowAll | src/PersistentObjectStorage.java:164-171 | once every listed child's tree is handled, everything doomed except the directory itself is gone |
| TreeDeletion.NothingBelowNonDir | src/PersistentObjectStorage.java:165 | when `listFiles` gives no listing (not a directory), nothing lies below the path |
| TreeDeletion.FinalDelete | src/PersistentObjectStorage.java:173 | after the children, the final `delete` succeeds exactly when the path is doomed, and the result is the full bottom-up delete |
| TreeDeletion.FinalDeletePinned | src/PersistentObjectStorage.java:173 | a pinned path survives the final `delete`, and the tree is already in its final state |
| TreeDeletion.FinalDeleteDoomed | src/PersistentObjectStorage.java:173 | a doomed path is empty by the time of its final `delete`, which then completes the bottom-up delete |
| TreeDeletion.DisjointSubtrees | src/PersistentObjectStorage.java:167-170 | deleting sibling trees one after another keeps children deleted before their parents |
| TreeDeletion.NotAboveAcross | src/PersistentObjectStorage.java:167-170 | an entry below one child is never above an entry below another child |
| TreeDeletion.ChildrenFirstThenParent | src/PersistentObjectStorage.java:173 | deleting the directory after everything below it keeps children deleted before their parents |
| ObjectStorage.ResolveStoragePath | src/PersistentObjectStorage.java:21-36 | a null name fails with `NullPointerException`; a name that is blank after trimming fails with `IllegalArgumentException`; otherwise the path is the home directory, then `\` when `os.name` contains "Windows" and `/` otherwise, then the trimmed name |
| ObjectStorage.StorageRootUnderHome | src/PersistentObjectStorage.java:35 | the storage directory lies below the home directory; its names are the home's names followed by the trimmed name's names |
| Objects.InstanceOf | src/PersistentObjectStorage.java:118 | a non-null value casts to its own class; to any other class that is not `Object` or `Serializable` it does not |
| ObjectStorage.Lookup | src/PersistentObjectStorage.java:115-118 | reading a path fails with `FileNotFoundException` exactly when no regular file is there, with `EOFException` exactly when the file is empty, with `ClassCastException` when the stored value is not of the requested class, and otherwise returns the stored value |
| ObjectStorage.LookupStored | src/PersistentObjectStorage.java:143-146 | after a value is written to a path, reading the path gives that value for every class it belongs to and `ClassCastException` for every other |
| ObjectStorage.LookupElsewhere | src/PersistentObjectStorage.java:115 | a read depends only on the entry at its own path |
| ObjectStorage.StoreEffect | src/PersistentObjectStorage.java:140-146 | `mkdirs` then writing the file keeps the tree well formed, reads the new value back, leaves reads of every other path and every other entry unchanged, and adds only directories above the target |
| ObjectStorage.PersistentObjectStorage.New | src/PersistentObjectStorage.java:21-36 | construction fails with `NullPointerException` or `IllegalArgumentException` exactly as path resolution does; on success the new storage holds the resolved path and touches nothing on disk |
| ObjectStorage.PersistentObjectStorage.GetStoragePath | src/PersistentObjectStorage.java:44-47 | the returned path names the storage directory the other operations work in |
| ObjectStorage.PersistentObjectStorage.Target | src/PersistentObjectStorage.java:115 | `new File(storagePath, fileName)` lies at or below the storage directory; it is the storage directory itself exactly when the name is empty or holds separators only; a plain name is one entry directly inside it |
| ObjectStorage.PersistentObjectStorage.IsFirstStart | src/PersistentObjectStorage.java:55-58 | true exactly when nothing exists at the path `new File(storagePath, "notFirstStart")` names; then reading that name fails with `FileNotFoundException` |
| ObjectStorage.PersistentObjectStorage.FirstStartFinished | src/PersistentObjectStorage.java:66-75 | if the marker exists, it succeeds and changes nothing (idempotent); otherwise it succeeds exactly when no file blocks the storage directory, and afterwards an empty marker exists and `isFirstStart` is false; on failure it throws an `IOException` and changes nothing; it keeps every entry and adds only the marker and directories above it |
| ObjectStorage.PersistentObjectStorage.ResetFirstStart | src/PersistentObjectStorage.java:83-93 | it returns true exactly when the marker existed and could be deleted; an absent marker gives false; on true, `isFirstStart` becomes true and only the marker is gone; on false, nothing changes |
| ObjectStorage.PersistentObjectStorage.Read | src/PersistentObjectStorage.java:113-124 | a null name fails with `NullPointerException`; a name of separators only fails with `FileNotFoundException`, since its path is a directory path; otherwise it fails with `FileNotFoundException` exactly when no regular file exists at the target; an empty file fails with `EOFException`; a stored value of another class fails with `ClassCastException`; a stored value of the requested class is returned, and every success is such a value |
| ObjectStorage.PersistentObjectStorage.Write | src/PersistentObjectStorage.java:138-150 | a null name fails with `NullPointerException`, and so does a target that has no parent; a name of separators only makes the storage directory and then fails with `FileNotFoundException`; any other name succeeds exactly when no file blocks the parent directory and the target is not a directory, and otherwise fails with `FileNotFoundException` without changing anything; after success, reading the name gives the written value for every class it is an instance of and `ClassCastException` for every other; other entries are unchanged except for the parent directories it creates; reads of every other name are unchanged |
| ObjectStorage.PersistentObjectStorage.ResetAllData | src/PersistentObjectStorage.java:157-160 | the filesystem becomes the bottom-up delete of the storage directory; when nothing in it is undeletable, `isFirstStart` is true afterwards and every read fails with `FileNotFoundException` |
| ObjectStorage.PersistentObjectStorage.DeleteDirectoryRecursively | src/PersistentObjectStorage.java:162-174 | children are deleted recursively in whatever order `listFiles` gives, then the path itself; the result is exactly the bottom-up delete of the tree; the entries removed are exactly the doomed ones; each is removed before any directory above it |

## Left out

- The Java serialization byte format is not modelled. A stored file holds one value tagged with its class. `InvalidClassException`, `StreamCorruptedException`, `OptionalDataException` and `ClassNotFoundException` therefore never arise.
- ObjectStorage.PersistentObjectStorage.Read: the cast check knows exact classes and the two classes every stored value belongs to (`java.lang.Object` and `java.io.Serializable`). It does not model a class hierarchy, so a cast to a superclass or interface other than those two is a `ClassCastException` in the model. The unchecked cast really happens at the caller, because of erasure; the model places it in `read`.
- Closing the streams, and I/O errors other than those named in the model (disk full, permission denied on create), are not modelled. `mkdirs` and `createNewFile` fail only when a file is in the way.
- `File.delete` failures other than a non-empty directory are modelled by a fixed set of undeletable paths. The ordering of `listFiles`, which is unspecified, is a nondeterministic choice.
- Symbolic links are not modelled: the filesystem is a tree.
- Path names `.` and `..` are ordinary names and are not resolved. Windows drive letters and UNC prefixes are not interpreted, and a relative home directory is read from the filesystem root.
- ObjectStorage.PersistentObjectStorage.Target: on Windows, a file name of two or more separators resolves to the storage directory itself, with no trailing separator. The model treats it like a single separator, as on Unix-like systems.
- The values of `user.home` and `os.name`, and the initial filesystem, are parameters. The filesystem belongs to the storage object, so two storage objects do not share one disk.
- Concurrent access from other processes or threads is not modelled.
- `main` is empty and is not modelled.
- ObjectStorage.PersistentObjectStorage.ResetAllData: states that every read fails and `isFirstStart` is true only when nothing in the storage directory is undeletable. Otherwise it only states the bottom-up delete, because the library itself promises nothing when a delete fails.
