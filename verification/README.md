# Filesystem object backend, modelled in Dafny

This project models the filesystem object backend of a content-addressed
object store (`src/obj-backend-fs.c`). An object is a byte string named by a
40-character hexadecimal identifier. Construction creates two roots:

- the legacy root `seaf_dir/obj_type`, used for version 0 and below;
- the storage root `seaf_dir/storage/obj_type`, below which each store has
  its own directory `<store>` for positive versions.  That directory is
  created by the first write into the store, not at construction.

Under either root an object sits in a two-character fan-out directory, in a
file named by the remaining 38 characters.

The model runs over an abstract filesystem (`FileSystem`). A path is a
sequence of entry names, and the tree is a map from paths to `File(bytes)` or
`Dir`. Everything the tree alone does not decide is handed in as an explicit
oracle:

- the order in which readdir lists a directory;
- directories that exist but will not open;
- entries whose unlink or rmdir is refused;
- files whose contents cannot be read (g_file_get_contents failing with, say,
  EACCES or EIO on a regular file that is present);
- for a write, the outcome of every fallible system call (`WriteFaults`): the
  mkdir budget, the temporary-name suffix, mkstemp, a short writen, fsync of
  the file, close, rename, opening the directory, fsync of the directory, and
  the unlink of the old object.

Each operation is a pure function.

- Read, exists and delete live in `object_ops.dfy`.
- Path resolution and construction live in `layout.dfy`.
- The write protocol is in `durable_write.dfy`. It returns the C result, the
  branch that ended the write, and the state at every step boundary. A crash
  between two steps leaves behind one of those states; a crash inside a step
  (during `writen`, between two mkdir calls) is not modelled.
- `foreach_obj` and `remove_store` are two-level recursive walks over listing
  sequences (`walks.dfy`).
- Properties that relate several operations are in `properties.dfy`.

Behaviour of the code worth knowing, all of it modelled as written:

- In the durable mode, a directory fsync error other than EINVAL after the
  rename returns -1 although the object path already holds the new content
  (`DurableWrite.CommitDecided`).
- In the non-durable mode, the old object is unlinked before the rename, so
  the object path is briefly empty; when the rename then fails, the path stays
  empty.
- `exists` is a `stat` probe, so a directory at the object path also counts as
  present.
- `create_parent_path` accepts a parent that exists in any form, including a
  file. The write then fails at the temporary file.
- `remove_store` returns 0 even when some entries could not be removed: a
  refused unlink, or a first-level directory that holds a directory. Nothing
  is left below the store root only for the two-level trees this backend
  writes itself (`Walks.RemoveStoreComplete`).
- `id_to_path` copies 39 bytes from offset 2 of the identifier (the last 38
  characters and the terminating NUL). A shorter identifier reads past its
  end, and a longer one, such as the `<id>.<suffix>` names a walk hands out
  for a leftover temporary file (`Properties.LeftoverTempIsEnumerated`), is
  copied without its tail and without a terminator. The model resolves only
  valid 40-character identifiers (`Layout.ValidObjId`).

## Model

| member | source | states |
|---|---|---|
| Layout.IdToPath | src/obj-backend-fs.c:19-40 | concatenating the last two components of the object path (the fan-out name and the remainder) gives back the identifier; the full shape of the path is `Layout.PathLayout` |
| Layout.LayoutRoot | src/obj-backend-fs.c:330-333 | the root a walk opens is `v0_obj_dir` for version 0 and below, and otherwise the store's own directory, one component below `obj_dir` |
| Layout.PathLayout | src/obj-backend-fs.c:19-40 | the object path is the layout root, then a valid 2-character fan-out name, then a valid 38-character name; concatenating the last two components gives back the identifier |
| Layout.PathPrefixes | src/obj-backend-fs.c:26-37 | the object path is two components longer than its layout root; it extends the root and the root plus the fan-out directory |
| Layout.LegacyIgnoresStore | src/obj-backend-fs.c:29-33 | for versions at or below 0 the store is ignored: every store and every such version resolves an identifier to `v0_obj_dir/ab/rest` |
| Layout.IdToPathInjective | src/obj-backend-fs.c:19-40 | within one version, equal paths mean equal identifiers, and for positive versions also equal stores |
| Layout.LayoutsDisjoint | src/obj-backend-fs.c:26-33 | for a backend built from one directory, a legacy object path is two components shorter than a per-store path and is not a prefix of it, so the layouts never share a path |
| Layout.StoreOwnsItsPaths | src/obj-backend-fs.c:26-28 | a positive-version object path lies below `obj_dir/store`, with the store at the component after `obj_dir` |
| Layout.New | src/obj-backend-fs.c:418-462 | a backend is returned exactly when every component of both roots is a directory afterwards; its roots are `seaf_dir/obj_type` and `seaf_dir/storage/obj_type`; existing roots leave the tree unchanged; only directories on the way to the roots are added; well-formedness is kept |
| Layout.NewSucceeds | src/obj-backend-fs.c:434-453 | with no file among the roots' components and a mkdir call granted for each, construction returns the backend |
| FileSystem.MkdirWithParents | src/obj-backend-fs.c:434-444 | succeeds exactly when every component of the directory is a directory afterwards; it fails when fewer mkdir calls are granted than components are missing, and a failure leaves the directory itself as it was; it adds only directories along the path and is a no-op when they all exist |
| FileSystem.MissingFromIgnoresShallow | src/obj-backend-fs.c:434-444 | creating a directory at one level does not change how many components below that level are missing |
| FileSystem.MkdirWithParentsSucceeds | src/obj-backend-fs.c:237 | with no file on the way and enough granted mkdir calls, the directory creation returns 0 |
| FileSystem.MkdirWithParentsKeepsWellFormed | src/obj-backend-fs.c:237 | directory creation keeps every entry hanging off a directory |
| FileSystem.Unlink | src/obj-backend-fs.c:311 | an unrefused file is removed and nothing else changes; a directory, a missing entry or a refused file leaves the tree unchanged |
| FileSystem.Rmdir | src/obj-backend-fs.c:407 | the directory disappears exactly when it is an unrefused directory with nothing below it; the result is the tree or the tree without that entry, so a missing path stays missing and nothing else changes |
| FileSystem.Rename | src/obj-backend-fs.c:215 | the destination takes the source's node in one step and the source disappears; nothing else changes |
| ObjectOps.ToCInt | src/obj-backend-fs.c:78 | the `(int)` cast is the identity up to INT_MAX and agrees with the length modulo 2^32 |
| ObjectOps.LoadFile | src/obj-backend-fs.c:58-59 | loading succeeds exactly on a regular file whose contents the system hands out, and hands back that content |
| ObjectOps.Read | src/obj-backend-fs.c:42-80 | a read loads exactly when the resolved path is a readable file, or, in the MIGRATION build, when the version-1 path is; the bytes come from the path that loaded; the length equals the size when the size fits an int; in the default build a missing or unreadable object returns -1 |
| ObjectOps.Exists | src/obj-backend-fs.c:285-300 | true exactly when something is present at the resolved path; whatever a read loads exists, whatever the read faults |
| ObjectOps.Delete | src/obj-backend-fs.c:302-312 | only the resolved path changes; an unrefused file is then neither present nor readable; otherwise the tree is unchanged |
| ObjectOps.DeleteIdempotent | src/obj-backend-fs.c:302-312 | deleting twice leaves the same tree as deleting once |
| DurableWrite.TempPath | src/obj-backend-fs.c:180 | the temporary file is a sibling of the object whose name is the object's name, a dot and the suffix; it never equals the object path |
| DurableWrite.FsyncObjContents | src/obj-backend-fs.c:85-101 | fsync fails exactly on an error other than EINVAL |
| DurableWrite.CreateParentPath | src/obj-backend-fs.c:225-246 | a parent present in any form is a no-op returning 0; the result is 0 exactly when the parent is present afterwards, and a directory when it had to be created; a missing parent with fewer mkdir calls granted than components missing gives -1; only directories on the way are added |
| DurableWrite.CreateParentSucceeds | src/obj-backend-fs.c:232-245 | with no file among the path's ancestors and enough mkdir calls granted, the parent is a directory and the result is 0 |
| DurableWrite.ParentCreationSparesObject | src/obj-backend-fs.c:225-246 | creating the parent never changes the object path or its temporary path |
| DurableWrite.RenameAndSync | src/obj-backend-fs.c:121-157 | the rename is the commit point; it fails exactly when refused or when a directory is in the way, leaving the tree unchanged; afterwards the path holds the temporary file's content and the temporary file is gone; the run then fails exactly on a directory fsync error other than EINVAL on a directory that opened; no other path changes |
| DurableWrite.CommitTemp | src/obj-backend-fs.c:204-220 | the commit step returns 0 exactly when it commits, and then the path holds the temporary file's content and the temporary file is gone; it ends with a rename failure exactly when the rename is refused or a directory is in the way, and with a directory-sync failure exactly in the durable case above; in the non-durable mode an old file that may be unlinked is absent in the state after the unlink |
| DurableWrite.CommitTempDecided | src/obj-backend-fs.c:204-220 | the commit step's outcome is decided by the rename and the directory fsync as `CommitDecided` states: both directions of each failure, success exactly otherwise, and the non-durable window in which the object path is empty |
| DurableWrite.DecidedAfterPrefix | src/obj-backend-fs.c:204-220 | how the commit step decides a run is kept when earlier steps that did not touch the object path are prepended |
| DurableWrite.SaveReachesCommit | src/obj-backend-fs.c:180-204 | when mkstemp, writen, the file fsync and close are all granted, save_obj_contents ends as its commit step, after the states of creating and filling the temporary file, with the object path untouched |
| DurableWrite.SaveCommitStep | src/obj-backend-fs.c:204-220 | once a save reaches the commit step, a refused rename or a directory at the path fails it, a durable directory fsync error fails it after the rename, in the non-durable mode an old object file whose unlink is granted is absent in some intermediate state, and anything else commits |
| DurableWrite.WriteReachesSave | src/obj-backend-fs.c:259-271 | with no file among the object's ancestors, enough mkdir budget and a free temporary name, a write is the save that follows a successful parent creation, which leaves the object path alone |
| DurableWrite.WriteCommitStep | src/obj-backend-fs.c:204-220 | for a whole write that reaches the commit step, the rename and the directory fsync decide the outcome as in SaveCommitStep, judged on the state before the write |
| DurableWrite.CommitOutcome | src/obj-backend-fs.c:204-220 | after a failed rename, the temporary file is still there; the object path is empty if the non-durable mode unlinked an old file, and otherwise unchanged; a directory-sync failure happens only in the durable mode, with the new content already in place |
| DurableWrite.CommitTrace | src/obj-backend-fs.c:204-220 | every state of the commit step differs only at the object and temporary paths; the object path holds its old entry, the new content, or (non-durable mode only) nothing |
| DurableWrite.SaveObjContents | src/obj-backend-fs.c:174-223 | the result is 0 exactly when the save commits, and then the object path holds exactly the written bytes |
| DurableWrite.SaveOutcome | src/obj-backend-fs.c:180-220 | for each failure point, what stays at the object path (unchanged before the commit step); the temporary file is left behind on the write, fsync, close and rename failures; it is gone after success |
| DurableWrite.SaveTrace | src/obj-backend-fs.c:174-223 | every state of a save holds no partial content at the object path, and differs from the start only at the object and temporary paths |
| DurableWrite.SaveSucceeds | src/obj-backend-fs.c:180-222 | inside an existing directory, with a free temporary name and every call granted, the save returns 0 |
| DurableWrite.Write | src/obj-backend-fs.c:248-283 | the write returns 0 exactly when it commits, and then the object path holds exactly the written bytes |
| DurableWrite.WriteAt | src/obj-backend-fs.c:265-275 | once the path is resolved, parent creation then the save: the result is 0 exactly when the save commits, and then the object path holds exactly the written bytes |
| DurableWrite.PlacedWriteTrace | src/obj-backend-fs.c:265-275 | for a resolved path, every step boundary of parent creation and save holds the old or the complete new content and touches nothing but the object, its temporary file and new directories above it |
| DurableWrite.ParentStepTouches | src/obj-backend-fs.c:225-246 | parent creation adds only directories that lie on the way down to the object |
| DurableWrite.WriteOutcome | src/obj-backend-fs.c:265-275 | what a write leaves at the object path for each way it can end, and where the temporary file is left |
| DurableWrite.WriteTrace | src/obj-backend-fs.c:248-283 | crash safety: at every step boundary the object path holds its old content or the complete new content (non-durable mode: possibly nothing); only the object, its temporary file and new directories above it have changed |
| DurableWrite.CommitAdmissible | src/obj-backend-fs.c:204-220 | every state of the commit step keeps the object path free of partial content and changes only the object and temporary paths, judged against the state before the save |
| DurableWrite.TempOnlyAdmissible | src/obj-backend-fs.c:181-202 | a step that changes only the temporary file keeps the object path's guarantee |
| DurableWrite.TouchesCompose | src/obj-backend-fs.c:265-275 | parent creation followed by an admissible save step stays within what the write may touch |
| DurableWrite.RenameKeepsWellFormed | src/obj-backend-fs.c:215 | renaming the temporary file over a non-directory in the same directory keeps the tree well formed |
| DurableWrite.CommitKeepsWellFormed | src/obj-backend-fs.c:204-220 | every state of the commit step is well formed |
| DurableWrite.SaveKeepsWellFormed | src/obj-backend-fs.c:174-223 | every state of a save is well formed |
| DurableWrite.WriteKeepsWellFormed | src/obj-backend-fs.c:248-283 | every state of a write is well formed |
| DurableWrite.WriteFailurePoints | src/obj-backend-fs.c:180-269 | a write stops at parent creation exactly when create_parent_path fails, which a missing parent with too few mkdir calls granted forces; that or a failing mkstemp, short writen, file fsync error (not EINVAL) or close returns -1 and leaves the object path as it was; when every call is granted in an existing directory, the write returns 0 |
| DurableWrite.ParentFailurePoint | src/obj-backend-fs.c:265-269 | for a resolved path, the write stops at parent creation exactly when create_parent_path fails, which a missing parent with too few mkdir calls granted forces; it then returns -1 with the object path as it was |
| DurableWrite.SaveFailurePoints | src/obj-backend-fs.c:180-202 | for a resolved path, a failing mkstemp, short writen, file fsync error or close returns -1 with the object path as it was |
| DurableWrite.PlacedWriteSucceeds | src/obj-backend-fs.c:174-223 | for a resolved path in an existing directory, with a free temporary name, no directory at the object path and every call granted, the write returns 0 |
| DurableWrite.WriteCommitted | src/obj-backend-fs.c:248-283 | after a successful write the tree is well formed, the object holds the bytes, no temporary file is left, and nothing else changed except new directories above the object |
| DurableWrite.WriteSucceeds | src/obj-backend-fs.c:248-283 | with no file among the object's ancestors, a free temporary name, no directory at the object path and every call granted, the write returns 0 |
| Walks.VisitAll | src/obj-backend-fs.c:353-358 | the identifiers handed to the callback are a prefix of the input; the walk covers all of them unless stopped, and a stop comes after at least one visit |
| Walks.VisitAllVerdicts | src/obj-backend-fs.c:355-357 | the callback accepted every identifier but the last; a stopped walk ends on the one it refused; an unstopped walk had all accepted |
| Walks.VisitAllAppend | src/obj-backend-fs.c:344-361 | a stop in the first part of a list ends the walk there; otherwise the second part continues where the first left off |
| Walks.VisitEntriesIsFlat | src/obj-backend-fs.c:353-359 | the inner loop is the reference walk over that directory's identifiers |
| Walks.VisitDirsIsFlat | src/obj-backend-fs.c:344-361 | the nested loops are the reference walk over the identifiers of every openable first-level directory, in order; unopenable ones contribute nothing |
| Walks.VisitEntries | src/obj-backend-fs.c:353-359 | the inner loop keeps the identifiers visited before; each new identifier is the first-level name followed by the next listed entry, in listing order; it covers the whole listing unless stopped |
| Walks.VisitDirs | src/obj-backend-fs.c:344-361 | the outer loop keeps the identifiers visited before; a stop comes after a visit; when no listed first-level entry opens, nothing is visited |
| Walks.ForeachObj | src/obj-backend-fs.c:314-369 | the return value is always 0; a root that does not open gives no visits |
| Walks.ForeachObjVisits | src/obj-backend-fs.c:330-368 | the visited identifiers are a prefix of the full enumeration; every identifier but the last was accepted; the walk stops exactly on a refusal and otherwise visits the whole enumeration; the result is 0 |
| Walks.ForeachObjComplete | src/obj-backend-fs.c:344-361 | a callback that never stops is handed the full enumeration in listing order |
| Walks.ForeachObjStopsAtFirst | src/obj-backend-fs.c:355-357 | a callback that always refuses sees exactly the first identifier, if there is one |
| Walks.PairsUnderListed | src/obj-backend-fs.c:344-361 | the pairs reached are exactly those listed inside first-level entries that open |
| Walks.PairsUnderNoDup | src/obj-backend-fs.c:344-361 | each pair is reached at most once when listings name each entry once |
| Walks.AllPairsAreReachable | src/obj-backend-fs.c:330-368 | with faithful listings each pair is reached once; on a root that opens, the pairs reached are exactly the second-level entries of the tree inside openable first-level directories |
| Walks.ForeachObjFindsEntry | src/obj-backend-fs.c:336-359 | with faithful listings and open directories, every second-level entry is visited as the concatenation of its two names |
| Walks.ClearOne | src/obj-backend-fs.c:391-407 | one pass of the outer loop only removes entries, and only the entry itself and what lies below it; nothing but the entry and its listed children changes; no unrefused listed file is left directly inside; well-formedness is kept |
| Walks.UnlinkEach | src/obj-backend-fs.c:400-404 | only listed files directly inside the directory can disappear, and every unrefused listed file does; failures are ignored |
| Walks.RemoveSubdirs | src/obj-backend-fs.c:388-409 | the outer loop returns 0 or -1; what it removes and when it fails are stated by the lemmas below |
| Walks.RemoveSubdirsFails | src/obj-backend-fs.c:391-398 | with each entry listed once, the loop fails exactly when a listed first-level entry does not open |
| Walks.RemoveSubdirsFailureFrame | src/obj-backend-fs.c:391-398 | when it fails, everything outside the entries before the unopenable one is left as it was |
| Walks.RemoveSubdirsShrinks | src/obj-backend-fs.c:388-409 | the loop only removes entries, and only below the store root |
| Walks.RemoveSubdirsLocal | src/obj-backend-fs.c:388-409 | nothing outside the given first-level entries changes |
| Walks.RemoveSubdirsKeepsWellFormed | src/obj-backend-fs.c:388-409 | the loop keeps the tree well formed |
| Walks.ClearOneLocal | src/obj-backend-fs.c:389-407 | clearing one first-level entry leaves everything outside its subtree as it was |
| Walks.ClearOneShrinks | src/obj-backend-fs.c:389-407 | clearing one first-level entry only removes, and only below the store root |
| Walks.ClearOneSparesRest | src/obj-backend-fs.c:388-409 | after one entry is cleared, the entries listed after it and their contents are as they were |
| Walks.ClearOneKeepsListings | src/obj-backend-fs.c:388-409 | the later entries' listings still describe them |
| Walks.ClearOneEmpties | src/obj-backend-fs.c:400-407 | with a faithful listing, no unrefused file is left directly inside the cleared entry |
| Walks.ClearOneRemovesAll | src/obj-backend-fs.c:400-407 | on a two-level tree, clearing an entry removes it and everything inside it |
| Walks.RemoveSubdirsClears | src/obj-backend-fs.c:388-409 | when the loop succeeds, every second-level entry left is a directory or a refused file |
| Walks.ClearsCompose | src/obj-backend-fs.c:388-409 | the guarantee for the first entry and for the rest combine into one for all entries |
| Walks.TouchedFrameCompose | src/obj-backend-fs.c:388-409 | the frames of two successive iterations combine |
| Walks.RemoveSubdirsComplete | src/obj-backend-fs.c:388-409 | on a two-level tree the loop succeeds and removes every listed entry with its contents |
| Walks.FirstUnopenable | src/obj-backend-fs.c:391-398 | the index of the first listed entry that does not open: every earlier one opens |
| Walks.FirstUnopenableFrame | src/obj-backend-fs.c:391 | that index depends only on the first-level entries themselves |
| Walks.BelowRootIsListed | src/obj-backend-fs.c:388 | in a well-formed tree with a faithful root listing, every entry below the root is inside a listed first-level entry |
| Walks.RemoveTree | src/obj-backend-fs.c:382-415 | only entries at or below the root can disappear, nothing appears or changes; a root that does not open returns 0 unchanged; well-formedness is kept |
| Walks.RemoveStore | src/obj-backend-fs.c:371-416 | only paths at or below `obj_dir/store` can disappear; a root that does not open is success with no change |
| Walks.RemoveStoreFailure | src/obj-backend-fs.c:382-398 | -1 exactly when the root opens and some listed first-level entry does not; then everything outside the entries before it is unchanged |
| Walks.RemoveStoreClears | src/obj-backend-fs.c:400-415 | after success on a root that opened, every second-level entry left is a directory or a refused file |
| Walks.RemoveStoreComplete | src/obj-backend-fs.c:371-416 | on a two-level store tree with nothing refused, remove_store returns 0 and removes the root with everything below it; a second call is then a no-op returning 0 |
| Properties.WriteThenRead | src/obj-backend-fs.c:54-79 | after a successful write the object exists; a read in either build returns exactly the written bytes with their length when the system lets the file be read, and in the default build fails when it does not |
| Properties.OtherObjectPathApart | src/obj-backend-fs.c:19-40 | another object's path is neither this object's temporary file nor a directory above it |
| Properties.WriteSparesOtherObjects | src/obj-backend-fs.c:248-283 | at every step of a write, every other object's entry, existence and read result are as before |
| Properties.VersionIsolation | src/obj-backend-fs.c:26-33 | a write in one layout does not change existence or reads of the same identifier in the other layout |
| Properties.WriteThenForeach | src/obj-backend-fs.c:344-359 | a successfully written identifier is enumerated by a walk that never stops |
| Properties.LeftoverTempIsEnumerated | src/obj-backend-fs.c:180-202 | a write that fails after creating its temporary file leaves a name that the walk hands out as an identifier that is not 40 characters long |
| Properties.TempPathLayout | src/obj-backend-fs.c:180 | the temporary file sits in the object's fan-out directory, and its identifier is the object's followed by a dot and the suffix |
| Properties.RemoveStoreErasesObjects | src/obj-backend-fs.c:400-404 | after remove_store succeeds on an opened root with faithful listings, an object file of that store that was not refused is neither present nor readable |
| Properties.RemoveStoreSparesOthers | src/obj-backend-fs.c:380 | remove_store never changes the legacy root, a legacy object, or an object of another store |
| Properties.NewKeepsShallow | src/obj-backend-fs.c:434-444 | construction adds only directories no deeper than the storage root |
| Properties.FreshStoreIsTwoLevel | src/obj-backend-fs.c:248-283 | a store that a single write created on shallow directories is two-level |
| Properties.FaithfulRemovalClears | src/obj-backend-fs.c:371-416 | with faithful listings, remove_store removes a two-level store root completely |
| Properties.ExampleConstruction | src/obj-backend-fs.c:428-444 | a backend for "blocks" under top directory "top" has roots `top/blocks` and `top/storage/blocks` |
| Properties.ExampleIdShape | src/obj-backend-fs.c:35-39 | "aa" followed by 38 zeros is a valid identifier in bucket "aa" |
| Properties.ExampleWrite | src/obj-backend-fs.c:248-283 | a durable write of "hello" to store "repo1", version 1, lands at `top/storage/blocks/repo1/aa/<rest>`; with reads granted, a read returns the 5 bytes and the object exists |
| Properties.RemoveFreshStore | src/obj-backend-fs.c:371-416 | after a write into a fresh store, remove_store with faithful listings returns 0, the object no longer exists, and nothing is left at or below the store root |

## Left out

- The Apple build (`fcntl(F_FULLFSYNC)` and the plain rename at lines 103-112 and 159-170) is not modelled; only the Linux branches are. On Apple every fsync error is fatal.
- The randomness of `g_mkstemp`: the substituted characters are a parameter (`tmpSuffix`), and a name that is already taken is a mkstemp failure.
- The byte loop of `writen`: a short write is a failure after some number of bytes, leaving that prefix in the temporary file.
- Leaked file descriptors on the error paths, logging, and freeing memory.
- `SEAF_PATH_MAX` and the `obj_id[128]` truncation in `foreach_obj`: paths and identifiers are unbounded.
- Concurrency between writers and walkers, and crash durability of the disk: a crash is modelled only as the state at a step boundary.
- readdir runs over a listing taken when the directory is opened. Entries that appear or vanish during a walk are not modelled.
- The callback's `(repo_id, version, obj_id, user_data)` arguments: the visitor sees the identifiers visited so far and the next one. The store and the version are fixed for the walk.
- The `ObjBackend` function table set at construction (lines 446-451): the backend is the pair of roots, and the operations are functions over it.
- The NULL return of `g_path_get_dirname`, which cannot occur for a non-empty path.
- glib and the libc calls themselves are not part of this model; they become the operations and oracles of `FileSystem`.
- Names are single path segments: an object type, store id or seaf_dir containing `/` is not modelled, and neither is an empty, `.` or `..` store id. The source builds `obj_dir//ab/...` for an empty store id (line 27), which the system resolves as `obj_dir/ab/...`, and `g_build_filename` drops the empty element (lines 331 and 380); the model keeps `""` as a component of its own.
- Walks.RemoveSubdirs: its own contract bounds only the result; the removals, the failure condition and the frame are the lemmas `Walks.RemoveSubdirsShrinks`, `Walks.RemoveSubdirsFails`, `Walks.RemoveSubdirsFailureFrame` and `Walks.RemoveSubdirsClears`, kept apart to keep each proof small.
- Walks.VisitDirs: its own contract states only the prefix and the skipping of unopenable entries; what it visits is `Walks.VisitDirsIsFlat`.
- Walks.ForeachObjFindsEntry: the set-equality of enumeration holds only under a faithful readdir oracle and with openable directories; for an arbitrary oracle it is stated over the listings (`Walks.PairsUnderListed`).
- Walks.RemoveStoreClears: it states only what is left at the second level after success. First-level directories that held a directory, and the root, may remain when rmdir fails silently. Complete removal is proved for two-level trees only (`Walks.RemoveStoreComplete`).
- Properties.ExampleWrite: the worked example starts from any tree of directories no deeper than three components (which `Properties.ExampleConstruction` produces), not from the literal constructed state.
