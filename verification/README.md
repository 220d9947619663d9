# trash-rs core, modelled in Dafny

This project models the core of `trash`, a Rust library that moves files and folders to the
operating system's trash and lists, purges and restores trashed items. It covers four parts:

- **The front end** (`src/lib.rs`). Target paths are canonicalized before any platform code
  runs. `TrashItem` has its identity, hash and `original_path`, and `TrashItemSize` has its
  accessors. `os_limited::restore_all` checks for twins.
- **The freedesktop.org engine** (`src/freedesktop.rs`). It covers choosing the mount's
  `topdir` and the home trash, checking a `.Trash` folder's validity, and the candidate-name
  loop of `move_to_trash` with its info file and its move. It also covers listing info files,
  purging, and restoring with collision detection. It runs over an abstract Unix file system
  (`AbstractFs`): a finite map from paths to files, directories and symbolic links, offering the
  `create_new`, `create_dir`, `create_dir_all`, `remove_file`, `remove_dir_all` and POSIX
  `rename` operations the engine calls.
- **The URI path component** (`src/uri_path.rs`, `src/uri_path/utility.rs`). It covers segment
  and path parsing with their counters, and percent-encoding-insensitive equality and hashing.
  It also covers escape normalization, `push`, `pop`, `clear`, `is_normalized`,
  `remove_dot_segments` and `normalize`.
- **The platform back ends.**
  - macOS (`src/macos/mod.rs`): the context, `esc_quote` and `percent_encode`. It also covers
    the Finder script, reading `osascript` and OSAKit results back into items, and
    `NSFileManager`.
  - The older macOS back end (`src/macos/macos.rs`).
  - Windows (`src/windows.rs`): parsing names, file times and deletion dates, listing, and the
    delete, purge and restore batches.

Bytes are `int`s in `0..255`; a path is a sequence of components (`FsPaths`). The operating
system, the clock, the `url` and `chrono` crates, the shell and the script runners are
parameters of the operations that use them. Panics (`unwrap`, `expect`, `assert!`, `panic!`) become the
error value `Panic`. Where the source has a defect, the model keeps the code as written next to
a corrected definition; see "Findings". Each operation that runs end to end through such a
defect takes a flag `corrected`: `false` follows the code as written and `true` applies the
corrections. A lemma named `...Agrees` states the conditions under which the two give the same
result.

## Model

| member | source | states |
|---|---|---|
| Trash.OriginalPathParts | src/lib.rs:296-298 | `original_path` is the parent joined with the name; for a plain name it takes apart into exactly that parent and name |
| Trash.ItemIdentity | src/lib.rs:300-310 | item equality is an equivalence on ids alone; equal items hash alike; renaming, moving or re-dating an item keeps it the same item |
| Trash.SizeAccessors | src/lib.rs:321-337 | exactly one of `size`/`entries` answers, and the answer determines the size value |
| Trash.CanonicalizeOne | src/lib.rs:235-256 | the empty target and an uncanonicalizable parent give `CanonicalizePath`; an unreadable working directory gives `CouldNotAccess`; a target without a parent gives `TargetedRoot`; otherwise it gives the canonical parent joined with the file name, or the parent alone when there is no name |
| Trash.CanonicalizePathsInOrder | src/lib.rs:228-258 | canonicalization succeeds exactly when every target does, keeping input order; a failure reports the first failing target's error |
| Trash.Delete | src/lib.rs:84-116 | `delete(p)` hands exactly the one canonicalized path to the platform, or nothing when canonicalizing fails |
| Trash.CanonicalizeLetsRootThrough | src/lib.rs:247-255 | as written, `/..` canonicalizes to the root `/` instead of giving `TargetedRoot` |
| Trash.CanonicalizeOneChecked | src/lib.rs:155-158 | the corrected canonicalization never yields the root and otherwise agrees with the one as written |
| Trash.CheckedRefusesRoot | src/lib.rs:155-158 | with the root check, `/..` gives `TargetedRoot` |
| Trash.CheckTwins | src/lib.rs:519-543 | restoring proceeds exactly when no two items share an original path; otherwise `RestoreTwins` names the first repeated path and carries the whole list |
| AbstractFs.CreateNew | src/freedesktop.rs:375-383 | an exclusive create succeeds exactly when the parent is a directory and the path is free; on an existing path it fails with `AlreadyExists` |
| AbstractFs.CreateDir | src/freedesktop.rs:322-324 | `create_dir` succeeds exactly when the parent is a directory and the path is free, adding only that directory |
| AbstractFs.CreateDirAll | src/freedesktop.rs:49-56 | on success the path is a directory and every existing entry is unchanged |
| AbstractFs.RemoveFile | src/freedesktop.rs:216-219 | `remove_file` removes exactly a non-directory entry and refuses a directory |
| AbstractFs.RemoveTree | src/freedesktop.rs:212-214 | `remove_dir_all` removes exactly the entry's subtree and leaves every other entry unchanged |
| AbstractFs.Rename | src/freedesktop.rs:280 | `rename` needs an existing source and a directory parent for the target; the source's node lands on the target; unrelated entries are kept; a non-directory never replaces a directory |
| AbstractFs.RenameFileEffect | src/freedesktop.rs:453 | renaming a non-directory onto a non-directory replaces only the target and removes the source |
| Freedesktop.HomeTrash | src/freedesktop.rs:535-549 | the home trash is `$XDG_DATA_HOME/Trash`, else `$HOME/.local/share/Trash`, and panics exactly when neither is set to a non-empty value |
| Freedesktop.ChooseTopdir | src/freedesktop.rs:34-45 | the topdir is the first non-root mount point the path starts with, and `/` exactly when there is none |
| Freedesktop.FolderValidity | src/freedesktop.rs:513-531 | a missing `.Trash` is a `Filesystem` error and a link is `InvalidSymlink`; it is `Valid` exactly for a directory whose mode has the tested bit: `0x1000` as written, the sticky bit `0x200` corrected |
| Freedesktop.DirectoryValidity | src/freedesktop.rs:516-528 | for a directory, whose type field is `S_IFDIR`, the test as written always gives `InvalidNotSticky`, since bit `0x1000` is part of the type field and clear; corrected, it is `Valid` exactly when the sticky bit is set |
| Freedesktop.SharedTrashUnusedAsWritten | src/freedesktop.rs:305-317 | as written, `.Trash/$uid` is never offered when modes carry their file type |
| Freedesktop.StickyTrashOffered | src/freedesktop.rs:305-317 | a sticky `.Trash` directory with a `.Trash/$uid` directory is offered corrected and not as written |
| Freedesktop.SharedFolder | src/freedesktop.rs:305-317 | `.Trash/$uid` is offered exactly when `.Trash` is a directory that passes the validity test (as written or corrected) and `.Trash/$uid` is a directory |
| Freedesktop.MountedTrashFolders | src/freedesktop.rs:296-336 | only `.Trash/$uid` and `.Trash-$uid` are visited, in that order; `first_only` stops after the first; `.Trash-$uid` is created only when asked; existing entries are kept |
| Freedesktop.CandidateNamesDistinct | src/freedesktop.rs:367-372 | different attempts of the name loop use different names (`name`, `name.2`, `name.3`, ...) |
| Freedesktop.CandidateIsName | src/freedesktop.rs:368-373 | every candidate, and its `.trashinfo` name, is a plain file name |
| Freedesktop.TrashPathsDistinct | src/freedesktop.rs:373-405 | an info file never coincides with a files entry, and each is determined by its candidate name |
| Freedesktop.TrashPathsApart | src/freedesktop.rs:373-405 | neither trash path of an attempt lies inside the other's |
| Freedesktop.PathValueRelative | src/freedesktop.rs:389-397 | off the root mount, the `Path=` value is the item's URL path after the mount's, with leading slashes trimmed |
| Freedesktop.Walked | src/freedesktop.rs:426-456 | the walk renames the direct non-directory entries of `src` into `dst` and leaves everything outside both trees alone |
| Freedesktop.WalkSucceeds | src/freedesktop.rs:459-476 | when nothing below `src` lies deeper than its direct entries, the move succeeds with the directory placeholder and the walk's renames |
| Freedesktop.WalkLosesDirectory | src/freedesktop.rs:440-450 | as written, a subdirectory of a moved tree-shaped directory is missing at its place under `dst` |
| Freedesktop.MoveItemsNoReplace | src/freedesktop.rs:459-476 | the move fails with `AlreadyExists` only for an occupied `dst`, and succeeds only from an existing `src` into a free `dst` in a directory |
| Freedesktop.WalkIntoItself | src/freedesktop.rs:426-476 | as written, a directory holding only directories, moved to a place inside itself, is removed whole, placeholder included, and the move reports success with everything outside kept; the whole-tree move refuses it |
| Freedesktop.MoveItemsWhole | src/freedesktop.rs:459-493 | the corrected move creates the same placeholder; on success every entry below `src` arrives below `dst`, and a directory is never moved to a place inside itself |
| Freedesktop.MoveItems | src/freedesktop.rs:459-493 | the move as written (the walk) or corrected (the whole tree) fails with `AlreadyExists` only for an occupied `dst`, and succeeds only from an existing `src` into a free `dst` in a directory |
| Freedesktop.WalkAgreesOnFlat | src/freedesktop.rs:426-476 | on a non-directory, or a directory holding only direct non-directories, the walk as written and the whole-tree move give the same result, unless `dst` lies strictly inside `src` |
| Freedesktop.MoveWholeKeepsOutside | src/freedesktop.rs:459-493 | the corrected move leaves every entry outside the source and destination trees as it was |
| Freedesktop.BlockingShrinks | src/freedesktop.rs:365-379 | each blocked attempt leaves strictly fewer blocking entries, so the candidate loop terminates |
| Freedesktop.MoveGivesTrashed | src/freedesktop.rs:405-419 | a written info file followed by a successful move, as written or corrected, trashes `src` under that name: the info file holds the text, `files/<name>` is of the source's kind (except that the walk removes a directory holding `files/<name>` whole), every entry the move carries (as written the non-directories, corrected all) is at its rebased place, and nothing outside changed |
| Freedesktop.WholeMoveGivesTrashed | src/freedesktop.rs:405-419 | after the info file, a successful whole-tree move trashes `src` with every entry carried |
| Freedesktop.WalkGivesTrashed | src/freedesktop.rs:405-476 | after the info file, a successful walk of a directory trashes `src` with every non-directory entry carried, or, when `files/<name>` lies inside `src`, leaves nothing of `src`'s tree |
| Freedesktop.SourceIsNoInfoFile | src/freedesktop.rs:363-374 | an item never sits at the path of its own info file |
| Freedesktop.TakenExtends | src/freedesktop.rs:376-415 | a blocked attempt (`AlreadyExists` on the info file or on the target) moves on to the next name |
| Freedesktop.TryCandidatesOutcome | src/freedesktop.rs:365-421 | as written and corrected: on success, `src` went into the trash under the first attempt not blocked, with the info text written; a failure is the error of the first attempt not blocked |
| Freedesktop.TryCandidates | src/freedesktop.rs:365-421 | as written or corrected, every failure of the name loop is a `Filesystem` error naming an entry directly inside the trash's `info` or `files` folder; an existing name is retried, never reported |
| Freedesktop.TryCandidatesAgree | src/freedesktop.rs:365-421 | for a flat item in a tree-shaped file system whose trash `info` and `files` folders lie outside it, the name loop as written and corrected give the same result |
| Freedesktop.MoveToTrashAgrees | src/freedesktop.rs:338-424 | under the same conditions, `move_to_trash` as written and corrected give the same result |
| Freedesktop.MoveToTrash | src/freedesktop.rs:338-424 | `src` without a UTF-8 file name panics; on success, as written or corrected, `src` went in under some candidate name next to its info file after all earlier names were taken |
| Freedesktop.TrashedKeepsOthers | src/freedesktop.rs:338-424 | in a tree-shaped file system, trashing as written or corrected changes no entry outside the trashed tree |
| Freedesktop.TrashedHoldsSource | src/freedesktop.rs:405-419 | after trashing, `files/<name>` is a directory exactly when the source was; it holds the source's node when corrected or when the source is no directory; the one exception is a directory holding `files/<name>`, which as written is removed whole |
| Freedesktop.WalkFailsOnNestedEntry | src/freedesktop.rs:426-476 | as written, a directory with a non-directory two levels down fails to move with `NotFound`, while the whole-tree move succeeds and keeps that entry |
| Freedesktop.WalkDropsSubdirectory | src/freedesktop.rs:440-450 | as written, an empty subdirectory is lost by the walk, while the whole-tree move keeps it |
| Freedesktop.WholeMoveKeepsEntry | src/freedesktop.rs:459-476 | the corrected move carries every entry of `src` to its rebased place |
| Freedesktop.FreshUserTrashRefusesItems | src/freedesktop.rs:319-336 | as written, a `.Trash-$uid` just created has no `info` directory, so trashing onto the mount fails with `Filesystem` naming the info file |
| Freedesktop.MountedTrashFoldersFixed | src/freedesktop.rs:319-333 | the corrected version gives a newly created `.Trash-$uid` its `info` and `files` directories, otherwise as written |
| Freedesktop.FixedUserTrashTakesItems | src/freedesktop.rs:373-375 | in the corrected version the first info file can be created in a fresh `.Trash-$uid` |
| Freedesktop.PrepareHomeTrash | src/freedesktop.rs:46-56 | an existing home trash is untouched; a missing one gets `info` and `files` directories, and existing entries are kept |
| Freedesktop.HomeFolder | src/freedesktop.rs:46-57 | the home trash, prepared, is the one folder used on the root mount |
| Freedesktop.DeleteOne | src/freedesktop.rs:34-62 | as written or corrected, a trashed path goes under a candidate name into the home trash on the root mount, or else into one of its mount's folders, with `files/<name>` holding its node as `TrashedHoldsSource` says |
| Freedesktop.FolderFor | src/freedesktop.rs:34-57 | one folder is used: the home trash on the root mount, else `.Trash/$uid` or `.Trash-$uid` of the mount; existing entries are kept |
| Freedesktop.FolderForReady | src/freedesktop.rs:34-57 | when the folder to use already exists (the home trash, or `.Trash-$uid` without `.Trash/$uid`), both versions use it and change nothing |
| Freedesktop.DeleteOneAgrees | src/freedesktop.rs:34-62 | for a flat item in a tree-shaped file system whose folder is ready and whose `info` and `files` lie outside it, trashing one path as written and corrected agree |
| Freedesktop.DeleteEachAppend | src/freedesktop.rs:34-63 | as written or corrected, trashing `a + b` is trashing `a` and then `b` in the state `a` left; the first failure stops the loop |
| Freedesktop.DeleteAllCanonicalized | src/freedesktop.rs:29-32 | the home trash is resolved before any path, so an environment with neither variable panics; otherwise the paths are trashed one by one, as written or corrected |
| FreedesktopItems.KeyValue | src/freedesktop.rs:147-151 | a line without `=` panics; otherwise the key is the first `=`-piece and the value the second, both trimmed |
| FreedesktopItems.KeyValueFixed | src/freedesktop.rs:147-151 | the corrected reading panics on the same lines and keeps everything after the first `=` as the value |
| FreedesktopItems.KeyValueFixedRoundTrip | src/freedesktop.rs:398 | a written `key=value` line reads back as that key and value, even when the value contains `=` |
| FreedesktopItems.KeyValueTruncates | src/freedesktop.rs:151 | as written, a value containing `=` is cut at its first `=` |
| FreedesktopItems.KeyValueAgree | src/freedesktop.rs:147-151 | without a second `=` both readings agree |
| FreedesktopItems.ReadRecord | src/freedesktop.rs:147-151 | a line read as written or corrected panics exactly when it has no `=`; with at most one `=` both readings give the corrected record |
| FreedesktopItems.Records | src/freedesktop.rs:140-151 | records read as written or corrected are never more than the lines; a failure is a panic and comes from a line without `=` |
| FreedesktopItems.RecordsAgree | src/freedesktop.rs:140-151 | when no line holds a second `=`, records read as written and corrected agree |
| FreedesktopItems.InfoLinesRead | src/freedesktop.rs:387-400 | the lines of a written info file are the header, `Path=` and `DeletionDate=` lines |
| FreedesktopItems.RecordRead | src/freedesktop.rs:398-399 | a written record line is UTF-8 and reads back as its key and value: corrected always, as written when the value holds no `=` |
| FreedesktopItems.InfoRoundTrip | src/freedesktop.rs:138-151 | reading a written info file after its header gives exactly the `Path` and `DeletionDate` records written: corrected always, as written when neither value holds `=` |
| FreedesktopItems.ResolvePath | src/freedesktop.rs:154-157 | an absolute `Path` value stands for itself; a relative one is joined onto the folder's base |
| FreedesktopItems.ResolveName | src/freedesktop.rs:154-157 | a relative value of one name resolves to that name inside the base |
| FreedesktopItems.DecodedPath | src/freedesktop.rs:158 | a value resolves exactly when its path is UTF-8 and URL-decodes; every failure is a panic |
| FreedesktopItems.ApplyRecord | src/freedesktop.rs:153-177 | `Path` sets the name and the parent from the decoded path; `DeletionDate` sets the time from the value with `Z` appended; other keys change nothing; failures panic |
| FreedesktopItems.Interpret | src/freedesktop.rs:140-178 | applying the records in order keeps name and parent set together; failures panic |
| FreedesktopItems.AfterHeader | src/freedesktop.rs:140 | the header line is skipped |
| FreedesktopItems.ItemOf | src/freedesktop.rs:133-189 | as written or corrected, an info file gives an item with the info file's path as id and a plain file name, when name, parent and time were all set; failures panic |
| FreedesktopItems.ItemOfAgrees | src/freedesktop.rs:133-189 | an info file without a second `=` on any line gives the same item as written and corrected |
| FreedesktopItems.ItemOfRoundTrip | src/freedesktop.rs:133-189 | listing reads back what deleting wrote, corrected always and as written when no value holds `=`: the item's original path is the decoded `Path` value and its time is the parsed date |
| FreedesktopItems.ItemsIn | src/freedesktop.rs:103-190 | the items of a folder are exactly those that its regular info files describe completely, read as written or corrected |
| FreedesktopItems.ListFolder | src/freedesktop.rs:97-191 | a folder with `info` fails exactly when an info file panics and otherwise gives its items; without `info` it fails with `Filesystem` as written and gives no items corrected |
| FreedesktopItems.ListFolderAgrees | src/freedesktop.rs:97-191 | a folder with `info` whose files hold no second `=` on a line reads the same as written and corrected |
| FreedesktopItems.NoEntriesOutsideDirs | src/freedesktop.rs:101-102 | a path that is not a directory holds no info files |
| FreedesktopItems.ReadAll | src/freedesktop.rs:96-192 | listing succeeds exactly when every folder reads, giving the union of their items; otherwise it fails with the first error |
| FreedesktopItems.ReadAllPanics | src/freedesktop.rs:96-192 | with missing `info` directories skipped, only a panic can stop the listing |
| FreedesktopItems.ReadAllAgree | src/freedesktop.rs:96-192 | two readers that agree on every folder give the same listing |
| FreedesktopItems.MountFolders | src/freedesktop.rs:83-90 | the listed mount folders are `.Trash/$uid` or `.Trash-$uid` of a mount that are directories, in mount order, as written or corrected, and nothing is created |
| FreedesktopItems.MountFoldersAgree | src/freedesktop.rs:83-90 | without `.Trash/$uid` directories, the mount folders as written and corrected agree |
| FreedesktopItems.AsWrittenFolder | src/freedesktop.rs:99 | as written, relative values resolve against the folder's parent, and a folder without a parent panics |
| FreedesktopItems.AsWrittenFolders | src/freedesktop.rs:97-99 | every mount folder resolves against its own parent, as written |
| FreedesktopItems.CorrectedFolders | src/freedesktop.rs:97-99 | corrected: every mount folder resolves against its mount |
| FreedesktopItems.FoldersAsWritten | src/freedesktop.rs:67-90 | the home trash comes first, then the mount folders; a missing home panics |
| FreedesktopItems.Folders | src/freedesktop.rs:67-90 | the corrected folder list: the home trash first, then the mount folders, each based at its mount |
| FreedesktopItems.FoldersAgree | src/freedesktop.rs:67-99 | without `.Trash/$uid` directories, both folder lists agree, each mount folder being `.Trash-$uid` based at its mount |
| FreedesktopItems.ListAsWritten | src/freedesktop.rs:67-193 | `list` as written panics without a home and otherwise gives exactly the items of the folders as written, each read as written |
| FreedesktopItems.List | src/freedesktop.rs:67-193 | the corrected `list` gives exactly the items of the corrected folders, each read corrected; once the folders are found, only a panic can stop it |
| FreedesktopItems.ListAgrees | src/freedesktop.rs:67-193 | without `.Trash/$uid` directories, with every used folder holding `info`, and with no second `=` on an info line, `list` as written and corrected agree |
| FreedesktopItems.WrittenRelativeValue | src/freedesktop.rs:389-397 | for `topdir/n` the value written is `n` |
| FreedesktopItems.SharedTrashMisresolved | src/freedesktop.rs:153-157 | as written, an item trashed from `topdir/n` into `.Trash/$uid` lists as `topdir/.Trash/n` |
| FreedesktopItems.UserTrashResolved | src/freedesktop.rs:153-157 | for `.Trash-$uid`, the same value lists correctly as `topdir/n` |
| FreedesktopItems.MountFolderResolved | src/freedesktop.rs:97-157 | corrected: every mount folder lists `topdir/n` for the value written for it |
| FreedesktopItems.MissingHomeInfo | src/freedesktop.rs:100-102 | as written, a home trash without `info` makes `list` fail with `Filesystem`; corrected, it lists no items |
| FreedesktopRestore.ContentPath | src/freedesktop.rs:205-210 | the content of an item is `<trash>/files/<stem of id>`; an id with no grandparent or no file name panics |
| FreedesktopRestore.ContentOfInfoPath | src/freedesktop.rs:241-244 | the content path found from an info file's id is where deleting put the content |
| FreedesktopRestore.InfoPathCanonical | src/freedesktop.rs:373-374 | a candidate name with `.trashinfo` appended is still a name, and its info path in a canonical trash folder is canonical |
| FreedesktopRestore.PurgeOne | src/freedesktop.rs:199-219 | purging removes the content (as a tree when it is a directory) and the info file; missing content panics |
| FreedesktopRestore.PurgeAll | src/freedesktop.rs:195-223 | on success no item's content or info file is left, and no other entry was added or changed |
| FreedesktopRestore.RestoreOne | src/freedesktop.rs:236-282 | restoring an item, with `is_dir` as written or the entry's own type corrected: missing content panics; a collision gives `RestoreCollision` at its original path; on success the content path existed, the info file is gone, and the original path holds the content's top node (`RestoreOneMoves` gives the rest of the tree) |
| FreedesktopRestore.RestoreOneMoves | src/freedesktop.rs:253-282 | after a successful restore, every entry of the content's tree is at its rebased place under the original path, every entry outside the content tree, the original path's tree and the info file is unchanged, and the only new entries are the restored tree and the directories `create_dir_all` made |
| FreedesktopRestore.RestoreOneAgrees | src/freedesktop.rs:253-258 | without links to directories, restoring one item as written and corrected agree |
| FreedesktopRestore.RestoreOneNoDirLinks | src/freedesktop.rs:236-282 | restoring brings in no link to a directory |
| FreedesktopRestore.RestoreAllOutcome | src/freedesktop.rs:225-285 | as written or corrected, a collision at item `k` ends the restore with that item's path and items `k..`; on success every item's content path was found |
| FreedesktopRestore.RestoreAll | src/freedesktop.rs:225-285 | as written or corrected, a collision carries a non-empty tail of the item list: the colliding item and every later one |
| FreedesktopRestore.RestoreAllSplit | src/freedesktop.rs:232-283 | as written or corrected, restoring a list is restoring a prefix and then the rest from where the prefix left off |
| FreedesktopRestore.RestoreItems | src/freedesktop.rs:225-285 | the loop, as written or corrected, restores items one by one; after a collision the earlier items stay restored and the error carries the colliding item and all later ones |
| FreedesktopRestore.RestoreAllAgrees | src/freedesktop.rs:225-285 | without links to directories, `restore_all` as written and corrected agree |
| FreedesktopRestore.LinkRestoreFails | src/freedesktop.rs:253-280 | as written, a trashed symbolic link to a directory gets a directory placeholder and the rename fails with `Filesystem` |
| FreedesktopRestore.LinkRestoreFixed | src/freedesktop.rs:253-282 | corrected, the link's own type picks a file placeholder, and the link lands at its original path with its info file removed |
| FreedesktopRestore.LinkOverPlaceholder | src/freedesktop.rs:280 | renaming a link over a file placeholder succeeds and leaves unrelated entries alone |
| UriUtility.HexDigitToDecimal | src/uri_path/utility.rs:44-51 | decodes exactly the hex digits to their value below 16, flagging lowercase letters |
| UriUtility.GetPercentEncodedValue | src/uri_path/utility.rs:28-42 | an escape decodes exactly when both digits are present hex digits; re-encoding the value gives the digits uppercased |
| UriUtility.PercentEncodeByteDecodes | src/uri_path/utility.rs:28-42 | the canonical escape of a byte decodes to that byte, flagged uppercase |
| UriUtility.NormalizeString | src/uri_path/utility.rs:54-90 | the in-place loop never grows the string and leaves it normalized: no escape of an unreserved byte, no lowercase digit |
| UriUtility.NormalizedForm | src/uri_path/utility.rs:54-90 | the normalized text is never longer than the input and stays well formed |
| UriUtility.PlainByteSurvives | src/uri_path/utility.rs:78-86 | a byte that escapes neither produce nor hide survives normalization exactly where it was |
| UriUtility.NormalizedFormIsNormalized | src/uri_path/utility.rs:63-77 | normalization leaves no escape of an unreserved byte and no lowercase hex digit |
| UriUtility.HexCaseInvariant | src/uri_path/utility.rs:74-75 | uppercasing a hex digit keeps its value |
| UriUtility.NormalizedFormKeepsDecoded | src/uri_path/utility.rs:54-90 | normalization never changes the decoded bytes |
| UriUtility.NormalizedFormFixesNormalized | src/uri_path/utility.rs:54-90 | an already normalized string is left unchanged |
| UriUtility.NormalizedFormIdempotent | src/uri_path/utility.rs:54-90 | normalizing twice is normalizing once |
| UriUtility.EqualityReflexive | src/uri_path/utility.rs:153-195 | percent-insensitive equality is reflexive |
| UriUtility.EqualitySymmetric | src/uri_path/utility.rs:153-195 | percent-insensitive equality is symmetric |
| UriUtility.UnreservedEqualsItsEscape | src/uri_path/utility.rs:131-151 | an unreserved byte equals any escape of it |
| UriUtility.ReservedNeverEqualsEscape | src/uri_path/utility.rs:137-139 | a reserved byte never equals an escape |
| UriUtility.EscapeFreeEquality | src/uri_path/utility.rs:180-190 | without escapes, equality is byte equality, or equality after lowercasing when case-insensitive |
| UriUtility.LowercaseAll | src/uri_path/utility.rs:182-186 | the folding `eq_ignore_ascii_case` compares under, the reference `EscapeFreeEquality` uses: no uppercase letter is left, each byte equals its original up to case, and bytes other than `A`-`Z` are kept |
| UriUtility.EqualityImpliesSameHash | src/uri_path/utility.rs:92-129 | strings that equality equates feed the hasher the same values |
| UriUtility.PercentEncodedHash | src/uri_path/utility.rs:92-129 | the values fed to the hasher end with the unit count, which is at most the byte count; a string without escapes feeds each byte, lowercased when case-insensitive, then its length |
| UriUtility.EscapeEqualityExamples | src/uri_path/utility.rs:209-223 | "abc" equals "%61bc" and "MNO" equals "%4DNO" and "%4dNO", as the tests expect |
| UriUtility.CaseEqualityExamples | src/uri_path/utility.rs:214-226 | case matters only in case-sensitive mode, as the tests expect |
| UriUtility.ReservedEqualityExample | src/uri_path/utility.rs:216-228 | "/" never equals "%2F", as the tests expect |
| UriSegment.Empty | src/uri_path.rs:658-663 | the empty segment is normalized and has no bytes |
| UriSegment.ValidHasNoDelimiter | src/uri_path.rs:28-64 | valid segment bytes contain no `/`, `?` or `#` |
| UriSegment.ScanSegment | src/uri_path.rs:841-856 | the scan succeeds exactly on valid bytes and reports whether every escape is already normalized |
| UriSegment.SegmentTryFrom | src/uri_path.rs:835-866 | `Segment::try_from` succeeds exactly on valid bytes, keeping them with an accurate normalized flag; an invalid character without `%` is `InvalidCharacter` |
| UriSegment.ScanErrorKind | src/uri_path.rs:844-852 | a failing scan reports `InvalidCharacter` when no `%` follows and `InvalidPercentEncoding` for a first bad escape |
| UriSegment.SegmentTryFromExamples | src/uri_path.rs:1199-1203 | the rejected segment parse test cases: `" "` and `"/"` invalid characters, `"%"`, `"%f"`, `"%zz"` invalid escapes |
| UriSegment.SegmentTryFromEscapes | src/uri_path.rs:1197 | a shorter form of the accepted escape test case: `"%ff%41"` is kept as written and marked not normalized |
| UriSegment.DotSegmentsParse | src/uri_path.rs:835-866 | "." and ".." parse as normalized segments |
| UriSegment.Normalize | src/uri_path.rs:729-735 | normalizing gives a valid normalized segment that decodes alike, and leaves a normalized one unchanged |
| UriSegment.NormalizeExamples | src/uri_path.rs:1178-1188 | "%ff" normalizes to "%FF" and "%41" to "A" |
| UriSegment.EqualityWithPlainMeaning | src/uri_path.rs:781-785 | against plain unreserved text, segment equality is equality of decoded bytes |
| UriSegment.DotMeaning | src/uri_path.rs:694-727 | a segment is "." or ".." exactly when it decodes to "." or "..", so "%2E" counts |
| UriSegment.NormalizeKeepsDots | src/uri_path.rs:729-735 | normalizing never changes whether a segment is a dot segment |
| UriSegment.NormalizeKeepsColon | src/uri_path.rs:228-231 | normalizing neither adds nor removes a `:` |
| UriSegment.DotsDisjoint | src/uri_path.rs:685-727 | no segment is both "." and ".." |
| UriSegment.EmptyIsNotDot | src/uri_path.rs:685-687 | the empty segment is not a dot segment |
| UriSegment.LiteralDots | src/uri_path.rs:694-727 | the literal "." and ".." are the dot segments they look like |
| UriSegment.SegmentHashAgreesWithEq | src/uri_path.rs:772-785 | `Hash for Segment` agrees with `PartialEq`: equal segments hash alike |
| UriPath.IntoPath | src/uri_path.rs:925-935 | the built path has the segments read and the absolute flag found |
| UriPath.Display | src/uri_path.rs:486-502 | an absolute path prints with a leading `/`, and the rest split at `/` gives back the bytes of valid segments |
| UriPath.NewSegment | src/uri_path.rs:938-965 | closing a segment keeps its bytes and the current normalized flag, and updates only the counters |
| UriPath.StripSlash | src/uri_path.rs:967-971 | a leading `/` makes the path absolute and is not part of a segment |
| UriPath.PathTryFrom | src/uri_path.rs:594-606 | `Path::try_from` succeeds exactly when every `/`-separated part is a valid segment and there are at most 65535; the path prints back as the input and its counters describe its segments |
| UriPath.TryFromAsWritten | src/uri_path.rs:946-950 | as written, parsing succeeds on the same inputs with the same segments as the percent-aware parse |
| UriPath.ParseRuleIndependent | src/uri_path.rs:944-958 | how dots are counted never affects whether parsing succeeds or which segments it yields |
| UriPath.ParseLoopShape | src/uri_path.rs:989-1033 | the byte loop reaches the end without error exactly when the remaining parts are valid and within 65535, and yields them as segments |
| UriPath.ParseLoopCounters | src/uri_path.rs:938-1033 | percent-aware counting yields counters that describe the segments |
| UriPath.CountersAtSlash | src/uri_path.rs:1001-1013 | closing a segment at `/` keeps the counters accurate for the rest of the parse |
| UriPath.CountersAtPercent | src/uri_path.rs:1015-1023 | an escape changes only the normalized flag, so the counters stay accurate |
| UriPath.TryFromErrorExamples | src/uri_path.rs:1137-1141 | `" "` and `"#"` are invalid characters; `"%"`, `"%f"` and `"%zz"` are invalid escapes |
| UriPath.TryFromLengthLimit | src/uri_path.rs:1131-1136 | 65535 slashes parse; 65536 give `ExceededMaximumLength` |
| UriPath.PushAsWritten | src/uri_path.rs:320-354 | `push` as written fails exactly on a full path or invalid bytes, with the same segments as the corrected push |
| UriPath.Push | src/uri_path.rs:320-354 | `push` fails on a full path or invalid bytes; otherwise it appends, replacing a lone empty segment; it prints as before plus `/segment` and keeps the counters accurate |
| UriPath.PushDisplay | src/uri_path.rs:347-351 | after a push the path prints as before, plus a `/` unless a lone empty segment was replaced, plus the segment |
| UriPath.PushConsistent | src/uri_path.rs:331-345 | push keeps accurate counters accurate |
| UriPath.Pop | src/uri_path.rs:285-309 | `pop` removes the last segment, leaving a lone empty one when none remain, and keeps counters accurate |
| UriPath.SaturatingDecrement | src/uri_path.rs:289-290 | `checked_sub(1).unwrap_or(0)` stops at zero |
| UriPath.PopConsistent | src/uri_path.rs:288-304 | the counter updates of `pop` keep accurate counters accurate |
| UriPath.PopOnly | src/uri_path.rs:306-308 | popping the only segment leaves the lone empty segment with all counters zero |
| UriPath.PopOneOfMany | src/uri_path.rs:293-299 | popping one of several segments takes exactly that segment out of each count |
| UriPath.PopUndoesPush | src/uri_path.rs:285-354 | popping what was just pushed gives back the original path |
| UriPath.ClearAsWritten | src/uri_path.rs:93-96 | as written, `clear` resets the segments but keeps the dot counters |
| UriPath.Clear | src/uri_path.rs:87-96 | corrected `clear` leaves a lone empty segment with accurate counters, printing as just the leading `/` if any |
| UriPath.IsNormalizedMeaning | src/uri_path.rs:146-168 | on accurate counters, `is_normalized` holds exactly for the documented normalized shape |
| UriPath.EmptyPath | src/uri_path.rs:1124 | the path of `""` has accurate counters and prints as `""` |
| UriPath.PushDoubleDotOntoEmpty | src/uri_path.rs:335-339 | as written, pushing ".." onto the empty path leaves the leading ".." count at 0; the corrected push counts it |
| UriPath.ClearKeepsCounters | src/uri_path.rs:93-96 | as written, clearing "." leaves a single-dot count of 1 over a lone empty segment |
| UriPath.ClearThenPushGrows | src/uri_path.rs:93-96 | as written, `clear` then pushing "." gives one segment and a single-dot count one above the count before, so repetition raises it without bound |
| UriPath.ParseMissesEncodedDot | src/uri_path.rs:946-950 | as written, "%2E" parses to a "." segment with a single-dot count of 0 |
| UriPathDots.Prepare | src/uri_path.rs:402-406 | a kept segment is normalized when asked, and otherwise unchanged, with its dot kind kept |
| UriPathDots.RemovalStep | src/uri_path.rs:379-415 | one loop iteration keeps at most one more segment and never keeps a dot segment |
| UriPathDots.RemovalLoop | src/uri_path.rs:379-415 | the loop keeps no more segments than it read and only clean ones |
| UriPathDots.RemoveDotSegmentsHelper | src/uri_path.rs:375-435 | the result has no dot segments, zero dot counters and at least one segment, and an absolute input stays absolute |
| UriPathDots.CleanCounters | src/uri_path.rs:431-433 | zero dot counters are accurate for dot-free segments |
| UriPathDots.RemovalLoopKeepsDotFree | src/uri_path.rs:379-415 | on dot-free segments the loop keeps everything |
| UriPathDots.RemovalShortcutSound | src/uri_path.rs:366-369 | the early return on zero dot counters is sound: removal would change nothing |
| UriPathDots.RemoveDotSegmentsAsWritten | src/uri_path.rs:366-372 | as written, the unnormalized count is never changed |
| UriPathDots.RemoveDotSegments | src/uri_path.rs:366-435 | removal leaves no dot segment and accurate counters, keeps an absolute path absolute, and returns a dot-free path unchanged |
| UriPathDots.DotFreeCounted | src/uri_path.rs:366-369 | on accurate counters, zero dot counters mean no dot segment |
| UriPathDots.RemoveDotSegmentsIdempotent | src/uri_path.rs:366-435 | removing dot segments twice is removing them once |
| UriPathDots.ReferenceStep | src/uri_path.rs:225-262 | one iteration of the reference loop keeps at most one more segment and keeps the last kept ".." among the kept segments, so `new_length - 1` never underflows |
| UriPathDots.ReferenceLoop | src/uri_path.rs:225-262 | the reference loop keeps no more segments than it read |
| UriPathDots.ReferenceLoopInvariant | src/uri_path.rs:225-262 | kept ".." form a leading run, only the first kept segment can be ".", a kept "." is followed by a segment with `:`, and every kept segment is normalized |
| UriPathDots.StepKeepsOther | src/uri_path.rs:228-234 | skipping a ".", except a first one before a segment with `:`, and keeping any other segment preserve the loop invariant |
| UriPathDots.StepDropsSegments | src/uri_path.rs:236-252 | a ".." that is not kept removes the last kept segment, and a leading "." when the colon rule allows, preserving the loop invariant |
| UriPathDots.StepKeepsDoubleDot | src/uri_path.rs:236-257 | a ".." kept at the end of a leading run of ".." extends that run and preserves the loop invariant |
| UriPathDots.NormalizeReference | src/uri_path.rs:221-277 | the reference branch keeps the path relative and well formed |
| UriPathDots.NormalizeReferenceFacts | src/uri_path.rs:264-277 | the reference branch leaves accurate counters and a path normalized as a reference |
| UriPathDots.NormalizePath | src/uri_path.rs:209-278 | `normalize` always leaves a normalized path, returns a normalized one unchanged, and keeps counters accurate |
| UriPathDots.NormalizePathShape | src/uri_path.rs:197-208 | the result has the normalized shape described for `normalize` |
| UriPathDots.RemovalKeepsUnnormalizedCount | src/uri_path.rs:366-435 | as written, removing "%2E" leaves an unnormalized count of 1 over a lone empty segment, reported not normalized; corrected, it is 0 |
| UriPathDots.EncodedDot | src/uri_path.rs:715-727 | "%2E" is a valid, unnormalized "." segment and not ".." |
| UriPathDots.RemoveDotSegmentsAbsoluteExample | src/uri_path.rs:1171 | "/a/b/./.." becomes "/a/" |
| UriPathDots.RemoveDotSegmentsRelativeExample | src/uri_path.rs:1163 | "a/../.." becomes "/" |
| UriPathDots.NormalizeReferenceExample | src/uri_path.rs:1082 | normalized as a reference, "a/../.." becomes ".." |
| UriPathDots.NormalizeReferenceColonExample | src/uri_path.rs:1084 | normalized as a reference, "./a:b/.." becomes "" |
| MacOs.EscQuote | src/macos/mod.rs:443-462 | `esc_quote` returns the input when nothing needs escaping, and otherwise puts `\` before each `"` and `\` |
| MacOs.LiteralRoundTrip | src/macos/mod.rs:443-462 | AppleScript reads an escaped text back as the original, closing exactly at the added quote |
| MacOs.EncodeInvalidIsText | src/macos/mod.rs:429-439 | the encoding is always well-formed UTF-8 |
| MacOs.EncodeValid | src/macos/mod.rs:421-424 | well-formed UTF-8 is left as it is |
| MacOs.PercentEncode | src/macos/mod.rs:417-440 | `percent_encode` gives UTF-8; it returns UTF-8 input unchanged and empty input as empty, and otherwise escapes each bad byte as `%XX` |
| MacOs.EncodeInvalidRoundTrip | src/macos/mod.rs:429-439 | on input without `%`, decoding the escapes gives the original bytes |
| MacOs.PercentEncodeRoundTrip | src/macos/mod.rs:417-440 | `percent_encode` loses nothing on paths without `%` |
| MacOs.LoneContinuation | src/macos/tests.rs:67-79 | the lone byte 0x80 is not UTF-8 and is encoded as `%80` |
| MacOs.EncodingAmbiguous | src/macos/mod.rs:421-424 | the encoding is not injective: byte 0x80 and the text `%80` encode alike |
| MacOs.LoneContinuationEncoded | src/macos/tests.rs:67-79 | an ASCII path ending in byte 0x80 is encoded with that byte as `%80` |
| MacOs.SetDeleteMethod | src/macos/mod.rs:101-103 | `set_delete_method` changes only the delete method |
| MacOs.SetScriptMethod | src/macos/mod.rs:107-109 | `set_script_method` changes only the script method |
| MacOs.BackendOf | src/macos/mod.rs:120-126 | `NSFileManager` is used whatever the script method; Finder runs through `osascript` or OSAKit as the script method says |
| MacOs.SettersIndependent | src/macos/mod.rs:89-113 | getters return the last value set, the setters commute, and a new context uses Finder through `osascript` |
| MacOs.PathText | src/macos/mod.rs:210-213 | the text given for a path is its bytes when they are UTF-8, else their encoding, and always UTF-8 |
| MacOs.Texts | src/macos/mod.rs:207-216 | one text per path, in order |
| MacOs.PosixFilesRoundTrip | src/macos/mod.rs:207-217 | the `POSIX file` list reads back as exactly the paths' texts, in order |
| MacOs.FinderScriptNamesEachPath | src/macos/mod.rs:220-260 | every script variant deletes exactly the given paths, in order |
| MacOs.CliScriptSetsSeparator | src/macos/mod.rs:219-235 | the `osascript` script joins the returned paths with the separator its output is split on |
| MacOs.ItemFor | src/macos/mod.rs:291-306 | a reported path with a source gives an item named after the source, or panics when the source has no name; without a source the name and parent are empty |
| MacOs.ItemForOriginalPath | src/macos/mod.rs:291-306 | an item built from a canonical path records it as its original path |
| MacOs.ItemsFor | src/macos/mod.rs:362-392 | each reported text gives one item in order, with its text as id; entries that are not texts are skipped |
| MacOs.Sources | src/macos/mod.rs:287-292 | the i-th entry is matched with the i-th path only when the counts agree |
| MacOs.ItemsForMatched | src/macos/mod.rs:287-307 | with matching counts, item i has entry i as id and path i as original path |
| MacOs.ItemsForUnmatched | src/macos/mod.rs:287-307 | with differing counts, every item has an empty name and parent |
| MacOs.Stripped | src/macos/mod.rs:284 | one trailing newline is dropped |
| MacOs.CliPaths | src/macos/mod.rs:283-284 | the output splits on `" /// "` into separator-free parts that join back into the output without its newline |
| MacOs.CliPathsRoundTrip | src/macos/mod.rs:234-284 | output of separable paths joined by `" /// "` splits back into exactly those paths |
| MacOs.CliItemsAsWritten | src/macos/mod.rs:283-308 | as written, the item ids are the split output, even when the output is empty |
| MacOs.CliItems | src/macos/mod.rs:283-312 | corrected, an empty output gives no items; as written, and for any other output, the items are those of the split output |
| MacOs.CliItemsReported | src/macos/mod.rs:283-308 | one separable reported path per deleted path gives item i with reported id i and original path i |
| MacOs.EmptyOutputPhantomItem | src/macos/mod.rs:284-308 | as written, an empty output gives one item with an empty id claiming the deleted path; corrected, no items |
| MacOs.OsakitItems | src/macos/mod.rs:351-397 | a result that is neither a text nor a list gives no items; a list gives items |
| MacOs.OsakitSingle | src/macos/mod.rs:351-356 | a single returned text for a single path is that path's item |
| MacOs.FileMgrItems | src/macos/mod.rs:134-190 | the paths are trashed in order, the `i`-th call given the `i`-th path's text; success means every call trashed its path, and without item information success is exactly that; the first refusal is `Unknown` and a nameless path a panic |
| MacOs.FileMgrReported | src/macos/mod.rs:134-190 | when every call trashes its canonical path and reports where, there is one item per path, in order, with the reported location as id, the path as original path, and the clock reading taken for that path as deletion time |
| MacOs.FileMgrRepeatRefused | src/macos/mod.rs:134-160 | the file manager is asked once per listed path: a path listed twice whose second call is refused makes the whole delete `Unknown`, after the first call trashed it |
| MacOs.DeleteUsingFileMgr | src/macos/mod.rs:130-196 | succeeds exactly when the loop does, and returns items exactly when asked for |
| MacOs.DeleteUsingFinder | src/macos/mod.rs:198-412 | without item information the result is `None`; through `osascript`, a failed spawn is `Unknown`, a failed run is `Os` with its exit code or `Unknown` without one, and a successful run gives the items of its output (as written or corrected); through OSAKit, a compile or run failure is `Unknown` and a result gives its items |
| MacOs.FinderAgrees | src/macos/mod.rs:198-313 | unless a successful `osascript` run asked for items prints only a newline, deleting through Finder as written and corrected agree |
| MacOs.DispatchUsesOwnBackend | src/macos/mod.rs:114-128 | each back end depends only on its own part of the operating system; the file manager's also on the clock |
| MacOs.DeleteAllCanonicalized | src/macos/mod.rs:114-128 | items come back only when asked for; `NSFileManager` succeeds exactly when the file manager trashes every path; Finder through `osascript` needs a successful run and turns a failed spawn into `Unknown`; OSAKit turns a script that fails to compile or run into `Unknown` |
| MacOs.DefaultDeleteReported | src/macos/mod.rs:114-128 | with the default context and item information, separable reported paths give one item per path, item i carrying reported id i and original path i |
| MacOs.NonEmptyOutput | src/macos/mod.rs:284-286 | output naming a non-empty path is not taken for an empty report |
| MacOsLegacy.SetLegacyDeleteMethod | src/macos/macos.rs:71-78 | `set_delete_method` sets the delete method |
| MacOsLegacy.LegacyScriptNamesEachPath | src/macos/macos.rs:137-148 | the one-line Finder script deletes exactly the given paths, in order |
| MacOsLegacy.LegacyDeleteUsingFinder | src/macos/macos.rs:132-173 | success exactly when `osascript` exits successfully, and then no items; a failure with an exit code is `Os` with that code |
| MacOsLegacy.LegacyDeleteAll | src/macos/macos.rs:80-85 | through Finder it succeeds exactly when `osascript` exits successfully, and reports nothing; through `NSFileManager` it succeeds exactly when the file manager trashes every path, and reports items |
| MacOsLegacy.LegacyDispatch | src/macos/macos.rs:47-130 | a new context deletes through Finder and reports nothing; with `NSFileManager`, every trashed path with a location gives its item in order, stamped with the clock reading taken for that path |
| Windows.ParsingName | src/windows.rs:56-63 | the parsing name is NUL-terminated and is the path without one leading `\\?\` |
| Windows.VerbatimSameName | src/windows.rs:56-63 | a path and its verbatim form give the same parsing name |
| Windows.TerminatorKeepsPrefix | src/windows.rs:57-59 | the terminating NUL neither makes nor breaks a verbatim prefix |
| Windows.FileTime | src/windows.rs:214 | the combined file time has the high half above bit 32 and the low half below |
| Windows.FileTimeRoundTrip | src/windows.rs:214 | combining and splitting a file time are inverse, both ways round |
| Windows.DateDeletedAsWritten | src/windows.rs:208-219 | from 1970 on, the date is the whole seconds since the Unix epoch; before, the subtraction panics with overflow checks and otherwise wraps to the seconds of the wrapped tick count |
| Windows.DateDeletedUnix | src/windows.rs:210-218 | the deletion date is the floor of the seconds since the Unix epoch, negative exactly before 1970 |
| Windows.DateDeletedAgrees | src/windows.rs:210-218 | from 1970 on both agree; the epoch is 0; whole seconds read back exactly; the date is monotone |
| Windows.PreEpochDate | src/windows.rs:215 | one tick before 1970, as written, either panics or gives 1844674407370; the intended value is -1 |
| Windows.List | src/windows.rs:76-122 | listing succeeds exactly when every entry's date is computed and its name is Unicode, giving one item per entry in order with its id, name, location and date; otherwise the first failing entry's error, the date checked before the name; as written the date panics or wraps before 1970, corrected it is the floor |
| Windows.DateDeleted | src/windows.rs:208-219 | the date of an entry fails only as written, with overflow checks, before 1970, and then panics; from 1970 on, or corrected, it is the floor of the seconds since the epoch |
| Windows.ListAgrees | src/windows.rs:76-122 | when no entry was deleted before 1970, `list` as written and corrected agree |
| Windows.Perform | src/windows.rs:70 | performing succeeds exactly when the shell accepts the batch |
| Windows.QueueDeletes | src/windows.rs:55-69 | one deletion per path, in order, unless the shell refuses a name |
| Windows.DeleteAll | src/windows.rs:47-73 | deleting succeeds exactly when every name parses and the batch performs, even an empty batch |
| Windows.QueuePurges | src/windows.rs:133-139 | one deletion per item id, in order |
| Windows.PurgeAll | src/windows.rs:124-145 | nothing is performed for no items; otherwise the items' deletions are performed |
| Windows.FirstCollision | src/windows.rs:160-165 | finds the first item whose original path exists, and none exactly when no such item exists |
| Windows.QueueMoves | src/windows.rs:170-184 | one move per item, taking its id to its original folder under its name |
| Windows.RestoreAll | src/windows.rs:147-190 | any existing original path gives `RestoreCollision` with the whole list before anything is queued; otherwise the moves are performed, only when non-empty |
| Windows.RestoreCollisionFirst | src/windows.rs:160-165 | the collision check decides first, naming the first existing path whatever the shell does |
| Windows.EmptyBatches | src/windows.rs:124-190 | purging and restoring nothing perform nothing; deleting nothing still performs the empty batch |
| Text.DecimalRoundTrip | src/freedesktop.rs:309 | the printed uid reads back as the uid, so folder names of different users differ |
| Text.LinesOfTerminated | src/freedesktop.rs:387-400 | lines written each with a newline read back as those lines |
| Text.Trim | src/freedesktop.rs:150-151 | `trim` leaves text that neither starts nor ends with a Unicode white-space character |
| Text.TrimSurroundedBySpace | src/freedesktop.rs:150-151 | the trimmed text is a piece of the original with only white-space characters before and after it |
| Text.TrimIdempotent | src/freedesktop.rs:150-151 | trimming twice is trimming once |
| Text.TrimUnicodeSpaces | src/freedesktop.rs:150-151 | a no-break space and an ideographic space around a word are trimmed |
| Text.JoinSplitPattern | src/macos/mod.rs:284 | joining the pieces of a split gives back the string |
| Sequences.SplitJoin | src/uri_path.rs:486-502 | splitting a join of separator-free parts gives back the parts |
| FsPaths.ParseDisplay | src/freedesktop.rs:207-210 | parsing the bytes of a canonical path gives the path back |
| FsPaths.StemOfExtended | src/freedesktop.rs:208 | the stem of `name.trashinfo` is `name` |
| FsPaths.ChildParts | src/lib.rs:296-298 | `parent` and `file_name` take a joined child apart again |

## Left out

- **I/O and operating-system calls** become inputs; the file system is an abstract map. This
  covers environment variables, the mount table (`get_mount_points`, reading `/proc/mounts`),
  `getuid`, the working directory and `canonicalize`. It also covers `NSFileManager`,
  `osascript` and OSAKit, the clock (`chrono::Local::now`), and the `url` crate's path encoding
  and decoding. The file manager is a function of the call's position and the path's text, so a
  repeated path can get a different answer the second time. The file manager's loop reads the
  clock once per reported item, so the clock is a function of the item's position.
- **Windows COM plumbing** is not modelled: `CoInitializer`, `ensure_com_initialized`,
  `CoCreateInstance`, `SetOperationFlags`, and the `?` on each `DeleteItem`/`MoveItem`. The shell
  is a parameter that reports which names it refuses and whether the batch fails. The display
  name and property reads of `list` are given as the entries. `wstr_to_os_string` is left out,
  because the entries hold the wide strings already cut at their NUL. Interior NULs in wide
  strings are not modelled.
- **Encodings:** UTF-16 encoding of paths (`encode_wide`) is the parameter `encodeWide`.
  `from_utf8_lossy` on script output is not modelled (the output is taken as bytes).
- **Error text** is not modelled: the descriptions inside `Unknown`, `Os` and `Filesystem` are
  dropped or kept as raw bytes, and `Display for Error` is left out.
- **Windows.FileTime** is written arithmetically, as `high * 2^32 + low`. That equals the
  source's shift-and-or, because the two halves occupy disjoint bits.
- **Trash.DeleteAll** carries no contract of its own. It is canonicalization followed by the
  platform's `delete_all_canonicalized`, and `Trash.Delete` and
  `Trash.CanonicalizePathsInOrder` state its behaviour.
- **Return values of `delete_all`:** the front end returns `()`, while the macOS back ends
  return optional items. Each file is modelled as written.
- **Duplicated macOS helpers:** `esc_quote` and `percent_encode` in `src/macos/macos.rs` are
  the same text as in `src/macos/mod.rs`, so they are modelled once.
- **`percent_encode` chunking:** `MacOs.PercentEncode` escapes each byte that is not part of a
  well-formed character. Rust's `utf8_chunks` groups the bad bytes differently, but the escaped
  bytes and their order are the same.
- **Folder order in freedesktop `list`:** the folders are kept in a `HashSet`, whose iteration
  order is unspecified. The model reads them in insertion order and returns a set of items.
  Duplicate folders are not deduplicated.
- **Unreachable `home_error`:** `list`'s path that returns the home error is not modelled,
  because `home_trash` panics before it returns an error.
- **Removal I/O errors** of `remove_file` and `remove_dir_all` are not modelled; in the model
  they fail only on a missing entry.
- **`is_dir` and symbolic links:** `is_dir` follows a link to a directory, modelled with
  `Symlink(Some(DirKind))`. Deeper link chains are not modelled.
- **Not part of this model:**
  - `os_limited::is_empty`, `trash_folders` and `metadata`. They forward to platform functions
    that are not part of the freedesktop and Windows files modelled here.
  - `into_owned`, `to_borrowed`, `segments_mut`, `set_absolute` and the string comparisons of
    `Path`. They are lifetime and accessor plumbing.
  - The system-program fallback and desktop-environment detection in the freedesktop tests.
- UriPath.PushAsWritten: the source's `u16` counters are `nat`s, and wrap-around is not
  modelled. Corrected operations keep the counters bounded by the number of segments, at most
  65535. `clear` as written keeps the counters, though, so repeated `clear` and `push(".")`
  raise the single-dot count past 65535 (`UriPath.ClearThenPushGrows`). There the source
  panics with overflow checks or wraps without them. The model keeps counting.
- Freedesktop.MoveItemsNoReplace: a failure returns only the error. Entries the walk had
  already renamed before the failing step are not returned as a partial file system.
- Freedesktop.MoveItemsNoReplace: the order in which `read_dir` lists entries is not modelled.
  It matters only when `dst` lies inside `src` and `src` directly holds non-directories. The
  model takes them to be listed before the placeholder, so the walk meets them again below
  `dst` and fails with `NotFound`. Listed after it, they would be removed with the tree.
- Freedesktop.TryCandidates: a failure returns only the error. The info file written before a
  failed move, which the source tries to remove, is not part of a returned state.
- FreedesktopRestore.RestoreOne: a failure returns only the error. The directories
  `create_dir_all` made, and a placeholder made before a failed rename, are not returned as
  a partial file system.

## Findings

| source | as written | input that shows it | evidently intended | confidence | as-written member | corrected member |
|---|---|---|---|---|---|---|
| src/uri_path.rs:335-339 | `push` of ".." counts it as leading only when the segment count equals the ".." count, including the lone empty segment it replaces | `Path::try_from("")` then `push("..")`: the leading ".." count is 0 | the count is 1, as parsing ".." gives | not executed; medium | UriPath.PushDoubleDotOntoEmpty | UriPath.Push |
| src/uri_path.rs:93-96 | `clear` resets the segments but not the counters | `Path::try_from(".")` then `clear()`: the single-dot count stays 1 | all counters 0 | not executed; medium | UriPath.ClearKeepsCounters | UriPath.Clear |
| src/uri_path.rs:946-950 | `parse_path` counts only the literal "." and "..", while `is_single_dot_segment` is percent-aware | `Path::try_from("%2E")`: one "." segment, single-dot count 0 | count 1; `remove_dot_segments` then skips it | not executed; medium | UriPath.ParseMissesEncodedDot | UriPath.PathTryFrom |
| src/uri_path.rs:366-435 | `remove_dot_segments` drops unnormalized dot segments but keeps the unnormalized count | `"%2E"` with accurate counters, then `remove_dot_segments()`: count 1 over one empty segment | count recomputed to 0 | not executed; medium | UriPathDots.RemovalKeepsUnnormalizedCount | UriPathDots.RemoveDotSegments |
| src/lib.rs:247-255 | a target whose parent is the root and which has no file name canonicalizes to `/` | `delete("/..")` hands `/` to the platform | `TargetedRoot` | not executed; high | Trash.CanonicalizeLetsRootThrough | Trash.CanonicalizeOneChecked |
| src/freedesktop.rs:319-336 | a newly created `.Trash-$uid` gets no `info` or `files` directory | deleting a file on a mount with neither `.Trash` nor `.Trash-$uid` | the folder gets `info` and `files`, as the home trash does | not executed; high | Freedesktop.FreshUserTrashRefusesItems | Freedesktop.MountedTrashFoldersFixed |
| src/freedesktop.rs:99 | relative `Path=` values are resolved against the trash folder's parent | an item from `/mnt/a` in `/mnt/.Trash/1000` lists as `/mnt/.Trash/a`; this shows only once the sticky-bit test lets `.Trash/$uid` be used | resolved against the mount `/mnt` | not executed; high | FreedesktopItems.SharedTrashMisresolved | FreedesktopItems.MountFolderResolved |
| src/freedesktop.rs:151 | the value is the second `=`-piece only | `Path=/a=b` lists as `/a` | everything after the first `=` | not executed; high | FreedesktopItems.KeyValueTruncates | FreedesktopItems.KeyValueFixedRoundTrip |
| src/freedesktop.rs:426-476 | the walk's directory step does nothing, so entries inside subdirectories go nowhere | deleting `d` holding `d/s/f` fails with `NotFound`; `d/e/` (empty) is lost | the whole tree is moved | not executed; high | Freedesktop.WalkFailsOnNestedEntry | Freedesktop.WholeMoveKeepsEntry |
| src/freedesktop.rs:100-102 | a trash folder without `info` ends `list` with `Filesystem` | a home trash never written to, with `info` missing | no items from that folder | not executed; medium | FreedesktopItems.MissingHomeInfo | FreedesktopItems.List |
| src/freedesktop.rs:253-280 | `is_dir` follows a trashed symbolic link, so a directory placeholder is made and renaming the link over it fails | restoring a trashed link to a directory | a file placeholder, the link restored | not executed; medium | FreedesktopRestore.LinkRestoreFails | FreedesktopRestore.LinkRestoreFixed |
| src/macos/mod.rs:284-308 | `split` never yields an empty list, so an empty output gives one item with an empty id | `osascript` prints only a newline for one deleted path | no items reported | not executed; medium | MacOs.EmptyOutputPhantomItem | MacOs.CliItems |
| src/freedesktop.rs:516-528 | the mask called `S_ISVTX` is `0x1000`, which is `S_IFIFO` within the file-type field, not the sticky bit `0x200` | a sticky `.Trash` directory (mode `041777`) with a `.Trash/$uid` directory: bit `0x1000` is clear, so the folder is `InvalidNotSticky` and never used | test the sticky bit `0x200`, as the comment's manual page says | not executed; high | Freedesktop.SharedTrashUnusedAsWritten | Freedesktop.StickyTrashOffered |
| src/freedesktop.rs:459-476 | the walk moves a directory into a place inside itself, and `remove_dir_all` then deletes the whole tree, placeholder included; the call returns `Ok` | deleting an empty `files` folder of the home trash: the placeholder `files/files` is made, the walk finds only directories, and `remove_dir_all` removes both, leaving an info file that points at nothing | refuse the move, as `rename` of a directory into itself does | not executed; medium | Freedesktop.WalkIntoItself | Freedesktop.MoveItemsWhole |
| src/windows.rs:215 | `time_u64 - EPOCH_AS_FILETIME` is unsigned | a deletion date one tick before 1970: a panic, or 1844674407370 | -1 (seconds before the epoch) | not executed; low | Windows.PreEpochDate | Windows.DateDeletedUnix |
