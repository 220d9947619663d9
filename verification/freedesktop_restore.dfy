/**
 * `purge_all` and `restore_all` of the freedesktop.org engine. Both find an item's content from
 * its id, the path of its info file: the trash folder is two levels up, and the content is
 * `files/` joined with the info file's stem.
 */
module FreedesktopRestore {
  import opened Wrappers
  import opened Bytes
  import opened Text
  import opened FsPaths
  import opened AbstractFs
  import opened Trash
  import opened Freedesktop
  import Sequences

  // ---------------------------------------------------------------------------------------
  // Locating the content
  // ---------------------------------------------------------------------------------------

  /**
   * The content path of the item whose info file is at `id`: `parent().unwrap().parent().unwrap()`
   * then `join("files").join(file_stem().unwrap())`. Each missing piece is a panic.
   */
  function ContentPath(id: seq<byte>): (r: Result<FsPath, Error>)
    ensures r.Success? <==> |ParsePath(id).components| >= 2 && FileName(ParsePath(id)).Some?
    ensures r.Failure? ==> r.error == Panic
  {
    var infoFile := ParsePath(id);
    match Parent(infoFile)
    case None => Failure(Panic)
    case Some(infoDir) =>
      match Parent(infoDir)
      case None => Failure(Panic)
      case Some(trash) =>
        match FileStem(infoFile)
        case None => Failure(Panic)
        case Some(stem) => Success(Join(Child(trash, FILES()), ParsePath(stem)))
  }

  /** `.trashinfo` is a dot followed by a word without dots. */
  lemma TrashInfoSuffix()
    ensures TRASHINFO() == [DOT] + Ascii("trashinfo") && DOT !in Ascii("trashinfo")
    ensures |TRASHINFO()| == 10 && SLASH !in TRASHINFO()
  {
    assert TRASHINFO() == [DOT, 0x74, 0x72, 0x61, 0x73, 0x68, 0x69, 0x6E, 0x66, 0x6F];
    assert Ascii("trashinfo") == [0x74, 0x72, 0x61, 0x73, 0x68, 0x69, 0x6E, 0x66, 0x6F];
  }

  /** The directory names of a trash folder are names. */
  lemma FolderNames()
    ensures IsName(INFO()) && IsName(FILES())
  {
    assert INFO() == [0x69, 0x6E, 0x66, 0x6F];
    assert FILES() == [0x66, 0x69, 0x6C, 0x65, 0x73];
  }

  /** The info file of a name is a canonical path when the trash folder is. */
  lemma InfoPathCanonical(trash: FsPath, c: seq<byte>)
    requires Canonical(trash) && IsName(c)
    ensures IsName(c + TRASHINFO()) && Canonical(InfoPath(trash, c))
  {
    TrashInfoSuffix();
    FolderNames();
    var n := c + TRASHINFO();
    assert SLASH !in n by {
      assert forall i :: 0 <= i < |n| ==> n[i] == (if i < |c| then c[i] else TRASHINFO()[i - |c|]);
    }
    var p := InfoPath(trash, c);
    assert p.components == trash.components + [Normal(INFO()), Normal(n)];
  }

  /**
   * The content path found from an item's id is where deleting put the content: for the info file
   * `trash/info/c.trashinfo` of a canonical trash folder, it is `trash/files/c`.
   */
  lemma ContentOfInfoPath(trash: FsPath, c: seq<byte>)
    requires Canonical(trash) && IsName(c)
    ensures ContentPath(Display(InfoPath(trash, c))) == Success(FilesPath(trash, c))
  {
    InfoPathCanonical(trash, c);
    ParseDisplay(InfoPath(trash, c));
    ChildParts(Child(trash, INFO()), c + TRASHINFO());
    ChildParts(trash, INFO());
    TrashInfoSuffix();
    StemOfExtended(c, Ascii("trashinfo"));
    assert c + TRASHINFO() == c + [DOT] + Ascii("trashinfo");
    JoinName(Child(trash, FILES()), c);
  }

  // ---------------------------------------------------------------------------------------
  // purge_all
  // ---------------------------------------------------------------------------------------

  /**
   * Purging one item: panics unless the content exists (`assert!(file.exists())`), removes it as a
   * tree when `is_dir` holds and as a file otherwise, then removes the info file.
   */
  function PurgeOne(fs: Fs, item: TrashItem): (r: Result<Fs, Error>)
    ensures r.Success? ==> ContentPath(item.id).Success?
    ensures r.Success? ==> ContentPath(item.id).value !in r.value && ParsePath(item.id) !in r.value
    ensures r.Success? ==> forall q :: q in r.value ==> q in fs && r.value[q] == fs[q]
    ensures r.Success? ==> forall q :: q in fs && q != ParsePath(item.id) && !InSubtree(q, ContentPath(item.id).value) ==> q in r.value
    ensures ContentPath(item.id).Success? && !Exists(fs, ContentPath(item.id).value) ==> r == Failure(Panic)
  {
    var file :- ContentPath(item.id);
    if !Exists(fs, file) then Failure(Panic)
    else
      match if IsDir(fs, file) then RemoveTree(fs, file) else RemoveFile(fs, file)
      case Failure(_) => Failure(Filesystem(file))
      case Success(fs1) =>
        assert InSubtree(file, file);
        var info := ParsePath(item.id);
        RemoveFile(fs1, info).MapFailure(_ => Filesystem(info))
  }

  /** Neither the content nor the info file of `item` is left in `fs`. */
  predicate Purged(fs: Fs, item: TrashItem) {
    ContentPath(item.id).Success? && ContentPath(item.id).value !in fs && ParsePath(item.id) !in fs
  }

  /** Every entry of `small` is an entry of `big` with the same node. */
  predicate Shrunk(small: Fs, big: Fs) {
    forall q :: q in small ==> q in big && small[q] == big[q]
  }

  /** Purges the items in order; the first failure ends the purge. */
  function PurgeAll(fs: Fs, items: seq<TrashItem>): (r: Result<Fs, Error>)
    ensures r.Success? ==> forall k :: 0 <= k < |items| ==> Purged(r.value, items[k])
    ensures r.Success? ==> Shrunk(r.value, fs)
    decreases |items|
  {
    if |items| == 0 then Success(fs)
    else
      var fs1 :- PurgeOne(fs, items[0]);
      var fs2 :- PurgeAll(fs1, items[1..]);
      PurgeAllStep(fs, fs1, fs2, items);
      Success(fs2)
  }

  /** The purge of the first item and of the rest combine into the purge of all. */
  lemma {:induction false} PurgeAllStep(fs: Fs, fs1: Fs, fs2: Fs, items: seq<TrashItem>)
    requires |items| > 0 && Purged(fs1, items[0]) && Shrunk(fs1, fs)
    requires forall k :: 0 <= k < |items[1..]| ==> Purged(fs2, items[1..][k])
    requires Shrunk(fs2, fs1)
    ensures forall k :: 0 <= k < |items| ==> Purged(fs2, items[k])
    ensures Shrunk(fs2, fs)
  {
    assert Purged(fs2, items[0]);
    forall k | 1 <= k < |items| ensures Purged(fs2, items[k]) {
      assert items[k] == items[1..][k - 1];
    }
  }

  // ---------------------------------------------------------------------------------------
  // restore_all
  // ---------------------------------------------------------------------------------------

  /**
   * Restoring one item. The content must exist (else a panic); the original parent is created
   * with `create_dir_all`; a placeholder is created at the original path exclusively, a directory
   * when the content counts as one and an empty file otherwise, and `AlreadyExists` there is a
   * collision; then the content is renamed over the placeholder and the info file removed.
   * "Directory" is `is_dir`, which follows a symbolic link, as written, and the entry's own type
   * corrected, as the code's comment intends.
   */
  function RestoreOne(fs: Fs, item: TrashItem, mode: u32, corrected: bool): (r: Result<Fs, Error>)
    ensures r.Failure? && r.error.RestoreCollision? ==> r.error == RestoreCollision(OriginalPath(item), [])
    ensures r.Success? ==> ContentPath(item.id).Success? && ParsePath(item.id) !in r.value
    ensures r.Success? ==> ContentPath(item.id).value in fs
    ensures r.Success? && ParsePath(item.id) != OriginalPath(item) ==>
      OriginalPath(item) in r.value && r.value[OriginalPath(item)] == fs[ContentPath(item.id).value]
    ensures ContentPath(item.id).Success? && !Exists(fs, ContentPath(item.id).value) ==> r == Failure(Panic)
  {
    var file :- ContentPath(item.id);
    if !Exists(fs, file) then Failure(Panic)
    else
      var original := OriginalPath(item);
      var fs1 :- CreateDirAll(fs, item.originalParent, mode).MapFailure(_ => Filesystem(item.originalParent));
      var asDir := if corrected then IsRealDir(fs1, file) else IsDir(fs1, file);
      var placeholder := if asDir then CreateDir(fs1, original, mode) else CreateNew(fs1, original, []);
      match placeholder
      case Failure(AlreadyExists) => Failure(RestoreCollision(original, []))
      case Failure(_) => Failure(Filesystem(original))
      case Success(fs2) =>
        assert original != file;
        var fs3 :- Rename(fs2, file, original).MapFailure(_ => Filesystem(file));
        var info := ParsePath(item.id);
        RemoveFile(fs3, info).MapFailure(_ => Filesystem(info))
  }

  /**
   * Where a successful restore puts things: every entry of the content's tree at its rebased
   * place under the original path (unless that place is the info file, removed last); every
   * entry outside the content tree, the original path's tree and the info file as it was; and
   * nothing new but the restored tree and the directories `create_dir_all` made.
   */
  lemma RestoreOneMoves(fs: Fs, item: TrashItem, mode: u32, corrected: bool)
    requires RestoreOne(fs, item, mode, corrected).Success?
    ensures ContentPath(item.id).Success?
    ensures RestoredShape(fs, RestoreOne(fs, item, mode, corrected).value, ContentPath(item.id).value, OriginalPath(item), ParsePath(item.id), mode)
  {
    var fs1, fs2, fs3 := RestoreOneSteps(fs, item, mode, corrected);
    StepsGiveShape(fs, fs1, fs2, fs3, ContentPath(item.id).value, OriginalPath(item), ParsePath(item.id), mode);
  }

  /**
   * `r` is `fs` with the tree at `file` moved under `original` and the `info` file gone: the
   * moved tree rebased, everything outside both trees and `info` kept, and nothing new but
   * the moved tree and directories of `mode`.
   */
  predicate RestoredShape(fs: Fs, r: Fs, file: FsPath, original: FsPath, info: FsPath, mode: u32) {
    && (forall q :: q in fs && InSubtree(q, file) && Rebase(q, file, original) != info ==>
          Rebase(q, file, original) in r && r[Rebase(q, file, original)] == fs[q])
    && (forall q :: q in fs && !InSubtree(q, file) && !InSubtree(q, original) && q != info ==> q in r && r[q] == fs[q])
    && (forall q :: q in r && q !in fs ==> InSubtree(q, original) || r[q] == Dir(mode))
  }

  /** The restore steps, followed by the removal of `info`, give the restored shape. */
  lemma StepsGiveShape(fs: Fs, fs1: Fs, fs2: Fs, fs3: Fs, file: FsPath, original: FsPath, info: FsPath, mode: u32)
    requires RestoreSteps(fs, fs1, fs2, fs3, file, original, mode)
    ensures RestoredShape(fs, fs3 - {info}, file, original, info, mode)
  {
    RenamedContent(fs, fs1, fs2, fs3, file, original, mode);
    RenamedFrame(fs, fs1, fs2, fs3, file, original, mode);
    RenamedNew(fs, fs1, fs2, fs3, file, original, mode);
  }

  /** The steps of a restore, as plain maps: ancestors added, a placeholder put at `original`, `file` renamed onto it. */
  predicate RestoreSteps(fs: Fs, fs1: Fs, fs2: Fs, fs3: Fs, file: FsPath, original: FsPath, mode: u32) {
    && (forall q :: q in fs ==> q in fs1 && fs1[q] == fs[q])
    && (forall q :: q in fs1 && q !in fs ==> fs1[q] == Dir(mode))
    && original !in fs1 && file in fs1
    && (fs2 == fs1[original := Dir(mode)] || fs2 == fs1[original := File([])])
    && Rename(fs2, file, original) == Success(fs3)
  }

  /** The content's tree arrives rebased under `original`. */
  lemma RenamedContent(fs: Fs, fs1: Fs, fs2: Fs, fs3: Fs, file: FsPath, original: FsPath, mode: u32)
    requires RestoreSteps(fs, fs1, fs2, fs3, file, original, mode)
    ensures forall q :: q in fs && InSubtree(q, file) ==> Rebase(q, file, original) in fs3 && fs3[Rebase(q, file, original)] == fs[q]
  {
    RenameMovesSubtree(fs2, file, original);
    forall q | q in fs && InSubtree(q, file) ensures q in fs2 && fs2[q] == fs[q] {
      assert q in fs1 && q != original;
    }
  }

  /** Entries outside both trees are kept. */
  lemma RenamedFrame(fs: Fs, fs1: Fs, fs2: Fs, fs3: Fs, file: FsPath, original: FsPath, mode: u32)
    requires RestoreSteps(fs, fs1, fs2, fs3, file, original, mode)
    ensures forall q :: q in fs && !InSubtree(q, file) && !InSubtree(q, original) ==> q in fs3 && fs3[q] == fs[q]
  {
    forall q | q in fs && !InSubtree(q, file) && !InSubtree(q, original) ensures q in fs2 && fs2[q] == fs[q] {
      assert q in fs1 && q != original;
    }
  }

  /** An entry that was not there before is below `original` or a directory `create_dir_all` made. */
  lemma RenamedNew(fs: Fs, fs1: Fs, fs2: Fs, fs3: Fs, file: FsPath, original: FsPath, mode: u32)
    requires RestoreSteps(fs, fs1, fs2, fs3, file, original, mode)
    ensures forall q :: q in fs3 && q !in fs ==> InSubtree(q, original) || fs3[q] == Dir(mode)
  {
    RenameOrigin(fs2, file, original);
    forall q | q in fs3 && q !in fs && !InSubtree(q, original) ensures fs3[q] == Dir(mode) {
      assert q in fs2 && q != original && fs3[q] == fs2[q];
      assert q in fs1 && fs2[q] == fs1[q];
    }
  }

  /** No entry is a symbolic link to a directory, the one kind `is_dir` and the entry's type disagree on. */
  predicate NoDirLinks(fs: Fs) {
    forall p :: p in fs ==> fs[p] != Symlink(Some(DirKind))
  }

  /** Without links to directories, restoring one item as written and corrected agree. */
  lemma RestoreOneAgrees(fs: Fs, item: TrashItem, mode: u32)
    requires NoDirLinks(fs)
    ensures RestoreOne(fs, item, mode, false) == RestoreOne(fs, item, mode, true)
  {
    var file := ContentPath(item.id);
    if file.Success? && Exists(fs, file.value) {
      var fs1 := CreateDirAll(fs, item.originalParent, mode);
      if fs1.Success? {
        assert fs1.value[file.value] == fs[file.value];
        assert IsDir(fs1.value, file.value) == IsRealDir(fs1.value, file.value);
      }
    }
  }

  /** `rename` brings in no new node. */
  lemma RenameNoDirLinks(fs: Fs, from: FsPath, to: FsPath)
    requires NoDirLinks(fs) && Rename(fs, from, to).Success?
    ensures NoDirLinks(Rename(fs, from, to).value)
  {
    if from != to {
      MovedOrigin(fs, from, to);
    }
  }

  /** Restoring creates only directories and empty files and moves existing nodes: no link to a directory appears. */
  lemma RestoreOneNoDirLinks(fs: Fs, item: TrashItem, mode: u32, corrected: bool)
    requires NoDirLinks(fs) && RestoreOne(fs, item, mode, corrected).Success?
    ensures NoDirLinks(RestoreOne(fs, item, mode, corrected).value)
  {
    var fs1, fs2, fs3 := RestoreOneSteps(fs, item, mode, corrected);
    StepsNoDirLinks(fs, fs1, fs2, fs3, ContentPath(item.id).value, OriginalPath(item), mode);
  }

  /** The restore steps bring in no link to a directory. */
  lemma StepsNoDirLinks(fs: Fs, fs1: Fs, fs2: Fs, fs3: Fs, file: FsPath, original: FsPath, mode: u32)
    requires NoDirLinks(fs) && RestoreSteps(fs, fs1, fs2, fs3, file, original, mode)
    ensures NoDirLinks(fs3)
  {
    assert NoDirLinks(fs1);
    assert NoDirLinks(fs2);
    RenameNoDirLinks(fs2, file, original);
  }

  /** The states a successful restore passes through: ancestors created, placeholder made, content renamed, info file removed. */
  lemma RestoreOneSteps(fs: Fs, item: TrashItem, mode: u32, corrected: bool) returns (fs1: Fs, fs2: Fs, fs3: Fs)
    requires RestoreOne(fs, item, mode, corrected).Success?
    ensures ContentPath(item.id).Success?
    ensures CreateDirAll(fs, item.originalParent, mode) == Success(fs1)
    ensures RestoreSteps(fs, fs1, fs2, fs3, ContentPath(item.id).value, OriginalPath(item), mode)
    ensures RestoreOne(fs, item, mode, corrected).value == fs3 - {ParsePath(item.id)}
  {
    var file := ContentPath(item.id).value;
    var original := OriginalPath(item);
    fs1 := CreateDirAll(fs, item.originalParent, mode).value;
    var asDir := if corrected then IsRealDir(fs1, file) else IsDir(fs1, file);
    fs2 := (if asDir then CreateDir(fs1, original, mode) else CreateNew(fs1, original, [])).value;
    fs3 := Rename(fs2, file, original).value;
  }

  /** The items restored in order; the first failure ends the restore, a collision with the whole rest of the list. */
  function RestoreAll(fs: Fs, items: seq<TrashItem>, mode: u32, corrected: bool): (r: Result<Fs, Error>)
    ensures r.Failure? && r.error.RestoreCollision? ==>
      0 < |r.error.remainingItems| <= |items| && r.error.remainingItems == items[|items| - |r.error.remainingItems|..]
    decreases |items|
  {
    if |items| == 0 then Success(fs)
    else
      match RestoreOne(fs, items[0], mode, corrected)
      case Failure(e) => if e.RestoreCollision? then Failure(RestoreCollision(e.path, items)) else Failure(e)
      case Success(fs1) =>
        var r := RestoreAll(fs1, items[1..], mode, corrected);
        assert r.Failure? && r.error.RestoreCollision? ==> items[1..][|items| - 1 - |r.error.remainingItems|..] == items[|items| - |r.error.remainingItems|..];
        r
  }

  /**
   * A collision at an item ends the restore with `RestoreCollision` carrying that item and all
   * later ones; a successful restore found the content of every item.
   */
  lemma {:induction false} RestoreAllOutcome(fs: Fs, items: seq<TrashItem>, mode: u32, corrected: bool)
    ensures var r := RestoreAll(fs, items, mode, corrected);
      r.Failure? && r.error.RestoreCollision? ==>
        exists k :: 0 <= k < |items| && r.error == RestoreCollision(OriginalPath(items[k]), items[k..])
    ensures RestoreAll(fs, items, mode, corrected).Success? ==> forall k :: 0 <= k < |items| ==> ContentPath(items[k].id).Success?
    decreases |items|
  {
    if |items| > 0 {
      var one := RestoreOne(fs, items[0], mode, corrected);
      if one.Failure? {
        assert items[0..] == items;
      } else {
        var r := RestoreAll(one.value, items[1..], mode, corrected);
        RestoreAllOutcome(one.value, items[1..], mode, corrected);
        RestoreAllCons(fs, items, mode, corrected);
        if r.Failure? && r.error.RestoreCollision? {
          var k :| 0 <= k < |items[1..]| && r.error == RestoreCollision(OriginalPath(items[1..][k]), items[1..][k..]);
          assert items[1..][k..] == items[k + 1..] && items[1..][k] == items[k + 1];
          assert r.error == RestoreCollision(OriginalPath(items[k + 1]), items[k + 1..]);
        } else if r.Success? {
          assert forall k :: 1 <= k < |items| ==> items[k] == items[1..][k - 1];
        }
      }
    }
  }

  /** Restoring a list is restoring a prefix, then the rest from where the prefix left off. */
  lemma {:induction false} RestoreAllSplit(fs: Fs, a: seq<TrashItem>, b: seq<TrashItem>, mode: u32, corrected: bool)
    requires RestoreAll(fs, a, mode, corrected).Success?
    ensures RestoreAll(fs, a + b, mode, corrected) == RestoreAll(RestoreAll(fs, a, mode, corrected).value, b, mode, corrected)
    decreases |a|
  {
    if |a| > 0 {
      var fs1 := RestoreOne(fs, a[0], mode, corrected);
      RestoreAllCons(fs, a, mode, corrected);
      Sequences.ConcatHead(a, b);
      RestoreAllCons(fs, a + b, mode, corrected);
      RestoreAllSplit(fs1.value, a[1..], b, mode, corrected);
    } else {
      assert a + b == b;
    }
  }

  /** After a first item restored without failure, the list restores as its tail does from there. */
  lemma RestoreAllCons(fs: Fs, items: seq<TrashItem>, mode: u32, corrected: bool)
    requires |items| > 0 && (RestoreAll(fs, items, mode, corrected).Success? || RestoreOne(fs, items[0], mode, corrected).Success?)
    ensures RestoreOne(fs, items[0], mode, corrected).Success?
    ensures RestoreAll(fs, items, mode, corrected) == RestoreAll(RestoreOne(fs, items[0], mode, corrected).value, items[1..], mode, corrected)
  {
  }

  /** Restoring the prefix up to `i + 1` is restoring item `i` after the prefix up to `i`. */
  lemma RestoreAllStep(fs: Fs, items: seq<TrashItem>, i: nat, mode: u32, corrected: bool)
    requires i < |items| && RestoreAll(fs, items[..i], mode, corrected).Success?
    ensures RestoreAll(fs, items[..i + 1], mode, corrected) == RestoreAll(RestoreAll(fs, items[..i], mode, corrected).value, [items[i]], mode, corrected)
  {
    Sequences.TakeSnoc(items, i);
    RestoreAllSplit(fs, items[..i], [items[i]], mode, corrected);
  }

  /**
   * The restore loop: items are restored one by one. On a collision the error carries the
   * colliding item and every later one, and the file system is left as restoring exactly the
   * earlier items leaves it: those stay restored.
   */
  method RestoreItems(fs: Fs, items: seq<TrashItem>, mode: u32, corrected: bool) returns (out: Fs, err: Option<Error>)
    ensures err.None? <==> RestoreAll(fs, items, mode, corrected).Success?
    ensures err.None? ==> RestoreAll(fs, items, mode, corrected) == Success(out)
    ensures err.Some? ==> RestoreAll(fs, items, mode, corrected) == Failure(err.value)
    ensures err.Some? && err.value.RestoreCollision? ==>
      (exists k :: 0 <= k < |items| && err.value == RestoreCollision(OriginalPath(items[k]), items[k..])
        && RestoreAll(fs, items[..k], mode, corrected) == Success(out))
  {
    out := fs;
    var i := 0;
    assert items[..0] == [];
    while i < |items|
      invariant 0 <= i <= |items|
      invariant RestoreAll(fs, items[..i], mode, corrected) == Success(out)
    {
      var step := RestoreOne(out, items[i], mode, corrected);
      if step.Failure? {
        RestoreAllSplit(fs, items[..i], items[i..], mode, corrected);
        Sequences.TakeDrop(items, i);
        var rest := items[i..];
        assert rest[0] == items[i];
        if step.error.RestoreCollision? {
          err := Some(RestoreCollision(step.error.path, rest));
          assert RestoreAll(out, rest, mode, corrected) == Failure(err.value) by {
            assert rest[0..] == rest;
          }
        } else {
          err := Some(step.error);
        }
        return;
      }
      RestoreAllStep(fs, items, i, mode, corrected);
      var one := [items[i]];
      assert one[1..] == [];
      assert RestoreAll(out, one, mode, corrected) == RestoreAll(step.value, [], mode, corrected);
      out := step.value;
      i := i + 1;
    }
    assert items[..i] == items;
    err := None;
  }

  /** Without links to directories, `restore_all` as written and corrected agree. */
  lemma {:induction false} RestoreAllAgrees(fs: Fs, items: seq<TrashItem>, mode: u32)
    requires NoDirLinks(fs)
    ensures RestoreAll(fs, items, mode, false) == RestoreAll(fs, items, mode, true)
    decreases |items|
  {
    if |items| > 0 {
      RestoreOneAgrees(fs, items[0], mode);
      var one := RestoreOne(fs, items[0], mode, true);
      if one.Success? {
        RestoreOneNoDirLinks(fs, items[0], mode, true);
        RestoreAllAgrees(one.value, items[1..], mode);
      }
    }
  }

  // ---------------------------------------------------------------------------------------
  // Restoring a symbolic link to a directory
  // ---------------------------------------------------------------------------------------

  /** A trashed symbolic link to a directory whose original place is free in an existing directory. */
  predicate LinkToRestore(fs: Fs, item: TrashItem) {
    && ContentPath(item.id).Success?
    && ContentPath(item.id).value in fs && fs[ContentPath(item.id).value] == Symlink(Some(DirKind))
    && IsRealDir(fs, item.originalParent) && IsName(item.name) && OriginalPath(item) !in fs
  }

  /**
   * As written, `is_dir` follows the link, so the placeholder is a directory, and renaming the
   * link (not a directory) over it fails: the restore stops with `Filesystem` naming the content.
   */
  lemma LinkRestoreFails(fs: Fs, item: TrashItem, mode: u32)
    requires LinkToRestore(fs, item)
    ensures RestoreOne(fs, item, mode, false) == Failure(Filesystem(ContentPath(item.id).value))
  {
    var file := ContentPath(item.id).value;
    var original := OriginalPath(item);
    OriginalPathParts(item);
    assert CreateDirAll(fs, item.originalParent, mode) == Success(fs);
    var fs2 := fs[original := Dir(mode)];
    assert CreateDir(fs, original, mode) == Success(fs2);
    assert file != original;
    assert Rename(fs2, file, original).Failure?;
  }

  /**
   * Corrected: the link's own type decides, the placeholder is a file, and the link lands at its
   * original path with its info file removed.
   */
  lemma LinkRestoreFixed(fs: Fs, item: TrashItem, mode: u32)
    requires LinkToRestore(fs, item)
    requires ParsePath(item.id) in fs && fs[ParsePath(item.id)].File?
    requires !InSubtree(ParsePath(item.id), ContentPath(item.id).value) && !InSubtree(ParsePath(item.id), OriginalPath(item))
    ensures RestoreOne(fs, item, mode, true).Success?
    ensures OriginalPath(item) in RestoreOne(fs, item, mode, true).value
    ensures RestoreOne(fs, item, mode, true).value[OriginalPath(item)] == Symlink(Some(DirKind))
    ensures ParsePath(item.id) !in RestoreOne(fs, item, mode, true).value
  {
    var file := ContentPath(item.id).value;
    var original := OriginalPath(item);
    var info := ParsePath(item.id);
    OriginalPathParts(item);
    assert CreateDirAll(fs, item.originalParent, mode) == Success(fs);
    var fs2 := fs[original := File([])];
    assert CreateNew(fs, original, []) == Success(fs2);
    assert file != original && info != original;
    LinkOverPlaceholder(fs2, file, original, info);
    RestoreThroughFile(fs, item, mode, fs2);
  }

  /** A restore whose content is no directory: a file placeholder, the rename over it, the info file removed. */
  lemma RestoreThroughFile(fs: Fs, item: TrashItem, mode: u32, fs2: Fs)
    requires ContentPath(item.id).Success? && Exists(fs, ContentPath(item.id).value)
    requires CreateDirAll(fs, item.originalParent, mode) == Success(fs)
    requires !IsRealDir(fs, ContentPath(item.id).value)
    requires CreateNew(fs, OriginalPath(item), []) == Success(fs2)
    requires Rename(fs2, ContentPath(item.id).value, OriginalPath(item)).Success?
    ensures var fs3 := Rename(fs2, ContentPath(item.id).value, OriginalPath(item)).value;
      RestoreOne(fs, item, mode, true) == RemoveFile(fs3, ParsePath(item.id)).MapFailure(_ => Filesystem(ParsePath(item.id)))
  {
  }

  /** Renaming a link over a file placeholder succeeds and leaves every unrelated entry alone. */
  lemma LinkOverPlaceholder(fs: Fs, link: FsPath, placeholder: FsPath, other: FsPath)
    requires link in fs && fs[link].Symlink? && placeholder in fs && fs[placeholder].File?
    requires ParentIsDir(fs, placeholder) && link != placeholder
    requires other in fs && !InSubtree(other, link) && !InSubtree(other, placeholder)
    ensures Rename(fs, link, placeholder).Success?
    ensures other in Rename(fs, link, placeholder).value
    ensures Rename(fs, link, placeholder).value[other] == fs[other]
  {
  }
}
