/**
 * The freedesktop.org trash engine (Freedesktop.org Trash specification 1.0) over the abstract
 * file system: where the home trash is, which mount a path belongs to, which trash folders a
 * mount has, and how one item is moved into a trash folder under a fresh name with its
 * `.trashinfo` record.
 */
module Freedesktop {
  import opened Wrappers
  import opened Bytes
  import opened Text
  import opened FsPaths
  import opened AbstractFs
  import opened Trash

  function TRASH(): seq<byte> { Ascii("Trash") }
  function INFO(): seq<byte> { Ascii("info") }
  function FILES(): seq<byte> { Ascii("files") }
  function TRASHINFO(): seq<byte> { Ascii(".trashinfo") }
  function DOT_TRASH(): seq<byte> { Ascii(".Trash") }
  function DOT_TRASH_DASH(): seq<byte> { Ascii(".Trash-") }

  // ---------------------------------------------------------------------------------------
  // home_trash
  // ---------------------------------------------------------------------------------------

  /** An environment variable that is set to a non-empty value. */
  predicate IsSet(v: Option<seq<byte>>) {
    v.Some? && |v.value| > 0
  }

  /**
   * `home_trash`: `$XDG_DATA_HOME/Trash`, else `$HOME/.local/share/Trash`; it panics when
   * neither variable is set to a non-empty value. The relative suffix is appended name by name,
   * as `join` does for a relative path of names.
   */
  function HomeTrash(xdgDataHome: Option<seq<byte>>, home: Option<seq<byte>>): (r: Result<FsPath, Error>)
    ensures r.Failure? <==> !IsSet(xdgDataHome) && !IsSet(home)
    ensures r.Failure? ==> r.error == Panic
    ensures r.Success? ==> FileName(r.value) == Some(TRASH())
    ensures IsSet(xdgDataHome) ==> Parent(r.value) == Some(ParsePath(xdgDataHome.value))
    ensures !IsSet(xdgDataHome) && IsSet(home) ==>
      StartsWith(r.value, ParsePath(home.value)) && |r.value.components| == |ParsePath(home.value).components| + 3
  {
    if IsSet(xdgDataHome) then
      var base := ParsePath(xdgDataHome.value);
      ChildParts(base, TRASH());
      Success(Child(base, TRASH()))
    else if IsSet(home) then
      var base := ParsePath(home.value);
      var share := Child(Child(base, Ascii(".local")), Ascii("share"));
      ChildStartsWith(base, Ascii(".local"));
      ChildStartsWith(Child(base, Ascii(".local")), Ascii("share"));
      ChildStartsWith(share, TRASH());
      StartsWithTransitive(share, Child(base, Ascii(".local")), base);
      StartsWithTransitive(Child(share, TRASH()), share, base);
      ChildParts(share, TRASH());
      Success(Child(share, TRASH()))
    else Failure(Panic)
  }

  // ---------------------------------------------------------------------------------------
  // Choosing the mount a path belongs to
  // ---------------------------------------------------------------------------------------

  /**
   * The `topdir` of `path`: the first mount point in the mount table, other than `/`, that the
   * path starts with; `/` when there is none.
   */
  function ChooseTopdir(mounts: seq<FsPath>, path: FsPath): (r: FsPath)
    ensures r == Root() || (r in mounts && StartsWith(path, r))
    ensures r == Root() <==> forall i :: 0 <= i < |mounts| ==> mounts[i] == Root() || !StartsWith(path, mounts[i])
    ensures r != Root() ==> exists i :: 0 <= i < |mounts| && mounts[i] == r
                                        && forall j :: 0 <= j < i ==> mounts[j] == Root() || !StartsWith(path, mounts[j])
    decreases |mounts|
  {
    if |mounts| == 0 then Root()
    else if mounts[0] != Root() && StartsWith(path, mounts[0]) then mounts[0]
    else
      var r := ChooseTopdir(mounts[1..], path);
      assert forall i :: 1 <= i < |mounts| ==> mounts[i] == mounts[1..][i - 1];
      r
  }

  // ---------------------------------------------------------------------------------------
  // Trash folders of a mount
  // ---------------------------------------------------------------------------------------

  datatype TrashValidity = Valid | InvalidSymlink | InvalidNotSticky

  /**
   * The mask `folder_validity` tests, `0x1000`. In octal that is `010000`, the FIFO type bit
   * `S_IFIFO` of the file-type field, not the sticky bit.
   */
  const MASK_AS_WRITTEN: nat := 0x1000

  /** The sticky bit `S_ISVTX`, octal `01000`. */
  const S_ISVTX: nat := 0x200

  /** `mode & bit != 0` for a one-bit mask, written arithmetically. */
  predicate HasBit(mode: u32, bit: nat)
    requires bit > 0
  {
    (mode / bit) % 2 == 1
  }

  /** The test `folder_validity` makes for the sticky bit: bit `0x1000` as written, `S_ISVTX` corrected. */
  predicate Sticky(mode: u32, corrected: bool) {
    HasBit(mode, if corrected then S_ISVTX else MASK_AS_WRITTEN)
  }

  /**
   * A mode whose file-type field (`S_IFMT`, bits 12 to 15) is `S_IFDIR` (octal `040000`), as
   * `symlink_metadata` reports it for every directory.
   */
  predicate DirectoryMode(mode: u32) {
    (mode / 0x1000) % 16 == 4
  }

  /** Every directory of the file system carries the directory type in its mode. */
  predicate ModesTyped(fs: Fs) {
    forall p :: p in fs && fs[p].Dir? ==> DirectoryMode(fs[p].mode)
  }

  /**
   * `folder_validity`: the `.Trash` directory of a mount is usable only when it is not a
   * symbolic link and its mode has the tested bit. A missing entry is a `Filesystem` error.
   * File modes are not modelled: a regular file reports "not sticky".
   */
  function FolderValidity(fs: Fs, p: FsPath, corrected: bool): (r: Result<TrashValidity, Error>)
    ensures r.Failure? <==> p !in fs
    ensures r.Failure? ==> r.error == Filesystem(p)
    ensures r == Success(Valid) <==> p in fs && fs[p].Dir? && Sticky(fs[p].mode, corrected)
    ensures r == Success(InvalidSymlink) <==> p in fs && fs[p].Symlink?
  {
    if p !in fs then Failure(Filesystem(p))
    else
      match fs[p]
      case Symlink(_) => Success(InvalidSymlink)
      case File(_) => Success(InvalidNotSticky)
      case Dir(mode) => if !Sticky(mode, corrected) then Success(InvalidNotSticky) else Success(Valid)
  }

  /**
   * As written no directory passes: the type field of a directory's mode is `0x4000`, so its bit
   * `0x1000` is clear. Corrected, a directory passes exactly when it has the sticky bit.
   */
  lemma DirectoryValidity(fs: Fs, p: FsPath)
    requires p in fs && fs[p].Dir? && DirectoryMode(fs[p].mode)
    ensures FolderValidity(fs, p, false) == Success(InvalidNotSticky)
    ensures FolderValidity(fs, p, true) == Success(Valid) <==> HasBit(fs[p].mode, S_ISVTX)
  {
    var t := fs[p].mode / 0x1000;
    assert t == 16 * (t / 16) + 4;
    assert t % 2 == 0;
  }

  /** `$topdir/.Trash`, the administrator-created shared trash of a mount. */
  function SharedTrash(topdir: FsPath): FsPath {
    Child(topdir, DOT_TRASH())
  }

  /** `$topdir/.Trash/$uid`, the user's folder inside the shared trash. */
  function SharedUserTrash(topdir: FsPath, uid: u32): FsPath {
    Child(SharedTrash(topdir), Decimal(uid))
  }

  /** `$topdir/.Trash-$uid`, the user's own trash on a mount. */
  function UserTrash(topdir: FsPath, uid: u32): FsPath {
    Child(topdir, DOT_TRASH_DASH() + Decimal(uid))
  }

  /** The file system after looking for trash folders, and the folders found, in order. */
  datatype Found = Found(fs: Fs, folders: seq<FsPath>)

  /** The shared-trash folder of a mount, when it is a valid `.Trash` holding a folder for the user. */
  function SharedFolder(fs: Fs, topdir: FsPath, uid: u32, corrected: bool): (r: Result<seq<FsPath>, Error>)
    ensures r.Success? ==> |r.value| <= 1
    ensures r.Success? ==>
      (r.value == [SharedUserTrash(topdir, uid)] <==>
        IsDir(fs, SharedTrash(topdir)) && FolderValidity(fs, SharedTrash(topdir), corrected) == Success(Valid)
        && IsDir(fs, SharedUserTrash(topdir, uid)))
  {
    var shared := SharedTrash(topdir);
    if IsDir(fs, shared) then
      match FolderValidity(fs, shared, corrected)
      case Failure(e) => Failure(e)
      case Success(validity) =>
        if validity == Valid && IsDir(fs, SharedUserTrash(topdir, uid)) then Success([SharedUserTrash(topdir, uid)])
        else Success([])
    else Success([])
  }

  /** As written, a file system whose directories carry their type never offers `.Trash/$uid`. */
  lemma SharedTrashUnusedAsWritten(fs: Fs, topdir: FsPath, uid: u32)
    requires ModesTyped(fs)
    ensures SharedFolder(fs, topdir, uid, false) == Success([])
  {
    var shared := SharedTrash(topdir);
    if shared in fs && fs[shared].Dir? {
      DirectoryValidity(fs, shared);
    }
  }

  /** Corrected, a sticky `.Trash` directory holding a folder for the user offers that folder. */
  lemma StickyTrashOffered(fs: Fs, topdir: FsPath, uid: u32)
    requires IsRealDir(fs, SharedTrash(topdir)) && DirectoryMode(fs[SharedTrash(topdir)].mode)
    requires HasBit(fs[SharedTrash(topdir)].mode, S_ISVTX) && IsDir(fs, SharedUserTrash(topdir, uid))
    ensures SharedFolder(fs, topdir, uid, true) == Success([SharedUserTrash(topdir, uid)])
    ensures SharedFolder(fs, topdir, uid, false) == Success([])
  {
    DirectoryValidity(fs, SharedTrash(topdir));
  }

  /**
   * `execute_on_mounted_trash_folders`, as the folders it hands to `op`: first `.Trash/$uid`
   * when `.Trash` is a valid shared trash holding it (and, with `firstOnly`, nothing more);
   * then `.Trash-$uid` when it is a directory, or after creating it with `create_dir` when
   * `createFolder` is set. The folder is created bare, without `info` and `files`. `corrected`
   * picks the mask of the validity test.
   */
  function MountedTrashFolders(fs: Fs, uid: u32, topdir: FsPath, firstOnly: bool, createFolder: bool, mode: u32, corrected: bool): (r: Result<Found, Error>)
    ensures r.Success? ==> forall f :: f in r.value.folders ==> f == SharedUserTrash(topdir, uid) || f == UserTrash(topdir, uid)
    ensures r.Success? ==> forall f :: f in r.value.folders ==> IsDir(r.value.fs, f)
    ensures r.Success? && firstOnly ==> |r.value.folders| <= 1
    ensures r.Success? && firstOnly && createFolder ==> |r.value.folders| == 1
    ensures r.Success? ==>
      (SharedUserTrash(topdir, uid) in r.value.folders <==> SharedFolder(fs, topdir, uid, corrected) == Success([SharedUserTrash(topdir, uid)]))
    ensures r.Success? ==>
      || r.value.fs == fs
      || (createFolder && UserTrash(topdir, uid) !in fs && r.value.fs == fs[UserTrash(topdir, uid) := Dir(mode)])
    ensures r.Success? && !createFolder ==> r.value.fs == fs
    ensures r.Failure? && SharedFolder(fs, topdir, uid, corrected).Success? ==> r.error == Filesystem(UserTrash(topdir, uid))
  {
    var shared :- SharedFolder(fs, topdir, uid, corrected);
    var user := UserTrash(topdir, uid);
    assert user != SharedUserTrash(topdir, uid) by {
      assert user.components[|topdir.components|] != SharedUserTrash(topdir, uid).components[|topdir.components|];
    }
    if firstOnly && |shared| == 1 then Success(Found(fs, shared))
    else if IsDir(fs, user) then Success(Found(fs, shared + [user]))
    else if createFolder then
      match CreateDir(fs, user, mode)
      case Failure(_) => Failure(Filesystem(user))
      case Success(fs1) =>
        assert forall f :: f in shared ==> f in fs && f != user;
        Success(Found(fs1, shared + [user]))
    else Success(Found(fs, shared))
  }

  // ---------------------------------------------------------------------------------------
  // Names in the trash
  // ---------------------------------------------------------------------------------------

  /** The `k`-th name tried for `name` in a trash folder: `name`, then `name.2`, `name.3`, ... */
  function CandidateName(name: seq<byte>, k: nat): seq<byte> {
    if k > 1 then name + [DOT] + Decimal(k) else name
  }

  /** `info/<c>.trashinfo` in a trash folder. */
  function InfoPath(trash: FsPath, c: seq<byte>): FsPath {
    Child(Child(trash, INFO()), c + TRASHINFO())
  }

  /** `files/<c>` in a trash folder. */
  function FilesPath(trash: FsPath, c: seq<byte>): FsPath {
    Child(Child(trash, FILES()), c)
  }

  /** Different attempts use different names. */
  lemma CandidateNamesDistinct(name: seq<byte>, j: nat, k: nat)
    requires 1 <= j < k
    ensures CandidateName(name, j) != CandidateName(name, k)
  {
    if j > 1 && CandidateName(name, j) == CandidateName(name, k) {
      var n := |name| + 1;
      assert CandidateName(name, j)[n..] == Decimal(j);
      assert CandidateName(name, k)[n..] == Decimal(k);
      DecimalInjective(j, k);
    }
  }

  /** Every candidate of a file name is a file name, and so is its info-file name. */
  lemma CandidateIsName(name: seq<byte>, k: nat)
    requires IsName(name)
    ensures IsName(CandidateName(name, k)) && IsName(CandidateName(name, k) + TRASHINFO())
  {
    var c := CandidateName(name, k);
    if k > 1 {
      assert c[|c| - 1] == Decimal(k)[|Decimal(k)| - 1];
      assert SLASH !in c by {
        forall i | 0 <= i < |c| ensures c[i] != SLASH {
          if i >= |name| + 1 {
            assert c[i] == Decimal(k)[i - |name| - 1];
          }
        }
      }
    }
    var t := c + TRASHINFO();
    assert t[|t| - 1] == TRASHINFO()[9];
    assert SLASH !in t by {
      forall i | 0 <= i < |t| ensures t[i] != SLASH {
        if i >= |c| {
          assert t[i] == TRASHINFO()[i - |c|];
        }
      }
    }
  }

  /** The info file and the files entry of any two attempts differ, and never coincide. */
  lemma TrashPathsDistinct(trash: FsPath, a: seq<byte>, b: seq<byte>)
    ensures InfoPath(trash, a) != FilesPath(trash, b)
    ensures InfoPath(trash, a) == InfoPath(trash, b) ==> a == b
    ensures FilesPath(trash, a) == FilesPath(trash, b) ==> a == b
  {
    var n := |trash.components|;
    assert InfoPath(trash, a).components[n] != FilesPath(trash, b).components[n];
    if InfoPath(trash, a) == InfoPath(trash, b) {
      assert InfoPath(trash, a).components[n + 1] == InfoPath(trash, b).components[n + 1];
      assert (a + TRASHINFO())[..|a|] == a;
    }
    if FilesPath(trash, a) == FilesPath(trash, b) {
      assert FilesPath(trash, a).components[n + 1] == FilesPath(trash, b).components[n + 1];
    }
  }

  /** Neither trash path of an attempt lies below the other's. */
  lemma TrashPathsApart(trash: FsPath, a: seq<byte>, b: seq<byte>)
    ensures !InSubtree(InfoPath(trash, a), FilesPath(trash, b))
    ensures !InSubtree(FilesPath(trash, b), InfoPath(trash, a))
  {
    var n := |trash.components|;
    assert InfoPath(trash, a).components[n] != FilesPath(trash, b).components[n];
  }

  // ---------------------------------------------------------------------------------------
  // The info record
  // ---------------------------------------------------------------------------------------

  function HEADER(): seq<byte> { Ascii("[Trash Info]") }
  function PATH_KEY(): seq<byte> { Ascii("Path") }
  function DATE_KEY(): seq<byte> { Ascii("DeletionDate") }

  /**
   * The `Path=` value written for `src` trashed on the mount at `topdir`, given the URL path
   * encodings `srcUri` and `topdirUri` of the two paths: the whole encoding on the root mount,
   * otherwise the encoding of `src` without as many characters as the encoding of `topdir` has
   * and without the slashes that follow.
   */
  function PathValue(srcUri: Text, topdirUri: Text, onRoot: bool): seq<byte> {
    if onRoot then srcUri
    else TrimStartMatches(DropChars(srcUri, CharCount(topdirUri)), SLASH)
  }

  /** When the mount's encoding is a prefix of the item's, the value is the rest, slashes trimmed. */
  lemma PathValueRelative(topdirUri: Text, rest: Text)
    ensures ValidUtf8(topdirUri + rest)
    ensures PathValue(topdirUri + rest, topdirUri, false) == TrimStartMatches(rest, SLASH)
  {
    DropCharsOfPrefix(topdirUri, rest);
  }

  /** The three lines of an info file. */
  function InfoLines(value: seq<byte>, date: seq<byte>): seq<seq<byte>> {
    [HEADER(), PATH_KEY() + [EQUALS] + value, DATE_KEY() + [EQUALS] + date]
  }

  /** The info file: each line followed by a newline. */
  function InfoText(value: seq<byte>, date: seq<byte>): seq<byte> {
    Terminated(InfoLines(value, date))
  }

  // ---------------------------------------------------------------------------------------
  // Moving an item into a trash folder
  // ---------------------------------------------------------------------------------------

  /** A non-directory at least two levels below `src`: the walk must rename it into a subdirectory. */
  predicate NestedNonDir(fs: Fs, src: FsPath, q: FsPath) {
    q in fs && InSubtree(q, src) && |q.components| >= |src.components| + 2 && !fs[q].Dir?
  }

  /** A non-directory directly inside `src`. */
  predicate DirectNonDir(fs: Fs, src: FsPath, q: FsPath) {
    q in fs && InSubtree(q, src) && |q.components| == |src.components| + 1 && !fs[q].Dir?
  }

  /** The direct non-directory entries of `src`, each renamed to its place below `dst`. */
  function DirectMoved(fs: Fs, src: FsPath, dst: FsPath): (m: Fs)
    ensures forall q :: DirectNonDir(fs, src, q) ==> Rebase(q, src, dst) in m && m[Rebase(q, src, dst)] == fs[q]
    ensures forall t :: t in m ==> InSubtree(t, dst)
  {
    var keys := set q | q in fs && DirectNonDir(fs, src, q);
    assert forall q1, q2 :: q1 in keys && q2 in keys && Rebase(q1, src, dst) == Rebase(q2, src, dst) ==> q1 == q2 by {
      forall q1, q2 | q1 in keys && q2 in keys && Rebase(q1, src, dst) == Rebase(q2, src, dst) ensures q1 == q2 {
        RebaseInjective(q1, q2, src, dst);
      }
    }
    map q | q in keys :: Rebase(q, src, dst) := fs[q]
  }

  /** What the walk leaves: `src` removed, and its direct non-directory entries renamed into `dst`. */
  function Walked(fs: Fs, src: FsPath, dst: FsPath): (r: Fs)
    ensures forall q :: q in fs && !InSubtree(q, src) && !InSubtree(q, dst) ==> q in r && r[q] == fs[q]
    ensures forall q :: DirectNonDir(fs, src, q) ==> Rebase(q, src, dst) in r && r[Rebase(q, src, dst)] == fs[q]
    ensures forall t :: t in r ==> (t in fs && !InSubtree(t, src)) || exists q :: DirectNonDir(fs, src, q) && t == Rebase(q, src, dst)
  {
    var kept := map q | q in fs && !InSubtree(q, src) :: fs[q];
    DirectMovedOrigin(fs, src, dst);
    kept + DirectMoved(fs, src, dst)
  }

  /** Everything the walk moved came from a direct non-directory entry of `src`. */
  lemma DirectMovedOrigin(fs: Fs, src: FsPath, dst: FsPath)
    ensures forall t :: t in DirectMoved(fs, src, dst) ==> exists q :: DirectNonDir(fs, src, q) && t == Rebase(q, src, dst)
  {
  }

  /**
   * `move_items_no_replace` as written: a placeholder at `dst` (`create_dir` for a directory,
   * `create_new` for anything else), then the walk of `execte_src_to_dst_operation`, whose
   * directory step does nothing: entries directly inside a directory are renamed into the new
   * directory, a non-directory deeper down is renamed into a directory that was never created
   * (`NotFound`), and `remove_dir_all` then drops what is left of `src`, empty subdirectories
   * included. When `dst` lies below `src`, the placeholder is one more (empty) directory of
   * `src`: a tree without non-directories is walked without effect and then removed whole,
   * placeholder included; a tree holding non-directories fails with `NotFound` (files directly
   * inside `src` are taken to be listed before the placeholder, so the walk meets them again
   * below `dst`).
   */
  function MoveItemsNoReplace(fs: Fs, src: FsPath, dst: FsPath, mode: u32): (r: Result<Fs, IoError>)
    ensures r == Failure(AlreadyExists) ==> dst in fs
    ensures r.Success? ==> src in fs && dst !in fs && ParentIsDir(fs, dst)
  {
    if src !in fs then Failure(NotFound)
    else if fs[src].Dir? then
      var fs1 :- CreateDir(fs, dst, mode);
      if exists q :: q in fs && NestedNonDir(fs, src, q) then Failure(NotFound)
      else if InSubtree(dst, src) && exists q :: q in fs && DirectNonDir(fs, src, q) then Failure(NotFound)
      else Success(Walked(fs1, src, dst))
    else
      var fs1 :- CreateNew(fs, dst, []);
      match Rename(fs1, src, dst)
      case Failure(e) => assert e != AlreadyExists; Failure(e)
      case Success(fs2) => Success(fs2)
  }

  /**
   * The corrected move: the same placeholder, then one `rename` of the whole tree onto it, so
   * that every entry below `src` arrives below `dst`.
   */
  function MoveItemsWhole(fs: Fs, src: FsPath, dst: FsPath, mode: u32): (r: Result<Fs, IoError>)
    ensures r == Failure(AlreadyExists) ==> dst in fs
    ensures r.Success? ==> src in fs && dst !in fs && ParentIsDir(fs, dst)
    ensures r.Success? ==> forall q :: q in fs && InSubtree(q, src) ==> Rebase(q, src, dst) in r.value && r.value[Rebase(q, src, dst)] == fs[q]
    ensures r.Success? && fs[src].Dir? ==> !InSubtree(dst, src)
  {
    if src !in fs then Failure(NotFound)
    else
      var fs1 :- if fs[src].Dir? then CreateDir(fs, dst, mode) else CreateNew(fs, dst, []);
      match Rename(fs1, src, dst)
      case Failure(e) => assert e != AlreadyExists; Failure(e)
      case Success(fs2) =>
        assert forall q :: q in fs && q != dst ==> q in fs1 && fs1[q] == fs[q];
        RenameMovesSubtree(fs1, src, dst);
        Success(fs2)
  }

  /** The corrected move leaves every entry outside both trees as it was. */
  lemma MoveWholeKeepsOutside(fs: Fs, src: FsPath, dst: FsPath, mode: u32)
    requires MoveItemsWhole(fs, src, dst, mode).Success?
    ensures var r := MoveItemsWhole(fs, src, dst, mode).value;
      forall q :: q in fs && !InSubtree(q, src) && !InSubtree(q, dst) ==> q in r && r[q] == fs[q]
  {
    var fs1 := (if fs[src].Dir? then CreateDir(fs, dst, mode) else CreateNew(fs, dst, [])).value;
    assert InSubtree(dst, dst) by {
      assert dst.components[..|dst.components|] == dst.components;
    }
    var r := MoveItemsWhole(fs, src, dst, mode).value;
    assert Rename(fs1, src, dst) == Success(r);
    forall q | q in fs && !InSubtree(q, src) && !InSubtree(q, dst) ensures q in r && r[q] == fs[q] {
      assert q != dst && q in fs1 && fs1[q] == fs[q];
    }
  }

  /** The move `move_to_trash` makes: the walk as written, the whole-tree move corrected. */
  function MoveItems(fs: Fs, src: FsPath, dst: FsPath, mode: u32, corrected: bool): (r: Result<Fs, IoError>)
    ensures r == Failure(AlreadyExists) ==> dst in fs
    ensures r.Success? ==> src in fs && dst !in fs && ParentIsDir(fs, dst)
  {
    if corrected then MoveItemsWhole(fs, src, dst, mode) else MoveItemsNoReplace(fs, src, dst, mode)
  }

  /** The walk leaves an entry at `dst` that lies outside `src` as it was. */
  lemma WalkedKeepsTarget(fs: Fs, src: FsPath, dst: FsPath)
    requires dst in fs && !InSubtree(dst, src)
    ensures dst in Walked(fs, src, dst) && Walked(fs, src, dst)[dst] == fs[dst]
  {
    DirectMovedOrigin(fs, src, dst);
    assert dst !in DirectMoved(fs, src, dst);
  }

  /** A non-directory moves the same way either way: a placeholder file, then one `rename`. */
  lemma MovesAgreeOnFile(fs: Fs, src: FsPath, dst: FsPath, mode: u32)
    requires src in fs && !fs[src].Dir?
    ensures MoveItemsNoReplace(fs, src, dst, mode) == MoveItemsWhole(fs, src, dst, mode)
  {
  }

  /**
   * `src` is a non-directory, or a directory of mode `mode` (the placeholder's) whose entries are
   * all non-directories directly inside it.
   */
  predicate Flat(fs: Fs, src: FsPath, mode: u32) {
    && src in fs
    && (fs[src].Dir? ==> fs[src] == Dir(mode) && forall q :: q in fs && InSubtree(q, src) && q != src ==> DirectNonDir(fs, src, q))
  }

  /** On a flat item in a tree-shaped file system, the walk as written and the whole-tree move agree. */
  lemma WalkAgreesOnFlat(fs: Fs, src: FsPath, dst: FsPath, mode: u32)
    requires TreeShaped(fs) && Flat(fs, src, mode) && (dst == src || !InSubtree(dst, src))
    ensures MoveItemsNoReplace(fs, src, dst, mode) == MoveItemsWhole(fs, src, dst, mode)
  {
    if fs[src].Dir? && CreateDir(fs, dst, mode).Success? && !InSubtree(dst, src) {
      AbsentHasNoSubtree(fs, dst);
      FlatDirWalks(fs, src, dst, mode);
      DirMoveIsRename(fs, src, dst, mode);
      WalkedIsRename(fs, fs[dst := Dir(mode)], src, dst, mode);
    }
  }

  /** On a flat directory the walk finds no nested non-directory and keeps what it walked. */
  lemma FlatDirWalks(fs: Fs, src: FsPath, dst: FsPath, mode: u32)
    requires Flat(fs, src, mode) && fs[src].Dir? && dst !in fs && ParentIsDir(fs, dst) && !InSubtree(dst, src)
    ensures MoveItemsNoReplace(fs, src, dst, mode) == Success(Walked(fs[dst := Dir(mode)], src, dst))
  {
    var fs1 := fs[dst := Dir(mode)];
    FlatHasNoNested(fs, fs1, src, dst, mode);
    assert CreateDir(fs, dst, mode) == Success(fs1);
  }

  /** A flat directory, with the placeholder added outside it, holds nothing nested. */
  lemma FlatHasNoNested(fs: Fs, fs1: Fs, src: FsPath, dst: FsPath, mode: u32)
    requires Flat(fs, src, mode) && fs[src].Dir? && fs1 == fs[dst := Dir(mode)] && !InSubtree(dst, src)
    ensures !exists q :: q in fs1 && NestedNonDir(fs1, src, q)
  {
    forall q | q in fs1 && InSubtree(q, src) && q != src ensures !NestedNonDir(fs1, src, q) {
      assert q != dst;
    }
  }

  /** On a directory the corrected move is the `rename` onto the placeholder directory. */
  lemma DirMoveIsRename(fs: Fs, src: FsPath, dst: FsPath, mode: u32)
    requires src in fs && fs[src].Dir? && dst !in fs && ParentIsDir(fs, dst)
    ensures MoveItemsWhole(fs, src, dst, mode) == Rename(fs[dst := Dir(mode)], src, dst)
  {
    assert CreateDir(fs, dst, mode) == Success(fs[dst := Dir(mode)]);
  }

  /** The two results of `WalkAgreesOnFlat` for a directory. */
  lemma WalkedIsRename(fs: Fs, fs1: Fs, src: FsPath, dst: FsPath, mode: u32)
    requires Flat(fs, src, mode) && fs[src].Dir? && dst !in fs && fs1 == fs[dst := Dir(mode)]
    requires ParentIsDir(fs, dst) && !InSubtree(dst, src)
    requires forall q :: q in fs ==> !InSubtree(q, dst)
    ensures Rename(fs1, src, dst) == Success(Walked(fs1, src, dst))
  {
    var r := (map q | q in fs1 && !InSubtree(q, src) && !InSubtree(q, dst) :: fs1[q]) + Moved(fs1, src, dst);
    var w := Walked(fs1, src, dst);
    RenameOntoPlaceholder(fs, fs1, src, dst, mode);
    FlatWithPlaceholder(fs, fs1, src, dst, mode);
    forall t ensures (t in r <==> t in w) && (t in r ==> r[t] == w[t]) {
      WalkedAgreesAt(fs1, src, dst, mode, t);
    }
    SameEntries(r, w);
  }

  /** The placeholder lies outside a flat directory, which stays flat. */
  lemma FlatWithPlaceholder(fs: Fs, fs1: Fs, src: FsPath, dst: FsPath, mode: u32)
    requires Flat(fs, src, mode) && fs[src].Dir? && dst !in fs && fs1 == fs[dst := Dir(mode)]
    requires !InSubtree(dst, src)
    ensures forall q :: q in fs1 && InSubtree(q, src) && q != src ==> DirectNonDir(fs1, src, q)
  {
    forall q | q in fs1 && InSubtree(q, src) && q != src ensures DirectNonDir(fs1, src, q) {
      assert q != dst && DirectNonDir(fs, src, q);
    }
  }

  /** `rename` of a directory onto an empty placeholder directory: the entries outside both trees, and the tree moved. */
  lemma RenameOntoPlaceholder(fs: Fs, fs1: Fs, src: FsPath, dst: FsPath, mode: u32)
    requires src in fs && fs[src].Dir? && dst !in fs && fs1 == fs[dst := Dir(mode)]
    requires ParentIsDir(fs, dst) && !InSubtree(dst, src)
    requires forall q :: q in fs ==> !InSubtree(q, dst)
    ensures Rename(fs1, src, dst) == Success((map q | q in fs1 && !InSubtree(q, src) && !InSubtree(q, dst) :: fs1[q]) + Moved(fs1, src, dst))
  {
    assert src != dst;
    assert ParentIsDir(fs1, dst);
    assert !(exists q :: q in fs1 && q != dst && InSubtree(q, dst));
  }

  /** One path of `WalkedIsRename`: what `rename` and the walk leave there. */
  lemma WalkedAgreesAt(fs1: Fs, src: FsPath, dst: FsPath, mode: u32, t: FsPath)
    requires src in fs1 && fs1[src] == Dir(mode) && dst in fs1 && fs1[dst] == Dir(mode)
    requires !InSubtree(dst, src) && !InSubtree(src, dst)
    requires forall q :: q in fs1 && q != dst ==> !InSubtree(q, dst)
    requires forall q :: q in fs1 && InSubtree(q, src) && q != src ==> DirectNonDir(fs1, src, q)
    ensures var r := (map q | q in fs1 && !InSubtree(q, src) && !InSubtree(q, dst) :: fs1[q]) + Moved(fs1, src, dst);
      (t in r <==> t in Walked(fs1, src, dst)) && (t in r ==> r[t] == Walked(fs1, src, dst)[t])
  {
    var kept := map q | q in fs1 && !InSubtree(q, src) && !InSubtree(q, dst) :: fs1[q];
    var moved := Moved(fs1, src, dst);
    var w := Walked(fs1, src, dst);
    MovedOrigin(fs1, src, dst);
    if t == dst {
      RebaseSelf(src, dst);
      WalkedKeepsTarget(fs1, src, dst);
      assert t in moved && moved[t] == fs1[src];
    } else if InSubtree(t, dst) {
      assert t !in kept && t !in fs1;
      if t in moved {
        var q :| q in fs1 && InSubtree(q, src) && t == Rebase(q, src, dst);
        if q == src {
          RebaseSelf(src, dst);
        }
        assert DirectNonDir(fs1, src, q);
      }
      if t in w {
        var q :| DirectNonDir(fs1, src, q) && t == Rebase(q, src, dst);
        assert t in moved;
      }
    } else {
      assert t !in moved;
      if t in w {
        assert t in fs1 && !InSubtree(t, src);
        assert t in kept;
      }
    }
  }

  // ---------------------------------------------------------------------------------------
  // move_to_trash
  // ---------------------------------------------------------------------------------------

  /** Attempt `k` is blocked: its info file or its files entry is already there. */
  predicate Taken(fs: Fs, trash: FsPath, name: seq<byte>, k: nat) {
    InfoPath(trash, CandidateName(name, k)) in fs || FilesPath(trash, CandidateName(name, k)) in fs
  }

  /** `p` is one of the two paths of attempt `j`. */
  predicate IsAttemptPath(trash: FsPath, name: seq<byte>, j: nat, p: FsPath) {
    p == InfoPath(trash, CandidateName(name, j)) || p == FilesPath(trash, CandidateName(name, j))
  }

  /** `p` is a path of attempt `k` or of a later one. */
  ghost predicate BlocksFrom(trash: FsPath, name: seq<byte>, k: nat, p: FsPath) {
    exists j: nat :: j >= k && IsAttemptPath(trash, name, j, p)
  }

  /** The entries that block attempt `k` or a later one. */
  ghost function Blocking(fs: Fs, trash: FsPath, name: seq<byte>, k: nat): set<FsPath> {
    set p | p in fs && BlocksFrom(trash, name, k, p)
  }

  /** A path of attempt `k` is a path of no other attempt. */
  lemma AttemptPathsDistinct(trash: FsPath, name: seq<byte>, k: nat, j: nat, p: FsPath)
    requires 1 <= k < j && IsAttemptPath(trash, name, k, p)
    ensures !IsAttemptPath(trash, name, j, p)
  {
    CandidateNamesDistinct(name, k, j);
    TrashPathsDistinct(trash, CandidateName(name, k), CandidateName(name, j));
    TrashPathsDistinct(trash, CandidateName(name, j), CandidateName(name, k));
  }

  lemma SubsetSmaller<T>(a: set<T>, b: set<T>, x: T)
    requires a <= b && x in b && x !in a
    ensures |a| < |b|
  {
    SubsetCardinality(a, b - {x});
  }

  lemma {:induction false} SubsetCardinality<T>(a: set<T>, b: set<T>)
    requires a <= b
    ensures |a| <= |b|
    decreases |b|
  {
    if a != {} {
      var x :| x in a;
      SubsetCardinality(a - {x}, b - {x});
    }
  }

  /** A blocked attempt leaves fewer blocking entries for the attempts after it. */
  lemma BlockingShrinks(fs: Fs, trash: FsPath, name: seq<byte>, k: nat)
    requires k >= 1 && Taken(fs, trash, name, k)
    ensures |Blocking(fs, trash, name, k + 1)| < |Blocking(fs, trash, name, k)|
  {
    var c := CandidateName(name, k);
    var p := if InfoPath(trash, c) in fs then InfoPath(trash, c) else FilesPath(trash, c);
    var now := Blocking(fs, trash, name, k);
    var later := Blocking(fs, trash, name, k + 1);
    assert IsAttemptPath(trash, name, k, p);
    assert p in now;
    assert p !in later by {
      if p in later {
        var j: nat :| j >= k + 1 && IsAttemptPath(trash, name, j, p);
        AttemptPathsDistinct(trash, name, k, j, p);
      }
    }
    assert later <= now by {
      forall q | q in later ensures q in now {
        var j: nat :| j >= k + 1 && IsAttemptPath(trash, name, j, q);
        assert BlocksFrom(trash, name, k, q);
      }
    }
    SubsetSmaller(later, now, p);
  }

  /**
   * `src` went into the trash folder under the name `c`: neither of `c`'s paths was there
   * before; the info file holds `text` (unless it lies inside `src` and moved with it);
   * `files/c` holds a node of the kind `src` is, except that the walk as written, asked to move
   * a directory to a place inside itself, removes the whole tree, `files/c` included; every
   * entry of `src`'s tree that the move carries (all of them when `corrected`, the
   * non-directories as written) is at its place under `files/c`; and no entry outside `src` and
   * `files/c` changed.
   */
  ghost predicate Trashed(fs: Fs, r: Fs, src: FsPath, trash: FsPath, c: seq<byte>, text: seq<byte>, corrected: bool) {
    var info := InfoPath(trash, c);
    var dst := FilesPath(trash, c);
    && src in fs
    && info !in fs && dst !in fs
    && (!InSubtree(info, src) ==> info in r && r[info] == File(text))
    && (if fs[src].Dir? && InSubtree(dst, src) then !corrected && forall q :: q in r ==> !InSubtree(q, src)
        else dst in r && r[dst].Dir? == fs[src].Dir?)
    && (forall q :: q in fs && InSubtree(q, src) && (corrected || !fs[q].Dir?) ==>
          Rebase(q, src, dst) in r && r[Rebase(q, src, dst)] == fs[q])
    && (forall q :: q in fs && !InSubtree(q, src) && !InSubtree(q, dst) ==> q in r && r[q] == fs[q])
  }

  /** Attempts `k` up to `j` were blocked and `src` went in under the `j`-th name. */
  ghost predicate TrashedAfter(fs: Fs, r: Fs, src: FsPath, trash: FsPath, name: seq<byte>, text: seq<byte>, k: nat, j: nat, corrected: bool) {
    && Trashed(fs, r, src, trash, CandidateName(name, j), text, corrected)
    && forall i :: k <= i < j ==> Taken(fs, trash, name, i)
  }

  /** The info file, then the move, succeeded at one attempt. */
  lemma MoveGivesTrashed(fs: Fs, r: Fs, src: FsPath, trash: FsPath, c: seq<byte>, text: seq<byte>, mode: u32, corrected: bool)
    requires InfoPath(trash, c) !in fs && src != InfoPath(trash, c)
    requires MoveItems(fs[InfoPath(trash, c) := File(text)], src, FilesPath(trash, c), mode, corrected) == Success(r)
    ensures Trashed(fs, r, src, trash, c, text, corrected)
  {
    var fs1 := fs[InfoPath(trash, c) := File(text)];
    if corrected {
      WholeMoveGivesTrashed(fs, r, src, trash, c, text, mode);
    } else if !fs[src].Dir? {
      MovesAgreeOnFile(fs1, src, FilesPath(trash, c), mode);
      WholeMoveGivesTrashed(fs, r, src, trash, c, text, mode);
      WholeTrashedAsWritten(fs, r, src, trash, c, text);
    } else {
      WalkGivesTrashed(fs, r, src, trash, c, text, mode);
    }
  }

  /** What the corrected move promises covers what the walk promises. */
  lemma WholeTrashedAsWritten(fs: Fs, r: Fs, src: FsPath, trash: FsPath, c: seq<byte>, text: seq<byte>)
    requires Trashed(fs, r, src, trash, c, text, true)
    ensures Trashed(fs, r, src, trash, c, text, false)
  {
  }

  /** The corrected move carries the whole tree of `src` to `files/c`. */
  lemma WholeMoveGivesTrashed(fs: Fs, r: Fs, src: FsPath, trash: FsPath, c: seq<byte>, text: seq<byte>, mode: u32)
    requires InfoPath(trash, c) !in fs && src != InfoPath(trash, c)
    requires MoveItemsWhole(fs[InfoPath(trash, c) := File(text)], src, FilesPath(trash, c), mode) == Success(r)
    ensures Trashed(fs, r, src, trash, c, text, true)
  {
    var info := InfoPath(trash, c);
    var dst := FilesPath(trash, c);
    var fs1 := fs[info := File(text)];
    TrashPathsApart(trash, c, c);
    TrashPathsDistinct(trash, c, c);
    MoveWholeKeepsOutside(fs1, src, dst, mode);
    assert src in fs1 && dst !in fs1;
    assert !InSubtree(info, src) ==> info in r && r[info] == File(text) by {
      if !InSubtree(info, src) {
        assert info in fs1 && !InSubtree(info, dst);
      }
    }
    forall q | q in fs && InSubtree(q, src) ensures Rebase(q, src, dst) in r && r[Rebase(q, src, dst)] == fs[q] {
      assert q in fs1 && fs1[q] == fs[q];
    }
    RebaseSelf(src, dst);
    forall q | q in fs && !InSubtree(q, src) && !InSubtree(q, dst) ensures q in r && r[q] == fs[q] {
      assert q in fs1 && fs1[q] == fs[q];
    }
  }

  /**
   * The walk as written, when it succeeds on a directory, leaves the placeholder directory at
   * `files/c` and the non-directories of `src` (all directly inside it) below it, or, when
   * `files/c` lies inside `src`, nothing of `src`'s tree.
   */
  lemma WalkGivesTrashed(fs: Fs, r: Fs, src: FsPath, trash: FsPath, c: seq<byte>, text: seq<byte>, mode: u32)
    requires InfoPath(trash, c) !in fs && src != InfoPath(trash, c)
    requires src in fs && fs[src].Dir?
    requires MoveItemsNoReplace(fs[InfoPath(trash, c) := File(text)], src, FilesPath(trash, c), mode) == Success(r)
    ensures Trashed(fs, r, src, trash, c, text, false)
  {
    TrashPathsApart(trash, c, c);
    TrashPathsDistinct(trash, c, c);
    WalkOutcome(fs, r, src, FilesPath(trash, c), InfoPath(trash, c), text, mode);
  }

  /** The walk after writing `info`: the placeholder at `dst`, the files below it, `info` and the rest kept. */
  lemma WalkOutcome(fs: Fs, r: Fs, src: FsPath, dst: FsPath, info: FsPath, text: seq<byte>, mode: u32)
    requires info !in fs && src != info && info != dst && !InSubtree(info, dst)
    requires src in fs && fs[src].Dir?
    requires MoveItemsNoReplace(fs[info := File(text)], src, dst, mode) == Success(r)
    ensures dst !in fs
    ensures !InSubtree(dst, src) ==> dst in r && r[dst].Dir?
    ensures InSubtree(dst, src) ==> forall q :: q in r ==> !InSubtree(q, src)
    ensures !InSubtree(info, src) ==> info in r && r[info] == File(text)
    ensures forall q :: q in fs && InSubtree(q, src) && !fs[q].Dir? ==> Rebase(q, src, dst) in r && r[Rebase(q, src, dst)] == fs[q]
    ensures forall q :: q in fs && !InSubtree(q, src) && !InSubtree(q, dst) ==> q in r && r[q] == fs[q]
  {
    var fs1 := fs[info := File(text)];
    WalkResult(fs1, src, dst, mode, r);
    if InSubtree(dst, src) {
      WalkedLeavesNothing(fs1, src, dst, mode);
    } else {
      WalkedKeepsTarget(fs1[dst := Dir(mode)], src, dst);
    }
    WalkedCarriesFiles(fs, fs1, src, dst, mode);
    WalkedKeepsRest(fs1, src, dst, mode);
  }

  /** Every non-directory of `src` in `fs` arrives below `dst`. */
  lemma WalkedCarriesFiles(fs: Fs, fs1: Fs, src: FsPath, dst: FsPath, mode: u32)
    requires src in fs1 && fs1[src].Dir? && dst !in fs1
    requires forall q :: q in fs ==> q in fs1 && fs1[q] == fs[q]
    requires forall p :: p in fs1 ==> !NestedNonDir(fs1, src, p)
    ensures forall q :: q in fs && InSubtree(q, src) && !fs[q].Dir? ==>
      Rebase(q, src, dst) in Walked(fs1[dst := Dir(mode)], src, dst) && Walked(fs1[dst := Dir(mode)], src, dst)[Rebase(q, src, dst)] == fs[q]
  {
    forall q | q in fs && InSubtree(q, src) && !fs[q].Dir?
      ensures Rebase(q, src, dst) in Walked(fs1[dst := Dir(mode)], src, dst) && Walked(fs1[dst := Dir(mode)], src, dst)[Rebase(q, src, dst)] == fs[q]
    {
      WalkCarriesFile(fs1, fs1[dst := Dir(mode)], src, dst, mode, q);
    }
  }

  /** Entries outside both trees stay where they are. */
  lemma WalkedKeepsRest(fs1: Fs, src: FsPath, dst: FsPath, mode: u32)
    requires dst !in fs1
    ensures forall q :: q in fs1 && !InSubtree(q, src) && !InSubtree(q, dst) ==>
      q in Walked(fs1[dst := Dir(mode)], src, dst) && Walked(fs1[dst := Dir(mode)], src, dst)[q] == fs1[q]
  {
    var fs2 := fs1[dst := Dir(mode)];
    forall q | q in fs1 && !InSubtree(q, src) && !InSubtree(q, dst) ensures q in Walked(fs2, src, dst) && Walked(fs2, src, dst)[q] == fs1[q] {
      assert q in fs2 && fs2[q] == fs1[q];
    }
  }

  /** What a successful walk of a directory tells: where it put the placeholder, and what it left. */
  lemma WalkResult(fs: Fs, src: FsPath, dst: FsPath, mode: u32, r: Fs)
    requires src in fs && fs[src].Dir? && MoveItemsNoReplace(fs, src, dst, mode) == Success(r)
    ensures dst !in fs && r == Walked(fs[dst := Dir(mode)], src, dst)
    ensures forall q :: q in fs ==> !NestedNonDir(fs, src, q)
    ensures InSubtree(dst, src) ==> forall q :: q in fs ==> !DirectNonDir(fs, src, q)
  {
  }

  /** With no non-directory directly inside `src`, the walk keeps nothing of `src`'s tree. */
  lemma WalkedLeavesNothing(fs: Fs, src: FsPath, dst: FsPath, mode: u32)
    requires dst !in fs && forall q :: q in fs ==> !DirectNonDir(fs, src, q)
    ensures forall t :: t in Walked(fs[dst := Dir(mode)], src, dst) ==> !InSubtree(t, src)
  {
    var fs2 := fs[dst := Dir(mode)];
    forall q ensures !DirectNonDir(fs2, src, q) {
      assert !DirectNonDir(fs, src, q);
    }
  }

  /**
   * A directory holding only directories, moved to a place inside itself: the walk as written
   * succeeds and leaves nothing of the tree, the new placeholder included, and everything
   * outside it as it was; the whole-tree move is refused, as `rename` refuses to move a
   * directory below itself.
   */
  lemma WalkIntoItself(fs: Fs, src: FsPath, dst: FsPath, mode: u32)
    requires src in fs && fs[src].Dir? && dst !in fs && ParentIsDir(fs, dst) && InSubtree(dst, src)
    requires forall q :: q in fs && InSubtree(q, src) ==> fs[q].Dir?
    ensures MoveItemsNoReplace(fs, src, dst, mode).Success?
    ensures forall q :: q in MoveItemsNoReplace(fs, src, dst, mode).value ==> !InSubtree(q, src)
    ensures forall q :: q in fs && !InSubtree(q, src) ==>
      q in MoveItemsNoReplace(fs, src, dst, mode).value && MoveItemsNoReplace(fs, src, dst, mode).value[q] == fs[q]
    ensures MoveItemsWhole(fs, src, dst, mode) == Failure(OtherIo)
  {
    WalkIntoItselfWalks(fs, src, dst, mode);
    var w := Walked(fs[dst := Dir(mode)], src, dst);
    WalkedLeavesNothing(fs, src, dst, mode);
    OutsideStaysOutside(fs, src, dst);
    WalkedKeepsRest(fs, src, dst, mode);
    assert forall q :: q in fs && !InSubtree(q, src) ==> q in w && w[q] == fs[q];
    WholeRefusesItself(fs, src, dst, mode);
  }

  /** The whole-tree move of a directory to a place inside itself fails as `rename` does. */
  lemma WholeRefusesItself(fs: Fs, src: FsPath, dst: FsPath, mode: u32)
    requires src in fs && fs[src].Dir? && dst !in fs && ParentIsDir(fs, dst) && InSubtree(dst, src)
    ensures MoveItemsWhole(fs, src, dst, mode) == Failure(OtherIo)
  {
    assert CreateDir(fs, dst, mode) == Success(fs[dst := Dir(mode)]);
  }

  /** With only directories below `src`, the walk into `dst` succeeds with `Walked`. */
  lemma WalkIntoItselfWalks(fs: Fs, src: FsPath, dst: FsPath, mode: u32)
    requires src in fs && fs[src].Dir? && dst !in fs && ParentIsDir(fs, dst)
    requires forall q :: q in fs && InSubtree(q, src) ==> fs[q].Dir?
    ensures forall q :: q in fs ==> !DirectNonDir(fs, src, q)
    ensures MoveItemsNoReplace(fs, src, dst, mode) == Success(Walked(fs[dst := Dir(mode)], src, dst))
  {
    assert CreateDir(fs, dst, mode) == Success(fs[dst := Dir(mode)]);
    forall q | q in fs ensures !NestedNonDir(fs, src, q) && !DirectNonDir(fs, src, q) {
      assert InSubtree(q, src) ==> fs[q].Dir?;
    }
  }

  /** An entry outside `src` is outside every tree inside `src`. */
  lemma OutsideStaysOutside(fs: Fs, src: FsPath, dst: FsPath)
    requires InSubtree(dst, src)
    ensures forall q :: q in fs && !InSubtree(q, src) ==> !InSubtree(q, dst)
  {
    forall q | q in fs && !InSubtree(q, src) ensures !InSubtree(q, dst) {
      if InSubtree(q, dst) {
        StartsWithTransitive(q, dst, src);
      }
    }
  }

  /** A non-directory of a directory the walk moved arrives at its place below `dst`. */
  lemma WalkCarriesFile(fs1: Fs, fs2: Fs, src: FsPath, dst: FsPath, mode: u32, q: FsPath)
    requires src in fs1 && fs1[src].Dir? && dst !in fs1 && fs2 == fs1[dst := Dir(mode)]
    requires forall p :: p in fs1 ==> !NestedNonDir(fs1, src, p)
    requires q in fs1 && InSubtree(q, src) && !fs1[q].Dir?
    ensures Rebase(q, src, dst) in Walked(fs2, src, dst) && Walked(fs2, src, dst)[Rebase(q, src, dst)] == fs1[q]
  {
    assert !NestedNonDir(fs1, src, q);
    assert q != src && q != dst;
    SubtreeLonger(q, src);
    assert DirectNonDir(fs2, src, q);
  }

  /** An entry strictly below `base` has more components. */
  lemma SubtreeLonger(q: FsPath, base: FsPath)
    requires InSubtree(q, base) && q != base
    ensures |q.components| > |base.components|
  {
  }

  /** An item is never at the path of one of its own info files: that name is longer. */
  lemma SourceIsNoInfoFile(src: FsPath, trash: FsPath, name: seq<byte>, k: nat)
    requires FileName(src) == Some(name)
    ensures src != InfoPath(trash, CandidateName(name, k))
  {
    var c := CandidateName(name, k);
    assert |c + TRASHINFO()| > |name|;
  }

  /** A blocked attempt extends the run of blocked attempts after it. */
  lemma TakenExtends(fs: Fs, r: Fs, src: FsPath, trash: FsPath, name: seq<byte>, text: seq<byte>, k: nat, j: nat, corrected: bool)
    requires Taken(fs, trash, name, k) && j >= k + 1 && TrashedAfter(fs, r, src, trash, name, text, k + 1, j, corrected)
    ensures TrashedAfter(fs, r, src, trash, name, text, k, j, corrected)
  {
  }

  /** The error names the info file or the files entry of attempt `j`. */
  predicate FailedAt(e: Error, trash: FsPath, name: seq<byte>, j: nat) {
    e == Filesystem(InfoPath(trash, CandidateName(name, j))) || e == Filesystem(FilesPath(trash, CandidateName(name, j)))
  }

  /**
   * What attempts from `k` on may give: on success `src` was trashed under an attempt `j >= k`
   * after the attempts before it were blocked; a failure names a path of an attempt `j >= k`.
   */
  ghost predicate Outcome(fs: Fs, r: Result<Fs, Error>, src: FsPath, trash: FsPath, name: seq<byte>, text: seq<byte>, k: nat, corrected: bool) {
    && (r.Success? ==> exists j: nat :: j >= k && TrashedAfter(fs, r.value, src, trash, name, text, k, j, corrected))
    && (r.Failure? ==> exists j: nat :: j >= k && FailedAt(r.error, trash, name, j))
  }

  /** What the attempts after a blocked attempt `k` give is also what the attempts from `k` give. */
  lemma RetryOutcome(fs: Fs, r: Result<Fs, Error>, src: FsPath, trash: FsPath, name: seq<byte>, text: seq<byte>, k: nat, next: nat, corrected: bool)
    requires Taken(fs, trash, name, k) && next == k + 1
    requires Outcome(fs, r, src, trash, name, text, next, corrected)
    ensures Outcome(fs, r, src, trash, name, text, k, corrected)
  {
    if r.Success? {
      var j: nat :| j >= next && TrashedAfter(fs, r.value, src, trash, name, text, next, j, corrected);
      TakenExtends(fs, r.value, src, trash, name, text, k, j, corrected);
    } else {
      var j: nat :| j >= next && FailedAt(r.error, trash, name, j);
      assert j >= k;
    }
  }

  /** `p` is an entry directly inside the `info` or the `files` folder of `trash`. */
  predicate InTrashFolders(p: FsPath, trash: FsPath) {
    Parent(p) == Some(Child(trash, INFO())) || Parent(p) == Some(Child(trash, FILES()))
  }

  /**
   * The loop of `move_to_trash` from attempt `k` on: create the info file with `create_new`
   * (an existing one means "try the next name"), then move `src` to `files/<name>` (an existing
   * entry there means the info file is removed again and the next name is tried); any other
   * failure is a `Filesystem` error naming the path that failed.
   */
  function TryCandidates(fs: Fs, src: FsPath, trash: FsPath, name: seq<byte>, text: seq<byte>, mode: u32, k: nat, corrected: bool): (r: Result<Fs, Error>)
    requires k >= 1 && FileName(src) == Some(name)
    ensures r.Failure? ==> r.error.Filesystem? && InTrashFolders(r.error.path, trash)
    decreases |Blocking(fs, trash, name, k)|
  {
    var c := CandidateName(name, k);
    var info := InfoPath(trash, c);
    var dst := FilesPath(trash, c);
    ChildParts(Child(trash, INFO()), c + TRASHINFO());
    ChildParts(Child(trash, FILES()), c);
    match CreateNew(fs, info, text)
    case Failure(e) =>
      if e == AlreadyExists then
        BlockingShrinks(fs, trash, name, k);
        TryCandidates(fs, src, trash, name, text, mode, k + 1, corrected)
      else Failure(Filesystem(info))
    case Success(fs1) =>
      TrashPathsDistinct(trash, c, c);
      match MoveItems(fs1, src, dst, mode, corrected)
      case Failure(e) =>
        var fs2 := fs1 - {info};
        UndoCreate(fs, info, text);
        if e == AlreadyExists then
          BlockingShrinks(fs2, trash, name, k);
          TryCandidates(fs2, src, trash, name, text, mode, k + 1, corrected)
        else Failure(Filesystem(dst))
      case Success(fs2) => Success(fs2)
  }

  /**
   * On success, `src` went into the trash under the first attempt from `k` on that was not
   * blocked; a failure names the info file or the files entry of some attempt.
   */
  lemma {:induction false} TryCandidatesOutcome(fs: Fs, src: FsPath, trash: FsPath, name: seq<byte>, text: seq<byte>, mode: u32, k: nat, corrected: bool)
    requires k >= 1 && FileName(src) == Some(name)
    ensures Outcome(fs, TryCandidates(fs, src, trash, name, text, mode, k, corrected), src, trash, name, text, k, corrected)
    decreases |Blocking(fs, trash, name, k)|
  {
    if AttemptBlocked(fs, src, trash, name, text, mode, k, corrected) {
      BlockedRetries(fs, src, trash, name, text, mode, k, corrected);
      BlockingShrinks(fs, trash, name, k);
      TryCandidatesOutcome(fs, src, trash, name, text, mode, k + 1, corrected);
      RetryOutcome(fs, TryCandidates(fs, src, trash, name, text, mode, k, corrected), src, trash, name, text, k, k + 1, corrected);
    } else {
      AttemptStops(fs, src, trash, name, text, mode, k, corrected);
    }
  }

  /** Attempt `k` meets an existing entry, at the info file or at `files/<name>`. */
  predicate AttemptBlocked(fs: Fs, src: FsPath, trash: FsPath, name: seq<byte>, text: seq<byte>, mode: u32, k: nat, corrected: bool) {
    var created := CreateNew(fs, InfoPath(trash, CandidateName(name, k)), text);
    || created == Failure(AlreadyExists)
    || (created.Success? && MoveItems(created.value, src, FilesPath(trash, CandidateName(name, k)), mode, corrected) == Failure(AlreadyExists))
  }

  /** A blocked attempt `k` is taken, and the attempts go on at `k + 1`. */
  lemma BlockedRetries(fs: Fs, src: FsPath, trash: FsPath, name: seq<byte>, text: seq<byte>, mode: u32, k: nat, corrected: bool)
    requires k >= 1 && FileName(src) == Some(name)
    requires AttemptBlocked(fs, src, trash, name, text, mode, k, corrected)
    ensures Taken(fs, trash, name, k)
    ensures TryCandidates(fs, src, trash, name, text, mode, k, corrected) == TryCandidates(fs, src, trash, name, text, mode, k + 1, corrected)
  {
    if CreateNew(fs, InfoPath(trash, CandidateName(name, k)), text) == Failure(AlreadyExists) {
      InfoBlockedRetries(fs, src, trash, name, text, mode, k, corrected);
    } else {
      MoveBlockedRetries(fs, src, trash, name, text, mode, k, corrected);
    }
  }

  /** An attempt that is not blocked ends the loop: it either trashes `src` or fails naming its own paths. */
  lemma AttemptStops(fs: Fs, src: FsPath, trash: FsPath, name: seq<byte>, text: seq<byte>, mode: u32, k: nat, corrected: bool)
    requires k >= 1 && FileName(src) == Some(name)
    requires !AttemptBlocked(fs, src, trash, name, text, mode, k, corrected)
    ensures Outcome(fs, TryCandidates(fs, src, trash, name, text, mode, k, corrected), src, trash, name, text, k, corrected)
  {
    var c := CandidateName(name, k);
    var info := InfoPath(trash, c);
    var dst := FilesPath(trash, c);
    var r := TryCandidates(fs, src, trash, name, text, mode, k, corrected);
    match CreateNew(fs, info, text)
    case Failure(e) =>
      assert r == Failure(Filesystem(info));
      assert FailedAt(r.error, trash, name, k);
    case Success(fs1) =>
      match MoveItems(fs1, src, dst, mode, corrected)
      case Failure(e) =>
        TrashPathsDistinct(trash, c, c);
        assert r == Failure(Filesystem(dst));
        assert FailedAt(r.error, trash, name, k);
      case Success(fs2) =>
        assert r == Success(fs2);
        AttemptSucceeds(fs, fs2, src, trash, name, text, mode, k, corrected);
  }

  /** An info file already there blocks attempt `k`, and the attempts go on at `k + 1`. */
  lemma InfoBlockedRetries(fs: Fs, src: FsPath, trash: FsPath, name: seq<byte>, text: seq<byte>, mode: u32, k: nat, corrected: bool)
    requires k >= 1 && FileName(src) == Some(name)
    requires CreateNew(fs, InfoPath(trash, CandidateName(name, k)), text) == Failure(AlreadyExists)
    ensures Taken(fs, trash, name, k)
    ensures TryCandidates(fs, src, trash, name, text, mode, k, corrected) == TryCandidates(fs, src, trash, name, text, mode, k + 1, corrected)
  {
  }

  /** An entry already at `files/<name>` blocks attempt `k`, and the attempts go on at `k + 1`. */
  lemma MoveBlockedRetries(fs: Fs, src: FsPath, trash: FsPath, name: seq<byte>, text: seq<byte>, mode: u32, k: nat, corrected: bool)
    requires k >= 1 && FileName(src) == Some(name)
    requires CreateNew(fs, InfoPath(trash, CandidateName(name, k)), text).Success?
    requires var fs1 := CreateNew(fs, InfoPath(trash, CandidateName(name, k)), text).value;
      MoveItems(fs1, src, FilesPath(trash, CandidateName(name, k)), mode, corrected) == Failure(AlreadyExists)
    ensures Taken(fs, trash, name, k)
    ensures TryCandidates(fs, src, trash, name, text, mode, k, corrected) == TryCandidates(fs, src, trash, name, text, mode, k + 1, corrected)
  {
    TrashPathsDistinct(trash, CandidateName(name, k), CandidateName(name, k));
    UndoCreate(fs, InfoPath(trash, CandidateName(name, k)), text);
  }

  /** Removing a file just created gives back the file system as it was. */
  lemma UndoCreate(fs: Fs, p: FsPath, text: seq<byte>)
    requires CreateNew(fs, p, text).Success?
    ensures CreateNew(fs, p, text).value - {p} == fs
  {
    assert fs[p := File(text)] - {p} == fs;
  }

  /** An attempt whose info file and move both succeed trashes `src` under that attempt's name. */
  lemma AttemptSucceeds(fs: Fs, fs2: Fs, src: FsPath, trash: FsPath, name: seq<byte>, text: seq<byte>, mode: u32, k: nat, corrected: bool)
    requires FileName(src) == Some(name)
    requires CreateNew(fs, InfoPath(trash, CandidateName(name, k)), text).Success?
    requires var fs1 := CreateNew(fs, InfoPath(trash, CandidateName(name, k)), text).value;
      MoveItems(fs1, src, FilesPath(trash, CandidateName(name, k)), mode, corrected) == Success(fs2)
    ensures TrashedAfter(fs, fs2, src, trash, name, text, k, k, corrected)
  {
    SourceIsNoInfoFile(src, trash, name, k);
    MoveGivesTrashed(fs, fs2, src, trash, CandidateName(name, k), text, mode, corrected);
  }

  /** The info text written for `src` trashed on the mount at `topdir` at time `date`. */
  function InfoFor(src: FsPath, topdir: FsPath, encode: FsPath -> Text, date: seq<byte>): seq<byte> {
    InfoText(PathValue(encode(src), encode(topdir), topdir == Root()), date)
  }

  /**
   * `move_to_trash`: `src` must have a file name (else the source panics) that is valid UTF-8
   * (`to_str().unwrap()`); then the attempts start at the plain name. `encode` is the URL path
   * encoding of the `url` crate, an input; `date` is the formatted local time.
   */
  function MoveToTrash(fs: Fs, src: FsPath, trash: FsPath, topdir: FsPath, encode: FsPath -> Text, date: seq<byte>, mode: u32, corrected: bool): (r: Result<Fs, Error>)
    ensures FileName(src).None? || !ValidUtf8(FileName(src).value) ==> r == Failure(Panic)
    ensures r.Success? ==> FileName(src).Some?
    ensures r.Success? ==>
      exists j: nat :: j >= 1 && TrashedAfter(fs, r.value, src, trash, FileName(src).value, InfoFor(src, topdir, encode, date), 1, j, corrected)
  {
    match FileName(src)
    case None => Failure(Panic)
    case Some(name) =>
      if !ValidUtf8(name) then Failure(Panic)
      else
        TryCandidatesOutcome(fs, src, trash, name, InfoFor(src, topdir, encode, date), mode, 1, corrected);
        TryCandidates(fs, src, trash, name, InfoFor(src, topdir, encode, date), mode, 1, corrected)
  }

  /** In a tree-shaped file system, trashing changes nothing outside the trashed tree but adds the two trash entries. */
  lemma TrashedKeepsOthers(fs: Fs, r: Fs, src: FsPath, trash: FsPath, c: seq<byte>, text: seq<byte>, corrected: bool)
    requires TreeShaped(fs) && Trashed(fs, r, src, trash, c, text, corrected)
    ensures forall q :: q in fs && !InSubtree(q, src) ==> q in r && r[q] == fs[q]
  {
    AbsentHasNoSubtree(fs, FilesPath(trash, c));
  }

  /** A path rebased onto itself is the target. */
  lemma RebaseSelf(src: FsPath, dst: FsPath)
    ensures InSubtree(src, src) && Rebase(src, src, dst) == dst
  {
    assert src.components[|src.components|..] == [];
    assert dst.components + [] == dst.components;
  }

  // ---------------------------------------------------------------------------------------
  // The walk of move_items_no_replace, against the whole-tree move
  // ---------------------------------------------------------------------------------------

  /**
   * A directory holding a non-directory two levels down cannot be moved by the walk: it fails
   * with `NotFound`, where the whole-tree move succeeds and carries that entry along.
   */
  lemma WalkFailsOnNestedEntry(fs: Fs, src: FsPath, dst: FsPath, mode: u32, q: FsPath)
    requires TreeShaped(fs) && IsRealDir(fs, src) && ParentIsDir(fs, dst) && dst !in fs && !InSubtree(dst, src)
    requires NestedNonDir(fs, src, q)
    ensures MoveItemsNoReplace(fs, src, dst, mode) == Failure(NotFound)
    ensures MoveItemsWhole(fs, src, dst, mode).Success?
    ensures var r := MoveItemsWhole(fs, src, dst, mode).value; Rebase(q, src, dst) in r && r[Rebase(q, src, dst)] == fs[q]
  {
    assert exists p :: p in fs && NestedNonDir(fs, src, p);
    WholeMoveKeepsEntry(fs, src, dst, mode, q);
  }

  /**
   * An empty subdirectory does not survive the walk: the walk succeeds, but nothing arrives at
   * its place under `dst`, where the whole-tree move puts it.
   */
  lemma WalkDropsSubdirectory(fs: Fs, src: FsPath, dst: FsPath, mode: u32, d: FsPath)
    requires TreeShaped(fs) && IsRealDir(fs, src) && ParentIsDir(fs, dst) && dst !in fs && !InSubtree(dst, src)
    requires forall q :: q in fs ==> !NestedNonDir(fs, src, q)
    requires d in fs && fs[d].Dir? && InSubtree(d, src) && |d.components| == |src.components| + 1
    ensures MoveItemsNoReplace(fs, src, dst, mode).Success?
    ensures Rebase(d, src, dst) !in MoveItemsNoReplace(fs, src, dst, mode).value
    ensures MoveItemsWhole(fs, src, dst, mode).Success?
    ensures var r := MoveItemsWhole(fs, src, dst, mode).value; Rebase(d, src, dst) in r && r[Rebase(d, src, dst)] == fs[d]
  {
    assert d != src;
    WalkLosesDirectory(fs, src, dst, mode, d);
    WholeMoveKeepsEntry(fs, src, dst, mode, d);
  }

  lemma WalkLosesDirectory(fs: Fs, src: FsPath, dst: FsPath, mode: u32, d: FsPath)
    requires TreeShaped(fs) && IsRealDir(fs, src) && ParentIsDir(fs, dst) && dst !in fs && !InSubtree(dst, src)
    requires forall q :: q in fs ==> !NestedNonDir(fs, src, q)
    requires d in fs && fs[d].Dir? && InSubtree(d, src) && d != src
    ensures MoveItemsNoReplace(fs, src, dst, mode).Success?
    ensures Rebase(d, src, dst) !in MoveItemsNoReplace(fs, src, dst, mode).value
  {
    var fs1 := fs[dst := Dir(mode)];
    WalkSucceeds(fs, src, dst, mode);
    NotWalkedThere(fs, fs1, src, dst, d, mode);
  }

  lemma WalkSucceeds(fs: Fs, src: FsPath, dst: FsPath, mode: u32)
    requires IsRealDir(fs, src) && ParentIsDir(fs, dst) && dst !in fs && !InSubtree(dst, src)
    requires forall q :: q in fs ==> !NestedNonDir(fs, src, q)
    ensures MoveItemsNoReplace(fs, src, dst, mode) == Success(Walked(fs[dst := Dir(mode)], src, dst))
  {
    assert CreateDir(fs, dst, mode) == Success(fs[dst := Dir(mode)]);
    assert !(exists q :: q in fs && NestedNonDir(fs, src, q));
  }

  lemma NotWalkedThere(fs: Fs, fs1: Fs, src: FsPath, dst: FsPath, d: FsPath, mode: u32)
    requires TreeShaped(fs) && dst !in fs && fs1 == fs[dst := Dir(mode)]
    requires d in fs && fs[d].Dir? && InSubtree(d, src) && src != d
    ensures Rebase(d, src, dst) !in Walked(fs1, src, dst)
  {
    RebasedIsNew(fs, src, dst, d);
    DirNotWalked(fs1, src, dst, d);
  }

  /** The walk puts nothing at the rebased path of a directory unless that path was already there. */
  lemma DirNotWalked(fs: Fs, src: FsPath, dst: FsPath, d: FsPath)
    requires d in fs && fs[d].Dir? && InSubtree(d, src) && Rebase(d, src, dst) !in fs
    ensures Rebase(d, src, dst) !in Walked(fs, src, dst)
  {
    var t := Rebase(d, src, dst);
    if t in Walked(fs, src, dst) {
      var q :| DirectNonDir(fs, src, q) && t == Rebase(q, src, dst);
      RebaseInjective(q, d, src, dst);
    }
  }

  /** A path strictly below `src`, rebased onto a fresh `dst`, is neither `dst` nor an entry. */
  lemma RebasedIsNew(fs: Fs, src: FsPath, dst: FsPath, d: FsPath)
    requires TreeShaped(fs) && dst !in fs && InSubtree(d, src) && src != d
    ensures Rebase(d, src, dst) !in fs && Rebase(d, src, dst) != dst
  {
    if Rebase(d, src, dst) == dst {
      RebaseSelf(src, dst);
      RebaseInjective(src, d, src, dst);
    }
    AbsentHasNoSubtree(fs, dst);
  }

  /** In a tree-shaped file system the whole-tree move carries every entry of `src` along. */
  lemma WholeMoveKeepsEntry(fs: Fs, src: FsPath, dst: FsPath, mode: u32, q: FsPath)
    requires TreeShaped(fs) && src in fs && ParentIsDir(fs, dst) && dst !in fs && !InSubtree(dst, src)
    requires q in fs && InSubtree(q, src)
    ensures MoveItemsWhole(fs, src, dst, mode).Success?
    ensures var r := MoveItemsWhole(fs, src, dst, mode).value; Rebase(q, src, dst) in r && r[Rebase(q, src, dst)] == fs[q]
  {
    AbsentHasNoSubtree(fs, dst);
    var fs1 := if fs[src].Dir? then fs[dst := Dir(mode)] else fs[dst := File([])];
    assert !(exists p :: p in fs1 && p != dst && InSubtree(p, dst));
    RebaseSelf(src, dst);
    assert src != dst;
  }

  // ---------------------------------------------------------------------------------------
  // Trash folders that can take an item
  // ---------------------------------------------------------------------------------------

  /**
   * In a tree-shaped file system, a `.Trash-$uid` folder that `MountedTrashFolders` has just
   * created has no `info` directory, so the first info file cannot be created in it and trashing
   * onto that mount fails with a `Filesystem` error for the info file.
   */
  lemma FreshUserTrashRefusesItems(fs: Fs, uid: u32, topdir: FsPath, mode: u32, src: FsPath, encode: FsPath -> Text, date: seq<byte>)
    requires TreeShaped(fs) && IsRealDir(fs, topdir) && UserTrash(topdir, uid) !in fs
    requires SharedFolder(fs, topdir, uid, false) == Success([])
    requires FileName(src).Some? && ValidUtf8(FileName(src).value)
    ensures var user := UserTrash(topdir, uid);
            var found := MountedTrashFolders(fs, uid, topdir, true, true, mode, false);
            && found == Success(Found(fs[user := Dir(mode)], [user]))
            && MoveToTrash(found.value.fs, src, user, topdir, encode, date, mode, false) == Failure(Filesystem(InfoPath(user, FileName(src).value)))
  {
    var user := UserTrash(topdir, uid);
    ChildParts(topdir, DOT_TRASH_DASH() + Decimal(uid));
    var fs1 := fs[user := Dir(mode)];
    assert CreateDir(fs, user, mode) == Success(fs1);
    assert [] + [user] == [user];
    var name := FileName(src).value;
    var infoDir := Child(user, INFO());
    assert infoDir !in fs1 by {
      AbsentHasNoSubtree(fs, user);
      ChildStartsWith(user, INFO());
    }
    ChildParts(infoDir, name + TRASHINFO());
    assert CandidateName(name, 1) == name;
  }

  /**
   * The corrected `execute_on_mounted_trash_folders`: the validity test checks the sticky bit,
   * and a `.Trash-$uid` folder it creates gets its `info` and `files` directories at once, as the
   * home trash does.
   */
  function MountedTrashFoldersFixed(fs: Fs, uid: u32, topdir: FsPath, firstOnly: bool, createFolder: bool, mode: u32): (r: Result<Found, Error>)
    ensures r.Success? ==> forall f :: f in r.value.folders ==> f == SharedUserTrash(topdir, uid) || f == UserTrash(topdir, uid)
    ensures r.Success? && firstOnly && createFolder ==> |r.value.folders| == 1
    ensures r.Success? ==> forall q :: q in fs ==> q in r.value.fs && r.value.fs[q] == fs[q]
    ensures r.Success? ==> forall f :: f in r.value.folders ==> IsDir(r.value.fs, f)
    ensures r.Success? && r.value.fs != fs ==>
      var user := UserTrash(topdir, uid);
      user !in fs && IsRealDir(r.value.fs, Child(user, INFO())) && IsRealDir(r.value.fs, Child(user, FILES()))
  {
    var found :- MountedTrashFolders(fs, uid, topdir, firstOnly, createFolder, mode, true);
    if found.fs == fs then Success(found)
    else
      var user := UserTrash(topdir, uid);
      var info := Child(user, INFO());
      var files := Child(user, FILES());
      ChildParts(user, INFO());
      ChildParts(user, FILES());
      var fs1 :- CreateDir(found.fs, info, mode).MapFailure(_ => Filesystem(info));
      var fs2 :- CreateDir(fs1, files, mode).MapFailure(_ => Filesystem(files));
      assert info != files;
      Success(Found(fs2, found.folders))
  }

  /**
   * In the corrected version, the first info file can be created in a freshly made `.Trash-$uid`
   * folder.
   */
  lemma FixedUserTrashTakesItems(fs: Fs, uid: u32, topdir: FsPath, mode: u32, name: seq<byte>, text: seq<byte>)
    requires TreeShaped(fs) && IsRealDir(fs, topdir) && UserTrash(topdir, uid) !in fs
    requires SharedFolder(fs, topdir, uid, true) == Success([])
    ensures var r := MountedTrashFoldersFixed(fs, uid, topdir, true, true, mode);
            && r.Success? && r.value.folders == [UserTrash(topdir, uid)]
            && CreateNew(r.value.fs, InfoPath(UserTrash(topdir, uid), name), text).Success?
  {
    FreshTrashIsEmpty(fs, UserTrash(topdir, uid), name);
    FixedUserTrashSteps(fs, uid, topdir, mode, name, text);
  }

  /** Below a trash folder that is not there, neither its subfolders nor an info file are there. */
  lemma FreshTrashIsEmpty(fs: Fs, user: FsPath, name: seq<byte>)
    requires TreeShaped(fs) && user !in fs
    ensures Child(user, INFO()) !in fs && Child(user, FILES()) !in fs && InfoPath(user, name) !in fs
  {
    var info := Child(user, INFO());
    AbsentHasNoSubtree(fs, user);
    ChildStartsWith(user, INFO());
    ChildStartsWith(user, FILES());
    ChildStartsWith(info, name + TRASHINFO());
    StartsWithTransitive(InfoPath(user, name), info, user);
  }

  /** The steps of `FixedUserTrashTakesItems`: the folder, its `info/` and `files/`, then the info file. */
  lemma FixedUserTrashSteps(fs: Fs, uid: u32, topdir: FsPath, mode: u32, name: seq<byte>, text: seq<byte>)
    requires IsRealDir(fs, topdir) && UserTrash(topdir, uid) !in fs
    requires SharedFolder(fs, topdir, uid, true) == Success([])
    requires var user := UserTrash(topdir, uid);
      Child(user, INFO()) !in fs && Child(user, FILES()) !in fs && InfoPath(user, name) !in fs
    ensures var r := MountedTrashFoldersFixed(fs, uid, topdir, true, true, mode);
            && r.Success? && r.value.folders == [UserTrash(topdir, uid)]
            && CreateNew(r.value.fs, InfoPath(UserTrash(topdir, uid), name), text).Success?
  {
    var user := UserTrash(topdir, uid);
    var info := Child(user, INFO());
    var files := Child(user, FILES());
    var target := InfoPath(user, name);
    ChildParts(topdir, DOT_TRASH_DASH() + Decimal(uid));
    ChildParts(user, INFO());
    ChildParts(user, FILES());
    ChildParts(info, name + TRASHINFO());
    var fs1 := fs[user := Dir(mode)];
    assert CreateDir(fs, user, mode) == Success(fs1);
    assert [] + [user] == [user];
    assert MountedTrashFolders(fs, uid, topdir, true, true, mode, true) == Success(Found(fs1, [user]));
    assert fs1 != fs by {
      assert user in fs1;
    }
    assert info != user && files != user && target != user;
    var fs2 := fs1[info := Dir(mode)];
    var fs3 := fs2[files := Dir(mode)];
    assert CreateDir(fs1, info, mode) == Success(fs2);
    assert info != files by {
      assert info.components[|user.components|] != files.components[|user.components|];
    }
    assert CreateDir(fs2, files, mode) == Success(fs3);
    assert MountedTrashFoldersFixed(fs, uid, topdir, true, true, mode) == Success(Found(fs3, [user]));
    assert target != files by {
      TrashPathsDistinct(user, name, name);
      assert |target.components| != |files.components|;
    }
    assert CreateNew(fs3, target, text).Success?;
  }

  // ---------------------------------------------------------------------------------------
  // delete_all_canonicalized
  // ---------------------------------------------------------------------------------------

  /** The environment the engine reads: two variables, the user id and the mount table. */
  datatype Env = Env(xdgDataHome: Option<seq<byte>>, home: Option<seq<byte>>, uid: u32, mounts: seq<FsPath>)

  /** A home trash that does not exist yet gets its `info` and `files` directories (`create_dir_all`). */
  function PrepareHomeTrash(fs: Fs, home: FsPath, mode: u32): (r: Result<Fs, Error>)
    ensures Exists(fs, home) ==> r == Success(fs)
    ensures r.Success? ==> forall q :: q in fs ==> q in r.value && r.value[q] == fs[q]
    ensures r.Success? && !Exists(fs, home) ==> IsDir(r.value, Child(home, INFO())) && IsDir(r.value, Child(home, FILES()))
    ensures r.Failure? ==> r.error == Filesystem(Child(home, INFO())) || r.error == Filesystem(Child(home, FILES()))
  {
    if Exists(fs, home) then Success(fs)
    else
      var info := Child(home, INFO());
      var files := Child(home, FILES());
      ChildParts(home, INFO());
      ChildParts(home, FILES());
      var fs1 :- CreateDirAll(fs, info, mode).MapFailure(_ => Filesystem(info));
      var fs2 :- CreateDirAll(fs1, files, mode).MapFailure(_ => Filesystem(files));
      Success(fs2)
  }

  /** The home trash, prepared, as the one folder to use. */
  function HomeFolder(fs: Fs, home: FsPath, mode: u32): (r: Result<Found, Error>)
    ensures r.Success? ==> r.value.folders == [home] && forall q :: q in fs ==> q in r.value.fs && r.value.fs[q] == fs[q]
  {
    var fs1 :- PrepareHomeTrash(fs, home, mode);
    Success(Found(fs1, [home]))
  }

  /** The folders an item on `src` may go to: the home trash on the root mount, else its mount's. */
  predicate TrashFor(home: FsPath, mounts: seq<FsPath>, uid: u32, src: FsPath, trash: FsPath) {
    var topdir := ChooseTopdir(mounts, src);
    if topdir == Root() then trash == home
    else trash == SharedUserTrash(topdir, uid) || trash == UserTrash(topdir, uid)
  }

  /**
   * What a successful trashing leaves at the item's place in the trash: a node of the item's
   * kind, and the item's own node when the whole tree moved or the item is not a directory (as
   * written, a directory's place holds the placeholder directory).
   */
  lemma TrashedHoldsSource(fs: Fs, r: Fs, src: FsPath, trash: FsPath, c: seq<byte>, text: seq<byte>, corrected: bool)
    requires Trashed(fs, r, src, trash, c, text, corrected)
    ensures fs[src].Dir? && InSubtree(FilesPath(trash, c), src) ==> !corrected && forall q :: q in r ==> !InSubtree(q, src)
    ensures !(fs[src].Dir? && InSubtree(FilesPath(trash, c), src)) ==>
      FilesPath(trash, c) in r && r[FilesPath(trash, c)].Dir? == fs[src].Dir?
    ensures !(fs[src].Dir? && InSubtree(FilesPath(trash, c), src)) && (corrected || !fs[src].Dir?) ==>
      r[FilesPath(trash, c)] == fs[src]
  {
    RebaseSelf(src, FilesPath(trash, c));
  }

  /**
   * What `DeleteOne` promises of the trash folder `trash` it used, once `src` went in as `c`:
   * `files/c` holds the item, or, as written, a directory holding `files/c` is gone entirely.
   */
  predicate HoldsItem(fs: Fs, r: Fs, src: FsPath, trash: FsPath, c: seq<byte>, corrected: bool)
    requires src in fs
  {
    if fs[src].Dir? && InSubtree(FilesPath(trash, c), src) then
      !corrected && forall q :: q in r ==> !InSubtree(q, src)
    else
      && FilesPath(trash, c) in r && r[FilesPath(trash, c)].Dir? == fs[src].Dir?
      && (corrected || !fs[src].Dir? ==> r[FilesPath(trash, c)] == fs[src])
  }

  /** The folder `delete_all_canonicalized` uses for `src`: the home trash on the root mount, else the mount's. */
  function FolderFor(fs: Fs, home: FsPath, topdir: FsPath, uid: u32, mode: u32, corrected: bool): (r: Result<Found, Error>)
    ensures r.Success? ==> |r.value.folders| == 1
    ensures r.Success? ==> forall q :: q in fs ==> q in r.value.fs && r.value.fs[q] == fs[q]
    ensures r.Success? && topdir == Root() ==> r.value.folders == [home]
    ensures r.Success? && topdir != Root() ==>
      r.value.folders[0] == SharedUserTrash(topdir, uid) || r.value.folders[0] == UserTrash(topdir, uid)
  {
    if topdir == Root() then HomeFolder(fs, home, mode)
    else if corrected then
      var found :- MountedTrashFoldersFixed(fs, uid, topdir, true, true, mode);
      assert found.folders[0] in found.folders;
      Success(found)
    else
      var found :- MountedTrashFolders(fs, uid, topdir, true, true, mode, false);
      assert found.folders[0] in found.folders;
      assert forall q :: q in fs ==> q in found.fs && found.fs[q] == fs[q];
      Success(found)
  }

  /**
   * One path of `delete_all_canonicalized`: on the root mount the home trash is prepared and
   * used; on another mount `execute_on_mounted_trash_folders` picks the first folder, creating
   * `.Trash-$uid` when there is none.
   */
  function DeleteOne(fs: Fs, home: FsPath, mounts: seq<FsPath>, uid: u32, src: FsPath, encode: FsPath -> Text, date: seq<byte>, mode: u32, corrected: bool): (r: Result<Fs, Error>)
    ensures r.Success? && src in fs ==>
      exists trash: FsPath, c: seq<byte> :: TrashFor(home, mounts, uid, src, trash) && HoldsItem(fs, r.value, src, trash, c, corrected)
  {
    var topdir := ChooseTopdir(mounts, src);
    var found :- FolderFor(fs, home, topdir, uid, mode, corrected);
    var trash := found.folders[0];
    var r := MoveToTrash(found.fs, src, trash, topdir, encode, date, mode, corrected);
    assert r.Success? && src in fs ==>
      exists c: seq<byte> :: TrashFor(home, mounts, uid, src, trash) && HoldsItem(fs, r.value, src, trash, c, corrected) by {
      if r.Success? && src in fs {
        var name := FileName(src).value;
        var j: nat :| j >= 1 && TrashedAfter(found.fs, r.value, src, trash, name, InfoFor(src, topdir, encode, date), 1, j, corrected);
        TrashedHoldsSource(found.fs, r.value, src, trash, CandidateName(name, j), InfoFor(src, topdir, encode, date), corrected);
        assert HoldsItem(fs, r.value, src, trash, CandidateName(name, j), corrected);
      }
    }
    r
  }

  /** The paths trashed one after the other; the first failure stops the loop. */
  function DeleteEach(fs: Fs, home: FsPath, mounts: seq<FsPath>, uid: u32, paths: seq<FsPath>, encode: FsPath -> Text, date: seq<byte>, mode: u32, corrected: bool): (r: Result<Fs, Error>)
    decreases |paths|
  {
    if |paths| == 0 then Success(fs)
    else
      var fs1 :- DeleteOne(fs, home, mounts, uid, paths[0], encode, date, mode, corrected);
      DeleteEach(fs1, home, mounts, uid, paths[1..], encode, date, mode, corrected)
  }

  /** Trashing `a + b` is trashing `a`, then `b` in the state `a` left, unless `a` failed. */
  lemma {:induction false} DeleteEachAppend(fs: Fs, home: FsPath, mounts: seq<FsPath>, uid: u32, a: seq<FsPath>, b: seq<FsPath>, encode: FsPath -> Text, date: seq<byte>, mode: u32, corrected: bool)
    ensures DeleteEach(fs, home, mounts, uid, a + b, encode, date, mode, corrected) ==
      match DeleteEach(fs, home, mounts, uid, a, encode, date, mode, corrected)
      case Failure(e) => Failure(e)
      case Success(fs1) => DeleteEach(fs1, home, mounts, uid, b, encode, date, mode, corrected)
    decreases |a|
  {
    if |a| == 0 {
      assert a + b == b;
    } else {
      assert (a + b)[0] == a[0];
      assert (a + b)[1..] == a[1..] + b;
      match DeleteOne(fs, home, mounts, uid, a[0], encode, date, mode, corrected)
      case Failure(_) =>
      case Success(fs1) =>
        DeleteEachAppend(fs1, home, mounts, uid, a[1..], b, encode, date, mode, corrected);
    }
  }

  /**
   * `delete_all_canonicalized`: the home trash is located first, so an environment with neither
   * `XDG_DATA_HOME` nor `HOME` panics even when no path belongs to the root mount.
   */
  function DeleteAllCanonicalized(fs: Fs, env: Env, paths: seq<FsPath>, encode: FsPath -> Text, date: seq<byte>, mode: u32, corrected: bool): (r: Result<Fs, Error>)
    ensures !IsSet(env.xdgDataHome) && !IsSet(env.home) ==> r == Failure(Panic)
    ensures IsSet(env.xdgDataHome) || IsSet(env.home) ==>
      r == DeleteEach(fs, HomeTrash(env.xdgDataHome, env.home).value, env.mounts, env.uid, paths, encode, date, mode, corrected)
  {
    var home :- HomeTrash(env.xdgDataHome, env.home);
    DeleteEach(fs, home, env.mounts, env.uid, paths, encode, date, mode, corrected)
  }

  // ---------------------------------------------------------------------------------------
  // The code as written against the corrected code
  // ---------------------------------------------------------------------------------------

  /** Adding an entry in an existing directory keeps the file system tree-shaped. */
  lemma TreeShapedAdd(fs: Fs, p: FsPath, n: Node)
    requires TreeShaped(fs) && ParentIsDir(fs, p) && p !in fs
    ensures TreeShaped(fs[p := n])
  {
    forall q | q in fs[p := n] && Parent(q).Some? ensures IsRealDir(fs[p := n], Parent(q).value) {
      if q != p {
        assert Parent(q).value != p;
      }
    }
  }

  /** The info files of a trash whose `info` folder lies outside `src` lie outside `src`. */
  lemma InfoOutsideItem(src: FsPath, trash: FsPath, name: seq<byte>, k: nat)
    requires FileName(src) == Some(name) && !InSubtree(Child(trash, INFO()), src)
    ensures !InSubtree(InfoPath(trash, CandidateName(name, k)), src)
  {
    SourceIsNoInfoFile(src, trash, name, k);
    var info := InfoPath(trash, CandidateName(name, k));
    if InSubtree(info, src) {
      SubtreeLonger(info, src);
      InSubtreeParent(info, src);
    }
  }

  /** An item whose tree holds no `files` folder of the trash is not an ancestor of a files entry. */
  lemma FilesOutsideItem(src: FsPath, trash: FsPath, c: seq<byte>)
    requires !InSubtree(Child(trash, FILES()), src)
    ensures FilesPath(trash, c) == src || !InSubtree(FilesPath(trash, c), src)
  {
    var dst := FilesPath(trash, c);
    if InSubtree(dst, src) && dst != src {
      SubtreeLonger(dst, src);
      InSubtreeParent(dst, src);
    }
  }

  /** Strictly below `base` means at or below `base` for the parent too. */
  lemma InSubtreeParent(q: FsPath, base: FsPath)
    requires InSubtree(q, base) && |q.components| > |base.components|
    ensures Parent(q).Some? && InSubtree(Parent(q).value, base)
  {
    assert Parent(q).value.components[..|base.components|] == q.components[..|base.components|];
  }

  /**
   * With a flat item whose tree holds neither the `info` nor the `files` folder of the trash,
   * the attempts as written and corrected give the same result.
   */
  lemma {:induction false} TryCandidatesAgree(fs: Fs, src: FsPath, trash: FsPath, name: seq<byte>, text: seq<byte>, mode: u32, k: nat)
    requires k >= 1 && FileName(src) == Some(name)
    requires TreeShaped(fs) && Flat(fs, src, mode) && !InSubtree(Child(trash, INFO()), src)
    requires !InSubtree(Child(trash, FILES()), src)
    ensures TryCandidates(fs, src, trash, name, text, mode, k, false) == TryCandidates(fs, src, trash, name, text, mode, k, true)
    decreases |Blocking(fs, trash, name, k)|
  {
    var c := CandidateName(name, k);
    var info := InfoPath(trash, c);
    match CreateNew(fs, info, text)
    case Failure(e) =>
      if e == AlreadyExists {
        InfoBlockedRetries(fs, src, trash, name, text, mode, k, false);
        InfoBlockedRetries(fs, src, trash, name, text, mode, k, true);
        BlockingShrinks(fs, trash, name, k);
        TryCandidatesAgree(fs, src, trash, name, text, mode, k + 1);
      }
    case Success(fs1) =>
      FlatWithInfo(fs, src, trash, name, text, mode, k);
      FilesOutsideItem(src, trash, c);
      WalkAgreesOnFlat(fs1, src, FilesPath(trash, c), mode);
      assert MoveItems(fs1, src, FilesPath(trash, c), mode, false) == MoveItems(fs1, src, FilesPath(trash, c), mode, true);
      if MoveItems(fs1, src, FilesPath(trash, c), mode, true) == Failure(AlreadyExists) {
        MoveBlockedRetries(fs, src, trash, name, text, mode, k, false);
        MoveBlockedRetries(fs, src, trash, name, text, mode, k, true);
        BlockingShrinks(fs, trash, name, k);
        TryCandidatesAgree(fs, src, trash, name, text, mode, k + 1);
      }
  }

  /** Creating attempt `k`'s info file keeps the file system tree-shaped and the item flat. */
  lemma FlatWithInfo(fs: Fs, src: FsPath, trash: FsPath, name: seq<byte>, text: seq<byte>, mode: u32, k: nat)
    requires FileName(src) == Some(name)
    requires TreeShaped(fs) && Flat(fs, src, mode) && !InSubtree(Child(trash, INFO()), src)
    requires CreateNew(fs, InfoPath(trash, CandidateName(name, k)), text).Success?
    ensures var fs1 := CreateNew(fs, InfoPath(trash, CandidateName(name, k)), text).value;
      TreeShaped(fs1) && Flat(fs1, src, mode)
  {
    var info := InfoPath(trash, CandidateName(name, k));
    InfoOutsideItem(src, trash, name, k);
    SourceIsNoInfoFile(src, trash, name, k);
    TreeShapedAdd(fs, info, File(text));
    var fs1 := fs[info := File(text)];
    forall q | q in fs1 && InSubtree(q, src) && q != src && fs1[src].Dir? ensures DirectNonDir(fs1, src, q) {
      assert q != info && DirectNonDir(fs, src, q);
    }
  }

  /**
   * `move_to_trash` as written and corrected agree on a flat item whose tree holds neither the
   * `info` nor the `files` folder of the trash: the walk differs from the whole-tree move only
   * below a subdirectory or when it moves a directory into itself.
   */
  lemma MoveToTrashAgrees(fs: Fs, src: FsPath, trash: FsPath, topdir: FsPath, encode: FsPath -> Text, date: seq<byte>, mode: u32)
    requires TreeShaped(fs) && Flat(fs, src, mode) && !InSubtree(Child(trash, INFO()), src)
    requires !InSubtree(Child(trash, FILES()), src)
    ensures MoveToTrash(fs, src, trash, topdir, encode, date, mode, false) == MoveToTrash(fs, src, trash, topdir, encode, date, mode, true)
  {
    match FileName(src)
    case None =>
    case Some(name) =>
      if ValidUtf8(name) {
        var text := InfoFor(src, topdir, encode, date);
        TryCandidatesAgree(fs, src, trash, name, text, mode, 1);
        assert MoveToTrash(fs, src, trash, topdir, encode, date, mode, false) == TryCandidates(fs, src, trash, name, text, mode, 1, false);
        assert MoveToTrash(fs, src, trash, topdir, encode, date, mode, true) == TryCandidates(fs, src, trash, name, text, mode, 1, true);
      }
  }

  /**
   * The folder `src` goes to exists already: the home trash on the root mount, or `.Trash-$uid`
   * on another mount that has no `.Trash/$uid`.
   */
  predicate FolderReady(fs: Fs, home: FsPath, mounts: seq<FsPath>, uid: u32, src: FsPath) {
    var topdir := ChooseTopdir(mounts, src);
    if topdir == Root() then Exists(fs, home)
    else !IsDir(fs, SharedUserTrash(topdir, uid)) && IsDir(fs, UserTrash(topdir, uid))
  }

  /** The folder that `FolderReady` says exists. */
  function ReadyFolder(home: FsPath, mounts: seq<FsPath>, uid: u32, src: FsPath): FsPath {
    var topdir := ChooseTopdir(mounts, src);
    if topdir == Root() then home else UserTrash(topdir, uid)
  }

  /** Both versions use the ready folder, unchanged. */
  lemma FolderForReady(fs: Fs, home: FsPath, mounts: seq<FsPath>, uid: u32, src: FsPath, mode: u32, corrected: bool)
    requires FolderReady(fs, home, mounts, uid, src)
    ensures FolderFor(fs, home, ChooseTopdir(mounts, src), uid, mode, corrected) == Success(Found(fs, [ReadyFolder(home, mounts, uid, src)]))
  {
    var topdir := ChooseTopdir(mounts, src);
    if topdir != Root() {
      assert SharedFolder(fs, topdir, uid, false) == Success([]);
      assert SharedFolder(fs, topdir, uid, true) == Success([]);
      assert [] + [UserTrash(topdir, uid)] == [UserTrash(topdir, uid)];
    }
  }

  /**
   * Deleting one path as written and corrected agree when its folder exists already, the item
   * is flat and the folder's `info` and `files` lie outside it: the fresh-folder and sticky-bit defects
   * need a folder that is not there, and the walk needs a subdirectory.
   */
  lemma DeleteOneAgrees(fs: Fs, home: FsPath, mounts: seq<FsPath>, uid: u32, src: FsPath, encode: FsPath -> Text, date: seq<byte>, mode: u32)
    requires TreeShaped(fs) && Flat(fs, src, mode) && FolderReady(fs, home, mounts, uid, src)
    requires !InSubtree(Child(ReadyFolder(home, mounts, uid, src), INFO()), src)
    requires !InSubtree(Child(ReadyFolder(home, mounts, uid, src), FILES()), src)
    ensures DeleteOne(fs, home, mounts, uid, src, encode, date, mode, false) == DeleteOne(fs, home, mounts, uid, src, encode, date, mode, true)
  {
    FolderForReady(fs, home, mounts, uid, src, mode, false);
    FolderForReady(fs, home, mounts, uid, src, mode, true);
    MoveToTrashAgrees(fs, src, ReadyFolder(home, mounts, uid, src), ChooseTopdir(mounts, src), encode, date, mode);
  }
}
