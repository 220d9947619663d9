/**
 * The platform-independent front end of the crate: the error type, `TrashItem` with its identity
 * and `original_path`, `TrashItemSize`, path canonicalization before deleting, `delete` in terms
 * of `delete_all`, and the twin check that `restore_all` runs before handing the items to the
 * platform.
 */
module Trash {
  import opened Wrappers
  import opened Bytes
  import opened Sequences
  import opened FsPaths

  /** An item in the trash. `id` is the platform's identifier (on Linux the info file's path). */
  datatype TrashItem = TrashItem(id: seq<byte>, name: seq<byte>, originalParent: FsPath, timeDeleted: int)

  /**
   * The crate's error type. `Panic` is not one of its variants: it marks the places where the
   * source panics (`unwrap`, `assert!`, `panic!` and the like) instead of returning an error.
   */
  datatype Error =
    | Unknown(description: seq<byte>)
    | Os(code: int, description: seq<byte>)
    | Filesystem(path: FsPath)
    | TargetedRoot
    | CouldNotAccess(target: seq<byte>)
    | CanonicalizePath(original: FsPath)
    | ConvertOsString(originalName: seq<byte>)
    | RestoreCollision(path: FsPath, remainingItems: seq<TrashItem>)
    | RestoreTwins(path: FsPath, items: seq<TrashItem>)
    | Panic

  /** `original_path()`: the original parent joined with the name. */
  function OriginalPath(item: TrashItem): FsPath {
    Join(item.originalParent, ParsePath(item.name))
  }

  /** For an item whose name is a plain file name, the original path takes apart into parent and name. */
  lemma OriginalPathParts(item: TrashItem)
    requires IsName(item.name)
    ensures Parent(OriginalPath(item)) == Some(item.originalParent)
    ensures FileName(OriginalPath(item)) == Some(item.name)
  {
    JoinName(item.originalParent, item.name);
    ChildParts(item.originalParent, item.name);
  }

  /** `PartialEq for TrashItem`: two items are the same item when their ids agree. */
  predicate SameItem(a: TrashItem, b: TrashItem) {
    a.id == b.id
  }

  /** `Hash for TrashItem`: what is fed to the hasher is the id alone. */
  function HashInput(item: TrashItem): seq<byte> {
    item.id
  }

  /**
   * Identity depends on the id only: equality is an equivalence, equal items hash alike, and
   * changing the name, the original parent or the deletion time keeps an item the same item.
   */
  lemma ItemIdentity(a: TrashItem, b: TrashItem, c: TrashItem, name: seq<byte>, parent: FsPath, time: int)
    ensures SameItem(a, a)
    ensures SameItem(a, b) <==> SameItem(b, a)
    ensures SameItem(a, b) && SameItem(b, c) ==> SameItem(a, c)
    ensures SameItem(a, b) ==> HashInput(a) == HashInput(b)
    ensures SameItem(a, a.(name := name, originalParent := parent, timeDeleted := time))
    ensures SameItem(a, b) <==> a.id == b.id
  {
  }

  // ---------------------------------------------------------------------------------------
  // TrashItemSize
  // ---------------------------------------------------------------------------------------

  const U64_LIMIT: int := 0x1_0000_0000_0000_0000

  /** The size of an item: a byte count for a file, an entry count for a directory. */
  datatype TrashItemSize = ByteCount(bytes: nat) | EntryCount(entries: nat)

  predicate SizeInRange(s: TrashItemSize) {
    match s
    case ByteCount(b) => b < U64_LIMIT
    case EntryCount(e) => e < U64_LIMIT
  }

  /** `size()`: the byte count, for a file. */
  function Size(s: TrashItemSize): Option<nat> {
    match s
    case ByteCount(b) => Some(b)
    case EntryCount(_) => None
  }

  /** `entries()`: the entry count, for a directory. */
  function Entries(s: TrashItemSize): Option<nat> {
    match s
    case ByteCount(_) => None
    case EntryCount(e) => Some(e)
  }

  /** Exactly one accessor answers, and the answers determine the size. */
  lemma SizeAccessors(s: TrashItemSize)
    ensures Size(s).Some? <==> s.ByteCount?
    ensures Entries(s).Some? <==> s.EntryCount?
    ensures Size(s).Some? != Entries(s).Some?
    ensures s == if Size(s).Some? then ByteCount(Size(s).value) else EntryCount(Entries(s).value)
  {
  }

  // ---------------------------------------------------------------------------------------
  // canonicalize_paths
  // ---------------------------------------------------------------------------------------

  /** The target named in the error when the working directory cannot be read. */
  function CwdTarget(): seq<byte> {
    Ascii("[Current working directory]")
  }

  /** The absolute path a target denotes: relative targets are joined onto the working directory. */
  function Absolutize(path: seq<byte>, cwd: Option<FsPath>): Result<FsPath, Error> {
    var target := ParsePath(path);
    if IsRelative(target) then
      match cwd
      case None => Failure(CouldNotAccess(CwdTarget()))
      case Some(dir) => Success(Join(dir, target))
    else Success(target)
  }

  /**
   * One step of `canonicalize_paths`. `cwd` is the working directory (`None` when it cannot be
   * read) and `canon` is `Path::canonicalize` (`None` on failure); both are inputs.
   */
  function CanonicalizeOne(path: seq<byte>, cwd: Option<FsPath>, canon: FsPath -> Option<FsPath>): (r: Result<FsPath, Error>)
    ensures path == [] ==> r == Failure(CanonicalizePath(EmptyPath()))
    ensures path != [] && IsRelative(ParsePath(path)) && cwd.None? ==> r == Failure(CouldNotAccess(CwdTarget()))
    ensures r.Success? ==>
      var target := Absolutize(path, cwd).value;
      && Parent(target).Some?
      && canon(Parent(target).value).Some?
      && (FileName(target).Some? ==>
            Parent(r.value) == canon(Parent(target).value) && FileName(r.value) == FileName(target))
      && (FileName(target).None? ==> r.value == canon(Parent(target).value).value)
    ensures r.Failure? && path != [] && Absolutize(path, cwd).Success? ==>
      var target := Absolutize(path, cwd).value;
      || (Parent(target).None? && r.error == TargetedRoot)
      || (Parent(target).Some? && canon(Parent(target).value).None? && r.error == CanonicalizePath(Parent(target).value))
  {
    if path == [] then
      ParseEmpty();
      Failure(CanonicalizePath(ParsePath(path)))
    else
      var target :- Absolutize(path, cwd);
      match Parent(target)
      case None => Failure(TargetedRoot)
      case Some(parent) =>
        match canon(parent)
        case None => Failure(CanonicalizePath(parent))
        case Some(canonicalParent) =>
          match FileName(target)
          case Some(name) =>
            ChildParts(canonicalParent, name);
            Success(Child(canonicalParent, name))
          case None => Success(canonicalParent)
  }

  /** `canonicalize_paths`: every path canonicalized in order; the first error stops the walk. */
  function CanonicalizePaths(paths: seq<seq<byte>>, cwd: Option<FsPath>, canon: FsPath -> Option<FsPath>): (r: Result<seq<FsPath>, Error>)
    decreases |paths|
  {
    if |paths| == 0 then Success([])
    else
      var first :- CanonicalizeOne(paths[0], cwd, canon);
      var rest :- CanonicalizePaths(paths[1..], cwd, canon);
      Success([first] + rest)
  }

  /**
   * The collected result keeps the input order; on failure the error is that of the first path
   * that fails, and every earlier path canonicalized.
   */
  lemma CanonicalizePathsInOrder(paths: seq<seq<byte>>, cwd: Option<FsPath>, canon: FsPath -> Option<FsPath>)
    ensures var r := CanonicalizePaths(paths, cwd, canon);
      && (r.Success? <==> forall i :: 0 <= i < |paths| ==> CanonicalizeOne(paths[i], cwd, canon).Success?)
      && (r.Success? ==>
            && |r.value| == |paths|
            && forall i :: 0 <= i < |paths| ==> r.value[i] == CanonicalizeOne(paths[i], cwd, canon).value)
      && (r.Failure? ==>
            exists i :: && 0 <= i < |paths|
                        && CanonicalizeOne(paths[i], cwd, canon) == Failure(r.error)
                        && forall j :: 0 <= j < i ==> CanonicalizeOne(paths[j], cwd, canon).Success?)
  {
    CanonicalizeSucceedsInOrder(paths, cwd, canon);
    CanonicalizeFailsAtFirst(paths, cwd, canon);
  }

  /** The walk succeeds exactly when every path canonicalizes, and then gives their results in order. */
  lemma {:induction false} CanonicalizeSucceedsInOrder(paths: seq<seq<byte>>, cwd: Option<FsPath>, canon: FsPath -> Option<FsPath>)
    ensures var r := CanonicalizePaths(paths, cwd, canon);
      && (r.Success? <==> forall i :: 0 <= i < |paths| ==> CanonicalizeOne(paths[i], cwd, canon).Success?)
      && (r.Success? ==>
            && |r.value| == |paths|
            && forall i :: 0 <= i < |paths| ==> r.value[i] == CanonicalizeOne(paths[i], cwd, canon).value)
    decreases |paths|
  {
    if |paths| > 0 {
      CanonicalizeSucceedsInOrder(paths[1..], cwd, canon);
      var r := CanonicalizePaths(paths, cwd, canon);
      var head := CanonicalizeOne(paths[0], cwd, canon);
      var tail := CanonicalizePaths(paths[1..], cwd, canon);
      assert forall i :: 1 <= i < |paths| ==> paths[1..][i - 1] == paths[i];
      if head.Success? && tail.Success? {
        assert r.value == [head.value] + tail.value;
      }
    }
  }

  /** A failed walk fails with the error of the first path that does not canonicalize. */
  lemma {:induction false} CanonicalizeFailsAtFirst(paths: seq<seq<byte>>, cwd: Option<FsPath>, canon: FsPath -> Option<FsPath>)
    ensures var r := CanonicalizePaths(paths, cwd, canon);
      r.Failure? ==>
        exists i :: && 0 <= i < |paths|
                    && CanonicalizeOne(paths[i], cwd, canon) == Failure(r.error)
                    && forall j :: 0 <= j < i ==> CanonicalizeOne(paths[j], cwd, canon).Success?
    decreases |paths|
  {
    if |paths| > 0 {
      CanonicalizeFailsAtFirst(paths[1..], cwd, canon);
      var r := CanonicalizePaths(paths, cwd, canon);
      var head := CanonicalizeOne(paths[0], cwd, canon);
      var tail := CanonicalizePaths(paths[1..], cwd, canon);
      if head.Failure? {
        assert r.Failure? && r.error == head.error;
      } else if tail.Failure? {
        var k :| 0 <= k < |paths[1..]| && CanonicalizeOne(paths[1..][k], cwd, canon) == Failure(tail.error) &&
            forall j :: 0 <= j < k ==> CanonicalizeOne(paths[1..][j], cwd, canon).Success?;
        assert CanonicalizeOne(paths[k + 1], cwd, canon) == Failure(r.error);
        forall j | 0 <= j < k + 1 ensures CanonicalizeOne(paths[j], cwd, canon).Success? {
          if j > 0 { assert paths[1..][j - 1] == paths[j]; }
        }
      }
    }
  }

  /**
   * `delete_all`: the canonical paths handed to the platform's deletion, or the error that
   * stopped canonicalization; on error nothing reaches the platform.
   */
  function DeleteAll(paths: seq<seq<byte>>, cwd: Option<FsPath>, canon: FsPath -> Option<FsPath>): Result<seq<FsPath>, Error> {
    CanonicalizePaths(paths, cwd, canon)
  }

  /** `delete(p)` is `delete_all([p])`: exactly the one canonicalized path reaches the platform. */
  function Delete(path: seq<byte>, cwd: Option<FsPath>, canon: FsPath -> Option<FsPath>): (r: Result<seq<FsPath>, Error>)
    ensures r.Success? <==> CanonicalizeOne(path, cwd, canon).Success?
    ensures r.Success? ==> r.value == [CanonicalizeOne(path, cwd, canon).value]
    ensures r.Failure? ==> r.error == CanonicalizeOne(path, cwd, canon).error
  {
    assert [path][1..] == [];
    assert CanonicalizePaths([], cwd, canon) == Success([]);
    DeleteAll([path], cwd, canon)
  }

  /**
   * As written, `canonicalize_paths("/..")` is the root itself: the parent of `/..` is `/`, which
   * canonicalizes to `/`, and `/..` has no file name. The root therefore reaches the platform
   * although a root target is meant to give `TargetedRoot`.
   */
  lemma CanonicalizeLetsRootThrough(cwd: Option<FsPath>, canon: FsPath -> Option<FsPath>)
    requires canon(Root()) == Some(Root())
    ensures CanonicalizeOne([SLASH, DOT, DOT], cwd, canon) == Success(Root())
  {
    var path: seq<byte> := [SLASH, DOT, DOT];
    assert SplitOn(path, SLASH) == [[], [DOT, DOT]] by {
      assert path[1..] == [DOT, DOT];
      SplitSeparatorFree([DOT, DOT], SLASH);
    }
    var dots: seq<byte> := [DOT, DOT];
    var none: seq<byte> := [];
    assert [none, dots][1..] == [dots];
    assert [dots][1..] == [];
    assert ParseComponents([dots], false) == [ParentDir] + ParseComponents([], false);
    assert ParseComponents([none, dots], false) == ParseComponents([dots], false);
    assert ParsePath(path) == FsPath(true, [ParentDir]);
  }

  /** Canonicalization with the root check applied to its result, as `TargetedRoot` promises. */
  function CanonicalizeOneChecked(path: seq<byte>, cwd: Option<FsPath>, canon: FsPath -> Option<FsPath>): (r: Result<FsPath, Error>)
    ensures r.Success? ==> r.value != Root() && r == CanonicalizeOne(path, cwd, canon)
    ensures CanonicalizeOne(path, cwd, canon).Failure? ==> r == CanonicalizeOne(path, cwd, canon)
    ensures CanonicalizeOne(path, cwd, canon) == Success(Root()) ==> r == Failure(TargetedRoot)
  {
    var full :- CanonicalizeOne(path, cwd, canon);
    if full == Root() then Failure(TargetedRoot) else Success(full)
  }

  /** With the check, `/..` is refused as a root target. */
  lemma CheckedRefusesRoot(cwd: Option<FsPath>, canon: FsPath -> Option<FsPath>)
    requires canon(Root()) == Some(Root())
    ensures CanonicalizeOneChecked([SLASH, DOT, DOT], cwd, canon) == Failure(TargetedRoot)
  {
    CanonicalizeLetsRootThrough(cwd, canon);
  }

  // ---------------------------------------------------------------------------------------
  // restore_all: the twin check
  // ---------------------------------------------------------------------------------------

  /** No two of the first `n` items would be restored to the same place. */
  predicate NoTwinsBefore(items: seq<TrashItem>, n: nat)
    requires n <= |items|
  {
    forall a, b :: 0 <= a < b < n ==> OriginalPath(items[a]) != OriginalPath(items[b])
  }

  /** Two of the items would be restored to the same place. */
  predicate HasTwins(items: seq<TrashItem>) {
    !NoTwinsBefore(items, |items|)
  }

  /** `items[i]` repeats the original path of an earlier item, and nothing before it repeats. */
  predicate FirstTwin(items: seq<TrashItem>, i: nat) {
    && i < |items|
    && (exists a :: 0 <= a < i && OriginalPath(items[a]) == OriginalPath(items[i]))
    && NoTwinsBefore(items, i)
  }

  /**
   * `os_limited::restore_all` before the platform call: the items are inserted one by one into a
   * set keyed by original path. The first failed insertion gives `RestoreTwins` with that item's
   * original path and the whole list; otherwise the items go to the platform, in order.
   */
  method CheckTwins(items: seq<TrashItem>) returns (r: Result<seq<TrashItem>, Error>)
    ensures r.Success? <==> !HasTwins(items)
    ensures r.Success? ==> r.value == items
    ensures r.Failure? ==> exists i: nat :: FirstTwin(items, i) && r.error == RestoreTwins(OriginalPath(items[i]), items)
  {
    var seen: set<FsPath> := {};
    var i := 0;
    while i < |items|
      invariant 0 <= i <= |items|
      invariant seen == set j | 0 <= j < i :: OriginalPath(items[j])
      invariant NoTwinsBefore(items, i)
    {
      var path := OriginalPath(items[i]);
      if path in seen {
        assert FirstTwin(items, i);
        return Failure(RestoreTwins(path, items));
      }
      seen := seen + {path};
      i := i + 1;
    }
    return Success(items);
  }
}
