/**
 * An abstract Unix file system for the freedesktop.org trash engine: a finite map from paths to
 * nodes, with the operations the engine calls (`create_new` open, `create_dir`, `create_dir_all`,
 * `remove_file`, `remove_dir_all`, `rename`) and the error kinds it distinguishes.
 */
module AbstractFs {
  import opened Wrappers
  import opened Bytes
  import opened FsPaths

  type u32 = x: int | 0 <= x < 0x1_0000_0000

  /** What a symbolic link resolves to. */
  datatype Kind = FileKind | DirKind

  /** A directory entry. A symbolic link records only what it resolves to, if anything. */
  datatype Node = File(text: seq<byte>) | Dir(mode: u32) | Symlink(target: Option<Kind>)

  type Fs = map<FsPath, Node>

  /** The `io::ErrorKind`s the engine tells apart; every other kind is `OtherIo`. */
  datatype IoError = AlreadyExists | NotFound | OtherIo

  /** `Path::exists`: the entry is there and, for a link, resolves. */
  predicate Exists(fs: Fs, p: FsPath) {
    p in fs && !(fs[p].Symlink? && fs[p].target.None?)
  }

  /** `Path::is_dir`: a directory, or a link that resolves to one. */
  predicate IsDir(fs: Fs, p: FsPath) {
    p in fs && (fs[p].Dir? || fs[p] == Symlink(Some(DirKind)))
  }

  /** A directory itself, not through a link. */
  predicate IsRealDir(fs: Fs, p: FsPath) {
    p in fs && fs[p].Dir?
  }

  /** The parent of `p` is a directory that entries can be created in. */
  predicate ParentIsDir(fs: Fs, p: FsPath) {
    Parent(p).Some? && IsRealDir(fs, Parent(p).value)
  }

  /** `q` is `base` or lies below it. */
  predicate InSubtree(q: FsPath, base: FsPath) {
    StartsWith(q, base)
  }

  /** Every entry other than the root sits in a directory that is itself an entry. */
  predicate TreeShaped(fs: Fs) {
    forall q :: q in fs ==> Parent(q).None? || IsRealDir(fs, Parent(q).value)
  }

  /** `OpenOptions::new().create_new(true).write(true).open(p)`, then writing `text`. */
  function CreateNew(fs: Fs, p: FsPath, text: seq<byte>): (r: Result<Fs, IoError>)
    ensures r.Success? <==> ParentIsDir(fs, p) && p !in fs
    ensures r.Success? ==> r.value == fs[p := File(text)]
    ensures r == Failure(AlreadyExists) <==> ParentIsDir(fs, p) && p in fs
  {
    if !ParentIsDir(fs, p) then Failure(NotFound)
    else if p in fs then Failure(AlreadyExists)
    else Success(fs[p := File(text)])
  }

  /** `create_dir(p)`, giving the new directory `mode`. */
  function CreateDir(fs: Fs, p: FsPath, mode: u32): (r: Result<Fs, IoError>)
    ensures r.Success? <==> ParentIsDir(fs, p) && p !in fs
    ensures r.Success? ==> r.value == fs[p := Dir(mode)]
    ensures r == Failure(AlreadyExists) <==> ParentIsDir(fs, p) && p in fs
  {
    if !ParentIsDir(fs, p) then Failure(NotFound)
    else if p in fs then Failure(AlreadyExists)
    else Success(fs[p := Dir(mode)])
  }

  /** `create_dir_all(p)`: succeeds at once on a directory, else creates the missing ancestors first. */
  function CreateDirAll(fs: Fs, p: FsPath, mode: u32): (r: Result<Fs, IoError>)
    ensures r.Success? ==> IsDir(r.value, p) || Parent(p).None?
    ensures r.Success? ==> forall q :: q in fs ==> q in r.value && r.value[q] == fs[q]
    ensures r.Success? ==> forall q :: q in r.value && q !in fs ==> r.value[q] == Dir(mode)
    decreases |p.components|
  {
    if IsDir(fs, p) || Parent(p).None? then Success(fs)
    else if p in fs then Failure(AlreadyExists)
    else
      var parent := Parent(p).value;
      var fs1 :- CreateDirAll(fs, parent, mode);
      if !IsRealDir(fs1, parent) then Failure(NotFound)
      else if p in fs1 then Failure(AlreadyExists)
      else Success(fs1[p := Dir(mode)])
  }

  /** `remove_file(p)`: removes a file or a link; a directory cannot be removed this way. */
  function RemoveFile(fs: Fs, p: FsPath): (r: Result<Fs, IoError>)
    ensures r.Success? <==> p in fs && !fs[p].Dir?
    ensures r.Success? ==> r.value == fs - {p}
  {
    if p !in fs then Failure(NotFound)
    else if fs[p].Dir? then Failure(OtherIo)
    else Success(fs - {p})
  }

  /** `remove_dir_all(p)`: `p` and everything below it. */
  function RemoveTree(fs: Fs, p: FsPath): (r: Result<Fs, IoError>)
    ensures r.Success? <==> p in fs
    ensures r.Success? ==> forall q :: q in r.value <==> q in fs && !InSubtree(q, p)
    ensures r.Success? ==> forall q :: q in r.value ==> r.value[q] == fs[q]
  {
    if p !in fs then Failure(NotFound)
    else Success(map q | q in fs && !InSubtree(q, p) :: fs[q])
  }

  /** The path `q` would have if the subtree at `from` were at `to`. */
  function Rebase(q: FsPath, from: FsPath, to: FsPath): (r: FsPath)
    requires InSubtree(q, from)
    ensures InSubtree(r, to)
    ensures |r.components| - |to.components| == |q.components| - |from.components|
  {
    FsPath(to.absolute, to.components + q.components[|from.components|..])
  }

  lemma RebaseInjective(q1: FsPath, q2: FsPath, from: FsPath, to: FsPath)
    requires InSubtree(q1, from) && InSubtree(q2, from)
    requires Rebase(q1, from, to) == Rebase(q2, from, to)
    ensures q1 == q2
  {
    var n := |from.components|;
    assert q1.components[n..] == Rebase(q1, from, to).components[|to.components|..];
    assert q2.components[n..] == Rebase(q2, from, to).components[|to.components|..];
    assert q1.components == from.components + q1.components[n..];
    assert q2.components == from.components + q2.components[n..];
  }

  /** The entries of the subtree at `from`, moved to `to`. */
  function Moved(fs: Fs, from: FsPath, to: FsPath): (m: Fs)
    ensures forall q :: q in fs && InSubtree(q, from) ==> Rebase(q, from, to) in m && m[Rebase(q, from, to)] == fs[q]
    ensures forall t :: t in m ==> InSubtree(t, to)
  {
    var keys := set q | q in fs && InSubtree(q, from);
    assert forall q1, q2 :: q1 in keys && q2 in keys && Rebase(q1, from, to) == Rebase(q2, from, to) ==> q1 == q2 by {
      forall q1, q2 | q1 in keys && q2 in keys && Rebase(q1, from, to) == Rebase(q2, from, to) ensures q1 == q2 {
        RebaseInjective(q1, q2, from, to);
      }
    }
    map q | q in keys :: Rebase(q, from, to) := fs[q]
  }

  /** Everything the move puts down comes from an entry of the subtree at `from`. */
  lemma MovedOrigin(fs: Fs, from: FsPath, to: FsPath)
    ensures forall t :: t in Moved(fs, from, to) ==> exists q :: q in fs && InSubtree(q, from) && t == Rebase(q, from, to)
  {
  }

  /**
   * `rename(from, to)` as POSIX defines it: `to`'s parent must be a directory; a directory may
   * replace only an empty directory and not move below itself; a non-directory may not replace a
   * directory. The whole subtree moves.
   */
  function Rename(fs: Fs, from: FsPath, to: FsPath): (r: Result<Fs, IoError>)
    ensures r.Success? ==> from in fs && ParentIsDir(fs, to)
    ensures r.Success? ==> to in r.value && r.value[to] == fs[from]
    ensures r.Success? ==> forall q :: q in fs && !InSubtree(q, from) && !InSubtree(q, to) ==> q in r.value && r.value[q] == fs[q]
    ensures from in fs && !fs[from].Dir? && to in fs && fs[to].Dir? && from != to ==> r.Failure?
  {
    if from !in fs || !ParentIsDir(fs, to) then Failure(NotFound)
    else if from == to then Success(fs)
    else if fs[from].Dir? && InSubtree(to, from) then Failure(OtherIo)
    else if fs[from].Dir? && to in fs && (!fs[to].Dir? || exists q :: q in fs && q != to && InSubtree(q, to)) then Failure(OtherIo)
    else if !fs[from].Dir? && to in fs && fs[to].Dir? then Failure(OtherIo)
    else
      var kept := map q | q in fs && !InSubtree(q, from) && !InSubtree(q, to) :: fs[q];
      var moved := Moved(fs, from, to);
      assert InSubtree(from, from) && Rebase(from, from, to) == to by {
        assert from.components[|from.components|..] == [];
        assert to.components + [] == to.components;
      }
      assert forall q :: q in kept ==> q !in moved;
      Success(kept + moved)
  }

  /** After a rename onto another path, an entry is either one kept from outside both trees or lies below `to`. */
  lemma RenameOrigin(fs: Fs, from: FsPath, to: FsPath)
    requires Rename(fs, from, to).Success? && from != to
    ensures var r := Rename(fs, from, to).value;
      forall t :: t in r ==> InSubtree(t, to) || (t in fs && !InSubtree(t, from) && r[t] == fs[t])
  {
  }

  /** A rename onto another path moves every entry of the subtree, each to its rebased path. */
  lemma RenameMovesSubtree(fs: Fs, from: FsPath, to: FsPath)
    requires Rename(fs, from, to).Success? && from != to
    ensures var r := Rename(fs, from, to).value;
      forall q :: q in fs && InSubtree(q, from) ==> Rebase(q, from, to) in r && r[Rebase(q, from, to)] == fs[q]
  {
  }

  // ---------------------------------------------------------------------------------------
  // Properties
  // ---------------------------------------------------------------------------------------

  /** In a tree-shaped file system, an entry's ancestors are entries. */
  lemma {:induction false} AncestorPresent(fs: Fs, q: FsPath, base: FsPath)
    requires TreeShaped(fs) && q in fs && InSubtree(q, base)
    ensures base in fs
    decreases |q.components|
  {
    if |q.components| > |base.components| {
      var parent := Parent(q).value;
      assert parent.components == q.components[..|q.components| - 1];
      assert InSubtree(parent, base) by {
        assert parent.components[..|base.components|] == q.components[..|base.components|];
      }
      AncestorPresent(fs, parent, base);
    } else {
      assert q.components == base.components;
      assert q == base;
    }
  }

  /** Nothing lies below a path that is not an entry. */
  lemma AbsentHasNoSubtree(fs: Fs, base: FsPath)
    requires TreeShaped(fs) && base !in fs
    ensures forall q :: q in fs ==> !InSubtree(q, base)
  {
    forall q | q in fs ensures !InSubtree(q, base) {
      if InSubtree(q, base) {
        AncestorPresent(fs, q, base);
      }
    }
  }

  /**
   * Renaming a non-directory onto a path that is not a directory replaces at most that path:
   * every other entry keeps its node, the source disappears, and the target holds the source's node.
   */
  lemma RenameFileEffect(fs: Fs, from: FsPath, to: FsPath)
    requires from in fs && !fs[from].Dir? && ParentIsDir(fs, to) && from != to
    requires to in fs ==> !fs[to].Dir?
    requires forall q :: q in fs && q != from ==> !InSubtree(q, from)
    requires forall q :: q in fs && q != to ==> !InSubtree(q, to)
    ensures Rename(fs, from, to).Success?
    ensures Rename(fs, from, to).value == (fs - {from})[to := fs[from]]
  {
    var kept := map q | q in fs && !InSubtree(q, from) && !InSubtree(q, to) :: fs[q];
    RenameFileSplits(fs, from, to);
    MovedSingle(fs, from, to);
    KeptIsRest(fs, from, to);
    UnionSingleton(kept, to, fs[from]);
  }

  /** Adding a one-entry map is an update. */
  lemma UnionSingleton<K, V>(m: map<K, V>, k: K, v: V)
    ensures m + map[k := v] == m[k := v]
  {
  }

  /** A rename of a non-directory keeps what lies outside both paths and adds the moved entries. */
  lemma RenameFileSplits(fs: Fs, from: FsPath, to: FsPath)
    requires from in fs && !fs[from].Dir? && ParentIsDir(fs, to) && from != to
    requires to in fs ==> !fs[to].Dir?
    ensures Rename(fs, from, to) == Success((map q | q in fs && !InSubtree(q, from) && !InSubtree(q, to) :: fs[q]) + Moved(fs, from, to))
  {
  }

  /** With no entries below `from` or `to`, what lies outside both is everything else. */
  lemma KeptIsRest(fs: Fs, from: FsPath, to: FsPath)
    requires from in fs
    requires forall q :: q in fs && q != from ==> !InSubtree(q, from)
    requires forall q :: q in fs && q != to ==> !InSubtree(q, to)
    ensures (map q | q in fs && !InSubtree(q, from) && !InSubtree(q, to) :: fs[q])[to := fs[from]] == (fs - {from})[to := fs[from]]
  {
    var kept := map q | q in fs && !InSubtree(q, from) && !InSubtree(q, to) :: fs[q];
    var expected := (fs - {from})[to := fs[from]];
    assert InSubtree(from, from) && InSubtree(to, to);
    forall q ensures (q in kept[to := fs[from]] <==> q in expected) && (q in expected ==> kept[to := fs[from]][q] == expected[q]) {
    }
    SameEntries(kept[to := fs[from]], expected);
  }

  /** Two maps with the same keys and the same value at each key are equal. */
  lemma SameEntries<K, V>(a: map<K, V>, b: map<K, V>)
    requires forall k :: (k in a <==> k in b) && (k in a ==> a[k] == b[k])
    ensures a == b
  {
  }

  /** A subtree that is one entry moves as that one entry. */
  lemma MovedSingle(fs: Fs, from: FsPath, to: FsPath)
    requires from in fs && forall q :: q in fs && q != from ==> !InSubtree(q, from)
    ensures Moved(fs, from, to) == map[to := fs[from]]
  {
    var m := Moved(fs, from, to);
    assert InSubtree(from, from);
    assert Rebase(from, from, to) == to by {
      assert from.components[|from.components|..] == [];
      assert to.components + [] == to.components;
    }
    forall t | t in m ensures t == to {
      var q :| q in fs && InSubtree(q, from) && Rebase(q, from, to) == t;
      assert q == from;
    }
  }
}
