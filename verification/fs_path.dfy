/**
 * Unix file-system paths as Rust's `std::path::Path` sees them: an optional root and a list of
 * components (`Path::components`), with `join`, `parent`, `file_name`, `file_stem`,
 * `starts_with` and `is_relative` defined on that view.
 */
module FsPaths {
  import opened Wrappers
  import opened Bytes
  import opened Sequences

  /** A component after the root: `.` (kept only at the front of a relative path), `..` or a name. */
  datatype Component = CurDir | ParentDir | Normal(name: seq<byte>)

  /** A byte string that the path parser keeps as a `Normal` component. */
  predicate IsName(n: seq<byte>) {
    |n| > 0 && SLASH !in n && n != [DOT] && n != [DOT, DOT]
  }

  datatype FsPath = FsPath(absolute: bool, components: seq<Component>)

  /** What `Path::components` can produce: names are names, `.` only first in a relative path. */
  predicate Valid(p: FsPath) {
    && (forall i :: 0 <= i < |p.components| ==> p.components[i].Normal? ==> IsName(p.components[i].name))
    && (forall i :: 0 <= i < |p.components| ==> p.components[i].CurDir? ==> i == 0 && !p.absolute)
  }

  /** An absolute path of names only, as `canonicalize` returns. */
  predicate Canonical(p: FsPath) {
    p.absolute && forall i :: 0 <= i < |p.components| ==> p.components[i].Normal? && IsName(p.components[i].name)
  }

  function Root(): FsPath {
    FsPath(true, [])
  }

  /** The empty path `""`. */
  function EmptyPath(): FsPath {
    FsPath(false, [])
  }

  function ComponentBytes(c: Component): seq<byte> {
    match c
    case CurDir => [DOT]
    case ParentDir => [DOT, DOT]
    case Normal(n) => n
  }

  /** The components of the `/`-separated pieces `parts`; `first` marks the front of a relative path. */
  function ParseComponents(parts: seq<seq<byte>>, first: bool): (cs: seq<Component>)
    requires forall k :: 0 <= k < |parts| ==> SLASH !in parts[k]
    ensures forall i :: 0 <= i < |cs| ==> cs[i].Normal? ==> IsName(cs[i].name)
    ensures forall i :: 0 <= i < |cs| ==> cs[i].CurDir? ==> i == 0 && first
    decreases |parts|
  {
    if |parts| == 0 then []
    else
      var part := parts[0];
      var rest := ParseComponents(parts[1..], false);
      if part == [] then rest
      else if part == [DOT] then (if first then [CurDir] + rest else rest)
      else if part == [DOT, DOT] then [ParentDir] + rest
      else [Normal(part)] + rest
  }

  /** The path a byte string denotes (`Path::new(s)`), seen through its components. */
  function ParsePath(s: seq<byte>): (p: FsPath)
    ensures Valid(p)
    ensures p.absolute <==> |s| > 0 && s[0] == SLASH
  {
    var absolute := |s| > 0 && s[0] == SLASH;
    FsPath(absolute, ParseComponents(SplitOn(s, SLASH), !absolute))
  }

  /** The bytes of each component. */
  function ComponentsBytes(cs: seq<Component>): (parts: seq<seq<byte>>)
    ensures |parts| == |cs| && forall i :: 0 <= i < |cs| ==> parts[i] == ComponentBytes(cs[i])
  {
    seq(|cs|, i requires 0 <= i < |cs| => ComponentBytes(cs[i]))
  }

  /** The bytes of a path: the root, then the components separated by `/`. */
  function Display(p: FsPath): seq<byte> {
    var body := JoinWith(ComponentsBytes(p.components), SLASH);
    if p.absolute then [SLASH] + body else body
  }

  /** `self.join(other)`: an absolute `other` replaces the path, a relative one is appended. */
  function Join(p: FsPath, q: FsPath): (r: FsPath)
    ensures q.absolute ==> r == q
    ensures !q.absolute ==> r.absolute == p.absolute
  {
    if q.absolute then q
    else if (p.absolute || |p.components| > 0) && |q.components| > 0 && q.components[0].CurDir? then
      FsPath(p.absolute, p.components + q.components[1..])
    else FsPath(p.absolute, p.components + q.components)
  }

  /** `self.join(name)` for a single name. */
  function Child(p: FsPath, name: seq<byte>): (r: FsPath)
    ensures r.absolute == p.absolute && |r.components| == |p.components| + 1
  {
    FsPath(p.absolute, p.components + [Normal(name)])
  }

  /** `parent()`: the path without its last component; `None` for `/` and `""`. */
  function Parent(p: FsPath): Option<FsPath> {
    if |p.components| == 0 then None else Some(FsPath(p.absolute, p.components[..|p.components| - 1]))
  }

  /** `file_name()`: the last component when it is a name. */
  function FileName(p: FsPath): Option<seq<byte>> {
    if |p.components| > 0 && p.components[|p.components| - 1].Normal? then
      Some(p.components[|p.components| - 1].name)
    else None
  }

  /** `is_relative()`: no root. */
  predicate IsRelative(p: FsPath) {
    !p.absolute
  }

  /** `starts_with(base)`: the components of `base`, root included, are a prefix of those of `p`. */
  predicate StartsWith(p: FsPath, base: FsPath) {
    p.absolute == base.absolute && |base.components| <= |p.components|
    && p.components[..|base.components|] == base.components
  }

  /** The offset of the last `.` in `s`. */
  function LastDot(s: seq<byte>): (r: Option<nat>)
    ensures r.Some? ==> r.value < |s| && s[r.value] == DOT && DOT !in s[r.value + 1..]
    ensures r.None? ==> DOT !in s
    decreases |s|
  {
    if |s| == 0 then None
    else if s[|s| - 1] == DOT then Some(|s| - 1)
    else
      var r := LastDot(s[..|s| - 1]);
      assert s == s[..|s| - 1] + [s[|s| - 1]];
      assert r.Some? ==> s[r.value + 1..] == s[..|s| - 1][r.value + 1..] + [s[|s| - 1]];
      r
  }

  /**
   * `file_stem()` of a name: the name up to its last `.`, unless the only `.` is the first byte
   * or there is none, in which case the whole name.
   */
  function Stem(name: seq<byte>): (r: seq<byte>)
    ensures |r| <= |name| && r == name[..|r|]
  {
    match LastDot(name)
    case Some(k) => if k > 0 then name[..k] else name
    case None => name
  }

  function FileStem(p: FsPath): Option<seq<byte>> {
    match FileName(p)
    case Some(n) => Some(Stem(n))
    case None => None
  }

  // ---------------------------------------------------------------------------------------
  // Properties
  // ---------------------------------------------------------------------------------------

  /** A name parses to itself as a one-component relative path. */
  lemma NameParses(n: seq<byte>)
    requires IsName(n)
    ensures ParsePath(n) == FsPath(false, [Normal(n)])
  {
    SplitSeparatorFree(n, SLASH);
    assert n[0] != SLASH;
    assert [n][1..] == [];
    assert ParseComponents([], false) == [];
    assert ParseComponents([n], true) == [Normal(n)] + ParseComponents([], false);
  }

  /** The empty byte string is the empty path. */
  lemma ParseEmpty()
    ensures ParsePath([]) == EmptyPath()
  {
    var none: seq<byte> := [];
    assert SplitOn(none, SLASH) == [none];
    assert [none][1..] == [];
    assert ParseComponents([none], true) == ParseComponents([], false);
  }

  /** Joining a name appends it. */
  lemma JoinName(p: FsPath, n: seq<byte>)
    requires IsName(n)
    ensures Join(p, ParsePath(n)) == Child(p, n)
  {
    NameParses(n);
  }

  /** `parent` and `file_name` take a child apart again. */
  lemma ChildParts(p: FsPath, n: seq<byte>)
    ensures Parent(Child(p, n)) == Some(p)
    ensures FileName(Child(p, n)) == Some(n)
  {
    assert Child(p, n).components[..|p.components|] == p.components;
  }

  /** Every path with a name at the end is the child of its parent. */
  lemma ParentChild(p: FsPath)
    requires FileName(p).Some?
    ensures Parent(p).Some? && Child(Parent(p).value, FileName(p).value) == p
  {
    var cs := p.components;
    assert cs[..|cs| - 1] + [Normal(FileName(p).value)] == cs;
  }

  /** A child starts with its parent, and `starts_with` is transitive. */
  lemma ChildStartsWith(p: FsPath, n: seq<byte>)
    ensures StartsWith(Child(p, n), p)
  {
    assert Child(p, n).components[..|p.components|] == p.components;
  }

  lemma StartsWithTransitive(a: FsPath, b: FsPath, c: FsPath)
    requires StartsWith(a, b) && StartsWith(b, c)
    ensures StartsWith(a, c)
  {
    assert a.components[..|c.components|] == a.components[..|b.components|][..|c.components|];
  }

  /** Appending bytes without a `.` does not move the last `.`. */
  lemma {:induction false} LastDotNoDotSuffix(a: seq<byte>, ext: seq<byte>)
    requires DOT !in ext
    ensures LastDot(a + ext) == LastDot(a)
    decreases |ext|
  {
    if |ext| > 0 {
      var s := a + ext;
      assert s[|s| - 1] == ext[|ext| - 1];
      assert s[..|s| - 1] == a + ext[..|ext| - 1];
      assert forall x :: x in ext[..|ext| - 1] ==> x in ext;
      LastDotNoDotSuffix(a, ext[..|ext| - 1]);
    } else {
      assert a + ext == a;
    }
  }

  /** The stem of `name.ext` for an extension without dots is `name`. */
  lemma StemOfExtended(name: seq<byte>, ext: seq<byte>)
    requires |name| > 0 && DOT !in ext
    ensures Stem(name + [DOT] + ext) == name
  {
    var s := name + [DOT] + ext;
    LastDotNoDotSuffix(name + [DOT], ext);
    assert LastDot(name + [DOT]) == Some(|name|);
    assert s[..|name|] == name;
  }

  /** The components of a parsed piece list that is all names are those names. */
  lemma {:induction false} ParseNames(cs: seq<Component>)
    requires forall i :: 0 <= i < |cs| ==> cs[i].Normal? || cs[i].ParentDir?
    requires forall i :: 0 <= i < |cs| ==> cs[i].Normal? ==> IsName(cs[i].name)
    ensures var parts := ComponentsBytes(cs);
            (forall k :: 0 <= k < |parts| ==> SLASH !in parts[k]) && ParseComponents(parts, false) == cs
    decreases |cs|
  {
    var parts := ComponentsBytes(cs);
    if |cs| > 0 {
      assert forall i :: 0 <= i < |cs[1..]| ==> cs[1..][i] == cs[i + 1];
      ParseNames(cs[1..]);
      assert parts[1..] == ComponentsBytes(cs[1..]);
      assert parts[0] == ComponentBytes(cs[0]);
      assert cs == [cs[0]] + cs[1..];
    }
  }

  /** Parsing the bytes of a canonical path gives the path back. */
  lemma ParseDisplay(p: FsPath)
    requires Canonical(p)
    ensures ParsePath(Display(p)) == p
  {
    var cs := p.components;
    var parts := ComponentsBytes(cs);
    ParseNames(cs);
    var body := JoinWith(parts, SLASH);
    if |cs| == 0 {
      assert Display(p) == [SLASH];
      assert SplitOn([SLASH], SLASH) == [[], []] by {
        assert [SLASH][1..] == [];
      }
      var none: seq<byte> := [];
      assert ParseComponents([none, none], false) == ParseComponents([none], false) by {
        assert [none, none][1..] == [none];
      }
      assert ParseComponents([none], false) == ParseComponents([], false) by {
        assert [none][1..] == [];
      }
    } else {
      assert forall k :: 0 <= k < |parts| ==> SLASH !in parts[k];
      SplitJoin(parts, SLASH);
      assert Display(p) == [SLASH] + body;
      assert ([SLASH] + body)[1..] == body;
      assert SplitOn([SLASH] + body, SLASH) == [[]] + parts;
      assert ([[]] + parts)[1..] == parts;
    }
  }
}
