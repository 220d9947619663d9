/**
 * Dot-segment removal and path normalization (`Path::remove_dot_segments`,
 * `Path::normalize` in `src/uri_path.rs`).
 *
 * The source rewrites the segment vector in place: segments it keeps are
 * swapped down to the front and the vector is truncated at the end. Every
 * swap moves a segment to a position at or before the one being read, so the
 * segments still to be read are never disturbed and the kept prefix behaves
 * as a stack. The model states the loops over that stack.
 */
module UriPathDots {
  import opened Wrappers
  import opened Bytes
  import opened UriUtility
  import opened UriSegment
  import opened UriPath

  /** What every `Path` value keeps, whatever its counters say. */
  predicate WellFormedPath(p: Path) {
    0 < |p.segments| <= U16_MAX && AllValid(p.segments)
  }

  predicate NoDots(segments: seq<Segment>) {
    forall i :: 0 <= i < |segments| ==> !IsDot(segments[i])
  }

  predicate AllNormalized(segments: seq<Segment>) {
    forall i :: 0 <= i < |segments| ==> segments[i].normalized
  }

  /** The segments a dot-segment removal may keep: valid, not dots, normalized if asked. */
  predicate CleanSegments(segments: seq<Segment>, normalizeSegments: bool) {
    forall i :: 0 <= i < |segments| ==>
      Valid(segments[i]) && !IsDot(segments[i]) && (normalizeSegments ==> segments[i].normalized)
  }

  /** A segment as it is kept: normalized when asked, otherwise unchanged. */
  function Prepare(seg: Segment, normalizeSegments: bool): (r: Segment)
    requires Valid(seg)
    ensures Valid(r) && (normalizeSegments ==> r.normalized)
    ensures !normalizeSegments ==> r == seg
    ensures IsSingleDot(r) <==> IsSingleDot(seg)
    ensures IsDoubleDot(r) <==> IsDoubleDot(seg)
    ensures COLON in r.bytes <==> COLON in seg.bytes
  {
    NormalizeKeepsDots(seg);
    NormalizeKeepsColon(seg);
    if normalizeSegments then Normalize(seg) else seg
  }

  // ---------------------------------------------------------------------------
  // remove_dot_segments_helper
  // ---------------------------------------------------------------------------

  /**
   * The state of `remove_dot_segments_helper`: whether the remaining input
   * starts with a `/` (`input_absolute`), whether the output does, and the
   * kept segments.
   */
  datatype RemovalState = RemovalState(inputAbsolute: bool, absolute: bool, kept: seq<Segment>)

  /**
   * One iteration of the removal loop; `more` says whether segments follow.
   * While the input starts with `/`, "." is dropped and ".." removes the last
   * kept segment (or, with none kept, makes the output relative); otherwise a
   * dot segment is dropped outright. A kept segment makes the output absolute
   * if it comes first after a `/`.
   */
  function RemovalStep(st: RemovalState, seg: Segment, more: bool, normalizeSegments: bool): (r: RemovalState)
    requires Valid(seg)
    ensures |r.kept| <= |st.kept| + 1
    ensures CleanSegments(st.kept, normalizeSegments) ==> CleanSegments(r.kept, normalizeSegments)
    ensures !more ==> |r.kept| + (if r.inputAbsolute then 1 else 0) <= |st.kept| + 1
  {
    if st.inputAbsolute && IsSingleDot(seg) then st
    else if st.inputAbsolute && IsDoubleDot(seg) then
      if |st.kept| > 0 then st.(kept := st.kept[..|st.kept| - 1]) else st.(absolute := false)
    else if !st.inputAbsolute && IsDot(seg) then st
    else
      var absolute := if st.inputAbsolute && |st.kept| == 0 then true else st.absolute;
      RemovalState(more, absolute, st.kept + [Prepare(seg, normalizeSegments)])
  }

  /** The removal loop over the segments still to be read. */
  function RemovalLoop(segments: seq<Segment>, st: RemovalState, normalizeSegments: bool): (r: RemovalState)
    requires AllValid(segments)
    ensures |r.kept| <= |st.kept| + |segments|
    ensures |segments| > 0 ==> |r.kept| + (if r.inputAbsolute then 1 else 0) <= |st.kept| + |segments|
    ensures CleanSegments(st.kept, normalizeSegments) ==> CleanSegments(r.kept, normalizeSegments)
    ensures st.absolute || (st.inputAbsolute && |st.kept| == 0) ==>
      r.absolute || (r.inputAbsolute && |r.kept| == 0)
    decreases |segments|
  {
    if |segments| == 0 then st
    else
      var st' := RemovalStep(st, segments[0], |segments| > 1, normalizeSegments);
      RemovalLoop(segments[1..], st', normalizeSegments)
  }

  /**
   * `remove_dot_segments_helper`: the loop, then a trailing empty segment when
   * the input ended in a dot segment after a `/` (so "a/." keeps its trailing
   * `/`), then the lone empty segment if nothing is left. The dot counters are
   * cleared; the unnormalized count is left as it was.
   */
  function RemoveDotSegmentsHelper(p: Path, normalizeSegments: bool): (r: Path)
    requires WellFormedPath(p)
    ensures WellFormedPath(r)
    ensures CleanSegments(r.segments, normalizeSegments)
    ensures p.absolute ==> r.absolute
    ensures r.singleDotSegmentCount == 0 && r.doubleDotSegmentCount == 0 && r.leadingDoubleDotSegmentCount == 0
    ensures r.unnormalizedCount == p.unnormalizedCount
  {
    var st := RemovalLoop(p.segments, RemovalState(p.absolute, p.absolute, []), normalizeSegments);
    var absolute := if st.inputAbsolute && |st.kept| == 0 then true else st.absolute;
    var kept := if st.inputAbsolute && |st.kept| > 0 then st.kept + [Empty()] else st.kept;
    EmptyIsNotDot();
    Path(absolute, 0, 0, if |kept| == 0 then [Empty()] else kept, 0, p.unnormalizedCount)
  }

  /** A dot-free, all-valid list of segments with zero dot counters has accurate dot counters. */
  lemma CleanCounters(segments: seq<Segment>)
    requires 0 < |segments| && CleanSegments(segments, false)
    ensures Count(segments, IsSingleDot) == 0 && Count(segments, IsDoubleDot) == 0
    ensures LeadingDoubleDots(segments) == 0
  {
    CountZero(segments, IsSingleDot);
    CountZero(segments, IsDoubleDot);
  }

  /** With every segment normalized, the unnormalized count is zero. */
  lemma NormalizedCount(segments: seq<Segment>)
    requires AllNormalized(segments)
    ensures Count(segments, IsUnnormalized) == 0
  {
    CountZero(segments, IsUnnormalized);
  }

  /** On dot-free segments the removal loop keeps everything and leaves the output's `/` alone. */
  lemma {:induction false} RemovalLoopKeepsDotFree(segments: seq<Segment>, st: RemovalState)
    requires AllValid(segments) && NoDots(segments) && |segments| > 0
    requires st.inputAbsolute && |st.kept| == 0 ==> st.absolute
    ensures RemovalLoop(segments, st, false) == RemovalState(false, st.absolute, st.kept + segments)
    decreases |segments|
  {
    var st' := RemovalStep(st, segments[0], |segments| > 1, false);
    assert st' == RemovalState(|segments| > 1, st.absolute, st.kept + [segments[0]]);
    if |segments| > 1 {
      RemovalLoopKeepsDotFree(segments[1..], st');
      assert st.kept + [segments[0]] + segments[1..] == st.kept + segments;
    } else {
      assert segments == [segments[0]];
    }
  }

  /**
   * `remove_dot_segments` returns early when both dot counters are zero. On a
   * path with accurate counters that shortcut is sound: removal would change
   * nothing.
   */
  lemma RemovalShortcutSound(p: Path)
    requires Consistent(p) && p.singleDotSegmentCount == 0 && p.doubleDotSegmentCount == 0
    ensures RemoveDotSegmentsHelper(p, false) == p
  {
    CountZero(p.segments, IsSingleDot);
    CountZero(p.segments, IsDoubleDot);
    RemovalLoopKeepsDotFree(p.segments, RemovalState(p.absolute, p.absolute, []));
    assert [] + p.segments == p.segments;
  }

  /** `Path::remove_dot_segments` as written: the unnormalized count is kept even when unnormalized dot segments are dropped. */
  function RemoveDotSegmentsAsWritten(p: Path): (r: Path)
    requires WellFormedPath(p)
    ensures WellFormedPath(r)
    ensures r.unnormalizedCount == p.unnormalizedCount
  {
    if p.singleDotSegmentCount == 0 && p.doubleDotSegmentCount == 0 then p
    else RemoveDotSegmentsHelper(p, false)
  }

  /**
   * `Path::remove_dot_segments`, recounting the unnormalized segments that
   * remain. On a path with accurate counters it leaves no dot segment, zero
   * dot counters and accurate counters; an absolute path stays absolute; a
   * path without dot segments is returned unchanged.
   */
  function RemoveDotSegments(p: Path): (r: Path)
    requires WellFormedPath(p)
    ensures WellFormedPath(r)
    ensures p.absolute ==> r.absolute
    ensures Consistent(p) ==> Consistent(r) && NoDots(r.segments)
    ensures Consistent(p) ==>
      r.singleDotSegmentCount == 0 && r.doubleDotSegmentCount == 0 && r.leadingDoubleDotSegmentCount == 0
    ensures Consistent(p) && NoDots(p.segments) ==> r == p
  {
    if p.singleDotSegmentCount == 0 && p.doubleDotSegmentCount == 0 then
      if Consistent(p) then
        RemovalShortcutSound(p);
        CleanCounters(RemoveDotSegmentsHelper(p, false).segments);
        p
      else p
    else
      var h := RemoveDotSegmentsHelper(p, false);
      CleanCounters(h.segments);
      if Consistent(p) then
        DotFreeCounted(p);
        h.(unnormalizedCount := Count(h.segments, IsUnnormalized))
      else h.(unnormalizedCount := Count(h.segments, IsUnnormalized))
  }

  /** A path with accurate counters and no dot segment has zero dot counters. */
  lemma DotFreeCounted(p: Path)
    requires Consistent(p)
    ensures NoDots(p.segments) <==> p.singleDotSegmentCount == 0 && p.doubleDotSegmentCount == 0
  {
    CountZero(p.segments, IsSingleDot);
    CountZero(p.segments, IsDoubleDot);
  }

  /** Removing dot segments twice is the same as once. */
  lemma RemoveDotSegmentsIdempotent(p: Path)
    requires Consistent(p)
    ensures RemoveDotSegments(RemoveDotSegments(p)) == RemoveDotSegments(p)
  {
    var r := RemoveDotSegments(p);
    DotFreeCounted(r);
  }

  // ---------------------------------------------------------------------------
  // normalize, relative reference case
  // ---------------------------------------------------------------------------

  /**
   * The state of the reference-normalization loop of `Path::normalize`: the
   * number of ".." kept, the position of the last kept ".." and the kept
   * segments.
   */
  datatype ReferenceState = ReferenceState(doubleDots: nat, lastDotSegment: Option<nat>, kept: seq<Segment>)

  /** Whether the segment after the current one exists and contains a `:`. */
  predicate FollowedByColon(next: Option<Segment>) {
    next.Some? && COLON in next.value.bytes
  }

  /**
   * One iteration of the reference loop. A "." is kept only first and before
   * a segment with a `:` (so that segment is not read as a scheme). A ".." is
   * kept when every kept segment is ".."; otherwise it removes the last kept
   * segment, and also a leading "." that no longer protects a `:`.
   */
  function ReferenceStep(st: ReferenceState, seg: Segment, next: Option<Segment>): (r: ReferenceState)
    requires Valid(seg) && StepReady(st)
    ensures StepReady(r)
    ensures |r.kept| <= |st.kept| + 1
  {
    var n := |st.kept|;
    if IsSingleDot(seg) && (n > 0 || !FollowedByColon(next)) then st
    else if IsDoubleDot(seg) && !KeepsDoubleDot(st) then
      var drop := if n == 2 && IsSingleDot(st.kept[0]) && !FollowedByColon(next) then 2 else 1;
      DotsDisjoint(st.kept[0].bytes);
      st.(kept := st.kept[..n - drop])
    else
      var doubleDots := if IsDoubleDot(seg) then st.doubleDots + 1 else st.doubleDots;
      var last := if IsDoubleDot(seg) then Some(n) else st.lastDotSegment;
      ReferenceState(doubleDots, last, st.kept + [Prepare(seg, true)])
  }

  /**
   * What the reference loop needs in order to run: the kept segments are
   * valid and the last kept ".", if any, is still kept.
   */
  predicate StepReady(st: ReferenceState) {
    && (forall i :: 0 <= i < |st.kept| ==> Valid(st.kept[i]))
    && (st.lastDotSegment.Some? ==>
          st.lastDotSegment.value < |st.kept| && IsDoubleDot(st.kept[st.lastDotSegment.value]))
  }

  /**
   * Whether a ".." is kept: nothing is kept yet and no ".." was, or the last
   * kept ".." is the last kept segment. The source computes `new_length - 1`
   * on an unsigned length; it never underflows, since a kept ".." is always
   * among the kept segments.
   */
  predicate KeepsDoubleDot(st: ReferenceState)
    requires st.lastDotSegment.Some? ==> st.lastDotSegment.value < |st.kept|
  {
    match st.lastDotSegment
    case None => |st.kept| == 0
    case Some(index) =>
      var top: nat := |st.kept| - 1;
      index == top
  }

  /** The segment after the first of `segments`, if any. */
  function Next(segments: seq<Segment>): (r: Option<Segment>)
    requires |segments| > 0
    ensures r.Some? <==> |segments| > 1
    ensures r.Some? ==> r.value == segments[1]
  {
    if |segments| > 1 then Some(segments[1]) else None
  }

  /** The reference loop over the segments still to be read. */
  function ReferenceLoop(segments: seq<Segment>, st: ReferenceState): (r: ReferenceState)
    requires AllValid(segments) && StepReady(st)
    ensures StepReady(r)
    ensures |r.kept| <= |st.kept| + |segments|
    decreases |segments|
  {
    if |segments| == 0 then st
    else ReferenceLoop(segments[1..], ReferenceStep(st, segments[0], Next(segments)))
  }

  /**
   * What the reference loop keeps true: the kept segments are valid and
   * normalized; the kept ".." are exactly the first `doubleDots` of them and
   * the last of those is `lastDotSegment`; only the first kept segment can be
   * "."; and a kept leading "." is followed by a segment with a `:`.
   */
  predicate ReferenceInvariant(st: ReferenceState) {
    && (forall i :: 0 <= i < |st.kept| ==> Valid(st.kept[i]) && st.kept[i].normalized)
    && st.doubleDots <= |st.kept|
    && st.lastDotSegment == (if st.doubleDots == 0 then None else Some(st.doubleDots - 1))
    && (forall i :: 0 <= i < |st.kept| ==> (IsDoubleDot(st.kept[i]) <==> i < st.doubleDots))
    && (forall i :: 1 <= i < |st.kept| ==> !IsSingleDot(st.kept[i]))
    && (|st.kept| >= 2 && IsSingleDot(st.kept[0]) ==> COLON in st.kept[1].bytes)
  }

  /** A lone kept "." is only ever waiting for the segment with a `:` that comes next. */
  predicate PendingColon(st: ReferenceState, segments: seq<Segment>) {
    |st.kept| == 1 && IsSingleDot(st.kept[0]) ==> |segments| > 0 && COLON in segments[0].bytes
  }

  /** The reference loop keeps its invariant, and ends with no lone ".". */
  lemma {:induction false} ReferenceLoopInvariant(segments: seq<Segment>, st: ReferenceState)
    requires AllValid(segments) && ReferenceInvariant(st) && PendingColon(st, segments)
    ensures ReferenceInvariant(ReferenceLoop(segments, st))
    ensures var r := ReferenceLoop(segments, st); !(|r.kept| == 1 && IsSingleDot(r.kept[0]))
    decreases |segments|
  {
    if |segments| > 0 {
      ReferenceStepInvariant(st, segments[0], Next(segments), segments[1..]);
      ReferenceLoopInvariant(segments[1..], ReferenceStep(st, segments[0], Next(segments)));
    }
  }

  /** One step keeps the invariant; `rest` are the segments after the current one. */
  lemma ReferenceStepInvariant(st: ReferenceState, seg: Segment, next: Option<Segment>, rest: seq<Segment>)
    requires Valid(seg) && ReferenceInvariant(st) && PendingColon(st, [seg] + rest)
    requires next.Some? <==> |rest| > 0
    requires next.Some? ==> next.value == rest[0]
    ensures ReferenceInvariant(ReferenceStep(st, seg, next))
    ensures PendingColon(ReferenceStep(st, seg, next), rest)
  {
    var n := |st.kept|;
    if IsDot(seg) {
      DotHasNoColon(seg);
    }
    if IsSingleDot(seg) && (n > 0 || !FollowedByColon(next)) {
    } else if IsDoubleDot(seg) && !KeepsDoubleDot(st) {
      StepDropsSegments(st, seg, next, rest);
    } else if IsDoubleDot(seg) {
      StepKeepsDoubleDot(st, seg, next, rest);
    } else {
      StepKeepsOther(st, seg, next, rest);
    }
  }

  /** A ".." that removes segments removes only segments that are not "..". */
  lemma StepDropsSegments(st: ReferenceState, seg: Segment, next: Option<Segment>, rest: seq<Segment>)
    requires Valid(seg) && ReferenceInvariant(st) && PendingColon(st, [seg] + rest)
    requires next.Some? <==> |rest| > 0
    requires next.Some? ==> next.value == rest[0]
    requires IsDoubleDot(seg) && !KeepsDoubleDot(st) && COLON !in seg.bytes
    ensures ReferenceInvariant(ReferenceStep(st, seg, next))
    ensures PendingColon(ReferenceStep(st, seg, next), rest)
  {
    var n := |st.kept|;
    assert n > 0;
    assert st.doubleDots < n;
    DotsDisjoint(seg.bytes);
    DotsDisjoint(st.kept[0].bytes);
    var drop := if n == 2 && IsSingleDot(st.kept[0]) && !FollowedByColon(next) then 2 else 1;
    assert ReferenceStep(st, seg, next) == st.(kept := st.kept[..n - drop]);
    InvariantPrefix(st, n - drop);
  }

  /** Dropping kept segments other than the leading ".." keeps the invariant. */
  lemma InvariantPrefix(st: ReferenceState, m: nat)
    requires ReferenceInvariant(st) && st.doubleDots <= m <= |st.kept|
    ensures ReferenceInvariant(st.(kept := st.kept[..m]))
  {
  }

  /** A kept ".." extends the leading run of "..". */
  lemma StepKeepsDoubleDot(st: ReferenceState, seg: Segment, next: Option<Segment>, rest: seq<Segment>)
    requires Valid(seg) && ReferenceInvariant(st) && PendingColon(st, [seg] + rest)
    requires IsDoubleDot(seg) && KeepsDoubleDot(st)
    ensures ReferenceInvariant(ReferenceStep(st, seg, next))
    ensures PendingColon(ReferenceStep(st, seg, next), rest)
  {
    var n := |st.kept|;
    DotsDisjoint(seg.bytes);
    assert st.doubleDots == n;
    assert ReferenceStep(st, seg, next) == ReferenceState(n + 1, Some(n), st.kept + [Prepare(seg, true)]);
    if n > 0 {
      DotsDisjoint(st.kept[0].bytes);
    }
    InvariantAppendDoubleDot(st, Prepare(seg, true));
  }

  /** A ".." appended after nothing but ".." extends the leading run. */
  lemma InvariantAppendDoubleDot(st: ReferenceState, x: Segment)
    requires ReferenceInvariant(st) && st.doubleDots == |st.kept|
    requires Valid(x) && x.normalized && IsDoubleDot(x)
    requires |st.kept| > 0 ==> !IsSingleDot(st.kept[0])
    ensures ReferenceInvariant(ReferenceState(|st.kept| + 1, Some(|st.kept|), st.kept + [x]))
  {
    DotsDisjoint(x.bytes);
  }

  /** A segment other than ".." appended keeps the invariant when it does not break the leading "." rule. */
  lemma InvariantAppendOther(st: ReferenceState, x: Segment)
    requires ReferenceInvariant(st)
    requires Valid(x) && x.normalized && !IsDoubleDot(x)
    requires IsSingleDot(x) ==> |st.kept| == 0
    requires |st.kept| == 1 && IsSingleDot(st.kept[0]) ==> COLON in x.bytes
    ensures ReferenceInvariant(ReferenceState(st.doubleDots, st.lastDotSegment, st.kept + [x]))
  {
  }

  /** A kept "." or other segment leaves the ".." run and the leading "." rule intact. */
  lemma StepKeepsOther(st: ReferenceState, seg: Segment, next: Option<Segment>, rest: seq<Segment>)
    requires Valid(seg) && ReferenceInvariant(st) && PendingColon(st, [seg] + rest)
    requires next.Some? <==> |rest| > 0
    requires next.Some? ==> next.value == rest[0]
    requires !IsDoubleDot(seg)
    requires IsSingleDot(seg) ==> |st.kept| == 0 && FollowedByColon(next)
    ensures ReferenceInvariant(ReferenceStep(st, seg, next))
    ensures PendingColon(ReferenceStep(st, seg, next), rest)
  {
    if IsSingleDot(seg) {
      DotsDisjoint(seg.bytes);
    }
    assert ReferenceStep(st, seg, next) == ReferenceState(st.doubleDots, st.lastDotSegment, st.kept + [Prepare(seg, true)]);
    InvariantAppendOther(st, Prepare(seg, true));
  }

  /** Counting a predicate that holds exactly on a prefix of length `d`. */
  lemma {:induction false} CountPrefix(segments: seq<Segment>, p: Segment -> bool, d: nat)
    requires d <= |segments|
    requires forall i :: 0 <= i < |segments| ==> (p(segments[i]) <==> i < d)
    ensures Count(segments, p) == d
    decreases |segments|
  {
    if |segments| > 0 {
      assert forall i :: 0 <= i < |segments| - 1 ==> segments[1..][i] == segments[i + 1];
      CountPrefix(segments[1..], p, if d == 0 then 0 else d - 1);
    }
  }

  /** The leading run of ".." when the ".." are exactly a prefix of length `d`. */
  lemma {:induction false} LeadingPrefix(segments: seq<Segment>, d: nat)
    requires d <= |segments|
    requires forall i :: 0 <= i < |segments| ==> (IsDoubleDot(segments[i]) <==> i < d)
    ensures LeadingDoubleDots(segments) == d
    decreases |segments|
  {
    if |segments| > 0 && d > 0 {
      assert forall i :: 0 <= i < |segments| - 1 ==> segments[1..][i] == segments[i + 1];
      LeadingPrefix(segments[1..], d - 1);
    }
  }

  /** With only the first segment possibly ".", the "." count is whether it is. */
  lemma SingleDotAtFront(segments: seq<Segment>)
    requires |segments| > 0
    requires forall i :: 1 <= i < |segments| ==> !IsSingleDot(segments[i])
    ensures Count(segments, IsSingleDot) == if IsSingleDot(segments[0]) then 1 else 0
  {
    assert forall i :: 0 <= i < |segments| - 1 ==> segments[1..][i] == segments[i + 1];
    CountZero(segments[1..], IsSingleDot);
  }

  /**
   * The relative-reference branch of `Path::normalize`: the reference loop,
   * the lone empty segment if nothing is kept, and counters recomputed from
   * what is kept.
   */
  function NormalizeReference(p: Path): (r: Path)
    requires WellFormedPath(p)
    ensures WellFormedPath(r) && r.absolute == p.absolute
  {
    var st := ReferenceLoop(p.segments, ReferenceState(0, None, []));
    var kept := if |st.kept| == 0 then [Empty()] else st.kept;
    ReferenceLoopInvariant(p.segments, ReferenceState(0, None, []));
    Path(p.absolute, st.doubleDots, st.doubleDots, kept, if IsSingleDot(kept[0]) then 1 else 0, 0)
  }

  /** The reference branch leaves accurate counters and a path normalized as a relative reference. */
  lemma NormalizeReferenceFacts(p: Path)
    requires WellFormedPath(p) && !p.absolute
    ensures Consistent(NormalizeReference(p))
    ensures IsNormalized(NormalizeReference(p), true)
  {
    var st := ReferenceLoop(p.segments, ReferenceState(0, None, []));
    ReferenceLoopInvariant(p.segments, ReferenceState(0, None, []));
    var r := NormalizeReference(p);
    if |st.kept| == 0 {
      EmptyIsNotDot();
      assert r.segments == [Empty()];
      assert Count([Empty()], IsSingleDot) == 0 && Count([Empty()], IsDoubleDot) == 0;
      assert Count([Empty()], IsUnnormalized) == 0;
    } else {
      assert r.segments == st.kept;
      CountPrefix(st.kept, IsDoubleDot, st.doubleDots);
      LeadingPrefix(st.kept, st.doubleDots);
      SingleDotAtFront(st.kept);
      NormalizedCount(st.kept);
    }
  }

  // ---------------------------------------------------------------------------
  // normalize
  // ---------------------------------------------------------------------------

  /**
   * `Path::normalize`. A path already normalized is returned as it is.
   * Otherwise every segment is normalized and dot segments are removed: all of
   * them for an absolute path or when `asReference` is false (where a relative
   * path may become absolute, as "a/../.." becomes "/"), and as described for
   * a relative reference otherwise. The result is normalized with accurate
   * counters, so normalizing again changes nothing; an absolute path stays
   * absolute, and a relative reference stays relative.
   */
  function NormalizePath(p: Path, asReference: bool): (r: Path)
    requires WellFormedPath(p)
    ensures WellFormedPath(r)
    ensures IsNormalized(r, asReference)
    ensures IsNormalized(p, asReference) ==> r == p
    ensures !IsNormalized(p, asReference) || Consistent(p) ==> Consistent(r)
    ensures p.absolute ==> r.absolute
    ensures asReference ==> r.absolute == p.absolute
  {
    if IsNormalized(p, asReference) then p
    else
      var q := p.(unnormalizedCount := 0);
      if p.absolute || !asReference then
        var r := RemoveDotSegmentsHelper(q, true);
        CleanCounters(r.segments);
        NormalizedCount(r.segments);
        r
      else
        NormalizeReferenceFacts(q);
        NormalizeReference(q)
  }

  /** A normalized path with accurate counters has the normalized shape. */
  lemma NormalizePathShape(p: Path, asReference: bool)
    requires WellFormedPath(p)
    requires !IsNormalized(p, asReference) || Consistent(p)
    ensures NormalizedShape(NormalizePath(p, asReference), asReference)
  {
    IsNormalizedMeaning(NormalizePath(p, asReference), asReference);
  }

  // ---------------------------------------------------------------------------
  // Examples
  // ---------------------------------------------------------------------------

  /** The segment "%2E": an unnormalized spelling of ".". */
  function EncodedDot(): (seg: Segment)
    ensures Valid(seg) && !seg.normalized && IsSingleDot(seg) && !IsDoubleDot(seg)
  {
    var bytes := [PERCENT, 0x32, 0x45];
    assert ValidSegmentBytes(bytes) by {
      assert ValidSegmentBytes(bytes[3..]);
    }
    assert !NormalizedEscapes(bytes);
    DotMeaning(bytes);
    Segment(false, bytes)
  }

  /**
   * As written, removing the dot segments of "%2E" drops its one unnormalized
   * segment but keeps the unnormalized count at 1, so the result, a lone empty
   * segment, is reported as not normalized. The corrected removal recounts.
   */
  lemma RemovalKeepsUnnormalizedCount()
    ensures var p := Path(false, 0, 0, [EncodedDot()], 1, 1);
      && Consistent(p)
      && var r := RemoveDotSegmentsAsWritten(p);
      && r.segments == [Empty()] && r.unnormalizedCount == 1
      && !Consistent(r) && !IsNormalized(r, false)
      && IsNormalized(RemoveDotSegments(p), false)
  {
    var p := Path(false, 0, 0, [EncodedDot()], 1, 1);
    assert [EncodedDot()][1..] == [];
    var st := RemovalStep(RemovalState(false, false, []), EncodedDot(), false, false);
    assert st == RemovalState(false, false, []);
    assert RemovalLoop(p.segments, RemovalState(false, false, []), false) == st;
    EmptyIsNotDot();
    assert [Empty()][1..] == [];
  }

  /** The segment of plain bytes `bytes`, none of them `%`, that is not "." or "..". */
  function Plain(bytes: seq<byte>): (seg: Segment)
    requires forall i :: 0 <= i < |bytes| ==> PathChar(bytes[i]) && bytes[i] != PERCENT
    requires bytes != [DOT] && bytes != [DOT, DOT]
    ensures Valid(seg) && seg.normalized && !IsDot(seg) && seg.bytes == bytes
  {
    PlainValid(bytes);
    DotMeaning(bytes);
    Segment(true, bytes)
  }

  /** Bytes without `%` are valid segment bytes when they are path characters, and decode to themselves. */
  lemma {:induction false} PlainValid(bytes: seq<byte>)
    requires forall i :: 0 <= i < |bytes| ==> PathChar(bytes[i]) && bytes[i] != PERCENT
    ensures ValidSegmentBytes(bytes) && NormalizedEscapes(bytes) && Decoded(bytes) == bytes
    decreases |bytes|
  {
    if |bytes| > 0 {
      PlainValid(bytes[1..]);
      assert bytes == [bytes[0]] + bytes[1..];
    }
  }

  /** The literal segments "." and "..". */
  function SingleDot(): (seg: Segment)
    ensures Valid(seg) && seg.normalized && IsSingleDot(seg) && !IsDoubleDot(seg) && seg.bytes == [DOT]
  {
    DotSegmentsParse();
    LiteralDots();
    Segment(true, [DOT])
  }

  function DoubleDot(): (seg: Segment)
    ensures Valid(seg) && seg.normalized && IsDoubleDot(seg) && !IsSingleDot(seg) && seg.bytes == [DOT, DOT]
  {
    DotSegmentsParse();
    LiteralDots();
    Segment(true, [DOT, DOT])
  }

  /** A test case of `remove_dot_segments`: "/a/b/./.." becomes "/a/", keeping the trailing `/`. */
  lemma RemoveDotSegmentsAbsoluteExample()
    ensures var a := Plain([0x61]); var b := Plain([0x62]);
      var r := RemoveDotSegmentsHelper(Path(true, 1, 0, [a, b, SingleDot(), DoubleDot()], 1, 0), false);
      r.absolute && r.segments == [a, Empty()]
  {
    AbsoluteExampleLoop();
  }

  /** The loop of that test case keeps `a` alone. */
  lemma AbsoluteExampleLoop()
    ensures var a := Plain([0x61]); var b := Plain([0x62]);
      RemovalLoop([a, b, SingleDot(), DoubleDot()], RemovalState(true, true, []), false) == RemovalState(true, true, [a])
  {
    var a, b := Plain([0x61]), Plain([0x62]);
    var segments := [a, b, SingleDot(), DoubleDot()];
    var t1 := RemovalState(true, true, [a]);
    var t2 := RemovalState(true, true, [a, b]);
    assert RemovalStep(RemovalState(true, true, []), a, true, false) == t1;
    assert RemovalStep(t1, b, true, false) == t2;
    assert RemovalStep(t2, SingleDot(), true, false) == t2;
    assert RemovalStep(t2, DoubleDot(), false, false) == t1;
    assert RemovalLoop([DoubleDot()], t2, false) == t1 by {
      assert [DoubleDot()][1..] == [];
    }
    assert RemovalLoop([SingleDot(), DoubleDot()], t2, false) == t1 by {
      assert [SingleDot(), DoubleDot()][1..] == [DoubleDot()];
    }
    assert RemovalLoop([b, SingleDot(), DoubleDot()], t1, false) == t1 by {
      assert [b, SingleDot(), DoubleDot()][1..] == [SingleDot(), DoubleDot()];
    }
    assert segments[1..] == [b, SingleDot(), DoubleDot()];
  }

  /** A test case of `remove_dot_segments`: "a/../.." becomes "/", an absolute path. */
  lemma RemoveDotSegmentsRelativeExample()
    ensures var a := Plain([0x61]);
      var r := RemoveDotSegmentsHelper(Path(false, 2, 0, [a, DoubleDot(), DoubleDot()], 0, 0), false);
      r.absolute && r.segments == [Empty()]
  {
    var a := Plain([0x61]);
    var relative := [a, DoubleDot(), DoubleDot()];
    var s1 := RemovalState(true, false, [a]);
    var s2 := RemovalState(true, false, []);
    assert RemovalStep(RemovalState(false, false, []), a, true, false) == s1;
    assert RemovalStep(s1, DoubleDot(), true, false) == s2;
    assert RemovalStep(s2, DoubleDot(), false, false) == s2;
    assert RemovalLoop(relative[2..], s2, false) == s2;
    assert RemovalLoop(relative[1..], s1, false) == s2;
  }

  /** A test case of `normalize` as a reference: "a/../.." becomes "..". */
  lemma NormalizeReferenceExample()
    ensures var a := Plain([0x61]);
      var r := NormalizePath(Path(false, 2, 0, [a, DoubleDot(), DoubleDot()], 0, 0), true);
      !r.absolute && r.segments == [DoubleDot()] && r.doubleDotSegmentCount == 1 && r.leadingDoubleDotSegmentCount == 1
  {
    var a := Plain([0x61]);
    var segments := [a, DoubleDot(), DoubleDot()];
    var s1 := ReferenceState(0, None, [a]);
    var s2 := ReferenceState(0, None, []);
    var s3 := ReferenceState(1, Some(0), [DoubleDot()]);
    assert ReferenceStep(ReferenceState(0, None, []), a, Some(DoubleDot())) == s1;
    assert ReferenceStep(s1, DoubleDot(), Some(DoubleDot())) == s2;
    assert ReferenceStep(s2, DoubleDot(), None) == s3;
    assert ReferenceLoop(segments[2..], s2) == s3;
    assert ReferenceLoop(segments[1..], s1) == s3;
  }

  /** A test case of `normalize` as a reference: in "./a:b/.." the ".." also removes the leading ".", giving "". */
  lemma NormalizeReferenceColonExample()
    ensures var ab := Plain([0x61, COLON, 0x62]);
      var r := NormalizePath(Path(false, 1, 0, [SingleDot(), ab, DoubleDot()], 1, 0), true);
      !r.absolute && r.segments == [Empty()] && r.singleDotSegmentCount == 0
  {
    var ab := Plain([0x61, COLON, 0x62]);
    var segments := [SingleDot(), ab, DoubleDot()];
    var s1 := ReferenceState(0, None, [SingleDot()]);
    var s2 := ReferenceState(0, None, [SingleDot(), ab]);
    var s3 := ReferenceState(0, None, []);
    assert ReferenceStep(ReferenceState(0, None, []), SingleDot(), Some(ab)) == s1;
    assert ReferenceStep(s1, ab, Some(DoubleDot())) == s2;
    assert ReferenceStep(s2, DoubleDot(), None) == s3;
    assert ReferenceLoop(segments[2..], s2) == s3;
    assert ReferenceLoop(segments[1..], s1) == s3;
    EmptyIsNotDot();
  }
}
