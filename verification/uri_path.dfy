/**
 * The path component of a URI (`Path` in `src/uri_path.rs`, section 3.3 of
 * RFC 3986): a list of segments plus bookkeeping counters that let
 * `is_normalized` and `remove_dot_segments` answer without a scan.
 *
 * The counters are `u16` in the source. The model keeps them as `nat`; the
 * predicate `Consistent` states what they are meant to hold, and every
 * corrected operation is proved to keep it, which bounds them by the number of
 * segments, itself at most 65535. `clear` as written keeps the counters, so
 * repeated `clear` and `push` raise them without bound (`ClearThenPushGrows`);
 * past 65535 the source would panic or wrap, which the model does not follow.
 */
module UriPath {
  import opened Wrappers
  import opened Bytes
  import opened UriUtility
  import opened UriSegment
  import opened Sequences

  /** `u16::max_value()`. */
  const U16_MAX: nat := 65535

  datatype Path = Path(
    absolute: bool,
    doubleDotSegmentCount: nat,
    leadingDoubleDotSegmentCount: nat,
    segments: seq<Segment>,
    singleDotSegmentCount: nat,
    unnormalizedCount: nat)

  /** The number of segments satisfying `p`. */
  function Count(segments: seq<Segment>, p: Segment -> bool): (n: nat)
    ensures n <= |segments|
  {
    if |segments| == 0 then 0
    else (if p(segments[0]) then 1 else 0) + Count(segments[1..], p)
  }

  predicate IsUnnormalized(seg: Segment) {
    !seg.normalized
  }

  /** How many segments at the front of the path are "..". */
  function LeadingDoubleDots(segments: seq<Segment>): (n: nat)
    ensures n <= |segments|
    ensures forall i :: 0 <= i < n ==> IsDoubleDot(segments[i])
    ensures n < |segments| ==> !IsDoubleDot(segments[n])
  {
    if |segments| == 0 then 0
    else if IsDoubleDot(segments[0]) then 1 + LeadingDoubleDots(segments[1..])
    else 0
  }

  predicate AllValid(segments: seq<Segment>) {
    forall i :: 0 <= i < |segments| ==> Valid(segments[i])
  }

  /**
   * What the counters of a path are documented to hold, together with the
   * invariants every `Path` keeps: at least one segment, at most 65535, each
   * one a valid segment with an accurate normalized flag.
   */
  predicate Consistent(p: Path) {
    && 0 < |p.segments| <= U16_MAX
    && AllValid(p.segments)
    && p.singleDotSegmentCount == Count(p.segments, IsSingleDot)
    && p.doubleDotSegmentCount == Count(p.segments, IsDoubleDot)
    && p.leadingDoubleDotSegmentCount == LeadingDoubleDots(p.segments)
    && p.unnormalizedCount == Count(p.segments, IsUnnormalized)
  }

  /** Adding a segment at the end adds one to a count exactly when it qualifies. */
  lemma {:induction false} CountAppend(segments: seq<Segment>, x: Segment, p: Segment -> bool)
    ensures Count(segments + [x], p) == Count(segments, p) + (if p(x) then 1 else 0)
  {
    if |segments| > 0 {
      assert (segments + [x])[1..] == segments[1..] + [x];
      CountAppend(segments[1..], x, p);
    }
  }

  /** A count is zero exactly when no segment qualifies. */
  lemma {:induction false} CountZero(segments: seq<Segment>, p: Segment -> bool)
    ensures Count(segments, p) == 0 <==> forall i :: 0 <= i < |segments| ==> !p(segments[i])
  {
    if |segments| > 0 {
      CountZero(segments[1..], p);
      assert forall i :: 1 <= i < |segments| ==> segments[i] == segments[1..][i - 1];
    }
  }

  /** A count of one with a qualifying first segment means no other segment qualifies. */
  lemma CountOneAtFront(segments: seq<Segment>, p: Segment -> bool)
    requires |segments| > 0 && p(segments[0])
    ensures Count(segments, p) == 1 <==> forall i :: 1 <= i < |segments| ==> !p(segments[i])
  {
    CountZero(segments[1..], p);
    assert forall i :: 1 <= i < |segments| ==> segments[i] == segments[1..][i - 1];
  }

  /** Adding a segment at the end extends the leading ".." run only if the run was the whole path. */
  lemma {:induction false} LeadingAppend(segments: seq<Segment>, x: Segment)
    ensures LeadingDoubleDots(segments + [x]) ==
      if LeadingDoubleDots(segments) == |segments| && IsDoubleDot(x) then |segments| + 1
      else LeadingDoubleDots(segments)
  {
    if |segments| > 0 {
      assert (segments + [x])[1..] == segments[1..] + [x];
      LeadingAppend(segments[1..], x);
    }
  }

  /** The ".." count equals the leading run exactly when every ".." is in that run. */
  lemma {:induction false} DoubleDotsLeading(segments: seq<Segment>)
    ensures Count(segments, IsDoubleDot) >= LeadingDoubleDots(segments)
    ensures Count(segments, IsDoubleDot) == LeadingDoubleDots(segments) <==>
      forall i :: 0 <= i < |segments| && IsDoubleDot(segments[i]) ==> i < LeadingDoubleDots(segments)
  {
    if |segments| > 0 {
      DoubleDotsLeading(segments[1..]);
      assert forall i :: 1 <= i < |segments| ==> segments[i] == segments[1..][i - 1];
      if !IsDoubleDot(segments[0]) {
        CountZero(segments[1..], IsDoubleDot);
        CountZero(segments, IsDoubleDot);
      }
    }
  }

  /** The bytes of each segment, in order. */
  function SegmentBytes(segments: seq<Segment>): (r: seq<seq<byte>>)
    ensures |r| == |segments|
    ensures forall i :: 0 <= i < |segments| ==> r[i] == segments[i].bytes
  {
    seq(|segments|, i requires 0 <= i < |segments| => segments[i].bytes)
  }

  /**
   * `Display for Path`: an optional leading `/`, then the segments joined by `/`. An absolute
   * path prints with a leading `/`, and splitting the rest at `/` gives back the segments'
   * bytes, since valid segments hold no `/`.
   */
  function Display(p: Path): (r: seq<byte>)
    ensures p.absolute ==> |r| > 0 && r[0] == SLASH
    ensures |p.segments| > 0 && AllValid(p.segments) ==>
      SplitOn(r[if p.absolute then 1 else 0..], SLASH) == SegmentBytes(p.segments)
  {
    var body := JoinWith(SegmentBytes(p.segments), SLASH);
    SegmentsSplitBack(p.segments);
    assert ((if p.absolute then [SLASH] else []) + body)[if p.absolute then 1 else 0..] == body;
    (if p.absolute then [SLASH] else []) + body
  }

  /** The joined bytes of valid segments split back into those segments' bytes. */
  lemma SegmentsSplitBack(segments: seq<Segment>)
    ensures |segments| > 0 && AllValid(segments) ==>
      SplitOn(JoinWith(SegmentBytes(segments), SLASH), SLASH) == SegmentBytes(segments)
  {
    if |segments| > 0 && AllValid(segments) {
      forall i | 0 <= i < |segments| ensures SLASH !in SegmentBytes(segments)[i] {
        ValidHasNoDelimiter(segments[i].bytes);
      }
      SplitJoin(SegmentBytes(segments), SLASH);
    }
  }

  /** The segment `Segment::try_from` builds from valid bytes. */
  function FromValid(bytes: seq<byte>): (seg: Segment)
    requires ValidSegmentBytes(bytes)
    ensures Valid(seg) && seg.bytes == bytes
  {
    Segment(NormalizedEscapes(bytes), bytes)
  }

  predicate AllValidBytes(parts: seq<seq<byte>>) {
    forall i :: 0 <= i < |parts| ==> ValidSegmentBytes(parts[i])
  }

  function FromValidAll(parts: seq<seq<byte>>): (segments: seq<Segment>)
    requires AllValidBytes(parts)
    ensures |segments| == |parts| && AllValid(segments) && SegmentBytes(segments) == parts
  {
    seq(|parts|, i requires 0 <= i < |parts| => FromValid(parts[i]))
  }

  /**
   * Which segments `parse_path` counts as dot segments: the source compares the
   * raw bytes with "." and "..", while `Segment::is_single_dot_segment`, `push`
   * and the dot-segment removal compare up to percent-encoding.
   */
  datatype DotRule = Literal | PercentAware

  predicate SingleDotBy(rule: DotRule, bytes: seq<byte>) {
    match rule
    case Literal => bytes == [DOT]
    case PercentAware => IsSingleDotBytes(bytes)
  }

  predicate DoubleDotBy(rule: DotRule, bytes: seq<byte>) {
    match rule
    case Literal => bytes == [DOT, DOT]
    case PercentAware => IsDoubleDotBytes(bytes)
  }

  /** The running state of `parse_path` (`SegmentInfo`); `index` is the 1-based number of the segment being read. */
  datatype SegmentInfo = SegmentInfo(
    absolute: bool,
    doubleDotSegmentCount: nat,
    index: nat,
    lastDoubleDotSegment: Option<nat>,
    leadingDoubleDotSegmentCount: nat,
    normalized: bool,
    singleDotSegmentCount: nat,
    unnormalizedCount: nat)

  /** `SegmentInfo::into_path`. */
  function IntoPath(info: SegmentInfo, segments: seq<Segment>): (p: Path)
    ensures p.segments == segments && p.absolute == info.absolute
  {
    Path(info.absolute, info.doubleDotSegmentCount, info.leadingDoubleDotSegmentCount, segments,
         info.singleDotSegmentCount, info.unnormalizedCount)
  }

  /**
   * `new_segment`: builds the segment just read and updates the counters. A ".."
   * is leading when it is the first segment or directly follows the last
   * leading "..".
   */
  function NewSegment(bytes: seq<byte>, info: SegmentInfo, rule: DotRule): (r: (Segment, SegmentInfo))
    requires info.index >= 1
    ensures r.0 == Segment(info.normalized, bytes)
    ensures r.1.index == info.index && r.1.absolute == info.absolute
  {
    var unnormalized := if !info.normalized then info.unnormalizedCount + 1 else info.unnormalizedCount;
    var single := if SingleDotBy(rule, bytes) then info.singleDotSegmentCount + 1 else info.singleDotSegmentCount;
    var info' := info.(unnormalizedCount := unnormalized, singleDotSegmentCount := single);
    if DoubleDotBy(rule, bytes) then
      var index := info.index - 1;
      var info'' := info'.(doubleDotSegmentCount := info.doubleDotSegmentCount + 1);
      if index == 0 || info.lastDoubleDotSegment == Some(index - 1) then
        (Segment(info.normalized, bytes),
         info''.(leadingDoubleDotSegmentCount := info.leadingDoubleDotSegmentCount + 1, lastDoubleDotSegment := Some(index)))
      else
        (Segment(info.normalized, bytes), info'')
    else
      (Segment(info.normalized, bytes), info')
  }

  /**
   * The byte loop of `parse_path` from read position `pos`; the current segment
   * started at `start`. `?` or `#` ends the path and the rest is returned; `/`
   * closes a segment, failing once the segment number would pass 65535.
   */
  function ParseLoop(value: seq<byte>, pos: nat, start: nat, info: SegmentInfo, segments: seq<Segment>, rule: DotRule)
    : (r: Result<(Path, seq<byte>), PathError>)
    requires start <= pos <= |value|
    requires info.index >= 1
    decreases |value| - pos
  {
    if pos == |value| then
      var (segment, info') := NewSegment(value[start..], info, rule);
      Success((IntoPath(info', segments + [segment]), []))
    else
      var b := value[pos];
      if b == QUESTION_MARK || b == HASH_SIGN then
        var (segment, info') := NewSegment(value[start..pos], info, rule);
        Success((IntoPath(info', segments + [segment]), value[pos..]))
      else if b == SLASH then
        var (segment, info') := NewSegment(value[start..pos], info, rule);
        if info'.index + 1 > U16_MAX then Failure(ExceededMaximumLength)
        else ParseLoop(value, pos + 1, pos + 1, info'.(index := info'.index + 1, normalized := true), segments + [segment], rule)
      else if !PathChar(b) then Failure(InvalidCharacter)
      else if b == PERCENT then
        match GetPercentEncodedValue(At(value, pos + 1), At(value, pos + 2))
        case Some((hexValue, uppercase)) =>
          ParseLoop(value, pos + 3, start, if !uppercase || Unreserved(hexValue) then info.(normalized := false) else info, segments, rule)
        case None => Failure(InvalidPercentEncoding)
      else
        ParseLoop(value, pos + 1, start, info, segments, rule)
  }

  /** A leading `/` makes the path absolute and is not part of any segment. */
  function StripSlash(value: seq<byte>): (r: (seq<byte>, bool))
    ensures r.1 <==> |value| > 0 && value[0] == SLASH
    ensures (if r.1 then [SLASH] else []) + r.0 == value
  {
    if |value| > 0 && value[0] == SLASH then (value[1..], true) else (value, false)
  }

  function InitialInfo(absolute: bool): SegmentInfo {
    SegmentInfo(absolute, 0, 1, None, 0, true, 0, 0)
  }

  /** `parse_path` with a choice of which segments count as dots. */
  function ParsePathWith(value: seq<byte>, rule: DotRule): Result<(Path, seq<byte>), PathError> {
    var (body, absolute) := StripSlash(value);
    ParseLoop(body, 0, 0, InitialInfo(absolute), [], rule)
  }

  /** `Path::try_from` with a choice of which segments count as dots: the whole input must be path. */
  function TryFromWith(value: seq<byte>, rule: DotRule): Result<Path, PathError> {
    var (path, rest) :- ParsePathWith(value, rule);
    if rest == [] then Success(path) else Failure(InvalidCharacter)
  }

  /**
   * `Path::try_from` as the source writes it: `parse_path` counts only the
   * literal "." and ".." as dot segments.
   */
  function TryFromAsWritten(value: seq<byte>): (r: Result<Path, PathError>)
    ensures r.Success? <==> TryFromWith(value, PercentAware).Success?
    ensures r.Success? ==> r.value.segments == TryFromWith(value, PercentAware).value.segments
  {
    ParseRuleIndependent(value);
    TryFromWith(value, Literal)
  }

  /**
   * `Path::try_from`, counting dot segments up to percent-encoding. It
   * succeeds exactly when every `/`-separated part is a valid segment and
   * there are at most 65535 of them; the path then prints back as the input
   * and its counters describe its segments.
   */
  function PathTryFrom(value: seq<byte>): (r: Result<Path, PathError>)
    ensures var parts := SplitOn(StripSlash(value).0, SLASH);
      r.Success? <==> AllValidBytes(parts) && |parts| <= U16_MAX
    ensures var parts := SplitOn(StripSlash(value).0, SLASH);
      AllValidBytes(parts) && |parts| > U16_MAX ==> r == Failure(ExceededMaximumLength)
    ensures r.Success? ==> Display(r.value) == value
    ensures r.Success? ==> Consistent(r.value)
    ensures r.Success? ==> (r.value.absolute <==> |value| > 0 && value[0] == SLASH)
  {
    TryFromFacts(value);
    TryFromWith(value, PercentAware)
  }

  /** The proof behind `PathTryFrom`'s contract. */
  lemma TryFromFacts(value: seq<byte>)
    ensures var r := TryFromWith(value, PercentAware);
      var parts := SplitOn(StripSlash(value).0, SLASH);
      && (r.Success? <==> AllValidBytes(parts) && |parts| <= U16_MAX)
      && (AllValidBytes(parts) && |parts| > U16_MAX ==> r == Failure(ExceededMaximumLength))
      && (r.Success? ==> Display(r.value) == value && Consistent(r.value))
      && (r.Success? ==> (r.value.absolute <==> |value| > 0 && value[0] == SLASH))
  {
    var (body, absolute) := StripSlash(value);
    assert body[0..0] == [];
    ParseLoopShape(body, 0, 0, InitialInfo(absolute), [], PercentAware);
    ParseLoopCounters(body, 0, 0, InitialInfo(absolute), []);
    var r := TryFromWith(value, PercentAware);
    if r.Success? {
      var parts := SplitOn(body, SLASH);
      assert body[0..] == body;
      JoinSplit(body, SLASH);
      assert r.value.segments == FromValidAll(parts);
    }
  }

  /** The dot rule only affects the counters, never whether parsing succeeds or the segments. */
  lemma ParseRuleIndependent(value: seq<byte>)
    ensures TryFromWith(value, Literal).Success? <==> TryFromWith(value, PercentAware).Success?
    ensures TryFromWith(value, Literal).Success? ==>
      TryFromWith(value, Literal).value.segments == TryFromWith(value, PercentAware).value.segments
  {
    var (body, absolute) := StripSlash(value);
    assert body[0..0] == [];
    ParseLoopShape(body, 0, 0, InitialInfo(absolute), [], PercentAware);
    ParseLoopShape(body, 0, 0, InitialInfo(absolute), [], Literal);
  }

  /** Splitting a `/`-free prefix followed by more bytes. */
  lemma {:induction false} SplitPrefix(a: seq<byte>, c: seq<byte>)
    requires SLASH !in a
    ensures SplitOn(a + c, SLASH) == [a + SplitOn(c, SLASH)[0]] + SplitOn(c, SLASH)[1..]
    decreases |a|
  {
    if |a| == 0 {
      assert a + c == c;
      var parts := SplitOn(c, SLASH);
      assert parts == [parts[0]] + parts[1..];
      assert a + parts[0] == parts[0];
    } else {
      assert (a + c)[1..] == a[1..] + c;
      SplitPrefix(a[1..], c);
      var rest := SplitOn(a[1..] + c, SLASH);
      assert SplitOn(a + c, SLASH) == [[a[0]] + rest[0]] + rest[1..];
      assert rest[0] == a[1..] + SplitOn(c, SLASH)[0];
      assert [a[0]] + (a[1..] + SplitOn(c, SLASH)[0]) == a + SplitOn(c, SLASH)[0];
    }
  }

  /** Splitting at a `/` that follows a `/`-free prefix. */
  lemma SplitAtSlash(a: seq<byte>, c: seq<byte>)
    requires SLASH !in a
    ensures SplitOn(a + [SLASH] + c, SLASH) == [a] + SplitOn(c, SLASH)
  {
    SplitPrefix(a, [SLASH] + c);
    assert a + [SLASH] + c == a + ([SLASH] + c);
    assert ([SLASH] + c)[1..] == c;
    assert a + [] == a;
  }

  /**
   * The shape of what `parse_path` produces: with the current segment's bytes
   * so far valid, the loop reaches the end of the input without error exactly
   * when every remaining `/`-separated part is valid and the segment number
   * stays within 65535; the segments are then those parts.
   */
  predicate ShapeHolds(value: seq<byte>, pos: nat, start: nat, info: SegmentInfo, segments: seq<Segment>, rule: DotRule)
    requires start <= pos <= |value|
    requires info.index >= 1
  {
    ShapeOf(ParseLoop(value, pos, start, info, segments, rule), SplitOn(value[start..], SLASH), info, segments)
  }

  /**
   * The outcome `r` of parsing `parts` as further segments after `segments`, counting from
   * `info.index`: a complete parse exactly when every part is valid and the count fits, the
   * length error when only the count does not, and then the segments the parts stand for.
   */
  predicate ShapeOf(r: Result<(Path, seq<byte>), PathError>, parts: seq<seq<byte>>, info: SegmentInfo, segments: seq<Segment>) {
    && ((r.Success? && r.value.1 == []) <==> AllValidBytes(parts) && info.index + |parts| - 1 <= U16_MAX)
    && (AllValidBytes(parts) && info.index + |parts| - 1 > U16_MAX ==> r == Failure(ExceededMaximumLength))
    && (r.Success? && r.value.1 == [] ==>
          r.value.0.segments == segments + FromValidAll(parts) && r.value.0.absolute == info.absolute)
  }

  /** The shape of the parse after a valid part carries over to the parse of that part and the rest. */
  lemma ShapeOfCons(r: Result<(Path, seq<byte>), PathError>, head: seq<byte>, rest: seq<seq<byte>>, info: SegmentInfo, next: SegmentInfo, segments: seq<Segment>, segment: Segment)
    requires ShapeOf(r, rest, next, segments + [segment])
    requires next.index == info.index + 1 && next.absolute == info.absolute
    requires ValidSegmentBytes(head) && segment == FromValid(head)
    ensures ShapeOf(r, [head] + rest, info, segments)
  {
    AllValidCons(head, rest);
    if AllValidBytes(rest) {
      ConcatAssociative(segments, [segment], FromValidAll(rest));
    }
  }

  /** The loop invariant of `parse_path`: the current segment's bytes so far are valid and flagged accurately. */
  predicate ScanInvariant(value: seq<byte>, pos: nat, start: nat, info: SegmentInfo) {
    && start <= pos <= |value|
    && 1 <= info.index <= U16_MAX
    && ValidSegmentBytes(value[start..pos])
    && info.normalized == NormalizedEscapes(value[start..pos])
  }

  lemma {:induction false} ParseLoopShape(value: seq<byte>, pos: nat, start: nat, info: SegmentInfo, segments: seq<Segment>, rule: DotRule)
    requires ScanInvariant(value, pos, start, info)
    ensures ShapeHolds(value, pos, start, info, segments, rule)
    decreases |value| - pos, 1
  {
    ValidHasNoDelimiter(value[start..pos]);
    if pos == |value| {
      SplitSeparatorFree(value[start..], SLASH);
      assert value[start..] == value[start..pos];
    } else {
      var b := value[pos];
      if b != SLASH && !PathChar(b) {
        ShapeAtInvalid(value, pos, start, info, segments, rule);
      } else if b == SLASH {
        ShapeAtSlash(value, pos, start, info, segments, rule);
      } else if b == PERCENT {
        if GetPercentEncodedValue(At(value, pos + 1), At(value, pos + 2)).Some? {
          ShapeAtEscape(value, pos, start, info, segments, rule);
        } else {
          ShapeAtBadEscape(value, pos, start, info, segments, rule);
        }
      } else {
        assert value[start..pos + 1] == value[start..pos] + [b];
        ValidConcat(value[start..pos], [b]);
        assert [b][1..] == [];
        ParseLoopShape(value, pos + 1, start, info, segments, rule);
      }
    }
  }

  /** The current part holds a byte outside the character set: no complete parse. */
  lemma ShapeAtInvalid(value: seq<byte>, pos: nat, start: nat, info: SegmentInfo, segments: seq<Segment>, rule: DotRule)
    requires ScanInvariant(value, pos, start, info) && pos < |value|
    requires !PathChar(value[pos]) && value[pos] != SLASH
    ensures ShapeHolds(value, pos, start, info, segments, rule)
  {
    var head := value[start..pos];
    var b := value[pos];
    ValidHasNoDelimiter(head);
    assert value[start..] == head + ([b] + value[pos + 1..]);
    assert value[pos..] == [b] + value[pos + 1..];
    SplitPrefix(head, value[pos..]);
    SplitPrefix([b], value[pos + 1..]);
    var parts := SplitOn(value[start..], SLASH);
    assert parts[0][|head|] == b;
    NonPathCharInvalid(parts[0], |head|);
  }

  /** At a `/`: the current part is closed and the loop continues with the next one. */
  lemma {:induction false} ShapeAtSlash(value: seq<byte>, pos: nat, start: nat, info: SegmentInfo, segments: seq<Segment>, rule: DotRule)
    requires ScanInvariant(value, pos, start, info) && pos < |value|
    requires value[pos] == SLASH
    ensures ShapeHolds(value, pos, start, info, segments, rule)
    decreases |value| - pos, 0
  {
    var head := value[start..pos];
    var parts := SplitOn(value[start..], SLASH);
    var rest := SplitOn(value[pos + 1..], SLASH);
    assert parts == [head] + rest by {
      ValidHasNoDelimiter(head);
      assert value[start..] == head + [SLASH] + value[pos + 1..];
      SplitAtSlash(head, value[pos + 1..]);
    }
    var segment := NewSegment(head, info, rule).0;
    var info' := NewSegment(head, info, rule).1;
    ParseLoopAtSlash(value, pos, start, info, segments, rule);
    if info'.index + 1 <= U16_MAX {
      var next := info'.(index := info'.index + 1, normalized := true);
      assert value[pos + 1..pos + 1] == [];
      ParseLoopShape(value, pos + 1, pos + 1, next, segments + [segment], rule);
      ShapeOfCons(ParseLoop(value, pos, start, info, segments, rule), head, rest, info, next, segments, segment);
    } else {
      AllValidCons(head, rest);
    }
  }

  /** Validity and segment construction distribute over a leading part. */
  lemma AllValidCons(head: seq<byte>, rest: seq<seq<byte>>)
    ensures AllValidBytes([head] + rest) <==> ValidSegmentBytes(head) && AllValidBytes(rest)
    ensures AllValidBytes([head] + rest) ==> FromValidAll([head] + rest) == [FromValid(head)] + FromValidAll(rest)
  {
    var parts := [head] + rest;
    if AllValidBytes(parts) {
      assert ValidSegmentBytes(parts[0]);
      assert AllValidBytes(rest) by {
        forall i | 0 <= i < |rest| ensures ValidSegmentBytes(rest[i]) {
          assert rest[i] == parts[i + 1];
        }
      }
    }
  }

  /** At a `%` followed by two hex digits: the escape extends the current part. */
  lemma {:induction false} ShapeAtEscape(value: seq<byte>, pos: nat, start: nat, info: SegmentInfo, segments: seq<Segment>, rule: DotRule)
    requires ScanInvariant(value, pos, start, info) && pos < |value|
    requires value[pos] == PERCENT
    requires GetPercentEncodedValue(At(value, pos + 1), At(value, pos + 2)).Some?
    ensures ShapeHolds(value, pos, start, info, segments, rule)
    decreases |value| - pos, 0
  {
    var (hexValue, uppercase) := GetPercentEncodedValue(At(value, pos + 1), At(value, pos + 2)).value;
    var info' := if !uppercase || Unreserved(hexValue) then info.(normalized := false) else info;
    ParseLoopAtPercent(value, pos, start, info, segments, rule);
    ScanAtEscape(value, pos, start, info);
    ParseLoopShape(value, pos + 3, start, info', segments, rule);
    ShapeCarries(value, pos, pos + 3, start, info, info', segments, rule);
  }

  /** A complete escape keeps the scan invariant, the flag cleared for a lowercase digit or an unreserved byte. */
  lemma ScanAtEscape(value: seq<byte>, pos: nat, start: nat, info: SegmentInfo)
    requires ScanInvariant(value, pos, start, info) && pos < |value|
    requires value[pos] == PERCENT
    requires GetPercentEncodedValue(At(value, pos + 1), At(value, pos + 2)).Some?
    ensures var (hexValue, uppercase) := GetPercentEncodedValue(At(value, pos + 1), At(value, pos + 2)).value;
      ScanInvariant(value, pos + 3, start, if !uppercase || Unreserved(hexValue) then info.(normalized := false) else info)
  {
    var head := value[start..pos];
    var escape := value[pos..pos + 3];
    EscapeDecodes(value[pos + 1], value[pos + 2]);
    EscapeUnit(escape);
    assert value[start..pos + 3] == head + escape;
    ValidConcat(head, escape);
  }

  /** Two loop states of the same part, with the same counters, that parse alike have the same shape. */
  lemma ShapeCarries(value: seq<byte>, pos: nat, pos2: nat, start: nat, info: SegmentInfo, info2: SegmentInfo, segments: seq<Segment>, rule: DotRule)
    requires start <= pos <= |value| && start <= pos2 <= |value| && info.index >= 1
    requires info2.index == info.index && info2.absolute == info.absolute
    requires ParseLoop(value, pos, start, info, segments, rule) == ParseLoop(value, pos2, start, info2, segments, rule)
    requires ShapeHolds(value, pos2, start, info2, segments, rule)
    ensures ShapeHolds(value, pos, start, info, segments, rule)
  {
  }

  /** At a `%` not followed by two hex digits: the current part is invalid. */
  lemma ShapeAtBadEscape(value: seq<byte>, pos: nat, start: nat, info: SegmentInfo, segments: seq<Segment>, rule: DotRule)
    requires ScanInvariant(value, pos, start, info) && pos < |value|
    requires value[pos] == PERCENT
    requires GetPercentEncodedValue(At(value, pos + 1), At(value, pos + 2)).None?
    ensures ShapeHolds(value, pos, start, info, segments, rule)
  {
    var head := value[start..pos];
    assert ParseLoop(value, pos, start, info, segments, rule) == Failure(InvalidPercentEncoding);
    var tail := SplitOn(value[pos..], SLASH);
    assert SplitOn(value[start..], SLASH)[0] == head + tail[0] by {
      ValidHasNoDelimiter(head);
      assert value[start..] == head + value[pos..];
      SplitPrefix(head, value[pos..]);
    }
    assert !ValidSegmentBytes(tail[0]) by {
      assert value[pos..] == [PERCENT] + value[pos + 1..];
      SplitPrefix([PERCENT], value[pos + 1..]);
      var after := SplitOn(value[pos + 1..], SLASH);
      assert tail[0] == [PERCENT] + after[0];
      SplitTwoBytes(value, pos + 1);
    }
    ValidConcat(head, tail[0]);
  }

  /**
   * The first part of a split from `i` begins with the bytes at `i` and `i + 1`
   * when they are hex digits (hex digits are never `/`).
   */
  lemma SplitTwoBytes(value: seq<byte>, i: nat)
    requires i <= |value|
    ensures var first := SplitOn(value[i..], SLASH)[0];
      && (i < |value| && IsHexDigit(value[i]) ==> |first| >= 1 && first[0] == value[i])
      && (i + 1 < |value| && IsHexDigit(value[i]) && IsHexDigit(value[i + 1]) ==> |first| >= 2 && first[1] == value[i + 1])
      && (|first| >= 1 ==> i < |value| && first[0] == value[i])
      && (|first| >= 2 ==> i + 1 < |value| && first[1] == value[i + 1])
  {
    var first := SplitOn(value[i..], SLASH)[0];
    JoinSplit(value[i..], SLASH);
    var parts := SplitOn(value[i..], SLASH);
    if |parts| == 1 {
      assert first == value[i..];
    } else {
      assert value[i..] == first + [SLASH] + JoinWith(parts[1..], SLASH);
    }
    if i < |value| && IsHexDigit(value[i]) {
      assert value[i..] == [value[i]] + value[i + 1..];
      SplitPrefix([value[i]], value[i + 1..]);
      if i + 1 < |value| && IsHexDigit(value[i + 1]) {
        assert value[i + 1..] == [value[i + 1]] + value[i + 2..];
        SplitPrefix([value[i + 1]], value[i + 2..]);
      }
    }
  }

  /** The counters `parse_path` keeps, related to the segments read so far. */
  predicate InfoMatches(info: SegmentInfo, segments: seq<Segment>) {
    && info.index == |segments| + 1
    && info.singleDotSegmentCount == Count(segments, IsSingleDot)
    && info.doubleDotSegmentCount == Count(segments, IsDoubleDot)
    && info.leadingDoubleDotSegmentCount == LeadingDoubleDots(segments)
    && info.lastDoubleDotSegment == (if LeadingDoubleDots(segments) == 0 then None else Some(LeadingDoubleDots(segments) - 1))
    && info.unnormalizedCount == Count(segments, IsUnnormalized)
  }

  /** `new_segment` with percent-aware dots keeps the counters describing the segments. */
  lemma NewSegmentCounters(bytes: seq<byte>, info: SegmentInfo, segments: seq<Segment>)
    requires info.index >= 1 && InfoMatches(info, segments)
    ensures var (segment, info') := NewSegment(bytes, info, PercentAware);
      InfoMatches(info'.(index := info'.index + 1), segments + [segment])
  {
    var (segment, info') := NewSegment(bytes, info, PercentAware);
    CountAppend(segments, segment, IsSingleDot);
    CountAppend(segments, segment, IsDoubleDot);
    CountAppend(segments, segment, IsUnnormalized);
    LeadingAppend(segments, segment);
    assert IsDoubleDot(segment) == DoubleDotBy(PercentAware, bytes);
    assert IsSingleDot(segment) == SingleDotBy(PercentAware, bytes);
    if DoubleDotBy(PercentAware, bytes) {
      var n := LeadingDoubleDots(segments);
      assert (info.index - 1 == 0 || info.lastDoubleDotSegment == Some(info.index - 2)) <==> n == |segments|;
    }
  }

  /** The four counters of `p` describe its segments. */
  predicate CountersMatch(p: Path) {
    && p.singleDotSegmentCount == Count(p.segments, IsSingleDot)
    && p.doubleDotSegmentCount == Count(p.segments, IsDoubleDot)
    && p.leadingDoubleDotSegmentCount == LeadingDoubleDots(p.segments)
    && p.unnormalizedCount == Count(p.segments, IsUnnormalized)
  }

  /** Closing a segment with percent-aware counting yields a path whose counters describe it. */
  lemma CloseCounters(bytes: seq<byte>, info: SegmentInfo, segments: seq<Segment>)
    requires info.index >= 1 && InfoMatches(info, segments)
    ensures var (segment, info') := NewSegment(bytes, info, PercentAware);
      CountersMatch(IntoPath(info', segments + [segment]))
  {
    NewSegmentCounters(bytes, info, segments);
  }

  /** What `ParseLoopCounters` states. */
  predicate CountersHold(value: seq<byte>, pos: nat, start: nat, info: SegmentInfo, segments: seq<Segment>)
    requires start <= pos <= |value| && info.index >= 1
  {
    var r := ParseLoop(value, pos, start, info, segments, PercentAware);
    r.Success? ==> CountersMatch(r.value.0)
  }

  /** Percent-aware parsing produces a path whose counters describe its segments. */
  lemma {:induction false} ParseLoopCounters(value: seq<byte>, pos: nat, start: nat, info: SegmentInfo, segments: seq<Segment>)
    requires start <= pos <= |value| && info.index >= 1
    requires InfoMatches(info, segments)
    ensures CountersHold(value, pos, start, info, segments)
    decreases |value| - pos, 1
  {
    if pos == |value| {
      CloseCounters(value[start..], info, segments);
    } else {
      var b := value[pos];
      if b == QUESTION_MARK || b == HASH_SIGN {
        CloseCounters(value[start..pos], info, segments);
      } else if b == SLASH {
        CountersAtSlash(value, pos, start, info, segments);
      } else if PathChar(b) && b == PERCENT {
        CountersAtPercent(value, pos, start, info, segments);
      } else if PathChar(b) {
        assert ParseLoop(value, pos, start, info, segments, PercentAware) == ParseLoop(value, pos + 1, start, info, segments, PercentAware);
        ParseLoopCounters(value, pos + 1, start, info, segments);
      }
    }
  }

  lemma {:induction false} CountersAtSlash(value: seq<byte>, pos: nat, start: nat, info: SegmentInfo, segments: seq<Segment>)
    requires start <= pos < |value| && info.index >= 1 && value[pos] == SLASH
    requires InfoMatches(info, segments)
    ensures CountersHold(value, pos, start, info, segments)
    decreases |value| - pos, 0
  {
    var r := NewSegment(value[start..pos], info, PercentAware);
    ParseLoopAtSlash(value, pos, start, info, segments, PercentAware);
    if r.1.index + 1 <= U16_MAX {
      NewSegmentCounters(value[start..pos], info, segments);
      ParseLoopCounters(value, pos + 1, pos + 1, r.1.(index := r.1.index + 1, normalized := true), segments + [r.0]);
    }
  }

  /** At a `/` the loop closes the segment and carries on after the slash, or stops at the length limit. */
  lemma ParseLoopAtSlash(value: seq<byte>, pos: nat, start: nat, info: SegmentInfo, segments: seq<Segment>, rule: DotRule)
    requires start <= pos < |value| && info.index >= 1 && value[pos] == SLASH
    ensures var r := NewSegment(value[start..pos], info, rule);
      ParseLoop(value, pos, start, info, segments, rule)
      == if r.1.index + 1 > U16_MAX then Failure(ExceededMaximumLength)
         else ParseLoop(value, pos + 1, pos + 1, r.1.(index := r.1.index + 1, normalized := true), segments + [r.0], rule)
  {
  }

  lemma {:induction false} CountersAtPercent(value: seq<byte>, pos: nat, start: nat, info: SegmentInfo, segments: seq<Segment>)
    requires start <= pos < |value| && info.index >= 1 && value[pos] == PERCENT
    requires InfoMatches(info, segments)
    ensures CountersHold(value, pos, start, info, segments)
    decreases |value| - pos, 0
  {
    var decoded := GetPercentEncodedValue(At(value, pos + 1), At(value, pos + 2));
    ParseLoopAtPercent(value, pos, start, info, segments, PercentAware);
    if decoded.Some? {
      var info' := if !decoded.value.1 || Unreserved(decoded.value.0) then info.(normalized := false) else info;
      ParseLoopCounters(value, pos + 3, start, info', segments);
    }
  }

  /** At a `%` the loop skips a valid escape, marking the segment unnormalized unless it is canonical, and fails on a bad one. */
  lemma ParseLoopAtPercent(value: seq<byte>, pos: nat, start: nat, info: SegmentInfo, segments: seq<Segment>, rule: DotRule)
    requires start <= pos < |value| && info.index >= 1 && value[pos] == PERCENT
    ensures var decoded := GetPercentEncodedValue(At(value, pos + 1), At(value, pos + 2));
      ParseLoop(value, pos, start, info, segments, rule)
      == if decoded.None? then Failure(InvalidPercentEncoding)
         else ParseLoop(value, pos + 3, start,
           if !decoded.value.1 || Unreserved(decoded.value.0) then info.(normalized := false) else info, segments, rule)
  {
  }

  /** The parse test cases of `src/uri_path.rs` whose outcome is an error. */
  lemma TryFromErrorExamples()
    // " " and "#" are invalid characters; "%", "%f" and "%zz" invalid escapes
    ensures PathTryFrom([0x20]) == Failure(InvalidCharacter)
    ensures PathTryFrom([HASH_SIGN]) == Failure(InvalidCharacter)
    ensures PathTryFrom([PERCENT]) == Failure(InvalidPercentEncoding)
    ensures PathTryFrom([PERCENT, 0x66]) == Failure(InvalidPercentEncoding)
    ensures PathTryFrom([PERCENT, 0x7A, 0x7A]) == Failure(InvalidPercentEncoding)
  {
  }

  /** 65535 slashes still parse (an absolute path of 65535 empty segments); 65536 do not. */
  lemma TryFromLengthLimit()
    ensures PathTryFrom(Repeat(65535, SLASH)).Success?
    ensures PathTryFrom(Repeat(65536, SLASH)) == Failure(ExceededMaximumLength)
  {
    assert Repeat(65535, SLASH)[1..] == Repeat(65534, SLASH);
    assert Repeat(65536, SLASH)[1..] == Repeat(65535, SLASH);
    SplitSeparators(65534, SLASH);
    SplitSeparators(65535, SLASH);
  }

  /** The lone empty segment a path starts from (and `push` replaces). */
  predicate IsLoneEmpty(segments: seq<Segment>) {
    |segments| == 1 && segments[0].bytes == []
  }

  /**
   * `Path::push`, with a choice of how the leading ".." count treats a push
   * that replaces the lone empty segment. As written, a ".." counts as leading
   * when the existing segments are all "..", judged by comparing the segment
   * count with the ".." count: a lone empty segment being replaced still counts
   * as a non-".." segment.
   */
  function PushWith(p: Path, segment: seq<byte>, replacementStartsOver: bool): Result<Path, PathError> {
    if |p.segments| % 65536 == U16_MAX then Failure(ExceededMaximumLength)
    else
      var seg :- SegmentTryFrom(segment);
      var replacing := !PercentEncodedEquality(seg.bytes, [], true) && IsLoneEmpty(p.segments);
      var single := if IsSingleDot(seg) then p.singleDotSegmentCount + 1 else p.singleDotSegmentCount;
      var preceding := if replacementStartsOver && replacing then 0 else |p.segments|;
      var leading :=
        if IsDoubleDot(seg) && preceding == p.doubleDotSegmentCount then p.leadingDoubleDotSegmentCount + 1
        else p.leadingDoubleDotSegmentCount;
      var double := if IsDoubleDot(seg) then p.doubleDotSegmentCount + 1 else p.doubleDotSegmentCount;
      var unnormalized := if !seg.normalized then p.unnormalizedCount + 1 else p.unnormalizedCount;
      Success(Path(p.absolute, double, leading, if replacing then [seg] else p.segments + [seg], single, unnormalized))
  }

  /** `Path::push` as the source writes it: fails on a full path or invalid segment bytes. */
  function PushAsWritten(p: Path, segment: seq<byte>): (r: Result<Path, PathError>)
    ensures r.Success? <==> |p.segments| % 65536 != U16_MAX && ValidSegmentBytes(segment)
    ensures r.Success? ==> r.value.segments == PushWith(p, segment, true).value.segments
  {
    PushWith(p, segment, false)
  }

  /**
   * `Path::push`, with the leading ".." count judged after the lone empty
   * segment is replaced. It fails on a full path or invalid bytes; otherwise
   * the segment is appended (replacing a lone empty segment), the path prints
   * as before plus `/` and the segment, and the counters stay accurate.
   */
  function Push(p: Path, segment: seq<byte>): (r: Result<Path, PathError>)
    ensures r.Success? <==> |p.segments| % 65536 != U16_MAX && ValidSegmentBytes(segment)
    ensures r.Failure? && |p.segments| % 65536 == U16_MAX ==> r.error == ExceededMaximumLength
    ensures r.Success? ==> r.value.absolute == p.absolute
    ensures r.Success? ==> |r.value.segments| > 0 && Last(r.value.segments).bytes == segment
    ensures r.Success? && |p.segments| > 0 ==>
      Display(r.value) == Display(p) + (if IsLoneEmpty(p.segments) && segment != [] then [] else [SLASH]) + segment
    ensures r.Success? && Consistent(p) ==> Consistent(r.value)
  {
    PushFacts(p, segment);
    PushWith(p, segment, true)
  }

  function Last<T>(s: seq<T>): T
    requires |s| > 0
  {
    s[|s| - 1]
  }

  lemma PushFacts(p: Path, segment: seq<byte>)
    ensures var r := PushWith(p, segment, true);
      && (r.Success? && |p.segments| > 0 ==>
            Display(r.value) == Display(p) + (if IsLoneEmpty(p.segments) && segment != [] then [] else [SLASH]) + segment)
      && (r.Success? && Consistent(p) ==> Consistent(r.value))
  {
    if PushWith(p, segment, true).Success? {
      if |p.segments| > 0 {
        PushDisplay(p, segment);
      }
      if Consistent(p) {
        PushConsistent(p, segment);
      }
    }
  }

  /** How `push` changes the printed path. */
  lemma PushDisplay(p: Path, segment: seq<byte>)
    requires PushWith(p, segment, true).Success? && |p.segments| > 0
    ensures var q := PushWith(p, segment, true).value;
      Display(q) == Display(p) + (if IsLoneEmpty(p.segments) && segment != [] then [] else [SLASH]) + segment
  {
    var q := PushWith(p, segment, true).value;
    var prefix: seq<byte> := if p.absolute then [SLASH] else [];
    if IsLoneEmpty(p.segments) && segment != [] {
      assert SegmentBytes(q.segments) == [segment];
      assert SegmentBytes(p.segments) == [[]];
    } else {
      assert SegmentBytes(q.segments) == SegmentBytes(p.segments) + [segment];
      JoinAppend(SegmentBytes(p.segments), segment, SLASH);
      ConcatAssociative(prefix, JoinWith(SegmentBytes(p.segments), SLASH) + [SLASH], segment);
      ConcatAssociative(prefix, JoinWith(SegmentBytes(p.segments), SLASH), [SLASH]);
    }
  }

  /** `push` keeps the counters accurate. */
  lemma PushConsistent(p: Path, segment: seq<byte>)
    requires PushWith(p, segment, true).Success? && Consistent(p)
    ensures Consistent(PushWith(p, segment, true).value)
  {
    if IsLoneEmpty(p.segments) && segment != [] {
      PushReplaceConsistent(p, segment);
    } else {
      PushAppendConsistent(p, segment);
    }
  }

  /** A segment replacing the lone empty one leaves accurate counters. */
  lemma PushReplaceConsistent(p: Path, segment: seq<byte>)
    requires PushWith(p, segment, true).Success? && Consistent(p)
    requires IsLoneEmpty(p.segments) && segment != []
    ensures Consistent(PushWith(p, segment, true).value)
  {
    var q := PushWith(p, segment, true).value;
    var seg := SegmentTryFrom(segment).value;
    assert p.segments[0] == Empty();
    assert q.segments == [] + [seg];
    CountAppend([], seg, IsSingleDot);
    CountAppend([], seg, IsDoubleDot);
    CountAppend([], seg, IsUnnormalized);
    LeadingAppend([], seg);
    assert !IsSingleDot(p.segments[0]) && !IsDoubleDot(p.segments[0]) by {
      EmptyIsNotDot();
    }
  }

  /** An appended segment leaves accurate counters. */
  lemma PushAppendConsistent(p: Path, segment: seq<byte>)
    requires PushWith(p, segment, true).Success? && Consistent(p)
    requires !(IsLoneEmpty(p.segments) && segment != [])
    ensures Consistent(PushWith(p, segment, true).value)
  {
    var q := PushWith(p, segment, true).value;
    var seg := SegmentTryFrom(segment).value;
    CountAppend(p.segments, seg, IsSingleDot);
    CountAppend(p.segments, seg, IsDoubleDot);
    CountAppend(p.segments, seg, IsUnnormalized);
    LeadingAppend(p.segments, seg);
    DoubleDotsAllLeading(p.segments);
    assert AllValid(q.segments) by {
      assert forall i :: 0 <= i < |p.segments| ==> q.segments[i] == p.segments[i];
    }
  }

  /** All segments are ".." exactly when the ".." count equals the segment count. */
  lemma {:induction false} DoubleDotsAllLeading(segments: seq<Segment>)
    ensures Count(segments, IsDoubleDot) == |segments| <==> LeadingDoubleDots(segments) == |segments|
  {
    if |segments| > 0 {
      DoubleDotsAllLeading(segments[1..]);
    }
  }

  /** `Path::pop`: removes the last segment, leaving a lone empty one if none remain; counters saturate at zero. */
  function Pop(p: Path): (r: Path)
    requires |p.segments| > 0
    ensures r.absolute == p.absolute && |r.segments| > 0
    ensures |p.segments| > 1 ==> r.segments == p.segments[..|p.segments| - 1]
    ensures |p.segments| == 1 ==> r.segments == [Empty()]
    ensures Consistent(p) ==> Consistent(r)
  {
    if Consistent(p) then PopConsistent(p); PopCounters(p) else PopCounters(p)
  }

  /** The counter updates of `Path::pop`. */
  function PopCounters(p: Path): Path
    requires |p.segments| > 0
  {
    var segment := Last(p.segments);
    var remaining := p.segments[..|p.segments| - 1];
    var single := if IsSingleDot(segment) then SaturatingDecrement(p.singleDotSegmentCount) else p.singleDotSegmentCount;
    var double := if IsDoubleDot(segment) then SaturatingDecrement(p.doubleDotSegmentCount) else p.doubleDotSegmentCount;
    var leading :=
      if IsDoubleDot(segment) && double < p.leadingDoubleDotSegmentCount then p.leadingDoubleDotSegmentCount - 1
      else p.leadingDoubleDotSegmentCount;
    var unnormalized := if !segment.normalized then SaturatingDecrement(p.unnormalizedCount) else p.unnormalizedCount;
    Path(p.absolute, double, leading, if |remaining| == 0 then [Empty()] else remaining, single, unnormalized)
  }

  /** `checked_sub(1).unwrap_or(0)`. */
  function SaturatingDecrement(n: nat): (r: nat)
    ensures r == if n == 0 then 0 else n - 1
  {
    if n == 0 then 0 else n - 1
  }

  /** The counter updates of `pop` keep accurate counters accurate. */
  lemma PopConsistent(p: Path)
    requires Consistent(p)
    ensures Consistent(PopCounters(p))
  {
    if |p.segments| == 1 {
      PopOnly(p);
    } else {
      PopOneOfMany(p);
    }
  }

  /** Popping the only segment leaves the lone empty segment with all counters zero. */
  lemma PopOnly(p: Path)
    requires Consistent(p) && |p.segments| == 1
    ensures var r := PopCounters(p);
      r.segments == [Empty()] && r.singleDotSegmentCount == 0 && r.doubleDotSegmentCount == 0
      && r.leadingDoubleDotSegmentCount == 0 && r.unnormalizedCount == 0
    ensures Consistent(PopCounters(p))
  {
    var segment := p.segments[0];
    assert p.segments[1..] == [];
    EmptyIsNotDot();
    assert Count([Empty()], IsSingleDot) == 0 by { assert [Empty()][1..] == []; }
    assert Count([Empty()], IsDoubleDot) == 0 by { assert [Empty()][1..] == []; }
    assert Count([Empty()], IsUnnormalized) == 0 by { assert [Empty()][1..] == []; }
  }

  /** Popping one of several segments takes exactly that segment out of each count. */
  lemma PopOneOfMany(p: Path)
    requires Consistent(p) && |p.segments| > 1
    ensures Consistent(PopCounters(p))
  {
    var segment := Last(p.segments);
    var remaining := p.segments[..|p.segments| - 1];
    var r := PopCounters(p);
    assert p.segments == remaining + [segment];
    assert r.segments == remaining;
    assert AllValid(r.segments);
    assert r.singleDotSegmentCount == Count(r.segments, IsSingleDot) by {
      CountAppend(remaining, segment, IsSingleDot);
    }
    assert r.doubleDotSegmentCount == Count(r.segments, IsDoubleDot) by {
      CountAppend(remaining, segment, IsDoubleDot);
    }
    assert r.unnormalizedCount == Count(r.segments, IsUnnormalized) by {
      CountAppend(remaining, segment, IsUnnormalized);
    }
    assert r.leadingDoubleDotSegmentCount == LeadingDoubleDots(r.segments) by {
      CountAppend(remaining, segment, IsDoubleDot);
      PopLeading(remaining, segment);
    }
  }

  /** Removing the last segment shortens the leading ".." run only when the run covered the whole path. */
  lemma PopLeading(remaining: seq<Segment>, segment: Segment)
    ensures var all := remaining + [segment];
      LeadingDoubleDots(remaining) ==
        if IsDoubleDot(segment) && Count(remaining, IsDoubleDot) < LeadingDoubleDots(all)
        then LeadingDoubleDots(all) - 1
        else LeadingDoubleDots(all)
  {
    LeadingAppend(remaining, segment);
    DoubleDotsLeading(remaining);
  }

  /** Popping what was just pushed gives back the original path. */
  lemma PopUndoesPush(p: Path, segment: seq<byte>)
    requires Consistent(p) && Push(p, segment).Success?
    ensures Pop(Push(p, segment).value) == p
  {
    if IsLoneEmpty(p.segments) && segment != [] {
      PopUndoesReplace(p, segment);
    } else {
      PopUndoesAppend(p, segment);
    }
  }

  /** Popping a segment that replaced the lone empty one brings the empty segment back. */
  lemma PopUndoesReplace(p: Path, segment: seq<byte>)
    requires Consistent(p) && Push(p, segment).Success?
    requires IsLoneEmpty(p.segments) && segment != []
    ensures Pop(Push(p, segment).value) == p
  {
    assert p.segments[0] == Empty();
    EmptyIsNotDot();
  }

  /** Popping an appended segment gives back the segments and counters before it. */
  lemma PopUndoesAppend(p: Path, segment: seq<byte>)
    requires Consistent(p) && Push(p, segment).Success?
    requires !(IsLoneEmpty(p.segments) && segment != [])
    ensures Pop(Push(p, segment).value) == p
  {
    var q := Push(p, segment).value;
    var seg := SegmentTryFrom(segment).value;
    assert q.segments[..|q.segments| - 1] == p.segments;
    CountAppend(p.segments, seg, IsDoubleDot);
    LeadingAppend(p.segments, seg);
    DoubleDotsLeading(p.segments);
    DoubleDotsAllLeading(p.segments);
  }

  /** `Path::clear` as the source writes it: the segments are reset, the counters are not. */
  function ClearAsWritten(p: Path): (r: Path)
    ensures r.segments == [Empty()] && r.absolute == p.absolute
    ensures r.singleDotSegmentCount == p.singleDotSegmentCount && r.doubleDotSegmentCount == p.doubleDotSegmentCount
  {
    p.(segments := [Empty()])
  }

  /** `Path::clear` with the counters reset alongside the segments: prints as just the leading `/`, if any. */
  function Clear(p: Path): (r: Path)
    ensures r.segments == [Empty()] && r.absolute == p.absolute
    ensures Display(r) == if p.absolute then [SLASH] else []
    ensures Consistent(r)
  {
    EmptyIsNotDot();
    Path(p.absolute, 0, 0, [Empty()], 0, 0)
  }

  /** `Path::is_normalized`, read from the counters. */
  predicate IsNormalized(p: Path, asReference: bool) {
    if p.unnormalizedCount != 0 then false
    else if p.absolute || !asReference then
      p.singleDotSegmentCount == 0 && p.doubleDotSegmentCount == 0
    else
      && (|| p.singleDotSegmentCount == 0
          || (&& p.singleDotSegmentCount == 1
              && |p.segments| > 0 && IsSingleDot(p.segments[0])
              && |p.segments| > 1
              && COLON in p.segments[1].bytes))
      && p.doubleDotSegmentCount == p.leadingDoubleDotSegmentCount
  }

  /**
   * What a normalized path looks like (the description of `Path::normalize`):
   * every segment normalized; no dot segment at all, unless the path is a
   * relative reference, where ".." may only lead the path and "." may only
   * come first, followed by a segment containing `:`.
   */
  predicate NormalizedShape(p: Path, asReference: bool) {
    && (forall i :: 0 <= i < |p.segments| ==> p.segments[i].normalized)
    && if p.absolute || !asReference then
         forall i :: 0 <= i < |p.segments| ==> !IsDot(p.segments[i])
       else
         && (forall i :: 0 <= i < |p.segments| && IsSingleDot(p.segments[i]) ==>
               i == 0 && |p.segments| > 1 && COLON in p.segments[1].bytes)
         && (forall i :: 0 <= i < |p.segments| && IsDoubleDot(p.segments[i]) ==> i < LeadingDoubleDots(p.segments))
  }

  /** On a path with accurate counters, the counter-based check means the described shape. */
  lemma IsNormalizedMeaning(p: Path, asReference: bool)
    requires Consistent(p)
    ensures IsNormalized(p, asReference) <==> NormalizedShape(p, asReference)
  {
    CountZero(p.segments, IsUnnormalized);
    CountZero(p.segments, IsSingleDot);
    CountZero(p.segments, IsDoubleDot);
    DoubleDotsLeading(p.segments);
    if IsSingleDot(p.segments[0]) {
      CountOneAtFront(p.segments, IsSingleDot);
    }
  }

  /** The path `Path::try_from("")` builds: relative, one empty segment, all counters zero. */
  function EmptyPath(): (p: Path)
    ensures Consistent(p) && Display(p) == []
  {
    EmptyIsNotDot();
    Path(false, 0, 0, [Empty()], 0, 0)
  }

  /**
   * As written, pushing ".." onto the empty path replaces its lone empty
   * segment, but the leading ".." count stays 0 because the replaced segment
   * still counts as a preceding non-".." segment; parsing ".." counts it as
   * leading. The corrected push keeps the counters accurate.
   */
  lemma PushDoubleDotOntoEmpty()
    ensures var q := PushAsWritten(EmptyPath(), [DOT, DOT]);
      && q.Success?
      && q.value.segments == [Segment(true, [DOT, DOT])]
      && q.value.leadingDoubleDotSegmentCount == 0
      && !Consistent(q.value)
    ensures var q := Push(EmptyPath(), [DOT, DOT]);
      && q.Success?
      && q.value.segments == [Segment(true, [DOT, DOT])]
      && q.value.leadingDoubleDotSegmentCount == 1
  {
    LiteralDots();
    DotSegmentsParse();
    var q := PushAsWritten(EmptyPath(), [DOT, DOT]).value;
    assert LeadingDoubleDots(q.segments) == 1 by {
      assert q.segments[1..] == [];
    }
  }

  /** As written, clearing the path "." leaves its single-dot count at 1 over a lone empty segment. */
  lemma ClearKeepsCounters()
    ensures var p := PathTryFrom([DOT]);
      && p.Success? && p.value.singleDotSegmentCount == 1
      && !Consistent(ClearAsWritten(p.value))
      && Consistent(Clear(p.value))
  {
    DotSegmentsParse();
    TryFromFacts([DOT]);
    assert SplitOn([DOT], SLASH) == [[DOT]] by {
      SplitSeparatorFree([DOT], SLASH);
    }
    assert AllValidBytes([[DOT]]);
    var p := PathTryFrom([DOT]).value;
    LiteralDots();
    EmptyIsNotDot();
    assert Count(p.segments, IsSingleDot) == 1 by {
      assert p.segments == [Segment(true, [DOT])] by {
        TryFromFacts([DOT]);
        assert SplitOn([DOT], SLASH) == [[DOT]] by {
          SplitSeparatorFree([DOT], SLASH);
        }
      }
      assert p.segments[1..] == [];
    }
    var c := ClearAsWritten(p);
    assert Count(c.segments, IsSingleDot) == 0 by {
      assert c.segments[1..] == [];
    }
  }

  /**
   * As written, a `clear` followed by pushing "." leaves one segment but a
   * single-dot count one above the count before: nothing bounds the counters.
   */
  lemma ClearThenPushGrows(p: Path)
    ensures var r := PushAsWritten(ClearAsWritten(p), [DOT]);
      && r.Success? && |r.value.segments| == 1
      && r.value.singleDotSegmentCount == p.singleDotSegmentCount + 1
  {
    DotSegmentsParse();
    LiteralDots();
  }

  /**
   * As written, parsing counts only the literal "." and ".." as dot segments,
   * although a dot segment is "." or ".." up to percent-encoding: "%2E" parses
   * to a single-dot segment with a single-dot count of 0.
   */
  lemma ParseMissesEncodedDot()
    ensures var p := TryFromAsWritten([PERCENT, 0x32, 0x45]);
      && p.Success? && |p.value.segments| == 1
      && IsSingleDot(p.value.segments[0])
      && p.value.singleDotSegmentCount == 0
      && !Consistent(p.value)
    ensures var p := PathTryFrom([PERCENT, 0x32, 0x45]);
      p.Success? && p.value.singleDotSegmentCount == 1
  {
    var value := [PERCENT, 0x32, 0x45];
    var info := InitialInfo(false);
    assert GetPercentEncodedValue(At(value, 1), At(value, 2)) == Some((0x2E, true));
    assert ParseLoop(value, 0, 0, info, [], Literal) == ParseLoop(value, 3, 0, info.(normalized := false), [], Literal);
    assert ValidSegmentBytes(value) by {
      assert ValidSegmentBytes(value[3..]);
    }
    TryFromFacts(value);
    assert SplitOn(value, SLASH) == [value] by {
      SplitSeparatorFree(value, SLASH);
    }
    var p := PathTryFrom(value).value;
    assert IsSingleDot(p.segments[0]) by {
      DotMeaning(p.segments[0].bytes);
    }
    assert Count(p.segments, IsSingleDot) == 1 by {
      assert p.segments[1..] == [];
    }
  }
}
