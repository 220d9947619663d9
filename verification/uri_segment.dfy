/**
 * A segment of the URI path component (`Segment` in `src/uri_path.rs`): its
 * character set (`pchar` of section 3.3 of RFC 3986), parsing, normalization,
 * percent-insensitive equality and hashing, and what counts as a dot segment.
 */
module UriSegment {
  import opened Wrappers
  import opened Bytes
  import opened UriUtility

  /** The non-zero entries of `PATH_CHAR_MAP`: unreserved, sub-delims, `:`, `@` and `%`. */
  predicate PathChar(b: byte) {
    || b == 0x21 || b == 0x24 || b == 0x25 || b == 0x26 || b == 0x27
    || b == 0x28 || b == 0x29 || b == 0x2A || b == 0x2B || b == 0x2C
    || b == 0x2D || b == 0x2E
    || 0x30 <= b <= 0x39 || b == COLON || b == 0x3B || b == 0x3D
    || 0x40 <= b <= 0x5A || b == 0x5F
    || 0x61 <= b <= 0x7A || b == 0x7E
  }

  /** Why a path or segment was rejected (`PathError`). */
  datatype PathError = ExceededMaximumLength | InvalidCharacter | InvalidPercentEncoding

  /** A segment's bytes and whether it is known to be normalized. */
  datatype Segment = Segment(normalized: bool, bytes: seq<byte>)

  /** `Segment::empty`. */
  function Empty(): (r: Segment)
    ensures r.bytes == [] && r.normalized
  {
    Segment(true, [])
  }

  /** Bytes a segment may consist of: path characters, with `%` only as a complete escape. */
  predicate ValidSegmentBytes(s: seq<byte>)
    ensures ValidSegmentBytes(s) ==> WellFormed(s)
    decreases |s|
  {
    if |s| == 0 then true
    else if s[0] == PERCENT then |s| >= 3 && IsHexDigit(s[1]) && IsHexDigit(s[2]) && ValidSegmentBytes(s[3..])
    else PathChar(s[0]) && ValidSegmentBytes(s[1..])
  }

  /** A segment that `Segment::try_from` could have built: valid bytes and an accurate flag. */
  predicate Valid(seg: Segment) {
    && ValidSegmentBytes(seg.bytes)
    && (seg.normalized <==> NormalizedEscapes(seg.bytes))
  }

  /** Valid segment bytes never hold a delimiter: `/`, `?` or `#`. */
  lemma {:induction false} ValidHasNoDelimiter(s: seq<byte>)
    requires ValidSegmentBytes(s)
    ensures SLASH !in s && QUESTION_MARK !in s && HASH_SIGN !in s
    decreases |s|
  {
    if |s| > 0 {
      if s[0] == PERCENT {
        ValidHasNoDelimiter(s[3..]);
        assert s == [s[0], s[1], s[2]] + s[3..];
      } else {
        ValidHasNoDelimiter(s[1..]);
        assert s == [s[0]] + s[1..];
      }
    }
  }

  /** A byte outside the path character set makes any byte string invalid as a segment. */
  lemma {:induction false} NonPathCharInvalid(s: seq<byte>, i: nat)
    requires i < |s| && !PathChar(s[i])
    ensures !ValidSegmentBytes(s)
    decreases |s|
  {
    if s[0] == PERCENT {
      if |s| >= 3 && i >= 3 {
        NonPathCharInvalid(s[3..], i - 3);
      }
    } else if i > 0 {
      NonPathCharInvalid(s[1..], i - 1);
    }
  }

  /** A single escape is valid, and normalized exactly when it encodes a reserved byte with uppercase digits. */
  lemma EscapeUnit(e: seq<byte>)
    requires |e| == 3 && e[0] == PERCENT && IsHexDigit(e[1]) && IsHexDigit(e[2])
    ensures ValidSegmentBytes(e)
    ensures NormalizedEscapes(e) <==>
      !Unreserved(EscapeValue(e[1], e[2])) && e[1] == ToAsciiUppercase(e[1]) && e[2] == ToAsciiUppercase(e[2])
  {
    assert e[3..] == [];
  }

  /** A complete valid prefix does not change whether the rest is valid. */
  lemma {:induction false} ValidConcat(a: seq<byte>, c: seq<byte>)
    requires ValidSegmentBytes(a)
    ensures ValidSegmentBytes(a + c) <==> ValidSegmentBytes(c)
    ensures ValidSegmentBytes(c) ==> NormalizedEscapes(a + c) == (NormalizedEscapes(a) && NormalizedEscapes(c))
    decreases |a|
  {
    if |a| > 0 {
      var n := if a[0] == PERCENT then 3 else 1;
      assert (a + c)[n..] == a[n..] + c;
      ValidConcat(a[n..], c);
    } else {
      assert a + c == c;
    }
  }

  /**
   * `Segment::try_from`'s scan from position `pos`: the first invalid byte or
   * escape ends it with an error; otherwise it reports whether every escape
   * is already normalized.
   */
  function ScanSegment(value: seq<byte>, pos: nat, normalized: bool): (r: Result<bool, PathError>)
    requires pos <= |value|
    ensures r.Success? <==> ValidSegmentBytes(value[pos..])
    ensures r.Success? ==> (r.value <==> normalized && NormalizedEscapes(value[pos..]))
    ensures r.Failure? ==> r.error != ExceededMaximumLength
    decreases |value| - pos
  {
    if pos == |value| then Success(normalized)
    else
      var b := value[pos];
      if !PathChar(b) then Failure(InvalidCharacter)
      else if b == PERCENT then
        match GetPercentEncodedValue(At(value, pos + 1), At(value, pos + 2))
        case Some((hexValue, uppercase)) =>
          assert value[pos..][3..] == value[pos + 3..];
          HexCaseInvariant(value[pos + 1]);
          HexCaseInvariant(value[pos + 2]);
          ScanSegment(value, pos + 3, if !uppercase || Unreserved(hexValue) then false else normalized)
        case None => Failure(InvalidPercentEncoding)
      else
        assert value[pos..][1..] == value[pos + 1..];
        ScanSegment(value, pos + 1, normalized)
  }

  /** `Segment::try_from`: succeeds exactly on valid bytes, with an accurate normalized flag. */
  function SegmentTryFrom(value: seq<byte>): (r: Result<Segment, PathError>)
    ensures r.Success? <==> ValidSegmentBytes(value)
    ensures r.Success? ==> r.value.bytes == value && Valid(r.value)
    ensures r.Failure? && PERCENT !in value ==> r.error == InvalidCharacter
    ensures r.Failure? && (forall i :: 0 <= i < |value| ==> PathChar(value[i])) ==> r.error == InvalidPercentEncoding
  {
    assert value[0..] == value;
    ScanErrorKind(value, 0, true);
    var normalized :- ScanSegment(value, 0, true);
    Success(Segment(normalized, value))
  }

  /** Which error a failing scan reports. */
  lemma {:induction false} ScanErrorKind(value: seq<byte>, pos: nat, normalized: bool)
    requires pos <= |value|
    ensures ScanSegment(value, pos, normalized).Failure? && (forall i :: pos <= i < |value| ==> value[i] != PERCENT) ==>
      ScanSegment(value, pos, normalized).error == InvalidCharacter
    ensures ScanSegment(value, pos, normalized).Failure? && (forall i :: pos <= i < |value| ==> PathChar(value[i])) ==>
      ScanSegment(value, pos, normalized).error == InvalidPercentEncoding
    decreases |value| - pos
  {
    if pos < |value| && PathChar(value[pos]) {
      if value[pos] == PERCENT {
        match GetPercentEncodedValue(At(value, pos + 1), At(value, pos + 2))
        case Some((hexValue, uppercase)) =>
          ScanErrorKind(value, pos + 3, if !uppercase || Unreserved(hexValue) then false else normalized);
        case None =>
      } else {
        ScanErrorKind(value, pos + 1, normalized);
      }
    }
  }

  /** The rejected test cases of `Segment::try_from` in `src/uri_path.rs`. */
  lemma SegmentTryFromExamples()
    // " " and "/" are invalid characters; "%", "%f" and "%zz" invalid escapes
    ensures SegmentTryFrom([0x20]) == Failure(InvalidCharacter)
    ensures SegmentTryFrom([SLASH]) == Failure(InvalidCharacter)
    ensures SegmentTryFrom([PERCENT]) == Failure(InvalidPercentEncoding)
    ensures SegmentTryFrom([PERCENT, 0x66]) == Failure(InvalidPercentEncoding)
    ensures SegmentTryFrom([PERCENT, 0x7A, 0x7A]) == Failure(InvalidPercentEncoding)
  {
  }

  /** The accepted test case of `Segment::try_from`: "%ff%41" parses and is not normalized. */
  lemma SegmentTryFromEscapes()
    ensures SegmentTryFrom([PERCENT, 0x66, 0x66, PERCENT, 0x34, 0x31]) == Success(Segment(false, [PERCENT, 0x66, 0x66, PERCENT, 0x34, 0x31]))
  {
    var s: seq<byte> := [PERCENT, 0x66, 0x66, PERCENT, 0x34, 0x31];
    assert ScanSegment(s, 6, false) == Success(false);
    assert ScanSegment(s, 3, false) == Success(false);
    assert ScanSegment(s, 0, true) == Success(false);
  }

  /** "." and ".." parse to normalized segments. */
  lemma DotSegmentsParse()
    ensures SegmentTryFrom([DOT]) == Success(Segment(true, [DOT]))
    ensures SegmentTryFrom([DOT, DOT]) == Success(Segment(true, [DOT, DOT]))
  {
    assert ScanSegment([DOT], 1, true) == Success(true);
    assert ScanSegment([DOT, DOT], 2, true) == Success(true);
    assert ScanSegment([DOT, DOT], 1, true) == Success(true);
  }

  /** `Segment::normalize`: rewrites the escapes unless the segment is already normalized. */
  function Normalize(seg: Segment): (r: Segment)
    requires Valid(seg)
    ensures Valid(r) && r.normalized
    ensures seg.normalized ==> r == seg
    ensures |r.bytes| <= |seg.bytes|
    ensures WellFormed(seg.bytes) && WellFormed(r.bytes) && Decoded(r.bytes) == Decoded(seg.bytes)
  {
    if seg.normalized then
      seg
    else
      var bytes := NormalizedForm(seg.bytes, true);
      NormalizedFormIsNormalized(seg.bytes, true);
      NormalizedFormKeepsDecoded(seg.bytes);
      NormalizedFormValid(seg.bytes);
      Segment(true, bytes)
  }

  /** Normalizing valid segment bytes keeps them valid. */
  lemma {:induction false} NormalizedFormValid(s: seq<byte>)
    requires ValidSegmentBytes(s) && WellFormed(s)
    ensures ValidSegmentBytes(NormalizedForm(s, true))
    decreases |s|
  {
    if |s| > 0 {
      if s[0] == PERCENT {
        NormalizedFormValid(s[3..]);
        var rest := NormalizedForm(s[3..], true);
        var v := EscapeValue(s[1], s[2]);
        if Unreserved(v) {
          assert ([v] + rest)[1..] == rest;
        } else {
          var e := [PERCENT, ToAsciiUppercase(s[1]), ToAsciiUppercase(s[2])];
          HexCaseInvariant(s[1]);
          HexCaseInvariant(s[2]);
          assert (e + rest)[3..] == rest;
        }
      } else {
        NormalizedFormValid(s[1..]);
        assert ([s[0]] + NormalizedForm(s[1..], true))[1..] == NormalizedForm(s[1..], true);
      }
    }
  }

  /** The test cases of `Segment::normalize`: "%ff" becomes "%FF" and "%41" becomes "A". */
  lemma NormalizeExamples()
    ensures var r := SegmentTryFrom([PERCENT, 0x66, 0x66]); r.Success? && Normalize(r.value).bytes == [PERCENT, 0x46, 0x46]
    ensures var r := SegmentTryFrom([PERCENT, 0x34, 0x31]); r.Success? && Normalize(r.value).bytes == [0x41]
  {
    assert ScanSegment([PERCENT, 0x66, 0x66], 0, true) == Success(false);
    assert ScanSegment([PERCENT, 0x34, 0x31], 0, true) == Success(false);
    assert NormalizedForm([PERCENT, 0x66, 0x66], true) == [PERCENT, 0x46, 0x46] + NormalizedForm([], true);
    assert NormalizedForm([PERCENT, 0x34, 0x31], true) == [0x41] + NormalizedForm([], true);
  }

  /**
   * Against a string of plain unreserved bytes, percent-insensitive equality is
   * equality of decoded bytes.
   */
  lemma {:induction false} EqualityWithPlainMeaning(s: seq<byte>, t: seq<byte>)
    requires WellFormed(s)
    requires forall i :: 0 <= i < |t| ==> Unreserved(t[i])
    ensures PercentEncodedEquality(s, t, true) <==> Decoded(s) == t
    decreases |s|
  {
    if |s| == 0 || |t| == 0 {
    } else if s[0] == PERCENT {
      assert t[0] != PERCENT;
      EqualityWithPlainMeaning(s[3..], t[1..]);
      assert t == [t[0]] + t[1..];
    } else {
      EqualityWithPlainMeaning(s[1..], t[1..]);
      assert t == [t[0]] + t[1..];
    }
  }

  /** `is_single_dot_segment` on raw bytes: equal to "." up to percent-encoding. */
  predicate IsSingleDotBytes(s: seq<byte>) {
    PercentEncodedEquality(s, [DOT], true)
  }

  /** `is_double_dot_segment` on raw bytes: equal to ".." up to percent-encoding. */
  predicate IsDoubleDotBytes(s: seq<byte>) {
    PercentEncodedEquality(s, [DOT, DOT], true)
  }

  predicate IsSingleDot(seg: Segment) {
    IsSingleDotBytes(seg.bytes)
  }

  predicate IsDoubleDot(seg: Segment) {
    IsDoubleDotBytes(seg.bytes)
  }

  /** `is_dot_segment`. */
  predicate IsDot(seg: Segment) {
    IsSingleDot(seg) || IsDoubleDot(seg)
  }

  /** A dot segment is one that decodes to "." or "..": "%2E" and "%2e" count as dots. */
  lemma DotMeaning(s: seq<byte>)
    requires WellFormed(s)
    ensures IsSingleDotBytes(s) <==> Decoded(s) == [DOT]
    ensures IsDoubleDotBytes(s) <==> Decoded(s) == [DOT, DOT]
  {
    EqualityWithPlainMeaning(s, [DOT]);
    EqualityWithPlainMeaning(s, [DOT, DOT]);
  }

  /** Normalizing a segment does not change whether it is a dot segment. */
  lemma NormalizeKeepsDots(seg: Segment)
    requires Valid(seg)
    ensures IsSingleDot(Normalize(seg)) <==> IsSingleDot(seg)
    ensures IsDoubleDot(Normalize(seg)) <==> IsDoubleDot(seg)
  {
    DotMeaning(seg.bytes);
    DotMeaning(Normalize(seg).bytes);
  }

  /** Normalizing a segment neither adds nor removes a `:`. */
  lemma NormalizeKeepsColon(seg: Segment)
    requires Valid(seg)
    ensures COLON in Normalize(seg).bytes <==> COLON in seg.bytes
  {
    PlainByteSurvives(seg.bytes, COLON);
  }

  /** A dot segment contains no `:`. */
  lemma DotHasNoColon(seg: Segment)
    requires Valid(seg) && IsDot(seg)
    ensures COLON !in seg.bytes
  {
    DotMeaning(seg.bytes);
    PlainByteSurvives(seg.bytes, COLON);
  }

  /** No segment is both a single and a double dot segment. */
  lemma DotsDisjoint(s: seq<byte>)
    requires WellFormed(s)
    ensures !(IsSingleDotBytes(s) && IsDoubleDotBytes(s))
  {
    DotMeaning(s);
  }

  /** The empty segment is not a dot segment. */
  lemma EmptyIsNotDot()
    ensures !IsDot(Empty())
  {
  }

  /** The literal "." and ".." are the dot segments they look like. */
  lemma LiteralDots()
    ensures IsSingleDotBytes([DOT]) && !IsDoubleDotBytes([DOT])
    ensures IsDoubleDotBytes([DOT, DOT]) && !IsSingleDotBytes([DOT, DOT])
  {
    DotMeaning([DOT]);
    DotMeaning([DOT, DOT]);
  }

  /** `Hash for Segment` agrees with `PartialEq for Segment`: equal segments hash alike. */
  lemma SegmentHashAgreesWithEq(a: Segment, b: Segment)
    requires Valid(a) && Valid(b)
    requires PercentEncodedEquality(a.bytes, b.bytes, true)
    ensures PercentEncodedHash(a.bytes, true) == PercentEncodedHash(b.bytes, true)
  {
    EqualityImpliesSameHash(a.bytes, b.bytes, true);
  }
}
