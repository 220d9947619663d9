/**
 * Percent-encoding helpers of the URI path component (`src/uri_path/utility.rs`):
 * hex-digit decoding, escape decoding, escape normalization (section 6.2.2.2 of
 * RFC 3986), and the percent-insensitive equality and hashing of byte strings.
 *
 * A byte string is read as a sequence of units: a plain byte, or an escape
 * `%` followed by two bytes.
 */
module UriUtility {
  import opened Wrappers
  import opened Bytes
  import opened Sequences

  /** The unreserved set of section 2.3 of RFC 3986 (`UNRESERVED_CHAR_MAP`). */
  predicate Unreserved(b: byte) {
    || b == 0x2D || b == 0x2E || b == 0x5F || b == 0x7E
    || 0x30 <= b <= 0x39
    || 0x41 <= b <= 0x5A
    || 0x61 <= b <= 0x7A
  }

  /** A decoded hex digit and whether it counts as uppercase (`0`-`9` do). */
  datatype HexDigit = HexDigit(value: nat, uppercase: bool)

  /** `hex_digit_to_decimal`: decodes one hex digit. */
  function HexDigitToDecimal(digit: byte): (r: Option<HexDigit>)
    ensures r.Some? ==> r.value.value < 16
    ensures r.Some? ==> digit == if r.value.uppercase then HexUpper(r.value.value) else HexLower(r.value.value)
    ensures r.Some? ==> (r.value.uppercase <==> !(0x61 <= digit <= 0x66))
    ensures r.None? <==> forall v :: 0 <= v < 16 ==> digit != HexUpper(v) && digit != HexLower(v)
  {
    if 0x41 <= digit <= 0x46 then Some(HexDigit(digit - 0x41 + 10, true))
    else if 0x61 <= digit <= 0x66 then Some(HexDigit(digit - 0x61 + 10, false))
    else if 0x30 <= digit <= 0x39 then Some(HexDigit(digit - 0x30, true))
    else None
  }

  predicate IsHexDigit(b: byte) {
    HexDigitToDecimal(b).Some?
  }

  /** The numeric value of a hex digit. */
  function HexValue(b: byte): (v: nat)
    requires IsHexDigit(b)
    ensures v < 16
  {
    HexDigitToDecimal(b).value.value
  }

  /** The byte an escape with digits `d1`, `d2` stands for. */
  function EscapeValue(d1: byte, d2: byte): byte
    requires IsHexDigit(d1) && IsHexDigit(d2)
  {
    HexValue(d1) * 16 + HexValue(d2)
  }

  /**
   * `get_percent_encoded_value`: decodes the two bytes after a `%`. Re-encoding
   * the decoded byte gives back the digits, uppercased.
   */
  function GetPercentEncodedValue(first: Option<byte>, second: Option<byte>): (r: Option<(byte, bool)>)
    ensures r.Some? <==> first.Some? && second.Some? && IsHexDigit(first.value) && IsHexDigit(second.value)
    ensures r.Some? ==>
      PercentEncodeByte(r.value.0) == [PERCENT, ToAsciiUppercase(first.value), ToAsciiUppercase(second.value)]
    ensures r.Some? ==>
      (r.value.1 <==> first.value == ToAsciiUppercase(first.value) && second.value == ToAsciiUppercase(second.value))
  {
    match (first, second)
    case (Some(f), Some(s)) =>
      var d1 :- HexDigitToDecimal(f);
      var d2 :- HexDigitToDecimal(s);
      Some((d1.value * 16 + d2.value, d1.uppercase && d2.uppercase))
    case _ => None
  }

  /** The canonical escape decodes to the byte it encodes, flagged uppercase. */
  lemma PercentEncodeByteDecodes(b: byte)
    ensures var e := PercentEncodeByte(b); GetPercentEncodedValue(Some(e[1]), Some(e[2])) == Some((b, true))
  {
    var e := PercentEncodeByte(b);
    assert HexDigitToDecimal(e[1]) == Some(HexDigit(b / 16, true));
    assert HexDigitToDecimal(e[2]) == Some(HexDigit(b % 16, true));
  }

  /** A decoded escape is the byte its digits stand for, flagged uppercase when both digits are. */
  lemma EscapeDecodes(d1: byte, d2: byte)
    requires GetPercentEncodedValue(Some(d1), Some(d2)).Some?
    ensures IsHexDigit(d1) && IsHexDigit(d2)
    ensures GetPercentEncodedValue(Some(d1), Some(d2)).value.0 == EscapeValue(d1, d2)
  {
  }

  /** The byte at position `i`, as an iterator's `next()` would yield it. */
  function At(s: seq<byte>, i: nat): (r: Option<byte>)
    ensures r.Some? <==> i < |s|
    ensures r.Some? ==> r.value == s[i]
  {
    if i < |s| then Some(s[i]) else None
  }

  /** Every `%` in `s` starts a complete escape: two hex digits follow it. */
  predicate WellFormed(s: seq<byte>)
    decreases |s|
  {
    if |s| == 0 then true
    else if s[0] == PERCENT then |s| >= 3 && IsHexDigit(s[1]) && IsHexDigit(s[2]) && WellFormed(s[3..])
    else WellFormed(s[1..])
  }

  /**
   * A normalized byte string in the sense of section 6.2.2.2 of RFC 3986:
   * no escape encodes an unreserved byte and no escape has a lowercase digit.
   */
  predicate NormalizedEscapes(s: seq<byte>)
    requires WellFormed(s)
    decreases |s|
  {
    if |s| == 0 then true
    else if s[0] == PERCENT then
      && !Unreserved(EscapeValue(s[1], s[2]))
      && s[1] == ToAsciiUppercase(s[1]) && s[2] == ToAsciiUppercase(s[2])
      && NormalizedEscapes(s[3..])
    else NormalizedEscapes(s[1..])
  }

  /** The bytes `s` stands for once every escape is decoded. */
  function Decoded(s: seq<byte>): seq<byte>
    requires WellFormed(s)
    decreases |s|
  {
    if |s| == 0 then []
    else if s[0] == PERCENT then [EscapeValue(s[1], s[2])] + Decoded(s[3..])
    else [s[0]] + Decoded(s[1..])
  }

  /**
   * Escape normalization as a unit-by-unit rewrite: an escape of an unreserved
   * byte becomes that byte, any other escape gets uppercase digits, and a plain
   * byte is kept (lowercased when `caseSensitive` is false).
   */
  function NormalizedForm(s: seq<byte>, caseSensitive: bool): (r: seq<byte>)
    requires WellFormed(s)
    ensures |r| <= |s|
    ensures WellFormed(r)
    decreases |s|
  {
    if |s| == 0 then []
    else if s[0] == PERCENT then
      var v := EscapeValue(s[1], s[2]);
      if Unreserved(v) then
        WellFormedCons(v, NormalizedForm(s[3..], caseSensitive));
        [v] + NormalizedForm(s[3..], caseSensitive)
      else
        HexCaseInvariant(s[1]);
        HexCaseInvariant(s[2]);
        WellFormedEscapeCons(ToAsciiUppercase(s[1]), ToAsciiUppercase(s[2]), NormalizedForm(s[3..], caseSensitive));
        [PERCENT, ToAsciiUppercase(s[1]), ToAsciiUppercase(s[2])] + NormalizedForm(s[3..], caseSensitive)
    else
      var b := if caseSensitive then s[0] else ToAsciiLowercase(s[0]);
      WellFormedCons(b, NormalizedForm(s[1..], caseSensitive));
      [b] + NormalizedForm(s[1..], caseSensitive)
  }

  /** A byte other than `%` in front of a well-formed string keeps it well-formed. */
  lemma WellFormedCons(b: byte, t: seq<byte>)
    requires b != PERCENT && WellFormed(t)
    ensures WellFormed([b] + t)
  {
    assert ([b] + t)[1..] == t;
  }

  /** A complete escape in front of a well-formed string keeps it well-formed. */
  lemma WellFormedEscapeCons(d1: byte, d2: byte, t: seq<byte>)
    requires IsHexDigit(d1) && IsHexDigit(d2) && WellFormed(t)
    ensures WellFormed([PERCENT, d1, d2] + t)
  {
    assert ([PERCENT, d1, d2] + t)[3..] == t;
  }

  /**
   * `normalize_string`: the in-place read/write loop. The write index never
   * passes the read index, so the result is never longer than the input; the
   * result is the unit-by-unit rewrite, hence normalized.
   */
  method NormalizeString(s: seq<byte>, caseSensitive: bool) returns (r: seq<byte>)
    requires WellFormed(s)
    ensures r == NormalizedForm(s, caseSensitive)
    ensures |r| <= |s|
    ensures WellFormed(r) && NormalizedEscapes(r)
  {
    var readIndex := 0;
    r := [];
    while readIndex < |s|
      invariant 0 <= readIndex <= |s|
      invariant WellFormed(s[readIndex..])
      invariant r + NormalizedForm(s[readIndex..], caseSensitive) == NormalizedForm(s, caseSensitive)
      invariant |r| <= readIndex
      decreases |s| - readIndex
    {
      var unit, n := ReadUnit(s, readIndex, caseSensitive);
      NormalizeLoopStep(s, readIndex, r, unit, n, caseSensitive);
      readIndex := readIndex + n;
      r := r + unit;
    }
    assert s[readIndex..] == [];
    NormalizedFormIsNormalized(s, caseSensitive);
  }

  /**
   * One pass of the loop body of `normalize_string`: the unit at `i` is read (a `%` with the
   * two digits after it, or one byte) and its rewrite is what gets written.
   */
  method ReadUnit(s: seq<byte>, i: nat, caseSensitive: bool) returns (unit: seq<byte>, n: nat)
    requires i < |s| && WellFormed(s[i..])
    ensures n == (if s[i] == PERCENT then 3 else 1) && i + n <= |s|
    ensures s[i] == PERCENT ==> IsHexDigit(s[i + 1]) && IsHexDigit(s[i + 2])
    ensures s[i] == PERCENT ==>
      unit == if Unreserved(EscapeValue(s[i + 1], s[i + 2])) then [EscapeValue(s[i + 1], s[i + 2])]
              else [PERCENT, ToAsciiUppercase(s[i + 1]), ToAsciiUppercase(s[i + 2])]
    ensures s[i] != PERCENT ==> unit == [if caseSensitive then s[i] else ToAsciiLowercase(s[i])]
  {
    var b := s[i];
    if b == PERCENT {
      assert s[i..][1] == s[i + 1] && s[i..][2] == s[i + 2];
      var first := At(s, i + 1);
      var second := At(s, i + 2);
      EscapeDecodes(s[i + 1], s[i + 2]);
      var hexValue := GetPercentEncodedValue(first, second).value.0;
      n := 3;
      if Unreserved(hexValue) {
        unit := [hexValue];
      } else {
        unit := [PERCENT, ToAsciiUppercase(first.value), ToAsciiUppercase(second.value)];
      }
    } else {
      n := 1;
      if !caseSensitive {
        unit := [ToAsciiLowercase(b)];
      } else {
        unit := [b];
      }
    }
  }

  /** Writing the rewrite of the unit at `i` keeps the loop invariant of `normalize_string`. */
  lemma NormalizeLoopStep(s: seq<byte>, i: nat, r: seq<byte>, unit: seq<byte>, n: nat, caseSensitive: bool)
    requires i < |s| && WellFormed(s[i..]) && WellFormed(s)
    requires r + NormalizedForm(s[i..], caseSensitive) == NormalizedForm(s, caseSensitive) && |r| <= i
    requires n == (if s[i] == PERCENT then 3 else 1)
    requires s[i] == PERCENT ==> IsHexDigit(s[i + 1]) && IsHexDigit(s[i + 2])
    requires s[i] == PERCENT ==>
      unit == if Unreserved(EscapeValue(s[i + 1], s[i + 2])) then [EscapeValue(s[i + 1], s[i + 2])]
              else [PERCENT, ToAsciiUppercase(s[i + 1]), ToAsciiUppercase(s[i + 2])]
    requires s[i] != PERCENT ==> unit == [if caseSensitive then s[i] else ToAsciiLowercase(s[i])]
    ensures i + n <= |s| && WellFormed(s[i + n..])
    ensures (r + unit) + NormalizedForm(s[i + n..], caseSensitive) == NormalizedForm(s, caseSensitive)
    ensures |r + unit| <= i + n
  {
    var rest := s[i..];
    NormalizedFormStep(rest, n, unit, caseSensitive);
    assert rest[n..] == s[i + n..];
    ConcatAssociative(r, unit, NormalizedForm(s[i + n..], caseSensitive));
  }

  /** One step of the rewrite: the first unit of `s` becomes `unit`. */
  lemma NormalizedFormStep(s: seq<byte>, n: nat, unit: seq<byte>, caseSensitive: bool)
    requires WellFormed(s) && 0 < |s|
    requires n == (if s[0] == PERCENT then 3 else 1)
    requires s[0] == PERCENT ==> (unit ==
      (if Unreserved(EscapeValue(s[1], s[2])) then [EscapeValue(s[1], s[2])]
       else [PERCENT, ToAsciiUppercase(s[1]), ToAsciiUppercase(s[2])]))
    requires s[0] != PERCENT ==> unit == [if caseSensitive then s[0] else ToAsciiLowercase(s[0])]
    ensures n <= |s| && WellFormed(s[n..]) && |unit| <= n
    ensures NormalizedForm(s, caseSensitive) == unit + NormalizedForm(s[n..], caseSensitive)
  {
  }

  /** A byte that is neither `%`, a hex digit nor unreserved: escapes neither produce nor hide it. */
  predicate PlainOnly(b: byte) {
    b != PERCENT && !IsHexDigit(b) && !Unreserved(b)
  }

  /**
   * Such a byte survives normalization exactly where it was, and decoding
   * keeps it (an escape such as "%3A" may decode to it as well).
   */
  lemma PlainByteSurvives(s: seq<byte>, b: byte)
    requires WellFormed(s) && PlainOnly(b)
    ensures b in NormalizedForm(s, true) <==> b in s
    ensures b in s ==> b in Decoded(s)
  {
    PlainByteSurvivesNormalization(s, b);
    PlainByteSurvivesDecoding(s, b);
  }

  lemma {:induction false} PlainByteSurvivesNormalization(s: seq<byte>, b: byte)
    requires WellFormed(s) && PlainOnly(b)
    ensures b in NormalizedForm(s, true) <==> b in s
    decreases |s|
  {
    if |s| > 0 {
      if s[0] == PERCENT {
        PlainByteSurvivesNormalization(s[3..], b);
        var v := EscapeValue(s[1], s[2]);
        HexCaseInvariant(s[1]);
        HexCaseInvariant(s[2]);
        var unit := if Unreserved(v) then [v] else [PERCENT, ToAsciiUppercase(s[1]), ToAsciiUppercase(s[2])];
        NormalizedFormStep(s, 3, unit, true);
        TakeDrop(s, 3);
        assert s[..3] == [s[0], s[1], s[2]];
      } else {
        PlainByteSurvivesNormalization(s[1..], b);
        NormalizedFormStep(s, 1, [s[0]], true);
        TakeDrop(s, 1);
        assert s[..1] == [s[0]];
      }
    }
  }

  lemma {:induction false} PlainByteSurvivesDecoding(s: seq<byte>, b: byte)
    requires WellFormed(s) && PlainOnly(b)
    ensures b in s ==> b in Decoded(s)
    decreases |s|
  {
    if |s| > 0 {
      if s[0] == PERCENT {
        PlainByteSurvivesDecoding(s[3..], b);
        assert s == [s[0], s[1], s[2]] + s[3..];
        assert Decoded(s) == [EscapeValue(s[1], s[2])] + Decoded(s[3..]);
      } else {
        PlainByteSurvivesDecoding(s[1..], b);
        assert s == [s[0]] + s[1..];
      }
    }
  }

  /** Escape normalization leaves no escape of an unreserved byte and no lowercase digit. */
  lemma {:induction false} NormalizedFormIsNormalized(s: seq<byte>, caseSensitive: bool)
    requires WellFormed(s)
    ensures NormalizedEscapes(NormalizedForm(s, caseSensitive))
    decreases |s|
  {
    if |s| == 0 {
    } else if s[0] == PERCENT {
      NormalizedFormIsNormalized(s[3..], caseSensitive);
      var rest := NormalizedForm(s[3..], caseSensitive);
      var v := EscapeValue(s[1], s[2]);
      if Unreserved(v) {
        assert ([v] + rest)[1..] == rest;
      } else {
        var e := [PERCENT, ToAsciiUppercase(s[1]), ToAsciiUppercase(s[2])];
        assert (e + rest)[3..] == rest;
        HexCaseInvariant(s[1]);
        HexCaseInvariant(s[2]);
        assert EscapeValue(e[1], e[2]) == v;
      }
    } else {
      NormalizedFormIsNormalized(s[1..], caseSensitive);
      var rest := NormalizedForm(s[1..], caseSensitive);
      var b := if caseSensitive then s[0] else ToAsciiLowercase(s[0]);
      assert ([b] + rest)[1..] == rest;
    }
  }

  /** Changing the case of a hex digit keeps it a hex digit with the same value. */
  lemma HexCaseInvariant(d: byte)
    requires IsHexDigit(d)
    ensures IsHexDigit(ToAsciiUppercase(d)) && HexValue(ToAsciiUppercase(d)) == HexValue(d)
    ensures IsHexDigit(ToAsciiLowercase(d)) && HexValue(ToAsciiLowercase(d)) == HexValue(d)
    ensures d != PERCENT
  {
  }

  /** Normalization keeps the decoded bytes (case-sensitive mode). */
  lemma {:induction false} NormalizedFormKeepsDecoded(s: seq<byte>)
    requires WellFormed(s)
    ensures Decoded(NormalizedForm(s, true)) == Decoded(s)
    decreases |s|
  {
    if |s| == 0 {
    } else if s[0] == PERCENT {
      NormalizedFormKeepsDecoded(s[3..]);
      var rest := NormalizedForm(s[3..], true);
      var v := EscapeValue(s[1], s[2]);
      if Unreserved(v) {
        assert ([v] + rest)[1..] == rest;
      } else {
        var e := [PERCENT, ToAsciiUppercase(s[1]), ToAsciiUppercase(s[2])];
        assert (e + rest)[3..] == rest;
        HexCaseInvariant(s[1]);
        HexCaseInvariant(s[2]);
      }
    } else {
      NormalizedFormKeepsDecoded(s[1..]);
      assert ([s[0]] + NormalizedForm(s[1..], true))[1..] == NormalizedForm(s[1..], true);
    }
  }

  /** An already normalized string is left unchanged (case-sensitive mode). */
  lemma {:induction false} NormalizedFormFixesNormalized(s: seq<byte>)
    requires WellFormed(s) && NormalizedEscapes(s)
    ensures NormalizedForm(s, true) == s
    decreases |s|
  {
    if |s| == 0 {
    } else if s[0] == PERCENT {
      NormalizedFormFixesNormalized(s[3..]);
      assert s == [PERCENT, s[1], s[2]] + s[3..];
    } else {
      NormalizedFormFixesNormalized(s[1..]);
      assert s == [s[0]] + s[1..];
    }
  }

  /** Normalizing twice is the same as normalizing once (case-sensitive mode). */
  lemma NormalizedFormIdempotent(s: seq<byte>)
    requires WellFormed(s)
    ensures NormalizedForm(NormalizedForm(s, true), true) == NormalizedForm(s, true)
  {
    NormalizedFormIsNormalized(s, true);
    NormalizedFormFixesNormalized(NormalizedForm(s, true));
  }

  /** `percent_encoded_equality_helper`: does the escape `%first second` stand for `b`? */
  predicate EqualityHelper(b: byte, first: Option<byte>, second: Option<byte>, caseSensitive: bool) {
    if !Unreserved(b) then false
    else
      match GetPercentEncodedValue(first, second)
      case Some((hexValue, _)) => if caseSensitive then hexValue == b else EqIgnoreAsciiCase(hexValue, b)
      case None => false
  }

  /**
   * `percent_encoded_equality`: the lock-step walk over both strings. When both
   * sides read `%`, the digits that follow are compared as ordinary bytes.
   */
  predicate PercentEncodedEquality(left: seq<byte>, right: seq<byte>, caseSensitive: bool)
    decreases |left| + |right|
  {
    if |left| == 0 || |right| == 0 then |left| == 0 && |right| == 0
    else if left[0] == PERCENT && right[0] == PERCENT then
      PercentEncodedEquality(left[1..], right[1..], caseSensitive)
    else if left[0] == PERCENT then
      && EqualityHelper(right[0], At(left, 1), At(left, 2), caseSensitive)
      && |left| >= 3
      && PercentEncodedEquality(left[3..], right[1..], caseSensitive)
    else if right[0] == PERCENT then
      && EqualityHelper(left[0], At(right, 1), At(right, 2), caseSensitive)
      && |right| >= 3
      && PercentEncodedEquality(left[1..], right[3..], caseSensitive)
    else
      && (if caseSensitive then left[0] == right[0] else EqIgnoreAsciiCase(left[0], right[0]))
      && PercentEncodedEquality(left[1..], right[1..], caseSensitive)
  }

  /** Percent-insensitive equality is reflexive. */
  lemma {:induction false} EqualityReflexive(s: seq<byte>, caseSensitive: bool)
    ensures PercentEncodedEquality(s, s, caseSensitive)
    decreases |s|
  {
    if |s| > 0 {
      EqualityReflexive(s[1..], caseSensitive);
    }
  }

  /** Percent-insensitive equality is symmetric. */
  lemma {:induction false} EqualitySymmetric(a: seq<byte>, b: seq<byte>, caseSensitive: bool)
    ensures PercentEncodedEquality(a, b, caseSensitive) == PercentEncodedEquality(b, a, caseSensitive)
    decreases |a| + |b|
  {
    if |a| == 0 || |b| == 0 {
    } else if a[0] == PERCENT && b[0] == PERCENT {
      EqualitySymmetric(a[1..], b[1..], caseSensitive);
    } else if a[0] == PERCENT {
      if |a| >= 3 {
        EqualitySymmetric(a[3..], b[1..], caseSensitive);
      }
    } else if b[0] == PERCENT {
      if |b| >= 3 {
        EqualitySymmetric(a[1..], b[3..], caseSensitive);
      }
    } else {
      EqualitySymmetric(a[1..], b[1..], caseSensitive);
    }
  }

  /** An unreserved byte equals any escape of it, whatever follows. */
  lemma UnreservedEqualsItsEscape(b: byte, d1: byte, d2: byte, rest: seq<byte>, caseSensitive: bool)
    requires Unreserved(b) && IsHexDigit(d1) && IsHexDigit(d2) && EscapeValue(d1, d2) == b
    ensures PercentEncodedEquality([b] + rest, [PERCENT, d1, d2] + rest, caseSensitive)
    ensures PercentEncodedEquality([PERCENT, d1, d2] + rest, [b] + rest, caseSensitive)
  {
    EqualityReflexive(rest, caseSensitive);
    assert ([b] + rest)[1..] == rest;
    assert ([PERCENT, d1, d2] + rest)[3..] == rest;
    EqualitySymmetric([b] + rest, [PERCENT, d1, d2] + rest, caseSensitive);
  }

  /** A reserved byte (other than `%`) never equals an escape, whatever follows either side. */
  lemma ReservedNeverEqualsEscape(b: byte, d1: byte, d2: byte, rest1: seq<byte>, rest2: seq<byte>, caseSensitive: bool)
    requires !Unreserved(b) && b != PERCENT
    ensures !PercentEncodedEquality([b] + rest1, [PERCENT, d1, d2] + rest2, caseSensitive)
  {
  }

  /**
   * The string with `A`-`Z` folded to `a`-`z`, the folding `eq_ignore_ascii_case` compares
   * under: no uppercase letter is left, each byte equals its original up to case, and every
   * byte that is not an uppercase letter is kept.
   */
  function LowercaseAll(s: seq<byte>): (r: seq<byte>)
    ensures |r| == |s|
    ensures forall i :: 0 <= i < |s| ==> !IsAsciiUpper(r[i]) && EqIgnoreAsciiCase(r[i], s[i])
    ensures forall i :: 0 <= i < |s| && !IsAsciiUpper(s[i]) ==> r[i] == s[i]
  {
    seq(|s|, i requires 0 <= i < |s| => ToAsciiLowercase(s[i]))
  }

  /**
   * Without escapes, case-sensitive equality is byte equality and
   * case-insensitive equality is equality after lowercasing.
   */
  lemma {:induction false} EscapeFreeEquality(a: seq<byte>, b: seq<byte>)
    requires PERCENT !in a && PERCENT !in b
    ensures PercentEncodedEquality(a, b, true) <==> a == b
    ensures PercentEncodedEquality(a, b, false) <==> LowercaseAll(a) == LowercaseAll(b)
    decreases |a|
  {
    if |a| == 0 || |b| == 0 {
    } else {
      assert a[0] in a && b[0] in b;
      EscapeFreeEquality(a[1..], b[1..]);
      SameHeadAndTail(a, b);
      SameHeadAndTail(LowercaseAll(a), LowercaseAll(b));
      assert LowercaseAll(a)[1..] == LowercaseAll(a[1..]) && LowercaseAll(b)[1..] == LowercaseAll(b[1..]);
    }
  }

  /** Two non-empty sequences are equal exactly when their heads and their tails are. */
  lemma SameHeadAndTail(a: seq<byte>, b: seq<byte>)
    requires |a| > 0 && |b| > 0
    ensures a == b <==> a[0] == b[0] && a[1..] == b[1..]
  {
    if a[0] == b[0] && a[1..] == b[1..] {
      assert a == [a[0]] + a[1..] && b == [b[0]] + b[1..];
    }
  }

  /** One value handed to the hasher. */
  datatype HashInput = HashByte(b: byte) | HashLength(n: nat)

  /** The values hashed for the units of `s`, in order. */
  function HashUnits(s: seq<byte>, caseSensitive: bool): seq<HashInput>
    requires WellFormed(s)
    decreases |s|
  {
    if |s| == 0 then []
    else if s[0] == PERCENT then
      var v := EscapeValue(s[1], s[2]);
      var hashed :=
        if !Unreserved(v) then [HashByte(PERCENT), HashByte(ToAsciiUppercase(s[1])), HashByte(ToAsciiUppercase(s[2]))]
        else if caseSensitive then [HashByte(v)]
        else [HashByte(ToAsciiLowercase(v))];
      hashed + HashUnits(s[3..], caseSensitive)
    else
      [HashByte(if caseSensitive then s[0] else ToAsciiLowercase(s[0]))] + HashUnits(s[1..], caseSensitive)
  }

  /** The number of units of `s`, the `length` counter of the hash loop. */
  function UnitCount(s: seq<byte>): nat
    requires WellFormed(s)
    decreases |s|
  {
    if |s| == 0 then 0
    else if s[0] == PERCENT then 1 + UnitCount(s[3..])
    else 1 + UnitCount(s[1..])
  }

  /**
   * `percent_encoded_hash`: the stream of values fed to the hasher. It ends with the unit count,
   * which is at most the byte count; without escapes it is each byte (lowercased when
   * case-insensitive) and then the byte count.
   */
  function PercentEncodedHash(s: seq<byte>, caseSensitive: bool): (r: seq<HashInput>)
    requires WellFormed(s)
    ensures |r| > 0 && r[|r| - 1] == HashLength(UnitCount(s)) && UnitCount(s) <= |s|
    ensures PERCENT !in s ==> r == PlainHash(s, caseSensitive) + [HashLength(|s|)]
  {
    UnitCountBound(s);
    EscapeFreeHash(s, caseSensitive);
    HashUnits(s, caseSensitive) + [HashLength(UnitCount(s))]
  }

  /** The values hashed for a string without escapes: each byte, lowercased when case-insensitive. */
  function PlainHash(s: seq<byte>, caseSensitive: bool): seq<HashInput> {
    seq(|s|, i requires 0 <= i < |s| => HashByte(if caseSensitive then s[i] else ToAsciiLowercase(s[i])))
  }

  /** Each unit takes at least one byte. */
  lemma {:induction false} UnitCountBound(s: seq<byte>)
    requires WellFormed(s)
    ensures UnitCount(s) <= |s|
    decreases |s|
  {
    if |s| > 0 {
      if s[0] == PERCENT {
        UnitCountBound(s[3..]);
      } else {
        UnitCountBound(s[1..]);
      }
    }
  }

  /** Without escapes, every byte is a unit hashed as itself, up to case. */
  lemma {:induction false} EscapeFreeHash(s: seq<byte>, caseSensitive: bool)
    requires WellFormed(s)
    ensures PERCENT !in s ==> HashUnits(s, caseSensitive) == PlainHash(s, caseSensitive) && UnitCount(s) == |s|
    decreases |s|
  {
    if |s| > 0 && PERCENT !in s {
      assert s[0] in s;
      assert PERCENT !in s[1..] by {
        assert forall i :: 0 <= i < |s[1..]| ==> s[1..][i] == s[i + 1];
      }
      EscapeFreeHash(s[1..], caseSensitive);
      assert PlainHash(s, caseSensitive) == [PlainHash(s, caseSensitive)[0]] + PlainHash(s[1..], caseSensitive);
    }
  }

  /** Two digits equal up to case have the same value and the same uppercase form. */
  lemma DigitsEqualUpToCase(d: byte, e: byte)
    requires IsHexDigit(d) && IsHexDigit(e) && EqIgnoreAsciiCase(d, e)
    ensures HexValue(d) == HexValue(e)
    ensures ToAsciiUppercase(d) == ToAsciiUppercase(e)
  {
  }

  /** A byte equal up to case to an unreserved byte is itself unreserved. */
  lemma UnreservedUpToCase(v: byte, b: byte)
    requires Unreserved(b) && EqIgnoreAsciiCase(v, b)
    ensures Unreserved(v)
  {
  }

  /**
   * Strings that percent-insensitive equality equates feed the hasher the
   * same values, so equal segments hash alike.
   */
  lemma {:induction false} EqualityImpliesSameHash(a: seq<byte>, b: seq<byte>, caseSensitive: bool)
    requires WellFormed(a) && WellFormed(b)
    requires PercentEncodedEquality(a, b, caseSensitive)
    ensures HashUnits(a, caseSensitive) == HashUnits(b, caseSensitive)
    ensures UnitCount(a) == UnitCount(b)
    ensures PercentEncodedHash(a, caseSensitive) == PercentEncodedHash(b, caseSensitive)
    decreases |a| + |b|
  {
    if |a| == 0 || |b| == 0 {
    } else if a[0] == PERCENT && b[0] == PERCENT {
      BothEscapesHash(a, b, caseSensitive);
      EqualityImpliesSameHash(a[3..], b[3..], caseSensitive);
    } else if a[0] == PERCENT {
      EqualityImpliesSameHash(a[3..], b[1..], caseSensitive);
      EscapeHashesAsByte(a, b[0], caseSensitive);
    } else if b[0] == PERCENT {
      EqualityImpliesSameHash(a[1..], b[3..], caseSensitive);
      EscapeHashesAsByte(b, a[0], caseSensitive);
    } else {
      EqualityImpliesSameHash(a[1..], b[1..], caseSensitive);
    }
  }

  /** Two equal strings that both open with an escape: the digits agree and so do the rests. */
  lemma BothEscapesHash(a: seq<byte>, b: seq<byte>, caseSensitive: bool)
    requires WellFormed(a) && WellFormed(b) && |a| > 0 && |b| > 0 && a[0] == PERCENT && b[0] == PERCENT
    requires PercentEncodedEquality(a, b, caseSensitive)
    ensures PercentEncodedEquality(a[3..], b[3..], caseSensitive)
    ensures HashUnits(a[3..], caseSensitive) == HashUnits(b[3..], caseSensitive) ==>
      HashUnits(a, caseSensitive) == HashUnits(b, caseSensitive)
  {
    BothEscapesDigits(a, b, caseSensitive);
    if !caseSensitive {
      DigitsEqualUpToCase(a[1], b[1]);
      DigitsEqualUpToCase(a[2], b[2]);
    }
    assert EscapeValue(a[1], a[2]) == EscapeValue(b[1], b[2]);
    assert ToAsciiUppercase(a[1]) == ToAsciiUppercase(b[1]) && ToAsciiUppercase(a[2]) == ToAsciiUppercase(b[2]);
    EscapeHashes(a, caseSensitive);
    EscapeHashes(b, caseSensitive);
  }

  /** The digits after both `%` are compared as plain bytes, one at a time, then the rests. */
  lemma BothEscapesDigits(a: seq<byte>, b: seq<byte>, caseSensitive: bool)
    requires WellFormed(a) && WellFormed(b) && |a| > 0 && |b| > 0 && a[0] == PERCENT && b[0] == PERCENT
    requires PercentEncodedEquality(a, b, caseSensitive)
    ensures PercentEncodedEquality(a[3..], b[3..], caseSensitive)
    ensures if caseSensitive then a[1] == b[1] && a[2] == b[2] else EqIgnoreAsciiCase(a[1], b[1]) && EqIgnoreAsciiCase(a[2], b[2])
  {
    assert a[1] != PERCENT && b[1] != PERCENT && a[2] != PERCENT && b[2] != PERCENT;
    assert PercentEncodedEquality(a[1..], b[1..], caseSensitive);
    assert a[1..][1..] == a[2..] && b[1..][1..] == b[2..];
    assert PercentEncodedEquality(a[2..], b[2..], caseSensitive);
    assert a[2..][1..] == a[3..] && b[2..][1..] == b[3..];
  }

  /** An escape hashes as a function of its value and uppercased digits, then the rest. */
  lemma EscapeHashes(a: seq<byte>, caseSensitive: bool)
    requires WellFormed(a) && |a| > 0 && a[0] == PERCENT
    ensures var v := EscapeValue(a[1], a[2]);
      HashUnits(a, caseSensitive) ==
        (if !Unreserved(v) then [HashByte(PERCENT), HashByte(ToAsciiUppercase(a[1])), HashByte(ToAsciiUppercase(a[2]))]
         else if caseSensitive then [HashByte(v)]
         else [HashByte(ToAsciiLowercase(v))]) + HashUnits(a[3..], caseSensitive)
  {
  }

  /** An escape that equality matches with the byte `x` hashes as `x` would. */
  lemma EscapeHashesAsByte(e: seq<byte>, x: byte, caseSensitive: bool)
    requires WellFormed(e) && |e| >= 3 && e[0] == PERCENT
    requires EqualityHelper(x, At(e, 1), At(e, 2), caseSensitive)
    ensures HashUnits(e, caseSensitive)
      == [HashByte(if caseSensitive then x else ToAsciiLowercase(x))] + HashUnits(e[3..], caseSensitive)
  {
    if !caseSensitive {
      UnreservedUpToCase(EscapeValue(e[1], e[2]), x);
    }
  }

  /** Escapes of unreserved bytes match the bytes themselves (tests of utility.rs). */
  lemma EscapeEqualityExamples()
    // "abc" == "%61bc" and "MNO" == "%4DNO" with case; "MNO" == "%4dNO" without
    ensures PercentEncodedEquality([0x61, 0x62, 0x63], [0x25, 0x36, 0x31, 0x62, 0x63], true)
    ensures PercentEncodedEquality([0x4D, 0x4E, 0x4F], [0x25, 0x34, 0x44, 0x4E, 0x4F], true)
    ensures PercentEncodedEquality([0x4D, 0x4E, 0x4F], [0x25, 0x34, 0x64, 0x4E, 0x4F], false)
  {
    EscapeExample(0x61, 0x36, 0x31, [0x62, 0x63], true);
    EscapeExample(0x4D, 0x34, 0x44, [0x4E, 0x4F], true);
    EscapeExample(0x4D, 0x34, 0x64, [0x4E, 0x4F], false);
  }

  /** One example of an unreserved byte matching its escape, written out as byte literals. */
  lemma EscapeExample(b: byte, d1: byte, d2: byte, rest: seq<byte>, caseSensitive: bool)
    requires Unreserved(b) && IsHexDigit(d1) && IsHexDigit(d2) && EscapeValue(d1, d2) == b && |rest| == 2
    ensures PercentEncodedEquality([b, rest[0], rest[1]], [PERCENT, d1, d2, rest[0], rest[1]], caseSensitive)
  {
    assert [b, rest[0], rest[1]] == [b] + rest && [PERCENT, d1, d2, rest[0], rest[1]] == [PERCENT, d1, d2] + rest;
    UnreservedEqualsItsEscape(b, d1, d2, rest, caseSensitive);
  }

  /** Case matters only in case-sensitive mode (tests of utility.rs). */
  lemma CaseEqualityExamples()
    // "abc" vs "Abc", "ABC" and "%41bc"
    ensures !PercentEncodedEquality([0x61, 0x62, 0x63], [0x41, 0x62, 0x63], true)
    ensures PercentEncodedEquality([0x61, 0x62, 0x63], [0x41, 0x42, 0x43], false)
    ensures !PercentEncodedEquality([0x61, 0x62, 0x63], [0x25, 0x34, 0x31, 0x62, 0x63], true)
    ensures PercentEncodedEquality([0x61, 0x62, 0x63], [0x25, 0x34, 0x31, 0x62, 0x63], false)
  {
    CaseExamplesPlain();
    CaseExamplesEscaped();
  }

  /** "abc" against "Abc" and "ABC". */
  lemma CaseExamplesPlain()
    ensures !PercentEncodedEquality([0x61, 0x62, 0x63], [0x41, 0x62, 0x63], true)
    ensures PercentEncodedEquality([0x61, 0x62, 0x63], [0x41, 0x42, 0x43], false)
  {
    EscapeFreeEquality([0x61, 0x62, 0x63], [0x41, 0x62, 0x63]);
    EscapeFreeEquality([0x61, 0x62, 0x63], [0x41, 0x42, 0x43]);
    assert LowercaseAll([0x41, 0x42, 0x43]) == [0x61, 0x62, 0x63];
    assert LowercaseAll([0x61, 0x62, 0x63]) == [0x61, 0x62, 0x63];
  }

  /** "abc" against "%41bc": the escape of `A` matches `a` only without case. */
  lemma CaseExamplesEscaped()
    ensures !PercentEncodedEquality([0x61, 0x62, 0x63], [0x25, 0x34, 0x31, 0x62, 0x63], true)
    ensures PercentEncodedEquality([0x61, 0x62, 0x63], [0x25, 0x34, 0x31, 0x62, 0x63], false)
  {
    var abc: seq<byte> := [0x61, 0x62, 0x63];
    var bc: seq<byte> := [0x62, 0x63];
    var escaped: seq<byte> := [0x25, 0x34, 0x31, 0x62, 0x63];
    assert abc[1..] == bc && escaped[3..] == bc;
    EqualityReflexive(bc, false);
  }

  /** "/" never equals "%2F": the slash is reserved (tests of utility.rs). */
  lemma ReservedEqualityExample(caseSensitive: bool)
    ensures !PercentEncodedEquality([0x2F], [0x25, 0x32, 0x46], caseSensitive)
  {
    var empty: seq<byte> := [];
    assert [0x2F] == [0x2F as byte] + empty && [0x25, 0x32, 0x46] == [PERCENT, 0x32, 0x46] + empty;
    ReservedNeverEqualsEscape(0x2F, 0x32, 0x46, empty, empty, caseSensitive);
  }
}
