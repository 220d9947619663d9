/**
 * Text operations on UTF-8 byte strings: Rust's `String`/`&str` are modelled by the bytes of
 * their UTF-8 encoding. This covers decimal printing (`u32::to_string`), UTF-8 well-formedness
 * and character counting, `split` on a string pattern, `strip_suffix`, `trim`,
 * `trim_start_matches` and `BufRead::lines`.
 */
module Text {
  import opened Wrappers
  import opened Bytes
  import opened Sequences

  const LF: byte := 0x0A
  const CR: byte := 0x0D
  const SPACE: byte := 0x20
  const EQUALS: byte := 0x3D

  predicate IsDigit(b: byte) {
    0x30 <= b <= 0x39
  }

  /** The decimal digits of `n`, as Rust's `to_string` prints an unsigned integer. */
  function Decimal(n: nat): (r: seq<byte>)
    ensures |r| > 0 && forall i :: 0 <= i < |r| ==> IsDigit(r[i])
    ensures r[0] == 0x30 ==> n == 0 && |r| == 1
    decreases n
  {
    if n < 10 then [0x30 + n] else Decimal(n / 10) + [0x30 + n % 10]
  }

  /** The value of a string of decimal digits (most significant first). */
  function DecimalValue(s: seq<byte>): nat
    requires forall i :: 0 <= i < |s| ==> IsDigit(s[i])
    decreases |s|
  {
    if |s| == 0 then 0
    else
      var d := s[|s| - 1];
      assert IsDigit(d);
      DecimalValue(s[..|s| - 1]) * 10 + (d - 0x30)
  }

  /** Reading back a printed number gives the number. */
  lemma {:induction false} DecimalRoundTrip(n: nat)
    ensures DecimalValue(Decimal(n)) == n
    decreases n
  {
    if n >= 10 {
      DecimalRoundTrip(n / 10);
      var d := Decimal(n);
      assert d[..|d| - 1] == Decimal(n / 10);
    }
  }

  /** Different numbers are written differently. */
  lemma DecimalInjective(m: nat, n: nat)
    requires Decimal(m) == Decimal(n)
    ensures m == n
  {
    DecimalRoundTrip(m);
    DecimalRoundTrip(n);
  }

  // ---------------------------------------------------------------------------------------
  // UTF-8 (section 3.9, table 3-7 of the Unicode Standard: well-formed byte sequences)
  // ---------------------------------------------------------------------------------------

  predicate IsContinuation(b: byte) {
    0x80 <= b <= 0xBF
  }

  /**
   * The length of the well-formed UTF-8 sequence at the start of `s`, or 0 when `s` does not
   * start with one (empty input, a stray continuation byte, a truncated sequence, an overlong
   * form, a surrogate or a value above U+10FFFF).
   */
  function CharLen(s: seq<byte>): (k: nat)
    ensures k <= 4 && k <= |s|
    ensures k > 0 ==> forall i :: 1 <= i < k ==> IsContinuation(s[i])
  {
    if |s| == 0 then 0
    else
      var b := s[0];
      if b < 0x80 then 1
      else if 0xC2 <= b <= 0xDF then
        if |s| >= 2 && IsContinuation(s[1]) then 2 else 0
      else if 0xE0 <= b <= 0xEF then
        var lo := if b == 0xE0 then 0xA0 else 0x80;
        var hi := if b == 0xED then 0x9F else 0xBF;
        if |s| >= 3 && lo <= s[1] <= hi && IsContinuation(s[2]) then 3 else 0
      else if 0xF0 <= b <= 0xF4 then
        var lo := if b == 0xF0 then 0x90 else 0x80;
        var hi := if b == 0xF4 then 0x8F else 0xBF;
        if |s| >= 4 && lo <= s[1] <= hi && IsContinuation(s[2]) && IsContinuation(s[3]) then 4 else 0
      else 0
  }

  /** `s` is a sequence of well-formed UTF-8 characters: the bytes of some Rust `String`. */
  predicate ValidUtf8(s: seq<byte>)
    decreases |s|
  {
    |s| == 0 || (CharLen(s) > 0 && ValidUtf8(s[CharLen(s)..]))
  }

  /** A Rust `String`, as the bytes of its UTF-8 encoding. */
  type Text = s: seq<byte> | ValidUtf8(s) witness []

  predicate AllAscii(s: seq<byte>) {
    forall i :: 0 <= i < |s| ==> s[i] < 0x80
  }

  /** The number of characters of a well-formed string (`chars().count()`). */
  function CharCount(s: seq<byte>): nat
    requires ValidUtf8(s)
    decreases |s|
  {
    if |s| == 0 then 0 else 1 + CharCount(s[CharLen(s)..])
  }

  /** The string without its first `n` characters (`chars().skip(n).collect()`). */
  function DropChars(s: seq<byte>, n: nat): (r: seq<byte>)
    requires ValidUtf8(s)
    ensures ValidUtf8(r) && |r| <= |s| && r == s[|s| - |r|..]
    decreases |s|
  {
    if n == 0 || |s| == 0 then s else DropChars(s[CharLen(s)..], n - 1)
  }

  /** A character wholly inside the front of a string is measured the same after appending. */
  lemma CharLenPrefix(a: seq<byte>, b: seq<byte>)
    requires CharLen(a) > 0
    ensures CharLen(a + b) == CharLen(a)
    ensures (a + b)[CharLen(a)..] == a[CharLen(a)..] + b
  {
    var ab := a + b;
    assert ab[0] == a[0];
    if |a| >= 2 { assert ab[1] == a[1]; }
    if |a| >= 3 { assert ab[2] == a[2]; }
    if |a| >= 4 { assert ab[3] == a[3]; }
  }

  /** Concatenating two strings gives a string. */
  lemma {:induction false} ConcatValid(a: seq<byte>, b: seq<byte>)
    requires ValidUtf8(a) && ValidUtf8(b)
    ensures ValidUtf8(a + b)
    decreases |a|
  {
    if |a| == 0 {
      assert a + b == b;
    } else {
      CharLenPrefix(a, b);
      ConcatValid(a[CharLen(a)..], b);
    }
  }

  /** Skipping as many characters as a prefix string holds leaves exactly the rest. */
  lemma {:induction false} DropCharsOfPrefix(a: seq<byte>, b: seq<byte>)
    requires ValidUtf8(a) && ValidUtf8(b)
    ensures ValidUtf8(a + b)
    ensures DropChars(a + b, CharCount(a)) == b
    decreases |a|
  {
    ConcatValid(a, b);
    if |a| == 0 {
      assert a + b == b;
    } else {
      CharLenPrefix(a, b);
      DropCharsOfPrefix(a[CharLen(a)..], b);
    }
  }

  /** ASCII text is well-formed UTF-8, one character per byte. */
  lemma {:induction false} AsciiValid(s: seq<byte>)
    requires AllAscii(s)
    ensures ValidUtf8(s) && CharCount(s) == |s|
    decreases |s|
  {
    if |s| > 0 {
      assert CharLen(s) == 1;
      AsciiValid(s[1..]);
    }
  }

  // ---------------------------------------------------------------------------------------
  // Splitting on a multi-byte pattern (`str::split(&str)`), `strip_suffix`
  // ---------------------------------------------------------------------------------------

  /** `p` occurs in `s` at offset `i`. */
  predicate OccursAt(s: seq<byte>, p: seq<byte>, i: nat) {
    i + |p| <= |s| && s[i..i + |p|] == p
  }

  /** A piece laid between others occurs right after everything before it. */
  lemma OccursBetween(a: seq<byte>, b: seq<byte>, c: seq<byte>, p: seq<byte>, d: seq<byte>)
    ensures OccursAt(a + (b + (c + p + d)), p, |a| + |b| + |c|)
  {
    var s := a + (b + (c + p + d));
    var n := |a| + |b| + |c|;
    forall k | 0 <= k < |p| ensures s[n + k] == p[k] {
      assert (c + p + d)[|c| + k] == p[k];
    }
    assert s[n..n + |p|] == p;
  }

  /** The offset of the leftmost occurrence of `p` in `s`. */
  function FindFirst(s: seq<byte>, p: seq<byte>): (r: Option<nat>)
    ensures r.Some? ==> OccursAt(s, p, r.value) && forall j :: 0 <= j < r.value ==> !OccursAt(s, p, j)
    ensures r.None? ==> forall j :: 0 <= j <= |s| ==> !OccursAt(s, p, j)
    decreases |s|
  {
    if |s| < |p| then None
    else if s[..|p|] == p then Some(0)
    else
      match FindFirst(s[1..], p)
      case None =>
        assert forall j :: 1 <= j <= |s| ==> OccursAt(s, p, j) ==> OccursAt(s[1..], p, j - 1);
        None
      case Some(i) =>
        assert forall j :: 1 <= j <= i ==> OccursAt(s, p, j) ==> OccursAt(s[1..], p, j - 1);
        assert s[1..][i..i + |p|] == s[i + 1..i + 1 + |p|];
        Some(i + 1)
  }

  /** The pieces between the non-overlapping leftmost occurrences of `sep` (`s.split(sep)`). */
  function SplitOnPattern(s: seq<byte>, sep: seq<byte>): (parts: seq<seq<byte>>)
    requires |sep| > 0
    ensures |parts| > 0
    ensures forall k :: 0 <= k < |parts| ==> FindFirst(parts[k], sep).None?
    decreases |s|
  {
    match FindFirst(s, sep)
    case None => [s]
    case Some(i) =>
      var head := s[..i];
      assert FindFirst(head, sep).None? by {
        forall j | 0 <= j <= |head| ensures !OccursAt(head, sep, j) {
          if j + |sep| <= |head| {
            assert head[j..j + |sep|] == s[j..j + |sep|];
            assert !OccursAt(s, sep, j);
          }
        }
      }
      [head] + SplitOnPattern(s[i + |sep|..], sep)
  }

  /** Concatenates `parts` with `sep` between neighbours (`join`). */
  function JoinPattern(parts: seq<seq<byte>>, sep: seq<byte>): seq<byte>
    decreases |parts|
  {
    if |parts| == 0 then []
    else if |parts| == 1 then parts[0]
    else parts[0] + sep + JoinPattern(parts[1..], sep)
  }

  /** Joining the pieces of a split gives back the split string. */
  lemma {:induction false} JoinSplitPattern(s: seq<byte>, sep: seq<byte>)
    requires |sep| > 0
    ensures JoinPattern(SplitOnPattern(s, sep), sep) == s
    decreases |s|
  {
    match FindFirst(s, sep)
    case None =>
    case Some(i) =>
      var rest := s[i + |sep|..];
      JoinSplitPattern(rest, sep);
      JoinCons(s[..i], SplitOnPattern(rest, sep), sep);
      Around(s, i, |sep|);
  }

  /** Joining a leading part in front of a non-empty list puts one separator after it. */
  lemma JoinCons(head: seq<byte>, rest: seq<seq<byte>>, sep: seq<byte>)
    requires |rest| > 0
    ensures JoinPattern([head] + rest, sep) == head + sep + JoinPattern(rest, sep)
  {
    assert ([head] + rest)[1..] == rest;
  }

  /** `s` without the suffix `suf`, when it ends with it (`strip_suffix`). */
  function StripSuffix(s: seq<byte>, suf: seq<byte>): (r: Option<seq<byte>>)
    ensures r.Some? <==> |suf| <= |s| && s[|s| - |suf|..] == suf
    ensures r.Some? ==> r.value + suf == s
  {
    if |suf| <= |s| && s[|s| - |suf|..] == suf then Some(s[..|s| - |suf|]) else None
  }

  // ---------------------------------------------------------------------------------------
  // Trimming
  // ---------------------------------------------------------------------------------------

  /** ASCII white space as `char::is_whitespace` classifies it (tab, LF, VT, FF, CR, space). */
  predicate IsWhitespace(b: byte) {
    0x09 <= b <= 0x0D || b == SPACE
  }

  /** The two-byte UTF-8 encodings of white space: U+0085 and U+00A0. */
  predicate IsSpace2(b0: byte, b1: byte) {
    b0 == 0xC2 && (b1 == 0x85 || b1 == 0xA0)
  }

  /**
   * The three-byte UTF-8 encodings of white space: U+1680, U+2000 to U+200A, U+2028, U+2029,
   * U+202F, U+205F and U+3000.
   */
  predicate IsSpace3(b0: byte, b1: byte, b2: byte) {
    || (b0 == 0xE1 && b1 == 0x9A && b2 == 0x80)
    || (b0 == 0xE2 && b1 == 0x80 && (0x80 <= b2 <= 0x8A || b2 == 0xA8 || b2 == 0xA9 || b2 == 0xAF))
    || (b0 == 0xE2 && b1 == 0x81 && b2 == 0x9F)
    || (b0 == 0xE3 && b1 == 0x80 && b2 == 0x80)
  }

  /**
   * The length of the white-space character `s` starts with, or 0 when it starts with none:
   * the characters with the Unicode White_Space property, which `char::is_whitespace` accepts.
   */
  function StartSpace(s: seq<byte>): (k: nat)
    ensures k <= 3 && k <= |s|
    ensures k == 1 <==> |s| >= 1 && IsWhitespace(s[0])
  {
    if |s| >= 1 && IsWhitespace(s[0]) then 1
    else if |s| >= 2 && IsSpace2(s[0], s[1]) then 2
    else if |s| >= 3 && IsSpace3(s[0], s[1], s[2]) then 3
    else 0
  }

  /** The length of the white-space character `s` ends with, or 0 when it ends with none. */
  function EndSpace(s: seq<byte>): (k: nat)
    ensures k <= 3 && k <= |s|
    ensures k == 1 <==> |s| >= 1 && IsWhitespace(s[|s| - 1])
  {
    var n := |s|;
    if n >= 1 && IsWhitespace(s[n - 1]) then 1
    else if n >= 2 && IsSpace2(s[n - 2], s[n - 1]) then 2
    else if n >= 3 && IsSpace3(s[n - 3], s[n - 2], s[n - 1]) then 3
    else 0
  }

  /** `c` is exactly one white-space character. */
  predicate IsSpaceChar(c: seq<byte>) {
    |c| > 0 && StartSpace(c) == |c|
  }

  /** The character `s` ends with, when it is white space, is one white-space character. */
  lemma EndSpaceChar(s: seq<byte>)
    requires EndSpace(s) > 0
    ensures IsSpaceChar(s[|s| - EndSpace(s)..])
  {
    var c := s[|s| - EndSpace(s)..];
    assert forall j :: 0 <= j < |c| ==> c[j] == s[|s| - |c| + j];
  }

  /** `s` is a run of white-space characters. */
  predicate AllSpace(s: seq<byte>)
    decreases |s|
  {
    |s| == 0 || (StartSpace(s) > 0 && AllSpace(s[StartSpace(s)..]))
  }

  /** A leading white-space character followed by a run of white space is a run. */
  lemma AllSpacePrefix(s: seq<byte>, n: nat)
    requires 0 < StartSpace(s) <= n <= |s|
    requires AllSpace(s[StartSpace(s)..][..n - StartSpace(s)])
    ensures AllSpace(s[..n])
  {
    var k := StartSpace(s);
    assert forall j :: 0 <= j < k ==> s[..n][j] == s[j];
    assert s[..n][k..] == s[k..][..n - k];
  }

  /** A string's first character is measured the same after appending. */
  lemma StartSpaceAppend(a: seq<byte>, b: seq<byte>)
    requires StartSpace(a) > 0
    ensures StartSpace(a + b) == StartSpace(a)
    ensures (a + b)[StartSpace(a)..] == a[StartSpace(a)..] + b
  {
    assert forall j :: 0 <= j < StartSpace(a) ==> (a + b)[j] == a[j];
  }

  /** A white-space character alone is a run of white space. */
  lemma SpaceCharAllSpace(c: seq<byte>)
    requires IsSpaceChar(c)
    ensures AllSpace(c)
  {
    assert c[StartSpace(c)..] == [];
  }

  /** A run of white space followed by one more white-space character is a run. */
  lemma {:induction false} AllSpaceSnoc(a: seq<byte>, c: seq<byte>)
    requires AllSpace(a) && IsSpaceChar(c)
    ensures AllSpace(a + c)
    decreases |a|
  {
    if |a| == 0 {
      assert a + c == c;
      SpaceCharAllSpace(c);
    } else {
      StartSpaceAppend(a, c);
      AllSpaceSnoc(a[StartSpace(a)..], c);
    }
  }

  /** `trim_start`: `s` without its leading white-space characters. */
  function TrimStart(s: seq<byte>): (r: seq<byte>)
    ensures |r| <= |s| && r == s[|s| - |r|..]
    ensures StartSpace(r) == 0
    ensures AllSpace(s[..|s| - |r|])
    decreases |s|
  {
    var k := StartSpace(s);
    if k > 0 then
      var r := TrimStart(s[k..]);
      AllSpacePrefix(s, |s| - |r|);
      r
    else
      assert s[..0] == [];
      s
  }

  /** `trim_end`: `s` without its trailing white-space characters. */
  function TrimEnd(s: seq<byte>): (r: seq<byte>)
    ensures |r| <= |s| && r == s[..|r|]
    ensures EndSpace(r) == 0
    ensures AllSpace(s[|r|..])
    decreases |s|
  {
    var k := EndSpace(s);
    if k > 0 then
      var t := s[..|s| - k];
      var r := TrimEnd(t);
      assert s[|r|..] == t[|r|..] + s[|s| - k..];
      EndSpaceChar(s);
      AllSpaceSnoc(t[|r|..], s[|s| - k..]);
      r
    else
      assert s[|s|..] == [];
      s
  }

  /** A prefix of a string that starts with no white space starts with none either. */
  lemma StartSpacePrefix(t: seq<byte>, n: nat)
    requires n <= |t| && StartSpace(t) == 0
    ensures StartSpace(t[..n]) == 0
  {
    assert forall j :: 0 <= j < n ==> t[..n][j] == t[j];
  }

  /** `str::trim`: `s` without its leading and trailing white-space characters. */
  function Trim(s: seq<byte>): (r: seq<byte>)
    ensures StartSpace(r) == 0 && EndSpace(r) == 0
  {
    var t := TrimStart(s);
    var r := TrimEnd(t);
    StartSpacePrefix(t, |r|);
    r
  }

  /** A non-empty trimmed string ends in a byte that is not white space. */
  lemma TrimmedEnd(v: seq<byte>)
    requires Trim(v) == v && |v| > 0
    ensures !IsWhitespace(v[|v| - 1]) && v[|v| - 1] != CR
  {
    assert EndSpace(v) == 0;
  }

  /** The trimmed text is a piece of the original with only white space around it. */
  lemma TrimSurroundedBySpace(s: seq<byte>)
    ensures exists i, j :: 0 <= i <= j <= |s| && AllSpace(s[..i]) && Trim(s) == s[i..j] && AllSpace(s[j..])
  {
    var t := TrimStart(s);
    var r := TrimEnd(t);
    assert Trim(s) == r;
    SliceOfSlice(s, t, r);
    assert AllSpace(s[..|s| - |t|]);
    assert AllSpace(t[|r|..]);
    assert AllSpace(s[|s| - |t| + |r|..]);
  }

  /** Where a prefix `r` of a suffix `t` of `s` lies in `s`. */
  lemma SliceOfSlice(s: seq<byte>, t: seq<byte>, r: seq<byte>)
    requires |t| <= |s| && t == s[|s| - |t|..] && |r| <= |t| && r == t[..|r|]
    ensures s[|s| - |t|..|s| - |t| + |r|] == r && s[|s| - |t| + |r|..] == t[|r|..]
    ensures AllSpace(t[|r|..]) ==> AllSpace(s[|s| - |t| + |r|..])
  {
    assert s[|s| - |t| + |r|..] == t[|r|..];
  }

  /** Text that starts and ends with no white space is its own trim. */
  lemma TrimTrimmed(s: seq<byte>)
    requires StartSpace(s) == 0 && EndSpace(s) == 0
    ensures Trim(s) == s
  {
  }

  /** Trimming twice trims no more than trimming once. */
  lemma TrimIdempotent(s: seq<byte>)
    ensures Trim(Trim(s)) == Trim(s)
  {
    TrimTrimmed(Trim(s));
  }

  /** ASCII text whose end bytes are not white space has no white space to trim. */
  lemma AsciiTrimmed(s: seq<byte>)
    requires |s| > 0 && AllAscii(s) && !IsWhitespace(s[0]) && !IsWhitespace(s[|s| - 1])
    ensures Trim(s) == s
  {
    assert s[0] < 0x80 && s[|s| - 1] < 0x80;
    if |s| >= 2 {
      assert s[|s| - 2] < 0x80;
    }
    if |s| >= 3 {
      assert s[|s| - 3] < 0x80;
    }
    TrimTrimmed(s);
  }

  /** A no-break space and an ideographic space around a word are trimmed, not only ASCII blanks. */
  lemma TrimUnicodeSpaces()
    ensures Trim([0xC2, 0xA0, 0x61, 0xE3, 0x80, 0x80]) == [0x61]
  {
    var s: seq<byte> := [0xC2, 0xA0, 0x61, 0xE3, 0x80, 0x80];
    assert StartSpace(s) == 2;
    var t := s[2..];
    assert t == [0x61, 0xE3, 0x80, 0x80];
    assert StartSpace(t) == 0;
    assert TrimStart(s) == t;
    assert EndSpace(t) == 3;
    assert t[..1] == [0x61];
    assert EndSpace([0x61]) == 0;
  }

  /** `trim_start_matches(b)`: `s` without its leading run of `b`. */
  function TrimStartMatches(s: seq<byte>, b: byte): (r: seq<byte>)
    ensures |r| <= |s| && r == s[|s| - |r|..]
    ensures |r| > 0 ==> r[0] != b
    ensures forall i :: 0 <= i < |s| - |r| ==> s[i] == b
    decreases |s|
  {
    if |s| > 0 && s[0] == b then TrimStartMatches(s[1..], b) else s
  }

  // ---------------------------------------------------------------------------------------
  // Lines (`BufRead::lines`)
  // ---------------------------------------------------------------------------------------

  /** A line as `lines` yields it when it was terminated by `\n`: one trailing `\r` dropped. */
  function DropCr(line: seq<byte>): (r: seq<byte>)
    ensures r == line || r + [CR] == line
  {
    if |line| > 0 && line[|line| - 1] == CR then line[..|line| - 1] else line
  }

  /**
   * The lines of `s`: the text between `\n` terminators, a final unterminated piece only when
   * it is non-empty, and a `\r` before a `\n` removed.
   */
  function Lines(s: seq<byte>): (r: seq<seq<byte>>)
    ensures forall k :: 0 <= k < |r| ==> LF !in r[k]
  {
    var parts := SplitOn(s, LF);
    var terminated := parts[..|parts| - 1];
    var last := parts[|parts| - 1];
    var body := seq(|terminated|, k requires 0 <= k < |terminated| => DropCr(terminated[k]));
    assert forall k :: 0 <= k < |body| ==> LF !in body[k] by {
      forall k | 0 <= k < |body| ensures LF !in body[k] {
        assert LF !in parts[k];
      }
    }
    if |last| == 0 then body else body + [last]
  }

  /** Writing lines each followed by `\n` and reading them back gives the same lines. */
  lemma {:induction false} LinesOfTerminated(lines: seq<seq<byte>>)
    requires forall k :: 0 <= k < |lines| ==> LF !in lines[k]
    requires forall k :: 0 <= k < |lines| ==> |lines[k]| == 0 || lines[k][|lines[k]| - 1] != CR
    ensures Lines(Terminated(lines)) == lines
  {
    var parts := lines + [[]];
    assert forall k :: 0 <= k < |parts| ==> LF !in parts[k];
    SplitJoin(parts, LF);
    TerminatedIsJoin(lines);
    assert parts[..|parts| - 1] == lines;
  }

  /** Every line followed by `\n`. */
  function Terminated(lines: seq<seq<byte>>): (r: seq<byte>)
    decreases |lines|
  {
    if |lines| == 0 then [] else lines[0] + [LF] + Terminated(lines[1..])
  }

  lemma {:induction false} TerminatedIsJoin(lines: seq<seq<byte>>)
    ensures Terminated(lines) == JoinWith(lines + [[]], LF)
    decreases |lines|
  {
    if |lines| > 0 {
      TerminatedIsJoin(lines[1..]);
      assert (lines + [[]])[1..] == lines[1..] + [[]];
    }
  }
}
