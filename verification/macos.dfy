/**
 * The macOS back end: AppleScript quoting of paths (`esc_quote`), text for paths that are not
 * UTF-8 (`percent_encode`), the context's delete and script methods with their dispatch, the
 * Finder scripts that name the paths, and the trash items built from what Finder or
 * `NSFileManager` report back. Running `osascript`, OSAKit and `NSFileManager` are parameters.
 */
module MacOs {
  import opened Wrappers
  import opened Bytes
  import opened Text
  import opened FsPaths
  import opened Trash

  const QUOTE: byte := 0x22
  const BACKSLASH: byte := 0x5C
  const TAB: byte := 0x09

  // ---------------------------------------------------------------------------------------
  // esc_quote and AppleScript string literals
  // ---------------------------------------------------------------------------------------

  predicate NeedsEscape(b: byte) {
    b == QUOTE || b == BACKSLASH
  }

  /** Every `"` and `\` preceded by a `\`; every other byte kept, in order. */
  function EscapeEach(s: seq<byte>): seq<byte>
    decreases |s|
  {
    if |s| == 0 then []
    else (if NeedsEscape(s[0]) then [BACKSLASH, s[0]] else [s[0]]) + EscapeEach(s[1..])
  }

  /** With nothing to escape, escaping changes nothing. */
  lemma {:induction false} EscapeEachPlain(s: seq<byte>)
    requires forall i :: 0 <= i < |s| ==> !NeedsEscape(s[i])
    ensures EscapeEach(s) == s
    decreases |s|
  {
    if |s| > 0 {
      EscapeEachPlain(s[1..]);
      assert [s[0]] + s[1..] == s;
    }
  }

  /**
   * `esc_quote`: the input itself when it holds neither `"` nor `\`, and otherwise the input with
   * each of them escaped. Both ways the result is the escaped input.
   */
  function EscQuote(s: seq<byte>): (r: seq<byte>)
    ensures r == EscapeEach(s)
    ensures (forall i :: 0 <= i < |s| ==> !NeedsEscape(s[i])) ==> r == s
  {
    if QUOTE in s || BACKSLASH in s then EscapeEach(s)
    else
      EscapeEachPlain(s);
      s
  }

  /** The character that AppleScript's escape `\c` stands for inside a string literal. */
  function EscapedChar(c: byte): Option<byte> {
    if c == QUOTE || c == BACKSLASH then Some(c)
    else if c == 0x6E then Some(LF)
    else if c == 0x72 then Some(CR)
    else if c == 0x74 then Some(TAB)
    else None
  }

  /**
   * Reads an AppleScript string literal whose opening `"` is already consumed: the text up to
   * the first unescaped `"`, and what follows that quote.
   */
  function ReadLiteral(t: seq<byte>): (r: Option<(seq<byte>, seq<byte>)>)
    ensures r.Some? ==> |r.value.1| < |t|
    decreases |t|
  {
    if |t| == 0 then None
    else if t[0] == QUOTE then Some(([], t[1..]))
    else if t[0] == BACKSLASH then
      if |t| < 2 || EscapedChar(t[1]).None? then None
      else
        match ReadLiteral(t[2..])
        case None => None
        case Some((text, rest)) => Some(([EscapedChar(t[1]).value] + text, rest))
    else
      match ReadLiteral(t[1..])
      case None => None
      case Some((text, rest)) => Some(([t[0]] + text, rest))
  }

  lemma {:induction false} LiteralRoundTripEach(s: seq<byte>, rest: seq<byte>)
    ensures ReadLiteral(EscapeEach(s) + [QUOTE] + rest) == Some((s, rest))
    decreases |s|
  {
    var t := EscapeEach(s) + [QUOTE] + rest;
    if |s| == 0 {
      assert t == [QUOTE] + rest;
    } else {
      LiteralRoundTripEach(s[1..], rest);
      var tail := EscapeEach(s[1..]) + [QUOTE] + rest;
      if NeedsEscape(s[0]) {
        assert t == [BACKSLASH, s[0]] + tail;
        assert t[2..] == tail;
      } else {
        assert t == [s[0]] + tail;
        assert t[1..] == tail;
      }
      assert [s[0]] + s[1..] == s;
    }
  }

  /**
   * A quoted text closes exactly where `esc_quote` meant it to: AppleScript reads back the
   * original text, and the script goes on right after the closing quote.
   */
  lemma LiteralRoundTrip(s: seq<byte>, rest: seq<byte>)
    ensures ReadLiteral(EscQuote(s) + [QUOTE] + rest) == Some((s, rest))
  {
    LiteralRoundTripEach(s, rest);
  }

  // ---------------------------------------------------------------------------------------
  // percent_encode
  // ---------------------------------------------------------------------------------------

  /** The well-formed character at the front of a byte string is a string by itself. */
  lemma CharLenTake(s: seq<byte>)
    requires CharLen(s) > 0
    ensures CharLen(s[..CharLen(s)]) == CharLen(s)
    ensures ValidUtf8(s[..CharLen(s)])
  {
    var k := CharLen(s);
    var c := s[..k];
    assert c[0] == s[0];
    if k >= 2 { assert c[1] == s[1]; }
    if k >= 3 { assert c[2] == s[2]; }
    if k >= 4 { assert c[3] == s[3]; }
    assert c[k..] == [];
  }

  lemma EscapeIsText(b: byte)
    ensures ValidUtf8(PercentEncodeByte(b))
  {
    AsciiValid(PercentEncodeByte(b));
  }

  /**
   * Each byte that does not belong to a well-formed UTF-8 character replaced by `%XX`, all
   * other bytes kept. Rust's `utf8_chunks` groups the bad bytes differently (a truncated
   * sequence is one chunk), but every bad byte is escaped alone, and a byte inside such a chunk
   * never starts a character, so the result is the same.
   */
  function EncodeInvalid(s: seq<byte>): (r: seq<byte>)
    ensures |r| >= |s|
    decreases |s|
  {
    if |s| == 0 then []
    else if CharLen(s) > 0 then s[..CharLen(s)] + EncodeInvalid(s[CharLen(s)..])
    else PercentEncodeByte(s[0]) + EncodeInvalid(s[1..])
  }

  /** The encoding is always a string. */
  lemma {:induction false} EncodeInvalidIsText(s: seq<byte>)
    ensures ValidUtf8(EncodeInvalid(s))
    decreases |s|
  {
    if |s| > 0 {
      if CharLen(s) > 0 {
        var k := CharLen(s);
        EncodeInvalidIsText(s[k..]);
        CharLenTake(s);
        ConcatValid(s[..k], EncodeInvalid(s[k..]));
      } else {
        EncodeInvalidIsText(s[1..]);
        EscapeIsText(s[0]);
        ConcatValid(PercentEncodeByte(s[0]), EncodeInvalid(s[1..]));
      }
    }
  }

  /** Well-formed text has nothing to escape. */
  lemma {:induction false} EncodeValid(s: seq<byte>)
    requires ValidUtf8(s)
    ensures EncodeInvalid(s) == s
    decreases |s|
  {
    if |s| > 0 {
      var k := CharLen(s);
      assert k > 0 && ValidUtf8(s[k..]);
      EncodeValid(s[k..]);
      EncodeCharStep(s);
      Sequences.TakeDrop(s, k);
    }
  }

  /**
   * `percent_encode`: well-formed UTF-8 is returned as it is, `%` included, and the empty input
   * gives the empty string; otherwise every byte outside a well-formed character becomes `%`
   * followed by two uppercase hex digits. The result is always a string.
   */
  function PercentEncode(input: seq<byte>): (r: seq<byte>)
    ensures ValidUtf8(r)
    ensures ValidUtf8(input) ==> r == input
    ensures r == EncodeInvalid(input)
    ensures |r| == 0 <==> |input| == 0
  {
    EncodeInvalidIsText(input);
    if ValidUtf8(input) then
      EncodeValid(input);
      input
    else EncodeInvalid(input)
  }

  predicate IsUpperHexDigit(b: byte) {
    0x30 <= b <= 0x39 || 0x41 <= b <= 0x46
  }

  function UpperHexValue(b: byte): (v: nat)
    requires IsUpperHexDigit(b)
    ensures v < 16 && HexUpper(v) == b
  {
    if b <= 0x39 then b - 0x30 else b - 0x41 + 10
  }

  /** Reads each `%XX` with uppercase hex digits back into its byte; other bytes are kept. */
  function DecodeEscapes(s: seq<byte>): seq<byte>
    decreases |s|
  {
    if |s| == 0 then []
    else if |s| >= 3 && s[0] == PERCENT && IsUpperHexDigit(s[1]) && IsUpperHexDigit(s[2]) then
      [UpperHexValue(s[1]) * 16 + UpperHexValue(s[2])] + DecodeEscapes(s[3..])
    else [s[0]] + DecodeEscapes(s[1..])
  }

  lemma {:induction false} DecodeKeeps(a: seq<byte>, b: seq<byte>)
    requires PERCENT !in a
    ensures DecodeEscapes(a + b) == a + DecodeEscapes(b)
    decreases |a|
  {
    if |a| > 0 {
      assert a[0] in a;
      DecodePlainHead(a[0], a[1..] + b);
      assert a + b == [a[0]] + (a[1..] + b);
      DecodeKeeps(a[1..], b);
      Sequences.ConcatAssociative([a[0]], a[1..], DecodeEscapes(b));
      assert [a[0]] + a[1..] == a;
    } else {
      assert a + b == b;
    }
  }

  /** A byte other than `%` decodes to itself. */
  lemma DecodePlainHead(x: byte, rest: seq<byte>)
    requires x != PERCENT
    ensures DecodeEscapes([x] + rest) == [x] + DecodeEscapes(rest)
  {
    assert ([x] + rest)[1..] == rest;
  }

  lemma DecodeEscape(x: byte, b: seq<byte>)
    ensures DecodeEscapes(PercentEncodeByte(x) + b) == [x] + DecodeEscapes(b)
  {
    var t := PercentEncodeByte(x) + b;
    assert t[0] == PERCENT && t[1] == HexUpper(x / 16) && t[2] == HexUpper(x % 16);
    assert UpperHexValue(t[1]) == x / 16 && UpperHexValue(t[2]) == x % 16;
    assert t[3..] == b;
  }

  /**
   * For input without `%`, the escapes can be read back: decoding the encoded text gives the
   * original bytes.
   */
  lemma {:induction false} EncodeInvalidRoundTrip(s: seq<byte>)
    requires PERCENT !in s
    ensures DecodeEscapes(EncodeInvalid(s)) == s
    decreases |s|
  {
    if |s| > 0 {
      var k := CharLen(s);
      if k > 0 {
        PlainSplit(s, k);
        EncodeInvalidRoundTrip(s[k..]);
        EncodeCharStep(s);
        DecodeAfterPlain(s[..k], EncodeInvalid(s[k..]), s[k..]);
      } else {
        PlainSplit(s, 1);
        EncodeInvalidRoundTrip(s[1..]);
        RoundTripAtByte(s);
      }
    }
  }

  /** A byte that starts no character is escaped, and the escape decodes back to it. */
  lemma RoundTripAtByte(s: seq<byte>)
    requires |s| > 0 && CharLen(s) == 0
    requires DecodeEscapes(EncodeInvalid(s[1..])) == s[1..]
    ensures DecodeEscapes(EncodeInvalid(s)) == s
  {
    EncodeByteStep(s);
    DecodeEscape(s[0], EncodeInvalid(s[1..]));
    assert [s[0]] + s[1..] == s;
  }

  /** Both pieces of text without `%` lack `%`, and they make up the text. */
  lemma PlainSplit(s: seq<byte>, k: nat)
    requires PERCENT !in s && k <= |s|
    ensures PERCENT !in s[..k] && PERCENT !in s[k..] && s[..k] + s[k..] == s
  {
    assert forall i :: 0 <= i < k ==> s[..k][i] == s[i];
    assert forall i :: 0 <= i < |s| - k ==> s[k..][i] == s[k + i];
  }

  /** Text without `%` in front of an encoding that decodes to `b` decodes to that text and `b`. */
  lemma DecodeAfterPlain(a: seq<byte>, e: seq<byte>, b: seq<byte>)
    requires PERCENT !in a && DecodeEscapes(e) == b
    ensures DecodeEscapes(a + e) == a + b
  {
    DecodeKeeps(a, e);
  }

  /** The encoding loses nothing on paths without `%`. */
  lemma PercentEncodeRoundTrip(s: seq<byte>)
    requires PERCENT !in s
    ensures DecodeEscapes(PercentEncode(s)) == s
  {
    EncodeInvalidRoundTrip(s);
  }

  /** One step of the encoding at a well-formed character. */
  lemma EncodeCharStep(s: seq<byte>)
    requires CharLen(s) > 0
    ensures EncodeInvalid(s) == s[..CharLen(s)] + EncodeInvalid(s[CharLen(s)..])
  {
  }

  /** One step of the encoding at a byte that starts no character. */
  lemma EncodeByteStep(s: seq<byte>)
    requires |s| > 0 && CharLen(s) == 0
    ensures EncodeInvalid(s) == PercentEncodeByte(s[0]) + EncodeInvalid(s[1..])
  {
  }

  /** The lone byte 0x80 starts no character and is encoded as `%80`. */
  lemma LoneContinuation()
    ensures !ValidUtf8([0x80])
    ensures EncodeInvalid([0x80]) == [PERCENT, 0x38, 0x30]
  {
    var s: seq<byte> := [0x80];
    assert CharLen(s) == 0;
    EncodeByteStep(s);
    assert s[1..] == [];
    assert PercentEncodeByte(0x80) == [PERCENT, 0x38, 0x30];
  }

  /**
   * A literal `%` is kept, so the encoding is not injective: the lone byte 0x80 and the text
   * `%80` encode alike.
   */
  lemma EncodingAmbiguous()
    ensures PercentEncode([0x80]) == PercentEncode(Ascii("%80"))
    ensures [0x80] != Ascii("%80")
  {
    var pct := Ascii("%80");
    assert pct == [PERCENT, 0x38, 0x30];
    AsciiValid(pct);
    LoneContinuation();
  }

  lemma AsciiCharLen(t: seq<byte>)
    requires |t| > 0 && t[0] < 0x80
    ensures CharLen(t) == 1
  {
  }

  lemma {:induction false} EncodeAsciiPrefix(a: seq<byte>, b: seq<byte>)
    requires AllAscii(a)
    ensures EncodeInvalid(a + b) == a + EncodeInvalid(b)
    decreases |a|
  {
    if |a| == 0 {
      assert a + b == b;
    } else {
      var t := a + b;
      assert t[0] == a[0] && a[0] < 0x80;
      AsciiCharLen(t);
      EncodeCharStep(t);
      assert t[..1] == [a[0]];
      assert t[1..] == a[1..] + b;
      EncodeAsciiPrefix(a[1..], b);
      assert [a[0]] + (a[1..] + EncodeInvalid(b)) == a + EncodeInvalid(b);
    }
  }

  /** An ASCII path ending in the lone byte 0x80 is encoded with that byte as `%80`. */
  lemma LoneContinuationEncoded(a: seq<byte>)
    requires AllAscii(a)
    ensures PercentEncode(a + [0x80]) == a + Ascii("%80")
  {
    EncodeAsciiPrefix(a, [0x80]);
    LoneContinuation();
    assert Ascii("%80") == [PERCENT, 0x38, 0x30];
  }

  // ---------------------------------------------------------------------------------------
  // The context and the dispatch of delete_all_canonicalized
  // ---------------------------------------------------------------------------------------

  /** How files are trashed: by asking Finder, or through `NSFileManager`. */
  datatype DeleteMethod = Finder | NsFileManager

  /** How Finder is asked: through the `osascript` program or through OSAKit in process. */
  datatype ScriptMethod = Cli | Osakit

  /** The macOS part of `TrashContext`. */
  datatype Context = Context(deleteMethod: DeleteMethod, scriptMethod: ScriptMethod)

  /** `PlatformTrashContext::new()` and `Default`: Finder, through `osascript`. */
  function NewContext(): Context {
    Context(Finder, Cli)
  }

  /** `set_delete_method`: only the delete method changes. */
  function SetDeleteMethod(c: Context, m: DeleteMethod): (r: Context)
    ensures r.deleteMethod == m && r.scriptMethod == c.scriptMethod
  {
    c.(deleteMethod := m)
  }

  /** `set_script_method`: only the script method changes. */
  function SetScriptMethod(c: Context, m: ScriptMethod): (r: Context)
    ensures r.scriptMethod == m && r.deleteMethod == c.deleteMethod
  {
    c.(scriptMethod := m)
  }

  /** The routine that does the trashing. */
  datatype Backend = FinderCli | FinderOsakit | FileManager

  /**
   * The dispatch of `delete_all_canonicalized`: Finder through `osascript` or OSAKit as the
   * script method says, or `NSFileManager`, whatever the script method.
   */
  function BackendOf(c: Context): (b: Backend)
    ensures b == FileManager <==> c.deleteMethod == NsFileManager
    ensures b == FinderCli <==> c.deleteMethod == Finder && c.scriptMethod == Cli
    ensures b == FinderOsakit <==> c.deleteMethod == Finder && c.scriptMethod == Osakit
  {
    match c.deleteMethod
    case Finder => (match c.scriptMethod case Cli => FinderCli case Osakit => FinderOsakit)
    case NsFileManager => FileManager
  }

  /**
   * The getters return the last value set, whatever the other setter did in between, and the
   * two setters commute; a new context uses Finder through `osascript`.
   */
  lemma SettersIndependent(c: Context, d: DeleteMethod, s: ScriptMethod)
    ensures SetScriptMethod(SetDeleteMethod(c, d), s).deleteMethod == d
    ensures SetDeleteMethod(SetScriptMethod(c, s), d).scriptMethod == s
    ensures SetScriptMethod(SetDeleteMethod(c, d), s) == SetDeleteMethod(SetScriptMethod(c, s), d)
    ensures BackendOf(NewContext()) == FinderCli
  {
  }

  // ---------------------------------------------------------------------------------------
  // The Finder scripts
  // ---------------------------------------------------------------------------------------

  const POSIX_FILE: seq<byte> := Ascii("POSIX file \"")
  const LIST_COMMA: seq<byte> := Ascii(", ")

  /** The separator the scripts put between returned paths, and the output is split on. */
  const LIST_SEP: seq<byte> := Ascii(" /// ")

  /** The text Finder is given for a path: its bytes when they are UTF-8, else their encoding. */
  function PathText(p: FsPath): (r: seq<byte>)
    ensures r == PercentEncode(Display(p))
    ensures ValidUtf8(r)
  {
    var bytes := Display(p);
    if ValidUtf8(bytes) then bytes else PercentEncode(bytes)
  }

  /** `POSIX file "<escaped text>"`: one entry of the list Finder is asked to delete. */
  function PosixEntry(text: seq<byte>): seq<byte> {
    POSIX_FILE + EscQuote(text) + [QUOTE]
  }

  /** The entries for `texts`, joined with `", "`. */
  function PosixList(texts: seq<seq<byte>>): seq<byte>
    decreases |texts|
  {
    if |texts| == 0 then []
    else if |texts| == 1 then PosixEntry(texts[0])
    else PosixEntry(texts[0]) + LIST_COMMA + PosixList(texts[1..])
  }

  /** The texts Finder is given: one per path, in order. */
  function Texts(paths: seq<FsPath>): (r: seq<seq<byte>>)
    ensures |r| == |paths|
  {
    seq(|paths|, i requires 0 <= i < |paths| => PathText(paths[i]))
  }

  /** The `posix_files` list of `delete_using_finder`. */
  function PosixFiles(paths: seq<FsPath>): seq<byte> {
    PosixList(Texts(paths))
  }

  predicate HasPrefix(t: seq<byte>, p: seq<byte>) {
    |p| <= |t| && t[..|p|] == p
  }

  /** Reads `POSIX file "…"` entries separated by `", "`: their texts, and what follows the last. */
  function ReadEntries(t: seq<byte>): (r: Option<(seq<seq<byte>>, seq<byte>)>)
    ensures r.Some? ==> |r.value.1| < |t|
    decreases |t|
  {
    if !HasPrefix(t, POSIX_FILE) then None
    else
      match ReadLiteral(t[|POSIX_FILE|..])
      case None => None
      case Some((text, rest)) =>
        if HasPrefix(rest, LIST_COMMA) then
          match ReadEntries(rest[|LIST_COMMA|..])
          case None => None
          case Some((more, after)) => Some(([text] + more, after))
        else Some(([text], rest))
  }

  /** Reads a possibly empty entry list. */
  function ReadList(t: seq<byte>): Option<(seq<seq<byte>>, seq<byte>)> {
    if HasPrefix(t, POSIX_FILE) then ReadEntries(t) else Some(([], t))
  }

  /** An entry opens with `POSIX file "` and its literal reads back as its text. */
  lemma EntryLiteral(text: seq<byte>, after: seq<byte>)
    ensures var t := POSIX_FILE + EscQuote(text) + [QUOTE] + after;
      HasPrefix(t, POSIX_FILE) && ReadLiteral(t[|POSIX_FILE|..]) == Some((text, after))
  {
    var t := POSIX_FILE + EscQuote(text) + [QUOTE] + after;
    assert t[..|POSIX_FILE|] == POSIX_FILE;
    assert t[|POSIX_FILE|..] == EscQuote(text) + [QUOTE] + after;
    LiteralRoundTrip(text, after);
  }

  /** An entry that ends the list. */
  lemma ReadLastEntry(text: seq<byte>, tail: seq<byte>)
    requires !HasPrefix(tail, LIST_COMMA)
    ensures ReadEntries(POSIX_FILE + EscQuote(text) + [QUOTE] + tail) == Some(([text], tail))
  {
    EntryLiteral(text, tail);
  }

  /** An entry followed by `", "` and more entries. */
  lemma ReadNextEntry(text: seq<byte>, u: seq<byte>)
    requires ReadEntries(u).Some?
    ensures ReadEntries(POSIX_FILE + EscQuote(text) + [QUOTE] + (LIST_COMMA + u))
      == Some(([text] + ReadEntries(u).value.0, ReadEntries(u).value.1))
  {
    var after := LIST_COMMA + u;
    EntryLiteral(text, after);
    assert after[..|LIST_COMMA|] == LIST_COMMA;
    assert after[|LIST_COMMA|..] == u;
  }

  /** The list of several texts is the first entry, a comma and the list of the rest. */
  lemma PosixListCons(texts: seq<seq<byte>>, tail: seq<byte>)
    requires |texts| > 1
    ensures PosixList(texts) + tail
      == POSIX_FILE + EscQuote(texts[0]) + [QUOTE] + (LIST_COMMA + (PosixList(texts[1..]) + tail))
  {
    var e := PosixEntry(texts[0]);
    var r := PosixList(texts[1..]);
    assert PosixList(texts) == e + LIST_COMMA + r;
    Sequences.ConcatAssociative(e + LIST_COMMA, r, tail);
    Sequences.ConcatAssociative(e, LIST_COMMA, r + tail);
  }

  lemma {:induction false} EntriesRoundTrip(texts: seq<seq<byte>>, tail: seq<byte>)
    requires |texts| > 0 && !HasPrefix(tail, LIST_COMMA)
    ensures ReadEntries(PosixList(texts) + tail) == Some((texts, tail))
    decreases |texts|
  {
    if |texts| == 1 {
      SingleEntryRoundTrip(texts, tail);
    } else {
      EntriesRoundTrip(texts[1..], tail);
      EntriesRoundTripStep(texts, tail);
    }
  }

  /** A list of one text reads back as that text. */
  lemma SingleEntryRoundTrip(texts: seq<seq<byte>>, tail: seq<byte>)
    requires |texts| == 1 && !HasPrefix(tail, LIST_COMMA)
    ensures ReadEntries(PosixList(texts) + tail) == Some((texts, tail))
  {
    assert PosixList(texts) + tail == POSIX_FILE + EscQuote(texts[0]) + [QUOTE] + tail;
    ReadLastEntry(texts[0], tail);
    assert [texts[0]] == texts;
  }

  /** When the rest of the list reads back, so does the whole list. */
  lemma EntriesRoundTripStep(texts: seq<seq<byte>>, tail: seq<byte>)
    requires |texts| > 1 && ReadEntries(PosixList(texts[1..]) + tail) == Some((texts[1..], tail))
    ensures ReadEntries(PosixList(texts) + tail) == Some((texts, tail))
  {
    PosixListCons(texts, tail);
    ReadNextEntry(texts[0], PosixList(texts[1..]) + tail);
    assert [texts[0]] + texts[1..] == texts;
  }

  /**
   * The list names each path exactly once and in order: AppleScript reads back one text per
   * path, the path's own text, and stops where the list ends.
   */
  lemma PosixFilesRoundTrip(paths: seq<FsPath>, tail: seq<byte>)
    requires !HasPrefix(tail, LIST_COMMA)
    requires |paths| == 0 ==> !HasPrefix(tail, POSIX_FILE)
    ensures ReadList(PosixFiles(paths) + tail) == Some((Texts(paths), tail))
  {
    var texts := Texts(paths);
    if |texts| == 0 {
      assert PosixList(texts) + tail == tail;
    } else {
      EntriesRoundTrip(texts, tail);
      assert (PosixList(texts) + tail)[..|POSIX_FILE|] == POSIX_FILE;
    }
  }

  const INFO_HEAD: seq<byte> :=
    Ascii("\n            tell application \"Finder\"\n                set Trash_items to delete { ")

  const DELETE_HEAD: seq<byte> := Ascii("tell application \"Finder\" to delete { ")

  /** What closes the delete list in every script. */
  const CLOSE_LIST: seq<byte> := Ascii(" }")

  /** What the scripts that report paths share after the list: each item as a POSIX path. */
  const PATHS_BODY: seq<byte> :=
    Ascii("\n            end tell\n")
    + Ascii("            if (class of Trash_items) is not list then -- if only 1 file is deleted, returns a file, not a list\n")
    + Ascii("                return                   (POSIX path of (Trash_items as alias))\n")
    + Ascii("            end if\n            repeat with aFile in Trash_items -- Finder reference\n")
    + Ascii("                set contents of aFile to (POSIX path of (aFile as alias)) -- can't get paths of Finder reference, coersion to alias needed\n")
    + Ascii("            end repeat\n")

  /** The line that makes the `osascript` output separate paths with `LIST_SEP`. */
  const DELIMITER_LINE: seq<byte> :=
    Ascii("            set text item delimiters to \"") + LIST_SEP + Ascii("\" -- hopefully no legal path can have this\n")

  const RETURN_TEXT: seq<byte> :=
    Ascii("            return Trash_items as text -- coersion to text forces item delimiters for lists\n            ")

  const RETURN_LIST: seq<byte> := Ascii("            return Trash_items\n            ")

  const RETURN_NOTHING: seq<byte> := Ascii("\n                return \"\" ")

  function ScriptHead(withInfo: bool): seq<byte> {
    if withInfo then INFO_HEAD else DELETE_HEAD
  }

  /** The rest of the script after the delete list. */
  function ScriptTail(withInfo: bool, asCli: bool): seq<byte> {
    CLOSE_LIST
    + if !withInfo then RETURN_NOTHING
      else if asCli then PATHS_BODY + DELIMITER_LINE + RETURN_TEXT
      else PATHS_BODY + RETURN_LIST
  }

  /**
   * The script `delete_using_finder` runs: without item information a one-line delete; with it,
   * a delete that returns the trashed paths, as one text joined by `LIST_SEP` for `osascript` and
   * as a list for OSAKit.
   */
  function FinderScript(posixFiles: seq<byte>, withInfo: bool, asCli: bool): seq<byte> {
    ScriptHead(withInfo) + posixFiles + ScriptTail(withInfo, asCli)
  }

  /**
   * Every script deletes exactly the given paths: after its head, the delete list reads back as
   * the paths' texts in order, followed by the script's closing part.
   */
  lemma FinderScriptNamesEachPath(paths: seq<FsPath>, withInfo: bool, asCli: bool)
    ensures var script := FinderScript(PosixFiles(paths), withInfo, asCli);
      |ScriptHead(withInfo)| <= |script|
      && ReadList(script[|ScriptHead(withInfo)|..]) == Some((Texts(paths), ScriptTail(withInfo, asCli)))
  {
    TailOpensWithSpace(withInfo, asCli);
    ListAfterHead(ScriptHead(withInfo), paths, ScriptTail(withInfo, asCli));
  }

  lemma ListAfterHead(head: seq<byte>, paths: seq<FsPath>, tail: seq<byte>)
    requires !HasPrefix(tail, LIST_COMMA) && !HasPrefix(tail, POSIX_FILE)
    ensures |head| <= |head + PosixFiles(paths) + tail|
    ensures ReadList((head + PosixFiles(paths) + tail)[|head|..]) == Some((Texts(paths), tail))
  {
    var files := PosixFiles(paths);
    DropHead(head, files + tail);
    assert head + files + tail == head + (files + tail);
    PosixFilesRoundTrip(paths, tail);
  }

  lemma DropHead(head: seq<byte>, rest: seq<byte>)
    ensures (head + rest)[|head|..] == rest
  {
  }

  /** The rest of a script starts neither a further entry nor another list element. */
  lemma TailOpensWithSpace(withInfo: bool, asCli: bool)
    ensures !HasPrefix(ScriptTail(withInfo, asCli), LIST_COMMA)
    ensures !HasPrefix(ScriptTail(withInfo, asCli), POSIX_FILE)
  {
    var tail := ScriptTail(withInfo, asCli);
    assert CLOSE_LIST == [0x20, 0x7D];
    assert tail[0] == 0x20;
    assert LIST_COMMA[0] == 0x2C;
    assert POSIX_FILE[0] == 0x50;
  }

  /** The `osascript` script joins the returned paths with the separator its output is split on. */
  lemma CliScriptSetsSeparator(posixFiles: seq<byte>)
    ensures var script := FinderScript(posixFiles, true, true);
      exists i :: OccursAt(script, DELIMITER_LINE, i)
  {
    OccursBetween(INFO_HEAD + posixFiles, CLOSE_LIST, PATHS_BODY, DELIMITER_LINE, RETURN_TEXT);
    assert FinderScript(posixFiles, true, true) == INFO_HEAD + posixFiles + (CLOSE_LIST + (PATHS_BODY + DELIMITER_LINE + RETURN_TEXT));
  }

  // ---------------------------------------------------------------------------------------
  // Trash items from what was reported back
  // ---------------------------------------------------------------------------------------

  /**
   * The item for a reported trash path `id`: with a source path, its name and parent (the
   * source panics when it has no name); without one, an empty name and parent.
   */
  function ItemFor(id: seq<byte>, source: Option<FsPath>, time: int): (r: Result<TrashItem, Error>)
    ensures source.None? ==> r == Success(TrashItem(id, [], EmptyPath(), time))
    ensures source.Some? ==> (r.Success? <==> FileName(source.value).Some?)
    ensures source.Some? && r.Failure? ==> r.error == Panic
    ensures r.Success? ==> r.value.id == id && r.value.timeDeleted == time
  {
    match source
    case None => Success(TrashItem(id, [], EmptyPath(), time))
    case Some(p) =>
      if FileName(p).None? then Failure(Panic)
      else Success(TrashItem(id, FileName(p).value, Parent(p).value, time))
  }

  /** The item built from a canonical path records that path as its original path. */
  lemma ItemForOriginalPath(id: seq<byte>, p: FsPath, time: int)
    requires Canonical(p) && |p.components| > 0
    ensures ItemFor(id, Some(p), time).Success?
    ensures OriginalPath(ItemFor(id, Some(p), time).value) == p
  {
    ParentChild(p);
    var name := FileName(p).value;
    assert IsName(name);
    JoinName(Parent(p).value, name);
  }

  /** The texts of the reported entries that are texts, in order. */
  function Present(ids: seq<Option<seq<byte>>>): seq<seq<byte>>
    decreases |ids|
  {
    if |ids| == 0 then []
    else (if ids[0].Some? then [ids[0].value] else []) + Present(ids[1..])
  }

  function IdsOf(items: seq<TrashItem>): (r: seq<seq<byte>>)
    ensures |r| == |items|
  {
    seq(|items|, i requires 0 <= i < |items| => items[i].id)
  }

  /**
   * The loops that push items: the i-th reported entry, when it is a text, gives an item with
   * that id and its name and parent from `sources[i]`; entries that are not texts are skipped.
   */
  function ItemsFor(ids: seq<Option<seq<byte>>>, sources: seq<Option<FsPath>>, time: int): (r: Result<seq<TrashItem>, Error>)
    requires |ids| == |sources|
    ensures r.Success? ==> IdsOf(r.value) == Present(ids)
    ensures r.Failure? ==> r.error == Panic
    decreases |ids|
  {
    if |ids| == 0 then Success([])
    else
      match ids[0]
      case None => ItemsFor(ids[1..], sources[1..], time)
      case Some(id) =>
        match ItemFor(id, sources[0], time)
        case Failure(e) => Failure(e)
        case Success(item) =>
          match ItemsFor(ids[1..], sources[1..], time)
          case Failure(e) => Failure(e)
          case Success(rest) =>
            IdsOfCons(item, rest);
            Success([item] + rest)
  }

  lemma IdsOfCons(item: TrashItem, rest: seq<TrashItem>)
    ensures IdsOf([item] + rest) == [item.id] + IdsOf(rest)
  {
    assert forall i :: 1 <= i < |rest| + 1 ==> ([item] + rest)[i] == rest[i - 1];
  }

  /** The i-th entry is matched with the i-th path only when the counts agree. */
  function Sources(paths: seq<FsPath>, n: nat): (r: seq<Option<FsPath>>)
    ensures |r| == n
  {
    seq(n, i requires 0 <= i < n => if n == |paths| then Some(paths[i]) else None)
  }

  function AllPresent(ids: seq<seq<byte>>): (r: seq<Option<seq<byte>>>)
    ensures |r| == |ids|
  {
    seq(|ids|, i requires 0 <= i < |ids| => Some(ids[i]))
  }

  /**
   * When every entry is a text and every source a canonical path, each item records its entry
   * as id and its source as original path.
   */
  lemma {:induction false} ItemsForMatched(ids: seq<seq<byte>>, paths: seq<FsPath>, time: int)
    requires |ids| == |paths|
    requires forall i :: 0 <= i < |paths| ==> Canonical(paths[i]) && |paths[i].components| > 0
    ensures var r := ItemsFor(AllPresent(ids), Sources(paths, |ids|), time);
      r.Success? && |r.value| == |ids|
      && forall i :: 0 <= i < |ids| ==> r.value[i].id == ids[i] && OriginalPath(r.value[i]) == paths[i]
    decreases |ids|
  {
    if |ids| > 0 {
      assert forall i :: 0 <= i < |paths| - 1 ==> paths[1..][i] == paths[i + 1];
      ItemsForMatched(ids[1..], paths[1..], time);
      ItemsForMatchedStep(ids, paths, time);
      assert PairsInOrder(ItemsFor(AllPresent(ids), Sources(paths, |ids|), time).value, ids, paths);
    }
  }

  /** The step of `ItemsForMatched`: the item for the first entry goes in front of the rest. */
  lemma ItemsForMatchedStep(ids: seq<seq<byte>>, paths: seq<FsPath>, time: int)
    requires |ids| == |paths| > 0 && Canonical(paths[0]) && |paths[0].components| > 0
    requires var r := ItemsFor(AllPresent(ids[1..]), Sources(paths[1..], |ids| - 1), time);
      r.Success? && PairsInOrder(r.value, ids[1..], paths[1..])
    ensures var r := ItemsFor(AllPresent(ids), Sources(paths, |ids|), time);
      r.Success? && PairsInOrder(r.value, ids, paths)
  {
    MatchedTails(ids, paths);
    ItemForOriginalPath(ids[0], paths[0], time);
    var head := ItemFor(ids[0], Some(paths[0]), time).value;
    var rest := ItemsFor(AllPresent(ids[1..]), Sources(paths[1..], |ids| - 1), time).value;
    ItemsForStep(AllPresent(ids), Sources(paths, |ids|), time);
    PairsCons(head, rest, ids, paths);
  }

  /** The i-th item has the i-th id and the i-th path as its original path, for every i. */
  predicate PairsInOrder(items: seq<TrashItem>, ids: seq<seq<byte>>, paths: seq<FsPath>) {
    |items| == |ids| == |paths|
    && forall i :: 0 <= i < |items| ==> items[i].id == ids[i] && OriginalPath(items[i]) == paths[i]
  }

  /** An item for the first id and path in front of items for the rest pairs them all. */
  lemma PairsCons(head: TrashItem, rest: seq<TrashItem>, ids: seq<seq<byte>>, paths: seq<FsPath>)
    requires |ids| > 0 && |paths| > 0 && head.id == ids[0] && OriginalPath(head) == paths[0]
    requires PairsInOrder(rest, ids[1..], paths[1..])
    ensures PairsInOrder([head] + rest, ids, paths)
  {
    var items := [head] + rest;
    forall i | 1 <= i < |items| ensures items[i].id == ids[i] && OriginalPath(items[i]) == paths[i] {
      assert items[i] == rest[i - 1] && ids[1..][i - 1] == ids[i] && paths[1..][i - 1] == paths[i];
    }
  }

  /** With all entries texts and the counts equal, the first entry and path are matched and the tails are the same shape. */
  lemma MatchedTails(ids: seq<seq<byte>>, paths: seq<FsPath>)
    requires |ids| == |paths| > 0
    ensures AllPresent(ids)[0] == Some(ids[0]) && Sources(paths, |ids|)[0] == Some(paths[0])
    ensures AllPresent(ids)[1..] == AllPresent(ids[1..])
    ensures Sources(paths, |ids|)[1..] == Sources(paths[1..], |ids| - 1)
  {
    assert forall i :: 0 <= i < |ids| - 1 ==> AllPresent(ids)[1..][i] == AllPresent(ids[1..])[i];
    assert forall i :: 0 <= i < |ids| - 1 ==> Sources(paths, |ids|)[1..][i] == Sources(paths[1..], |ids| - 1)[i];
  }

  /** One step of the item loop at an entry that is a text and whose item can be built. */
  lemma ItemsForStep(ids: seq<Option<seq<byte>>>, sources: seq<Option<FsPath>>, time: int)
    requires |ids| == |sources| > 0 && ids[0].Some?
    requires ItemFor(ids[0].value, sources[0], time).Success?
    requires ItemsFor(ids[1..], sources[1..], time).Success?
    ensures ItemsFor(ids, sources, time)
      == Success([ItemFor(ids[0].value, sources[0], time).value] + ItemsFor(ids[1..], sources[1..], time).value)
  {
  }

  /** When the counts disagree, every item has an empty name and the empty path as parent. */
  lemma {:induction false} ItemsForUnmatched(ids: seq<seq<byte>>, paths: seq<FsPath>, time: int)
    requires |ids| != |paths|
    ensures var r := ItemsFor(AllPresent(ids), Sources(paths, |ids|), time);
      r.Success? && |r.value| == |ids|
      && forall i :: 0 <= i < |ids| ==> r.value[i] == TrashItem(ids[i], [], EmptyPath(), time)
    decreases |ids|
  {
    if |ids| > 0 {
      var r := ItemsFor(AllPresent(ids), Sources(paths, |ids|), time);
      var sources := Sources(paths, |ids|);
      var tailSources := seq(|ids| - 1, i requires 0 <= i < |ids| - 1 => sources[i + 1]);
      assert sources[1..] == tailSources;
      assert AllPresent(ids)[1..] == AllPresent(ids[1..]);
      UnmatchedTail(ids[1..], tailSources, time);
      var rest := ItemsFor(AllPresent(ids[1..]), tailSources, time);
      assert r.value == [TrashItem(ids[0], [], EmptyPath(), time)] + rest.value;
    }
  }

  /** Items built with no sources at all have empty names and parents. */
  lemma {:induction false} UnmatchedTail(ids: seq<seq<byte>>, sources: seq<Option<FsPath>>, time: int)
    requires |ids| == |sources| && forall i :: 0 <= i < |sources| ==> sources[i].None?
    ensures var r := ItemsFor(AllPresent(ids), sources, time);
      r.Success? && |r.value| == |ids|
      && forall i :: 0 <= i < |ids| ==> r.value[i] == TrashItem(ids[i], [], EmptyPath(), time)
    decreases |ids|
  {
    if |ids| > 0 {
      var r := ItemsFor(AllPresent(ids), sources, time);
      assert AllPresent(ids)[1..] == AllPresent(ids[1..]);
      UnmatchedTail(ids[1..], sources[1..], time);
      var rest := ItemsFor(AllPresent(ids[1..]), sources[1..], time);
      assert r.value == [TrashItem(ids[0], [], EmptyPath(), time)] + rest.value;
    }
  }

  // ---------------------------------------------------------------------------------------
  // The osascript output
  // ---------------------------------------------------------------------------------------

  /** The output without one trailing newline, if it has one. */
  function Stripped(stdout: seq<byte>): (r: seq<byte>)
    ensures r == stdout || r + [LF] == stdout
  {
    match StripSuffix(stdout, [LF])
    case Some(s) => s
    case None => stdout
  }

  /** The paths `osascript` printed: one trailing newline dropped, the rest split on `LIST_SEP`. */
  function CliPaths(stdout: seq<byte>): (r: seq<seq<byte>>)
    ensures |r| > 0
    ensures JoinPattern(r, LIST_SEP) == Stripped(stdout)
    ensures forall k :: 0 <= k < |r| ==> FindFirst(r[k], LIST_SEP).None?
  {
    JoinSplitPattern(Stripped(stdout), LIST_SEP);
    SplitOnPattern(Stripped(stdout), LIST_SEP)
  }

  /** No occurrence of `sep` starts inside `id` when `sep` follows it. */
  predicate EndsClear(id: seq<byte>, sep: seq<byte>) {
    forall j :: 0 <= j < |id| ==> !OccursAt(id + sep, sep, j)
  }

  lemma FirstAfter(id: seq<byte>, sep: seq<byte>, rest: seq<byte>)
    requires |sep| > 0 && EndsClear(id, sep)
    ensures FindFirst(id + sep + rest, sep) == Some(|id|)
  {
    var t := id + sep + rest;
    assert OccursAt(t, sep, |id|) by {
      assert t[|id|..|id| + |sep|] == sep;
    }
    forall j | 0 <= j < |id| ensures !OccursAt(t, sep, j) {
      assert !OccursAt(id + sep, sep, j);
      assert t[j..j + |sep|] == (id + sep)[j..j + |sep|];
    }
    match FindFirst(t, sep)
    case None =>
    case Some(k) =>
  }

  /** Splitting text joined by `sep` gives the parts back when no part lets a `sep` straddle. */
  lemma {:induction false} SplitJoinPattern(ids: seq<seq<byte>>, sep: seq<byte>)
    requires |sep| > 0 && |ids| > 0
    requires forall k :: 0 <= k < |ids| - 1 ==> EndsClear(ids[k], sep)
    requires FindFirst(ids[|ids| - 1], sep).None?
    ensures SplitOnPattern(JoinPattern(ids, sep), sep) == ids
    decreases |ids|
  {
    if |ids| > 1 {
      assert forall k :: 0 <= k < |ids| - 1 ==> ids[1..][k] == ids[k + 1];
      SplitJoinPattern(ids[1..], sep);
      SplitAtFirst(ids[0], sep, JoinPattern(ids[1..], sep));
      assert ids == [ids[0]] + ids[1..];
    }
  }

  /** Text that ends clear of `sep`, then `sep`: splitting takes that text off as the first piece. */
  lemma SplitAtFirst(id: seq<byte>, sep: seq<byte>, rest: seq<byte>)
    requires |sep| > 0 && EndsClear(id, sep)
    ensures SplitOnPattern(id + sep + rest, sep) == [id] + SplitOnPattern(rest, sep)
  {
    FirstAfter(id, sep, rest);
    var t := id + sep + rest;
    assert t[..|id|] == id;
    assert t[|id| + |sep|..] == rest;
  }


  lemma SeparatorBytes()
    ensures LIST_SEP == [0x20, 0x2F, 0x2F, 0x2F, 0x20]
    ensures Ascii(" ///") == LIST_SEP[..4]
  {
  }

  /** The one way a `LIST_SEP` can straddle: a text ending in `" ///"`. */
  lemma ListSepClear(id: seq<byte>)
    requires FindFirst(id, LIST_SEP).None?
    requires !(|id| >= 4 && id[|id| - 4..] == Ascii(" ///"))
    ensures EndsClear(id, LIST_SEP)
  {
    forall j | 0 <= j < |id| ensures !OccursAt(id + LIST_SEP, LIST_SEP, j) {
      ListSepNotAt(id, j);
    }
  }

  /** `LIST_SEP` does not start at offset `j` of the text followed by a separator. */
  lemma ListSepNotAt(id: seq<byte>, j: nat)
    requires FindFirst(id, LIST_SEP).None?
    requires !(|id| >= 4 && id[|id| - 4..] == Ascii(" ///"))
    requires j < |id|
    ensures !OccursAt(id + LIST_SEP, LIST_SEP, j)
  {
    if j + 5 <= |id| {
      ListSepNotInside(id, j);
    } else if j + 4 == |id| {
      ListSepNotAtLastFour(id, j);
    } else {
      ListSepNotAtShortTail(id, j);
    }
  }

  /** A window wholly inside a separator-free text is no separator. */
  lemma ListSepNotInside(id: seq<byte>, j: nat)
    requires FindFirst(id, LIST_SEP).None?
    requires j + 5 <= |id|
    ensures !OccursAt(id + LIST_SEP, LIST_SEP, j)
  {
    SeparatorBytes();
    var t := id + LIST_SEP;
    assert id[j..j + 5] != LIST_SEP by {
      assert !OccursAt(id, LIST_SEP, j);
    }
    assert t[j..j + 5] == id[j..j + 5];
  }

  /** Starting less than four bytes from the end, the separator's space meets a slash. */
  lemma ListSepNotAtShortTail(id: seq<byte>, j: nat)
    requires j < |id| < j + 4
    ensures !OccursAt(id + LIST_SEP, LIST_SEP, j)
  {
    SeparatorBytes();
    var t := id + LIST_SEP;
    var d := |id| - j;
    assert t[j..j + 5][d] == t[j + d] == 0x20;
    assert LIST_SEP[d] == 0x2F;
  }

  /** Starting four bytes from the end, the separator would need the text to end in `" ///"`. */
  lemma ListSepNotAtLastFour(id: seq<byte>, j: nat)
    requires j + 4 == |id|
    requires id[|id| - 4..] != Ascii(" ///")
    ensures !OccursAt(id + LIST_SEP, LIST_SEP, j)
  {
    SeparatorBytes();
    var t := id + LIST_SEP;
    assert t[j..j + 5][..4] == id[j..];
  }

  /** A path that names a trashed item: it is not empty, holds no `" /// "` and does not end in `" ///"`. */
  predicate SeparableId(id: seq<byte>) {
    |id| > 0 && FindFirst(id, LIST_SEP).None? && !(|id| >= 4 && id[|id| - 4..] == Ascii(" ///"))
  }

  /**
   * The output of the `osascript` script, the paths joined by `LIST_SEP` and a newline, is split
   * back into exactly those paths.
   */
  lemma CliPathsRoundTrip(ids: seq<seq<byte>>)
    requires |ids| > 0 && forall k :: 0 <= k < |ids| ==> SeparableId(ids[k])
    ensures CliPaths(JoinPattern(ids, LIST_SEP) + [LF]) == ids
  {
    forall k | 0 <= k < |ids| - 1 ensures EndsClear(ids[k], LIST_SEP) {
      ListSepClear(ids[k]);
    }
    SplitJoinPattern(ids, LIST_SEP);
    var out := JoinPattern(ids, LIST_SEP) + [LF];
    assert out[|out| - 1..] == [LF];
    assert Stripped(out) == JoinPattern(ids, LIST_SEP);
  }

  /**
   * The items for the `osascript` output as written: since a split is never empty, the branch
   * for an empty result is never taken, and an empty output gives one item with an empty id.
   */
  function CliItemsAsWritten(stdout: seq<byte>, paths: seq<FsPath>, time: int): (r: Result<Option<seq<TrashItem>>, Error>)
    ensures r.Success? ==> r.value.Some? && IdsOf(r.value.value) == CliPaths(stdout)
  {
    var fileList := CliPaths(stdout);
    if |fileList| > 0 then
      var items :- ItemsFor(AllPresent(fileList), Sources(paths, |fileList|), time);
      assert Present(AllPresent(fileList)) == fileList by { PresentAll(fileList); }
      Success(Some(items))
    else Success(None)
  }

  lemma {:induction false} PresentAll(ids: seq<seq<byte>>)
    ensures Present(AllPresent(ids)) == ids
    decreases |ids|
  {
    if |ids| > 0 {
      assert AllPresent(ids)[1..] == AllPresent(ids[1..]);
      PresentAll(ids[1..]);
      assert [ids[0]] + ids[1..] == ids;
    }
  }

  /**
   * The items for the `osascript` output, as written or, corrected, with an empty output taken as
   * no paths reported: no items, as for a script that returned nothing. The two readings differ
   * only on an empty output.
   */
  function CliItems(stdout: seq<byte>, paths: seq<FsPath>, time: int, corrected: bool): (r: Result<Option<seq<TrashItem>>, Error>)
    ensures corrected && Stripped(stdout) == [] ==> r == Success(None)
    ensures !corrected || Stripped(stdout) != [] ==> r == CliItemsAsWritten(stdout, paths, time)
  {
    if corrected && Stripped(stdout) == [] then Success(None) else CliItemsAsWritten(stdout, paths, time)
  }

  /**
   * When Finder reports one separable path per deleted path, the i-th item has the i-th
   * reported path as id and the i-th deleted path as original path; when the count differs,
   * the items carry the reported paths with empty names and parents.
   */
  lemma CliItemsReported(ids: seq<seq<byte>>, paths: seq<FsPath>, time: int)
    requires |ids| > 0 && forall k :: 0 <= k < |ids| ==> SeparableId(ids[k])
    requires forall i :: 0 <= i < |paths| ==> Canonical(paths[i]) && |paths[i].components| > 0
    ensures var r := CliItemsAsWritten(JoinPattern(ids, LIST_SEP) + [LF], paths, time);
      r.Success? && r.value.Some? && |r.value.value| == |ids|
    ensures var r := CliItemsAsWritten(JoinPattern(ids, LIST_SEP) + [LF], paths, time);
      |ids| == |paths| ==>
        forall i :: 0 <= i < |ids| ==> r.value.value[i].id == ids[i] && OriginalPath(r.value.value[i]) == paths[i]
    ensures var r := CliItemsAsWritten(JoinPattern(ids, LIST_SEP) + [LF], paths, time);
      |ids| != |paths| ==> forall i :: 0 <= i < |ids| ==> r.value.value[i] == TrashItem(ids[i], [], EmptyPath(), time)
  {
    CliPathsRoundTrip(ids);
    if |ids| == |paths| {
      ItemsForMatched(ids, paths, time);
    } else {
      ItemsForUnmatched(ids, paths, time);
    }
  }

  /**
   * An empty output, for one deleted path, gives one item with an empty id that claims the
   * deleted path; read as "nothing reported", it gives no items.
   */
  lemma EmptyOutputPhantomItem(p: FsPath, time: int)
    requires Canonical(p) && |p.components| > 0
    ensures CliItemsAsWritten([LF], [p], time) == Success(Some([TrashItem([], FileName(p).value, Parent(p).value, time)]))
    ensures CliItems([LF], [p], time, true) == Success(None)
  {
    var none: seq<byte> := [];
    assert Stripped([LF]) == none;
    assert FindFirst(none, LIST_SEP).None?;
    assert CliPaths([LF]) == [none];
    assert AllPresent([none]) == [Some(none)];
    assert Sources([p], 1) == [Some(p)];
    var item := TrashItem(none, FileName(p).value, Parent(p).value, time);
    assert ItemFor(none, Some(p), time) == Success(item);
    assert [Some(none)][1..] == [] && [Some(p)][1..] == [];
    assert ItemsFor([], [], time) == Success([]);
    assert [item] + [] == [item];
    assert ItemsFor([Some(none)], [Some(p)], time) == Success([item]);
  }

  // ---------------------------------------------------------------------------------------
  // The OSAKit result
  // ---------------------------------------------------------------------------------------

  /** A value an AppleScript returns through OSAKit, as far as the items read it. */
  datatype ScriptValue = Str(text: seq<byte>) | List(elems: seq<ScriptValue>) | OtherValue

  function TextsOf(elems: seq<ScriptValue>): (r: seq<Option<seq<byte>>>)
    ensures |r| == |elems|
  {
    seq(|elems|, i requires 0 <= i < |elems| => if elems[i].Str? then Some(elems[i].text) else None)
  }

  /**
   * The items for the OSAKit result: a single text stands for a one-element list; elements that
   * are not texts are skipped but still count when matching with the deleted paths; a result
   * that is neither text nor list gives no items.
   */
  function OsakitItems(res: ScriptValue, paths: seq<FsPath>, time: int): (r: Result<Option<seq<TrashItem>>, Error>)
    ensures res.OtherValue? ==> r == Success(None)
    ensures res.List? && r.Success? ==> r.value.Some? && IdsOf(r.value.value) == Present(TextsOf(res.elems))
    ensures res.Str? && r.Success? ==> r.value.Some? && IdsOf(r.value.value) == [res.text]
  {
    var arr := if res.Str? then List([res]) else res;
    if arr.List? then
      var items :- ItemsFor(TextsOf(arr.elems), Sources(paths, |arr.elems|), time);
      assert res.Str? ==> Present(TextsOf(arr.elems)) == [res.text] by {
        if res.Str? {
          assert TextsOf(arr.elems) == [Some(res.text)];
          assert Present([Some(res.text)]) == [res.text] + Present([]);
        }
      }
      Success(Some(items))
    else Success(None)
  }

  /** A single returned text for a single deleted path is that path's item. */
  lemma OsakitSingle(t: seq<byte>, p: FsPath, time: int)
    requires Canonical(p) && |p.components| > 0
    ensures var r := OsakitItems(Str(t), [p], time);
      r.Success? && r.value.Some? && |r.value.value| == 1
      && r.value.value[0].id == t && OriginalPath(r.value.value[0]) == p
  {
    ItemsForMatched([t], [p], time);
    assert TextsOf([Str(t)]) == AllPresent([t]);
  }

  // ---------------------------------------------------------------------------------------
  // NSFileManager
  // ---------------------------------------------------------------------------------------

  /**
   * What `trashItemAtURL` did with a path: refused with an error description, or trashed it,
   * with the trash path when the OS reported one.
   */
  datatype TrashOutcome = Refused(description: seq<byte>) | Trashed(location: Option<seq<byte>>)

  /**
   * The file manager, as the loop sees it: what the `n`-th call of `trashItemAtURL` (counting
   * from 0) did with the path given as text. The outcome depends on the call as well as the
   * path, so a path listed twice may be trashed the first time and refused the second.
   */
  type FileManager = (nat, seq<byte>) -> TrashOutcome

  /** The clock, as the loop reads it: `chrono::Local::now()` taken while recording the `n`-th path. */
  type Clock = nat -> int

  /**
   * The loop of `delete_using_file_mgr` from the path at position `i` on; `texts` are the
   * paths' texts, from which the URLs are made. Each path is trashed in order; the first
   * refusal ends the loop with `Unknown`; with item information, each reported trash path
   * gives an item named after the deleted path, with the clock read for that path.
   */
  function FileMgrLoop(paths: seq<FsPath>, texts: seq<seq<byte>>, withInfo: bool, trashAt: FileManager, clock: Clock, i: nat)
    : (r: Result<seq<TrashItem>, Error>)
    requires |texts| == |paths| && i <= |paths|
    ensures r.Success? ==> TrashedFrom(texts, trashAt, i)
    ensures !withInfo ==> (r.Success? <==> TrashedFrom(texts, trashAt, i))
    ensures !withInfo && r.Success? ==> r.value == []
    ensures r.Failure? ==> r.error.Unknown? || r.error == Panic
    decreases |paths| - i
  {
    if i == |paths| then Success([])
    else
      match trashAt(i, texts[i])
      case Refused(d) => Failure(Unknown(d))
      case Trashed(location) =>
        match TrashedItems(paths[i], withInfo, location, clock(i))
        case Failure(e) => Failure(e)
        case Success(first) =>
          match FileMgrLoop(paths, texts, withInfo, trashAt, clock, i + 1)
          case Failure(e) => Failure(e)
          case Success(rest) => Success(first + rest)
  }

  /**
   * What one trashed path adds to the list: with item information and a reported location, the
   * item for it (a panic when the path has no name); otherwise nothing.
   */
  function TrashedItems(p: FsPath, withInfo: bool, location: Option<seq<byte>>, time: int): (r: Result<seq<TrashItem>, Error>)
    ensures !(withInfo && location.Some?) ==> r == Success([])
    ensures r.Failure? ==> r.error == Panic
    ensures withInfo && location.Some? ==>
      (r.Success? <==> ItemFor(location.value, Some(p), time).Success?)
      && (r.Success? ==> r.value == [ItemFor(location.value, Some(p), time).value])
  {
    if withInfo && location.Some? then
      match ItemFor(location.value, Some(p), time)
      case Success(item) => Success([item])
      case Failure(e) => Failure(e)
    else Success([])
  }

  /** Every call from position `i` on trashed its text. */
  predicate TrashedFrom(texts: seq<seq<byte>>, trashAt: FileManager, i: nat)
    requires i <= |texts|
    decreases |texts| - i
  {
    i == |texts| || (trashAt(i, texts[i]).Trashed? && TrashedFrom(texts, trashAt, i + 1))
  }

  /** `TrashedFrom` says of each call from `i` on that it trashed its text. */
  lemma {:induction false} TrashedFromEach(texts: seq<seq<byte>>, trashAt: FileManager, i: nat)
    requires i <= |texts|
    ensures TrashedFrom(texts, trashAt, i) <==> forall j :: i <= j < |texts| ==> trashAt(j, texts[j]).Trashed?
    decreases |texts| - i
  {
    if i < |texts| {
      TrashedFromEach(texts, trashAt, i + 1);
    }
  }

  /**
   * The whole loop of `delete_using_file_mgr`: it succeeds only when every call trashed its
   * path, and without item information exactly then; a failure is a refusal (`Unknown`) or a
   * path without a name or parent (a panic).
   */
  function FileMgrItems(paths: seq<FsPath>, withInfo: bool, trashAt: FileManager, clock: Clock): (r: Result<seq<TrashItem>, Error>)
    ensures r.Success? ==> forall i :: 0 <= i < |paths| ==> trashAt(i, Texts(paths)[i]).Trashed?
    ensures !withInfo ==> (r.Success? <==> forall i :: 0 <= i < |paths| ==> trashAt(i, Texts(paths)[i]).Trashed?)
    ensures !withInfo && r.Success? ==> r.value == []
    ensures r.Failure? ==> r.error.Unknown? || r.error == Panic
  {
    TrashedFromEach(Texts(paths), trashAt, 0);
    FileMgrLoop(paths, Texts(paths), withInfo, trashAt, clock, 0)
  }

  /** The `i`-th call trashed `text` and reported `item.id` as where; `item` is named after `p` and stamped with the `i`-th clock reading. */
  predicate ReportedAs(trashAt: FileManager, clock: Clock, i: nat, text: seq<byte>, p: FsPath, item: TrashItem) {
    trashAt(i, text) == Trashed(Some(item.id)) && OriginalPath(item) == p && item.timeDeleted == clock(i)
  }

  /** Every path is canonical with a name, and its call trashed its text and reported where. */
  predicate AllReported(paths: seq<FsPath>, trashAt: FileManager) {
    ReportsEach(paths, Texts(paths), trashAt)
  }

  /** Every path is canonical with a name, and the call at its position trashed its text and reported where. */
  predicate ReportsEach(paths: seq<FsPath>, texts: seq<seq<byte>>, trashAt: FileManager)
    requires |texts| == |paths|
  {
    forall i :: 0 <= i < |paths| ==>
      (Canonical(paths[i]) && |paths[i].components| > 0
       && trashAt(i, texts[i]).Trashed? && trashAt(i, texts[i]).location.Some?)
  }

  /**
   * When every call trashes its canonical path and reports where it went, there is one item
   * per path, in order, with the reported location as id, the path as original path and the
   * clock reading taken for that path as deletion time.
   */
  lemma FileMgrReported(paths: seq<FsPath>, trashAt: FileManager, clock: Clock)
    requires AllReported(paths, trashAt)
    ensures var r := FileMgrItems(paths, true, trashAt, clock);
      r.Success? && |r.value| == |paths|
      && forall i :: 0 <= i < |paths| ==> ReportedAs(trashAt, clock, i, Texts(paths)[i], paths[i], r.value[i])
  {
    var texts := Texts(paths);
    FileMgrReportedFrom(paths, texts, trashAt, clock, 0);
    assert LoopReports(paths, texts, trashAt, clock, 0);
    var items := FileMgrLoop(paths, texts, true, trashAt, clock, 0).value;
    assert FileMgrItems(paths, true, trashAt, clock) == Success(items);
    assert ReportedFrom(trashAt, clock, paths, texts, 0, items);
    forall i | 0 <= i < |paths| ensures ReportedAs(trashAt, clock, i, texts[i], paths[i], items[i]) {
      assert items[i] == items[i - 0];
    }
  }

  /** `items` are the items reported for the paths from position `i` on, one each, in order. */
  predicate ReportedFrom(trashAt: FileManager, clock: Clock, paths: seq<FsPath>, texts: seq<seq<byte>>, i: nat, items: seq<TrashItem>)
    requires |texts| == |paths| && i <= |paths|
  {
    |items| == |paths| - i
    && forall j :: i <= j < |paths| ==> ReportedAs(trashAt, clock, j, texts[j], paths[j], items[j - i])
  }

  /** `FileMgrReported` for the loop from position `i` on. */
  lemma {:induction false} FileMgrReportedFrom(paths: seq<FsPath>, texts: seq<seq<byte>>, trashAt: FileManager, clock: Clock, i: nat)
    requires |texts| == |paths| && i <= |paths|
    requires ReportsEach(paths, texts, trashAt)
    ensures LoopReports(paths, texts, trashAt, clock, i)
    decreases |paths| - i
  {
    if i < |paths| {
      assert LoopReports(paths, texts, trashAt, clock, i) by {
        FileMgrReportedFrom(paths, texts, trashAt, clock, i + 1);
        ReportedStep(paths, texts, trashAt, clock, i);
      }
    } else {
      assert FileMgrLoop(paths, texts, true, trashAt, clock, i) == Success([]);
    }
  }

  /** The loop from position `i` on succeeds with the items reported for those paths. */
  predicate LoopReports(paths: seq<FsPath>, texts: seq<seq<byte>>, trashAt: FileManager, clock: Clock, i: nat)
    requires |texts| == |paths| && i <= |paths|
  {
    var r := FileMgrLoop(paths, texts, true, trashAt, clock, i);
    r.Success? && ReportedFrom(trashAt, clock, paths, texts, i, r.value)
  }

  /** A report from position `i + 1` on extends, through the path at `i`, to one from `i` on. */
  lemma ReportedStep(paths: seq<FsPath>, texts: seq<seq<byte>>, trashAt: FileManager, clock: Clock, i: nat)
    requires |texts| == |paths| && i < |paths|
    requires ReportsEach(paths, texts, trashAt)
    requires LoopReports(paths, texts, trashAt, clock, i + 1)
    ensures LoopReports(paths, texts, trashAt, clock, i)
  {
    var rest := FileMgrLoop(paths, texts, true, trashAt, clock, i + 1).value;
    var item := ReportedHead(paths, texts, trashAt, clock, i);
    LoopStep(paths, texts, trashAt, clock, i, [item], rest);
    ReportedCons(trashAt, clock, paths, texts, i, item, rest);
  }

  /** A path that is trashed and adds `first` puts `first` before what the rest of the loop gives. */
  lemma LoopStep(paths: seq<FsPath>, texts: seq<seq<byte>>, trashAt: FileManager, clock: Clock, i: nat, first: seq<TrashItem>, rest: seq<TrashItem>)
    requires |texts| == |paths| && i < |paths|
    requires trashAt(i, texts[i]).Trashed?
    requires TrashedItems(paths[i], true, trashAt(i, texts[i]).location, clock(i)) == Success(first)
    requires FileMgrLoop(paths, texts, true, trashAt, clock, i + 1) == Success(rest)
    ensures FileMgrLoop(paths, texts, true, trashAt, clock, i) == Success(first + rest)
  {
  }

  /** The path at position `i` adds exactly its reported item. */
  lemma ReportedHead(paths: seq<FsPath>, texts: seq<seq<byte>>, trashAt: FileManager, clock: Clock, i: nat) returns (item: TrashItem)
    requires |texts| == |paths| && i < |paths|
    requires ReportsEach(paths, texts, trashAt)
    ensures trashAt(i, texts[i]).Trashed?
    ensures TrashedItems(paths[i], true, trashAt(i, texts[i]).location, clock(i)) == Success([item])
    ensures ReportedAs(trashAt, clock, i, texts[i], paths[i], item)
  {
    var loc := trashAt(i, texts[i]).location.value;
    ItemForOriginalPath(loc, paths[i], clock(i));
    item := ItemFor(loc, Some(paths[i]), clock(i)).value;
  }

  /** Prepending the item for position `i` extends a report from `i + 1` to one from `i`. */
  lemma ReportedCons(trashAt: FileManager, clock: Clock, paths: seq<FsPath>, texts: seq<seq<byte>>, i: nat, item: TrashItem, rest: seq<TrashItem>)
    requires |texts| == |paths| && i < |paths|
    requires ReportedAs(trashAt, clock, i, texts[i], paths[i], item)
    requires ReportedFrom(trashAt, clock, paths, texts, i + 1, rest)
    ensures ReportedFrom(trashAt, clock, paths, texts, i, [item] + rest)
  {
    forall j | i < j < |paths| ensures ReportedAs(trashAt, clock, j, texts[j], paths[j], ([item] + rest)[j - i]) {
      assert ([item] + rest)[j - i] == rest[j - (i + 1)];
    }
  }

  /**
   * The file manager is consulted per call: a path listed twice is trashed by the first call,
   * and when the second call finds nothing left and refuses, the whole delete is `Unknown`.
   */
  lemma FileMgrRepeatRefused(p: FsPath, trashAt: FileManager, clock: Clock, d: seq<byte>)
    requires trashAt(0, PathText(p)) == Trashed(None) && trashAt(1, PathText(p)) == Refused(d)
    ensures FileMgrItems([p, p], true, trashAt, clock) == Failure(Unknown(d))
  {
    var texts := Texts([p, p]);
    assert texts[0] == PathText(p) && texts[1] == PathText(p);
    assert FileMgrLoop([p, p], texts, true, trashAt, clock, 1) == Failure(Unknown(d));
  }

  /** `delete_using_file_mgr`: the items when asked for them, else nothing. */
  function DeleteUsingFileMgr(paths: seq<FsPath>, withInfo: bool, trashAt: FileManager, clock: Clock): (r: Result<Option<seq<TrashItem>>, Error>)
    ensures r.Success? ==> (r.value.Some? <==> withInfo)
    ensures r.Success? <==> FileMgrItems(paths, withInfo, trashAt, clock).Success?
  {
    var items :- FileMgrItems(paths, withInfo, trashAt, clock);
    if withInfo then Success(Some(items)) else Success(None)
  }

  // ---------------------------------------------------------------------------------------
  // Running the script, and the whole delete
  // ---------------------------------------------------------------------------------------

  /** What running `osascript -e <script>` gave: no process, or its exit and output. */
  datatype CliRun =
    | SpawnFailed(description: seq<byte>)
    | Exited(success: bool, code: Option<int>, stdout: seq<byte>, stderr: seq<byte>)

  /** What compiling and executing the script through OSAKit gave. */
  datatype OsakitRun = CompileFailed(description: seq<byte>) | ExecuteFailed(description: seq<byte>) | Returned(value: ScriptValue)

  /**
   * The operating system as the back end sees it. Finder's routines read the clock once per
   * call and take it as a parameter; the file manager's loop reads `clock` once per item.
   */
  datatype Platform = Platform(
    osascript: seq<byte> -> CliRun,
    osakit: seq<byte> -> OsakitRun,
    trashAt: FileManager,
    clock: Clock)

  /** A script that `osascript` could not run or that exited unsuccessfully. */
  function CliFailure(run: CliRun): Error
    requires !(run.Exited? && run.success)
  {
    match run
    case SpawnFailed(d) => Unknown(d)
    case Exited(_, code, _, stderr) => if code.Some? then Os(code.value, stderr) else Unknown(stderr)
  }

  /**
   * `delete_using_finder`: the script that names every path, run through `osascript` or OSAKit;
   * a failed run is an error, and a successful one gives items only when they were asked for.
   */
  function DeleteUsingFinder(paths: seq<FsPath>, withInfo: bool, asCli: bool, platform: Platform, time: int, corrected: bool): (r: Result<Option<seq<TrashItem>>, Error>)
    ensures !withInfo && r.Success? ==> r.value.None?
    ensures asCli ==> var run := platform.osascript(FinderScript(PosixFiles(paths), withInfo, true));
      && (r.Success? ==> run.Exited? && run.success)
      && (run.SpawnFailed? ==> r == Failure(Unknown(run.description)))
      && (run.Exited? && !run.success && run.code.Some? ==> r == Failure(Os(run.code.value, run.stderr)))
      && (run.Exited? && !run.success && run.code.None? ==> r == Failure(Unknown(run.stderr)))
      && (run.Exited? && run.success && withInfo ==> r == CliItems(run.stdout, paths, time, corrected))
    ensures !asCli ==> var run := platform.osakit(FinderScript(PosixFiles(paths), withInfo, false));
      && (run.CompileFailed? || run.ExecuteFailed? ==> r == Failure(Unknown(run.description)))
      && (run.Returned? && withInfo ==> r == OsakitItems(run.value, paths, time))
  {
    var script := FinderScript(PosixFiles(paths), withInfo, asCli);
    if asCli then
      var run := platform.osascript(script);
      if run.Exited? && run.success then
        if withInfo then CliItems(run.stdout, paths, time, corrected) else Success(None)
      else Failure(CliFailure(run))
    else
      match platform.osakit(script)
      case CompileFailed(d) => Failure(Unknown(d))
      case ExecuteFailed(d) => Failure(Unknown(d))
      case Returned(v) => if withInfo then OsakitItems(v, paths, time) else Success(None)
  }

  /**
   * Finder deletion as written and corrected agree unless `osascript` succeeded with item
   * information asked for and printed nothing but a newline.
   */
  lemma FinderAgrees(paths: seq<FsPath>, withInfo: bool, asCli: bool, platform: Platform, time: int)
    requires var run := platform.osascript(FinderScript(PosixFiles(paths), withInfo, true));
      asCli && withInfo && run.Exited? && run.success ==> Stripped(run.stdout) != []
    ensures DeleteUsingFinder(paths, withInfo, asCli, platform, time, false) == DeleteUsingFinder(paths, withInfo, asCli, platform, time, true)
  {
  }

  /**
   * `delete_all_canonicalized`: the routine the context selects. Items come back only when
   * asked for; with `NSFileManager` the outcome is the file manager's; with Finder through
   * `osascript` success needs a successful run of the script and a failed spawn is `Unknown`;
   * with OSAKit a script that fails to compile or run is `Unknown`.
   */
  function DeleteAllCanonicalized(c: Context, paths: seq<FsPath>, withInfo: bool, platform: Platform, time: int, corrected: bool): (r: Result<Option<seq<TrashItem>>, Error>)
    ensures !withInfo && r.Success? ==> r.value.None?
    ensures c.deleteMethod == NsFileManager ==>
      (r.Success? <==> FileMgrItems(paths, withInfo, platform.trashAt, platform.clock).Success?)
    ensures c.deleteMethod == Finder && c.scriptMethod == Cli ==>
      var run := platform.osascript(FinderScript(PosixFiles(paths), withInfo, true));
      && (r.Success? ==> run.Exited? && run.success)
      && (run.SpawnFailed? ==> r == Failure(Unknown(run.description)))
    ensures c.deleteMethod == Finder && c.scriptMethod == Osakit ==>
      var run := platform.osakit(FinderScript(PosixFiles(paths), withInfo, false));
      run.CompileFailed? || run.ExecuteFailed? ==> r == Failure(Unknown(run.description))
  {
    match BackendOf(c)
    case FinderCli => DeleteUsingFinder(paths, withInfo, true, platform, time, corrected)
    case FinderOsakit => DeleteUsingFinder(paths, withInfo, false, platform, time, corrected)
    case FileManager => DeleteUsingFileMgr(paths, withInfo, platform.trashAt, platform.clock)
  }

  /**
   * Each back end consults only its own part of the operating system: a context that uses Finder
   * through `osascript` gives the same result on two platforms that run `osascript` alike, and
   * likewise for OSAKit and `NSFileManager`.
   */
  lemma DispatchUsesOwnBackend(c: Context, paths: seq<FsPath>, withInfo: bool, p1: Platform, p2: Platform, time: int, corrected: bool)
    requires BackendOf(c) == FinderCli ==> p1.osascript == p2.osascript
    requires BackendOf(c) == FinderOsakit ==> p1.osakit == p2.osakit
    requires BackendOf(c) == FileManager ==> p1.trashAt == p2.trashAt && p1.clock == p2.clock
    ensures DeleteAllCanonicalized(c, paths, withInfo, p1, time, corrected) == DeleteAllCanonicalized(c, paths, withInfo, p2, time, corrected)
  {
  }

  /**
   * With the default context and item information asked for, the run `osascript` script names
   * every path, and separable reported paths come back one item per path, as written and corrected.
   */
  lemma DefaultDeleteReported(paths: seq<FsPath>, platform: Platform, ids: seq<seq<byte>>, time: int, corrected: bool)
    requires |ids| == |paths| > 0 && forall k :: 0 <= k < |ids| ==> SeparableId(ids[k])
    requires forall i :: 0 <= i < |paths| ==> Canonical(paths[i]) && |paths[i].components| > 0
    requires platform.osascript(FinderScript(PosixFiles(paths), true, true)) == Exited(true, Some(0), JoinPattern(ids, LIST_SEP) + [LF], [])
    ensures var r := DeleteAllCanonicalized(NewContext(), paths, true, platform, time, corrected);
      r.Success? && r.value.Some? && PairsInOrder(r.value.value, ids, paths)
  {
    var out := JoinPattern(ids, LIST_SEP) + [LF];
    DefaultGivesCliItems(paths, platform, out, time, corrected);
    CliItemsMatched(ids, paths, time, corrected);
    assert DeleteAllCanonicalized(NewContext(), paths, true, platform, time, corrected) == CliItems(out, paths, time, corrected);
  }

  /** One separable reported path per deleted path gives the items pairing them, in order. */
  lemma CliItemsMatched(ids: seq<seq<byte>>, paths: seq<FsPath>, time: int, corrected: bool)
    requires |ids| == |paths| > 0 && forall k :: 0 <= k < |ids| ==> SeparableId(ids[k])
    requires forall i :: 0 <= i < |paths| ==> Canonical(paths[i]) && |paths[i].components| > 0
    ensures var r := CliItems(JoinPattern(ids, LIST_SEP) + [LF], paths, time, corrected);
      r.Success? && r.value.Some? && PairsInOrder(r.value.value, ids, paths)
  {
    NonEmptyOutput(ids);
    CliItemsReported(ids, paths, time);
  }

  /** A new context deletes through Finder run by `osascript`; a successful run gives the items of its output. */
  lemma DefaultGivesCliItems(paths: seq<FsPath>, platform: Platform, out: seq<byte>, time: int, corrected: bool)
    requires platform.osascript(FinderScript(PosixFiles(paths), true, true)).Exited?
    requires platform.osascript(FinderScript(PosixFiles(paths), true, true)).success
    requires platform.osascript(FinderScript(PosixFiles(paths), true, true)).stdout == out
    ensures DeleteAllCanonicalized(NewContext(), paths, true, platform, time, corrected) == CliItems(out, paths, time, corrected)
  {
    assert BackendOf(NewContext()) == FinderCli;
  }

  /** Output naming at least one non-empty path is not taken for an empty report. */
  lemma NonEmptyOutput(ids: seq<seq<byte>>)
    requires |ids| > 0 && |ids[0]| > 0
    ensures Stripped(JoinPattern(ids, LIST_SEP) + [LF]) == JoinPattern(ids, LIST_SEP) != []
  {
    var out := JoinPattern(ids, LIST_SEP) + [LF];
    assert out[|out| - 1..] == [LF];
    assert |JoinPattern(ids, LIST_SEP)| >= |ids[0]|;
  }
}
