/**
 * The freedesktop.org engine's read side: parsing `.trashinfo` files back into items (`list`),
 * and `purge_all` and `restore_all`, which find an item's content from its info file's path.
 */
module FreedesktopItems {
  import opened Wrappers
  import opened Bytes
  import opened Sequences
  import opened Text
  import opened FsPaths
  import opened AbstractFs
  import opened Trash
  import opened Freedesktop

  // ---------------------------------------------------------------------------------------
  // Key-value lines
  // ---------------------------------------------------------------------------------------

  /**
   * A line as `list` reads it: `split('=')`, the first piece trimmed as the key and the second
   * trimmed as the value. A line without `=` panics (`unwrap` on the missing second piece).
   */
  function KeyValue(line: seq<byte>): (r: Result<(seq<byte>, seq<byte>), Error>)
    ensures r.Failure? <==> EQUALS !in line
    ensures r.Failure? ==> r.error == Panic
  {
    var pieces := SplitOn(line, EQUALS);
    if |pieces| < 2 then
      assert EQUALS !in line by {
        JoinSplit(line, EQUALS);
      }
      Failure(Panic)
    else
      assert EQUALS in line by {
        SplitOnSeparatorFree(line, EQUALS);
      }
      Success((Trim(pieces[0]), Trim(pieces[1])))
  }

  /** The corrected reading: the value is everything after the first `=`, trimmed. */
  function KeyValueFixed(line: seq<byte>): (r: Result<(seq<byte>, seq<byte>), Error>)
    ensures r.Failure? <==> EQUALS !in line
    ensures r.Failure? ==> r.error == Panic
  {
    var pieces := SplitOn(line, EQUALS);
    if |pieces| < 2 then
      assert EQUALS !in line by {
        JoinSplit(line, EQUALS);
      }
      Failure(Panic)
    else
      assert EQUALS in line by {
        SplitOnSeparatorFree(line, EQUALS);
      }
      Success((Trim(pieces[0]), Trim(JoinWith(pieces[1..], EQUALS))))
  }

  /** A sequence splits into one piece exactly when it holds no separator. */
  lemma SplitOnSeparatorFree<T>(s: seq<T>, sep: T)
    ensures sep !in s <==> |SplitOn(s, sep)| == 1
  {
    JoinSplit(s, sep);
    if sep !in s {
      SplitSeparatorFree(s, sep);
    }
  }

  /** A separator-free head is split off as the first piece. */
  lemma {:induction false} SplitOnHead<T>(head: seq<T>, sep: T, rest: seq<T>)
    requires sep !in head
    ensures SplitOn(head + [sep] + rest, sep) == [head] + SplitOn(rest, sep)
    decreases |head|
  {
    var s := head + [sep] + rest;
    if |head| == 0 {
      assert s == [sep] + rest;
      assert s[1..] == rest;
    } else {
      SplitOnHead(head[1..], sep, rest);
      assert s[1..] == head[1..] + [sep] + rest;
      assert head == [head[0]] + head[1..];
    }
  }

  /** The corrected reading gives back a key and a trimmed value, `=` or not in the value. */
  lemma KeyValueFixedRoundTrip(key: seq<byte>, value: seq<byte>)
    requires EQUALS !in key && Trim(key) == key && Trim(value) == value
    ensures KeyValueFixed(key + [EQUALS] + value) == Success((key, value))
  {
    SplitOnHead(key, EQUALS, value);
    var pieces := SplitOn(key + [EQUALS] + value, EQUALS);
    assert pieces[1..] == SplitOn(value, EQUALS);
    JoinSplit(value, EQUALS);
  }

  /** Reading as written keeps only the text between the first and the second `=`. */
  lemma KeyValueTruncates(key: seq<byte>, a: seq<byte>, b: seq<byte>)
    requires EQUALS !in key && EQUALS !in a
    ensures KeyValue(key + [EQUALS] + (a + [EQUALS] + b)) == Success((Trim(key), Trim(a)))
    ensures KeyValueFixed(key + [EQUALS] + (a + [EQUALS] + b)) == Success((Trim(key), Trim(a + [EQUALS] + b)))
  {
    SplitOnHead(key, EQUALS, a + [EQUALS] + b);
    SplitOnHead(a, EQUALS, b);
    var pieces := SplitOn(key + [EQUALS] + (a + [EQUALS] + b), EQUALS);
    assert pieces[1..] == SplitOn(a + [EQUALS] + b, EQUALS);
    JoinSplit(a + [EQUALS] + b, EQUALS);
  }

  /** Without a second `=`, both readings agree. */
  lemma KeyValueAgree(key: seq<byte>, value: seq<byte>)
    requires EQUALS !in key && EQUALS !in value
    ensures KeyValue(key + [EQUALS] + value) == KeyValueFixed(key + [EQUALS] + value)
  {
    SplitOnHead(key, EQUALS, value);
    SplitSeparatorFree(value, EQUALS);
    var pieces := SplitOn(key + [EQUALS] + value, EQUALS);
    assert pieces == [key, value];
    assert pieces[1..] == [value];
  }

  /** A line read as written (`KeyValue`) or corrected (`KeyValueFixed`); they differ only past a second `=`. */
  function ReadRecord(line: seq<byte>, corrected: bool): (r: Result<(seq<byte>, seq<byte>), Error>)
    ensures r.Failure? <==> EQUALS !in line
    ensures r.Failure? ==> r.error == Panic
    ensures |SplitOn(line, EQUALS)| <= 2 ==> r == KeyValueFixed(line)
  {
    var pieces := SplitOn(line, EQUALS);
    assert |pieces| == 2 ==> pieces[1..] == [pieces[1]];
    if corrected then KeyValueFixed(line) else KeyValue(line)
  }

  /**
   * The records of an info file after its header line: lines are read until one is not valid
   * UTF-8 (`lines()` yields an error there and the loop stops), and each is split into a key and
   * a value.
   */
  function Records(lines: seq<seq<byte>>, corrected: bool): (r: Result<seq<(seq<byte>, seq<byte>)>, Error>)
    ensures r.Success? ==> |r.value| <= |lines|
    ensures r.Failure? ==> r.error == Panic
    ensures r.Failure? ==> exists i :: 0 <= i < |lines| && EQUALS !in lines[i]
    decreases |lines|
  {
    if |lines| == 0 || !ValidUtf8(lines[0]) then Success([])
    else
      var kv :- ReadRecord(lines[0], corrected);
      var rest := Records(lines[1..], corrected);
      if rest.Failure? then
        MissingInTail(lines, EQUALS);
        Failure(rest.error)
      else Success([kv] + rest.value)
  }

  /** Every line splits into at most two pieces at `=`. */
  predicate OneEqualsEach(lines: seq<seq<byte>>) {
    forall i :: 0 <= i < |lines| ==> |SplitOn(lines[i], EQUALS)| <= 2
  }

  /** Lines without a second `=` give the same records as written and corrected. */
  lemma {:induction false} RecordsAgree(lines: seq<seq<byte>>)
    requires OneEqualsEach(lines)
    ensures Records(lines, false) == Records(lines, true)
    decreases |lines|
  {
    if |lines| > 0 && ValidUtf8(lines[0]) {
      assert OneEqualsEach(lines[1..]) by {
        forall i | 0 <= i < |lines[1..]| ensures |SplitOn(lines[1..][i], EQUALS)| <= 2 {
          assert lines[1..][i] == lines[i + 1];
        }
      }
      RecordsAgree(lines[1..]);
      assert ReadRecord(lines[0], false) == ReadRecord(lines[0], true);
    }
  }

  /** A record key as the engine writes it: ASCII, no line break, no `=`, no surrounding blanks. */
  predicate PlainKey(k: seq<byte>) {
    && |k| > 0 && AllAscii(k) && LF !in k && EQUALS !in k
    && !IsWhitespace(k[0]) && !IsWhitespace(k[|k| - 1]) && k[|k| - 1] != CR
  }

  lemma KeysPlain()
    ensures PlainKey(PATH_KEY()) && PlainKey(DATE_KEY())
    ensures LF !in HEADER() && HEADER()[|HEADER()| - 1] != CR
  {
    assert PATH_KEY() == [0x50, 0x61, 0x74, 0x68];
    assert DATE_KEY() == [0x44, 0x65, 0x6C, 0x65, 0x74, 0x69, 0x6F, 0x6E, 0x44, 0x61, 0x74, 0x65];
    assert HEADER() == [0x5B, 0x54, 0x72, 0x61, 0x73, 0x68, 0x20, 0x49, 0x6E, 0x66, 0x6F, 0x5D];
  }

  /** A line `key=value` ends in a byte other than `\r` and holds no `\n`. */
  lemma RecordLineShape(key: seq<byte>, value: seq<byte>)
    requires PlainKey(key) && LF !in value && Trim(value) == value
    ensures var line := key + [EQUALS] + value;
            LF !in line && line[|line| - 1] != CR
  {
    var line := key + [EQUALS] + value;
    if |value| > 0 {
      TrimmedEnd(value);
      assert line[|line| - 1] == value[|value| - 1];
    }
  }

  /** The lines of an info file are the three lines written. */
  lemma InfoLinesRead(value: seq<byte>, date: seq<byte>)
    requires LF !in value && LF !in date
    requires Trim(value) == value && Trim(date) == date
    ensures Lines(InfoText(value, date)) == InfoLines(value, date)
  {
    KeysPlain();
    RecordLineShape(PATH_KEY(), value);
    RecordLineShape(DATE_KEY(), date);
    LinesOfTerminated(InfoLines(value, date));
  }

  /** A written record line is valid UTF-8. */
  lemma RecordValid(key: seq<byte>, value: seq<byte>)
    requires AllAscii(key) && ValidUtf8(value)
    ensures ValidUtf8(key + [EQUALS] + value)
  {
    var head := key + [EQUALS];
    assert AllAscii(head) by {
      forall i | 0 <= i < |head| ensures head[i] < 0x80 {
        if i < |key| {
          assert head[i] == key[i];
        }
      }
    }
    AsciiValid(head);
    ConcatValid(head, value);
  }

  /**
   * A written record line is valid UTF-8 and reads back as its key and value: always corrected,
   * and as written when the value holds no `=`.
   */
  lemma RecordRead(key: seq<byte>, value: seq<byte>, corrected: bool)
    requires PlainKey(key) && ValidUtf8(value) && Trim(value) == value
    ensures ValidUtf8(key + [EQUALS] + value)
    ensures corrected || EQUALS !in value ==> ReadRecord(key + [EQUALS] + value, corrected) == Success((key, value))
  {
    RecordValid(key, value);
    PlainKeyRead(key, value);
    if EQUALS !in value {
      KeyValueAgree(key, value);
    }
  }

  /** The corrected reading gives back a record key and a trimmed value. */
  lemma PlainKeyRead(key: seq<byte>, value: seq<byte>)
    requires PlainKey(key) && Trim(value) == value
    ensures KeyValueFixed(key + [EQUALS] + value) == Success((key, value))
  {
    AsciiTrimmed(key);
    KeyValueFixedRoundTrip(key, value);
  }

  /** A readable first line contributes its record ahead of the rest. */
  lemma {:induction false} RecordsCons(lines: seq<seq<byte>>, corrected: bool)
    requires |lines| > 0 && ValidUtf8(lines[0])
    requires ReadRecord(lines[0], corrected).Success? && Records(lines[1..], corrected).Success?
    ensures Records(lines, corrected) == Success([ReadRecord(lines[0], corrected).value] + Records(lines[1..], corrected).value)
  {
  }

  /** Two readable lines give their two records. */
  lemma {:induction false} RecordsTwo(l1: seq<byte>, l2: seq<byte>, corrected: bool)
    requires ValidUtf8(l1) && ValidUtf8(l2)
    requires ReadRecord(l1, corrected).Success? && ReadRecord(l2, corrected).Success?
    ensures Records([l1, l2], corrected) == Success([ReadRecord(l1, corrected).value, ReadRecord(l2, corrected).value])
  {
    var one: seq<seq<byte>> := [l2];
    var two: seq<seq<byte>> := [l1, l2];
    var none: seq<seq<byte>> := [];
    assert one[1..] == none;
    assert Records(none, corrected) == Success([]);
    RecordsCons(one, corrected);
    var kv2 := ReadRecord(l2, corrected).value;
    assert Records(none, corrected).value == [];
    assert [kv2] + Records(none, corrected).value == [kv2];
    assert Records(one, corrected) == Success([kv2]);
    assert two[1..] == one;
    RecordsCons(two, corrected);
    assert [ReadRecord(l1, corrected).value] + [kv2] == [ReadRecord(l1, corrected).value, kv2];
  }

  /**
   * Reading back an info file: the lines written by `InfoText` give the two records written,
   * for values that are valid UTF-8, trimmed and free of line breaks; as written, only when
   * neither value holds `=`.
   */
  lemma InfoRoundTrip(value: seq<byte>, date: seq<byte>, corrected: bool)
    requires ValidUtf8(value) && ValidUtf8(date)
    requires LF !in value && LF !in date
    requires Trim(value) == value && Trim(date) == date
    ensures |Lines(InfoText(value, date))| == 3
    ensures corrected || (EQUALS !in value && EQUALS !in date) ==>
      Records(Lines(InfoText(value, date))[1..], corrected) == Success([(PATH_KEY(), value), (DATE_KEY(), date)])
  {
    InfoLinesRead(value, date);
    KeysPlain();
    var pathLine := PATH_KEY() + [EQUALS] + value;
    var dateLine := DATE_KEY() + [EQUALS] + date;
    RecordRead(PATH_KEY(), value, corrected);
    RecordRead(DATE_KEY(), date, corrected);
    assert InfoLines(value, date)[1..] == [pathLine, dateLine];
    if corrected || (EQUALS !in value && EQUALS !in date) {
      RecordsTwo(pathLine, dateLine, corrected);
    }
  }

  // ---------------------------------------------------------------------------------------
  // Interpreting the records
  // ---------------------------------------------------------------------------------------

  /**
   * The two foreign conversions `list` relies on: turning a `file://` URL path back into a file
   * path (`Url::parse(..).to_file_path()`, `None` wherever one of its `unwrap`s would panic) and
   * parsing an RFC 3339 date into a Unix timestamp (`None` on a parse error).
   */
  datatype Decoders = Decoders(decodePath: seq<byte> -> Option<seq<byte>>, parseDate: seq<byte> -> Option<int>)

  /** What has been read of an item so far; a later record of the same key overrides an earlier one. */
  datatype Fields = Fields(name: Option<seq<byte>>, originalParent: Option<FsPath>, timeDeleted: Option<int>)

  /** The path a `Path` value names: an absolute value as it is, a relative one joined onto `base`. */
  function ResolvePath(value: seq<byte>, base: FsPath): (r: FsPath)
    ensures !ParsePath(value).absolute ==> r.absolute == base.absolute
    ensures ParsePath(value).absolute ==> r == ParsePath(value)
  {
    var p := ParsePath(value);
    if IsRelative(p) then Join(base, p) else p
  }

  /** A relative value of one name resolves to that name in `base`. */
  lemma ResolveName(n: seq<byte>, base: FsPath)
    requires IsName(n)
    ensures ResolvePath(n, base) == Child(base, n)
  {
    NameParses(n);
    JoinName(base, n);
  }

  /**
   * The file path a `Path` value stands for: resolved, required to be UTF-8 (`to_str().unwrap()`),
   * and decoded from its URL form. Each failure is a panic.
   */
  function DecodedPath(value: seq<byte>, base: FsPath, dec: Decoders): (r: Result<FsPath, Error>)
    ensures r.Failure? ==> r.error == Panic
    ensures r.Success? <==> ValidUtf8(Display(ResolvePath(value, base))) && dec.decodePath(Display(ResolvePath(value, base))).Some?
    ensures r.Success? ==> r.value == ParsePath(dec.decodePath(Display(ResolvePath(value, base))).value)
  {
    var full := Display(ResolvePath(value, base));
    if !ValidUtf8(full) then Failure(Panic)
    else match dec.decodePath(full)
      case None => Failure(Panic)
      case Some(decoded) => Success(ParsePath(decoded))
  }

  /**
   * One record applied to the fields read so far. `Path` sets the name and the original parent
   * from the decoded path (panicking when it has no file name or the name is not UTF-8);
   * `DeletionDate` sets the time from the value with a `Z` appended; other keys are ignored.
   */
  function ApplyRecord(f: Fields, key: seq<byte>, value: seq<byte>, base: FsPath, dec: Decoders): (r: Result<Fields, Error>)
    ensures r.Failure? ==> r.error == Panic
    ensures r.Success? && key == PATH_KEY() ==>
      && r.value.timeDeleted == f.timeDeleted
      && r.value.name.Some? && r.value.originalParent.Some? && IsName(r.value.name.value)
      && DecodedPath(value, base, dec) == Success(Child(r.value.originalParent.value, r.value.name.value))
    ensures r.Success? && key == DATE_KEY() ==>
      r.value == f.(timeDeleted := dec.parseDate(value + [0x5A]))
    ensures key != PATH_KEY() && key != DATE_KEY() ==> r == Success(f)
    ensures key == DATE_KEY() ==> (r.Success? <==> dec.parseDate(value + [0x5A]).Some?)
  {
    if key == PATH_KEY() then
      var full :- DecodedPath(value, base, dec);
      match FileName(full)
      case None => Failure(Panic)
      case Some(name) =>
        if !ValidUtf8(name) then Failure(Panic)
        else
          ParentChild(full);
          assert IsName(name) by {
            assert full.components[|full.components| - 1] == Normal(name);
          }
          Success(f.(name := Some(name), originalParent := Parent(full)))
    else if key == DATE_KEY() then
      match dec.parseDate(value + [0x5A])
      case None => Failure(Panic)
      case Some(t) => Success(f.(timeDeleted := Some(t)))
    else Success(f)
  }

  /** A name is set exactly when a parent is, and is a plain file name. */
  predicate Consistent(f: Fields) {
    (f.name.Some? <==> f.originalParent.Some?) && (f.name.Some? ==> IsName(f.name.value))
  }

  /** The records applied in order. */
  function Interpret(records: seq<(seq<byte>, seq<byte>)>, base: FsPath, dec: Decoders, f: Fields): (r: Result<Fields, Error>)
    ensures r.Failure? ==> r.error == Panic
    ensures r.Success? && Consistent(f) ==> Consistent(r.value)
    ensures r.Success? && (forall k :: 0 <= k < |records| ==> records[k].0 != PATH_KEY()) ==>
      r.value.name == f.name && r.value.originalParent == f.originalParent
    ensures r.Success? && (forall k :: 0 <= k < |records| ==> records[k].0 != DATE_KEY()) ==>
      r.value.timeDeleted == f.timeDeleted
    decreases |records|
  {
    if |records| == 0 then Success(f)
    else
      var f1 :- ApplyRecord(f, records[0].0, records[0].1, base, dec);
      Interpret(records[1..], base, dec, f1)
  }

  /** The lines after the first, which `list` skips as the `[Trash Info]` header. */
  function AfterHeader(lines: seq<seq<byte>>): (r: seq<seq<byte>>)
    ensures |lines| > 0 ==> r == lines[1..]
    ensures |lines| == 0 ==> r == []
  {
    if |lines| == 0 then [] else lines[1..]
  }

  /**
   * The item an info file at `infoPath` describes, its id being the info file's path; `None` when
   * the file lacks a name, a parent or a time.
   */
  function ItemOf(infoPath: FsPath, text: seq<byte>, base: FsPath, dec: Decoders, corrected: bool): (r: Result<Option<TrashItem>, Error>)
    ensures r.Failure? ==> r.error == Panic
    ensures r.Success? && r.value.Some? ==> r.value.value.id == Display(infoPath) && IsName(r.value.value.name)
  {
    var records :- Records(AfterHeader(Lines(text)), corrected);
    assert Consistent(Fields(None, None, None));
    var f :- Interpret(records, base, dec, Fields(None, None, None));
    assert Consistent(f);
    if f.name.Some? && f.originalParent.Some? && f.timeDeleted.Some? then
      Success(Some(TrashItem(Display(infoPath), f.name.value, f.originalParent.value, f.timeDeleted.value)))
    else Success(None)
  }

  /** An info file without a second `=` on any line reads the same as written and corrected. */
  lemma ItemOfAgrees(infoPath: FsPath, text: seq<byte>, base: FsPath, dec: Decoders)
    requires OneEqualsEach(AfterHeader(Lines(text)))
    ensures ItemOf(infoPath, text, base, dec, false) == ItemOf(infoPath, text, base, dec, true)
  {
    RecordsAgree(AfterHeader(Lines(text)));
  }

  /**
   * Listing reads back what deleting wrote: for an info file holding a `Path` value that decodes
   * to a path with a name, and a date that parses, the item has that name, that path's parent,
   * that time, and its original path is the decoded path. As written, this needs values without `=`.
   */
  lemma ItemOfRoundTrip(infoPath: FsPath, value: seq<byte>, date: seq<byte>, base: FsPath, dec: Decoders, corrected: bool)
    requires ValidUtf8(value) && ValidUtf8(date)
    requires LF !in value && LF !in date
    requires Trim(value) == value && Trim(date) == date
    requires DecodedPath(value, base, dec).Success?
    requires FileName(DecodedPath(value, base, dec).value).Some?
    requires ValidUtf8(FileName(DecodedPath(value, base, dec).value).value)
    requires dec.parseDate(date + [0x5A]).Some?
    ensures corrected || (EQUALS !in value && EQUALS !in date) ==>
      var full := DecodedPath(value, base, dec).value;
      var r := ItemOf(infoPath, InfoText(value, date), base, dec, corrected);
      && r == Success(Some(TrashItem(Display(infoPath), FileName(full).value, Parent(full).value, dec.parseDate(date + [0x5A]).value)))
      && r.value.value.id == Display(infoPath)
      && OriginalPath(r.value.value) == full
  {
    if corrected || (EQUALS !in value && EQUALS !in date) {
      var full := DecodedPath(value, base, dec).value;
      var text := InfoText(value, date);
      InfoRoundTrip(value, date, corrected);
      var records := [(PATH_KEY(), value), (DATE_KEY(), date)];
      assert Records(AfterHeader(Lines(text)), corrected) == Success(records);
      FieldsRead(value, date, base, dec);
      ParentChild(full);
      ItemOfFields(infoPath, text, base, dec, corrected, records, Fields(FileName(full), Parent(full), dec.parseDate(date + [0x5A])));
      var item := TrashItem(Display(infoPath), FileName(full).value, Parent(full).value, dec.parseDate(date + [0x5A]).value);
      JoinName(item.originalParent, item.name);
    }
  }

  /** An info file whose records fill in all three fields describes the item they name. */
  lemma ItemOfFields(infoPath: FsPath, text: seq<byte>, base: FsPath, dec: Decoders, corrected: bool, records: seq<(seq<byte>, seq<byte>)>, f: Fields)
    requires Records(AfterHeader(Lines(text)), corrected) == Success(records)
    requires Interpret(records, base, dec, Fields(None, None, None)) == Success(f)
    requires f.name.Some? && f.originalParent.Some? && f.timeDeleted.Some?
    ensures ItemOf(infoPath, text, base, dec, corrected) == Success(Some(TrashItem(Display(infoPath), f.name.value, f.originalParent.value, f.timeDeleted.value)))
  {
  }

  /** The `Path` record, then the `DeletionDate` record, fill in all three fields. */
  lemma FieldsRead(value: seq<byte>, date: seq<byte>, base: FsPath, dec: Decoders)
    requires DecodedPath(value, base, dec).Success?
    requires FileName(DecodedPath(value, base, dec).value).Some?
    requires ValidUtf8(FileName(DecodedPath(value, base, dec).value).value)
    requires dec.parseDate(date + [0x5A]).Some?
    ensures var full := DecodedPath(value, base, dec).value;
      Interpret([(PATH_KEY(), value), (DATE_KEY(), date)], base, dec, Fields(None, None, None))
        == Success(Fields(FileName(full), Parent(full), dec.parseDate(date + [0x5A])))
  {
    var full := DecodedPath(value, base, dec).value;
    var records := [(PATH_KEY(), value), (DATE_KEY(), date)];
    KeysPlain();
    assert PATH_KEY() != DATE_KEY();
    var none := Fields(None, None, None);
    ParentChild(full);
    var f1 := ApplyRecord(none, PATH_KEY(), value, base, dec);
    assert f1 == Success(Fields(FileName(full), Parent(full), None));
    var f2 := ApplyRecord(f1.value, DATE_KEY(), date, base, dec);
    assert f2 == Success(Fields(FileName(full), Parent(full), dec.parseDate(date + [0x5A])));
    InterpretTwo(records, base, dec, none);
  }

  /** Two records are applied one after the other. */
  lemma {:induction false} InterpretTwo(records: seq<(seq<byte>, seq<byte>)>, base: FsPath, dec: Decoders, f: Fields)
    requires |records| == 2
    requires ApplyRecord(f, records[0].0, records[0].1, base, dec).Success?
    ensures Interpret(records, base, dec, f)
            == ApplyRecord(ApplyRecord(f, records[0].0, records[0].1, base, dec).value, records[1].0, records[1].1, base, dec)
  {
    var f1 := ApplyRecord(f, records[0].0, records[0].1, base, dec).value;
    var rest := records[1..];
    assert rest[1..] == [];
    assert Interpret(rest, base, dec, f1) == ApplyRecord(f1, rest[0].0, rest[0].1, base, dec) by {
      var g := ApplyRecord(f1, rest[0].0, rest[0].1, base, dec);
      if g.Success? {
        assert Interpret(rest[1..], base, dec, g.value) == Success(g.value);
      }
    }
  }

  // ---------------------------------------------------------------------------------------
  // Listing
  // ---------------------------------------------------------------------------------------

  /** A trash folder to list and the directory its relative `Path` values are resolved against. */
  datatype ListedFolder = ListedFolder(folder: FsPath, base: FsPath)

  /** An entry of `info` that `list` opens: a regular file directly inside it. */
  predicate InfoEntry(fs: Fs, info: FsPath, q: FsPath) {
    q in fs && Parent(q) == Some(info) && fs[q].File?
  }

  /** The items the info files of `info` describe; entries that describe no complete item are skipped. */
  function ItemsIn(fs: Fs, info: FsPath, base: FsPath, dec: Decoders, corrected: bool): (items: set<TrashItem>)
    ensures forall it :: it in items <==>
      exists q :: InfoEntry(fs, info, q) && ItemOf(q, fs[q].text, base, dec, corrected) == Success(Some(it))
  {
    set q | q in fs && InfoEntry(fs, info, q) && ItemOf(q, fs[q].text, base, dec, corrected).Success? && ItemOf(q, fs[q].text, base, dec, corrected).value.Some?
      :: ItemOf(q, fs[q].text, base, dec, corrected).value.value
  }

  /** Some info file in `info` makes `list` panic. */
  predicate SomeEntryPanics(fs: Fs, info: FsPath, base: FsPath, dec: Decoders, corrected: bool) {
    exists q :: q in fs && InfoEntry(fs, info, q) && ItemOf(q, fs[q].text, base, dec, corrected).Failure?
  }

  /**
   * One trash folder as `list` reads it: `read_dir` of its `info` directory fails with
   * `Filesystem` when that is not a directory (corrected: the folder holds no items), and any
   * info file that breaks parsing panics.
   */
  function ListFolder(fs: Fs, lf: ListedFolder, dec: Decoders, corrected: bool): (r: Result<set<TrashItem>, Error>)
    ensures r.Failure? <==>
      if IsDir(fs, Child(lf.folder, INFO())) then SomeEntryPanics(fs, Child(lf.folder, INFO()), lf.base, dec, corrected) else !corrected
    ensures !IsDir(fs, Child(lf.folder, INFO())) ==>
      r == if corrected then Success({}) else Failure(Filesystem(Child(lf.folder, INFO())))
    ensures r.Failure? && IsDir(fs, Child(lf.folder, INFO())) ==> r.error == Panic
    ensures r.Success? && IsDir(fs, Child(lf.folder, INFO())) ==> r.value == ItemsIn(fs, Child(lf.folder, INFO()), lf.base, dec, corrected)
  {
    var info := Child(lf.folder, INFO());
    if !IsDir(fs, info) then (if corrected then Success({}) else Failure(Filesystem(info)))
    else if SomeEntryPanics(fs, info, lf.base, dec, corrected) then Failure(Panic)
    else Success(ItemsIn(fs, info, lf.base, dec, corrected))
  }

  /** Every regular file's lines hold at most one `=` each after the first line. */
  predicate ReadsAlike(fs: Fs) {
    forall q :: q in fs && fs[q].File? ==> OneEqualsEach(AfterHeader(Lines(fs[q].text)))
  }

  /** A folder with an `info` directory reads the same as written and corrected when no line holds a second `=`. */
  lemma ListFolderAgrees(fs: Fs, lf: ListedFolder, dec: Decoders)
    requires ReadsAlike(fs) && IsDir(fs, Child(lf.folder, INFO()))
    ensures ListFolder(fs, lf, dec, false) == ListFolder(fs, lf, dec, true)
  {
    var info := Child(lf.folder, INFO());
    forall q | InfoEntry(fs, info, q) ensures ItemOf(q, fs[q].text, lf.base, dec, false) == ItemOf(q, fs[q].text, lf.base, dec, true) {
      ItemOfAgrees(q, fs[q].text, lf.base, dec);
    }
    assert SomeEntryPanics(fs, info, lf.base, dec, false) == SomeEntryPanics(fs, info, lf.base, dec, true);
    assert ItemsIn(fs, info, lf.base, dec, false) == ItemsIn(fs, info, lf.base, dec, true);
  }

  /** In a tree-shaped file system, a path that is not a directory holds no info files. */
  lemma NoEntriesOutsideDirs(fs: Fs, info: FsPath, base: FsPath, dec: Decoders, corrected: bool)
    requires TreeShaped(fs) && !IsRealDir(fs, info)
    ensures ItemsIn(fs, info, base, dec, corrected) == {}
    ensures !SomeEntryPanics(fs, info, base, dec, corrected)
  {
  }

  /** Every folder reads without error. */
  predicate AllRead(folders: seq<ListedFolder>, read: ListedFolder -> Result<set<TrashItem>, Error>) {
    forall i :: 0 <= i < |folders| ==> read(folders[i]).Success?
  }

  /** `it` is among the items of one of the folders. */
  ghost predicate InSomeFolder(folders: seq<ListedFolder>, read: ListedFolder -> Result<set<TrashItem>, Error>, it: TrashItem) {
    exists i :: 0 <= i < |folders| && read(folders[i]).Success? && it in read(folders[i]).value
  }

  /** `e` is the error of some folder that follows only folders read without error. */
  ghost predicate FirstError(folders: seq<ListedFolder>, read: ListedFolder -> Result<set<TrashItem>, Error>, e: Error) {
    exists i :: 0 <= i < |folders| && read(folders[i]) == Failure(e) && AllRead(folders[..i], read)
  }

  /** Reads the folders in order, the first failure ending the listing (`?` inside the loop). */
  function ReadAll(folders: seq<ListedFolder>, read: ListedFolder -> Result<set<TrashItem>, Error>): (r: Result<set<TrashItem>, Error>)
    ensures r.Success? <==> AllRead(folders, read)
    ensures r.Success? ==> forall it :: it in r.value <==> InSomeFolder(folders, read, it)
    ensures r.Failure? ==> FirstError(folders, read, r.error)
    decreases |folders|
  {
    if |folders| == 0 then Success({})
    else
      var head := read(folders[0]);
      if head.Failure? then
        assert AllRead(folders[..0], read);
        Failure(head.error)
      else
        var rest := ReadAll(folders[1..], read);
        if rest.Failure? then
          ReadAllFailureStep(folders, read, rest.error);
          Failure(rest.error)
        else
          ReadAllSuccessStep(folders, read, rest.value);
          Success(head.value + rest.value)
  }

  lemma {:induction false} ReadAllFailureStep(folders: seq<ListedFolder>, read: ListedFolder -> Result<set<TrashItem>, Error>, e: Error)
    requires |folders| > 0 && read(folders[0]).Success?
    requires FirstError(folders[1..], read, e)
    ensures FirstError(folders, read, e)
    ensures !AllRead(folders, read)
  {
    var i :| 0 <= i < |folders[1..]| && read(folders[1..][i]) == Failure(e) && AllRead(folders[1..][..i], read);
    assert folders[1..][i] == folders[i + 1];
    var pre := folders[..i + 1];
    forall j | 0 <= j < |pre| ensures read(pre[j]).Success? {
      if j > 0 {
        assert pre[j] == folders[1..][..i][j - 1];
      }
    }
  }

  lemma {:induction false} ReadAllSuccessStep(folders: seq<ListedFolder>, read: ListedFolder -> Result<set<TrashItem>, Error>, rest: set<TrashItem>)
    requires |folders| > 0 && read(folders[0]).Success?
    requires AllRead(folders[1..], read)
    requires forall it :: it in rest <==> InSomeFolder(folders[1..], read, it)
    ensures AllRead(folders, read)
    ensures forall it :: it in read(folders[0]).value + rest <==> InSomeFolder(folders, read, it)
  {
    forall i | 1 <= i < |folders| ensures read(folders[i]).Success? {
      assert folders[i] == folders[1..][i - 1];
    }
    forall it ensures it in read(folders[0]).value + rest <==> InSomeFolder(folders, read, it) {
      if InSomeFolder(folders, read, it) {
        var i :| 0 <= i < |folders| && read(folders[i]).Success? && it in read(folders[i]).value;
        if i > 0 {
          assert folders[i] == folders[1..][i - 1];
        }
      }
      if it in rest {
        var i :| 0 <= i < |folders[1..]| && read(folders[1..][i]).Success? && it in read(folders[1..][i]).value;
        assert folders[1..][i] == folders[i + 1];
      }
    }
  }

  /** The reader of one folder, as written or corrected. */
  function Reader(fs: Fs, dec: Decoders, corrected: bool): ListedFolder -> Result<set<TrashItem>, Error> {
    lf => ListFolder(fs, lf, dec, corrected)
  }

  /** Corrected, only a panic can stop the listing. */
  lemma ReadAllPanics(fs: Fs, folders: seq<ListedFolder>, dec: Decoders)
    requires ReadAll(folders, Reader(fs, dec, true)).Failure?
    ensures ReadAll(folders, Reader(fs, dec, true)).error == Panic
  {
    var e := ReadAll(folders, Reader(fs, dec, true)).error;
    var i :| 0 <= i < |folders| && Reader(fs, dec, true)(folders[i]) == Failure(e) && AllRead(folders[..i], Reader(fs, dec, true));
  }

  /** Two readers that agree on every folder read the folders alike. */
  lemma {:induction false} ReadAllAgree(folders: seq<ListedFolder>, r1: ListedFolder -> Result<set<TrashItem>, Error>, r2: ListedFolder -> Result<set<TrashItem>, Error>)
    requires forall i :: 0 <= i < |folders| ==> r1(folders[i]) == r2(folders[i])
    ensures ReadAll(folders, r1) == ReadAll(folders, r2)
    decreases |folders|
  {
    if |folders| > 0 {
      assert forall i :: 0 <= i < |folders[1..]| ==> folders[1..][i] == folders[i + 1];
      ReadAllAgree(folders[1..], r1, r2);
    }
  }

  /**
   * The trash folders of the mounts, in mount order, each with the mount it belongs to: for every
   * mount, the folders `execute_on_mounted_trash_folders` visits without `first_only` and without
   * creating anything, with the sticky-bit mask as written or corrected. Its errors end the
   * listing.
   */
  function MountFolders(fs: Fs, uid: u32, mounts: seq<FsPath>, corrected: bool): (r: Result<seq<(FsPath, FsPath)>, Error>)
    ensures r.Success? ==> forall k :: 0 <= k < |r.value| ==>
      var (f, t) := r.value[k];
      t in mounts && (f == SharedUserTrash(t, uid) || f == UserTrash(t, uid)) && IsDir(fs, f)
    decreases |mounts|
  {
    if |mounts| == 0 then Success([])
    else
      var found :- MountedTrashFolders(fs, uid, mounts[0], false, false, 0, corrected);
      var here := seq(|found.folders|, k requires 0 <= k < |found.folders| => (found.folders[k], mounts[0]));
      var rest :- MountFolders(fs, uid, mounts[1..], corrected);
      assert forall k :: 0 <= k < |rest| ==> rest[k].1 in mounts by {
        forall k | 0 <= k < |rest| ensures rest[k].1 in mounts {
          assert rest[k].1 in mounts[1..];
        }
      }
      Success(here + rest)
  }

  /** As written, relative values are resolved against the folder's parent (`folder.parent().unwrap()`). */
  function AsWrittenFolder(folder: FsPath): (r: Result<ListedFolder, Error>)
    ensures r.Success? <==> Parent(folder).Some?
    ensures r.Success? ==> r.value == ListedFolder(folder, Parent(folder).value)
  {
    match Parent(folder)
    case None => Failure(Panic)
    case Some(parent) => Success(ListedFolder(folder, parent))
  }

  function AsWrittenFolders(pairs: seq<(FsPath, FsPath)>): (r: Result<seq<ListedFolder>, Error>)
    ensures r.Success? ==> |r.value| == |pairs|
    ensures r.Success? ==> forall k :: 0 <= k < |pairs| ==> AsWrittenFolder(pairs[k].0) == Success(r.value[k])
    decreases |pairs|
  {
    if |pairs| == 0 then Success([])
    else
      var head :- AsWrittenFolder(pairs[0].0);
      var rest :- AsWrittenFolders(pairs[1..]);
      Success([head] + rest)
  }

  /** Corrected: a mount's folder resolves relative values against the mount, as they were written. */
  function CorrectedFolders(pairs: seq<(FsPath, FsPath)>): (r: seq<ListedFolder>)
    ensures |r| == |pairs| && forall k :: 0 <= k < |pairs| ==> r[k] == ListedFolder(pairs[k].0, pairs[k].1)
  {
    seq(|pairs|, k requires 0 <= k < |pairs| => ListedFolder(pairs[k].0, pairs[k].1))
  }

  /** The home trash, whose relative values are resolved against its parent, then the mounts' folders. */
  function FoldersAsWritten(fs: Fs, env: Env): (r: Result<seq<ListedFolder>, Error>)
    ensures !IsSet(env.xdgDataHome) && !IsSet(env.home) ==> r == Failure(Panic)
    ensures r.Success? ==> |r.value| > 0 && r.value[0].folder == HomeTrash(env.xdgDataHome, env.home).value
  {
    var home :- HomeTrash(env.xdgDataHome, env.home);
    ParentChild(home);
    var homeFolder := ListedFolder(home, Parent(home).value);
    var pairs :- MountFolders(fs, env.uid, env.mounts, false);
    var mounted :- AsWrittenFolders(pairs);
    Success([homeFolder] + mounted)
  }

  function Folders(fs: Fs, env: Env): (r: Result<seq<ListedFolder>, Error>)
    ensures !IsSet(env.xdgDataHome) && !IsSet(env.home) ==> r == Failure(Panic)
    ensures r.Success? ==> |r.value| > 0 && r.value[0].folder == HomeTrash(env.xdgDataHome, env.home).value
    ensures r.Success? ==> forall k :: 1 <= k < |r.value| ==>
      r.value[k].folder == SharedUserTrash(r.value[k].base, env.uid) || r.value[k].folder == UserTrash(r.value[k].base, env.uid)
  {
    var home :- HomeTrash(env.xdgDataHome, env.home);
    ParentChild(home);
    var homeFolder := ListedFolder(home, Parent(home).value);
    var pairs :- MountFolders(fs, env.uid, env.mounts, true);
    var mounted := CorrectedFolders(pairs);
    CorrectedAtMounts(pairs, env.uid);
    HomeThenMounts(homeFolder, mounted, env.uid);
    Success([homeFolder] + mounted)
  }

  /** A folder of a mount: `.Trash/$uid` or `.Trash-$uid` of its base. */
  predicate AtMount(f: ListedFolder, uid: u32) {
    f.folder == SharedUserTrash(f.base, uid) || f.folder == UserTrash(f.base, uid)
  }

  /** The corrected folders of mount folder pairs are based at their mounts. */
  lemma CorrectedAtMounts(pairs: seq<(FsPath, FsPath)>, uid: u32)
    requires forall k :: 0 <= k < |pairs| ==> pairs[k].0 == SharedUserTrash(pairs[k].1, uid) || pairs[k].0 == UserTrash(pairs[k].1, uid)
    ensures forall k :: 0 <= k < |pairs| ==> AtMount(CorrectedFolders(pairs)[k], uid)
  {
  }

  /** Mount folders after the home folder stay mount folders. */
  lemma HomeThenMounts(home: ListedFolder, mounted: seq<ListedFolder>, uid: u32)
    requires forall k :: 0 <= k < |mounted| ==> AtMount(mounted[k], uid)
    ensures forall k :: 1 <= k < |[home] + mounted| ==> AtMount(([home] + mounted)[k], uid)
  {
    forall k | 1 <= k < |[home] + mounted| ensures AtMount(([home] + mounted)[k], uid) {
      assert ([home] + mounted)[k] == mounted[k - 1];
    }
  }

  /**
   * `list` as written. The home trash panics when neither variable is set, so the path that
   * returns the home error when no folder was found is never taken.
   */
  function ListAsWritten(fs: Fs, env: Env, dec: Decoders): (r: Result<set<TrashItem>, Error>)
    ensures !IsSet(env.xdgDataHome) && !IsSet(env.home) ==> r == Failure(Panic)
    ensures r.Success? ==> FoldersAsWritten(fs, env).Success?
    ensures r.Success? ==> forall it :: it in r.value <==> InSomeFolder(FoldersAsWritten(fs, env).value, Reader(fs, dec, false), it)
  {
    var folders :- FoldersAsWritten(fs, env);
    ReadAll(folders, Reader(fs, dec, false))
  }

  /** `list` with the corrected base for `.Trash/$uid` folders and folders without `info` skipped. */
  function List(fs: Fs, env: Env, dec: Decoders): (r: Result<set<TrashItem>, Error>)
    ensures !IsSet(env.xdgDataHome) && !IsSet(env.home) ==> r == Failure(Panic)
    ensures r.Success? ==> Folders(fs, env).Success?
    ensures r.Success? ==> forall it :: it in r.value <==> InSomeFolder(Folders(fs, env).value, Reader(fs, dec, true), it)
    ensures r.Failure? && Folders(fs, env).Success? ==> r.error == Panic
  {
    var folders :- Folders(fs, env);
    var r := ReadAll(folders, Reader(fs, dec, true));
    if r.Failure? then
      ReadAllPanics(fs, folders, dec);
      r
    else r
  }

  /** No mount holds a `.Trash/$uid` directory. */
  predicate NoSharedUserTrash(fs: Fs, uid: u32, mounts: seq<FsPath>) {
    forall t :: t in mounts ==> !IsDir(fs, SharedUserTrash(t, uid))
  }

  /** Without `.Trash/$uid` directories, the mask makes no difference to the mounts' folders. */
  lemma {:induction false} MountFoldersAgree(fs: Fs, uid: u32, mounts: seq<FsPath>)
    requires NoSharedUserTrash(fs, uid, mounts)
    ensures MountFolders(fs, uid, mounts, false) == MountFolders(fs, uid, mounts, true)
    decreases |mounts|
  {
    if |mounts| > 0 {
      assert SharedFolder(fs, mounts[0], uid, false) == SharedFolder(fs, mounts[0], uid, true);
      assert MountedTrashFolders(fs, uid, mounts[0], false, false, 0, false) == MountedTrashFolders(fs, uid, mounts[0], false, false, 0, true);
      assert NoSharedUserTrash(fs, uid, mounts[1..]) by {
        forall t | t in mounts[1..] ensures !IsDir(fs, SharedUserTrash(t, uid)) {
          assert t in mounts;
        }
      }
      MountFoldersAgree(fs, uid, mounts[1..]);
    }
  }

  /** For `.Trash-$uid` folders, the folder's parent is the mount: both bases coincide. */
  lemma {:induction false} UserTrashBases(pairs: seq<(FsPath, FsPath)>, uid: u32)
    requires forall k :: 0 <= k < |pairs| ==> pairs[k].0 == UserTrash(pairs[k].1, uid)
    ensures AsWrittenFolders(pairs) == Success(CorrectedFolders(pairs))
    decreases |pairs|
  {
    if |pairs| > 0 {
      ChildParts(pairs[0].1, DOT_TRASH_DASH() + Decimal(uid));
      assert AsWrittenFolder(pairs[0].0) == Success(ListedFolder(pairs[0].0, pairs[0].1));
      assert forall k :: 0 <= k < |pairs[1..]| ==> pairs[1..][k] == pairs[k + 1];
      UserTrashBases(pairs[1..], uid);
      assert CorrectedFolders(pairs) == [ListedFolder(pairs[0].0, pairs[0].1)] + CorrectedFolders(pairs[1..]);
    }
  }

  /**
   * Every folder `list` reads has an `info` directory: the home trash's, and that of every
   * `.Trash-$uid` directory of a mount.
   */
  predicate InfoEverywhere(fs: Fs, env: Env) {
    && (HomeTrash(env.xdgDataHome, env.home).Success? ==> IsDir(fs, Child(HomeTrash(env.xdgDataHome, env.home).value, INFO())))
    && forall t :: t in env.mounts && IsDir(fs, UserTrash(t, env.uid)) ==> IsDir(fs, Child(UserTrash(t, env.uid), INFO()))
  }

  /** Without `.Trash/$uid` directories, both listings read the same folders. */
  lemma FoldersAgree(fs: Fs, env: Env)
    requires NoSharedUserTrash(fs, env.uid, env.mounts)
    ensures FoldersAsWritten(fs, env) == Folders(fs, env)
    ensures Folders(fs, env).Success? ==> forall k :: 1 <= k < |Folders(fs, env).value| ==>
      var lf := Folders(fs, env).value[k];
      lf.base in env.mounts && lf.folder == UserTrash(lf.base, env.uid) && IsDir(fs, lf.folder)
  {
    MountFoldersAgree(fs, env.uid, env.mounts);
    FoldersAtUserTrash(fs, env);
  }

  /** Without `.Trash/$uid` directories, every mount folder listed is a `.Trash-$uid` directory. */
  lemma FoldersAtUserTrash(fs: Fs, env: Env)
    requires NoSharedUserTrash(fs, env.uid, env.mounts)
    ensures var pairs := MountFolders(fs, env.uid, env.mounts, true);
      pairs.Success? ==> AsWrittenFolders(pairs.value) == Success(CorrectedFolders(pairs.value))
    ensures Folders(fs, env).Success? ==> forall k :: 1 <= k < |Folders(fs, env).value| ==>
      var lf := Folders(fs, env).value[k];
      lf.base in env.mounts && lf.folder == UserTrash(lf.base, env.uid) && IsDir(fs, lf.folder)
  {
    var pairs := MountFolders(fs, env.uid, env.mounts, true);
    if pairs.Success? {
      PairsAtUserTrash(fs, env.uid, env.mounts, pairs.value);
      UserTrashBases(pairs.value, env.uid);
      if HomeTrash(env.xdgDataHome, env.home).Success? {
        var home := HomeTrash(env.xdgDataHome, env.home).value;
        ParentChild(home);
        FoldersFromPairs(fs, env, pairs.value);
        MountsAtUserTrash(fs, env, ListedFolder(home, Parent(home).value), pairs.value);
      }
    }
  }

  /** The listing reads the home trash, then the folders of the pairs the corrected scan found. */
  lemma FoldersFromPairs(fs: Fs, env: Env, pairs: seq<(FsPath, FsPath)>)
    requires HomeTrash(env.xdgDataHome, env.home).Success? && MountFolders(fs, env.uid, env.mounts, true) == Success(pairs)
    ensures var home := HomeTrash(env.xdgDataHome, env.home).value;
      Parent(home).Some? && Folders(fs, env) == Success([ListedFolder(home, Parent(home).value)] + CorrectedFolders(pairs))
  {
    ParentChild(HomeTrash(env.xdgDataHome, env.home).value);
  }

  /** After the home folder, each listed folder is the `.Trash-$uid` directory of its mount. */
  lemma MountsAtUserTrash(fs: Fs, env: Env, homeFolder: ListedFolder, pairs: seq<(FsPath, FsPath)>)
    requires forall k :: 0 <= k < |pairs| ==> pairs[k].1 in env.mounts && pairs[k].0 == UserTrash(pairs[k].1, env.uid) && IsDir(fs, pairs[k].0)
    ensures var folders := [homeFolder] + CorrectedFolders(pairs);
      forall k :: 1 <= k < |folders| ==>
        folders[k].base in env.mounts && folders[k].folder == UserTrash(folders[k].base, env.uid) && IsDir(fs, folders[k].folder)
  {
    var folders := [homeFolder] + CorrectedFolders(pairs);
    forall k | 1 <= k < |folders| ensures folders[k].base in env.mounts && folders[k].folder == UserTrash(folders[k].base, env.uid) && IsDir(fs, folders[k].folder) {
      assert folders[k] == ListedFolder(pairs[k - 1].0, pairs[k - 1].1);
    }
  }

  /** Without `.Trash/$uid` directories, each pair the corrected scan finds is a mount and its `.Trash-$uid`. */
  lemma PairsAtUserTrash(fs: Fs, uid: u32, mounts: seq<FsPath>, pairs: seq<(FsPath, FsPath)>)
    requires NoSharedUserTrash(fs, uid, mounts) && MountFolders(fs, uid, mounts, true) == Success(pairs)
    ensures forall k :: 0 <= k < |pairs| ==> pairs[k].1 in mounts && pairs[k].0 == UserTrash(pairs[k].1, uid) && IsDir(fs, pairs[k].0)
  {
    forall k | 0 <= k < |pairs| ensures pairs[k].1 in mounts && pairs[k].0 == UserTrash(pairs[k].1, uid) && IsDir(fs, pairs[k].0) {
      assert !IsDir(fs, SharedUserTrash(pairs[k].1, uid));
    }
  }

  /**
   * `list` as written and corrected agree when no mount holds `.Trash/$uid`, every folder read
   * has an `info` directory, and no line of any info file holds a second `=`: each defect of the
   * listing needs one of the three.
   */
  lemma ListAgrees(fs: Fs, env: Env, dec: Decoders)
    requires NoSharedUserTrash(fs, env.uid, env.mounts) && InfoEverywhere(fs, env) && ReadsAlike(fs)
    ensures ListAsWritten(fs, env, dec) == List(fs, env, dec)
  {
    FoldersAgree(fs, env);
    var folders := Folders(fs, env);
    if folders.Success? {
      forall i | 0 <= i < |folders.value| ensures Reader(fs, dec, false)(folders.value[i]) == Reader(fs, dec, true)(folders.value[i]) {
        assert IsDir(fs, Child(folders.value[i].folder, INFO()));
        ListFolderAgrees(fs, folders.value[i], dec);
      }
      ReadAllAgree(folders.value, Reader(fs, dec, false), Reader(fs, dec, true));
    }
  }

  // ---------------------------------------------------------------------------------------
  // Where listing departs from deleting
  // ---------------------------------------------------------------------------------------

  /** The encoding of `topdir/n` when the encoder adds `/n` to the mount's encoding `topdirUri`. */
  function ItemUri(topdirUri: Text, n: Text): Text {
    AsciiValid([SLASH]);
    ConcatValid([SLASH], n);
    ConcatValid(topdirUri, [SLASH] + n);
    topdirUri + ([SLASH] + n)
  }

  /** The value deleting writes for `topdir/n` when the encoder adds `/n` to the mount's encoding. */
  lemma WrittenRelativeValue(topdirUri: Text, n: seq<byte>)
    requires IsName(n) && ValidUtf8(n)
    ensures PathValue(ItemUri(topdirUri, n), topdirUri, false) == n
  {
    AsciiValid([SLASH]);
    ConcatValid([SLASH], n);
    var rest: Text := [SLASH] + n;
    PathValueRelative(topdirUri, rest);
    assert rest[1..] == n;
    assert TrimStartMatches(rest[1..], SLASH) == n;
  }

  /**
   * As written, an item deleted from `topdir/n` into `topdir/.Trash/$uid` carries the relative
   * value `n`, but listing resolves it against the folder's parent `topdir/.Trash`, giving
   * `topdir/.Trash/n`, which is not where the item came from. As written the sticky-bit mask
   * keeps `.Trash/$uid` from being used at all; this defect shows once the mask is fixed.
   */
  lemma SharedTrashMisresolved(topdir: FsPath, uid: u32, topdirUri: Text, n: seq<byte>)
    requires IsName(n) && ValidUtf8(n)
    ensures var value := PathValue(ItemUri(topdirUri, n), topdirUri, false);
            var lf := AsWrittenFolder(SharedUserTrash(topdir, uid));
            lf.Success? && lf.value.base == SharedTrash(topdir)
            && ResolvePath(value, lf.value.base) == Child(SharedTrash(topdir), n)
            && ResolvePath(value, lf.value.base) != Child(topdir, n)
  {
    WrittenRelativeValue(topdirUri, n);
    ChildParts(SharedTrash(topdir), Decimal(uid));
    ResolveName(n, SharedTrash(topdir));
    assert |Child(SharedTrash(topdir), n).components| != |Child(topdir, n).components|;
  }

  /** For `topdir/.Trash-$uid`, the folder's parent is the mount, so the same value resolves correctly. */
  lemma UserTrashResolved(topdir: FsPath, uid: u32, topdirUri: Text, n: seq<byte>)
    requires IsName(n) && ValidUtf8(n)
    ensures var value := PathValue(ItemUri(topdirUri, n), topdirUri, false);
            var lf := AsWrittenFolder(UserTrash(topdir, uid));
            lf.Success? && lf.value.base == topdir && ResolvePath(value, lf.value.base) == Child(topdir, n)
  {
    WrittenRelativeValue(topdirUri, n);
    ChildParts(topdir, DOT_TRASH_DASH() + Decimal(uid));
    ResolveName(n, topdir);
  }

  /**
   * Corrected: every mount folder is resolved against its mount, so a relative value written for
   * `topdir/n` lists as `topdir/n`, whichever of the two folders holds it.
   */
  lemma MountFolderResolved(fs: Fs, env: Env, k: nat, topdirUri: Text, n: seq<byte>)
    requires Folders(fs, env).Success? && 1 <= k < |Folders(fs, env).value|
    requires IsName(n) && ValidUtf8(n)
    ensures var lf := Folders(fs, env).value[k];
            (lf.folder == SharedUserTrash(lf.base, env.uid) || lf.folder == UserTrash(lf.base, env.uid))
            && ResolvePath(PathValue(ItemUri(topdirUri, n), topdirUri, false), lf.base) == Child(lf.base, n)
  {
    var lf := Folders(fs, env).value[k];
    WrittenRelativeValue(topdirUri, n);
    ResolveName(n, lf.base);
  }

  /**
   * As written, a home trash without an `info` directory (one nothing was ever deleted to) makes
   * `list` fail with `Filesystem`, though the home trash is allowed to be missing; the corrected
   * listing finds no items there.
   */
  lemma MissingHomeInfo(fs: Fs, env: Env, dec: Decoders)
    requires IsSet(env.xdgDataHome) || IsSet(env.home)
    requires env.mounts == []
    requires !IsDir(fs, Child(HomeTrash(env.xdgDataHome, env.home).value, INFO()))
    ensures ListAsWritten(fs, env, dec) == Failure(Filesystem(Child(HomeTrash(env.xdgDataHome, env.home).value, INFO())))
    ensures List(fs, env, dec) == Success({})
  {
    var home := HomeTrash(env.xdgDataHome, env.home).value;
    ParentChild(home);
    var lf := ListedFolder(home, Parent(home).value);
    assert MountFolders(fs, env.uid, env.mounts, false) == Success([]);
    assert MountFolders(fs, env.uid, env.mounts, true) == Success([]);
    assert AsWrittenFolders([]) == Success([]);
    assert [lf] + [] == [lf];
    assert FoldersAsWritten(fs, env) == Success([lf]);
    assert Folders(fs, env) == Success([lf]) by {
      assert CorrectedFolders([]) == [];
    }
    var reader := Reader(fs, dec, true);
    assert reader(lf) == Success({});
    assert AllRead([lf], reader);
    var r := ReadAll([lf], reader);
    assert r.value == {};
  }
}
