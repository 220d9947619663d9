/**
 * The Windows back end (`src/windows.rs`) without its COM plumbing: the parsing name handed to
 * the shell for a path to delete (a leading `\\?\` removed, a NUL appended), the deletion date
 * read from a FILETIME, the listing of the Recycle Bin, and the batches of shell file operations
 * that delete, purge and restore, with the collision check `restore_all` runs first.
 */
module Windows {
  import opened Wrappers
  import opened Bytes
  import opened FsPaths
  import opened Trash

  type u16 = x: int | 0 <= x < 0x1_0000
  type u32 = x: int | 0 <= x < 0x1_0000_0000
  type u64 = x: int | 0 <= x < 0x1_0000_0000_0000_0000
  type i64 = x: int | -0x8000_0000_0000_0000 <= x < 0x8000_0000_0000_0000

  // ---------------------------------------------------------------------------------------
  // Parsing names
  // ---------------------------------------------------------------------------------------

  const NUL: u16 := 0

  /** `\\?\` as UTF-16 code units. */
  const VERBATIM_PREFIX: seq<u16> := [0x5C, 0x5C, 0x3F, 0x5C]

  predicate StartsWithVerbatim(s: seq<u16>) {
    |VERBATIM_PREFIX| <= |s| && s[..|VERBATIM_PREFIX|] == VERBATIM_PREFIX
  }

  /** A wide string with its terminating NUL, as `encode_wide().chain(once(0))` builds it. */
  function Terminated(wide: seq<u16>): seq<u16> {
    wide + [NUL]
  }

  /** Appending the NUL neither makes nor breaks a verbatim prefix, since the prefix holds no NUL. */
  lemma TerminatorKeepsPrefix(wide: seq<u16>)
    ensures StartsWithVerbatim(Terminated(wide)) <==> StartsWithVerbatim(wide)
  {
    var t := Terminated(wide);
    if |wide| >= |VERBATIM_PREFIX| {
      assert t[..|VERBATIM_PREFIX|] == wide[..|VERBATIM_PREFIX|];
    } else if |t| == |VERBATIM_PREFIX| {
      assert t[3] == NUL;
    }
  }

  /**
   * The NUL-terminated name `delete_all_canonicalized` parses into a shell item for a path given
   * as UTF-16 units: a leading `\\?\` is dropped, and the NUL is always there.
   */
  function ParsingName(wide: seq<u16>): (r: seq<u16>)
    ensures |r| > 0 && r[|r| - 1] == NUL
    ensures StartsWithVerbatim(wide) ==> VERBATIM_PREFIX + r[..|r| - 1] == wide
    ensures !StartsWithVerbatim(wide) ==> r[..|r| - 1] == wide
  {
    var container := Terminated(wide);
    TerminatorKeepsPrefix(wide);
    if StartsWithVerbatim(container) then
      assert wide == VERBATIM_PREFIX + wide[|VERBATIM_PREFIX|..];
      container[|VERBATIM_PREFIX|..]
    else container
  }

  /**
   * A path and its verbatim form give the same parsing name; exactly one prefix is removed, so
   * a doubled prefix leaves one in place.
   */
  lemma VerbatimSameName(wide: seq<u16>)
    ensures ParsingName(VERBATIM_PREFIX + wide) == Terminated(wide)
    ensures !StartsWithVerbatim(wide) ==> ParsingName(VERBATIM_PREFIX + wide) == ParsingName(wide)
  {
    var v := VERBATIM_PREFIX + wide;
    assert v[..|VERBATIM_PREFIX|] == VERBATIM_PREFIX;
    var r := ParsingName(v);
    assert VERBATIM_PREFIX + r[..|r| - 1] == VERBATIM_PREFIX + wide;
    assert r[..|r| - 1] == wide;
    assert r == r[..|r| - 1] + [r[|r| - 1]];
  }

  // ---------------------------------------------------------------------------------------
  // Deletion dates
  // ---------------------------------------------------------------------------------------

  const TWO_POW_32: int := 0x1_0000_0000

  /** `((dwHighDateTime as u64) << 32) | (dwLowDateTime as u64)`. */
  function FileTime(high: u32, low: u32): (r: u64)
    ensures r / TWO_POW_32 == high && r % TWO_POW_32 == low
  {
    high * TWO_POW_32 + low
  }

  /** The two halves of a 64-bit file time. */
  function FileTimeHalves(t: u64): (r: (u32, u32))
    ensures r.0 * TWO_POW_32 + r.1 == t
  {
    (t / TWO_POW_32, t % TWO_POW_32)
  }

  /** Combining and splitting are inverse, both ways round. */
  lemma FileTimeRoundTrip(high: u32, low: u32, t: u64)
    ensures FileTimeHalves(FileTime(high, low)) == (high, low)
    ensures FileTime(FileTimeHalves(t).0, FileTimeHalves(t).1) == t
  {
  }

  /** January 1, 1970 as a Windows file time (100 ns ticks since 1601). */
  const EPOCH_AS_FILETIME: u64 := 116444736000000000

  /** File time ticks per second. */
  const HUNDREDS_OF_NANOSECONDS: u64 := 10000000

  const U64_MODULUS: int := 0x1_0000_0000_0000_0000

  /**
   * `get_date_deleted_unix` as written: `time - EPOCH_AS_FILETIME` is a `u64` subtraction,
   * which panics when overflow checks are on and wraps around when they are off; the quotient
   * is cast to `i64`.
   */
  function DateDeletedAsWritten(time: u64, overflowChecks: bool): (r: Result<i64, Error>)
    ensures time >= EPOCH_AS_FILETIME ==>
      r.Success? && r.value * HUNDREDS_OF_NANOSECONDS <= time - EPOCH_AS_FILETIME < (r.value + 1) * HUNDREDS_OF_NANOSECONDS
    ensures time < EPOCH_AS_FILETIME && overflowChecks ==> r == Failure(Panic)
    ensures time < EPOCH_AS_FILETIME && !overflowChecks ==>
      && r.Success? && r.value >= (U64_MODULUS - EPOCH_AS_FILETIME) / HUNDREDS_OF_NANOSECONDS
      && r.value * HUNDREDS_OF_NANOSECONDS <= time - EPOCH_AS_FILETIME + U64_MODULUS < (r.value + 1) * HUNDREDS_OF_NANOSECONDS
  {
    if time >= EPOCH_AS_FILETIME then
      Success((time - EPOCH_AS_FILETIME) / HUNDREDS_OF_NANOSECONDS)
    else if overflowChecks then
      Failure(Panic)
    else
      Success((time - EPOCH_AS_FILETIME + U64_MODULUS) / HUNDREDS_OF_NANOSECONDS)
  }

  /**
   * The deletion date in seconds since the Unix epoch, rounded down, for every file time:
   * before 1970 the value is negative.
   */
  function DateDeletedUnix(time: u64): (r: i64)
    ensures r * HUNDREDS_OF_NANOSECONDS <= time - EPOCH_AS_FILETIME < (r + 1) * HUNDREDS_OF_NANOSECONDS
    ensures time < EPOCH_AS_FILETIME <==> r < 0
  {
    (time - EPOCH_AS_FILETIME) / HUNDREDS_OF_NANOSECONDS
  }

  /**
   * From 1970 on the two definitions agree; the epoch is second 0; whole seconds after it read
   * back exactly; later file times never give earlier dates.
   */
  lemma DateDeletedAgrees(time: u64, overflowChecks: bool, seconds: nat, ticks: nat, later: u64)
    ensures time >= EPOCH_AS_FILETIME ==> DateDeletedAsWritten(time, overflowChecks) == Success(DateDeletedUnix(time))
    ensures DateDeletedUnix(EPOCH_AS_FILETIME) == 0
    ensures ticks < HUNDREDS_OF_NANOSECONDS && EPOCH_AS_FILETIME + seconds * HUNDREDS_OF_NANOSECONDS + ticks < U64_MODULUS ==>
      DateDeletedUnix(EPOCH_AS_FILETIME + seconds * HUNDREDS_OF_NANOSECONDS + ticks) == seconds
    ensures time <= later ==> DateDeletedUnix(time) <= DateDeletedUnix(later)
  {
  }

  /**
   * One tick before 1970: as written the subtraction either panics or, wrapping around, gives a
   * date some 58 000 years from now; the intended value is one second before the epoch.
   */
  lemma PreEpochDate()
    ensures DateDeletedAsWritten(EPOCH_AS_FILETIME - 1, true) == Failure(Panic)
    ensures DateDeletedAsWritten(EPOCH_AS_FILETIME - 1, false) == Success(1844674407370)
    ensures DateDeletedUnix(EPOCH_AS_FILETIME - 1) == -1
  {
  }

  // ---------------------------------------------------------------------------------------
  // list
  // ---------------------------------------------------------------------------------------

  /**
   * What the Recycle Bin's enumeration gives for one item: its absolute parsing name (the id),
   * its display name and whether that is valid Unicode, its original location and the FILETIME
   * halves of its deletion date.
   */
  datatype RecycledEntry = RecycledEntry(
    id: seq<byte>, displayName: seq<byte>, unicode: bool,
    originalLocation: FsPath, deletedHigh: u32, deletedLow: u32)

  /** The deletion date of one entry: as written, or corrected to round down for every file time. */
  function DateDeleted(time: u64, overflowChecks: bool, corrected: bool): (r: Result<i64, Error>)
    ensures r.Failure? <==> !corrected && overflowChecks && time < EPOCH_AS_FILETIME
    ensures r.Failure? ==> r.error == Panic
    ensures corrected || time >= EPOCH_AS_FILETIME ==> r == Success(DateDeletedUnix(time))
  {
    DateDeletedAgrees(time, overflowChecks, 0, 0, time);
    if corrected then Success(DateDeletedUnix(time)) else DateDeletedAsWritten(time, overflowChecks)
  }

  /** The entry gives an item: its date is computed and its name is Unicode. */
  predicate EntryReads(e: RecycledEntry, overflowChecks: bool, corrected: bool) {
    DateDeleted(FileTime(e.deletedHigh, e.deletedLow), overflowChecks, corrected).Success? && e.unicode
  }

  /** The error an entry that gives no item stops the listing with: the date is computed first. */
  function EntryError(e: RecycledEntry, overflowChecks: bool, corrected: bool): Error {
    match DateDeleted(FileTime(e.deletedHigh, e.deletedLow), overflowChecks, corrected)
    case Failure(err) => err
    case Success(_) => ConvertOsString(e.displayName)
  }

  /**
   * `list`: one item per entry, in enumeration order; the deletion date is computed before the
   * name is converted, and the first entry whose date panics or whose name is not Unicode stops
   * the listing.
   */
  function List(entries: seq<RecycledEntry>, overflowChecks: bool, corrected: bool): (r: Result<seq<TrashItem>, Error>)
    ensures r.Success? <==> forall i :: 0 <= i < |entries| ==> EntryReads(entries[i], overflowChecks, corrected)
    ensures r.Success? ==> |r.value| == |entries| && forall i :: 0 <= i < |entries| ==>
      && r.value[i].id == entries[i].id
      && r.value[i].name == entries[i].displayName
      && r.value[i].originalParent == entries[i].originalLocation
      && Success(r.value[i].timeDeleted) == DateDeleted(FileTime(entries[i].deletedHigh, entries[i].deletedLow), overflowChecks, corrected)
    ensures r.Failure? ==> exists i :: (0 <= i < |entries| && !EntryReads(entries[i], overflowChecks, corrected)
      && r.error == EntryError(entries[i], overflowChecks, corrected)
      && forall j :: 0 <= j < i ==> EntryReads(entries[j], overflowChecks, corrected))
    decreases |entries|
  {
    if |entries| == 0 then Success([])
    else
      var e := entries[0];
      var date := DateDeleted(FileTime(e.deletedHigh, e.deletedLow), overflowChecks, corrected);
      if date.Failure? then
        Failure(date.error)
      else if !e.unicode then
        Failure(ConvertOsString(e.displayName))
      else
        var item := TrashItem(e.id, e.displayName, e.originalLocation, date.value);
        var rest := List(entries[1..], overflowChecks, corrected);
        assert forall i :: 1 <= i < |entries| ==> entries[1..][i - 1] == entries[i];
        match rest
        case Success(items) => Success([item] + items)
        case Failure(err) =>
          FailureInTail(entries, overflowChecks, corrected, err);
          Failure(err)
  }

  /** A first unreadable entry of the tail, after a readable head, is a first unreadable entry of the whole. */
  lemma FailureInTail(entries: seq<RecycledEntry>, overflowChecks: bool, corrected: bool, err: Error)
    requires |entries| > 0 && EntryReads(entries[0], overflowChecks, corrected)
    requires exists i :: (0 <= i < |entries[1..]| && !EntryReads(entries[1..][i], overflowChecks, corrected)
      && err == EntryError(entries[1..][i], overflowChecks, corrected)
      && forall j :: 0 <= j < i ==> EntryReads(entries[1..][j], overflowChecks, corrected))
    ensures exists i :: (0 <= i < |entries| && !EntryReads(entries[i], overflowChecks, corrected)
      && err == EntryError(entries[i], overflowChecks, corrected)
      && forall j :: 0 <= j < i ==> EntryReads(entries[j], overflowChecks, corrected))
  {
    var i :| (0 <= i < |entries[1..]| && !EntryReads(entries[1..][i], overflowChecks, corrected)
      && err == EntryError(entries[1..][i], overflowChecks, corrected)
      && forall j :: 0 <= j < i ==> EntryReads(entries[1..][j], overflowChecks, corrected));
    assert entries[1..][i] == entries[i + 1];
    forall j | 0 <= j < i + 1 ensures EntryReads(entries[j], overflowChecks, corrected) {
      if j > 0 {
        assert entries[1..][j - 1] == entries[j];
      }
    }
  }

  /** `list` as written and corrected agree when no item was deleted before 1970. */
  lemma {:induction false} ListAgrees(entries: seq<RecycledEntry>, overflowChecks: bool)
    requires forall i :: 0 <= i < |entries| ==> FileTime(entries[i].deletedHigh, entries[i].deletedLow) >= EPOCH_AS_FILETIME
    ensures List(entries, overflowChecks, false) == List(entries, overflowChecks, true)
    decreases |entries|
  {
    if |entries| > 0 {
      assert forall i :: 0 <= i < |entries[1..]| ==> entries[1..][i] == entries[i + 1];
      ListAgrees(entries[1..], overflowChecks);
    }
  }

  // ---------------------------------------------------------------------------------------
  // Shell file operations
  // ---------------------------------------------------------------------------------------

  /** An operation queued on the `IFileOperation`, naming shell items by their NUL-terminated parsing names. */
  datatype ShellOp = DeleteItem(item: seq<u16>) | MoveItem(item: seq<u16>, folder: seq<u16>, newName: seq<u16>)

  /**
   * The shell as the model sees it: `encodeWide` is `OsStr::encode_wide`; `parseError` says why
   * `SHCreateItemFromParsingName` refuses a name, if it does; `performError` says why
   * `PerformOperations` fails on a batch, if it does.
   */
  datatype Shell = Shell(
    encodeWide: seq<byte> -> seq<u16>,
    parseError: seq<u16> -> Option<seq<byte>>,
    performError: seq<ShellOp> -> Option<seq<byte>>)

  /** Runs the batch: the error `PerformOperations` reports, or the batch itself. */
  function Perform(batch: seq<ShellOp>, shell: Shell): (r: Result<seq<ShellOp>, Error>)
    ensures r.Success? <==> shell.performError(batch).None?
    ensures r.Success? ==> r.value == batch
    ensures r.Failure? ==> r.error == Unknown(shell.performError(batch).value)
  {
    match shell.performError(batch)
    case None => Success(batch)
    case Some(description) => Failure(Unknown(description))
  }

  /** The deletions `delete_all_canonicalized` queues, one per path; a name the shell refuses stops it. */
  function QueueDeletes(paths: seq<seq<u16>>, shell: Shell): (r: Result<seq<ShellOp>, Error>)
    ensures r.Success? <==> forall i :: 0 <= i < |paths| ==> shell.parseError(ParsingName(paths[i])).None?
    ensures r.Success? ==> |r.value| == |paths| && forall i :: 0 <= i < |paths| ==> r.value[i] == DeleteItem(ParsingName(paths[i]))
    ensures r.Failure? ==> exists i :: (0 <= i < |paths| && shell.parseError(ParsingName(paths[i])).Some?
      && r.error == Unknown(shell.parseError(ParsingName(paths[i])).value))
    decreases |paths|
  {
    if |paths| == 0 then Success([])
    else
      var name := ParsingName(paths[0]);
      assert forall i :: 1 <= i < |paths| ==> paths[1..][i - 1] == paths[i];
      match shell.parseError(name)
      case Some(description) => Failure(Unknown(description))
      case None =>
        var rest :- QueueDeletes(paths[1..], shell);
        Success([DeleteItem(name)] + rest)
  }

  /**
   * `delete_all_canonicalized`: every path is queued for deletion and the batch is performed,
   * even when it is empty. `paths` are the paths' UTF-16 units.
   */
  function DeleteAll(paths: seq<seq<u16>>, shell: Shell): (r: Result<seq<ShellOp>, Error>)
    ensures r.Success? <==>
      (forall i :: 0 <= i < |paths| ==> shell.parseError(ParsingName(paths[i])).None?)
      && shell.performError(QueueDeletes(paths, shell).value).None?
    ensures r.Success? ==> |r.value| == |paths| && forall i :: 0 <= i < |paths| ==> r.value[i] == DeleteItem(ParsingName(paths[i]))
  {
    var batch :- QueueDeletes(paths, shell);
    Perform(batch, shell)
  }

  /** The parsing name of an item's id. */
  function IdName(item: TrashItem, shell: Shell): seq<u16> {
    Terminated(shell.encodeWide(item.id))
  }

  /** The deletions `purge_all` queues, one per item. */
  function QueuePurges(items: seq<TrashItem>, shell: Shell): (r: Result<seq<ShellOp>, Error>)
    ensures r.Success? <==> forall i :: 0 <= i < |items| ==> shell.parseError(IdName(items[i], shell)).None?
    ensures r.Success? ==> |r.value| == |items| && forall i :: 0 <= i < |items| ==> r.value[i] == DeleteItem(IdName(items[i], shell))
    decreases |items|
  {
    if |items| == 0 then Success([])
    else
      var name := IdName(items[0], shell);
      assert forall i :: 1 <= i < |items| ==> items[1..][i - 1] == items[i];
      match shell.parseError(name)
      case Some(description) => Failure(Unknown(description))
      case None =>
        var rest :- QueuePurges(items[1..], shell);
        Success([DeleteItem(name)] + rest)
  }

  /**
   * `purge_all`: the items' deletions, performed only when there is at least one item. `None`
   * means that nothing was performed.
   */
  function PurgeAll(items: seq<TrashItem>, shell: Shell): (r: Result<Option<seq<ShellOp>>, Error>)
    ensures |items| == 0 ==> r == Success(None)
    ensures r.Success? && |items| > 0 ==> (r.value.Some? && |r.value.value| == |items|
      && forall i :: 0 <= i < |items| ==> r.value.value[i] == DeleteItem(IdName(items[i], shell)))
    ensures |items| > 0 && (forall i :: 0 <= i < |items| ==> shell.parseError(IdName(items[i], shell)).None?) ==>
      (r.Success? <==> shell.performError(QueuePurges(items, shell).value).None?)
  {
    var batch :- QueuePurges(items, shell);
    var atLeastOne := |items| > 0;
    if atLeastOne then
      var done :- Perform(batch, shell);
      Success(Some(done))
    else Success(None)
  }

  /** The index of the first item whose original path exists, if there is one. */
  function FirstCollision(items: seq<TrashItem>, present: FsPath -> bool): (r: Option<nat>)
    ensures r.None? <==> forall i :: 0 <= i < |items| ==> !present(OriginalPath(items[i]))
    ensures r.Some? ==> (r.value < |items| && present(OriginalPath(items[r.value]))
      && forall j :: 0 <= j < r.value ==> !present(OriginalPath(items[j])))
    decreases |items|
  {
    if |items| == 0 then None
    else if present(OriginalPath(items[0])) then Some(0)
    else
      assert forall i :: 1 <= i < |items| ==> items[1..][i - 1] == items[i];
      match FirstCollision(items[1..], present)
      case None => None
      case Some(k) => Some(k + 1)
  }

  /** The moves `restore_all` queues: each item back into its original folder under its name. */
  function QueueMoves(items: seq<TrashItem>, shell: Shell): (r: Result<seq<ShellOp>, Error>)
    ensures r.Success? <==> forall i :: 0 <= i < |items| ==>
      shell.parseError(IdName(items[i], shell)).None? && shell.parseError(FolderName(items[i], shell)).None?
    ensures r.Success? ==> |r.value| == |items| && forall i :: 0 <= i < |items| ==>
      r.value[i] == MoveItem(IdName(items[i], shell), FolderName(items[i], shell), Terminated(shell.encodeWide(items[i].name)))
    decreases |items|
  {
    if |items| == 0 then Success([])
    else
      var item := items[0];
      assert forall i :: 1 <= i < |items| ==> items[1..][i - 1] == items[i];
      match shell.parseError(IdName(item, shell))
      case Some(description) => Failure(Unknown(description))
      case None =>
        match shell.parseError(FolderName(item, shell))
        case Some(description) => Failure(Unknown(description))
        case None =>
          var rest :- QueueMoves(items[1..], shell);
          Success([MoveItem(IdName(item, shell), FolderName(item, shell), Terminated(shell.encodeWide(item.name)))] + rest)
  }

  /** The parsing name of an item's original folder. */
  function FolderName(item: TrashItem, shell: Shell): seq<u16> {
    Terminated(shell.encodeWide(Display(item.originalParent)))
  }

  /**
   * `restore_all`: if any item's original path exists, a `RestoreCollision` naming the first
   * such path and carrying every item, before anything is queued; otherwise the moves, performed
   * only when there is at least one item. `present` is `Path::exists`.
   */
  function RestoreAll(items: seq<TrashItem>, present: FsPath -> bool, shell: Shell): (r: Result<Option<seq<ShellOp>>, Error>)
    ensures r.Success? ==> forall i :: 0 <= i < |items| ==> !present(OriginalPath(items[i]))
    ensures |items| == 0 ==> r == Success(None)
    ensures r.Success? && |items| > 0 ==> r.value.Some? && |r.value.value| == |items|
  {
    match FirstCollision(items, present)
    case Some(k) => Failure(RestoreCollision(OriginalPath(items[k]), items))
    case None =>
      var batch :- QueueMoves(items, shell);
      if |items| > 0 then
        var done :- Perform(batch, shell);
        Success(Some(done))
      else Success(None)
  }

  /**
   * The collision check decides first: when some original path exists the error names the first
   * one and hands back the whole list, whatever the shell would do; when none exists and the
   * shell accepts every name and the batch, every item is moved back, in order.
   */
  lemma {:induction false} RestoreCollisionFirst(items: seq<TrashItem>, present: FsPath -> bool, shell: Shell)
    ensures (exists i :: 0 <= i < |items| && present(OriginalPath(items[i]))) ==>
      exists k :: 0 <= k < |items| && present(OriginalPath(items[k]))
        && (forall j :: 0 <= j < k ==> !present(OriginalPath(items[j])))
        && RestoreAll(items, present, shell) == Failure(RestoreCollision(OriginalPath(items[k]), items))
    ensures ((forall i :: 0 <= i < |items| ==> !present(OriginalPath(items[i])))
      && QueueMoves(items, shell).Success? && shell.performError(QueueMoves(items, shell).value).None? && |items| > 0) ==>
      RestoreAll(items, present, shell) == Success(Some(QueueMoves(items, shell).value))
  {
    var c := FirstCollision(items, present);
    if c.Some? {
      var k := c.value;
      assert RestoreAll(items, present, shell) == Failure(RestoreCollision(OriginalPath(items[k]), items));
    }
  }

  /**
   * Purge and restore perform nothing for an empty list, whatever the shell; deleting performs
   * its empty batch, so its outcome is the shell's.
   */
  lemma EmptyBatches(present: FsPath -> bool, shell: Shell)
    ensures PurgeAll([], shell) == Success(None)
    ensures RestoreAll([], present, shell) == Success(None)
    ensures DeleteAll([], shell).Success? <==> shell.performError([]).None?
  {
  }
}
