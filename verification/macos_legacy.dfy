/**
 * The earlier macOS back end kept in `src/macos/macos.rs`: a context with a delete method only,
 * a one-line Finder script that reports nothing back, and `NSFileManager` always reporting items.
 * Its `esc_quote` and `percent_encode` are the same text as the current back end's, so the
 * definitions of `MacOs` are used.
 */
module MacOsLegacy {
  import opened Wrappers
  import opened Bytes
  import opened FsPaths
  import opened Trash
  import opened MacOs

  /** The context of this back end: only the delete method. */
  datatype LegacyContext = LegacyContext(deleteMethod: DeleteMethod)

  /** `PlatformTrashContext::new()`: Finder. */
  function NewLegacyContext(): LegacyContext {
    LegacyContext(Finder)
  }

  function SetLegacyDeleteMethod(c: LegacyContext, m: DeleteMethod): (r: LegacyContext)
    ensures r.deleteMethod == m
  {
    LegacyContext(m)
  }

  /** `tell application "Finder" to delete { <posix_files> }`. */
  function LegacyScript(posixFiles: seq<byte>): seq<byte> {
    DELETE_HEAD + posixFiles + CLOSE_LIST
  }

  /** The one-line script deletes exactly the given paths, in order, and then closes its list. */
  lemma LegacyScriptNamesEachPath(paths: seq<FsPath>)
    ensures var script := LegacyScript(PosixFiles(paths));
      |DELETE_HEAD| <= |script|
      && ReadList(script[|DELETE_HEAD|..]) == Some((Texts(paths), CLOSE_LIST))
  {
    CloseListIsClear();
    ListAfterHead(DELETE_HEAD, paths, CLOSE_LIST);
  }

  /** The closing brace of the list starts neither a further entry nor another list element. */
  lemma CloseListIsClear()
    ensures !HasPrefix(CLOSE_LIST, LIST_COMMA) && !HasPrefix(CLOSE_LIST, POSIX_FILE)
  {
    assert CLOSE_LIST == [0x20, 0x7D];
    assert LIST_COMMA[0] == 0x2C;
    assert POSIX_FILE[0] == 0x50;
  }

  /** The current back end's script without item information is this one followed by `return ""`. */
  lemma LegacyScriptIsCurrentDelete(posixFiles: seq<byte>)
    ensures FinderScript(posixFiles, false, true) == LegacyScript(posixFiles) + RETURN_NOTHING
    ensures FinderScript(posixFiles, false, false) == LegacyScript(posixFiles) + RETURN_NOTHING
  {
  }

  /** This back end's `delete_using_finder`: the script's exit status decides, nothing is reported. */
  function LegacyDeleteUsingFinder(paths: seq<FsPath>, platform: Platform): (r: Result<Option<seq<TrashItem>>, Error>)
    ensures r.Success? ==> r.value.None?
    ensures var run := platform.osascript(LegacyScript(PosixFiles(paths)));
      r.Success? <==> run.Exited? && run.success
    ensures var run := platform.osascript(LegacyScript(PosixFiles(paths)));
      run.Exited? && !run.success && run.code.Some? ==> r == Failure(Os(run.code.value, run.stderr))
  {
    var run := platform.osascript(LegacyScript(PosixFiles(paths)));
    if run.Exited? && run.success then Success(None) else Failure(CliFailure(run))
  }

  /**
   * This back end's `delete_all_canonicalized`: through Finder it succeeds exactly when
   * `osascript` exits successfully and reports no items; through `NSFileManager` it succeeds
   * exactly when the file manager trashes every path, and then reports items.
   */
  function LegacyDeleteAll(c: LegacyContext, paths: seq<FsPath>, platform: Platform): (r: Result<Option<seq<TrashItem>>, Error>)
    ensures c.deleteMethod == Finder ==>
      var run := platform.osascript(LegacyScript(PosixFiles(paths)));
      (r.Success? <==> run.Exited? && run.success) && (r.Success? ==> r.value.None?)
    ensures c.deleteMethod == NsFileManager ==>
      (r.Success? <==> FileMgrItems(paths, true, platform.trashAt, platform.clock).Success?) && (r.Success? ==> r.value.Some?)
  {
    match c.deleteMethod
    case Finder => LegacyDeleteUsingFinder(paths, platform)
    case NsFileManager => DeleteUsingFileMgr(paths, true, platform.trashAt, platform.clock)
  }

  /**
   * A new context deletes through Finder and reports nothing; after choosing `NSFileManager`,
   * every trashed canonical path with a reported location gives its item, in order.
   */
  lemma LegacyDispatch(paths: seq<FsPath>, platform: Platform)
    ensures LegacyDeleteAll(NewLegacyContext(), paths, platform).Success? ==>
      LegacyDeleteAll(NewLegacyContext(), paths, platform).value.None?
    ensures SetLegacyDeleteMethod(NewLegacyContext(), NsFileManager).deleteMethod == NsFileManager
    ensures AllReported(paths, platform.trashAt)
      ==> var r := LegacyDeleteAll(SetLegacyDeleteMethod(NewLegacyContext(), NsFileManager), paths, platform);
        r.Success? && r.value.Some? && |r.value.value| == |paths|
        && forall i :: 0 <= i < |paths| ==> OriginalPath(r.value.value[i]) == paths[i] && r.value.value[i].timeDeleted == platform.clock(i)
  {
    if AllReported(paths, platform.trashAt) {
      FileMgrReported(paths, platform.trashAt, platform.clock);
    }
  }
}
