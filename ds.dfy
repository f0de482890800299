/**
 * One run of `ds`: the argument count picks between switching to the previous
 * directory, reporting a wrong argument count, and jumping to a tag.
 */
module DirectorySwitch {
  import opened Optional
  import opened TagFile
  import opened Commands
  import opened PreviousDirectory
  import opened Resolver

  /**
   * What a run leaves behind: the new contents of the tag file when it is
   * written, the command written to the command file, and the exit status.
   */
  datatype Outcome = Outcome(tagFile: Option<string>, command: Command, exitStatus: int)

  /**
   * A run of `main` with the arguments after the program name, the tag file's
   * contents (`None` when it cannot be opened) and the current directory.
   */
  function Run(args: seq<string>, tagFile: Option<string>, cwd: string): (o: Outcome)
    ensures |args| > 1 ==> o == Outcome(None, WrongArgumentCount(|args|), 1)
    ensures |args| <= 1 ==> o.tagFile.Some? && o.exitStatus == 0 && !o.command.WrongArgumentCount?
    ensures |args| == 1 ==> o.command.ChangeDirectory?
  {
    if |args| == 0 then
      Outcome(Some(ToggleWritten(Load(tagFile), cwd)), Toggle(Load(tagFile), cwd).1, 0)
    else if |args| > 1 then
      Outcome(None, WrongArgumentCount(|args|), 1)
    else
      var written := Serialize(TrackPrevious(Load(tagFile), cwd));
      Outcome(Some(written), ChangeDirectory(Resolve(Parse(written), args[0])), 0)
  }

  /** `main`. */
  method Invoke(args: seq<string>, tagFile: Option<string>, cwd: string) returns (o: Outcome)
    ensures o == Run(args, tagFile, cwd)
  {
    if |args| == 0 {
      var text, command := ProcessPrevious(tagFile, cwd);
      return Outcome(Some(text), command, 0);
    }
    if |args| != 1 {
      return Outcome(None, WrongArgumentCount(|args|), 1);
    }
    var text := CreatePreviousTagEntry(tagFile, cwd);
    var targetTag := args[0];
    var bestKnownDirectory := ResolveTag(text, targetTag);
    o := Outcome(Some(text), ChangeDirectory(bestKnownDirectory), 0);
  }

  /** A run of `main` with `process_previous_no_tag_entry` writing the store once. */
  function IntendedRun(args: seq<string>, tagFile: Option<string>, cwd: string): (o: Outcome)
    ensures |args| == 0 ==> o == Outcome(Some(Serialize(Toggle(Load(tagFile), cwd).0)), Toggle(Load(tagFile), cwd).1, 0)
    ensures |args| > 0 ==> o == Run(args, tagFile, cwd)
  {
    if |args| == 0 then
      var toggled := Toggle(Load(tagFile), cwd);
      Outcome(Some(Serialize(toggled.0)), toggled.1, 0)
    else
      Run(args, tagFile, cwd)
  }

  /** The program and its correction differ only on the first `ds` with no argument. */
  lemma RunAsIntended(args: seq<string>, tagFile: Option<string>, cwd: string)
    ensures Run(args, tagFile, cwd) == IntendedRun(args, tagFile, cwd) <==> |args| > 0 || FindPrevious(Load(tagFile)).Some?
  {
    if |args| == 0 && FindPrevious(Load(tagFile)).None? {
      var line := Render(Entry(PreviousDirectoryTag, cwd));
      assert |ToggleWritten(Load(tagFile), cwd)| == |Serialize(Toggle(Load(tagFile), cwd).0)| + |line|;
      assert Run(args, tagFile, cwd).tagFile != IntendedRun(args, tagFile, cwd).tagFile;
    } else if |args| == 0 {
      var written := Serialize(Toggle(Load(tagFile), cwd).0);
      assert ToggleWritten(Load(tagFile), cwd) == written + "";
      assert written + "" == written;
    }
  }

  /**
   * The first `ds` with no argument, where the tag file has no previous
   * directory, leaves it holding the current directory followed by the whole
   * previous-directory line; the next `ds` with no argument changes there,
   * not back to where the first one ran.
   */
  lemma FirstToggleCorrupts(tagFile: Option<string>, c: string, d: string)
    requires FindPrevious(Load(tagFile)).None?
    requires CleanPath(c) && |c| > 0
    ensures Run([], tagFile, c).command == PreviousRecorded(c)
    ensures Run([], Run([], tagFile, c).tagFile, d).command == ChangeDirectory(c + Render(Entry(PreviousDirectoryTag, c)))
    ensures Run([], Run([], tagFile, c).tagFile, d).command != ChangeDirectory(c)
  {
    LoadStorable(tagFile);
    DoubleWriteCorrupts(Load(tagFile), c);
  }

  /** The store `main` writes for a run that writes one, as intended, before it is read again. */
  lemma WrittenStore(args: seq<string>, tagFile: Option<string>, cwd: string) returns (es: seq<Entry>)
    requires |args| <= 1 && CleanPath(cwd)
    ensures |es| > 0 && forall i :: 0 <= i < |es| ==> Storable(es[i])
    ensures IntendedRun(args, tagFile, cwd).tagFile == Some(Serialize(es))
    ensures PreviousDir(es) == Some(cwd)
  {
    LoadStorable(tagFile);
    if |args| == 0 {
      es := Toggle(Load(tagFile), cwd).0;
      ToggleStorable(Load(tagFile), cwd);
      ToggleRecords(Load(tagFile), cwd);
    } else {
      es := TrackPrevious(Load(tagFile), cwd);
      TrackPreviousStorable(Load(tagFile), cwd);
      TrackPreviousRecords(Load(tagFile), cwd);
    }
  }

  /** As intended, every run that writes the tag file leaves the directory it started in as the previous one. */
  lemma IntendedRunRecordsDirectory(args: seq<string>, tagFile: Option<string>, cwd: string)
    requires |args| <= 1 && CleanPath(cwd)
    ensures PreviousDir(Load(IntendedRun(args, tagFile, cwd).tagFile)) == Some(cwd)
  {
    var es := WrittenStore(args, tagFile, cwd);
    StoredPrevious(es);
  }

  /**
   * A run that jumps to a tag, or one with no argument where the tag file had
   * a previous directory, leaves the directory it started in as the previous one.
   */
  lemma RunRecordsDirectory(args: seq<string>, tagFile: Option<string>, cwd: string)
    requires |args| == 1 || (|args| == 0 && FindPrevious(Load(tagFile)).Some?)
    requires CleanPath(cwd)
    ensures PreviousDir(Load(Run(args, tagFile, cwd).tagFile)) == Some(cwd)
  {
    RunAsIntended(args, tagFile, cwd);
    IntendedRunRecordsDirectory(args, tagFile, cwd);
  }

  /**
   * `ds` with no argument, run from anywhere after such a run from `c`,
   * changes back to `c`.
   */
  lemma ReturnTrip(args: seq<string>, tagFile: Option<string>, c: string, d: string)
    requires |args| == 1 || (|args| == 0 && FindPrevious(Load(tagFile)).Some?)
    requires CleanPath(c)
    ensures Run([], Run(args, tagFile, c).tagFile, d).command == ChangeDirectory(c)
  {
    RunRecordsDirectory(args, tagFile, c);
  }

  /** As intended, `ds` with no argument after any run from `c` that wrote the tag file changes back to `c`. */
  lemma IntendedReturnTrip(args: seq<string>, tagFile: Option<string>, c: string, d: string)
    requires |args| <= 1 && CleanPath(c)
    ensures IntendedRun([], IntendedRun(args, tagFile, c).tagFile, d).command == ChangeDirectory(c)
  {
    IntendedRunRecordsDirectory(args, tagFile, c);
  }

  /** The store `main` reads back after `create_previous_tag_entry`. */
  lemma ReloadedTracked(tagFile: Option<string>, cwd: string)
    requires CleanPath(cwd)
    ensures |TrackPrevious(Load(tagFile), cwd)| > 0
    ensures Parse(Serialize(TrackPrevious(Load(tagFile), cwd))) == Reloaded(TrackPrevious(Load(tagFile), cwd))
  {
    LoadStorable(tagFile);
    TrackPreviousStorable(Load(tagFile), cwd);
    ReloadSerialize(TrackPrevious(Load(tagFile), cwd));
  }

  /** `ds <tag>` for a tag the file holds changes to the directory of its first entry. */
  lemma JumpToTag(tagFile: Option<string>, tag: string, cwd: string)
    requires |tag| > 0 && tag != PreviousDirectoryTag
    requires TagDir(Load(tagFile), tag).Some?
    requires CleanPath(cwd)
    ensures Run([tag], tagFile, cwd).command == ChangeDirectory(TagDir(Load(tagFile), tag).value)
  {
    var es := TrackPrevious(Load(tagFile), cwd);
    ReloadedTracked(tagFile, cwd);
    TagDirReloaded(es, tag);
    TrackPreviousKeepsTags(Load(tagFile), cwd, tag);
    ResolveExactTag(Reloaded(es), tag);
  }

  /**
   * `ds previous_directory` stays where it is: the entry has just been given
   * the current directory when the lookup reads it.
   */
  lemma JumpToPreviousTag(tagFile: Option<string>, cwd: string)
    requires CleanPath(cwd)
    ensures Run([PreviousDirectoryTag], tagFile, cwd).command == ChangeDirectory(cwd)
  {
    var es := TrackPrevious(Load(tagFile), cwd);
    ReloadedTracked(tagFile, cwd);
    TrackPreviousRecords(Load(tagFile), cwd);
    PreviousEntryWellFormed(cwd);
    TagDirReloaded(es, PreviousDirectoryTag);
    ResolveExactTag(Reloaded(es), PreviousDirectoryTag);
  }
}
