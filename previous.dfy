/**
 * The `previous_directory` entry of the tag file: finding it, switching to it
 * (`ds` with no argument), and recording the current directory in it before a
 * jump to a tag.
 */
module PreviousDirectory {
  import opened Optional
  import opened Text
  import opened TagFile
  import opened Commands

  const PreviousDirectoryTag := "previous_directory"

  /**
   * `tag_matches_previous_directory_tag`. The reserved tag is a single token,
   * so a previous-directory entry keeps its tag through a write and a read.
   */
  predicate IsPrevious(e: Entry)
    ensures IsPrevious(e) ==> |e.tag| > 0 && NoSpace(e.tag)
  {
    assert PreviousDirectoryTag == ['p', 'r', 'e', 'v', 'i', 'o', 'u', 's', '_', 'd', 'i', 'r', 'e', 'c', 't', 'o', 'r', 'y'];
    e.tag == PreviousDirectoryTag
  }

  /** A directory an entry can hold unchanged through a write and a read. */
  predicate CleanPath(p: string) {
    NoSurroundingSpace(p) && NoNewline(p)
  }

  /** The previous-directory entry is well formed for every clean directory. */
  lemma PreviousEntryWellFormed(cwd: string)
    requires CleanPath(cwd)
    ensures WellFormed(Entry(PreviousDirectoryTag, cwd))
  {
    assert PreviousDirectoryTag == ['p', 'r', 'e', 'v', 'i', 'o', 'u', 's', '_', 'd', 'i', 'r', 'e', 'c', 't', 'o', 'r', 'y'];
  }

  /**
   * `find_previous_directory_tag_entry_iterator`: the index of the first
   * previous-directory entry, or `None` where it returns `end()`.
   */
  function FindPrevious(es: seq<Entry>): (r: Option<nat>)
    ensures r.Some? ==> r.value < |es| && IsPrevious(es[r.value])
    ensures r.Some? ==> forall i :: 0 <= i < r.value ==> !IsPrevious(es[i])
    ensures r.None? <==> forall i :: 0 <= i < |es| ==> !IsPrevious(es[i])
  {
    FindTag(es, PreviousDirectoryTag)
  }

  /** The directory the first previous-directory entry holds. */
  function PreviousDir(es: seq<Entry>): Option<string> {
    TagDir(es, PreviousDirectoryTag)
  }

  /** The entry `create_previous_tag_entry` pushes for a record it has read. */
  function Updated(e: Entry, cwd: string): Entry {
    if IsPrevious(e) then e.(dir := cwd) else e
  }

  /** The entries `create_previous_tag_entry` has pushed after reading `es`. */
  function Overwrite(es: seq<Entry>, cwd: string): (r: seq<Entry>)
    ensures |r| == |es|
    ensures forall i :: 0 <= i < |es| && IsPrevious(es[i]) ==> r[i] == Entry(PreviousDirectoryTag, cwd)
    ensures forall i :: 0 <= i < |es| && !IsPrevious(es[i]) ==> r[i] == es[i]
  {
    if |es| == 0 then [] else [Updated(es[0], cwd)] + Overwrite(es[1..], cwd)
  }

  /**
   * The store `create_previous_tag_entry` writes: every previous-directory
   * entry gets the current directory, and one is appended when there is none.
   */
  function TrackPrevious(es: seq<Entry>, cwd: string): (r: seq<Entry>)
    ensures |r| == |es| + (if FindPrevious(es).Some? then 0 else 1)
    ensures forall i :: 0 <= i < |es| && IsPrevious(es[i]) ==> r[i] == Entry(PreviousDirectoryTag, cwd)
    ensures forall i :: 0 <= i < |es| && !IsPrevious(es[i]) ==> r[i] == es[i]
    ensures FindPrevious(es).None? ==> r[|es|] == Entry(PreviousDirectoryTag, cwd)
    ensures forall i :: 0 <= i < |r| && IsPrevious(r[i]) ==> r[i].dir == cwd
  {
    Overwrite(es, cwd) + (if FindPrevious(es).Some? then [] else [Entry(PreviousDirectoryTag, cwd)])
  }

  /** After `create_previous_tag_entry` the previous directory is the current one. */
  lemma TrackPreviousRecords(es: seq<Entry>, cwd: string)
    ensures PreviousDir(TrackPrevious(es, cwd)) == Some(cwd)
  {
    var r := TrackPrevious(es, cwd);
    match FindPrevious(es)
    case Some(k) =>
      assert forall i :: 0 <= i < k ==> r[i] == es[i];
      FindTagIs(r, PreviousDirectoryTag, k);
    case None =>
      assert forall i :: 0 <= i < |es| ==> r[i] == es[i];
      FindTagIs(r, PreviousDirectoryTag, |es|);
  }

  /** Recording twice is recording the second directory once. */
  lemma TrackPreviousIdempotent(es: seq<Entry>, a: string, b: string)
    ensures TrackPrevious(TrackPrevious(es, a), b) == TrackPrevious(es, b)
  {
    var once := TrackPrevious(es, a);
    match FindPrevious(es)
    case Some(k) =>
      assert IsPrevious(once[k]);
    case None =>
      assert IsPrevious(once[|es|]);
  }

  /** Recording a clean directory keeps a storable store storable. */
  lemma TrackPreviousStorable(es: seq<Entry>, cwd: string)
    requires forall i :: 0 <= i < |es| ==> Storable(es[i])
    requires CleanPath(cwd)
    ensures forall i :: 0 <= i < |TrackPrevious(es, cwd)| ==> Storable(TrackPrevious(es, cwd)[i])
  {
    PreviousEntryWellFormed(cwd);
  }

  /** Recording the previous directory changes no lookup of another tag. */
  lemma TrackPreviousKeepsTags(es: seq<Entry>, cwd: string, tag: string)
    requires tag != PreviousDirectoryTag
    ensures TagDir(TrackPrevious(es, cwd), tag) == TagDir(es, tag)
  {
    var r := TrackPrevious(es, cwd);
    match FindTag(es, tag)
    case Some(k) =>
      assert r[k] == es[k];
      assert forall i :: 0 <= i < k ==> r[i].tag == es[i].tag;
      FindTagIs(r, tag, k);
    case None =>
      assert forall i :: 0 <= i < |r| ==> r[i].tag != tag by {
        forall i | 0 <= i < |r|
          ensures r[i].tag != tag
        {
          if i < |es| && !IsPrevious(es[i]) {
            assert r[i] == es[i];
          }
        }
      }
  }

  /** One more record read: its entry is updated and pushed after the others. */
  lemma {:induction false} OverwriteStep(read: seq<Entry>, e: Entry, cwd: string)
    ensures Overwrite(read + [e], cwd) == Overwrite(read, cwd) + [Updated(e, cwd)]
  {
    if |read| > 0 {
      assert (read + [e])[1..] == read[1..] + [e];
      OverwriteStep(read[1..], e, cwd);
    }
  }

  /** One more record read: the flag notes whether a previous-directory tag has been seen. */
  lemma PreviousSeenStep(read: seq<Entry>, e: Entry)
    ensures FindPrevious(read + [e]).Some? <==> FindPrevious(read).Some? || IsPrevious(e)
  {
    var longer := read + [e];
    assert forall i :: 0 <= i < |read| ==> longer[i] == read[i];
    assert longer[|read|] == e;
  }

  /** After the read loop, appending the entry when no flag was set gives the tracked store. */
  lemma TrackedStore(read: seq<Entry>, cwd: string, entries: seq<Entry>, updated: bool)
    requires entries == Overwrite(read, cwd) && updated == FindPrevious(read).Some?
    ensures (if updated then entries else entries + [Entry(PreviousDirectoryTag, cwd)]) == TrackPrevious(read, cwd)
  {
  }

  /**
   * The body of the read loop of `create_previous_tag_entry`: reads one record
   * and pushes its entry, with the current directory if it is the previous one.
   */
  method ExtractUpdatedEntry(input: string, entries: seq<Entry>, cwd: string)
    returns (pushed: seq<Entry>, rest: Option<string>, previous: bool)
    ensures pushed == entries + [Updated(ReadRecord(input).entry, cwd)]
    ensures rest == ReadRecord(input).rest
    ensures previous == IsPrevious(ReadRecord(input).entry)
  {
    var tag, dir;
    tag, dir, rest := NextRecord(input);
    previous := false;
    if tag == PreviousDirectoryTag {
      dir := cwd;
      previous := true;
    }
    pushed := entries + [Entry(tag, dir)];
  }

  /** `create_previous_tag_entry`: reads the tag file record by record, then writes it back. */
  method CreatePreviousTagEntry(tagFile: Option<string>, cwd: string) returns (text: string)
    ensures text == Serialize(TrackPrevious(Load(tagFile), cwd))
  {
    var entries: seq<Entry> := [];
    var previousEntryUpdated := false;
    ghost var read: seq<Entry> := [];
    var rest := tagFile;
    while rest.Some?
      invariant read + Load(rest) == Load(tagFile)
      invariant entries == Overwrite(read, cwd)
      invariant previousEntryUpdated == FindPrevious(read).Some?
      decreases if rest.Some? then |rest.value| + 1 else 0
    {
      var input := rest.value;
      LoadStep(read, input, tagFile);
      OverwriteStep(read, ReadRecord(input).entry, cwd);
      PreviousSeenStep(read, ReadRecord(input).entry);
      var previous;
      entries, rest, previous := ExtractUpdatedEntry(input, entries, cwd);
      previousEntryUpdated := previousEntryUpdated || previous;
      read := read + [ReadRecord(input).entry];
    }
    assert read == Load(tagFile) by {
      assert read + Load(rest) == read + [];
    }
    TrackedStore(read, cwd, entries, previousEntryUpdated);
    if !previousEntryUpdated {
      entries := entries + [Entry(PreviousDirectoryTag, cwd)];
    }
    text := SaveTagFile(entries);
  }

  /**
   * `process_previous` on a store read from the tag file: the store with the
   * previous directory swapped for the current one, and the command to run.
   * Both the program as written (`ToggleWritten`) and its correction write
   * this store; they differ in what follows it.
   */
  function Toggle(es: seq<Entry>, cwd: string): (r: (seq<Entry>, Command))
    ensures PreviousDir(es).Some? ==> r.1 == ChangeDirectory(PreviousDir(es).value)
    ensures PreviousDir(es).None? ==> r.1 == PreviousRecorded(cwd)
    ensures |r.0| == |es| + (if FindPrevious(es).Some? then 0 else 1)
    ensures forall i :: 0 <= i < |es| && FindPrevious(es) != Some(i) ==> r.0[i] == es[i]
    ensures FindPrevious(es).Some? ==> r.0[FindPrevious(es).value] == Entry(PreviousDirectoryTag, cwd)
    ensures FindPrevious(es).None? ==> r.0[|es|] == Entry(PreviousDirectoryTag, cwd)
  {
    match FindPrevious(es)
    case Some(k) => (es[k := es[k].(dir := cwd)], ChangeDirectory(es[k].dir))
    case None => (es + [Entry(PreviousDirectoryTag, cwd)], PreviousRecorded(cwd))
  }

  /** After `process_previous` the previous directory is the current one. */
  lemma ToggleRecords(es: seq<Entry>, cwd: string)
    ensures PreviousDir(Toggle(es, cwd).0) == Some(cwd)
  {
    var r := Toggle(es, cwd).0;
    match FindPrevious(es)
    case Some(k) =>
      assert forall i :: 0 <= i < k ==> r[i] == es[i];
      FindTagIs(r, PreviousDirectoryTag, k);
    case None =>
      assert forall i :: 0 <= i < |es| ==> r[i] == es[i];
      FindTagIs(r, PreviousDirectoryTag, |es|);
  }

  /**
   * Switching to the previous directory `d` from `c` and then back from `d`
   * gives the command to return to `c` and restores the original store.
   */
  lemma ToggleBack(es: seq<Entry>, c: string, d: string)
    requires PreviousDir(es) == Some(d)
    ensures Toggle(Toggle(es, c).0, d) == (es, ChangeDirectory(c))
  {
    var k := FindPrevious(es).value;
    var once := Toggle(es, c).0;
    assert forall i :: 0 <= i < k ==> once[i] == es[i];
    FindTagIs(once, PreviousDirectoryTag, k);
    assert es[k].dir == d;
    assert once[k := once[k].(dir := d)] == es;
  }

  /** Switching keeps a storable store storable when the current directory is clean. */
  lemma ToggleStorable(es: seq<Entry>, cwd: string)
    requires forall i :: 0 <= i < |es| ==> Storable(es[i])
    requires CleanPath(cwd)
    ensures |Toggle(es, cwd).0| > 0
    ensures forall i :: 0 <= i < |Toggle(es, cwd).0| ==> Storable(Toggle(es, cwd).0[i])
  {
    PreviousEntryWellFormed(cwd);
    var r := Toggle(es, cwd).0;
    match FindPrevious(es)
    case Some(k) =>
      assert r[k] == Entry(PreviousDirectoryTag, cwd);
    case None =>
  }

  /**
   * `process_switch_to_previous`: the command to change to the entry's
   * directory, and the tag file written after that entry's directory became
   * the current one (`set_dir`).
   */
  method SwitchToPrevious(entries: seq<Entry>, k: nat, cwd: string) returns (text: string, command: Command)
    requires k < |entries|
    ensures command == ChangeDirectory(entries[k].dir)
    ensures text == Serialize(entries[k := entries[k].(dir := cwd)])
  {
    var nextDirectory := entries[k].dir;
    command := ChangeDirectory(nextDirectory);
    var updated := entries[k := entries[k].(dir := cwd)];
    text := SaveTagFile(updated);
  }

  /**
   * `process_previous_no_tag_entry` as written: the store with the new entry is
   * written, and then the same entry once more, right after the last line.
   */
  method ProcessPreviousNoTagEntryAsWritten(entries: seq<Entry>, cwd: string) returns (text: string, command: Command)
    ensures text == Serialize(entries + [Entry(PreviousDirectoryTag, cwd)]) + Render(Entry(PreviousDirectoryTag, cwd))
    ensures command == PreviousRecorded(cwd)
  {
    var pushed := entries + [Entry(PreviousDirectoryTag, cwd)];
    text := SaveTagFile(pushed);
    var currentDirectoryTagEntry := Entry(PreviousDirectoryTag, cwd);
    text := text + Render(currentDirectoryTagEntry);
    command := PreviousRecorded(cwd);
  }

  /** `process_previous_no_tag_entry` as intended: the store with the new entry, written once. */
  method ProcessPreviousNoTagEntry(entries: seq<Entry>, cwd: string) returns (text: string, command: Command)
    ensures text == Serialize(entries + [Entry(PreviousDirectoryTag, cwd)])
    ensures command == PreviousRecorded(cwd)
  {
    var pushed := entries + [Entry(PreviousDirectoryTag, cwd)];
    text := SaveTagFile(pushed);
    command := PreviousRecorded(cwd);
  }

  /**
   * The tag file `process_previous` writes for a store read from it: the
   * switched store, followed, when there was no previous-directory entry, by
   * that entry's line a second time.
   */
  function ToggleWritten(es: seq<Entry>, cwd: string): string {
    Serialize(Toggle(es, cwd).0) + (if FindPrevious(es).None? then Render(Entry(PreviousDirectoryTag, cwd)) else "")
  }

  /** `process_previous`: reads the tag file, then switches or records, as written. */
  method ProcessPrevious(tagFile: Option<string>, cwd: string) returns (text: string, command: Command)
    ensures text == ToggleWritten(Load(tagFile), cwd)
    ensures FindPrevious(Load(tagFile)).Some? ==> text == Serialize(Toggle(Load(tagFile), cwd).0)
    ensures command == Toggle(Load(tagFile), cwd).1
  {
    var entries := ReadTagFile(tagFile);
    var found := FindPrevious(entries);
    if found.Some? {
      text, command := SwitchToPrevious(entries, found.value, cwd);
    } else {
      text, command := ProcessPreviousNoTagEntryAsWritten(entries, cwd);
    }
  }

  /** `process_previous` with the record branch corrected: the switched store, written once. */
  method ProcessPreviousIntended(tagFile: Option<string>, cwd: string) returns (text: string, command: Command)
    ensures text == Serialize(Toggle(Load(tagFile), cwd).0)
    ensures command == Toggle(Load(tagFile), cwd).1
  {
    var entries := ReadTagFile(tagFile);
    var found := FindPrevious(entries);
    if found.Some? {
      text, command := SwitchToPrevious(entries, found.value, cwd);
    } else {
      text, command := ProcessPreviousNoTagEntry(entries, cwd);
    }
  }

  /** Text appended right after the last line of a store lands in the last entry's directory. */
  lemma {:induction false} SerializeExtendLast(es: seq<Entry>, e: Entry, x: string)
    ensures Serialize(es + [e]) + x == Serialize(es + [e.(dir := e.dir + x)])
  {
    var e' := e.(dir := e.dir + x);
    if |es| == 0 {
      assert es + [e] == [e] && es + [e'] == [e'];
    } else {
      SerializeExtendLast(es[1..], e, x);
      assert (es + [e])[1..] == es[1..] + [e];
      assert (es + [e'])[1..] == es[1..] + [e'];
    }
  }

  /** Every entry read from a tag file is storable. */
  lemma LoadStorable(file: Option<string>)
    ensures forall i :: 0 <= i < |Load(file)| ==> Storable(Load(file)[i])
  {
    if file.Some? {
      ParseShape(file.value);
    }
  }

  /** A written store is read back with the same previous directory. */
  lemma StoredPrevious(es: seq<Entry>)
    requires |es| > 0
    requires forall i :: 0 <= i < |es| ==> Storable(es[i])
    ensures PreviousDir(Load(Some(Serialize(es)))) == PreviousDir(es)
  {
    ReloadSerialize(es);
    TagDirReloaded(es, PreviousDirectoryTag);
  }

  /** The directory the double write leaves in the previous entry is clean when the current one is. */
  lemma CorruptedPathClean(cwd: string)
    requires CleanPath(cwd) && |cwd| > 0
    ensures CleanPath(cwd + Render(Entry(PreviousDirectoryTag, cwd)))
  {
    PreviousEntryWellFormed(cwd);
    var line := Render(Entry(PreviousDirectoryTag, cwd));
    var x := cwd + line;
    assert x[0] == cwd[0] && x[|x| - 1] == cwd[|cwd| - 1];
    forall k | 0 <= k < |x|
      ensures x[k] != '\n'
    {
      if k < |cwd| {
        assert x[k] == cwd[k];
      } else if k < |cwd| + |PreviousDirectoryTag| {
        assert x[k] == line[..|PreviousDirectoryTag|][k - |cwd|];
        assert !IsSpace(PreviousDirectoryTag[k - |cwd|]);
      } else if k > |cwd| + |PreviousDirectoryTag| {
        assert x[k] == line[|PreviousDirectoryTag| + 1..][k - |cwd| - |PreviousDirectoryTag| - 1];
      }
    }
  }

  /**
   * The double write of `process_previous_no_tag_entry` corrupts the tag
   * file: read back, the previous directory is the current one followed by
   * the whole previous-directory line, `previous_directory ` and the current
   * one again.
   */
  lemma DoubleWriteCorrupts(es: seq<Entry>, cwd: string)
    requires forall i :: 0 <= i < |es| ==> Storable(es[i])
    requires FindPrevious(es).None?
    requires CleanPath(cwd) && |cwd| > 0
    ensures PreviousDir(Load(Some(Serialize(es + [Entry(PreviousDirectoryTag, cwd)]) + Render(Entry(PreviousDirectoryTag, cwd)))))
         == Some(cwd + Render(Entry(PreviousDirectoryTag, cwd)))
    ensures cwd + Render(Entry(PreviousDirectoryTag, cwd)) != cwd
  {
    var p := Entry(PreviousDirectoryTag, cwd);
    SerializeExtendLast(es, p, Render(p));
    CorruptedPathClean(cwd);
    NoTagEntryRecords(es, cwd + Render(p));
  }

  /** Appending a previous-directory entry to a store without one makes it the previous directory. */
  lemma AppendedPrevious(es: seq<Entry>, cwd: string)
    requires forall i :: 0 <= i < |es| ==> Storable(es[i])
    requires FindPrevious(es).None?
    requires CleanPath(cwd)
    ensures PreviousDir(es + [Entry(PreviousDirectoryTag, cwd)]) == Some(cwd)
    ensures forall i :: 0 <= i < |es| + 1 ==> Storable((es + [Entry(PreviousDirectoryTag, cwd)])[i])
  {
    var p := Entry(PreviousDirectoryTag, cwd);
    var written := es + [p];
    assert forall i :: 0 <= i < |es| ==> written[i] == es[i];
    assert written[|es|] == p;
    FindTagIs(written, PreviousDirectoryTag, |es|);
    PreviousEntryWellFormed(cwd);
  }

  /** Written as intended, recording leaves the current directory as the previous one on disk. */
  lemma NoTagEntryRecords(es: seq<Entry>, cwd: string)
    requires forall i :: 0 <= i < |es| ==> Storable(es[i])
    requires FindPrevious(es).None?
    requires CleanPath(cwd)
    ensures PreviousDir(Load(Some(Serialize(es + [Entry(PreviousDirectoryTag, cwd)])))) == Some(cwd)
  {
    AppendedPrevious(es, cwd);
    StoredPrevious(es + [Entry(PreviousDirectoryTag, cwd)]);
  }
}
