# dswin `ds` helper, modelled in Dafny

`ds` is a small Windows command-line helper for jumping between bookmarked
directories. The tag file `%USERPROFILE%\tags` holds one record per line, a
tag and a directory separated by whitespace. A shell wrapper runs the helper
and then executes the command file the helper writes, `ds_command.cmd`.

- `ds <tag>` records the current directory under the reserved tag
  `previous_directory`. It then writes `cd <dir>` for the entry whose tag is
  nearest to `<tag>` by Levenshtein distance. An exact match ends the search
  early, and of two entries at the same distance the earlier one wins.
- `ds` with no argument changes to the directory stored under
  `previous_directory` and stores the current directory in its place. The
  first time, when there is no such entry yet, it creates the entry and writes
  a message saying so.
- `ds` with more than one argument writes an error message and exits with
  status 1.

The model is split into modules that follow the program's parts:

- `Text` (`text.dfy`): `isspace` and the three trimming helpers.
- `Levenshtein` (`levenshtein.dfy`): the dynamic-programming distance, shown
  equal to the recursive definition of edit distance.
- `TagFile` (`tag_file.dfy`): the entry value, the record reader
  (`is >> tag; getline(is, dir); trim`) on the unread rest of the file, the
  read loop, `operator<<` and `save_tag_file`, and the round trip between
  writing and reading. A file that cannot be opened is `None`.
- `Commands` (`commands.dfy`): the exact command-file texts, and a decoder
  the texts are shown to be unambiguous against.
- `PreviousDirectory` (`previous.dfy`): `create_previous_tag_entry`,
  `process_previous` with its two branches as written, the finding below, and
  `process_previous` with that finding corrected.
- `Resolver` (`resolver.dfy`): the tag lookup loop at the end of `main`.
- `DirectorySwitch` (`ds.dfy`): `main`, taking the command-line arguments,
  the tag file contents and the current directory, and giving the new tag
  file contents, the command and the exit status. `Run` is the program as
  written, and `IntendedRun` is the program with the finding corrected.
  `RunAsIntended` shows that they differ exactly on the first `ds` with no
  argument, when the tag file has no `previous_directory` entry.

The reading side follows the C++ stream closely. These are the exact
consequences that the lemmas state:

- An existing empty file is read as one blank entry (`EmptyFile`).
- A newline after the last line adds a blank entry (`TrailingNewline`).
- Blank entries in the middle of a written store disappear when it is read
  back (`Reloaded`, `ReloadSerialize`).
- A blank last entry is written back as a line holding one space
  (`BlankWrittenBack`). That line is read as the blank entry again
  (`BlankReadAgain`), so a later run reads it once more.
- The lookup always reads at least one entry, because `create_previous_tag_entry`
  has just written one. But it can pick the blank entry: it wins every query
  less than half as long as all the other tags (`BlankResolves`). The command
  is then `cd ` with an empty directory.

Behaviour worth noting:

- `create_previous_tag_entry` overwrites every existing `previous_directory`
  entry with the current directory, not only the first one, and appends one
  only when there is none (main.cpp:314-328).
- The current directory is recorded only before a jump to a tag (main.cpp:350).
  For `ds` with no argument, `process_previous` does its own update.
- An empty store never produces the "tag file is empty" message. The check
  `ifs.eof()` at main.cpp:361 comes right after the file is opened, before
  anything is read, so it never holds. Besides, `create_previous_tag_entry`
  has just written at least one entry. The message text is modelled
  (`Commands.CommandText`), but `main` never produces it.

## Model

Two conditions recur in the table below.

- A store is *storable* when every entry is well formed or blank. A well-formed
  entry has a non-empty tag without whitespace, and a directory with no
  whitespace at either end and no newline. Every store read from a file is
  storable (`LoadStorable`), and writing one and reading it back gives
  `Reloaded` of it: the same entries with the inner blank ones dropped.
- A directory is *clean* (`CleanPath`) when it has no whitespace at either end
  and no newline. A Windows current directory starts with a drive letter or
  `\\` and cannot end in a space, so in practice it is clean.

| member | source | states |
|---|---|---|
| Text.LTrim | main.cpp:36-40 | the result is the input without its longest whitespace prefix |
| Text.RTrim | main.cpp:42-46 | the result is the input without its longest whitespace suffix |
| Text.Trim | main.cpp:48-51 | the result is `rtrim` followed by `ltrim` of the input |
| Text.TrimmedIsSlice | main.cpp:36-51 | trimming keeps one contiguous slice, removes only whitespace around it, and leaves no whitespace at either end |
| Text.TrimmedFixpoint | main.cpp:36-51 | a string is unchanged by trimming exactly when it has no surrounding whitespace |
| Text.TrimIdempotent | main.cpp:48-51 | trimming twice equals trimming once |
| Levenshtein.LevenshteinDistance | main.cpp:84-129 | the matrix algorithm returns the recursive edit distance of the two strings |
| Levenshtein.DistanceZeroIff | main.cpp:380-385 | the distance is 0 exactly when the strings are equal, which is what ends the lookup early |
| Levenshtein.DistanceBounds | main.cpp:84-129 | the distance lies between the difference of the lengths and the longer length |
| TagFile.ReadRaw | main.cpp:171-172 | `>>` yields the longest whitespace-free token, since a non-empty line starts with whitespace, and `getline` a line without a newline; a stream that stays good leaves strictly less input unread; the token is empty exactly when only whitespace is left, and then the line is empty and the stream stopped |
| TagFile.ReadRawSplits | main.cpp:171-172 | the input is exactly the whitespace `>>` skips, the token, the line, and then, if the stream stays good, a newline and the unread rest |
| TagFile.ReadRawNewline | main.cpp:171-172 | when the stream stays good, the character just before the unread rest is the newline `getline` consumed |
| TagFile.ReadRecord | main.cpp:168-178 | one record gives a tag with no whitespace and a directory with none around it and no newline, and a record that continues the stream consumes input |
| TagFile.NextRecord | main.cpp:305-312 | the tag and directory extracted and trimmed, and the unread input, are those of one record |
| TagFile.ExtractEntry | main.cpp:168-178 | `operator>>` pushes exactly the entry of one record after the existing ones |
| TagFile.Parse | main.cpp:280-281 | the read loop on an existing file always pushes at least one entry |
| TagFile.Load | main.cpp:278-281 | no entries are read exactly when the tag file cannot be opened |
| TagFile.ReadTagFile | main.cpp:276-284 | the read loop yields exactly the entries the file holds, none for a missing file |
| TagFile.Render | main.cpp:163-166 | an entry's line is its tag, one space and its directory |
| TagFile.SaveTagFile | main.cpp:234-249 | the text written is the rendered entries joined by newlines, with none after the last |
| TagFile.Serialize | main.cpp:234-249 | the text is empty exactly when the store is |
| TagFile.SerializeNewlines | main.cpp:241-243 | a non-empty store of n entries, none of whose tags and directories holds a newline, is written with exactly n - 1 newlines |
| TagFile.ParseShape | main.cpp:168-178 | every entry read is well formed or blank, and only the last can be blank |
| TagFile.ReloadSerialize | main.cpp:234-249 | writing a storable store and reading it back drops its inner blank entries and keeps everything else in order |
| TagFile.RoundTrip | main.cpp:234-249 | a store of well-formed entries reads back as itself |
| TagFile.TrailingNewline | main.cpp:280-281 | a newline after the last line of a well-formed store is read as one extra blank entry |
| TagFile.BlankWrittenBack | main.cpp:234-249 | the blank entry a trailing newline leaves is written back as a line holding a single space |
| TagFile.BlankReadAgain | main.cpp:280-281 | a file whose last line holds only a space is read back with the blank entry, so the blank entry persists |
| TagFile.SerializeSnoc | main.cpp:238-246 | writing one more entry adds a newline and that entry's line |
| TagFile.EmptyFile | main.cpp:280-281 | an existing empty file is read as a single blank entry |
| TagFile.ReadSkipsSpace | main.cpp:171 | leading whitespace does not change the record read or the entries read |
| TagFile.FindTag | main.cpp:195-199 | the search finds the first entry with the tag, and finds none exactly when no entry has it |
| TagFile.FindTagIs | main.cpp:195-199 | an entry with the tag that no earlier entry has is the one the search finds |
| TagFile.TagDirReloaded | main.cpp:234-249 | dropping the inner blank entries of a non-empty store (`Reloaded`, which is what a storable store reads back as) finds the same directory for every non-empty tag |
| PreviousDirectory.IsPrevious | main.cpp:188-190 | the reserved tag is a single non-empty token, so a previous-directory entry keeps its tag when written and read |
| PreviousDirectory.FindPrevious | main.cpp:188-200 | the first `previous_directory` entry is found, or none exactly when there is none |
| PreviousDirectory.Overwrite | main.cpp:314-320 | the loop pushes every record, with the current directory for each `previous_directory` entry and nothing else changed |
| PreviousDirectory.TrackPrevious | main.cpp:298-333 | every `previous_directory` entry gets the current directory, the others are unchanged, and one is appended exactly when there was none |
| PreviousDirectory.ExtractUpdatedEntry | main.cpp:305-320 | one loop step pushes the record's entry, with the current directory for the previous-directory tag, and sets the flag exactly for that tag |
| PreviousDirectory.CreatePreviousTagEntry | main.cpp:298-333 | the file written is the tracked store (`TrackPrevious`) of the entries read |
| PreviousDirectory.TrackPreviousRecords | main.cpp:298-333 | after recording, the previous directory is the current one |
| PreviousDirectory.TrackPreviousIdempotent | main.cpp:298-333 | recording `a` and then `b` equals recording `b` once |
| PreviousDirectory.TrackPreviousKeepsTags | main.cpp:314-320 | recording changes the lookup of no other tag |
| PreviousDirectory.TrackPreviousStorable | main.cpp:298-333 | recording a clean directory keeps every entry storable |
| PreviousDirectory.Toggle | main.cpp:251-296 | with a previous entry: `cd` to its old directory, with that entry now holding the current directory and every other entry unchanged; without one: the entry with the current directory is appended and the recorded message given |
| PreviousDirectory.ToggleRecords | main.cpp:251-296 | after switching, the previous directory is the current one |
| PreviousDirectory.ToggleBack | main.cpp:251-296 | switching from `c` to the previous `d` and back from `d` returns to `c` and restores the store |
| PreviousDirectory.ToggleStorable | main.cpp:251-296 | switching to a clean directory keeps a storable store storable and non-empty |
| PreviousDirectory.SwitchToPrevious | main.cpp:251-273 | the command is `cd` to the entry's old directory, and the file written is the store with that entry's directory replaced by the current one |
| PreviousDirectory.ProcessPreviousNoTagEntryAsWritten | main.cpp:202-232 | as written: the store with the new entry, then that entry's line once more with no newline before it |
| PreviousDirectory.ProcessPreviousNoTagEntry | main.cpp:202-232 | as intended: the store with the new entry written once, and the recorded message |
| PreviousDirectory.ProcessPrevious | main.cpp:275-296 | the command is that of `Toggle` on the entries read; with a previous entry the file written is the switched store, and without one it is the store with the entry, followed by that entry's line again |
| PreviousDirectory.ProcessPreviousIntended | main.cpp:275-296 | with the record branch corrected, the file written is the switched store of `Toggle`, written once, with `Toggle`'s command |
| PreviousDirectory.SerializeExtendLast | main.cpp:221-224 | text written right after the last line becomes part of the last entry's directory |
| PreviousDirectory.LoadStorable | main.cpp:276-284 | every entry read from a file is storable |
| PreviousDirectory.StoredPrevious | main.cpp:234-249 | a non-empty storable store, written and read back, has the same previous directory |
| PreviousDirectory.DoubleWriteCorrupts | main.cpp:202-232 | as written, for a storable store without a previous entry and a clean non-empty current directory, the previous directory read back is the current one followed by the whole previous-directory line, which differs from the current one |
| PreviousDirectory.NoTagEntryRecords | main.cpp:202-232 | as intended, for a storable store without a previous entry and a clean current directory, the previous directory read back is the current one |
| Resolver.FirstClosest | main.cpp:370-391 | the index is of an entry at minimal distance, and every earlier entry is strictly farther |
| Resolver.FirstClosestUnique | main.cpp:387-390 | only one entry is first nearest |
| Resolver.ResolveFirstClosest | main.cpp:370-393 | the directory written is that of the first nearest entry |
| Resolver.ResolveExactTag | main.cpp:380-385 | a query that is a tag of the store resolves to the directory of the first entry with that tag |
| Resolver.BlankResolves | main.cpp:380-393 | a blank last entry wins the lookup of every query less than half as long as all other tags, and the `cd` written has an empty directory |
| Resolver.ClosestStep | main.cpp:387-390 | a strictly nearer new entry becomes the first closest, otherwise the old one stays |
| Resolver.ExactStops | main.cpp:382-385 | the first entry tagged with the query decides the result, whatever follows it |
| Resolver.ScanRecord | main.cpp:371-390 | one record of the lookup: distance 0 exactly for the query's own tag, which ends the loop with that directory; otherwise the best so far stays the first nearest of the records read |
| Resolver.ResolveTag | main.cpp:356-393 | the lookup loop returns the resolution of the entries in the file: exact match first, else the first nearest |
| Commands.DecimalRoundTrip | main.cpp:344-345 | the argument count written in decimal reads back as that count |
| Commands.Decimal | main.cpp:344-345 | `<< (argc - 1)` writes decimal digits only, one digit exactly below ten, with no leading zero |
| Commands.CommandText | main.cpp:226-228 | each command-file text (main.cpp:226-228, 261, 343-345, 362-363, 393) is read back as its own command and no other |
| DirectorySwitch.Run | main.cpp:335-397 | more than one argument: the count error, status 1 and no write; otherwise the tag file is written and status 0; one argument always gives a `cd` |
| DirectorySwitch.Invoke | main.cpp:335-397 | `main` computes exactly `Run`, the program as written |
| DirectorySwitch.IntendedRun | main.cpp:335-397 | the corrected program writes the switched store once with no argument, and otherwise runs as written |
| DirectorySwitch.RunAsIntended | main.cpp:335-348 | the program and its correction agree exactly when there is an argument or the tag file has a previous directory |
| DirectorySwitch.FirstToggleCorrupts | main.cpp:290-291 | as written, for a clean non-empty `c` and a tag file without a previous entry, the first `ds` with no argument from `c` gives the recorded message, and the next one changes to `c` followed by the previous-directory line, not back to `c` |
| DirectorySwitch.WrittenStore | main.cpp:335-397 | as intended, every run from a clean current directory that writes gives a non-empty storable store whose previous directory is the current one |
| DirectorySwitch.IntendedRunRecordsDirectory | main.cpp:335-397 | as intended, after every run from a clean directory that writes the tag file, reading it back gives the starting directory as the previous one |
| DirectorySwitch.RunRecordsDirectory | main.cpp:335-397 | as written, the same holds, from a clean directory, after a jump to a tag and after a no-argument run that found a previous directory |
| DirectorySwitch.ReturnTrip | main.cpp:335-397 | as written, `ds` with no argument after such a run from a clean `c` changes back to `c`, from wherever it is run |
| DirectorySwitch.IntendedReturnTrip | main.cpp:335-397 | as intended, `ds` with no argument after any writing run from a clean `c` changes back to `c` |
| DirectorySwitch.ReloadedTracked | main.cpp:350-370 | from a clean current directory, the lookup reads back the recorded store, which is non-empty, with its inner blank entries dropped |
| DirectorySwitch.JumpToTag | main.cpp:350-393 | from a clean current directory, `ds <tag>` for another tag the file holds changes to the directory of its first entry |
| DirectorySwitch.JumpToPreviousTag | main.cpp:350-393 | from a clean current directory, `ds previous_directory` changes to it, since the entry has just been given it |

## Left out

- The Win32 calls `GetCurrentDirectoryA` and `SHGetFolderPathA`
  (main.cpp:53-67, 131-135) are left out. The current directory is a
  parameter. A current directory too long for the `MAX_PATH` buffer is not
  modelled: `GetCurrentDirectoryA` then leaves the buffer unfilled. The leaked
  copy of the home path is not modelled either. Paths (main.cpp:180-186) are not modelled either: the
  model has one tag file and one command file.
- File streams are modelled by their contents: the tag file as text that can
  be absent, the command file as a `Command` with its exact text in
  `Commands.CommandText`. Opening, closing, flushing and I/O errors other than
  a missing tag file are left out.
- Concurrent runs of `ds` on the same files are left out.
- The `ifs.eof()` branch at main.cpp:361-368 is left out of
  `DirectorySwitch.Invoke`, because it is never taken (see above). Its text is
  in `Commands.CommandText` as `EmptyTagFile`.
- DirectorySwitch.Run: `argc` is the number of arguments plus one, so
  `argc == 0` (possible on some platforms) is not representable.
- Resolver.ResolveTag: `size_t` distances are unbounded naturals, and the
  initial `SIZE_MAX` is `None`. No tag is long enough for a distance to reach
  `SIZE_MAX`, so the comparison at main.cpp:387 is the same.
- The `cd` command is modelled as text only. What the shell does with it,
  including `cd ` with an empty directory, is outside the model.
- A Dafny `char` stands for one byte as the text-mode streams deliver it: a
  `"\r\n"` in the tag file is read as `"\n"`, and a `"\n"` written becomes
  `"\r\n"`. Levenshtein distances therefore count bytes, not the characters of a
  multi-byte code page.
- `isspace` is the "C" locale set of six characters. Characters beyond it and
  locale-dependent whitespace are not modelled.

## Findings

| source | as written | input that shows it | evidently intended | confidence | as-written member | corrected member |
|---|---|---|---|---|---|---|
| main.cpp:202-232 | `process_previous_no_tag_entry` runs `save_tag_file` without a trailing newline, then writes the previous-directory entry a second time (main.cpp:221-224). The second copy lands on the last line, which becomes `previous_directory C:\Aprevious_directory C:\A`. | `ds` with no argument from `C:\A`, with a tag file that has no `previous_directory` entry (or no tag file at all) | write the store with the new entry once, so the next `ds` changes back to `C:\A` | not executed | PreviousDirectory.ProcessPreviousNoTagEntryAsWritten, PreviousDirectory.DoubleWriteCorrupts, DirectorySwitch.FirstToggleCorrupts | PreviousDirectory.ProcessPreviousNoTagEntry, PreviousDirectory.NoTagEntryRecords, DirectorySwitch.IntendedReturnTrip |
