/**
 * The tag file: `DirectoryTagEntry`, reading records with `operator>>`
 * (`is >> tag; getline(is, dir); trim both`) until the stream stops, and
 * writing the entries back with `save_tag_file`.
 *
 * The stream is modelled by the unread rest of the file contents. A missing
 * file is `None`: the stream is not good and no record is read.
 */
module TagFile {
  import opened Optional
  import opened Text

  /** A `DirectoryTagEntry`: a tag and the directory it stands for. */
  datatype Entry = Entry(tag: string, dir: string)

  /** The entry read from a file position where only whitespace is left. */
  const Blank := Entry("", "")

  /** An entry that survives being written and read back unchanged. */
  predicate WellFormed(e: Entry) {
    |e.tag| > 0 && NoSpace(e.tag) && NoSurroundingSpace(e.dir) && NoNewline(e.dir)
  }

  /** What a store may hold once it has been read from a file. */
  predicate Storable(e: Entry) {
    WellFormed(e) || e == Blank
  }

  predicate NoNewline(s: string) {
    forall k :: 0 <= k < |s| ==> s[k] != '\n'
  }

  /** The length of the longest prefix of `s` without whitespace: the token `>>` extracts. */
  function TokenLength(s: string): (n: nat)
    ensures n <= |s|
    ensures forall k :: 0 <= k < n ==> !IsSpace(s[k])
    ensures n < |s| ==> IsSpace(s[n])
  {
    if |s| > 0 && !IsSpace(s[0]) then 1 + TokenLength(s[1..]) else 0
  }

  /** The number of characters before the first `'\n'` of `s`: what `getline` extracts. */
  function LineLength(s: string): (n: nat)
    ensures n <= |s|
    ensures forall k :: 0 <= k < n ==> s[k] != '\n'
    ensures n < |s| ==> s[n] == '\n'
  {
    if |s| > 0 && s[0] != '\n' then 1 + LineLength(s[1..]) else 0
  }

  /**
   * The untrimmed token and line of one record, and the unread input after it;
   * `rest` is `None` once the stream has hit the end of the file or failed,
   * which ends the `while (!ifs.eof() && ifs.good())` loops.
   */
  datatype RawRecord = RawRecord(token: string, line: string, rest: Option<string>)

  /** `is >> tag` followed by `getline(is, dir)` on a stream whose unread input is `s`. */
  function ReadRaw(s: string): (r: RawRecord)
    ensures NoSpace(r.token) && NoNewline(r.line)
    ensures r.rest.Some? ==> |r.rest.value| < |s|
    ensures |r.token| == 0 <==> forall k :: 0 <= k < |s| ==> IsSpace(s[k])
    ensures |r.token| == 0 ==> r.line == "" && r.rest.None?
    ensures |r.line| > 0 ==> LeadingSpaceCount(r.line) > 0
  {
    var t := s[LeadingSpaceCount(s)..];
    if |t| == 0 then
      // `>>` finds no token: failbit and eofbit, nothing extracted
      RawRecord("", "", None)
    else
      var m := TokenLength(t);
      if m == |t| then
        // the token ends the file: eofbit, so `getline` fails
        RawRecord(t, "", None)
      else
        var u := t[m..];
        var n := LineLength(u);
        if n == |u| then
          // the last line has no newline: `getline` stops with eofbit
          RawRecord(t[..m], u, None)
        else
          RawRecord(t[..m], u[..n], Some(u[n + 1..]))
  }

  /**
   * The record `>>` and `getline` read splits the input in order: the
   * whitespace `>>` skips, the token, the line, and, when the stream stays
   * good, the newline `getline` consumed and the unread rest.
   */
  lemma ReadRawSplits(s: string)
    ensures s == s[..LeadingSpaceCount(s)] + ReadRaw(s).token + ReadRaw(s).line + EndOfLine(ReadRaw(s).rest)
  {
    var t := s[LeadingSpaceCount(s)..];
    if |t| == 0 {
      SplitsAtEnd(s);
    } else if TokenLength(t) == |t| {
      SplitsAfterToken(s);
    } else if LineLength(t[TokenLength(t)..]) == |t[TokenLength(t)..]| {
      SplitsAfterLine(s);
    } else {
      SplitsAtNewline(s);
    }
  }

  /** `>>` finds only whitespace. */
  lemma SplitsAtEnd(s: string)
    requires |s[LeadingSpaceCount(s)..]| == 0
    ensures s == s[..LeadingSpaceCount(s)] + ReadRaw(s).token + ReadRaw(s).line + EndOfLine(ReadRaw(s).rest)
  {
    assert ReadRaw(s) == RawRecord("", "", None);
    SlicePieces(s, LeadingSpaceCount(s), 0, 0);
  }

  /** The token ends the file. */
  lemma SplitsAfterToken(s: string)
    requires |s[LeadingSpaceCount(s)..]| > 0
    requires TokenLength(s[LeadingSpaceCount(s)..]) == |s[LeadingSpaceCount(s)..]|
    ensures s == s[..LeadingSpaceCount(s)] + ReadRaw(s).token + ReadRaw(s).line + EndOfLine(ReadRaw(s).rest)
  {
    var t := s[LeadingSpaceCount(s)..];
    assert ReadRaw(s) == RawRecord(t, "", None);
    SlicePieces(s, LeadingSpaceCount(s), |t|, 0);
  }

  /** The last line has no newline. */
  lemma SplitsAfterLine(s: string)
    requires |s[LeadingSpaceCount(s)..]| > 0
    requires TokenLength(s[LeadingSpaceCount(s)..]) < |s[LeadingSpaceCount(s)..]|
    requires LineLength(s[LeadingSpaceCount(s)..][TokenLength(s[LeadingSpaceCount(s)..])..])
          == |s[LeadingSpaceCount(s)..][TokenLength(s[LeadingSpaceCount(s)..])..]|
    ensures s == s[..LeadingSpaceCount(s)] + ReadRaw(s).token + ReadRaw(s).line + EndOfLine(ReadRaw(s).rest)
  {
    var t := s[LeadingSpaceCount(s)..];
    var m := TokenLength(t);
    var u := t[m..];
    assert ReadRaw(s) == RawRecord(t[..m], u, None);
    SlicePieces(s, LeadingSpaceCount(s), m, |u|);
  }

  /** `getline` stops at a newline and the stream stays good. */
  lemma SplitsAtNewline(s: string)
    requires |s[LeadingSpaceCount(s)..]| > 0
    requires TokenLength(s[LeadingSpaceCount(s)..]) < |s[LeadingSpaceCount(s)..]|
    requires LineLength(s[LeadingSpaceCount(s)..][TokenLength(s[LeadingSpaceCount(s)..])..])
          < |s[LeadingSpaceCount(s)..][TokenLength(s[LeadingSpaceCount(s)..])..]|
    ensures s == s[..LeadingSpaceCount(s)] + ReadRaw(s).token + ReadRaw(s).line + EndOfLine(ReadRaw(s).rest)
  {
    var t := s[LeadingSpaceCount(s)..];
    var m := TokenLength(t);
    var u := t[m..];
    RawAtNewline(s);
    NewlinePieces(s, LeadingSpaceCount(s), m, LineLength(u), ReadRaw(s));
  }

  /** The record read when `getline` stops at a newline. */
  lemma RawAtNewline(s: string)
    requires |s[LeadingSpaceCount(s)..]| > 0
    requires TokenLength(s[LeadingSpaceCount(s)..]) < |s[LeadingSpaceCount(s)..]|
    requires LineLength(s[LeadingSpaceCount(s)..][TokenLength(s[LeadingSpaceCount(s)..])..])
          < |s[LeadingSpaceCount(s)..][TokenLength(s[LeadingSpaceCount(s)..])..]|
    ensures var t := s[LeadingSpaceCount(s)..];
            var u := t[TokenLength(t)..];
            ReadRaw(s) == RawRecord(t[..TokenLength(t)], u[..LineLength(u)], Some(u[LineLength(u) + 1..]))
  {
  }

  /** A string cut at three successive points, the last of them a newline. */
  lemma NewlinePieces(s: string, k: nat, m: nat, n: nat, r: RawRecord)
    requires k + m + n < |s|
    requires s[k..][m..][n] == '\n'
    requires r == RawRecord(s[k..][..m], s[k..][m..][..n], Some(s[k..][m..][n + 1..]))
    ensures s == s[..k] + r.token + r.line + EndOfLine(r.rest)
  {
    var u := s[k..][m..];
    assert u[n..] == "\n" + u[n + 1..];
    SlicePieces(s, k, m, n);
  }

  /** A string cut at three successive points is the concatenation of its four pieces. */
  lemma SlicePieces(s: string, k: nat, m: nat, n: nat)
    requires k + m + n <= |s|
    ensures s == s[..k] + s[k..][..m] + s[k..][m..][..n] + s[k..][m..][n..]
    ensures |s[k..][m..][n..]| == 0 ==> s == s[..k] + s[k..][..m] + s[k..][m..][..n]
  {
    var t := s[k..];
    var u := t[m..];
    assert u == u[..n] + u[n..];
    assert t == t[..m] + u;
    assert s == s[..k] + t;
  }

  /** A record that leaves the stream good ends with the newline just before the unread rest. */
  lemma ReadRawNewline(s: string)
    requires ReadRaw(s).rest.Some?
    ensures s == s[..|s| - |ReadRaw(s).rest.value| - 1] + "\n" + ReadRaw(s).rest.value
  {
    var r := ReadRaw(s);
    var before := s[..LeadingSpaceCount(s)] + r.token + r.line;
    ReadRawSplits(s);
    assert s == before + "\n" + r.rest.value;
    assert s[..|s| - |r.rest.value| - 1] == before;
  }

  /** One step of `operator>>`: the trimmed entry it pushes and the unread input after it. */
  datatype Step = Step(entry: Entry, rest: Option<string>)

  /**
   * `operator>>`: one record. The tag holds no whitespace, the directory has
   * none around it and no newline, and a record that continues the stream
   * consumes at least one character.
   */
  function ReadRecord(s: string): (r: Step)
    ensures NoSpace(r.entry.tag) && NoSurroundingSpace(r.entry.dir) && NoNewline(r.entry.dir)
    ensures Storable(r.entry)
    ensures r.rest.Some? ==> WellFormed(r.entry) && |r.rest.value| < |s|
  {
    var raw := ReadRaw(s);
    TrimmedRecord(raw.token, raw.line);
    Step(Entry(Trimmed(raw.token), Trimmed(raw.line)), raw.rest)
  }

  /** Trimming the token and line `>>` and `getline` extract gives a storable entry, well formed unless the token is empty. */
  lemma TrimmedRecord(token: string, line: string)
    requires NoSpace(token) && NoNewline(line)
    requires |token| == 0 ==> line == ""
    ensures Storable(Entry(Trimmed(token), Trimmed(line)))
    ensures |token| > 0 ==> WellFormed(Entry(Trimmed(token), Trimmed(line)))
  {
    TrimmedIsSlice(token);
    TrimmedIsSlice(line);
    TrimmedFixpoint(token);
  }

  /** The entries the read loop pushes, reading `s` from its start until the stream stops. */
  function Parse(s: string): (es: seq<Entry>)
    ensures |es| > 0
    decreases |s|
  {
    var r := ReadRecord(s);
    match r.rest
    case None => [r.entry]
    case Some(t) => [r.entry] + Parse(t)
  }

  /** Reading a file is reading its first record and then the input that follows it. */
  lemma ParseStep(s: string)
    ensures Parse(s) == [ReadRecord(s).entry] + Load(ReadRecord(s).rest)
  {
  }

  /** A file whose first record is `e` is read as `e` and then the input that follows it. */
  lemma ParseOfStep(s: string, e: Entry, rest: Option<string>)
    requires ReadRecord(s) == Step(e, rest)
    ensures Parse(s) == [e] + Load(rest)
  {
    ParseStep(s);
  }

  /** The read loop's invariant survives one more record. */
  lemma LoadStep(done: seq<Entry>, input: string, file: Option<string>)
    requires done + Load(Some(input)) == Load(file)
    ensures (done + [ReadRecord(input).entry]) + Load(ReadRecord(input).rest) == Load(file)
  {
    ParseStep(input);
  }

  /** The entries read from the tag file, or none when the file cannot be opened. */
  function Load(file: Option<string>): (es: seq<Entry>)
    ensures |es| == 0 <==> file.None?
  {
    match file
    case None => []
    case Some(s) => Parse(s)
  }

  /**
   * `is >> tag; getline(is, dir); trim(tag); trim(dir);`, the reading steps
   * `operator>>` and the loops of `create_previous_tag_entry` and `main` share.
   */
  method NextRecord(input: string) returns (tag: string, dir: string, rest: Option<string>)
    ensures Entry(tag, dir) == ReadRecord(input).entry
    ensures rest == ReadRecord(input).rest
  {
    var raw := ReadRaw(input);
    tag := Trim(raw.token);
    dir := Trim(raw.line);
    rest := raw.rest;
  }

  /** `operator>>` on `entries`: reads one record and pushes exactly one entry for it. */
  method ExtractEntry(input: string, entries: seq<Entry>) returns (pushed: seq<Entry>, rest: Option<string>)
    ensures pushed == entries + [ReadRecord(input).entry]
    ensures rest == ReadRecord(input).rest
  {
    var tag, dir;
    tag, dir, rest := NextRecord(input);
    pushed := entries + [Entry(tag, dir)];
  }

  /** The read loop of `process_previous`: `while (!ifs.eof() && ifs.good()) ifs >> entries;`. */
  method ReadTagFile(file: Option<string>) returns (entries: seq<Entry>)
    ensures entries == Load(file)
  {
    entries := [];
    var rest := file;
    while rest.Some?
      invariant entries + Load(rest) == Load(file)
      decreases if rest.Some? then |rest.value| + 1 else 0
    {
      var input := rest.value;
      LoadStep(entries, input, file);
      entries, rest := ExtractEntry(input, entries);
    }
  }

  /** `operator<<`: an entry as it appears on its line of the tag file. */
  function Render(e: Entry): (line: string)
    ensures |line| == |e.tag| + 1 + |e.dir|
    ensures line[..|e.tag|] == e.tag && line[|e.tag|] == ' ' && line[|e.tag| + 1..] == e.dir
  {
    e.tag + " " + e.dir
  }

  /** The tag file text: the rendered entries joined by `"\n"`, with no newline after the last. */
  function Serialize(es: seq<Entry>): (text: string)
    ensures text == "" <==> es == []
  {
    if |es| == 0 then ""
    else if |es| == 1 then Render(es[0])
    else Render(es[0]) + "\n" + Serialize(es[1..])
  }

  /** `save_tag_file`: writes every entry, and a newline after each one but the last. */
  method SaveTagFile(entries: seq<Entry>) returns (text: string)
    ensures text == Serialize(entries)
  {
    text := "";
    var index := 0;
    while index < |entries|
      invariant 0 <= index <= |entries|
      invariant text + Serialize(entries[index..]) == Serialize(entries)
    {
      assert entries[index..][1..] == entries[index + 1..];
      text := text + Render(entries[index]);
      if index < |entries| - 1 {
        text := text + "\n";
      }
      index := index + 1;
    }
  }

  /** The number of newline characters in `s`. */
  function CountNewlines(s: string): nat {
    if |s| == 0 then 0 else (if s[0] == '\n' then 1 else 0) + CountNewlines(s[1..])
  }

  lemma {:induction false} CountNewlinesAppend(a: string, b: string)
    ensures CountNewlines(a + b) == CountNewlines(a) + CountNewlines(b)
  {
    if |a| > 0 {
      assert (a + b)[1..] == a[1..] + b;
      CountNewlinesAppend(a[1..], b);
    } else {
      assert a + b == b;
    }
  }

  lemma {:induction false} CountNewlinesNone(s: string)
    requires NoNewline(s)
    ensures CountNewlines(s) == 0
  {
    if |s| > 0 {
      CountNewlinesNone(s[1..]);
    }
  }

  /**
   * When no entry holds a newline, the tag file of `n > 0` entries holds exactly
   * `n - 1` newlines: one between each pair of lines and none at the end.
   */
  lemma {:induction false} SerializeNewlines(es: seq<Entry>)
    requires |es| > 0
    requires forall i :: 0 <= i < |es| ==> NoNewline(es[i].tag) && NoNewline(es[i].dir)
    ensures CountNewlines(Serialize(es)) == |es| - 1
  {
    var line := Render(es[0]);
    assert NoNewline(line) by {
      forall k | 0 <= k < |line| ensures line[k] != '\n' {
        if k < |es[0].tag| {
          assert line[k] == es[0].tag[k];
        } else if k > |es[0].tag| {
          assert line[k] == es[0].dir[k - |es[0].tag| - 1];
        }
      }
    }
    CountNewlinesNone(line);
    if |es| > 1 {
      SerializeNewlines(es[1..]);
      assert Serialize(es) == line + ("\n" + Serialize(es[1..]));
      CountNewlinesAppend(line, "\n" + Serialize(es[1..]));
      CountNewlinesAppend("\n", Serialize(es[1..]));
    }
  }

  /**
   * Every entry read from a file is well formed or blank, and only the last
   * one can be blank: a record that leaves the stream good has a tag.
   */
  lemma {:induction false} ParseShape(s: string)
    ensures forall i :: 0 <= i < |Parse(s)| ==> Storable(Parse(s)[i])
    ensures forall i :: 0 <= i < |Parse(s)| - 1 ==> WellFormed(Parse(s)[i])
    decreases |s|
  {
    var r := ReadRecord(s);
    var es := Parse(s);
    ParseOfStep(s, r.entry, r.rest);
    if r.rest.Some? {
      var more := Parse(r.rest.value);
      ParseShape(r.rest.value);
      forall i | 0 <= i < |es|
        ensures Storable(es[i]) && (i < |es| - 1 ==> WellFormed(es[i]))
      {
        if i > 0 {
          assert es[i] == more[i - 1];
        }
      }
    }
  }

  /** `>>` starts by skipping whitespace, so a leading whitespace character extracts nothing. */
  lemma RawSkipsSpace(c: char, s: string)
    requires IsSpace(c)
    ensures ReadRaw([c] + s) == ReadRaw(s)
  {
    SkippedSpace(c, s);
    SameRemainder([c] + s, s);
  }

  /** The record depends only on what is left after the leading whitespace. */
  lemma SameRemainder(s: string, s': string)
    requires s[LeadingSpaceCount(s)..] == s'[LeadingSpaceCount(s')..]
    ensures ReadRaw(s) == ReadRaw(s')
  {
  }

  /** What is left after the leading whitespace does not depend on one more whitespace character. */
  lemma SkippedSpace(c: char, s: string)
    requires IsSpace(c)
    ensures ([c] + s)[LeadingSpaceCount([c] + s)..] == s[LeadingSpaceCount(s)..]
  {
    var t := [c] + s;
    assert t[1..] == s;
    assert LeadingSpaceCount(t) == 1 + LeadingSpaceCount(s);
  }

  /** Leading whitespace is skipped by `>>` and so does not change the record read. */
  lemma ReadSkipsSpace(c: char, s: string)
    requires IsSpace(c)
    ensures ReadRecord([c] + s) == ReadRecord(s)
    ensures Parse([c] + s) == Parse(s)
  {
    RawSkipsSpace(c, s);
    assert ReadRecord([c] + s) == ReadRecord(s);
    ParseStep([c] + s);
    ParseStep(s);
  }

  lemma TokenLengthIs(s: string, n: nat)
    requires n <= |s| && (forall k :: 0 <= k < n ==> !IsSpace(s[k])) && (n < |s| ==> IsSpace(s[n]))
    ensures TokenLength(s) == n
  {
  }

  lemma LineLengthIs(s: string, n: nat)
    requires n <= |s| && (forall k :: 0 <= k < n ==> s[k] != '\n') && (n < |s| ==> s[n] == '\n')
    ensures LineLength(s) == n
  {
  }

  /** `>>` reads exactly the tag from a rendered entry, whatever follows it. */
  lemma RenderedToken(e: Entry, tail: string)
    requires WellFormed(e)
    ensures LeadingSpaceCount(Render(e) + tail) == 0
    ensures TokenLength(Render(e) + tail) == |e.tag|
  {
    var s := Render(e) + tail;
    assert s[0] == e.tag[0];
    assert forall k :: 0 <= k < |e.tag| ==> s[k] == e.tag[k];
    assert s[|e.tag|] == ' ';
    TokenLengthIs(s, |e.tag|);
  }

  /** A rendered line and what follows it, cut after the tag. */
  lemma RenderedSplit(e: Entry, tail: string)
    ensures (Render(e) + tail)[..|e.tag|] == e.tag
    ensures (Render(e) + tail)[|e.tag|..] == " " + e.dir + tail
  {
    var s := Render(e) + tail;
    assert s == e.tag + (" " + e.dir + tail);
  }

  /** `getline` after the tag reads the separating space and the directory, up to the end of the line. */
  lemma RenderedLine(dir: string, rest: Option<string>)
    requires NoNewline(dir)
    ensures rest.None? ==> LineLength(" " + dir + EndOfLine(rest)) == |" " + dir|
    ensures rest.Some? ==> LineLength(" " + dir + EndOfLine(rest)) == |" " + dir|
    ensures rest.Some? ==> (" " + dir + EndOfLine(rest))[..|" " + dir|] == " " + dir
    ensures rest.Some? ==> (" " + dir + EndOfLine(rest))[|" " + dir| + 1..] == rest.value
  {
    var line := " " + dir;
    var u := line + EndOfLine(rest);
    assert forall k :: 0 <= k < |line| ==> u[k] == line[k];
    assert forall k :: 0 <= k < |line| ==> line[k] != '\n' by {
      forall k | 0 <= k < |line|
        ensures line[k] != '\n'
      {
        if k > 0 {
          assert line[k] == dir[k - 1];
        }
      }
    }
    match rest
    case None =>
      assert u == line;
      LineLengthIs(u, |u|);
    case Some(r) =>
      assert u == line + "\n" + r;
      LineLengthIs(u, |line|);
      assert u[..|line|] == line;
      assert u[|line| + 1..] == r;
  }

  /** The token and the line `>>` and `getline` extract from a rendered well-formed entry. */
  lemma RawRendered(e: Entry, rest: Option<string>)
    requires WellFormed(e)
    ensures ReadRaw(Render(e) + EndOfLine(rest)) == RawRecord(e.tag, " " + e.dir, rest)
  {
    var s := Render(e) + EndOfLine(rest);
    RenderedToken(e, EndOfLine(rest));
    RenderedSplit(e, EndOfLine(rest));
    assert s[0..] == s;
    RenderedLine(e.dir, rest);
  }

  /** The first line of a file is read back as the well-formed entry it renders. */
  lemma ReadRendered(e: Entry, rest: Option<string>)
    requires WellFormed(e)
    ensures ReadRecord(Render(e) + EndOfLine(rest)) == Step(e, rest)
  {
    RawRendered(e, rest);
    TrimmedFixpoint(e.tag);
    assert " " + e.dir == [' '] + e.dir;
    TrimSpacePrefix(' ', e.dir);
  }

  /** What follows a line: a newline and more input, or the end of the file. */
  function EndOfLine(rest: Option<string>): string {
    match rest
    case None => ""
    case Some(r) => "\n" + r
  }

  /**
   * What reading a written store back yields: blank entries vanish, since `>>`
   * skips the whitespace they leave, except a blank last entry, which is read
   * as the blank entry again.
   */
  function Reloaded(es: seq<Entry>): (r: seq<Entry>)
    requires |es| > 0
    ensures |r| > 0
    ensures (forall i :: 0 <= i < |es| ==> WellFormed(es[i])) ==> r == es
  {
    if |es| == 1 then es
    else if es[0] == Blank then Reloaded(es[1..])
    else [es[0]] + Reloaded(es[1..])
  }

  lemma ParseRendered(e: Entry, more: string)
    requires WellFormed(e)
    ensures Parse(Render(e) + "\n" + more) == [e] + Parse(more)
  {
    NewlineJoin(Render(e), more);
    ReadRendered(e, Some(more));
    ParseOfStep(Render(e) + EndOfLine(Some(more)), e, Some(more));
  }

  lemma ParseRenderedLast(e: Entry)
    requires WellFormed(e)
    ensures Parse(Render(e)) == [e]
  {
    assert Render(e) + EndOfLine(None) == Render(e);
    ReadRendered(e, None);
    ParseStep(Render(e));
  }

  /** The line a blank entry is written as is skipped when more input follows it. */
  lemma ParseBlankLine(more: string)
    ensures Parse(Render(Blank) + "\n" + more) == Parse(more)
  {
    assert Render(Blank) + "\n" + more == [' '] + (['\n'] + more);
    ReadSkipsSpace(' ', ['\n'] + more);
    ReadSkipsSpace('\n', more);
  }

  /** A blank entry written last is read back as the blank entry. */
  lemma ParseBlankLast()
    ensures Parse(Render(Blank)) == [Blank]
  {
    assert Render(Blank) == [' '] + "";
    ReadSkipsSpace(' ', "");
    ParseStep("");
  }

  /** Writing a store of storable entries with `save_tag_file` and reading it back yields `Reloaded`. */
  lemma {:induction false} ReloadSerialize(es: seq<Entry>)
    requires |es| > 0
    requires forall i :: 0 <= i < |es| ==> Storable(es[i])
    ensures Parse(Serialize(es)) == Reloaded(es)
  {
    var e := es[0];
    if |es| == 1 {
      if e == Blank {
        ParseBlankLast();
      } else {
        ParseRenderedLast(e);
      }
    } else {
      ReloadSerialize(es[1..]);
      if e == Blank {
        ParseBlankLine(Serialize(es[1..]));
      } else {
        ParseRendered(e, Serialize(es[1..]));
      }
    }
  }

  /** A store of well-formed entries survives being written and read back. */
  lemma RoundTrip(es: seq<Entry>)
    requires |es| > 0
    requires forall i :: 0 <= i < |es| ==> WellFormed(es[i])
    ensures Parse(Serialize(es)) == es
  {
    ReloadSerialize(es);
  }

  /**
   * A newline after the last line of a well-formed store makes the read loop
   * push one more, blank, entry.
   */
  lemma {:induction false} TrailingNewline(es: seq<Entry>)
    requires |es| > 0
    requires forall i :: 0 <= i < |es| ==> WellFormed(es[i])
    ensures Parse(Serialize(es) + "\n") == es + [Blank]
  {
    var e := es[0];
    if |es| == 1 {
      LastLineNewline(e);
      assert es == [e];
    } else {
      var tail := Serialize(es[1..]) + "\n";
      TrailingNewline(es[1..]);
      SerializeNewline(es);
      ParseRendered(e, tail);
      ConsAppend(es, Blank);
    }
  }

  /** Writing one more entry adds a newline and its line to what was written. */
  lemma {:induction false} SerializeSnoc(es: seq<Entry>, e: Entry)
    requires |es| > 0
    ensures Serialize(es + [e]) == Serialize(es) + "\n" + Render(e)
  {
    var longer := es + [e];
    assert longer[0] == es[0];
    if |es| == 1 {
      assert longer[1..] == [e];
    } else {
      assert longer[1..] == es[1..] + [e];
      SerializeSnoc(es[1..], e);
      var first, others := Render(es[0]), Serialize(es[1..]);
      assert Serialize(longer) == first + "\n" + (others + "\n" + Render(e));
      assert Serialize(es) == first + "\n" + others;
    }
  }

  /** A blank entry after well-formed ones is kept by `Reloaded`: it is the last. */
  lemma {:induction false} ReloadedBlankLast(es: seq<Entry>)
    requires forall i :: 0 <= i < |es| ==> WellFormed(es[i])
    ensures Reloaded(es + [Blank]) == es + [Blank]
  {
    if |es| > 0 {
      var longer := es + [Blank];
      assert longer[0] == es[0] && es[0] != Blank;
      assert longer[1..] == es[1..] + [Blank];
      ReloadedBlankLast(es[1..]);
      ConsAppend(es, Blank);
    }
  }

  /** The blank entry a trailing newline leaves behind is written back as a line holding one space. */
  lemma BlankWrittenBack(es: seq<Entry>)
    requires |es| > 0
    requires forall i :: 0 <= i < |es| ==> WellFormed(es[i])
    ensures Serialize(Parse(Serialize(es) + "\n")) == Serialize(es) + "\n" + " "
  {
    var text := Serialize(es);
    TrailingNewline(es);
    assert Parse(text + "\n") == es + [Blank];
    SerializeSnoc(es, Blank);
    BlankLine();
  }

  /** A blank entry is written as a single space. */
  lemma BlankLine()
    ensures Render(Blank) == " "
  {
  }

  /** A file whose last line holds only a space is read back with the blank entry again. */
  lemma BlankReadAgain(es: seq<Entry>)
    requires forall i :: 0 <= i < |es| ==> WellFormed(es[i])
    ensures Parse(Serialize(es + [Blank])) == es + [Blank]
  {
    StorableWithBlank(es);
    ReloadSerialize(es + [Blank]);
    ReloadedBlankLast(es);
  }

  /** Well-formed entries followed by a blank one are all storable. */
  lemma StorableWithBlank(es: seq<Entry>)
    requires forall i :: 0 <= i < |es| ==> WellFormed(es[i])
    ensures forall i :: 0 <= i < |es + [Blank]| ==> Storable((es + [Blank])[i])
  {
    var longer := es + [Blank];
    forall i | 0 <= i < |longer|
      ensures Storable(longer[i])
    {
      if i < |es| {
        assert longer[i] == es[i];
      }
    }
  }

  /** A store of several entries followed by a newline is its first line, a newline, and the rest followed by one. */
  lemma SerializeNewline(es: seq<Entry>)
    requires |es| > 1
    ensures Serialize(es) + "\n" == Render(es[0]) + "\n" + (Serialize(es[1..]) + "\n")
  {
    var first, others := Render(es[0]), Serialize(es[1..]);
    assert Serialize(es) == first + "\n" + others;
    NewlineAssociates(first, others);
  }

  lemma ConsAppend(es: seq<Entry>, x: Entry)
    requires |es| > 0
    ensures [es[0]] + (es[1..] + [x]) == es + [x]
  {
    assert [es[0]] + es[1..] == es;
  }

  lemma NewlineJoin(line: string, more: string)
    ensures line + "\n" + more == line + EndOfLine(Some(more))
  {
  }

  lemma NewlineAssociates(a: string, b: string)
    ensures a + "\n" + b + "\n" == a + "\n" + (b + "\n")
  {
  }

  /** A well-formed line followed by a newline is read as its entry and a blank one. */
  lemma LastLineNewline(e: Entry)
    requires WellFormed(e)
    ensures Parse(Render(e) + "\n") == [e, Blank]
  {
    assert Render(e) + "\n" == Render(e) + "\n" + "";
    ParseRendered(e, "");
    EmptyFile();
  }

  /** An existing but empty tag file is read as a single blank entry. */
  lemma EmptyFile()
    ensures Load(Some("")) == [Blank]
  {
    ParseStep("");
  }

  /**
   * `find_if` over the entries for a tag: the index of the first entry with
   * that tag, or `None` where the search returns `end()`.
   */
  function FindTag(es: seq<Entry>, tag: string): (r: Option<nat>)
    ensures r.Some? ==> r.value < |es| && es[r.value].tag == tag
    ensures r.Some? ==> forall i :: 0 <= i < r.value ==> es[i].tag != tag
    ensures r.None? <==> forall i :: 0 <= i < |es| ==> es[i].tag != tag
  {
    if |es| == 0 then None
    else if es[0].tag == tag then Some(0)
    else match FindTag(es[1..], tag)
      case None => None
      case Some(k) => Some(k + 1)
  }

  /** An entry with the tag after entries without it is what the search finds. */
  lemma {:induction false} FindTagIs(es: seq<Entry>, tag: string, k: nat)
    requires k < |es| && es[k].tag == tag
    requires forall i :: 0 <= i < k ==> es[i].tag != tag
    ensures FindTag(es, tag) == Some(k)
  {
    if k > 0 {
      assert es[0].tag != tag;
      assert forall i :: 0 <= i < k - 1 ==> es[1..][i] == es[i + 1];
      FindTagIs(es[1..], tag, k - 1);
    }
  }

  /** The directory of the first entry with `tag`, if there is one. */
  function TagDir(es: seq<Entry>, tag: string): Option<string> {
    match FindTag(es, tag)
    case None => None
    case Some(k) => Some(es[k].dir)
  }

  /** Looking a tag up in a non-empty store looks at its first entry, then at the others. */
  lemma TagDirFirst(es: seq<Entry>, tag: string)
    requires |es| > 0
    ensures TagDir(es, tag) == if es[0].tag == tag then Some(es[0].dir) else TagDir(es[1..], tag)
  {
    if es[0].tag != tag {
      match FindTag(es[1..], tag)
      case None =>
      case Some(k) => assert es[1..][k] == es[k + 1];
    }
  }

  /** Reading a written store back finds the same directory for every non-empty tag. */
  lemma {:induction false} TagDirReloaded(es: seq<Entry>, tag: string)
    requires |es| > 0 && |tag| > 0
    ensures TagDir(Reloaded(es), tag) == TagDir(es, tag)
  {
    if |es| > 1 {
      TagDirReloaded(es[1..], tag);
      TagDirFirst(es, tag);
      if es[0] != Blank {
        var r := [es[0]] + Reloaded(es[1..]);
        assert r[1..] == Reloaded(es[1..]);
        TagDirFirst(r, tag);
      }
    }
  }
}
