/**
 * The text written to the command file `ds_command.cmd`, which the shell wrapper
 * runs after the helper exits: a change of directory, the message that the
 * previous directory was recorded, or one of two error messages.
 */
module Commands {
  import opened Optional

  datatype Command =
    | ChangeDirectory(path: string)        // `cd <path>`
    | PreviousRecorded(path: string)       // the first no-argument call, with no previous directory yet
    | WrongArgumentCount(received: nat)    // more than one tag on the command line
    | EmptyTagFile(home: string)           // the tag file has no entries

  function DigitChar(d: nat): char
    requires d < 10
  {
    ('0' as int + d) as char
  }

  function DigitValue(c: char): Option<nat> {
    if '0' <= c <= '9' then Some(c as int - '0' as int) else None
  }

  /** How `ostream << int` writes a non-negative number: decimal, no leading zeros. */
  function Decimal(n: nat): (s: string)
    ensures |s| > 0 && (|s| == 1 <==> n < 10)
    ensures forall k :: 0 <= k < |s| ==> '0' <= s[k] <= '9'
    ensures |s| > 1 ==> s[0] != '0'
  {
    if n < 10 then [DigitChar(n)] else Decimal(n / 10) + [DigitChar(n % 10)]
  }

  /** The number a non-empty string of decimal digits stands for. */
  function ParseDecimal(s: string): Option<nat> {
    if |s| == 0 then None
    else
      match DigitValue(s[|s| - 1])
      case None => None
      case Some(d) =>
        if |s| == 1 then Some(d)
        else
          match ParseDecimal(s[..|s| - 1])
          case None => None
          case Some(v) => Some(10 * v + d)
  }

  /** The count `main` writes in the argument-count message reads back as that count. */
  lemma {:induction false} DecimalRoundTrip(n: nat)
    ensures ParseDecimal(Decimal(n)) == Some(n)
  {
    var s := Decimal(n);
    if n < 10 {
      assert s == [DigitChar(n)];
    } else {
      var q, r := n / 10, n % 10;
      DecimalRoundTrip(q);
      assert s == Decimal(q) + [DigitChar(r)];
      assert s[..|s| - 1] == Decimal(q);
      assert DigitValue(s[|s| - 1]) == Some(r);
      assert 10 * q + r == n;
    }
  }

  const CdPrefix := "cd "
  const Echo := "echo"
  const RecordedPrefix := Echo + " \"Set previous directory to ^\""
  const RecordedSuffix := "^\"."
  const ArgumentCountPrefix := "@echo off\n" + Echo + "|set /p=\"Expected 1 argument. "
  const ArgumentCountSuffix := " received.\"\n"
  const EmptyTagFilePrefix := Echo + "|" + "set /p=\"The tag file is empty. Please edit ^\""
  const EmptyTagFileSuffix := "\\tags^\""

  /** The middle of `text` between `prefix` and `suffix`, if it has both. */
  function Between(text: string, prefix: string, suffix: string): (r: Option<string>)
    ensures r.Some? ==> text == prefix + r.value + suffix
  {
    if |prefix| + |suffix| <= |text| && text[..|prefix|] == prefix && text[|text| - |suffix|..] == suffix
    then
      var middle := text[|prefix|..|text| - |suffix|];
      assert text == text[..|prefix|] + middle + text[|text| - |suffix|..];
      Some(middle)
    else None
  }

  lemma BetweenOf(prefix: string, middle: string, suffix: string)
    ensures Between(prefix + middle + suffix, prefix, suffix) == Some(middle)
  {
    var text := prefix + middle + suffix;
    assert text[..|prefix|] == prefix;
    assert text[|text| - |suffix|..] == suffix;
    assert text[|prefix|..|text| - |suffix|] == middle;
  }

  /** How a reader of the command file tells the four commands apart. */
  function DecodeCommand(text: string): Option<Command> {
    if Between(text, CdPrefix, "").Some? then
      Some(ChangeDirectory(Between(text, CdPrefix, "").value))
    else if Between(text, RecordedPrefix, RecordedSuffix).Some? then
      Some(PreviousRecorded(Between(text, RecordedPrefix, RecordedSuffix).value))
    else if Between(text, ArgumentCountPrefix, ArgumentCountSuffix).Some? then
      match ParseDecimal(Between(text, ArgumentCountPrefix, ArgumentCountSuffix).value)
      case None => None
      case Some(n) => Some(WrongArgumentCount(n))
    else if Between(text, EmptyTagFilePrefix, EmptyTagFileSuffix).Some? then
      Some(EmptyTagFile(Between(text, EmptyTagFilePrefix, EmptyTagFileSuffix).value))
    else None
  }

  /** A text that differs from `prefix` at position `k` does not start with it. */
  lemma NotBetween(text: string, prefix: string, suffix: string, k: nat)
    requires k < |prefix| && k < |text| && text[k] != prefix[k]
    ensures Between(text, prefix, suffix).None?
  {
    if |prefix| <= |text| {
      assert text[..|prefix|][k] == text[k];
    }
  }

  /**
   * The exact contents the command file is given for each command. Each text
   * is read back as its own command and no other.
   */
  function CommandText(c: Command): (text: string)
    ensures DecodeCommand(text) == Some(c)
  {
    assert CdPrefix[0] == 'c' && RecordedPrefix[0] == 'e' && RecordedPrefix[4] == ' ';
    assert ArgumentCountPrefix[0] == '@' && EmptyTagFilePrefix[0] == 'e' && EmptyTagFilePrefix[4] == '|';
    match c
    case ChangeDirectory(path) =>
      var text := CdPrefix + path;
      assert text == CdPrefix + path + "";
      BetweenOf(CdPrefix, path, "");
      text
    case PreviousRecorded(path) =>
      var text := RecordedPrefix + path + RecordedSuffix;
      assert text[0] == RecordedPrefix[0];
      NotBetween(text, CdPrefix, "", 0);
      BetweenOf(RecordedPrefix, path, RecordedSuffix);
      text
    case WrongArgumentCount(n) =>
      var text := ArgumentCountPrefix + Decimal(n) + ArgumentCountSuffix;
      assert text[0] == ArgumentCountPrefix[0];
      NotBetween(text, CdPrefix, "", 0);
      NotBetween(text, RecordedPrefix, RecordedSuffix, 0);
      BetweenOf(ArgumentCountPrefix, Decimal(n), ArgumentCountSuffix);
      DecimalRoundTrip(n);
      text
    case EmptyTagFile(home) =>
      var text := EmptyTagFilePrefix + home + EmptyTagFileSuffix;
      assert text[0] == EmptyTagFilePrefix[0] && text[4] == EmptyTagFilePrefix[4];
      NotBetween(text, CdPrefix, "", 0);
      NotBetween(text, RecordedPrefix, RecordedSuffix, 4);
      NotBetween(text, ArgumentCountPrefix, ArgumentCountSuffix, 0);
      BetweenOf(EmptyTagFilePrefix, home, EmptyTagFileSuffix);
      text
  }
}
