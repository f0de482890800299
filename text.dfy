/**
 * Whitespace and the three trimming helpers `ltrim`, `rtrim` and `trim` of main.cpp.
 * The C++ helpers erase a prefix or a suffix of a `std::string` in place; the
 * methods here take the string and return what is left of it.
 */
module Text {

  /** The characters for which C's `isspace` holds in the "C" locale. */
  predicate IsSpace(c: char) {
    c == ' ' || c == '\t' || c == '\n' || c == '\U{B}' || c == '\U{C}' || c == '\r'
  }

  /** No character of `s` is whitespace. */
  predicate NoSpace(s: string) {
    forall k :: 0 <= k < |s| ==> !IsSpace(s[k])
  }

  /** `s` neither starts nor ends with whitespace. */
  predicate NoSurroundingSpace(s: string) {
    |s| == 0 || (!IsSpace(s[0]) && !IsSpace(s[|s| - 1]))
  }

  /** The length of the longest whitespace prefix of `s`. */
  function LeadingSpaceCount(s: string): (n: nat)
    ensures n <= |s|
    ensures forall k :: 0 <= k < n ==> IsSpace(s[k])
    ensures n < |s| ==> !IsSpace(s[n])
  {
    if |s| > 0 && IsSpace(s[0]) then 1 + LeadingSpaceCount(s[1..]) else 0
  }

  /** The length of the longest whitespace suffix of `s`. */
  function TrailingSpaceCount(s: string): (n: nat)
    ensures n <= |s|
    ensures forall k :: |s| - n <= k < |s| ==> IsSpace(s[k])
    ensures n < |s| ==> !IsSpace(s[|s| - 1 - n])
  {
    if |s| > 0 && IsSpace(s[|s| - 1]) then 1 + TrailingSpaceCount(s[..|s| - 1]) else 0
  }

  /** What `ltrim` leaves of `s`. */
  function TrimLeft(s: string): string {
    s[LeadingSpaceCount(s)..]
  }

  /** What `rtrim` leaves of `s`. */
  function TrimRight(s: string): string {
    s[..|s| - TrailingSpaceCount(s)]
  }

  /** What `trim` leaves of `s`: `rtrim` first, then `ltrim`. */
  function Trimmed(s: string): string {
    TrimLeft(TrimRight(s))
  }

  /** `ltrim`: erase everything before the first non-whitespace character. */
  method LTrim(s: string) returns (r: string)
    ensures r == TrimLeft(s)
  {
    var i := 0;
    while i < |s| && IsSpace(s[i])
      invariant 0 <= i <= |s|
      invariant forall k :: 0 <= k < i ==> IsSpace(s[k])
    {
      i := i + 1;
    }
    r := s[i..];
  }

  /** `rtrim`: erase everything after the last non-whitespace character. */
  method RTrim(s: string) returns (r: string)
    ensures r == TrimRight(s)
  {
    var j := |s|;
    while j > 0 && IsSpace(s[j - 1])
      invariant 0 <= j <= |s|
      invariant forall k :: j <= k < |s| ==> IsSpace(s[k])
    {
      j := j - 1;
    }
    r := s[..j];
  }

  /** `trim`: `rtrim` followed by `ltrim`. */
  method Trim(s: string) returns (r: string)
    ensures r == Trimmed(s)
  {
    r := RTrim(s);
    r := LTrim(r);
  }

  /**
   * Trimming keeps one contiguous slice `s[i..j]` of its input, removes only
   * whitespace on either side of it, and leaves no whitespace at either end.
   */
  lemma TrimmedIsSlice(s: string)
    ensures exists i, j :: 0 <= i <= j <= |s| && Trimmed(s) == s[i..j]
                           && (forall k :: 0 <= k < i ==> IsSpace(s[k]))
                           && (forall k :: j <= k < |s| ==> IsSpace(s[k]))
    ensures NoSurroundingSpace(Trimmed(s))
  {
    var j := |s| - TrailingSpaceCount(s);
    var right := s[..j];
    var i := LeadingSpaceCount(right);
    assert Trimmed(s) == s[i..j];
    assert forall k :: 0 <= k < i ==> IsSpace(s[k]) by {
      forall k | 0 <= k < i ensures IsSpace(s[k]) {
        assert s[k] == right[k];
      }
    }
    var t := Trimmed(s);
    if |t| > 0 {
      assert t[0] == right[i];
      assert t[|t| - 1] == s[j - 1];
    }
  }

  /** A string is left alone by trimming exactly when it has no surrounding whitespace. */
  lemma TrimmedFixpoint(s: string)
    ensures Trimmed(s) == s <==> NoSurroundingSpace(s)
  {
    TrimmedIsSlice(s);
    if NoSurroundingSpace(s) {
      assert TrailingSpaceCount(s) == 0;
      assert TrimRight(s) == s;
      assert LeadingSpaceCount(s) == 0;
    }
  }

  /** Trimming twice is trimming once. */
  lemma TrimIdempotent(s: string)
    ensures Trimmed(Trimmed(s)) == Trimmed(s)
  {
    TrimmedIsSlice(s);
    TrimmedFixpoint(Trimmed(s));
  }

  /** Trimming a whitespace character followed by an already trimmed string gives that string. */
  lemma TrimSpacePrefix(c: char, s: string)
    requires IsSpace(c) && NoSurroundingSpace(s)
    ensures Trimmed([c] + s) == s
  {
    var t := [c] + s;
    if |s| == 0 {
      assert TrailingSpaceCount(t) == 1;
    } else {
      assert t[|t| - 1] == s[|s| - 1];
      assert TrailingSpaceCount(t) == 0;
      assert TrimRight(t) == t;
      assert t[1..] == s;
      assert LeadingSpaceCount(t) == 1 + LeadingSpaceCount(s);
      assert LeadingSpaceCount(s) == 0;
    }
  }
}
