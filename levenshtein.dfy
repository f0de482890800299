/**
 * The edit distance `levenshtein_distance` computes with its dynamic-programming
 * matrix, against the classic recursive definition.
 */
module Levenshtein {

  /** `min(min(a, b), c)`. */
  function Min3(a: nat, b: nat, c: nat): (m: nat)
    ensures m <= a && m <= b && m <= c
    ensures m == a || m == b || m == c
  {
    var ab := if a <= b then a else b;
    if ab <= c then ab else c
  }

  /**
   * The classic edit distance, with unit-cost insertion, deletion and
   * substitution, between the prefixes `s[..i]` and `t[..j]`: `D(i, 0) = i`,
   * `D(0, j) = j`, and otherwise the best of deleting `s[i - 1]`, inserting
   * `t[j - 1]`, or matching the two at no cost when they are equal and at
   * cost one when they are not.
   */
  function PrefixDistance(s: string, t: string, i: nat, j: nat): nat
    requires i <= |s| && j <= |t|
    decreases i + j
  {
    if i == 0 then j
    else if j == 0 then i
    else Min3(PrefixDistance(s, t, i - 1, j) + 1,
              PrefixDistance(s, t, i, j - 1) + 1,
              PrefixDistance(s, t, i - 1, j - 1) + (if s[i - 1] == t[j - 1] then 0 else 1))
  }

  /** The edit distance between `s` and `t`. */
  function Distance(s: string, t: string): nat {
    PrefixDistance(s, t, |s|, |t|)
  }

  /** A cell of the matrix from its three neighbours above, to the left and diagonally. */
  lemma CellStep(s: string, t: string, i: nat, j: nat, above: nat, left: nat, diagonal: nat)
    requires 0 < i <= |s| && 0 < j <= |t|
    requires above == PrefixDistance(s, t, i - 1, j)
    requires left == PrefixDistance(s, t, i, j - 1)
    requires diagonal == PrefixDistance(s, t, i - 1, j - 1)
    ensures PrefixDistance(s, t, i, j) == Min3(above + 1, left + 1, diagonal + if s[i - 1] == t[j - 1] then 0 else 1)
  {
  }

  /**
   * `levenshtein_distance`: fills the `(|str1| + 1) x (|str2| + 1)` matrix column
   * by column and returns its bottom-right cell.
   */
  method LevenshteinDistance(str1: string, str2: string) returns (d: nat)
    ensures d == Distance(str1, str2)
  {
    var matrix := new nat[|str1| + 1, |str2| + 1]((i, j) => 0);

    for row := 1 to |str1| + 1
      invariant forall i :: 0 <= i < row ==> matrix[i, 0] == i
    {
      matrix[row, 0] := row;
    }

    for column := 1 to |str2| + 1
      invariant forall i :: 0 <= i <= |str1| ==> matrix[i, 0] == i
      invariant forall j :: 0 <= j < column ==> matrix[0, j] == j
    {
      matrix[0, column] := column;
    }

    for column := 1 to |str2| + 1
      invariant forall i, j {:trigger matrix[i, j]} :: 0 <= i <= |str1| && 0 <= j < column ==>
        matrix[i, j] == PrefixDistance(str1, str2, i, j)
      invariant forall j :: 0 <= j <= |str2| ==> matrix[0, j] == j
    {
      for row := 1 to |str1| + 1
        invariant forall i, j {:trigger matrix[i, j]} :: 0 <= i <= |str1| && 0 <= j < column ==>
          matrix[i, j] == PrefixDistance(str1, str2, i, j)
        invariant forall i {:trigger matrix[i, column]} :: 0 <= i < row ==>
          matrix[i, column] == PrefixDistance(str1, str2, i, column)
        invariant forall j :: 0 <= j <= |str2| ==> matrix[0, j] == j
      {
        var substitutionCost := if str1[row - 1] == str2[column - 1] then 0 else 1;
        var above, left, diagonal := matrix[row - 1, column], matrix[row, column - 1], matrix[row - 1, column - 1];
        CellStep(str1, str2, row, column, above, left, diagonal);
        matrix[row, column] := Min3(above + 1, left + 1, diagonal + substitutionCost);
      }
    }
    d := matrix[|str1|, |str2|];
  }

  /** The distance between two prefixes is zero exactly when the prefixes are equal. */
  lemma {:induction false} PrefixDistanceZero(s: string, t: string, i: nat, j: nat)
    requires i <= |s| && j <= |t|
    ensures PrefixDistance(s, t, i, j) == 0 <==> s[..i] == t[..j]
    decreases i + j
  {
    if i > 0 && j > 0 {
      var del, ins, sub := PrefixDistance(s, t, i - 1, j), PrefixDistance(s, t, i, j - 1), PrefixDistance(s, t, i - 1, j - 1);
      var cost := if s[i - 1] == t[j - 1] then 0 else 1;
      PrefixDistanceZero(s, t, i - 1, j - 1);
      assert PrefixDistance(s, t, i, j) == Min3(del + 1, ins + 1, sub + cost);
      assert s[..i] == s[..i - 1] + [s[i - 1]];
      assert t[..j] == t[..j - 1] + [t[j - 1]];
      if s[..i] == t[..j] {
        assert s[..i - 1] == s[..i][..i - 1] && t[..j - 1] == t[..j][..j - 1];
        assert s[i - 1] == s[..i][i - 1] && t[j - 1] == t[..j][j - 1];
      }
    } else if i == 0 {
      assert |t[..j]| == j;
    } else {
      assert |s[..i]| == i;
    }
  }

  /** The edit distance is zero exactly when the two strings are equal: the resolver's exact-match test. */
  lemma DistanceZeroIff(s: string, t: string)
    ensures Distance(s, t) == 0 <==> s == t
  {
    PrefixDistanceZero(s, t, |s|, |t|);
    assert s[..|s|] == s && t[..|t|] == t;
  }

  /** The distance between two prefixes is at least the difference of their lengths. */
  lemma {:induction false} PrefixDistanceLower(s: string, t: string, i: nat, j: nat)
    requires i <= |s| && j <= |t|
    ensures i - j <= PrefixDistance(s, t, i, j) && j - i <= PrefixDistance(s, t, i, j)
    decreases i + j
  {
    if i > 0 && j > 0 {
      var del, ins, sub := PrefixDistance(s, t, i - 1, j), PrefixDistance(s, t, i, j - 1), PrefixDistance(s, t, i - 1, j - 1);
      var cost := if s[i - 1] == t[j - 1] then 0 else 1;
      PrefixDistanceLower(s, t, i - 1, j);
      PrefixDistanceLower(s, t, i, j - 1);
      PrefixDistanceLower(s, t, i - 1, j - 1);
      assert PrefixDistance(s, t, i, j) == Min3(del + 1, ins + 1, sub + cost);
    }
  }

  /** The distance between two prefixes is at most the larger of their lengths. */
  lemma {:induction false} PrefixDistanceUpper(s: string, t: string, i: nat, j: nat)
    requires i <= |s| && j <= |t|
    ensures PrefixDistance(s, t, i, j) <= if i <= j then j else i
    decreases i + j
  {
    if i > 0 && j > 0 {
      var del, ins, sub := PrefixDistance(s, t, i - 1, j), PrefixDistance(s, t, i, j - 1), PrefixDistance(s, t, i - 1, j - 1);
      var cost := if s[i - 1] == t[j - 1] then 0 else 1;
      PrefixDistanceUpper(s, t, i - 1, j - 1);
      assert PrefixDistance(s, t, i, j) == Min3(del + 1, ins + 1, sub + cost);
      assert PrefixDistance(s, t, i, j) <= sub + 1;
    }
  }

  /**
   * The edit distance lies between the difference of the lengths and the larger
   * length; from the empty string it is the other string's length.
   */
  lemma DistanceBounds(s: string, t: string)
    ensures |s| - |t| <= Distance(s, t) && |t| - |s| <= Distance(s, t)
    ensures Distance(s, t) <= if |s| <= |t| then |t| else |s|
    ensures |s| == 0 ==> Distance(s, t) == |t|
    ensures |t| == 0 ==> Distance(s, t) == |s|
  {
    PrefixDistanceLower(s, t, |s|, |t|);
    PrefixDistanceUpper(s, t, |s|, |t|);
  }
}
