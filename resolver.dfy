/**
 * The tag lookup at the end of `main`: the directory of the first entry whose
 * tag is nearest to the requested one in edit distance, stopping early at an
 * exact match.
 */
module Resolver {
  import opened Optional
  import opened Text
  import opened TagFile
  import opened Levenshtein

  /** Entry `k` is nearest to the query, and every earlier entry is strictly farther. */
  predicate IsFirstClosest(es: seq<Entry>, query: string, k: nat) {
    k < |es|
    && (forall i :: 0 <= i < |es| ==> Distance(es[k].tag, query) <= Distance(es[i].tag, query))
    && (forall i :: 0 <= i < k ==> Distance(es[k].tag, query) < Distance(es[i].tag, query))
  }

  /** The index of the first entry nearest to the query. */
  function FirstClosest(es: seq<Entry>, query: string): (k: nat)
    requires |es| > 0
    ensures IsFirstClosest(es, query, k)
  {
    if |es| == 1 then 0
    else
      var before := es[..|es| - 1];
      var j := FirstClosest(before, query);
      assert forall i :: 0 <= i < |before| ==> before[i] == es[i];
      if Distance(es[|es| - 1].tag, query) < Distance(es[j].tag, query) then |es| - 1 else j
  }

  /** There is only one first nearest entry. */
  lemma FirstClosestUnique(es: seq<Entry>, query: string, k: nat, m: nat)
    requires IsFirstClosest(es, query, k) && IsFirstClosest(es, query, m)
    ensures k == m
  {
    assert Distance(es[k].tag, query) == Distance(es[m].tag, query);
  }

  /** The directory `main` writes after `"cd "`: that of the first nearest entry, `""` when none was read. */
  function Resolve(es: seq<Entry>, query: string): string {
    if |es| == 0 then "" else es[FirstClosest(es, query)].dir
  }

  /** Resolution picks the directory of whichever entry is first nearest. */
  lemma ResolveFirstClosest(es: seq<Entry>, query: string, k: nat)
    requires IsFirstClosest(es, query, k)
    ensures Resolve(es, query) == es[k].dir
  {
    FirstClosestUnique(es, query, k, FirstClosest(es, query));
  }

  /** A query that is a tag of the store resolves to the directory of the first entry with that tag. */
  lemma ResolveExactTag(es: seq<Entry>, query: string)
    requires TagDir(es, query).Some?
    ensures Resolve(es, query) == TagDir(es, query).value
  {
    var k := FindTag(es, query).value;
    DistanceZeroIff(es[k].tag, query);
    forall i | 0 <= i < k
      ensures Distance(es[k].tag, query) < Distance(es[i].tag, query)
    {
      DistanceZeroIff(es[i].tag, query);
    }
    ResolveFirstClosest(es, query, k);
  }

  /**
   * A blank last entry wins the lookup of every query less than half as long
   * as all the other tags: the directory written after `"cd "` is empty.
   */
  lemma BlankResolves(es: seq<Entry>, query: string)
    requires forall i :: 0 <= i < |es| ==> |es[i].tag| > 2 * |query|
    ensures Resolve(es + [Blank], query) == ""
  {
    var longer := es + [Blank];
    DistanceBounds(Blank.tag, query);
    assert longer[|es|] == Blank;
    forall i | 0 <= i < |longer|
      ensures Distance(Blank.tag, query) <= Distance(longer[i].tag, query)
      ensures i < |es| ==> Distance(Blank.tag, query) < Distance(longer[i].tag, query)
    {
      if i < |es| {
        assert longer[i] == es[i];
        DistanceBounds(es[i].tag, query);
      }
    }
    ResolveFirstClosest(longer, query, |es|);
  }

  /** One more entry read: the first nearest is either the new entry or stays where it was. */
  lemma ClosestStep(read: seq<Entry>, e: Entry, query: string, k: nat)
    requires IsFirstClosest(read, query, k)
    ensures Distance(e.tag, query) < Distance(read[k].tag, query) ==> IsFirstClosest(read + [e], query, |read|)
    ensures Distance(e.tag, query) >= Distance(read[k].tag, query) ==> IsFirstClosest(read + [e], query, k)
  {
    var longer := read + [e];
    assert forall i :: 0 <= i < |read| ==> longer[i] == read[i];
    assert longer[|read|] == e;
  }

  /** An entry tagged with the query, after entries that are not, is the first nearest from then on. */
  lemma ExactStops(read: seq<Entry>, e: Entry, more: seq<Entry>, query: string)
    requires e.tag == query
    requires forall i :: 0 <= i < |read| ==> read[i].tag != query
    ensures Resolve(read + [e] + more, query) == e.dir
  {
    var es := read + [e] + more;
    assert es[|read|] == e;
    assert forall i :: 0 <= i < |read| ==> es[i] == read[i];
    FindTagIs(es, query, |read|);
    ResolveExactTag(es, query);
  }

  /**
   * What the resolution loop knows after reading `read` without meeting the
   * query: the best distance so far (`None` standing for the initial
   * `SIZE_MAX`), the index of the entry it belongs to, and that entry's
   * directory.
   */
  ghost predicate Scanned(read: seq<Entry>, query: string, best: Option<nat>, bestIndex: nat, dir: string) {
    (best.None? <==> |read| == 0)
    && (best.None? ==> dir == "")
    && (best.Some? ==>
          IsFirstClosest(read, query, bestIndex)
          && best.value == Distance(read[bestIndex].tag, query)
          && dir == read[bestIndex].dir)
    && (forall i :: 0 <= i < |read| ==> read[i].tag != query)
  }

  /** The update of the best distance and directory keeps `Scanned` for one more inexact entry. */
  lemma ScanStep(read: seq<Entry>, e: Entry, query: string, best: Option<nat>, bestIndex: nat, dir: string)
    requires Scanned(read, query, best, bestIndex, dir)
    requires e.tag != query
    ensures best.None? || best.value > Distance(e.tag, query) ==>
      Scanned(read + [e], query, Some(Distance(e.tag, query)), |read|, e.dir)
    ensures !(best.None? || best.value > Distance(e.tag, query)) ==>
      Scanned(read + [e], query, best, bestIndex, dir)
  {
    var longer := read + [e];
    assert forall i :: 0 <= i < |read| ==> longer[i] == read[i];
    assert longer[|read|] == e;
    if best.Some? {
      ClosestStep(read, e, query, bestIndex);
    }
  }

  /**
   * The body of the resolution loop of `main`: reads one record and measures
   * its tag's distance to the query. `exact` reports distance 0, which ends
   * the loop; otherwise the best distance and directory are updated when the
   * new distance is strictly smaller.
   */
  method ScanRecord(input: string, query: string, ghost read: seq<Entry>,
                    best: Option<nat>, ghost bestIndex: nat, dir: string)
    returns (exact: bool, best': Option<nat>, ghost bestIndex': nat, dir': string, next: Option<string>)
    requires Scanned(read, query, best, bestIndex, dir)
    ensures next == ReadRecord(input).rest
    ensures exact <==> ReadRecord(input).entry.tag == query
    ensures exact ==> dir' == ReadRecord(input).entry.dir
    ensures !exact ==> Scanned(read + [ReadRecord(input).entry], query, best', bestIndex', dir')
  {
    var tag, line;
    tag, line, next := NextRecord(input);
    var distance := LevenshteinDistance(tag, query);
    DistanceZeroIff(tag, query);
    best', bestIndex', dir' := best, bestIndex, dir;
    if distance == 0 {
      exact, dir' := true, line;
      return;
    }
    exact := false;
    ScanStep(read, Entry(tag, line), query, best, bestIndex, dir);
    if best.None? || best.value > distance {
      best', bestIndex', dir' := Some(distance), |read|, line;
    }
  }

  /**
   * The resolution loop of `main`: reads the tag file record by record,
   * measures each tag's distance to the query, stops at the first distance 0
   * and otherwise keeps the first entry whose distance is strictly smaller
   * than the best so far.
   */
  method ResolveTag(tagFile: string, query: string) returns (dir: string)
    ensures dir == Resolve(Parse(tagFile), query)
  {
    var bestKnownDistance: Option<nat> := None;
    dir := "";
    ghost var read: seq<Entry> := [];
    ghost var bestIndex: nat := 0;
    var rest := Some(tagFile);
    while rest.Some?
      invariant read + Load(rest) == Parse(tagFile)
      invariant Scanned(read, query, bestKnownDistance, bestIndex, dir)
      decreases if rest.Some? then |rest.value| + 1 else 0
    {
      var input := rest.value;
      LoadStep(read, input, Some(tagFile));
      ghost var e := ReadRecord(input).entry;
      var exact, next;
      exact, bestKnownDistance, bestIndex, dir, next := ScanRecord(input, query, read, bestKnownDistance, bestIndex, dir);
      if exact {
        ExactStops(read, e, Load(next), query);
        return;
      }
      read := read + [e];
      rest := next;
    }
    assert read == Parse(tagFile) by {
      assert read + Load(rest) == read + [];
    }
    ResolveFirstClosest(read, query, bestIndex);
  }
}
