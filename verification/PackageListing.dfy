/** Telling a term used in a claim situation from one merely enumerated in a
    coverage package (`_package_listing_spans`, `score_question_vocabulary` and
    `score_question_scenarios` in scripts/casco_clause_selection.py).

    Regular expressions are not modelled: `matches` holds, for each vocabulary
    term, the spans its pattern matches in the question. */
module PackageListing {
  import opened Ordering

  const WINDOW_CHARS := 80
  const MIN_TERMS := 3

  datatype Span = Span(start: nat, end: nat)

  /** Tuple order of (start, end), by which the hits are sorted. */
  predicate SpanLe(a: Span, b: Span) {
    a.start < b.start || (a.start == b.start && a.end <= b.end)
  }

  function AllHits(matches: seq<seq<Span>>): seq<Span> {
    if matches == [] then [] else matches[0] + AllHits(matches[1..])
  }

  function SortedHits(matches: seq<seq<Span>>): seq<Span> {
    SortBy(AllHits(matches), SpanLe)
  }

  // ----- runs of hits

  /** First index from `j` on whose start lies more than a window after the run's first start. */
  function RunEndFrom(hits: seq<Span>, first: nat, j: nat): (e: nat)
    requires first < j <= |hits|
    ensures j <= e <= |hits|
    ensures forall i :: j <= i < e ==> hits[i].start - hits[first].start <= WINDOW_CHARS
    ensures e < |hits| ==> hits[e].start - hits[first].start > WINDOW_CHARS
    decreases |hits| - j
  {
    if j < |hits| && hits[j].start - hits[first].start <= WINDOW_CHARS then RunEndFrom(hits, first, j + 1) else j
  }

  function RunEnd(hits: seq<Span>, first: nat): (e: nat)
    requires first < |hits|
    ensures first < e <= |hits|
  {
    RunEndFrom(hits, first, first + 1)
  }

  /** First hit of the run that holds hit k, for runs laid out from `from`. */
  function RunOf(hits: seq<Span>, from: nat, k: nat): (a: nat)
    requires from <= k < |hits|
    ensures from <= a <= k < RunEnd(hits, a)
    decreases k - from
  {
    if k < RunEnd(hits, from) then from else RunOf(hits, RunEnd(hits, from), k)
  }

  /** The listing spans of the runs laid out from `from`. */
  function SpansFrom(hits: seq<Span>, from: nat): seq<Span>
    requires from <= |hits|
    decreases |hits| - from
  {
    if from == |hits| then []
    else if RunEnd(hits, from) - from >= MIN_TERMS
      then [RunSpan(hits, from)] + SpansFrom(hits, RunEnd(hits, from))
      else SpansFrom(hits, RunEnd(hits, from))
  }

  /** From the start of a run's first hit to the end of its last. */
  function RunSpan(hits: seq<Span>, first: nat): Span
    requires first < |hits|
  {
    Span(hits[first].start, hits[RunEnd(hits, first) - 1].end)
  }

  method CollectHits(matches: seq<seq<Span>>) returns (hits: seq<Span>)
    ensures hits == SortedHits(matches)
  {
    hits := [];
    for t := 0 to |matches|
      invariant AllHits(matches) == hits + AllHits(matches[t..])
    {
      assert matches[t..][0] == matches[t] && matches[t..][1..] == matches[t + 1..];
      hits := hits + matches[t];
    }
    assert matches[|matches|..] == [] && hits == AllHits(matches);
    hits := SortBy(hits, SpanLe);
  }

  /** Extends the run of hit `first` as far as the window reaches. */
  method GrowCluster(hits: seq<Span>, first: nat) returns (index: nat, cluster: seq<Span>)
    requires first < |hits|
    ensures index + 1 == RunEnd(hits, first) && cluster == hits[first..index + 1]
  {
    index, cluster := first, [hits[first]];
    while index + 1 < |hits| && hits[index + 1].start - cluster[0].start <= WINDOW_CHARS
      invariant first <= index < |hits|
      invariant cluster == hits[first..index + 1]
      invariant RunEnd(hits, first) == RunEndFrom(hits, first, index + 1)
    {
      index := index + 1;
      cluster := cluster + [hits[index]];
    }
  }

  method PackageListingSpans(matches: seq<seq<Span>>) returns (spans: seq<Span>)
    ensures spans == SpansFrom(SortedHits(matches), 0)
  {
    var hits := CollectHits(matches);
    spans := [];
    var index := 0;
    while index < |hits|
      invariant 0 <= index <= |hits|
      invariant EmittedSoFar(hits, spans, index)
    {
      ghost var first, before := index, spans;
      var cluster;
      index, cluster := GrowCluster(hits, index);
      ClusterSpan(hits, first, cluster);
      if |cluster| >= MIN_TERMS {
        spans := spans + [Span(cluster[0].start, cluster[|cluster| - 1].end)];
      }
      EmitNext(hits, before, first, spans);
      index := index + 1;
    }
  }

  lemma ClusterSpan(hits: seq<Span>, first: nat, cluster: seq<Span>)
    requires first < |hits| && cluster == hits[first..RunEnd(hits, first)]
    ensures |cluster| == RunEnd(hits, first) - first > 0
    ensures Span(cluster[0].start, cluster[|cluster| - 1].end) == RunSpan(hits, first)
  {
  }

  ghost predicate EmittedSoFar(hits: seq<Span>, spans: seq<Span>, from: nat) {
    from <= |hits| && SpansFrom(hits, 0) == spans + SpansFrom(hits, from)
  }

  lemma EmitNext(hits: seq<Span>, before: seq<Span>, first: nat, spans: seq<Span>)
    requires first < |hits| && EmittedSoFar(hits, before, first)
    requires spans == if RunEnd(hits, first) - first >= MIN_TERMS then before + [RunSpan(hits, first)] else before
    ensures EmittedSoFar(hits, spans, RunEnd(hits, first))
  {
  }

  // ----- the runs are a partition, and the only one

  /** `cuts` splits the hits into consecutive maximal runs, each within a window of its first start. */
  ghost predicate IsRunPartition(hits: seq<Span>, cuts: seq<nat>) {
    && |cuts| > 0 && cuts[0] == 0 && cuts[|cuts| - 1] == |hits|
    && (forall k :: 0 <= k < |cuts| - 1 ==> RunBetween(hits, cuts[k], cuts[k + 1]))
  }

  ghost predicate RunBetween(hits: seq<Span>, a: nat, b: nat) {
    && a < b <= |hits|
    && (forall i :: a <= i < b ==> hits[i].start - hits[a].start <= WINDOW_CHARS)
    && (b < |hits| ==> hits[b].start - hits[a].start > WINDOW_CHARS)
  }

  /** Where the loop cuts the hits from `from` on. */
  function Cuts(hits: seq<Span>, from: nat): (cuts: seq<nat>)
    requires from <= |hits|
    ensures |cuts| > 0 && cuts[0] == from
    decreases |hits| - from
  {
    if from == |hits| then [from] else [from] + Cuts(hits, RunEnd(hits, from))
  }

  lemma {:induction false} CutsPartition(hits: seq<Span>, from: nat)
    requires from <= |hits|
    ensures var cuts := Cuts(hits, from);
      && cuts[|cuts| - 1] == |hits|
      && forall k :: 0 <= k < |cuts| - 1 ==> RunBetween(hits, cuts[k], cuts[k + 1])
    decreases |hits| - from
  {
    if from < |hits| {
      CutsPartition(hits, RunEnd(hits, from));
      assert RunBetween(hits, from, RunEnd(hits, from));
    }
  }

  /** The loop's cuts form such a partition, and every such partition is the loop's. */
  lemma RunPartitionUnique(hits: seq<Span>, cuts: seq<nat>)
    ensures IsRunPartition(hits, Cuts(hits, 0))
    ensures IsRunPartition(hits, cuts) ==> cuts == Cuts(hits, 0)
  {
    CutsPartition(hits, 0);
    if IsRunPartition(hits, cuts) {
      CutsFrom(hits, cuts, 0);
      assert cuts[0..] == cuts;
    }
  }

  lemma {:induction false} CutsFrom(hits: seq<Span>, cuts: seq<nat>, k: nat)
    requires IsRunPartition(hits, cuts) && k < |cuts|
    ensures cuts[k] <= |hits| && cuts[k..] == Cuts(hits, cuts[k])
    decreases |cuts| - k
  {
    if k == |cuts| - 1 {
      assert cuts[k..] == [cuts[k]];
    } else {
      CutsFrom(hits, cuts, k + 1);
      assert RunBetween(hits, cuts[k], cuts[k + 1]);
      RunEndDetermined(hits, cuts[k], cuts[k + 1]);
      assert cuts[k..] == [cuts[k]] + cuts[k + 1..];
    }
  }

  lemma RunEndDetermined(hits: seq<Span>, a: nat, b: nat)
    requires RunBetween(hits, a, b)
    ensures RunEnd(hits, a) == b
  {
    RunEndReaches(hits, a, a + 1, b);
  }

  lemma {:induction false} RunEndReaches(hits: seq<Span>, a: nat, j: nat, b: nat)
    requires RunBetween(hits, a, b) && a < j <= b
    ensures RunEndFrom(hits, a, j) == b
    decreases b - j
  {
    if j < b { RunEndReaches(hits, a, j + 1, b); }
  }

  lemma RunBounds(hits: seq<Span>, a: nat)
    requires a < |hits|
    ensures RunBetween(hits, a, RunEnd(hits, a))
  {
  }

  // ----- which hits a listing swallows

  ghost predicate Ordered(hits: seq<Span>) {
    SortedBy(hits, SpanLe)
  }

  predicate Inside(s: Span, spans: seq<Span>) {
    exists i :: 0 <= i < |spans| && spans[i].start <= s.start && s.end <= spans[i].end
  }

  ghost predicate IsRunStart(hits: seq<Span>, a: nat) {
    a < |hits| && RunOf(hits, 0, a) == a
  }

  ghost predicate IsListing(hits: seq<Span>, a: nat) {
    IsRunStart(hits, a) && RunEnd(hits, a) - a >= MIN_TERMS
  }

  predicate EmittedFrom(hits: seq<Span>, from: nat, a: nat, s: Span) {
    && from <= a < |hits| && RunOf(hits, from, a) == a
    && RunEnd(hits, a) - a >= MIN_TERMS && RunSpan(hits, a) == s
  }

  /** The spans emitted are exactly those of the runs of three or more hits. */
  lemma {:induction false} SpansAreListings(hits: seq<Span>, from: nat, s: Span)
    requires from <= |hits|
    ensures s in SpansFrom(hits, from) <==> exists a: nat :: EmittedFrom(hits, from, a, s)
    decreases |hits| - from
  {
    if from < |hits| {
      var next := RunEnd(hits, from);
      SpansAreListings(hits, next, s);
      if s in SpansFrom(hits, next) {
        var a: nat :| EmittedFrom(hits, next, a, s);
        assert EmittedFrom(hits, from, a, s);
      }
      if next - from >= MIN_TERMS && RunSpan(hits, from) == s {
        assert EmittedFrom(hits, from, from, s);
      }
      forall a: nat | EmittedFrom(hits, from, a, s)
        ensures s in SpansFrom(hits, from)
      {
        if a >= next { assert EmittedFrom(hits, next, a, s); }
      }
    }
  }

  lemma ListingSpans(hits: seq<Span>, s: Span)
    ensures s in SpansFrom(hits, 0) <==> exists a: nat :: IsListing(hits, a) && RunSpan(hits, a) == s
  {
    SpansAreListings(hits, 0, s);
    if s in SpansFrom(hits, 0) {
      var a: nat :| EmittedFrom(hits, 0, a, s);
      assert IsListing(hits, a);
    }
    forall a: nat | IsListing(hits, a) && RunSpan(hits, a) == s ensures s in SpansFrom(hits, 0) {
      assert EmittedFrom(hits, 0, a, s);
    }
  }

  /** Runs are consecutive: a run starts after every hit of an earlier one. */
  lemma {:induction false} RunsDisjoint(hits: seq<Span>, from: nat, j: nat, k: nat)
    requires from <= j <= k < |hits|
    ensures RunOf(hits, from, j) <= RunOf(hits, from, k)
    ensures RunOf(hits, from, j) < RunOf(hits, from, k) ==> RunEnd(hits, RunOf(hits, from, j)) <= RunOf(hits, from, k)
    decreases k - from
  {
    if k >= RunEnd(hits, from) && j >= RunEnd(hits, from) {
      RunsDisjoint(hits, RunEnd(hits, from), j, k);
    }
  }

  /** Hit k ends no later than the last hit of the listing run starting at a. */
  ghost predicate EndsWithin(hits: seq<Span>, k: nat, a: nat)
    requires k < |hits|
  {
    IsListing(hits, a) && hits[k].end <= hits[RunEnd(hits, a) - 1].end
  }

  /** Exactly when a hit is swallowed, for any hits, overlapping or not: its own run or an
      earlier one is a listing whose last hit ends no earlier than it does. */
  lemma SwallowedExactly(hits: seq<Span>, k: nat)
    requires Ordered(hits) && k < |hits|
    ensures Inside(hits[k], SpansFrom(hits, 0)) <==> exists a: nat :: a <= RunOf(hits, 0, k) && EndsWithin(hits, k, a)
  {
    var spans := SpansFrom(hits, 0);
    if Inside(hits[k], spans) {
      var i :| 0 <= i < |spans| && spans[i].start <= hits[k].start && hits[k].end <= spans[i].end;
      ListingSpans(hits, spans[i]);
      var a: nat :| IsListing(hits, a) && RunSpan(hits, a) == spans[i];
      LaterRunsStartLater(hits, k, a);
      assert EndsWithin(hits, k, a);
    }
    if a: nat :| a <= RunOf(hits, 0, k) && EndsWithin(hits, k, a) {
      ListingSwallows(hits, k, a);
    }
  }

  lemma ListingSwallows(hits: seq<Span>, k: nat, a: nat)
    requires Ordered(hits) && k < |hits| && a <= RunOf(hits, 0, k) && EndsWithin(hits, k, a)
    ensures Inside(hits[k], SpansFrom(hits, 0))
  {
    OrderedStarts(hits, a, k);
    var span := RunSpan(hits, a);
    assert span.start <= hits[k].start && hits[k].end <= span.end;
    ListingSpans(hits, span);
    MemberInside(hits[k], span, SpansFrom(hits, 0));
  }

  lemma MemberInside(s: Span, span: Span, spans: seq<Span>)
    requires span in spans && span.start <= s.start && s.end <= span.end
    ensures Inside(s, spans)
  {
    var i :| 0 <= i < |spans| && spans[i] == span;
  }

  lemma LaterRunsStartLater(hits: seq<Span>, k: nat, a: nat)
    requires Ordered(hits) && k < |hits| && IsRunStart(hits, a)
    ensures a > RunOf(hits, 0, k) ==> hits[a].start > hits[k].start
  {
    var r := RunOf(hits, 0, k);
    if a > r {
      if a <= k { RunsDisjoint(hits, 0, a, k); } else { RunsDisjoint(hits, 0, k, a); }
      RunBounds(hits, r);
      OrderedStarts(hits, RunEnd(hits, r), a);
    }
  }

  lemma OrderedStarts(hits: seq<Span>, i: nat, j: nat)
    requires Ordered(hits) && i <= j < |hits|
    ensures hits[i].start <= hits[j].start
  {
    if i < j { assert SpanLe(hits[i], hits[j]); }
  }

  /** No hit lies inside a hit that starts before it. Disjoint hits are a special case. */
  ghost predicate NoNesting(hits: seq<Span>) {
    forall i, j :: 0 <= i < j < |hits| && hits[i].start < hits[j].start ==> hits[i].end < hits[j].end
  }

  /** The hits of a run too short to be a listing. */
  ghost predicate InShortRun(hits: seq<Span>, k: nat) {
    k < |hits| && RunEnd(hits, RunOf(hits, 0, k)) - RunOf(hits, 0, k) < MIN_TERMS
  }

  /** Without nesting, a hit stays outside the listings exactly when its own run is short. */
  lemma OutsideIsShortRun(hits: seq<Span>, k: nat)
    requires Ordered(hits) && NoNesting(hits) && k < |hits|
    ensures !Inside(hits[k], SpansFrom(hits, 0)) <==> InShortRun(hits, k)
  {
    SwallowedExactly(hits, k);
    if InShortRun(hits, k) {
      forall a: nat | a <= RunOf(hits, 0, k) ensures !EndsWithin(hits, k, a) {
        if IsListing(hits, a) { EarlierRunEndsBefore(hits, k, a); }
      }
    } else {
      ListingHoldsItsHits(hits, k);
    }
  }

  lemma ListingHoldsItsHits(hits: seq<Span>, k: nat)
    requires Ordered(hits) && NoNesting(hits) && k < |hits| && !InShortRun(hits, k)
    ensures EndsWithin(hits, k, RunOf(hits, 0, k))
  {
    LongRunIsListing(hits, k);
    LastEndsLast(hits, k, RunEnd(hits, RunOf(hits, 0, k)) - 1);
  }

  lemma LongRunIsListing(hits: seq<Span>, k: nat)
    requires k < |hits| && !InShortRun(hits, k)
    ensures IsListing(hits, RunOf(hits, 0, k))
  {
    RunStartIsRun(hits, k);
  }

  lemma LastEndsLast(hits: seq<Span>, k: nat, last: nat)
    requires Ordered(hits) && NoNesting(hits) && k <= last < |hits|
    ensures hits[k].end <= hits[last].end
  {
    if k < last { assert SpanLe(hits[k], hits[last]); }
  }

  lemma {:induction false} RunOfIdempotent(hits: seq<Span>, from: nat, k: nat)
    requires from <= k < |hits|
    ensures RunOf(hits, from, RunOf(hits, from, k)) == RunOf(hits, from, k)
    decreases k - from
  {
    if k >= RunEnd(hits, from) { RunOfIdempotent(hits, RunEnd(hits, from), k); }
  }

  lemma RunStartIsRun(hits: seq<Span>, k: nat)
    requires k < |hits|
    ensures IsRunStart(hits, RunOf(hits, 0, k))
  {
    RunOfIdempotent(hits, 0, k);
  }

  lemma EarlierRunEndsBefore(hits: seq<Span>, k: nat, a: nat)
    requires Ordered(hits) && NoNesting(hits) && InShortRun(hits, k)
    requires a <= RunOf(hits, 0, k) && IsListing(hits, a)
    ensures hits[RunEnd(hits, a) - 1].end < hits[k].end
  {
    var r := RunOf(hits, 0, k);
    assert a != r;
    EarlierRunStartsBefore(hits, k, a);
  }

  lemma EarlierRunStartsBefore(hits: seq<Span>, k: nat, a: nat)
    requires Ordered(hits) && k < |hits| && IsRunStart(hits, a) && a < RunOf(hits, 0, k)
    ensures RunEnd(hits, a) - 1 < k && hits[RunEnd(hits, a) - 1].start < hits[k].start
  {
    RunsDisjoint(hits, 0, a, k);
    RunBounds(hits, a);
    OrderedStarts(hits, RunEnd(hits, a), k);
  }

  // ----- the window in characters

  /** A run holds exactly the hits that start at most 80 characters after its first. */
  lemma RunHoldsExactly(hits: seq<Span>, a: nat, j: nat)
    requires Ordered(hits) && a <= j < |hits|
    ensures j < RunEnd(hits, a) <==> hits[j].start - hits[a].start <= 80
  {
    RunBounds(hits, a);
    if hits[j].start - hits[a].start <= 80 { WindowFits(hits, a, j); }
  }

  /** One or two hits are never a package; three are if and only if the last starts at most 80
      characters after the first, and then the package reaches from the first to the last. */
  lemma ThreeHitsArePackage(hits: seq<Span>)
    requires Ordered(hits)
    ensures |hits| < 3 ==> SpansFrom(hits, 0) == []
    ensures |hits| == 3 && hits[2].start - hits[0].start <= 80 ==>
      SpansFrom(hits, 0) == [Span(hits[0].start, hits[2].end)]
    ensures |hits| == 3 && hits[2].start - hits[0].start > 80 ==> SpansFrom(hits, 0) == []
  {
    NothingEmittedExactly(hits);
    if |hits| < 3 {
      forall k: nat | k < |hits| ensures InShortRun(hits, k) { }
    } else if |hits| == 3 {
      RunHoldsExactly(hits, 0, 2);
      if RunEnd(hits, 0) <= 2 {
        forall k: nat | k < |hits| ensures InShortRun(hits, k) { }
      }
    }
  }

  /** The hits are sorted by where they start, then by where they end. */
  lemma HitsAscend(matches: seq<seq<Span>>, i: nat, j: nat)
    requires i < j < |SortedHits(matches)|
    ensures var a, b := SortedHits(matches)[i], SortedHits(matches)[j];
      a.start < b.start || (a.start == b.start && a.end <= b.end)
  {
    SortedHitsFacts(matches);
    assert SpanLe(SortedHits(matches)[i], SortedHits(matches)[j]);
  }

  /** A term is used by a question if and only if it matches at all, and credited if and only if
      one of its matches lies in no listing. */
  lemma TermsExactly(matches: seq<seq<Span>>, listings: seq<Span>, t: nat)
    ensures t in ScoreVocabulary(matches) <==> t < |matches| && exists m :: m in matches[t]
    ensures t in Credited(matches, listings) <==> t < |matches| && exists m :: m in matches[t] && Outside(m, listings)
  {
    if t < |matches| {
      FirstIn(matches[t]);
      forall m | m in matches[t] && Outside(m, listings) ensures AnyOutside(matches[t], listings) {
        var i :| 0 <= i < |matches[t]| && matches[t][i] == m;
      }
      forall i | 0 <= i < |matches[t]| && !Inside(matches[t][i], listings) ensures Outside(matches[t][i], listings) {
        forall s | s in listings ensures matches[t][i].start < s.start || matches[t][i].end > s.end {
          var k :| 0 <= k < |listings| && listings[k] == s;
        }
      }
    }
  }

  ghost predicate Outside(m: Span, listings: seq<Span>) {
    forall s :: s in listings ==> m.start < s.start || m.end > s.end
  }

  // ----- what the window catches

  /** Hit i is the second of a two-hit run, and the two behind it are a run of their own. */
  predicate Escapes(hits: seq<Span>, i: nat)
    requires i + 2 < |hits|
  {
    && i > 0 && RunOf(hits, 0, i) == i - 1
    && hits[i + 1].start - hits[i - 1].start > WINDOW_CHARS
    && (i + 3 < |hits| ==> hits[i + 3].start - hits[i + 1].start > WINDOW_CHARS)
  }

  /** Exactly when three hits whose starts lie within one window all miss the listings. */
  lemma ThreeInWindowEscapeExactly(hits: seq<Span>, i: nat)
    requires Ordered(hits) && i + 2 < |hits|
    requires hits[i + 2].start - hits[i].start <= WINDOW_CHARS
    ensures InShortRun(hits, i) && InShortRun(hits, i + 1) && InShortRun(hits, i + 2) <==> Escapes(hits, i)
  {
    OrderedStarts(hits, i, i + 1);
    if InShortRun(hits, i) && InShortRun(hits, i + 1) && InShortRun(hits, i + 2) { EscapeShape(hits, i); }
    if Escapes(hits, i) { EscapeSuffices(hits, i); }
  }

  lemma EscapeShape(hits: seq<Span>, i: nat)
    requires Ordered(hits) && i + 2 < |hits|
    requires hits[i + 2].start - hits[i].start <= WINDOW_CHARS && hits[i].start <= hits[i + 1].start
    requires InShortRun(hits, i) && InShortRun(hits, i + 1)
    ensures Escapes(hits, i)
  {
    SecondOfTwo(hits, i);
    NextRun(hits, 0, i);
    WindowFits(hits, i + 1, i + 2);
    RunBounds(hits, i + 1);
  }

  /** The short run of a hit that starts a window of three is the hit before it and itself. */
  lemma SecondOfTwo(hits: seq<Span>, i: nat)
    requires Ordered(hits) && i + 2 < |hits| && InShortRun(hits, i)
    requires hits[i + 2].start - hits[i].start <= WINDOW_CHARS
    ensures i > 0 && RunOf(hits, 0, i) == i - 1 && RunEnd(hits, i - 1) == i + 1
    ensures hits[i + 1].start - hits[i - 1].start > WINDOW_CHARS
  {
    WindowFits(hits, i, i + 2);
    RunBounds(hits, RunOf(hits, 0, i));
  }

  lemma EscapeSuffices(hits: seq<Span>, i: nat)
    requires Ordered(hits) && i + 2 < |hits| && Escapes(hits, i)
    requires hits[i + 2].start - hits[i].start <= WINDOW_CHARS && hits[i].start <= hits[i + 1].start
    ensures InShortRun(hits, i) && InShortRun(hits, i + 1) && InShortRun(hits, i + 2)
  {
    PairRun(hits, i);
    NextRun(hits, 0, i);
    WindowFits(hits, i + 1, i + 2);
    TwoHitRun(hits, i + 1);
  }

  lemma PairRun(hits: seq<Span>, i: nat)
    requires 0 < i && i + 1 < |hits| && RunOf(hits, 0, i) == i - 1
    requires hits[i + 1].start - hits[i - 1].start > WINDOW_CHARS
    ensures RunEnd(hits, i - 1) == i + 1 && InShortRun(hits, i)
  {
    RunStopsBefore(hits, i - 1, i + 1);
  }

  lemma TwoHitRun(hits: seq<Span>, a: nat)
    requires a + 1 < |hits| && RunOf(hits, 0, a) == a && RunEnd(hits, a) > a + 1
    requires a + 2 < |hits| ==> hits[a + 2].start - hits[a].start > WINDOW_CHARS
    ensures InShortRun(hits, a) && InShortRun(hits, a + 1)
  {
    if a + 2 < |hits| { RunStopsBefore(hits, a, a + 2); }
    HeldByRun(hits, 0, a, a + 1);
  }

  lemma RunStopsBefore(hits: seq<Span>, a: nat, j: nat)
    requires a < j < |hits| && hits[j].start - hits[a].start > WINDOW_CHARS
    ensures RunEnd(hits, a) <= j
  {
    RunBounds(hits, a);
  }

  /** A hit before the end of a run, not before its start, is in it. */
  lemma {:induction false} HeldByRun(hits: seq<Span>, from: nat, a: nat, k: nat)
    requires from <= a <= k < |hits| && RunOf(hits, from, a) == a && k < RunEnd(hits, a)
    ensures RunOf(hits, from, k) == a
    decreases a - from
  {
    if a >= RunEnd(hits, from) { HeldByRun(hits, RunEnd(hits, from), a, k); }
  }

  /** So any four hits whose starts lie within one window meet a listing. */
  lemma FourInWindowMeetListing(hits: seq<Span>, i: nat)
    requires Ordered(hits) && i + 3 < |hits|
    requires hits[i + 3].start - hits[i].start <= WINDOW_CHARS
    ensures exists k: nat :: i <= k <= i + 2 && !InShortRun(hits, k)
  {
    OrderedStarts(hits, i + 2, i + 3);
    OrderedStarts(hits, i, i + 1);
    ThreeInWindowEscapeExactly(hits, i);
    assert !(InShortRun(hits, i) && InShortRun(hits, i + 1) && InShortRun(hits, i + 2));
  }

  /** Nothing is emitted exactly when every hit is in a short run. */
  lemma NothingEmittedExactly(hits: seq<Span>)
    ensures SpansFrom(hits, 0) == [] <==> forall k: nat :: k < |hits| ==> InShortRun(hits, k)
  {
    FirstIn(SpansFrom(hits, 0));
    if SpansFrom(hits, 0) != [] {
      ListingSpans(hits, SpansFrom(hits, 0)[0]);
      var a: nat :| IsListing(hits, a);
      assert !InShortRun(hits, a);
    }
    forall k: nat | k < |hits| && !InShortRun(hits, k) ensures SpansFrom(hits, 0) != [] {
      RunStartIsRun(hits, k);
      assert IsListing(hits, RunOf(hits, 0, k));
      ListingSpans(hits, RunSpan(hits, RunOf(hits, 0, k)));
    }
  }

  /** A run reaches every hit within a window of its first start. */
  lemma WindowFits(hits: seq<Span>, a: nat, j: nat)
    requires Ordered(hits) && a <= j < |hits| && hits[j].start - hits[a].start <= WINDOW_CHARS
    ensures RunEnd(hits, a) > j
  {
    RunBounds(hits, a);
    var e := RunEnd(hits, a);
    if e <= j { OrderedStarts(hits, e, j); }
  }

  lemma {:induction false} NextRun(hits: seq<Span>, from: nat, k: nat)
    requires from <= k < |hits| && k + 1 < |hits|
    requires RunEnd(hits, RunOf(hits, from, k)) == k + 1
    ensures RunOf(hits, from, k + 1) == k + 1
    decreases k - from
  {
    if k >= RunEnd(hits, from) {
      NextRun(hits, RunEnd(hits, from), k);
    }
  }

  /** Three are not enough: the window is anchored at each run's first hit, so the three
      hits at 70, 90 and 100 are split over two runs and nothing is emitted. */
  lemma ThreeInWindowCanEscape()
    ensures var hits := [Span(0, 5), Span(70, 75), Span(90, 95), Span(100, 105)];
      hits[3].start - hits[1].start <= WINDOW_CHARS && SpansFrom(hits, 0) == []
  {
    var hits := [Span(0, 5), Span(70, 75), Span(90, 95), Span(100, 105)];
    RunEndDetermined(hits, 0, 2);
    HeldByRun(hits, 0, 0, 1);
    ThreeInWindowEscapeExactly(hits, 1);
    NothingEmittedExactly(hits);
    forall k: nat | k < |hits| ensures InShortRun(hits, k) {
      assert k == 0 || k == 1 || k == 2 || k == 3;
    }
  }

  // ----- scoring a question

  /** Terms the question mentions at all. */
  function ScoreVocabulary(matches: seq<seq<Span>>): set<nat> {
    set t | 0 <= t < |matches| && matches[t] != []
  }

  method ScoreScenarios(matches: seq<seq<Span>>, isDefinition: bool, hasScenarioMarker: bool)
    returns (terms: set<nat>)
    ensures isDefinition || !hasScenarioMarker ==> terms == {}
    ensures !isDefinition && hasScenarioMarker ==>
      terms == Credited(matches, SpansFrom(SortedHits(matches), 0))
  {
    if isDefinition {
      return {};
    }
    if !hasScenarioMarker {
      return {};
    }
    var listings := PackageListingSpans(matches);
    terms := Credited(matches, listings);
  }

  /** Terms with a match outside every listing. */
  function Credited(matches: seq<seq<Span>>, listings: seq<Span>): set<nat> {
    set t | 0 <= t < |matches| && AnyOutside(matches[t], listings)
  }

  predicate AnyOutside(found: seq<Span>, listings: seq<Span>) {
    exists i :: 0 <= i < |found| && !Inside(found[i], listings)
  }

  lemma {:induction false} AllHitsElements(matches: seq<seq<Span>>)
    ensures forall s :: s in AllHits(matches) <==> exists t :: 0 <= t < |matches| && s in matches[t]
  {
    if matches != [] {
      AllHitsElements(matches[1..]);
      forall s ensures s in AllHits(matches) <==> exists t :: 0 <= t < |matches| && s in matches[t] {
        if s in AllHits(matches[1..]) {
          var t :| 0 <= t < |matches[1..]| && s in matches[1..][t];
          assert s in matches[t + 1];
        }
        if t :| 0 <= t < |matches| && s in matches[t] {
          if t > 0 { assert s in matches[1..][t - 1]; }
        }
      }
    }
  }

  lemma SpanOrder()
    ensures TotalPreorder(SpanLe)
  {
  }

  lemma SortedHitsFacts(matches: seq<seq<Span>>)
    ensures Ordered(SortedHits(matches))
    ensures forall s :: s in SortedHits(matches) <==> exists t :: 0 <= t < |matches| && s in matches[t]
  {
    SpanOrder();
    SortBySorts(AllHits(matches), SpanLe);
    SortByElements(AllHits(matches), SpanLe);
    AllHitsElements(matches);
  }

  /** A match that no listing swallows. */
  ghost predicate Escaped(hits: seq<Span>, k: nat) {
    k < |hits| && forall a: nat :: a <= RunOf(hits, 0, k) ==> !EndsWithin(hits, k, a)
  }

  /** Exactly when a term is credited, for any matches, nested or not. */
  lemma CreditedExactly(matches: seq<seq<Span>>, t: nat)
    requires t < |matches|
    ensures var hits := SortedHits(matches);
      t in Credited(matches, SpansFrom(hits, 0)) <==> exists k: nat :: Escaped(hits, k) && hits[k] in matches[t]
  {
    var hits := SortedHits(matches);
    SortedHitsFacts(matches);
    if AnyOutside(matches[t], SpansFrom(hits, 0)) {
      var i :| 0 <= i < |matches[t]| && !Inside(matches[t][i], SpansFrom(hits, 0));
      assert matches[t][i] in hits;
      var k: nat :| k < |hits| && hits[k] == matches[t][i];
      SwallowedExactly(hits, k);
      assert Escaped(hits, k);
    }
    if k: nat :| Escaped(hits, k) && hits[k] in matches[t] {
      SwallowedExactly(hits, k);
      var i :| 0 <= i < |matches[t]| && matches[t][i] == hits[k];
    }
  }

  /** Scenario terms are vocabulary terms, and where no match nests in another a term is
      credited exactly when one of its matches falls in a run of fewer than three. */
  lemma ScenarioTerms(matches: seq<seq<Span>>, t: nat)
    requires t < |matches|
    ensures var hits := SortedHits(matches);
            var terms := Credited(matches, SpansFrom(hits, 0));
      && terms <= ScoreVocabulary(matches)
      && (NoNesting(hits) ==>
            (t in terms <==> exists k: nat :: InShortRun(hits, k) && hits[k] in matches[t]))
  {
    var hits := SortedHits(matches);
    SortedHitsFacts(matches);
    CreditedExactly(matches, t);
    if NoNesting(hits) {
      forall k: nat | k < |hits| ensures Escaped(hits, k) <==> InShortRun(hits, k) {
        SwallowedExactly(hits, k);
        OutsideIsShortRun(hits, k);
      }
    }
  }

  /** With nesting the promise fails: the short hit at 85 lies inside the listing's last, long
      hit, so its term loses the credit although the hit's run holds only itself. */
  lemma NestedHitLosesCredit()
    ensures var matches := [[Span(0, 5), Span(10, 15), Span(80, 120)], [Span(85, 90)]];
            var hits := SortedHits(matches);
      && InShortRun(hits, 3) && hits[3] in matches[1]
      && 1 !in Credited(matches, SpansFrom(hits, 0))
  {
    var matches := [[Span(0, 5), Span(10, 15), Span(80, 120)], [Span(85, 90)]];
    var hits := [Span(0, 5), Span(10, 15), Span(80, 120), Span(85, 90)];
    NestedHits(matches, hits);
    NestedRuns(hits);
    MemberInside(Span(85, 90), Span(0, 120), [Span(0, 120)]);
    assert matches[1] == [Span(85, 90)];
  }

  lemma NestedHits(matches: seq<seq<Span>>, hits: seq<Span>)
    requires matches == [[Span(0, 5), Span(10, 15), Span(80, 120)], [Span(85, 90)]]
    requires hits == [Span(0, 5), Span(10, 15), Span(80, 120), Span(85, 90)]
    ensures SortedHits(matches) == hits
  {
    var rest := matches[1..];
    assert rest == [[Span(85, 90)]] && rest[1..] == [];
    assert AllHits(rest) == [Span(85, 90)];
    assert AllHits(matches) == hits;
    AlreadySorted(hits);
  }

  lemma NestedRuns(hits: seq<Span>)
    requires hits == [Span(0, 5), Span(10, 15), Span(80, 120), Span(85, 90)]
    ensures InShortRun(hits, 3) && SpansFrom(hits, 0) == [Span(0, 120)]
  {
    RunEndDetermined(hits, 0, 3);
    RunEndDetermined(hits, 3, 4);
    assert RunOf(hits, 0, 3) == 3;
    assert SpansFrom(hits, 4) == [];
    assert SpansFrom(hits, 3) == SpansFrom(hits, 4);
    assert RunSpan(hits, 0) == Span(0, 120);
  }

  lemma {:induction false} AlreadySorted(hits: seq<Span>)
    requires Ordered(hits)
    ensures SortBy(hits, SpanLe) == hits
  {
    if hits != [] {
      TailOrdered(hits, SpanLe);
      AlreadySorted(hits[1..]);
      if |hits| > 1 { assert SpanLe(hits[0], hits[1]); }
    }
  }

  /** The listing rule counts matches, not terms: one term mentioned three times within a
      window is taken for a package of three and is not credited. */
  lemma RepeatedTermIsTakenForListing()
    ensures var matches := [[Span(0, 7), Span(20, 27), Span(40, 47)]];
      ScoreVocabulary(matches) == {0} && Credited(matches, SpansFrom(SortedHits(matches), 0)) == {}
  {
    var matches := [[Span(0, 7), Span(20, 27), Span(40, 47)]];
    var hits := matches[0];
    assert AllHits(matches) == hits by { assert matches[1..] == []; }
    AlreadySorted(hits);
    RunEndDetermined(hits, 0, 3);
    assert SpansFrom(hits, 0) == [Span(0, 47)];
    forall i | 0 <= i < |matches[0]| ensures Inside(matches[0][i], [Span(0, 47)]) {
      MemberInside(matches[0][i], Span(0, 47), [Span(0, 47)]);
    }
  }
}
