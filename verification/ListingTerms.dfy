/** What the package-listing rule counts. `_package_listing_spans` (scripts/casco_clause_selection.py)
    is described as finding runs of three or more vocabulary terms; it counts matches. Here every
    match carries its term, so that the two rules can be compared. */
module ListingTerms {
  import opened Ordering
  import opened PackageListing

  /** Match number `place` of a term. */
  datatype Hit = Hit(span: Span, term: nat, place: nat)

  function SpanOf(): Hit -> Span {
    (h: Hit) => h.span
  }

  function HitLe(): (Hit, Hit) -> bool {
    (a: Hit, b: Hit) => SpanLe(a.span, b.span)
  }

  function Label(found: seq<Span>, term: nat): seq<Hit> {
    seq(|found|, i requires 0 <= i < |found| => Hit(found[i], term, i))
  }

  /** All matches with their terms, the first term being number `from`. */
  function Labelled(matches: seq<seq<Span>>, from: nat): seq<Hit> {
    if matches == [] then [] else Label(matches[0], from) + Labelled(matches[1..], from + 1)
  }

  function SortedLabelled(matches: seq<seq<Span>>): seq<Hit> {
    SortBy(Labelled(matches, 0), HitLe())
  }

  lemma LabelSpans(found: seq<Span>, term: nat)
    ensures Map(Label(found, term), SpanOf()) == found
  {
    MapAt(Label(found, term), SpanOf());
  }

  lemma {:induction false} LabelledSpans(matches: seq<seq<Span>>, from: nat)
    ensures Map(Labelled(matches, from), SpanOf()) == AllHits(matches)
    decreases |matches|
  {
    if matches != [] {
      LabelledSpans(matches[1..], from + 1);
      LabelSpans(matches[0], from);
      MapAppend(Label(matches[0], from), Labelled(matches[1..], from + 1), SpanOf());
    }
  }

  /** Without the labels these are the hits the source sorts. */
  lemma SortedLabelledSpans(matches: seq<seq<Span>>)
    ensures Map(SortedLabelled(matches), SpanOf()) == SortedHits(matches)
    ensures |SortedLabelled(matches)| == |SortedHits(matches)|
  {
    LabelledSpans(matches, 0);
    MapOfSort(Labelled(matches, 0), HitLe(), SpanOf(), SpanLe);
    MapAt(SortedLabelled(matches), SpanOf());
  }

  predicate IsMatch(matches: seq<seq<Span>>, from: nat, h: Hit) {
    && from <= h.term < from + |matches| && h.place < |matches[h.term - from]|
    && matches[h.term - from][h.place] == h.span
  }

  lemma {:induction false} LabelledFacts(matches: seq<seq<Span>>, from: nat)
    ensures Distinct(Labelled(matches, from))
    ensures forall h :: h in Labelled(matches, from) ==> IsMatch(matches, from, h)
    decreases |matches|
  {
    if matches != [] {
      var rest := Labelled(matches[1..], from + 1);
      LabelledFacts(matches[1..], from + 1);
      forall h | h in rest ensures IsMatch(matches, from, h) && h.term > from {
        assert IsMatch(matches[1..], from + 1, h);
      }
      DistinctConcat(Label(matches[0], from), rest);
    }
  }

  lemma SortedLabelledFacts(matches: seq<seq<Span>>)
    ensures Distinct(SortedLabelled(matches))
    ensures forall h :: h in SortedLabelled(matches) ==> IsMatch(matches, 0, h)
  {
    LabelledFacts(matches, 0);
    SortByDistinct(Labelled(matches, 0), HitLe());
    SortByElements(Labelled(matches, 0), HitLe());
  }

  // ----- the documented rule

  /** The different terms of the run that starts at hit a. */
  function RunTerms(matches: seq<seq<Span>>, a: nat): set<nat>
    requires a < |SortedHits(matches)|
  {
    set i | a <= i < RunEnd(SortedHits(matches), a) && i < |SortedLabelled(matches)| ::
      SortedLabelled(matches)[i].term
  }

  /** The spans of the runs of three or more different terms, from hit `from` on. */
  function TermSpansFrom(matches: seq<seq<Span>>, from: nat): seq<Span>
    requires from <= |SortedHits(matches)|
    decreases |SortedHits(matches)| - from
  {
    var hits := SortedHits(matches);
    if from == |hits| then []
    else if |RunTerms(matches, from)| >= MIN_TERMS
      then [RunSpan(hits, from)] + TermSpansFrom(matches, RunEnd(hits, from))
      else TermSpansFrom(matches, RunEnd(hits, from))
  }

  /** A run has no more terms than hits. */
  lemma FewerTermsThanHits(matches: seq<seq<Span>>, a: nat)
    requires a < |SortedHits(matches)|
    ensures |RunTerms(matches, a)| <= RunEnd(SortedHits(matches), a) - a
  {
    SortedLabelledSpans(matches);
    var l, b := SortedLabelled(matches), RunEnd(SortedHits(matches), a);
    TermsSize(l, a, b);
    assert RunTerms(matches, a) == TermsIn(l, a, b);
  }

  function TermsIn(l: seq<Hit>, a: nat, b: nat): set<nat>
    requires a <= b <= |l|
  {
    set i | a <= i < b :: l[i].term
  }

  lemma {:induction false} TermsSize(l: seq<Hit>, a: nat, b: nat)
    requires a <= b <= |l|
    ensures |TermsIn(l, a, b)| <= b - a
    ensures (forall i, j :: a <= i < j < b ==> l[i].term != l[j].term) ==> |TermsIn(l, a, b)| == b - a
    decreases b - a
  {
    if a < b {
      TermsSize(l, a, b - 1);
      assert TermsIn(l, a, b) == TermsIn(l, a, b - 1) + {l[b - 1].term};
    } else {
      assert TermsIn(l, a, b) == {};
    }
  }

  ghost predicate EnoughTerms(matches: seq<seq<Span>>, from: nat)
    requires from <= |SortedHits(matches)|
  {
    forall a: nat :: RunFrom(matches, from, a) && RunEnd(SortedHits(matches), a) - a >= MIN_TERMS ==>
      |RunTerms(matches, a)| >= MIN_TERMS
  }

  predicate RunFrom(matches: seq<seq<Span>>, from: nat, a: nat) {
    from <= a < |SortedHits(matches)| && RunOf(SortedHits(matches), from, a) == a
  }

  /** For every question: the code's listings are those of the documented rule if and only if no
      run of three or more matches is carried by fewer than three terms. */
  lemma CountingMatchesIsCountingTerms(matches: seq<seq<Span>>)
    ensures SpansFrom(SortedHits(matches), 0) == TermSpansFrom(matches, 0) <==>
      forall a: nat :: IsListing(SortedHits(matches), a) ==> |RunTerms(matches, a)| >= MIN_TERMS
  {
    CompareFrom(matches, 0);
    if EnoughTerms(matches, 0) {
      forall a: nat | IsListing(SortedHits(matches), a) ensures |RunTerms(matches, a)| >= MIN_TERMS {
        assert RunFrom(matches, 0, a);
      }
    } else {
      var a: nat :|
        && RunFrom(matches, 0, a) && RunEnd(SortedHits(matches), a) - a >= MIN_TERMS
        && |RunTerms(matches, a)| < MIN_TERMS;
      assert IsListing(SortedHits(matches), a);
    }
  }

  lemma {:induction false} CompareFrom(matches: seq<seq<Span>>, from: nat)
    requires from <= |SortedHits(matches)|
    ensures SpansFrom(SortedHits(matches), from) == TermSpansFrom(matches, from) <==> EnoughTerms(matches, from)
    ensures |TermSpansFrom(matches, from)| <= |SpansFrom(SortedHits(matches), from)|
    ensures forall s :: s in TermSpansFrom(matches, from) ==> s in SpansFrom(SortedHits(matches), from)
    decreases |SortedHits(matches)| - from
  {
    var hits := SortedHits(matches);
    if from < |hits| {
      var next := RunEnd(hits, from);
      CompareFrom(matches, next);
      FewerTermsThanHits(matches, from);
      EnoughFrom(matches, from);
      CompareHead(RunSpan(hits, from), SpansFrom(hits, next), TermSpansFrom(matches, next),
        next - from >= MIN_TERMS, |RunTerms(matches, from)| >= MIN_TERMS);
    }
  }

  function HeadIf(span: Span, emit: bool, rest: seq<Span>): seq<Span> {
    if emit then [span] + rest else rest
  }

  lemma CompareHead(span: Span, spans: seq<Span>, termSpans: seq<Span>, manyHits: bool, manyTerms: bool)
    requires (manyTerms ==> manyHits) && |termSpans| <= |spans| && forall s :: s in termSpans ==> s in spans
    ensures var all, allTerms := HeadIf(span, manyHits, spans), HeadIf(span, manyTerms, termSpans);
      && (all == allTerms <==> spans == termSpans && (manyHits ==> manyTerms))
      && |allTerms| <= |all| && forall s :: s in allTerms ==> s in all
  {
    if manyHits && manyTerms && [span] + spans == [span] + termSpans {
      assert ([span] + spans)[1..] == spans && ([span] + termSpans)[1..] == termSpans;
    }
  }

  lemma EnoughFrom(matches: seq<seq<Span>>, from: nat)
    requires from < |SortedHits(matches)|
    ensures var hits := SortedHits(matches);
      EnoughTerms(matches, from) <==>
        && EnoughTerms(matches, RunEnd(hits, from))
        && (RunEnd(hits, from) - from >= MIN_TERMS ==> |RunTerms(matches, from)| >= MIN_TERMS)
  {
    var next := RunEnd(SortedHits(matches), from);
    assert RunFrom(matches, from, from);
    forall a: nat ensures RunFrom(matches, from, a) <==> a == from || RunFrom(matches, next, a) { }
  }

  /** The documented rule would emit no more listings, so counting matches can only cost credit. */
  lemma CountingMatchesOnlyLosesCredit(matches: seq<seq<Span>>)
    ensures Credited(matches, SpansFrom(SortedHits(matches), 0)) <= Credited(matches, TermSpansFrom(matches, 0))
  {
    CompareFrom(matches, 0);
    var spans, terms := SpansFrom(SortedHits(matches), 0), TermSpansFrom(matches, 0);
    forall s: Span | Inside(s, terms) ensures Inside(s, spans) {
      var i :| 0 <= i < |terms| && terms[i].start <= s.start && s.end <= terms[i].end;
      MemberInside(s, terms[i], spans);
    }
    forall t | t in Credited(matches, spans) ensures t in Credited(matches, terms) {
      var i :| 0 <= i < |matches[t]| && !Inside(matches[t][i], spans);
      assert !Inside(matches[t][i], terms);
    }
  }

  // ----- which credit is lost

  /** Hit a starts a run of three or more different terms. */
  ghost predicate IsTermListing(matches: seq<seq<Span>>, a: nat) {
    IsRunStart(SortedHits(matches), a) && |RunTerms(matches, a)| >= MIN_TERMS
  }

  predicate TermEmittedFrom(matches: seq<seq<Span>>, from: nat, a: nat, s: Span) {
    && RunFrom(matches, from, a) && |RunTerms(matches, a)| >= MIN_TERMS
    && RunSpan(SortedHits(matches), a) == s
  }

  /** The spans of the documented rule are exactly those of the runs of three or more terms. */
  lemma {:induction false} TermSpansAreListings(matches: seq<seq<Span>>, from: nat, s: Span)
    requires from <= |SortedHits(matches)|
    ensures s in TermSpansFrom(matches, from) <==> exists a: nat :: TermEmittedFrom(matches, from, a, s)
    decreases |SortedHits(matches)| - from
  {
    var hits := SortedHits(matches);
    if from < |hits| {
      var next := RunEnd(hits, from);
      TermSpansAreListings(matches, next, s);
      if s in TermSpansFrom(matches, next) {
        var a: nat :| TermEmittedFrom(matches, next, a, s);
        assert TermEmittedFrom(matches, from, a, s);
      }
      if |RunTerms(matches, from)| >= MIN_TERMS && RunSpan(hits, from) == s {
        assert TermEmittedFrom(matches, from, from, s);
      }
      forall a: nat | TermEmittedFrom(matches, from, a, s) ensures s in TermSpansFrom(matches, from) {
        if a >= next { assert TermEmittedFrom(matches, next, a, s); }
      }
    }
  }

  /** Hit k ends no later than the last hit of the run of three or more terms starting at a. */
  ghost predicate EndsWithinTerms(matches: seq<seq<Span>>, k: nat, a: nat)
    requires k < |SortedHits(matches)|
  {
    var hits := SortedHits(matches);
    IsTermListing(matches, a) && hits[k].end <= hits[RunEnd(hits, a) - 1].end
  }

  /** Exactly when a hit is swallowed under the documented rule. */
  lemma SwallowedByTermsExactly(matches: seq<seq<Span>>, k: nat)
    requires k < |SortedHits(matches)|
    ensures var hits := SortedHits(matches);
      Inside(hits[k], TermSpansFrom(matches, 0)) <==>
        exists a: nat :: a <= RunOf(hits, 0, k) && EndsWithinTerms(matches, k, a)
  {
    var hits, spans := SortedHits(matches), TermSpansFrom(matches, 0);
    SortedHitsFacts(matches);
    if Inside(hits[k], spans) {
      var i :| 0 <= i < |spans| && spans[i].start <= hits[k].start && hits[k].end <= spans[i].end;
      TermSpansAreListings(matches, 0, spans[i]);
      var a: nat :| TermEmittedFrom(matches, 0, a, spans[i]);
      LaterRunsStartLater(hits, k, a);
      assert EndsWithinTerms(matches, k, a);
    }
    if a: nat :| a <= RunOf(hits, 0, k) && EndsWithinTerms(matches, k, a) {
      OrderedStarts(hits, a, k);
      TermSpansAreListings(matches, 0, RunSpan(hits, a));
      assert TermEmittedFrom(matches, 0, a, RunSpan(hits, a));
      MemberInside(hits[k], RunSpan(hits, a), spans);
    }
  }

  /** A match that no run of three or more terms swallows. */
  ghost predicate EscapedTerms(matches: seq<seq<Span>>, k: nat) {
    && k < |SortedHits(matches)|
    && forall a: nat :: a <= RunOf(SortedHits(matches), 0, k) ==> !EndsWithinTerms(matches, k, a)
  }

  lemma CreditedByTermsExactly(matches: seq<seq<Span>>, t: nat)
    requires t < |matches|
    ensures t in Credited(matches, TermSpansFrom(matches, 0)) <==>
      exists k: nat :: EscapedTerms(matches, k) && SortedHits(matches)[k] in matches[t]
  {
    var hits, spans := SortedHits(matches), TermSpansFrom(matches, 0);
    SortedHitsFacts(matches);
    if AnyOutside(matches[t], spans) {
      var i :| 0 <= i < |matches[t]| && !Inside(matches[t][i], spans);
      assert matches[t][i] in hits;
      var k: nat :| k < |hits| && hits[k] == matches[t][i];
      SwallowedByTermsExactly(matches, k);
      assert EscapedTerms(matches, k);
    }
    if k: nat :| EscapedTerms(matches, k) && hits[k] in matches[t] {
      SwallowedByTermsExactly(matches, k);
      var i :| 0 <= i < |matches[t]| && matches[t][i] == hits[k];
    }
  }

  /** Exactly when counting matches costs a term the credit the documented rule would give it:
      listings of the code swallow all its matches, but some match is swallowed by no run of
      three or more terms. */
  lemma LosesCreditExactly(matches: seq<seq<Span>>, t: nat)
    requires t < |matches|
    ensures var hits := SortedHits(matches);
      t in Credited(matches, TermSpansFrom(matches, 0)) && t !in Credited(matches, SpansFrom(hits, 0)) <==>
        && (forall k: nat :: k < |hits| && hits[k] in matches[t] ==> !Escaped(hits, k))
        && (exists k: nat :: EscapedTerms(matches, k) && hits[k] in matches[t])
  {
    CreditedExactly(matches, t);
    CreditedByTermsExactly(matches, t);
  }

  // ----- what a caller can check beforehand

  predicate Apart(a: Span, b: Span) {
    a.start + WINDOW_CHARS < b.start || b.start + WINDOW_CHARS < a.start
  }

  /** No term matches twice within a window. */
  predicate NoCloseRepeats(matches: seq<seq<Span>>) {
    forall t, i, j :: 0 <= t < |matches| && 0 <= i < |matches[t]| && 0 <= j < |matches[t]| && i != j ==>
      Apart(matches[t][i], matches[t][j])
  }

  /** Where the matches of each term start more than 80 characters apart, every run names as many
      terms as it has matches, and the two rules agree. */
  lemma NoCloseRepeatsSuffices(matches: seq<seq<Span>>)
    requires forall t, i, j :: 0 <= t < |matches| && 0 <= i < j < |matches[t]| ==>
      var a, b := matches[t][i].start, matches[t][j].start; a - b > 80 || b - a > 80
    ensures forall a: nat :: a < |SortedHits(matches)| ==> |RunTerms(matches, a)| == RunEnd(SortedHits(matches), a) - a
    ensures SpansFrom(SortedHits(matches), 0) == TermSpansFrom(matches, 0)
  {
    assert NoCloseRepeats(matches);
    forall a: nat | a < |SortedHits(matches)| ensures |RunTerms(matches, a)| == RunEnd(SortedHits(matches), a) - a {
      AllTermsDiffer(matches, a);
    }
    CountingMatchesIsCountingTerms(matches);
  }

  lemma AllTermsDiffer(matches: seq<seq<Span>>, a: nat)
    requires NoCloseRepeats(matches) && a < |SortedHits(matches)|
    ensures |RunTerms(matches, a)| == RunEnd(SortedHits(matches), a) - a
  {
    var l, b := SortedLabelled(matches), RunEnd(SortedHits(matches), a);
    SortedLabelledSpans(matches);
    forall i, j | a <= i < j < b ensures l[i].term != l[j].term { TermsDiffer(matches, a, i, j); }
    TermsSize(l, a, b);
    assert RunTerms(matches, a) == TermsIn(l, a, b);
  }

  lemma TermsDiffer(matches: seq<seq<Span>>, a: nat, i: nat, j: nat)
    requires NoCloseRepeats(matches) && a <= i < j < |SortedHits(matches)| && j < RunEnd(SortedHits(matches), a)
    requires |SortedLabelled(matches)| == |SortedHits(matches)|
    ensures SortedLabelled(matches)[i].term != SortedLabelled(matches)[j].term
  {
    var l, hits := SortedLabelled(matches), SortedHits(matches);
    SortedLabelledFacts(matches);
    SortedLabelledSpans(matches);
    MapAt(l, SpanOf());
    SortedHitsFacts(matches);
    OrderedStarts(hits, a, i);
    OrderedStarts(hits, i, j);
    RunBounds(hits, a);
    assert l[i] in l && l[j] in l && l[i] != l[j];
    assert IsMatch(matches, 0, l[i]) && IsMatch(matches, 0, l[j]);
    assert l[i].span == hits[i] && l[j].span == hits[j] && !Apart(hits[i], hits[j]);
  }
}
