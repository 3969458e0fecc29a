/** What every step of a repair plan obeys, in the fields of the draft: which term it targets, which
    clause it takes and what the two counters have become (`deficit_terms`, `needs_scenario` and the
    replacement loop of `main` in scripts/draft_golden_questions_casco.py). */
module RepairTargets {
  import opened Ordering
  import opened Outcomes
  import opened SlotPicking
  import opened RepairPlan

  // ----- the counters

  /** The steps that count a term once more: those that target it, and free picks that hit it. */
  function Mentioning(rs: seq<Replacement>, t: Term): set<int> {
    set i | 0 <= i < |rs| && Mentions(rs[i], t)
  }

  predicate Mentions(r: Replacement, t: Term) {
    r.target == Some(t) || (r.target == None && t in r.candidate.vocabHits)
  }

  function Targeting(rs: seq<Replacement>, t: Term): set<int> {
    set i | 0 <= i < |rs| && rs[i].target == Some(t)
  }

  function ValueAt(counts: map<Term, int>, t: Term): int {
    if t in counts then counts[t] else 0
  }

  lemma MentioningSnoc(rs: seq<Replacement>, r: Replacement, t: Term)
    ensures |Mentioning(rs + [r], t)| == |Mentioning(rs, t)|
      + (if Mentions(r, t) then 1 else 0)
  {
    var more := if Mentions(r, t) then {|rs|} else {};
    assert Mentioning(rs + [r], t) == Mentioning(rs, t) + more;
  }

  lemma TargetingSnoc(rs: seq<Replacement>, r: Replacement, t: Term)
    ensures |Targeting(rs + [r], t)| == |Targeting(rs, t)| + (if r.target == Some(t) then 1 else 0)
  {
    var more := if r.target == Some(t) then {|rs|} else {};
    assert Targeting(rs + [r], t) == Targeting(rs, t) + more;
  }

  lemma MentionStep(counts: map<Term, int>, r: Replacement, t: Term)
    ensures ValueAt(VocabStep(counts, r), t) == ValueAt(counts, t) + (if Mentions(r, t) then 1 else 0)
  {
  }

  lemma ScenarioCountStep(counts: map<Term, int>, r: Replacement, t: Term)
    ensures ValueAt(ScenarioStep(counts, r), t)
      == ValueAt(counts, t) + (if r.target == Some(t) && ValueAt(counts, t) < 3 then 1 else 0)
  {
  }

  lemma {:induction false} MentionsAfter(counts: map<Term, int>, rs: seq<Replacement>, t: Term)
    ensures ValueAt(VocabAfter(counts, rs), t) == ValueAt(counts, t) + |Mentioning(rs, t)|
  {
    if rs != [] {
      var front, last := rs[..|rs| - 1], rs[|rs| - 1];
      MentionsAfter(counts, front, t);
      SplitLast(rs);
      MentioningSnoc(front, last, t);
      MentionStep(VocabAfter(counts, front), last, t);
    }
  }

  /** A targeted term's scenarios are counted up to three. */
  lemma {:induction false} ScenariosAfterSteps(counts: map<Term, int>, rs: seq<Replacement>, t: Term)
    ensures ValueAt(ScenariosAfter(counts, rs), t)
      == Max(ValueAt(counts, t), Min(3, ValueAt(counts, t) + |Targeting(rs, t)|))
  {
    if rs != [] {
      var front, last := rs[..|rs| - 1], rs[|rs| - 1];
      ScenariosAfterSteps(counts, front, t);
      SplitLast(rs);
      TargetingSnoc(front, last, t);
      ScenarioCountStep(ScenariosAfter(counts, front), last, t);
    }
  }

  // ----- sorting the vocabulary by a count

  /** The place of a term in the vocabulary. */
  function Place(t: Term): nat {
    match t
    case Colisao => 0
    case RouboFurto => 1
    case Incendio => 2
    case PerdaTotal => 3
    case Franquia => 4
    case RcFacultativa => 5
    case AmbitoGeografico => 6
  }

  predicate Earlier(a: Term, b: Term) { Place(a) < Place(b) }

  lemma VocabularyInPlace()
    ensures forall i, j :: 0 <= i < j < |VOCABULARY| ==> Earlier(VOCABULARY[i], VOCABULARY[j])
    ensures forall t: Term :: t in VOCABULARY
  {
    assert forall i :: 0 <= i < |VOCABULARY| ==> Place(VOCABULARY[i]) == i;
    forall t: Term ensures t in VOCABULARY { assert VOCABULARY[Place(t)] == t; }
  }

  /** t comes before u: a lower count, or the same count and an earlier place. */
  predicate Sooner(counts: map<Term, int>, t: Term, u: Term) {
    ValueAt(counts, t) < ValueAt(counts, u) || (ValueAt(counts, t) == ValueAt(counts, u) && Place(t) <= Place(u))
  }

  ghost predicate InOrder(counts: map<Term, int>, terms: seq<Term>) {
    forall i, j :: 0 <= i < j < |terms| ==> Sooner(counts, terms[i], terms[j])
  }

  lemma SortedByCount(counts: map<Term, int>, keep: Term -> bool, le: (Term, Term) -> bool)
    requires forall a, b :: le(a, b) <==> ValueAt(counts, a) <= ValueAt(counts, b)
    ensures var terms := SortBy(Filter(VOCABULARY, keep), le);
      InOrder(counts, terms) && forall t :: t in terms <==> keep(t)
  {
    VocabularyInPlace();
    FilterElements(VOCABULARY, keep);
    FilterKeepsOrder(VOCABULARY, keep, Earlier);
    SortByElements(Filter(VOCABULARY, keep), le);
    SortedInOrder(counts, Filter(VOCABULARY, keep), le);
  }

  lemma SortedInOrder(counts: map<Term, int>, kept: seq<Term>, le: (Term, Term) -> bool)
    requires forall a, b :: le(a, b) <==> ValueAt(counts, a) <= ValueAt(counts, b)
    requires forall i, j :: 0 <= i < j < |kept| ==> Earlier(kept[i], kept[j])
    ensures InOrder(counts, SortBy(kept, le))
  {
    ByCountIsTotal(counts, le);
    SortByStable(kept, le, Earlier);
    var terms := SortBy(kept, le);
    forall i, j | 0 <= i < j < |terms| ensures Sooner(counts, terms[i], terms[j]) {
      KeptIsSooner(counts, le, terms[i], terms[j]);
    }
  }

  lemma KeptIsSooner(counts: map<Term, int>, le: (Term, Term) -> bool, a: Term, b: Term)
    requires forall x, y :: le(x, y) <==> ValueAt(counts, x) <= ValueAt(counts, y)
    requires Keeps(le, Earlier, a, b)
    ensures Sooner(counts, a, b)
  {
  }

  lemma ByCountIsTotal(counts: map<Term, int>, le: (Term, Term) -> bool)
    requires forall x, y :: le(x, y) <==> ValueAt(counts, x) <= ValueAt(counts, y)
    ensures TotalPreorder(le)
  {
  }

  lemma ScenarioShortTerms(scenarios: map<Term, int>)
    ensures InOrder(scenarios, ScenarioShort(scenarios))
    ensures forall t :: t in ScenarioShort(scenarios) <==> ValueAt(scenarios, t) < 2
  {
    SortedByCount(scenarios, (t: Term) => Count(scenarios, t) < MIN_VOCAB_SCENARIOS_PER_TERM,
      (a: Term, b: Term) => Count(scenarios, a) <= Count(scenarios, b));
  }

  lemma MentionShortTerms(vocab: map<Term, int>, short: seq<Term>)
    ensures var terms := SortBy(
        Filter(VOCABULARY, (t: Term) => Count(vocab, t) < MIN_VOCAB_QUESTIONS_PER_TERM && t !in short),
        (a: Term, b: Term) => Count(vocab, a) <= Count(vocab, b));
      InOrder(vocab, terms) && forall t :: t in terms <==> ValueAt(vocab, t) < 3 && t !in short
  {
    SortedByCount(vocab, (t: Term) => Count(vocab, t) < MIN_VOCAB_QUESTIONS_PER_TERM && t !in short,
      (a: Term, b: Term) => Count(vocab, a) <= Count(vocab, b));
  }

  // ----- what a step targets

  /** The clause is free at this point of the plan: selectable, and used neither by a surviving row
      nor by an earlier step. */
  predicate IsOpen(draft: Draft, prior: seq<Replacement>, c: Candidate) {
    && (c.scope == Casco || c.scope == Assistance) && c.exclusionReasons == []
    && c.clauseId !in draft.usedIds && forall p :: p in prior ==> p.candidate.clauseId != c.clauseId
  }

  /** A free clause of the document carries the term in its title. */
  predicate Servable(draft: Draft, prior: seq<Replacement>, doc: DocumentId, t: Term) {
    doc in draft.candidates && exists c :: c in draft.candidates[doc] && IsOpen(draft, prior, c) && t in c.titleTerms
  }

  function ScenariosNow(draft: Draft, prior: seq<Replacement>): map<Term, int> {
    ScenariosAfter(draft.scenarios, prior)
  }

  function MentionsNow(draft: Draft, prior: seq<Replacement>): map<Term, int> {
    VocabAfter(draft.vocab, prior)
  }

  lemma OpenClauses(draft: Draft, prior: seq<Replacement>, doc: DocumentId, c: Candidate)
    ensures c in draft.Pool(doc, prior) <==>
      doc in draft.candidates && c in draft.candidates[doc] && IsOpen(draft, prior, c)
  {
    EligibleExactly(draft.Candidates(doc), draft.usedIds + ReplacementIds(prior), c);
  }

  lemma ServableIsTitled(draft: Draft, prior: seq<Replacement>, doc: DocumentId, t: Term)
    ensures Titled(draft.Pool(doc, prior), t) != [] <==> Servable(draft, prior, doc, t)
  {
    var titled := Titled(draft.Pool(doc, prior), t);
    FilterElements(draft.Pool(doc, prior), HasTitle(t));
    FirstIn(titled);
    if titled != [] { OpenClauses(draft, prior, doc, titled[0]); }
    if Servable(draft, prior, doc, t) {
      var c :| c in draft.candidates[doc] && IsOpen(draft, prior, c) && t in c.titleTerms;
      OpenClauses(draft, prior, doc, c);
      assert c in titled;
    }
  }

  /** The first term of a list that the pool can serve. */
  lemma {:induction false} FirstTitledAt(terms: seq<Term>, pool: seq<Candidate>)
    ensures FirstTitled(terms, pool).None? <==> forall t :: t in terms ==> Titled(pool, t) == []
    ensures FirstTitled(terms, pool).Some? ==> exists k :: FirstServed(terms, pool, k)
  {
    if terms != [] {
      FirstTitledAt(terms[1..], pool);
      assert terms == [terms[0]] + terms[1..];
      if Titled(pool, terms[0]) != [] {
        assert FirstServed(terms, pool, 0);
      } else if k :| FirstServed(terms[1..], pool, k) {
        assert FirstServed(terms, pool, k + 1);
      }
    }
  }

  predicate FirstServed(terms: seq<Term>, pool: seq<Candidate>, k: int) {
    && 0 <= k < |terms| && FirstTitled(terms, pool) == Some(terms[k]) && Titled(pool, terms[k]) != []
    && forall j :: 0 <= j < k ==> Titled(pool, terms[j]) == []
  }

  /** Term t is targeted before term u: scenario shortfalls first, then mention shortfalls, each
      from the lowest count up and in vocabulary order among equals. */
  predicate Targeted(scenarios: map<Term, int>, mentions: map<Term, int>, t: Term, u: Term) {
    if ValueAt(scenarios, u) < 2
    then ValueAt(scenarios, t) < 2 && Sooner(scenarios, t, u)
    else ValueAt(scenarios, t) < 2 || Sooner(mentions, t, u)
  }

  ghost predicate AllTargeted(scenarios: map<Term, int>, mentions: map<Term, int>, terms: seq<Term>) {
    forall i, j :: 0 <= i < j < |terms| ==> Targeted(scenarios, mentions, terms[i], terms[j])
  }

  lemma DeficitOrder(mentions: map<Term, int>, scenarios: map<Term, int>)
    ensures var terms := DeficitTerms(mentions, scenarios);
      && AllTargeted(scenarios, mentions, terms)
      && forall t :: t in terms <==> ValueAt(scenarios, t) < 2 || ValueAt(mentions, t) < 3
  {
    var short := ScenarioShort(scenarios);
    var rest := SortBy(
      Filter(VOCABULARY, (t: Term) => Count(mentions, t) < MIN_VOCAB_QUESTIONS_PER_TERM && t !in short),
      (a: Term, b: Term) => Count(mentions, a) <= Count(mentions, b));
    ScenarioShortTerms(scenarios);
    MentionShortTerms(mentions, short);
    JoinOrdered(scenarios, mentions, short, rest);
  }

  lemma JoinOrdered(scenarios: map<Term, int>, mentions: map<Term, int>, short: seq<Term>, rest: seq<Term>)
    requires InOrder(scenarios, short) && InOrder(mentions, rest)
    requires forall t :: t in short ==> ValueAt(scenarios, t) < 2
    requires forall t :: t in rest ==> ValueAt(scenarios, t) >= 2
    ensures AllTargeted(scenarios, mentions, short + rest)
  {
    var terms := short + rest;
    forall i, j | 0 <= i < j < |terms| ensures Targeted(scenarios, mentions, terms[i], terms[j]) {
      assert i < |short| ==> terms[i] in short;
      assert i >= |short| ==> terms[i] == rest[i - |short|] && terms[i] in rest;
      assert j < |short| ==> terms[j] in short;
      assert j >= |short| ==> terms[j] == rest[j - |short|] && terms[j] in rest;
    }
  }

  /** A step targets a term exactly when a free clause is titled with a term short of two scenarios
      or three mentions; then no other such term comes before the target. */
  lemma StepTargets(draft: Draft, prior: seq<Replacement>, r: Replacement, u: Term)
    requires PlanStep(draft, prior, r) && Servable(draft, prior, r.documentId, u)
    requires ValueAt(ScenariosNow(draft, prior), u) < 2 || ValueAt(MentionsNow(draft, prior), u) < 3
    ensures r.target.Some?
    ensures Targeted(ScenariosNow(draft, prior), MentionsNow(draft, prior), r.target.value, u)
  {
    var scenarios, mentions := ScenariosNow(draft, prior), MentionsNow(draft, prior);
    var terms, pool := DeficitTerms(mentions, scenarios), draft.Pool(r.documentId, prior);
    DeficitOrder(mentions, scenarios);
    ServableIsTitled(draft, prior, r.documentId, u);
    FirstBeforeOthers(scenarios, mentions, terms, pool, u);
  }

  lemma FirstBeforeOthers(scenarios: map<Term, int>, mentions: map<Term, int>, terms: seq<Term>,
                          pool: seq<Candidate>, u: Term)
    requires AllTargeted(scenarios, mentions, terms) && u in terms && Titled(pool, u) != []
    ensures FirstTitled(terms, pool).Some? && Targeted(scenarios, mentions, FirstTitled(terms, pool).value, u)
  {
    FirstTitledAt(terms, pool);
    var k :| FirstServed(terms, pool, k);
    var j :| 0 <= j < |terms| && terms[j] == u;
    if j == k { assert Sooner(scenarios, u, u) && Sooner(mentions, u, u); }
  }

  /** The target is short and in the title of the clause taken, which has the least id of the free
      clauses so titled. */
  lemma StepServes(draft: Draft, prior: seq<Replacement>, r: Replacement)
    requires PlanStep(draft, prior, r) && r.target.Some?
    ensures var t := r.target.value;
      && (ValueAt(ScenariosNow(draft, prior), t) < 2 || ValueAt(MentionsNow(draft, prior), t) < 3)
      && r.documentId in draft.candidates && r.candidate in draft.candidates[r.documentId]
      && IsOpen(draft, prior, r.candidate) && t in r.candidate.titleTerms
      && forall c :: c in draft.candidates[r.documentId] && IsOpen(draft, prior, c) && t in c.titleTerms ==>
           StringLe(r.candidate.clauseId, c.clauseId)
  {
    var scenarios, mentions := ScenariosNow(draft, prior), MentionsNow(draft, prior);
    var terms, pool := DeficitTerms(mentions, scenarios), draft.Pool(r.documentId, prior);
    DeficitOrder(mentions, scenarios);
    FirstTitledAt(terms, pool);
    var k :| FirstServed(terms, pool, k);
    assert terms[k] in terms;
    LeastTitled(draft, prior, r);
  }

  lemma LeastTitled(draft: Draft, prior: seq<Replacement>, r: Replacement)
    requires r.target.Some? && LeastId(Titled(draft.Pool(r.documentId, prior), r.target.value), r.candidate)
    ensures var t := r.target.value;
      && r.documentId in draft.candidates && r.candidate in draft.candidates[r.documentId]
      && IsOpen(draft, prior, r.candidate) && t in r.candidate.titleTerms
      && forall c :: c in draft.candidates[r.documentId] && IsOpen(draft, prior, c) && t in c.titleTerms ==>
           StringLe(r.candidate.clauseId, c.clauseId)
  {
    var t, pool := r.target.value, draft.Pool(r.documentId, prior);
    var titled := Titled(pool, t);
    FilterElements(pool, HasTitle(t));
    var i :| 0 <= i < |titled| && LeastIdAt(titled, i) && titled[i] == r.candidate;
    assert r.candidate in titled;
    OpenClauses(draft, prior, r.documentId, r.candidate);
    forall c | c in draft.candidates[r.documentId] && IsOpen(draft, prior, c) && t in c.titleTerms
      ensures StringLe(r.candidate.clauseId, c.clauseId)
    {
      OpenClauses(draft, prior, r.documentId, c);
      assert c in titled;
    }
  }

  /** The term is short of two scenarios or three mentions and a free clause can serve it. */
  predicate Wanted(draft: Draft, prior: seq<Replacement>, doc: DocumentId, t: Term) {
    && Servable(draft, prior, doc, t)
    && (ValueAt(ScenariosNow(draft, prior), t) < 2 || ValueAt(MentionsNow(draft, prior), t) < 3)
  }

  /** A term is the target of a step if and only if it is wanted and before all wanted terms: under two
      scenarios, only such terms with fewer, or as many and an earlier place, come before it; with two
      or more, any term under two, and among the others those with fewer mentions, or as many and an
      earlier place. */
  lemma TargetExactly(draft: Draft, prior: seq<Replacement>, r: Replacement, t: Term)
    requires PlanStep(draft, prior, r)
    ensures r.target == Some(t) <==>
      && Wanted(draft, prior, r.documentId, t)
      && forall u :: Wanted(draft, prior, r.documentId, u) ==>
           Targeted(ScenariosNow(draft, prior), MentionsNow(draft, prior), t, u)
  {
    var scenarios, mentions := ScenariosNow(draft, prior), MentionsNow(draft, prior);
    forall u | Wanted(draft, prior, r.documentId, u)
      ensures r.target.Some? && Targeted(scenarios, mentions, r.target.value, u)
    {
      StepTargets(draft, prior, r, u);
    }
    if r.target.Some? { StepServes(draft, prior, r); }
    if Wanted(draft, prior, r.documentId, t) && r.target.Some?
      && Targeted(scenarios, mentions, t, r.target.value) && Targeted(scenarios, mentions, r.target.value, t)
    {
      SamePlace(t, r.target.value);
    }
  }

  lemma SamePlace(t: Term, u: Term)
    ensures Place(t) == Place(u) ==> t == u
  {
  }

  // ----- how many slots a document gets

  /** The steps of the plan that serve the document. */
  function Serving(rs: seq<Replacement>, doc: DocumentId): set<int> {
    set i | 0 <= i < |rs| && rs[i].documentId == doc
  }

  lemma ServingSnoc(rs: seq<Replacement>, r: Replacement, doc: DocumentId)
    ensures |Serving(rs + [r], doc)| == |Serving(rs, doc)| + (if r.documentId == doc then 1 else 0)
  {
    var more := if r.documentId == doc then {|rs|} else {};
    assert Serving(rs + [r], doc) == Serving(rs, doc) + more;
  }

  lemma {:induction false} CountIsServing(rs: seq<Replacement>, doc: DocumentId)
    ensures CountFor(rs, doc) == |Serving(rs, doc)|
  {
    if rs != [] {
      var front, last := rs[..|rs| - 1], rs[|rs| - 1];
      CountIsServing(front, doc);
      ServingSnoc(front, last, doc);
      SplitLast(rs);
    }
  }

  /** Rows the document keeps after review. */
  function Kept(draft: Draft, doc: DocumentId): nat {
    if doc in draft.surviving then draft.surviving[doc] else 0
  }

  /** The ids of the document's clauses that are free before the plan. */
  function OpenIds(draft: Draft, doc: DocumentId): set<ClauseId> {
    if doc in draft.candidates
    then set c | c in draft.candidates[doc] && IsOpen(draft, [], c) :: c.clauseId
    else {}
  }

  lemma OpenIdsAreFree(draft: Draft, doc: DocumentId)
    ensures OpenIds(draft, doc) == Ids(draft.Pool(doc, []))
  {
    forall c ensures c in draft.Pool(doc, []) <==>
      doc in draft.candidates && c in draft.candidates[doc] && IsOpen(draft, [], c)
    {
      OpenClauses(draft, [], doc, c);
    }
  }

  /** A document is brought up to five rows while it has free clauses, and never above. */
  lemma DocumentIsBroughtToFive(draft: Draft, documents: seq<DocumentId>, rs: seq<Replacement>, doc: DocumentId)
    requires Plan(draft, documents, rs) && doc in documents && ClausesByDocument(draft)
    ensures Kept(draft, doc) + |Serving(rs, doc)|
      == Max(Kept(draft, doc), Min(5, Kept(draft, doc) + |OpenIds(draft, doc)|))
  {
    PlanFillsEverySlot(draft, documents, rs, doc);
    OpenIdsAreFree(draft, doc);
    CountIsServing(rs, doc);
  }
}
