/** Filling the freed question slots of a reviewed draft
    (the replacement and row-id sections of `main` in
    scripts/draft_golden_questions_casco.py). */
module RepairPlan {
  import opened Ordering
  import opened Outcomes
  import opened SlotPicking
  import opened RowIds

  const MAX_QUESTIONS_PER_DOC := 5
  const MIN_VOCAB_QUESTIONS_PER_TERM := 3
  const MIN_VOCAB_SCENARIOS_PER_TERM := 2

  type DocumentId = string

  datatype Replacement = Replacement(documentId: DocumentId, candidate: Candidate, target: Option<Term>)

  // ----- which term a slot should serve

  function ScenarioShort(scenarios: map<Term, int>): seq<Term> {
    SortBy(Filter(VOCABULARY, (t: Term) => Count(scenarios, t) < MIN_VOCAB_SCENARIOS_PER_TERM),
      (a: Term, b: Term) => Count(scenarios, a) <= Count(scenarios, b))
  }

  /** Terms below a floor, scenario shortfalls first, the scarcest first within each group. */
  function DeficitTerms(vocab: map<Term, int>, scenarios: map<Term, int>): seq<Term> {
    var short := ScenarioShort(scenarios);
    short + SortBy(
      Filter(VOCABULARY, (t: Term) => Count(vocab, t) < MIN_VOCAB_QUESTIONS_PER_TERM && t !in short),
      (a: Term, b: Term) => Count(vocab, a) <= Count(vocab, b))
  }

  function HasTitle(term: Term): Candidate -> bool { (c: Candidate) => term in c.titleTerms }

  function OtherThan(id: ClauseId): Candidate -> bool { (c: Candidate) => c.clauseId != id }

  function Titled(pool: seq<Candidate>, term: Term): seq<Candidate> {
    Filter(pool, HasTitle(term))
  }

  function FirstTitled(terms: seq<Term>, pool: seq<Candidate>): Option<Term> {
    if terms == [] then None
    else if Titled(pool, terms[0]) != [] then Some(terms[0])
    else FirstTitled(terms[1..], pool)
  }

  function NeedsScenario(scenarios: map<Term, int>, term: Term): bool {
    Count(scenarios, term) < MIN_VOCAB_SCENARIOS_PER_TERM + 1
  }

  // ----- counts and ids after a list of replacements

  function ReplacementIds(rs: seq<Replacement>): set<ClauseId> {
    set r | r in rs :: r.candidate.clauseId
  }

  function VocabAfter(vocab: map<Term, int>, rs: seq<Replacement>): map<Term, int> {
    if rs == [] then vocab
    else VocabStep(VocabAfter(vocab, rs[..|rs| - 1]), rs[|rs| - 1])
  }

  function VocabStep(vocab: map<Term, int>, r: Replacement): map<Term, int> {
    match r.target
    case Some(term) => AddHits(vocab, {term})
    case None => AddHits(vocab, r.candidate.vocabHits)
  }

  function ScenariosAfter(scenarios: map<Term, int>, rs: seq<Replacement>): map<Term, int> {
    if rs == [] then scenarios
    else ScenarioStep(ScenariosAfter(scenarios, rs[..|rs| - 1]), rs[|rs| - 1])
  }

  function ScenarioStep(scenarios: map<Term, int>, r: Replacement): map<Term, int> {
    if r.target.Some? && NeedsScenario(scenarios, r.target.value) then AddHits(scenarios, {r.target.value})
    else scenarios
  }

  // ----- what a plan is

  /** The reviewed draft a plan starts from. */
  datatype Draft = Draft(
    candidates: map<DocumentId, seq<Candidate>>,
    surviving: map<DocumentId, nat>,
    usedIds: set<ClauseId>,
    vocab: map<Term, int>,
    scenarios: map<Term, int>,
    basisDocuments: set<DocumentId>)
  {
    function Surviving(doc: DocumentId): nat {
      if doc in surviving then surviving[doc] else 0
    }

    function Candidates(doc: DocumentId): seq<Candidate> {
      if doc in candidates then candidates[doc] else []
    }

    /** Slots the survivors leave open. */
    function Freed(doc: DocumentId): nat {
      if Surviving(doc) < MAX_QUESTIONS_PER_DOC then MAX_QUESTIONS_PER_DOC - Surviving(doc) else 0
    }

    /** Clauses of the document still free after `prior` replacements. */
    function Pool(doc: DocumentId, prior: seq<Replacement>): seq<Candidate> {
      Eligible(Candidates(doc), usedIds + ReplacementIds(prior))
    }
  }

  ghost predicate LeastId(xs: seq<Candidate>, c: Candidate) {
    exists i :: 0 <= i < |xs| && LeastIdAt(xs, i) && xs[i] == c
  }

  ghost predicate LeastIdAt(xs: seq<Candidate>, i: nat)
    requires i < |xs|
  {
    && (forall j :: 0 <= j < |xs| ==> StringLe(xs[i].clauseId, xs[j].clauseId))
    && (forall j :: 0 <= j < i ==> xs[j].clauseId != xs[i].clauseId)
  }

  /** The clause a slot gets: the least-id clause titled with the first servable deficit
      term, or failing that the one `pick_slots` selects. */
  ghost predicate PlanStep(draft: Draft, prior: seq<Replacement>, r: Replacement) {
    var pool := draft.Pool(r.documentId, prior);
    var vocab, scenarios := VocabAfter(draft.vocab, prior), ScenariosAfter(draft.scenarios, prior);
    && r.target == FirstTitled(DeficitTerms(vocab, scenarios), pool)
    && match r.target
       case Some(term) => LeastId(Titled(pool, term), r.candidate)
       case None => Selection(pool, vocab, r.documentId in draft.basisDocuments, 1, [r.candidate])
  }

  function CountFor(rs: seq<Replacement>, doc: DocumentId): nat {
    if rs == [] then 0
    else CountFor(rs[..|rs| - 1], doc) + (if rs[|rs| - 1].documentId == doc then 1 else 0)
  }

  /** Every replacement is the right step after the ones before it. */
  ghost predicate Steps(draft: Draft, rs: seq<Replacement>) {
    rs == [] || (Steps(draft, rs[..|rs| - 1]) && PlanStep(draft, rs[..|rs| - 1], rs[|rs| - 1]))
  }

  /** The slots of a document are filled, or its pool ran dry. */
  ghost predicate Filled(draft: Draft, rs: seq<Replacement>, doc: DocumentId) {
    || CountFor(rs, doc) == draft.Freed(doc)
    || (CountFor(rs, doc) < draft.Freed(doc) && draft.Pool(doc, rs) == [])
  }

  ghost predicate Plan(draft: Draft, documents: seq<DocumentId>, rs: seq<Replacement>) {
    Steps(draft, rs) && Covers(draft, documents, rs) && Served(draft, documents, rs)
  }

  /** The documents are served one after the other, each filled before the next begins. */
  ghost predicate Served(draft: Draft, documents: seq<DocumentId>, rs: seq<Replacement>) {
    if documents == [] then rs == [] else exists k: nat :: ServedFrom(draft, documents, rs, k)
  }

  /** The last document's replacements are those from place k on. */
  ghost predicate ServedFrom(draft: Draft, documents: seq<DocumentId>, rs: seq<Replacement>, k: nat)
    requires documents != []
  {
    var front, last := documents[..|documents| - 1], documents[|documents| - 1];
    k <= |rs| && Served(draft, front, rs[..k]) && Extends(rs[..k], rs, last) && Filled(draft, rs, last)
  }

  /** `rs` adds replacements of one document to `given`. */
  ghost predicate Extends(given: seq<Replacement>, rs: seq<Replacement>, doc: DocumentId) {
    given <= rs && forall i :: |given| <= i < |rs| ==> rs[i].documentId == doc
  }

  ghost predicate Covers(draft: Draft, documents: seq<DocumentId>, rs: seq<Replacement>) {
    && (forall r :: r in rs ==> r.documentId in documents)
    && (forall doc :: doc in documents ==> Filled(draft, rs, doc))
  }

  // ----- the planning loops

  method MinById(xs: seq<Candidate>) returns (least: Candidate)
    requires xs != []
    ensures LeastId(xs, least)
  {
    var best := 0;
    StringLeTotal(xs[0].clauseId, xs[0].clauseId);
    for i := 1 to |xs|
      invariant 0 <= best < i
      invariant forall j :: 0 <= j < i ==> StringLe(xs[best].clauseId, xs[j].clauseId)
      invariant forall j :: 0 <= j < best ==> xs[j].clauseId != xs[best].clauseId
    {
      StringLeTotal(xs[i].clauseId, xs[best].clauseId);
      StringLeTotal(xs[i].clauseId, xs[i].clauseId);
      if !StringLe(xs[best].clauseId, xs[i].clauseId) {
        forall j | 0 <= j < i ensures StringLe(xs[i].clauseId, xs[j].clauseId) {
          StringLeTransitive(xs[i].clauseId, xs[best].clauseId, xs[j].clauseId);
        }
        best := i;
      }
    }
    assert LeastIdAt(xs, best);
    least := xs[best];
  }

  /** The counters the loops carry, after the replacements planned so far. */
  ghost predicate Tracks(draft: Draft, rs: seq<Replacement>, vocab: map<Term, int>, scenarios: map<Term, int>) {
    vocab == VocabAfter(draft.vocab, rs) && scenarios == ScenariosAfter(draft.scenarios, rs)
  }

  function Bump(counts: map<Term, int>, term: Term): map<Term, int> {
    counts[term := Count(counts, term) + 1]
  }

  /** A hard target: the least-id clause whose title carries the term. */
  method TargetedSlot(pool: seq<Candidate>, running: RunningCounts, scenarios: map<Term, int>, term: Term)
    returns (chosen: Candidate, scenarios': map<Term, int>)
    requires Titled(pool, term) != []
    modifies running
    ensures LeastId(Titled(pool, term), chosen)
    ensures running.counts == Bump(old(running.counts), term)
    ensures scenarios' == if NeedsScenario(scenarios, term) then Bump(scenarios, term) else scenarios
  {
    chosen := MinById(Titled(pool, term));
    running.counts := running.counts[term := Count(running.counts, term) + 1];
    scenarios' := scenarios;
    if NeedsScenario(scenarios, term) {
      scenarios' := scenarios[term := Count(scenarios, term) + 1];
    }
  }

  lemma TracksTarget(draft: Draft, prior: seq<Replacement>, vocab: map<Term, int>, scenarios: map<Term, int>,
                     r: Replacement, term: Term)
    requires Tracks(draft, prior, vocab, scenarios) && r.target == Some(term)
    ensures Tracks(draft, prior + [r], Bump(vocab, term),
                   if NeedsScenario(scenarios, term) then Bump(scenarios, term) else scenarios)
  {
    AddOne(vocab, term);
    AddOne(scenarios, term);
    AfterSnoc(draft, prior, r);
  }

  lemma AddOne(counts: map<Term, int>, term: Term)
    ensures AddHits(counts, {term}) == Bump(counts, term)
  {
  }

  /** No servable deficit term: the clause `pick_slots` would select, if the pool has any. */
  method PickedSlot(draft: Draft, doc: DocumentId, pool: seq<Candidate>, running: RunningCounts,
                    scenarios: map<Term, int>, ghost prior: seq<Replacement>)
    returns (r: Option<Replacement>)
    requires pool == draft.Pool(doc, prior) && Tracks(draft, prior, running.counts, scenarios)
    requires FirstTitled(DeficitTerms(running.counts, scenarios), pool).None?
    modifies running
    ensures r.None? <==> pool == []
    ensures r.None? ==> Tracks(draft, prior, running.counts, scenarios)
    ensures r.Some? ==> r.value.documentId == doc && PlanStep(draft, prior, r.value)
    ensures r.Some? ==> Tracks(draft, prior + [r.value], running.counts, scenarios)
  {
    var picked := PickSlots(pool, running, doc in draft.basisDocuments, 1, {});
    PoolIsEligible(draft, doc, prior);
    SelectionSize(pool, old(running.counts), doc in draft.basisDocuments, 1, picked);
    OneIdAtLeast(pool);
    if picked == [] {
      r := None;
    } else {
      r := Some(Replacement(doc, picked[0], None));
      PickIsStep(draft, prior, old(running.counts), scenarios, doc, picked);
      TracksPick(draft, prior, old(running.counts), scenarios, doc, picked);
    }
  }

  lemma PickIsStep(draft: Draft, prior: seq<Replacement>, vocab: map<Term, int>, scenarios: map<Term, int>,
                   doc: DocumentId, picked: seq<Candidate>)
    requires |picked| == 1 && Tracks(draft, prior, vocab, scenarios)
    requires FirstTitled(DeficitTerms(vocab, scenarios), draft.Pool(doc, prior)).None?
    requires Selection(draft.Pool(doc, prior), vocab, doc in draft.basisDocuments, 1, picked)
    ensures PlanStep(draft, prior, Replacement(doc, picked[0], None))
  {
    assert picked == [picked[0]];
  }

  lemma TracksPick(draft: Draft, prior: seq<Replacement>, vocab: map<Term, int>, scenarios: map<Term, int>,
                   doc: DocumentId, picked: seq<Candidate>)
    requires |picked| == 1 && Tracks(draft, prior, vocab, scenarios)
    ensures Tracks(draft, prior + [Replacement(doc, picked[0], None)], Tally(vocab, picked), scenarios)
  {
    AfterSnoc(draft, prior, Replacement(doc, picked[0], None));
    SingleTally(vocab, picked[0]);
    assert picked == [picked[0]];
  }

  /** One slot of one document; None when the pool offers nothing. */
  method FillSlot(draft: Draft, doc: DocumentId, pool: seq<Candidate>, running: RunningCounts,
                  scenarios: map<Term, int>, ghost prior: seq<Replacement>)
    returns (r: Option<Replacement>, scenarios': map<Term, int>)
    requires pool == draft.Pool(doc, prior) && Tracks(draft, prior, running.counts, scenarios)
    modifies running
    ensures r.None? <==> pool == []
    ensures r.None? ==> Tracks(draft, prior, running.counts, scenarios')
    ensures r.Some? ==> r.value.documentId == doc && PlanStep(draft, prior, r.value)
    ensures r.Some? ==> Tracks(draft, prior + [r.value], running.counts, scenarios')
  {
    var target := FirstTitled(DeficitTerms(running.counts, scenarios), pool);
    if target.Some? {
      FirstTitledMeaning(DeficitTerms(running.counts, scenarios), pool);
      var chosen;
      chosen, scenarios' := TargetedSlot(pool, running, scenarios, target.value);
      var step := Replacement(doc, chosen, target);
      TracksTarget(draft, prior, old(running.counts), scenarios, step, target.value);
      r := Some(step);
    } else {
      scenarios' := scenarios;
      r := PickedSlot(draft, doc, pool, running, scenarios, prior);
    }
  }

  lemma SingleTally(counts: map<Term, int>, c: Candidate)
    ensures Tally(counts, [c]) == AddHits(counts, c.vocabHits)
  {
    TallySnoc(counts, [], c);
    assert [] + [c] == [c];
  }

  lemma OneIdAtLeast(pool: seq<Candidate>)
    ensures pool == [] <==> |Ids(pool)| == 0
  {
    FirstIn(pool);
    assert pool == [] || pool[0].clauseId in Ids(pool);
  }

  lemma AfterSnoc(draft: Draft, prior: seq<Replacement>, r: Replacement)
    ensures VocabAfter(draft.vocab, prior + [r]) == VocabStep(VocabAfter(draft.vocab, prior), r)
    ensures ScenariosAfter(draft.scenarios, prior + [r]) == ScenarioStep(ScenariosAfter(draft.scenarios, prior), r)
    ensures forall doc :: CountFor(prior + [r], doc) == CountFor(prior, doc) + (if r.documentId == doc then 1 else 0)
    ensures ReplacementIds(prior + [r]) == ReplacementIds(prior) + {r.candidate.clauseId}
  {
    var next := prior + [r];
    assert next[..|next| - 1] == prior;
  }

  lemma {:induction false} FirstTitledMeaning(terms: seq<Term>, pool: seq<Candidate>)
    ensures FirstTitled(terms, pool).Some? ==> Titled(pool, FirstTitled(terms, pool).value) != [] && pool != []
  {
    if terms != [] { FirstTitledMeaning(terms[1..], pool); }
  }

  lemma PoolIsEligible(draft: Draft, doc: DocumentId, prior: seq<Replacement>)
    ensures Eligible(draft.Pool(doc, prior), {}) == draft.Pool(doc, prior)
  {
    var used := draft.usedIds + ReplacementIds(prior);
    FilterElements(draft.Candidates(doc), Free(used));
    FilterAll(draft.Pool(doc, prior), Free({}));
  }

  /** Dropping the chosen id from the pool leaves the clauses still free after this step. */
  lemma PoolShrinks(draft: Draft, doc: DocumentId, prior: seq<Replacement>, r: Replacement)
    ensures Filter(draft.Pool(doc, prior), OtherThan(r.candidate.clauseId)) == draft.Pool(doc, prior + [r])
  {
    AfterSnoc(draft, prior, r);
    FreeShrinks(draft.Candidates(doc), draft.usedIds + ReplacementIds(prior), r.candidate.clauseId);
    assert draft.usedIds + ReplacementIds(prior + [r])
      == draft.usedIds + ReplacementIds(prior) + {r.candidate.clauseId};
  }

  lemma {:induction false} FreeShrinks(cs: seq<Candidate>, used: set<ClauseId>, id: ClauseId)
    ensures Filter(Eligible(cs, used), OtherThan(id)) == Eligible(cs, used + {id})
  {
    if cs != [] { FreeShrinks(cs[1..], used, id); }
  }

  /** The whole state of the planning loops. */
  ghost predicate Planned(draft: Draft, rs: seq<Replacement>, used: set<ClauseId>,
                          vocab: map<Term, int>, scenarios: map<Term, int>) {
    && Steps(draft, rs)
    && used == draft.usedIds + ReplacementIds(rs)
    && Tracks(draft, rs, vocab, scenarios)
  }

  /** Plans the replacements of every document in turn. */
  method PlanReplacements(draft: Draft, documents: seq<DocumentId>, running: RunningCounts)
    returns (replacements: seq<Replacement>, usedClauseIds: set<ClauseId>, scenarios: map<Term, int>)
    requires Distinct(documents)
    requires running.counts == draft.vocab
    modifies running
    ensures Plan(draft, documents, replacements)
    ensures Planned(draft, replacements, usedClauseIds, running.counts, scenarios)
  {
    replacements, usedClauseIds, scenarios := [], draft.usedIds, draft.scenarios;
    for d := 0 to |documents|
      invariant Planned(draft, replacements, usedClauseIds, running.counts, scenarios)
      invariant Covers(draft, documents[..d], replacements) && Served(draft, documents[..d], replacements)
    {
      ghost var before := replacements;
      NothingYet(draft, documents, d, replacements);
      replacements, usedClauseIds, scenarios :=
        FillDocument(draft, documents[d], replacements, usedClauseIds, running, scenarios);
      DocumentFilled(draft, documents, d, before, replacements);
      DocumentServed(draft, documents, d, before, replacements);
    }
    assert documents[..|documents|] == documents;
  }

  lemma DocumentServed(draft: Draft, documents: seq<DocumentId>, d: nat, before: seq<Replacement>, rs: seq<Replacement>)
    requires d < |documents| && Served(draft, documents[..d], before)
    requires Extends(before, rs, documents[d]) && Filled(draft, rs, documents[d])
    ensures Served(draft, documents[..d + 1], rs)
  {
    assert documents[..d + 1][..d] == documents[..d];
    assert rs[..|before|] == before;
    assert ServedFrom(draft, documents[..d + 1], rs, |before|);
  }

  lemma NothingYet(draft: Draft, documents: seq<DocumentId>, d: nat, rs: seq<Replacement>)
    requires Distinct(documents) && d < |documents| && Covers(draft, documents[..d], rs)
    ensures CountFor(rs, documents[d]) == 0
  {
    CountForNone(rs, documents[d]);
  }

  /** The inner loop: the slots of one document. */
  method FillDocument(draft: Draft, doc: DocumentId, given: seq<Replacement>, usedIds: set<ClauseId>,
                      running: RunningCounts, givenScenarios: map<Term, int>)
    returns (replacements: seq<Replacement>, usedClauseIds: set<ClauseId>, scenarios: map<Term, int>)
    requires Planned(draft, given, usedIds, running.counts, givenScenarios)
    requires CountFor(given, doc) == 0
    modifies running
    ensures Planned(draft, replacements, usedClauseIds, running.counts, scenarios)
    ensures Extends(given, replacements, doc)
    ensures Filled(draft, replacements, doc)
  {
    replacements, usedClauseIds, scenarios := given, usedIds, givenScenarios;
    var take := MAX_QUESTIONS_PER_DOC - draft.Surviving(doc);
    if take <= 0 {
      return;
    }
    var pool := Eligible(draft.Candidates(doc), usedIds);
    for n := 0 to take
      invariant Planned(draft, replacements, usedClauseIds, running.counts, scenarios)
      invariant Extends(given, replacements, doc)
      invariant pool == draft.Pool(doc, replacements)
      invariant CountFor(replacements, doc) == n
    {
      var slot;
      slot, scenarios := FillSlot(draft, doc, pool, running, scenarios, replacements);
      if slot.None? {
        return;
      }
      var r := slot.value;
      SlotPlanned(draft, replacements, usedClauseIds, running.counts, scenarios, r);
      SlotFilled(draft, given, doc, replacements, r);
      pool := Filter(pool, OtherThan(r.candidate.clauseId));
      usedClauseIds := usedClauseIds + {r.candidate.clauseId};
      replacements := replacements + [r];
    }
  }

  /** What one more step does to the state of the planning loops. */
  lemma SlotPlanned(draft: Draft, rs: seq<Replacement>, used: set<ClauseId>, vocab: map<Term, int>,
                    scenarios: map<Term, int>, r: Replacement)
    requires Steps(draft, rs) && PlanStep(draft, rs, r) && used == draft.usedIds + ReplacementIds(rs)
    requires Tracks(draft, rs + [r], vocab, scenarios)
    ensures Planned(draft, rs + [r], used + {r.candidate.clauseId}, vocab, scenarios)
  {
    StepsSnoc(draft, rs, r);
    UsedAfter(draft, rs, r);
  }

  /** And to the loop of its document. */
  lemma SlotFilled(draft: Draft, given: seq<Replacement>, doc: DocumentId, rs: seq<Replacement>, r: Replacement)
    requires r.documentId == doc && Extends(given, rs, doc)
    ensures Extends(given, rs + [r], doc) && CountFor(rs + [r], doc) == CountFor(rs, doc) + 1
    ensures Filter(draft.Pool(doc, rs), OtherThan(r.candidate.clauseId)) == draft.Pool(doc, rs + [r])
  {
    PoolShrinks(draft, doc, rs, r);
    ExtendsSnoc(given, doc, rs, r);
  }

  lemma UsedAfter(draft: Draft, rs: seq<Replacement>, r: Replacement)
    ensures draft.usedIds + ReplacementIds(rs + [r]) == draft.usedIds + ReplacementIds(rs) + {r.candidate.clauseId}
  {
    AfterSnoc(draft, rs, r);
  }

  lemma ExtendsSnoc(given: seq<Replacement>, doc: DocumentId, rs: seq<Replacement>, r: Replacement)
    requires Extends(given, rs, doc) && r.documentId == doc
    ensures Extends(given, rs + [r], doc) && CountFor(rs + [r], doc) == CountFor(rs, doc) + 1
  {
    assert (rs + [r])[..|rs|] == rs;
  }

  lemma StepsSnoc(draft: Draft, rs: seq<Replacement>, r: Replacement)
    requires Steps(draft, rs) && PlanStep(draft, rs, r)
    ensures Steps(draft, rs + [r])
  {
    var next := rs + [r];
    assert next[..|next| - 1] == rs && next[|next| - 1] == r;
  }

  lemma {:induction false} CountForOthers(given: seq<Replacement>, rs: seq<Replacement>, doc: DocumentId)
    requires given <= rs
    requires forall i :: |given| <= i < |rs| ==> rs[i].documentId != doc
    ensures CountFor(rs, doc) == CountFor(given, doc)
  {
    if |rs| > |given| {
      CountForOthers(given, rs[..|rs| - 1], doc);
    } else {
      assert rs == given;
    }
  }

  lemma {:induction false} CountForNone(rs: seq<Replacement>, doc: DocumentId)
    requires forall r :: r in rs ==> r.documentId != doc
    ensures CountFor(rs, doc) == 0
  {
    if rs != [] { CountForNone(rs[..|rs| - 1], doc); }
  }

  lemma FilledPersists(draft: Draft, given: seq<Replacement>, rs: seq<Replacement>, doc: DocumentId)
    requires given <= rs && Filled(draft, given, doc)
    requires forall i :: |given| <= i < |rs| ==> rs[i].documentId != doc
    ensures Filled(draft, rs, doc)
  {
    CountForOthers(given, rs, doc);
    if draft.Pool(doc, given) == [] {
      assert ReplacementIds(given) <= ReplacementIds(rs);
      EligibleShrinks(draft.Candidates(doc), draft.usedIds + ReplacementIds(given), draft.usedIds + ReplacementIds(rs));
    }
  }

  lemma {:induction false} EligibleShrinks(cs: seq<Candidate>, used: set<ClauseId>, more: set<ClauseId>)
    requires used <= more && Eligible(cs, used) == []
    ensures Eligible(cs, more) == []
  {
    if cs != [] { EligibleShrinks(cs[1..], used, more); }
  }

  /** The documents planned so far stay filled while a further one is planned. */
  lemma DocumentFilled(draft: Draft, documents: seq<DocumentId>, d: nat, before: seq<Replacement>, rs: seq<Replacement>)
    requires Distinct(documents) && d < |documents|
    requires Covers(draft, documents[..d], before)
    requires Extends(before, rs, documents[d])
    requires Filled(draft, rs, documents[d])
    ensures Covers(draft, documents[..d + 1], rs)
  {
    assert documents[..d + 1] == documents[..d] + [documents[d]];
    forall r | r in rs ensures r.documentId in documents[..d + 1] {
      var i :| 0 <= i < |rs| && rs[i] == r;
      if i < |before| { assert before[i] == r; }
    }
    forall doc | doc in documents[..d + 1] ensures Filled(draft, rs, doc) {
      if doc != documents[d] { FilledPersists(draft, before, rs, doc); }
    }
  }

  // ----- what every plan guarantees

  /** A step is determined by what came before it and by its document. */
  lemma StepUnique(draft: Draft, prior: seq<Replacement>, a: Replacement, b: Replacement)
    requires PlanStep(draft, prior, a) && PlanStep(draft, prior, b) && a.documentId == b.documentId
    ensures a == b
  {
    var pool := draft.Pool(a.documentId, prior);
    match a.target
    case Some(term) => LeastIdUnique(Titled(pool, term), a.candidate, b.candidate);
    case None =>
      SelectionUnique(pool, VocabAfter(draft.vocab, prior), a.documentId in draft.basisDocuments, 1,
                      [a.candidate], [b.candidate]);
      assert [a.candidate][0] == [b.candidate][0];
  }

  lemma LeastIdUnique(xs: seq<Candidate>, a: Candidate, b: Candidate)
    requires LeastId(xs, a) && LeastId(xs, b)
    ensures a == b
  {
    var i :| 0 <= i < |xs| && LeastIdAt(xs, i) && xs[i] == a;
    var j :| 0 <= j < |xs| && LeastIdAt(xs, j) && xs[j] == b;
    StringLeTotal(a.clauseId, b.clauseId);
  }

  lemma StepHasPool(draft: Draft, prior: seq<Replacement>, r: Replacement)
    requires PlanStep(draft, prior, r)
    ensures draft.Pool(r.documentId, prior) != []
  {
    var pool := draft.Pool(r.documentId, prior);
    match r.target
    case Some(term) =>
      FirstTitledMeaning(
        DeficitTerms(VocabAfter(draft.vocab, prior), ScenariosAfter(draft.scenarios, prior)), pool);
    case None =>
      SelectionDistinct(pool, VocabAfter(draft.vocab, prior), r.documentId in draft.basisDocuments, 1, [r.candidate]);
      assert r.candidate in [r.candidate];
  }

  // The argument about order does not need to know what a step is, so the step relation is a parameter.

  type StepRule = (seq<Replacement>, Replacement) -> bool

  ghost function PlanRule(draft: Draft): StepRule {
    (prior: seq<Replacement>, r: Replacement) => PlanStep(draft, prior, r)
  }

  ghost predicate Follows(rule: StepRule, rs: seq<Replacement>) {
    rs == [] || (Follows(rule, rs[..|rs| - 1]) && rule(rs[..|rs| - 1], rs[|rs| - 1]))
  }

  ghost predicate Determined(rule: StepRule) {
    forall prior, a, b :: rule(prior, a) && rule(prior, b) && a.documentId == b.documentId ==> a == b
  }

  ghost predicate NeedsPool(draft: Draft, rule: StepRule) {
    forall prior, r :: rule(prior, r) ==> draft.Pool(r.documentId, prior) != []
  }

  lemma {:induction false} StepsFollow(draft: Draft, rs: seq<Replacement>)
    requires Steps(draft, rs)
    ensures Follows(PlanRule(draft), rs)
  {
    if rs != [] { StepsFollow(draft, rs[..|rs| - 1]); }
  }

  /** The plan leaves no freedom: draft and document order determine the replacements. */
  lemma PlanUnique(draft: Draft, documents: seq<DocumentId>, a: seq<Replacement>, b: seq<Replacement>)
    requires Plan(draft, documents, a) && Plan(draft, documents, b)
    ensures a == b
  {
    StepsFollow(draft, a);
    StepsFollow(draft, b);
    RuleFacts(draft);
    ServedUnique(draft, PlanRule(draft), documents, a, b);
  }

  lemma RuleFacts(draft: Draft)
    ensures Determined(PlanRule(draft)) && NeedsPool(draft, PlanRule(draft))
  {
    var rule := PlanRule(draft);
    forall prior, a, b | rule(prior, a) && rule(prior, b) && a.documentId == b.documentId ensures a == b {
      StepUnique(draft, prior, a, b);
    }
    forall prior, r | rule(prior, r) ensures draft.Pool(r.documentId, prior) != [] { StepHasPool(draft, prior, r); }
  }

  lemma {:induction false} ServedUnique(draft: Draft, rule: StepRule, documents: seq<DocumentId>,
                                        a: seq<Replacement>, b: seq<Replacement>)
    requires Determined(rule) && NeedsPool(draft, rule) && Follows(rule, a) && Follows(rule, b)
    requires Served(draft, documents, a) && Served(draft, documents, b)
    ensures a == b
    decreases |documents|
  {
    if documents != [] {
      var front, last := documents[..|documents| - 1], documents[|documents| - 1];
      var k: nat :| ServedFrom(draft, documents, a, k);
      var l: nat :| ServedFrom(draft, documents, b, l);
      FollowsTake(rule, a, k);
      FollowsTake(rule, b, l);
      ServedUnique(draft, rule, front, a[..k], b[..l]);
      SegmentUnique(draft, rule, a, b, k, last);
    }
  }

  lemma {:induction false} FollowsTake(rule: StepRule, rs: seq<Replacement>, k: nat)
    requires Follows(rule, rs) && k <= |rs|
    ensures Follows(rule, rs[..k])
    ensures k < |rs| ==> rule(rs[..k], rs[k])
  {
    if k == |rs| {
      assert rs[..k] == rs;
    } else if k < |rs| - 1 {
      var front := rs[..|rs| - 1];
      FollowsTake(rule, front, k);
      assert front[..k] == rs[..k] && front[k] == rs[k];
    }
  }

  /** Two ways to fill a document after the same beginning are the same. */
  lemma SegmentUnique(draft: Draft, rule: StepRule, a: seq<Replacement>, b: seq<Replacement>, k: nat, doc: DocumentId)
    requires Determined(rule) && NeedsPool(draft, rule) && Follows(rule, a) && Follows(rule, b)
    requires k <= |a| && k <= |b| && a[..k] == b[..k]
    requires Extends(a[..k], a, doc) && Extends(b[..k], b, doc) && Filled(draft, a, doc) && Filled(draft, b, doc)
    ensures a == b
  {
    if |a| <= |b| { LongerIsSame(draft, rule, a, b, k, doc); } else { LongerIsSame(draft, rule, b, a, k, doc); }
  }

  lemma LongerIsSame(draft: Draft, rule: StepRule, a: seq<Replacement>, b: seq<Replacement>, k: nat, doc: DocumentId)
    requires Determined(rule) && NeedsPool(draft, rule) && Follows(rule, a) && Follows(rule, b)
    requires k <= |a| <= |b| && a[..k] == b[..k]
    requires Extends(a[..k], a, doc) && Extends(b[..k], b, doc) && Filled(draft, a, doc) && Filled(draft, b, doc)
    ensures a == b
  {
    SegmentsAgree(rule, a, b, k, doc, |a|);
    assert a[..|a|] == a && b[..|b|] == b;
    FilledHasNoRoom(draft, a, doc);
    if |a| < |b| { RoomBefore(draft, rule, b, |a|, doc); }
  }

  lemma {:induction false} SegmentsAgree(rule: StepRule, a: seq<Replacement>, b: seq<Replacement>, k: nat,
                                         doc: DocumentId, n: nat)
    requires Determined(rule) && Follows(rule, a) && Follows(rule, b)
    requires k <= n <= |a| && n <= |b| && a[..k] == b[..k]
    requires forall i :: k <= i < n ==> a[i].documentId == doc && b[i].documentId == doc
    ensures a[..n] == b[..n]
  {
    if k < n {
      SegmentsAgree(rule, a, b, k, doc, n - 1);
      FollowsTake(rule, a, n - 1);
      FollowsTake(rule, b, n - 1);
      assert a[n - 1] == b[n - 1];
      assert a[..n] == a[..n - 1] + [a[n - 1]] && b[..n] == b[..n - 1] + [b[n - 1]];
    }
  }

  /** The document has an open slot and a free clause. */
  predicate HasRoom(draft: Draft, rs: seq<Replacement>, doc: DocumentId) {
    CountFor(rs, doc) < draft.Freed(doc) && draft.Pool(doc, rs) != []
  }

  lemma FilledHasNoRoom(draft: Draft, rs: seq<Replacement>, doc: DocumentId)
    ensures Filled(draft, rs, doc) ==> !HasRoom(draft, rs, doc)
  {
  }

  lemma RoomBefore(draft: Draft, rule: StepRule, rs: seq<Replacement>, n: nat, doc: DocumentId)
    requires NeedsPool(draft, rule) && Follows(rule, rs) && Filled(draft, rs, doc)
    requires n < |rs| && rs[n].documentId == doc
    ensures HasRoom(draft, rs[..n], doc)
  {
    FollowsTake(rule, rs, n);
    CountForGrows(rs, n, |rs|);
    assert rs[..|rs|] == rs;
  }

  /** A step takes a selectable clause of its own document that nothing else uses. */
  lemma StepTakesFreeClause(draft: Draft, prior: seq<Replacement>, r: Replacement)
    requires PlanStep(draft, prior, r)
    ensures TakenFrom(draft, r) && r.candidate.clauseId !in ReplacementIds(prior)
  {
    var pool := draft.Pool(r.documentId, prior);
    var used := draft.usedIds + ReplacementIds(prior);
    FilterElements(draft.Candidates(r.documentId), Free(used));
    match r.target
    case Some(term) =>
      var titled := Titled(pool, term);
      FilterElements(pool, HasTitle(term));
      var i :| 0 <= i < |titled| && LeastIdAt(titled, i) && titled[i] == r.candidate;
      assert titled[i] in titled;
    case None =>
      SelectionDistinct(pool, VocabAfter(draft.vocab, prior), r.documentId in draft.basisDocuments, 1, [r.candidate]);
      assert r.candidate in [r.candidate];
  }

  /** Replacement clauses are pairwise distinct, disjoint from every surviving row's
      clause, selectable and of the document they are planned for. */
  lemma PlanUsesFreshClauses(draft: Draft, documents: seq<DocumentId>, rs: seq<Replacement>)
    requires Plan(draft, documents, rs)
    ensures forall i, j :: 0 <= i < j < |rs| ==> rs[i].candidate.clauseId != rs[j].candidate.clauseId
    ensures forall r :: r in rs ==> TakenFrom(draft, r)
  {
    StepsUseFreshClauses(draft, rs);
    FreshIdsDiffer(rs);
  }

  /** Each clause id is new when its replacement is made. */
  ghost predicate FreshIds(rs: seq<Replacement>) {
    rs == [] || (FreshIds(rs[..|rs| - 1]) && rs[|rs| - 1].candidate.clauseId !in ReplacementIds(rs[..|rs| - 1]))
  }

  ghost predicate TakenFrom(draft: Draft, r: Replacement) {
    && r.candidate in draft.Candidates(r.documentId) && r.candidate.IsSelectable()
    && r.candidate.clauseId !in draft.usedIds
    && (r.target.Some? ==> r.target.value in r.candidate.titleTerms)
  }

  lemma {:induction false} StepsUseFreshClauses(draft: Draft, rs: seq<Replacement>)
    requires Steps(draft, rs)
    ensures FreshIds(rs)
    ensures forall r :: r in rs ==> TakenFrom(draft, r)
  {
    if rs != [] {
      StepsUseFreshClauses(draft, rs[..|rs| - 1]);
      StepTakesFreeClause(draft, rs[..|rs| - 1], rs[|rs| - 1]);
      FreshSnoc(draft, rs);
    }
  }

  lemma FreshSnoc(draft: Draft, rs: seq<Replacement>)
    requires rs != [] && FreshIds(rs[..|rs| - 1])
    requires forall r :: r in rs[..|rs| - 1] ==> TakenFrom(draft, r)
    requires TakenFrom(draft, rs[|rs| - 1])
    requires rs[|rs| - 1].candidate.clauseId !in ReplacementIds(rs[..|rs| - 1])
    ensures FreshIds(rs)
    ensures forall r :: r in rs ==> TakenFrom(draft, r)
  {
    SplitLast(rs);
  }

  lemma {:induction false} FreshIdsDiffer(rs: seq<Replacement>)
    requires FreshIds(rs)
    ensures forall i, j :: 0 <= i < j < |rs| ==> rs[i].candidate.clauseId != rs[j].candidate.clauseId
  {
    if rs != [] {
      var front := rs[..|rs| - 1];
      FreshIdsDiffer(front);
      forall i, j | 0 <= i < j < |rs| ensures rs[i].candidate.clauseId != rs[j].candidate.clauseId {
        assert front[i] in front;
        if j < |front| { assert front[i].candidate.clauseId != front[j].candidate.clauseId; }
      }
    }
  }

  /** No document ends above the larger of five and the rows it kept. */
  lemma PlanRespectsCap(draft: Draft, documents: seq<DocumentId>, rs: seq<Replacement>, doc: DocumentId)
    requires Plan(draft, documents, rs)
    ensures var total := draft.Surviving(doc) + CountFor(rs, doc);
      total <= MAX_QUESTIONS_PER_DOC || total == draft.Surviving(doc)
  {
    if doc !in documents { CountForNone(rs, doc); }
  }

  ghost function IdsFor(rs: seq<Replacement>, doc: DocumentId): set<ClauseId> {
    set r | r in rs && r.documentId == doc :: r.candidate.clauseId
  }

  lemma {:induction false} IdsForSize(rs: seq<Replacement>, doc: DocumentId)
    requires FreshIds(rs)
    ensures |IdsFor(rs, doc)| == CountFor(rs, doc)
    ensures IdsFor(rs, doc) <= ReplacementIds(rs)
  {
    if rs != [] {
      var front, last := rs[..|rs| - 1], rs[|rs| - 1];
      IdsForSize(front, doc);
      IdsForSnoc(front, last, doc);
      assert rs == front + [last];
    }
  }

  lemma IdsForSnoc(front: seq<Replacement>, last: Replacement, doc: DocumentId)
    ensures IdsFor(front + [last], doc)
         == IdsFor(front, doc) + (if last.documentId == doc then {last.candidate.clauseId} else {})
  {
  }

  /** No clause id is a candidate of two documents. */
  ghost predicate ClausesByDocument(draft: Draft) {
    forall d, e, a, b :: d != e && a in draft.Candidates(d) && b in draft.Candidates(e) ==> a.clauseId != b.clauseId
  }

  /** Every freed slot is filled while free clauses last: a document receives exactly
      min(freed slots, free clauses) replacements. */
  lemma PlanFillsEverySlot(draft: Draft, documents: seq<DocumentId>, rs: seq<Replacement>, doc: DocumentId)
    requires Plan(draft, documents, rs) && doc in documents && ClausesByDocument(draft)
    ensures var free := |Ids(draft.Pool(doc, []))|;
      CountFor(rs, doc) == if draft.Freed(doc) < free then draft.Freed(doc) else free
  {
    StepsUseFreshClauses(draft, rs);
    FilledCount(draft, rs, doc);
  }

  lemma FilledCount(draft: Draft, rs: seq<Replacement>, doc: DocumentId)
    requires FreshIds(rs) && (forall r :: r in rs ==> TakenFrom(draft, r))
    requires Filled(draft, rs, doc) && ClausesByDocument(draft)
    ensures var free := |Ids(draft.Pool(doc, []))|;
      CountFor(rs, doc) == if draft.Freed(doc) < free then draft.Freed(doc) else free
  {
    IdsForSize(rs, doc);
    FirstPool(draft, rs, doc);
    SubsetSize(IdsFor(rs, doc), Ids(draft.Pool(doc, [])));
    if CountFor(rs, doc) < draft.Freed(doc) { PoolUsedUp(draft, rs, doc); }
  }

  lemma PoolUsedUp(draft: Draft, rs: seq<Replacement>, doc: DocumentId)
    requires (forall r :: r in rs ==> TakenFrom(draft, r)) && ClausesByDocument(draft)
    requires Filled(draft, rs, doc) && CountFor(rs, doc) < draft.Freed(doc)
    ensures IdsFor(rs, doc) == Ids(draft.Pool(doc, []))
  {
    FirstPool(draft, rs, doc);
    forall c | c in draft.Pool(doc, []) ensures c.clauseId in IdsFor(rs, doc) {
      PoolDry(draft, rs, doc, c);
      OwnReplacement(draft, rs, doc, c);
    }
  }

  lemma FirstPool(draft: Draft, rs: seq<Replacement>, doc: DocumentId)
    requires forall r :: r in rs ==> TakenFrom(draft, r)
    ensures forall c :: c in draft.Pool(doc, []) <==>
      c in draft.Candidates(doc) && c.IsSelectable() && c.clauseId !in draft.usedIds
    ensures IdsFor(rs, doc) <= Ids(draft.Pool(doc, []))
  {
    var used0 := draft.usedIds + ReplacementIds([]);
    assert used0 == draft.usedIds;
    FilterElements(draft.Candidates(doc), Free(used0));
    forall r | r in rs && r.documentId == doc ensures r.candidate in draft.Pool(doc, []) {
      assert TakenFrom(draft, r);
    }
  }

  lemma OwnReplacement(draft: Draft, rs: seq<Replacement>, doc: DocumentId, c: Candidate)
    requires ClausesByDocument(draft) && (forall r :: r in rs ==> TakenFrom(draft, r))
    requires c in draft.Candidates(doc) && c.clauseId in ReplacementIds(rs)
    ensures c.clauseId in IdsFor(rs, doc)
  {
    var r :| r in rs && r.candidate.clauseId == c.clauseId;
    assert TakenFrom(draft, r);
  }

  lemma PoolDry(draft: Draft, rs: seq<Replacement>, doc: DocumentId, c: Candidate)
    requires draft.Pool(doc, rs) == []
    requires c in draft.Candidates(doc) && c.IsSelectable() && c.clauseId !in draft.usedIds
    ensures c.clauseId in ReplacementIds(rs)
  {
    var used := draft.usedIds + ReplacementIds(rs);
    FilterElements(draft.Candidates(doc), Free(used));
    assert c.clauseId !in used ==> c in draft.Pool(doc, rs);
  }

  // ----- row ids

  /** One past the highest slot the reviewed rows use for a document. */
  function NextSlot(reviewed: seq<string>, doc: DocumentId): nat {
    if reviewed == [] then 0
    else match Parse(reviewed[|reviewed| - 1])
      case None => NextSlot(reviewed[..|reviewed| - 1], doc)
      case Some(parts) =>
        if parts.0 == doc then Max(NextSlot(reviewed[..|reviewed| - 1], doc), parts.1 + 1)
        else NextSlot(reviewed[..|reviewed| - 1], doc)
  }

  lemma {:induction false} NextSlotAbove(reviewed: seq<string>, id: string)
    requires id in reviewed && Parse(id).Some?
    ensures Parse(id).value.1 < NextSlot(reviewed, Parse(id).value.0)
  {
    var front, last := reviewed[..|reviewed| - 1], reviewed[|reviewed| - 1];
    assert reviewed == front + [last];
    if id in front { NextSlotAbove(front, id); }
  }

  /** The id the i-th replacement must get: its document's next slot, counting earlier replacements. */
  function RowIdFor(reviewed: seq<string>, rs: seq<Replacement>, i: nat): string
    requires i < |rs|
  {
    Render(rs[i].documentId, SlotFor(reviewed, rs, i), 2)
  }

  function SlotFor(reviewed: seq<string>, rs: seq<Replacement>, i: nat): nat
    requires i < |rs|
  {
    NextSlot(reviewed, rs[i].documentId) + CountFor(rs[..i], rs[i].documentId)
  }

  method AssignRowIds(reviewed: seq<string>, rs: seq<Replacement>) returns (r: Result<seq<string>, string>)
    ensures r.Ok? <==> forall id :: id in reviewed ==> Parse(id).Some?
    ensures r.Err? ==> r.error in reviewed && Parse(r.error).None?
    ensures r.Ok? ==> |r.value| == |rs| && forall i :: 0 <= i < |rs| ==> r.value[i] == RowIdFor(reviewed, rs, i)
  {
    var slots := NextSlots(reviewed);
    if slots.Err? {
      return Err(slots.error);
    }
    var nextSlot: map<DocumentId, nat> := slots.value;
    assert rs[..0] == [];
    var ids: seq<string> := [];
    for i := 0 to |rs|
      invariant |ids| == i && forall j :: 0 <= j < i ==> ids[j] == RowIdFor(reviewed, rs, j)
      invariant SlotsAre(nextSlot, reviewed, rs[..i])
    {
      var doc := rs[i].documentId;
      assert Slot(nextSlot, doc) == SlotFor(reviewed, rs, i);
      var id := Render(doc, Slot(nextSlot, doc), 2);
      assert id == RowIdFor(reviewed, rs, i);
      ids := ids + [id];
      CountForStep(nextSlot, reviewed, rs, i);
      nextSlot := nextSlot[doc := Slot(nextSlot, doc) + 1];
    }
    r := Ok(ids);
  }

  method NextSlots(reviewed: seq<string>) returns (r: Result<map<DocumentId, nat>, string>)
    ensures r.Ok? <==> forall id :: id in reviewed ==> Parse(id).Some?
    ensures r.Err? ==> r.error in reviewed && Parse(r.error).None?
    ensures r.Ok? ==> SlotsAre(r.value, reviewed, [])
  {
    var nextSlot: map<DocumentId, nat> := map[];
    for k := 0 to |reviewed|
      invariant forall id :: id in reviewed[..k] ==> Parse(id).Some?
      invariant SlotsAre(nextSlot, reviewed[..k], [])
    {
      var parsed := Parse(reviewed[k]);
      if parsed.None? {
        return Err(reviewed[k]);
      }
      var (doc, slot) := parsed.value;
      NextSlotStep(nextSlot, reviewed, k);
      nextSlot := nextSlot[doc := Max(Slot(nextSlot, doc), slot + 1)];
    }
    assert reviewed[..|reviewed|] == reviewed;
    r := Ok(nextSlot);
  }

  /** Lookup in a counter that starts at zero. */
  function Slot(nextSlot: map<DocumentId, nat>, doc: DocumentId): nat {
    if doc in nextSlot then nextSlot[doc] else 0
  }

  /** The counters hold each document's next slot after the given replacements. */
  ghost predicate SlotsAre(nextSlot: map<DocumentId, nat>, reviewed: seq<string>, rs: seq<Replacement>) {
    forall doc :: Slot(nextSlot, doc) == NextSlot(reviewed, doc) + CountFor(rs, doc)
  }

  lemma NextSlotStep(nextSlot: map<DocumentId, nat>, reviewed: seq<string>, k: nat)
    requires k < |reviewed| && Parse(reviewed[k]).Some? && SlotsAre(nextSlot, reviewed[..k], [])
    ensures var (doc, slot) := Parse(reviewed[k]).value;
      SlotsAre(nextSlot[doc := Max(Slot(nextSlot, doc), slot + 1)], reviewed[..k + 1], [])
    ensures forall id :: id in reviewed[..k + 1] ==> id in reviewed[..k] || id == reviewed[k]
  {
    var (doc, slot) := Parse(reviewed[k]).value;
    var next := reviewed[..k + 1];
    assert next == reviewed[..k] + [reviewed[k]] && next[..|next| - 1] == reviewed[..k];
    var after := nextSlot[doc := Max(Slot(nextSlot, doc), slot + 1)];
    forall d ensures Slot(after, d) == NextSlot(next, d) + CountFor([], d) {
      assert Slot(nextSlot, d) == NextSlot(reviewed[..k], d) + CountFor([], d);
    }
  }

  lemma CountForStep(nextSlot: map<DocumentId, nat>, reviewed: seq<string>, rs: seq<Replacement>, i: nat)
    requires i < |rs| && SlotsAre(nextSlot, reviewed, rs[..i])
    ensures var doc := rs[i].documentId; SlotsAre(nextSlot[doc := Slot(nextSlot, doc) + 1], reviewed, rs[..i + 1])
  {
    var doc := rs[i].documentId;
    var after := nextSlot[doc := Slot(nextSlot, doc) + 1];
    assert rs[..i + 1][..i] == rs[..i];
    forall d ensures Slot(after, d) == NextSlot(reviewed, d) + CountFor(rs[..i + 1], d) {
      assert Slot(nextSlot, d) == NextSlot(reviewed, d) + CountFor(rs[..i], d);
    }
  }

  /** New row ids are pairwise distinct and collide with no id of the reviewed universe. */
  lemma RowIdsFresh(reviewed: seq<string>, rs: seq<Replacement>)
    requires forall id :: id in reviewed ==> Parse(id).Some?
    ensures forall i, j :: 0 <= i < j < |rs| ==> RowIdFor(reviewed, rs, i) != RowIdFor(reviewed, rs, j)
    ensures forall i :: 0 <= i < |rs| ==> RowIdFor(reviewed, rs, i) !in reviewed
  {
    forall i, j | 0 <= i < j < |rs| ensures RowIdFor(reviewed, rs, i) != RowIdFor(reviewed, rs, j) {
      RowIdParts(reviewed, rs, i);
      RowIdParts(reviewed, rs, j);
      CountForGrows(rs, i, j);
    }
    forall i | 0 <= i < |rs| ensures RowIdFor(reviewed, rs, i) !in reviewed {
      RowIdNew(reviewed, rs, i);
    }
  }

  lemma RowIdParts(reviewed: seq<string>, rs: seq<Replacement>, i: nat)
    requires i < |rs|
    ensures Parse(RowIdFor(reviewed, rs, i)) == Some((rs[i].documentId, SlotFor(reviewed, rs, i)))
  {
    ParseRender(rs[i].documentId, SlotFor(reviewed, rs, i), 2);
  }

  lemma RowIdNew(reviewed: seq<string>, rs: seq<Replacement>, i: nat)
    requires i < |rs|
    ensures RowIdFor(reviewed, rs, i) !in reviewed
  {
    var id := RowIdFor(reviewed, rs, i);
    RowIdParts(reviewed, rs, i);
    if id in reviewed { NextSlotAbove(reviewed, id); }
  }

  lemma {:induction false} CountForGrows(rs: seq<Replacement>, i: nat, j: nat)
    requires i < j <= |rs|
    ensures CountFor(rs[..i], rs[i].documentId) < CountFor(rs[..j], rs[i].documentId)
  {
    assert rs[..j][..j - 1] == rs[..j - 1];
    if i < j - 1 { CountForGrows(rs, i, j - 1); }
  }
}
