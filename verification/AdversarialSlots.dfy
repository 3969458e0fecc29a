/** Picking the question slots of a document pair from a ranked candidate list
    (`select_cross_document_slots` and `select_hdi_brand_collision_slots` in
    scripts/adversarial_clause_selection.py, which share this loop).

    How candidates are ranked is an input: the loop is the same for every ranking. */
module AdversarialSlots {
  import opened Ordering
  import opened RowIds

  const MIN_CANDIDATE_TEXT_CHARS := 30

  datatype ClauseId = ClauseId(text: string)

  datatype Clause = Clause(clauseId: ClauseId, twins: set<ClauseId>, textChars: nat)

  /** A candidate pair: the clause to ask about and the one it may be confused with. */
  datatype Pair = Pair(primary: ClauseId, distractor: ClauseId)

  /** The work of one turn of the outer loop. */
  datatype Job = Job(docA: string, docB: string, byId: map<ClauseId, Clause>, candidates: seq<Pair>)

  /** A row id in its parts; `Text` writes it out. */
  datatype RowId = RowId(kind: string, docA: string, docB: string, number: nat)
  {
    function Stem(): string { kind + "-" + docA + "x" + docB }

    function Text(): string { Render(Stem(), number, 2) }
  }

  datatype Slot = Slot(rowId: RowId, documentId: string, primary: ClauseId, distractor: ClauseId)

  /** `is_clause_selectable`. */
  predicate IsSelectable(c: Clause) {
    c.twins == {} && c.textChars >= MIN_CANDIDATE_TEXT_CHARS
  }

  predicate IsUsable(byId: map<ClauseId, Clause>, p: Pair) {
    && p.primary in byId && p.distractor in byId
    && IsSelectable(byId[p.primary]) && IsSelectable(byId[p.distractor])
  }

  function Usable(byId: map<ClauseId, Clause>): Pair -> bool {
    (p: Pair) => IsUsable(byId, p)
  }

  function Primaries(pairs: seq<Pair>): set<ClauseId> {
    set p | p in pairs :: p.primary
  }

  /** The pairs whose primary clause has not occurred before. */
  function FirstPerPrimary(pairs: seq<Pair>): seq<Pair> {
    if pairs == [] then []
    else
      var front, last := FirstPerPrimary(pairs[..|pairs| - 1]), pairs[|pairs| - 1];
      if last.primary in Primaries(pairs[..|pairs| - 1]) then front else front + [last]
  }

  /** The pipeline: usable pairs, one per primary clause, the first n. */
  function Picked(job: Job, n: nat): seq<Pair> {
    Take(FirstPerPrimary(Filter(job.candidates, Usable(job.byId))), n)
  }

  function SlotOf(kind: string, job: Job, p: Pair, k: nat): Slot {
    Slot(RowId(kind, job.docA, job.docB, k), job.docA, p.primary, p.distractor)
  }

  function SlotsOf(kind: string, job: Job, pairs: seq<Pair>): seq<Slot> {
    if pairs == [] then []
    else
      var front, last := pairs[..|pairs| - 1], pairs[|pairs| - 1];
      SlotsOf(kind, job, front) + [SlotOf(kind, job, last, |front|)]
  }

  function AllSlots(kind: string, jobs: seq<Job>, n: nat): seq<Slot> {
    if jobs == [] then []
    else
      var front, last := jobs[..|jobs| - 1], jobs[|jobs| - 1];
      AllSlots(kind, front, n) + SlotsOf(kind, last, Picked(last, n))
  }

  // ----- the loops

  method SelectSlots(kind: string, jobs: seq<Job>, pairsPerDocumentPair: nat) returns (slots: seq<Slot>)
    ensures slots == AllSlots(kind, jobs, pairsPerDocumentPair)
  {
    slots := [];
    for i := 0 to |jobs|
      invariant slots == AllSlots(kind, jobs[..i], pairsPerDocumentPair)
    {
      assert jobs[..i + 1][..i] == jobs[..i];
      var more := SelectForPair(kind, jobs[i], pairsPerDocumentPair);
      slots := slots + more;
    }
    assert jobs[..|jobs|] == jobs;
  }

  /** The inner loop; `seen` holds the primary clauses already asked about. */
  method SelectForPair(kind: string, job: Job, pairsPerDocumentPair: nat) returns (slots: seq<Slot>)
    ensures slots == SlotsOf(kind, job, Picked(job, pairsPerDocumentPair))
  {
    slots := [];
    var taken := 0;
    var seen: set<ClauseId> := {};
    ghost var picked: seq<Pair> := [];
    for i := 0 to |job.candidates|
      invariant picked == Picked(job.(candidates := job.candidates[..i]), pairsPerDocumentPair)
      invariant taken == |picked| && seen == Primaries(picked)
      invariant slots == SlotsOf(kind, job, picked)
    {
      var p := job.candidates[i];
      assert job.candidates[..i + 1] == job.candidates[..i] + [p];
      PickedNext(job.(candidates := job.candidates[..i]), p, pairsPerDocumentPair);
      if taken < pairsPerDocumentPair && p.primary !in seen && IsUsable(job.byId, p) {
        seen := seen + {p.primary};
        SlotsSnoc(kind, job, picked, p);
        PrimariesSnoc(picked, p);
        slots := slots + [Slot(RowId(kind, job.docA, job.docB, taken), job.docA, p.primary, p.distractor)];
        taken := taken + 1;
        picked := picked + [p];
      }
    }
    assert job.candidates[..|job.candidates|] == job.candidates;
  }

  lemma SlotsSnoc(kind: string, job: Job, pairs: seq<Pair>, p: Pair)
    ensures SlotsOf(kind, job, pairs + [p]) == SlotsOf(kind, job, pairs) + [SlotOf(kind, job, p, |pairs|)]
  {
    assert (pairs + [p])[..|pairs|] == pairs;
  }

  lemma FirstPerPrimarySnoc(pairs: seq<Pair>, p: Pair)
    ensures FirstPerPrimary(pairs + [p]) ==
      if p.primary in Primaries(pairs) then FirstPerPrimary(pairs) else FirstPerPrimary(pairs) + [p]
  {
    assert (pairs + [p])[..|pairs|] == pairs;
  }

  lemma PrimariesSnoc(pairs: seq<Pair>, p: Pair)
    ensures Primaries(pairs + [p]) == Primaries(pairs) + {p.primary}
  {
    forall q | q in pairs ensures q.primary in Primaries(pairs + [p]) { assert q in pairs + [p]; }
    assert p in pairs + [p];
  }

  lemma {:induction false} SamePrimaries(pairs: seq<Pair>)
    ensures Primaries(FirstPerPrimary(pairs)) == Primaries(pairs)
  {
    if pairs != [] {
      var front, last := pairs[..|pairs| - 1], pairs[|pairs| - 1];
      SamePrimaries(front);
      PrimariesSnoc(front, last);
      PrimariesSnoc(FirstPerPrimary(front), last);
      assert pairs == front + [last];
    }
  }

  lemma TakeSnoc<T>(xs: seq<T>, x: T, n: nat)
    ensures Take(xs + [x], n) == if |xs| < n then xs + [x] else Take(xs, n)
    ensures |Take(xs, n)| < n <==> |xs| < n
  {
  }

  /** One more candidate is picked exactly when there is room, it is usable and its primary is new. */
  lemma PickedNext(job: Job, p: Pair, n: nat)
    ensures var picked := Picked(job, n);
            var next := job.(candidates := job.candidates + [p]);
      Picked(next, n) ==
        if |picked| < n && IsUsable(job.byId, p) && p.primary !in Primaries(picked) then picked + [p] else picked
  {
    var usable := Filter(job.candidates, Usable(job.byId));
    FilterSnoc(job.candidates, p, Usable(job.byId));
    FirstPerPrimarySnoc(usable, p);
    SamePrimaries(usable);
    TakeSnoc(FirstPerPrimary(usable), p, n);
  }

  // ----- what is picked

  lemma {:induction false} FirstsArePrefixes(pairs: seq<Pair>, k: nat)
    requires k <= |pairs|
    ensures FirstPerPrimary(pairs[..k]) <= FirstPerPrimary(pairs)
  {
    if k == |pairs| {
      assert pairs[..k] == pairs;
    } else {
      var front := pairs[..|pairs| - 1];
      FirstsArePrefixes(front, k);
      assert front[..k] == pairs[..k];
    }
  }

  lemma {:induction false} FirstsCount(pairs: seq<Pair>)
    ensures |FirstPerPrimary(pairs)| == |Primaries(pairs)|
  {
    if pairs != [] {
      var front, last := pairs[..|pairs| - 1], pairs[|pairs| - 1];
      FirstsCount(front);
      PrimariesSnoc(front, last);
      assert pairs == front + [last];
      if last.primary in Primaries(front) { assert Primaries(pairs) == Primaries(front); }
    }
  }

  /** Where the i-th kept pair stands, with exactly i different primaries ranked before it. */
  lemma {:induction false} Place(pairs: seq<Pair>, i: nat) returns (k: nat)
    requires i < |FirstPerPrimary(pairs)|
    ensures k < |pairs| && pairs[k] == FirstPerPrimary(pairs)[i]
    ensures |Primaries(pairs[..k])| == i && pairs[k].primary !in Primaries(pairs[..k])
  {
    var front := pairs[..|pairs| - 1];
    if i < |FirstPerPrimary(front)| {
      k := Place(front, i);
      assert front[..k] == pairs[..k];
    } else {
      k := |pairs| - 1;
      FirstsCount(front);
    }
  }

  function UsableOf(job: Job): seq<Pair> {
    Filter(job.candidates, Usable(job.byId))
  }

  /** A primary clause is asked about if and only if some usable pair of it is ranked behind
      fewer than n different primaries. */
  lemma PickedExactly(job: Job, n: nat, c: ClauseId)
    ensures c in Primaries(Picked(job, n)) <==>
      exists k :: 0 <= k < |UsableOf(job)| && UsableOf(job)[k].primary == c && |Primaries(UsableOf(job)[..k])| < n
  {
    var usable := UsableOf(job);
    var firsts := FirstPerPrimary(usable);
    if c in Primaries(Picked(job, n)) {
      var i :| 0 <= i < |firsts| && i < n && firsts[i].primary == c;
      var k := Place(usable, i);
    }
    if k :| 0 <= k < |usable| && usable[k].primary == c && |Primaries(usable[..k])| < n {
      RankedIsPicked(usable, k, n);
    }
  }

  lemma RankedIsPicked(usable: seq<Pair>, k: nat, n: nat)
    requires k < |usable| && |Primaries(usable[..k])| < n
    ensures usable[k].primary in Primaries(Take(FirstPerPrimary(usable), n))
  {
    var upTo := usable[..k + 1];
    FirstsUpTo(usable, k);
    FirstsArePrefixes(usable, k + 1);
    var p :| p in FirstPerPrimary(upTo) && p.primary == usable[k].primary;
    PrefixInTake(FirstPerPrimary(upTo), FirstPerPrimary(usable), n, p);
  }

  lemma FirstsUpTo(usable: seq<Pair>, k: nat)
    requires k < |usable|
    ensures |FirstPerPrimary(usable[..k + 1])| <= |Primaries(usable[..k])| + 1
    ensures usable[k].primary in Primaries(FirstPerPrimary(usable[..k + 1]))
  {
    assert usable[..k + 1] == usable[..k] + [usable[k]];
    PrimariesSnoc(usable[..k], usable[k]);
    FirstsCount(usable[..k + 1]);
    SamePrimaries(usable[..k + 1]);
  }

  lemma PrefixInTake<T>(short: seq<T>, long: seq<T>, n: nat, x: T)
    requires short <= long && |short| <= n && x in short
    ensures x in Take(long, n)
  {
    var i :| 0 <= i < |short| && short[i] == x;
    assert Take(long, n)[i] == x;
  }

  /** Each pick is the best-ranked usable pair of its primary, no primary is asked about twice,
      and there are fewer than n picks only when the usable primaries ran out. */
  lemma PicksAreBestPerPrimary(job: Job, n: nat)
    ensures var usable := UsableOf(job);
      |Picked(job, n)| == if |Primaries(usable)| < n then |Primaries(usable)| else n
    ensures forall i :: 0 <= i < |Picked(job, n)| ==> IsBestOfItsPrimary(UsableOf(job), Picked(job, n)[i])
    ensures forall i, j :: 0 <= i < j < |Picked(job, n)| ==> Picked(job, n)[i].primary != Picked(job, n)[j].primary
  {
    var usable, picked := UsableOf(job), Picked(job, n);
    FirstsCount(usable);
    forall i | 0 <= i < |picked| ensures IsBestOfItsPrimary(usable, picked[i]) {
      var k := Place(usable, i);
      BestAt(usable, k);
    }
    forall i, j | 0 <= i < j < |picked| ensures picked[i].primary != picked[j].primary {
      KeptPrimariesDiffer(usable, i, j);
    }
  }

  /** Every pair of the same primary ranked before it is unusable: it is the first of them. */
  ghost predicate IsBestOfItsPrimary(usable: seq<Pair>, p: Pair) {
    exists k :: 0 <= k < |usable| && usable[k] == p && p.primary !in Primaries(usable[..k])
  }

  lemma BestAt(usable: seq<Pair>, k: nat)
    requires k < |usable| && usable[k].primary !in Primaries(usable[..k])
    ensures IsBestOfItsPrimary(usable, usable[k])
  {
  }

  lemma KeptPrimariesDiffer(pairs: seq<Pair>, i: nat, j: nat)
    requires i < j < |FirstPerPrimary(pairs)|
    ensures FirstPerPrimary(pairs)[i].primary != FirstPerPrimary(pairs)[j].primary
  {
    var a := Place(pairs, i);
    var b := Place(pairs, j);
    if b <= a {
      assert Primaries(pairs[..b]) <= Primaries(pairs[..a]);
      SubsetSize(Primaries(pairs[..b]), Primaries(pairs[..a]));
    } else {
      assert pairs[a] == pairs[..b][a];
    }
  }

  // ----- row ids

  lemma {:induction false} SlotIds(kind: string, job: Job, pairs: seq<Pair>)
    ensures var slots := SlotsOf(kind, job, pairs);
      |slots| == |pairs| && forall i :: 0 <= i < |pairs| ==> slots[i].rowId == RowId(kind, job.docA, job.docB, i)
  {
    if pairs != [] { SlotIds(kind, job, pairs[..|pairs| - 1]); }
  }

  ghost predicate DifferentPairs(jobs: seq<Job>) {
    forall i, j :: 0 <= i < j < |jobs| ==> (jobs[i].docA, jobs[i].docB) != (jobs[j].docA, jobs[j].docB)
  }

  ghost predicate FromJobs(jobs: seq<Job>, slot: Slot) {
    exists q :: 0 <= q < |jobs| && jobs[q].docA == slot.rowId.docA && jobs[q].docB == slot.rowId.docB
  }

  lemma FromMoreJobs(front: seq<Job>, last: Job, slot: Slot)
    ensures FromJobs(front, slot) ==> FromJobs(front + [last], slot)
    ensures last.docA == slot.rowId.docA && last.docB == slot.rowId.docB ==> FromJobs(front + [last], slot)
  {
    if FromJobs(front, slot) {
      var q :| 0 <= q < |front| && front[q].docA == slot.rowId.docA && front[q].docB == slot.rowId.docB;
      assert (front + [last])[q] == front[q];
    }
    assert (front + [last])[|front|] == last;
  }

  lemma {:induction false} SlotsAreFromJobs(kind: string, jobs: seq<Job>, n: nat)
    ensures forall i :: 0 <= i < |AllSlots(kind, jobs, n)| ==> FromJobs(jobs, AllSlots(kind, jobs, n)[i])
    ensures forall i :: 0 <= i < |AllSlots(kind, jobs, n)| ==> AllSlots(kind, jobs, n)[i].rowId.kind == kind
  {
    if jobs != [] {
      var front, last := jobs[..|jobs| - 1], jobs[|jobs| - 1];
      SlotsAreFromJobs(kind, front, n);
      SlotIds(kind, last, Picked(last, n));
      assert jobs == front + [last];
      var all := AllSlots(kind, jobs, n);
      forall i | 0 <= i < |all| ensures FromJobs(jobs, all[i]) { FromMoreJobs(front, last, all[i]); }
    }
  }

  ghost predicate UniqueRowIds(slots: seq<Slot>) {
    forall i, j :: 0 <= i < j < |slots| ==> slots[i].rowId != slots[j].rowId
  }

  lemma {:induction false} RowIdsDiffer(kind: string, jobs: seq<Job>, n: nat)
    requires DifferentPairs(jobs)
    ensures UniqueRowIds(AllSlots(kind, jobs, n))
  {
    if jobs != [] {
      var front, last := jobs[..|jobs| - 1], jobs[|jobs| - 1];
      RowIdsDiffer(kind, front, n);
      SlotsAreFromJobs(kind, front, n);
      SlotIds(kind, last, Picked(last, n));
      var before := AllSlots(kind, front, n);
      forall i | 0 <= i < |before| ensures !(before[i].rowId.docA == last.docA && before[i].rowId.docB == last.docB) {
        assert FromJobs(front, before[i]);
        NotFromFront(jobs, before[i]);
      }
    }
  }

  lemma NotFromFront(jobs: seq<Job>, slot: Slot)
    requires jobs != [] && DifferentPairs(jobs) && FromJobs(jobs[..|jobs| - 1], slot)
    ensures var last := jobs[|jobs| - 1]; !(slot.rowId.docA == last.docA && slot.rowId.docB == last.docB)
  {
    var front := jobs[..|jobs| - 1];
    var q :| 0 <= q < |front| && front[q].docA == slot.rowId.docA && front[q].docB == slot.rowId.docB;
    assert jobs[q] == front[q];
  }

  /** Written out, different ids of one kind stay different, because document ids are numbers:
      the x between them is the first one. */
  lemma TextInjective(a: RowId, b: RowId)
    requires a.kind == b.kind && AllDigits(a.docA) && AllDigits(b.docA) && a.Text() == b.Text()
    ensures a == b
  {
    ParseRender(a.Stem(), a.number, 2);
    ParseRender(b.Stem(), b.number, 2);
    StemInjective(a, b);
  }

  lemma StemInjective(a: RowId, b: RowId)
    requires a.kind == b.kind && AllDigits(a.docA) && AllDigits(b.docA) && a.Stem() == b.Stem()
    ensures a.docA == b.docA && a.docB == b.docB
  {
    var s, t := a.docA + "x" + a.docB, b.docA + "x" + b.docB;
    assert a.Stem()[|a.kind| + 1..] == s && b.Stem()[|a.kind| + 1..] == t;
    assert forall i :: 0 <= i < |a.docA| ==> s[i] == a.docA[i] && s[i] != 'x';
    assert forall i :: 0 <= i < |b.docA| ==> t[i] == b.docA[i] && t[i] != 'x';
    assert s[|a.docA|] == 'x' && t[|b.docA|] == 'x';
    assert |a.docA| == |b.docA|;
    assert s[..|a.docA|] == a.docA && t[..|b.docA|] == b.docA;
    assert s[|a.docA| + 1..] == a.docB && t[|b.docA| + 1..] == b.docB;
  }

  /** No two rows of a run carry the same id text, within a document pair or across pairs. */
  lemma RowIdTextsDiffer(kind: string, jobs: seq<Job>, n: nat, i: nat, j: nat)
    requires DifferentPairs(jobs) && forall q :: 0 <= q < |jobs| ==> AllDigits(jobs[q].docA)
    requires i < j < |AllSlots(kind, jobs, n)|
    ensures AllSlots(kind, jobs, n)[i].rowId.Text() != AllSlots(kind, jobs, n)[j].rowId.Text()
  {
    var slots := AllSlots(kind, jobs, n);
    RowIdsDiffer(kind, jobs, n);
    SlotsAreFromJobs(kind, jobs, n);
    assert FromJobs(jobs, slots[i]) && FromJobs(jobs, slots[j]);
    if slots[i].rowId.Text() == slots[j].rowId.Text() { TextInjective(slots[i].rowId, slots[j].rowId); }
  }

  // ----- the slots in the fields of the job

  /** A pair can be used if and only if both its clauses are known, without a twin and at least
      thirty characters long. */
  lemma UsableExactly(job: Job, p: Pair)
    ensures p in UsableOf(job) <==> p in job.candidates && forall id :: id in [p.primary, p.distractor] ==>
      id in job.byId && job.byId[id].twins == {} && job.byId[id].textChars >= 30
  {
    FilterElements(job.candidates, Usable(job.byId));
    assert p.primary == [p.primary, p.distractor][0] && p.distractor == [p.primary, p.distractor][1];
  }

  /** The k-th slot of a document pair asks about the k-th picked pair, in the first document, and
      its row id names kind, both documents and k. */
  lemma {:induction false} SlotInFields(kind: string, job: Job, pairs: seq<Pair>, k: nat)
    requires k < |pairs|
    ensures |SlotsOf(kind, job, pairs)| == |pairs|
    ensures var slot := SlotsOf(kind, job, pairs)[k];
      && slot.primary == pairs[k].primary && slot.distractor == pairs[k].distractor && slot.documentId == job.docA
      && slot.rowId.Text() == kind + "-" + job.docA + "x" + job.docB + "-" + Pad(k, 2)
  {
    var front := pairs[..|pairs| - 1];
    SlotCount(kind, job, front);
    if k < |front| { SlotInFields(kind, job, front, k); }
  }

  lemma {:induction false} SlotCount(kind: string, job: Job, pairs: seq<Pair>)
    ensures |SlotsOf(kind, job, pairs)| == |pairs|
  {
    if pairs != [] { SlotCount(kind, job, pairs[..|pairs| - 1]); }
  }
}
