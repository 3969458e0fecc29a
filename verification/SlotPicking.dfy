/** Choosing a document's source clauses against shared vocabulary counts
    (`ClauseCandidate` and `pick_slots` in scripts/casco_clause_selection.py). */
module SlotPicking {
  import opened Ordering
  import opened Outcomes

  type ClauseId = string

  datatype Term =
    | Colisao | RouboFurto | Incendio | PerdaTotal | Franquia | RcFacultativa | AmbitoGeografico

  const VOCABULARY: seq<Term> :=
    [Colisao, RouboFurto, Incendio, PerdaTotal, Franquia, RcFacultativa, AmbitoGeografico]

  datatype ClauseType = Coverage | Exclusion | Condition | Definition | Procedure | Other

  datatype Scope = Casco | Assistance | OutOfScope(reason: string)

  /** A clause considered as a question's source. `titleTerms` are the vocabulary
      terms its title matches; regular expressions are not modelled. */
  datatype Candidate = Candidate(
    clauseId: ClauseId,
    clauseType: ClauseType,
    vocabHits: set<Term>,
    isIndemnityBasis: bool,
    scope: Scope,
    exclusionReasons: seq<string>,
    titleTerms: set<Term>)
  {
    predicate IsSelectable() {
      !scope.OutOfScope? && exclusionReasons == []
    }

    predicate IsCoreType() {
      clauseType in {Coverage, Exclusion, Condition, Definition}
    }
  }

  // ----- running counts

  function Count(counts: map<Term, int>, term: Term): int {
    if term in counts then counts[term] else 0
  }

  function AddHits(counts: map<Term, int>, hits: set<Term>): map<Term, int> {
    map t | t in counts.Keys + hits :: Count(counts, t) + (if t in hits then 1 else 0)
  }

  /** The counts after taking `chosen`, in order. */
  function Tally(counts: map<Term, int>, chosen: seq<Candidate>): map<Term, int> {
    if chosen == [] then counts
    else AddHits(Tally(counts, chosen[..|chosen| - 1]), chosen[|chosen| - 1].vocabHits)
  }

  /** How many of `chosen` hit the term. */
  function Uses(chosen: seq<Candidate>, term: Term): nat {
    if chosen == [] then 0
    else Uses(chosen[..|chosen| - 1], term) + (if term in chosen[|chosen| - 1].vocabHits then 1 else 0)
  }

  /** Each count grows by exactly the number of chosen clauses that hit its term. */
  lemma {:induction false} TallyCounts(counts: map<Term, int>, chosen: seq<Candidate>, term: Term)
    ensures Count(Tally(counts, chosen), term) == Count(counts, term) + Uses(chosen, term)
  {
    if chosen != [] { TallyCounts(counts, chosen[..|chosen| - 1], term); }
  }

  lemma {:induction false} UsesPrefix(chosen: seq<Candidate>, i: nat, j: nat, term: Term)
    requires i <= j <= |chosen|
    ensures Uses(chosen[..i], term) <= Uses(chosen[..j], term)
  {
    if i < j {
      UsesPrefix(chosen, i, j - 1, term);
      assert chosen[..j][..j - 1] == chosen[..j - 1];
    }
  }

  // ----- the sort key

  function LowestOver(terms: seq<Term>, counts: map<Term, int>, hits: set<Term>): Option<int> {
    if terms == [] then None
    else if terms[0] !in hits then LowestOver(terms[1..], counts, hits)
    else match LowestOver(terms[1..], counts, hits)
      case None => Some(Count(counts, terms[0]))
      case Some(n) => Some(if Count(counts, terms[0]) <= n then Count(counts, terms[0]) else n)
  }

  lemma {:induction false} LowestOverIsLeast(terms: seq<Term>, counts: map<Term, int>, hits: set<Term>)
    ensures LowestOver(terms, counts, hits).None? <==> forall t :: t in terms ==> t !in hits
    ensures LowestOver(terms, counts, hits).Some? ==>
      var n := LowestOver(terms, counts, hits).value;
      && (exists t :: t in terms && t in hits && Count(counts, t) == n)
      && (forall t :: t in terms && t in hits ==> n <= Count(counts, t))
  {
    if terms != [] {
      LowestOverIsLeast(terms[1..], counts, hits);
      assert terms == [terms[0]] + terms[1..];
    }
  }

  /** The lowest running count among the terms a clause hits, or the vocabulary size if it hits none. */
  function Lowest(counts: map<Term, int>, c: Candidate): int {
    match LowestOver(VOCABULARY, counts, c.vocabHits)
    case None => |VOCABULARY|
    case Some(n) => n
  }

  lemma LowestMeaning(counts: map<Term, int>, c: Candidate)
    ensures c.vocabHits == {} ==> Lowest(counts, c) == 7
    ensures c.vocabHits != {} ==> exists t :: t in c.vocabHits && Count(counts, t) == Lowest(counts, c)
    ensures forall t :: t in c.vocabHits ==> Lowest(counts, c) <= Count(counts, t)
  {
    LowestOverIsLeast(VOCABULARY, counts, c.vocabHits);
    forall t: Term ensures t in VOCABULARY {
      match t
      case Colisao => assert VOCABULARY[0] == t;
      case RouboFurto => assert VOCABULARY[1] == t;
      case Incendio => assert VOCABULARY[2] == t;
      case PerdaTotal => assert VOCABULARY[3] == t;
      case Franquia => assert VOCABULARY[4] == t;
      case RcFacultativa => assert VOCABULARY[5] == t;
      case AmbitoGeografico => assert VOCABULARY[6] == t;
    }
  }

  datatype Key = Key(lowest: int, assistance: int, peripheral: int, clauseId: ClauseId)

  function SortKey(counts: map<Term, int>, c: Candidate): Key {
    Key(Lowest(counts, c), if c.scope.Assistance? then 1 else 0, if c.IsCoreType() then 0 else 1, c.clauseId)
  }

  /** Lexicographic order of the key tuples. */
  predicate KeyLe(a: Key, b: Key) {
    if a.lowest != b.lowest then a.lowest < b.lowest
    else if a.assistance != b.assistance then a.assistance < b.assistance
    else if a.peripheral != b.peripheral then a.peripheral < b.peripheral
    else StringLe(a.clauseId, b.clauseId)
  }

  lemma KeyOrder(a: Key, b: Key, c: Key)
    ensures KeyLe(a, b) || KeyLe(b, a)
    ensures KeyLe(a, b) && KeyLe(b, a) ==> a == b
    ensures KeyLe(a, b) && KeyLe(b, c) ==> KeyLe(a, c)
  {
    StringLeTotal(a.clauseId, b.clauseId);
    if StringLe(a.clauseId, b.clauseId) && StringLe(b.clauseId, c.clauseId) {
      StringLeTransitive(a.clauseId, b.clauseId, c.clauseId);
    }
  }

  // ----- what a selection is

  function Ids(chosen: seq<Candidate>): set<ClauseId> {
    set c | c in chosen :: c.clauseId
  }

  function Free(used: set<ClauseId>): Candidate -> bool {
    (c: Candidate) => c.IsSelectable() && c.clauseId !in used
  }

  function Unused(used: set<ClauseId>): Candidate -> bool {
    (c: Candidate) => c.clauseId !in used
  }

  function Eligible(candidates: seq<Candidate>, used: set<ClauseId>): seq<Candidate> {
    Filter(candidates, Free(used))
  }

  function Remaining(pool: seq<Candidate>, used: set<ClauseId>): seq<Candidate> {
    Filter(pool, Unused(used))
  }

  function First(xs: seq<Candidate>, test: Candidate -> bool): Option<Candidate> {
    if xs == [] then None else if test(xs[0]) then Some(xs[0]) else First(xs[1..], test)
  }

  function FirstDefinition(pool: seq<Candidate>): Option<Candidate> {
    First(pool, CascoDefinition())
  }

  function CascoDefinition(): Candidate -> bool {
    (c: Candidate) => c.clauseType.Definition? && c.scope.Casco?
  }

  function FirstBasis(pool: seq<Candidate>, used: set<ClauseId>): Option<Candidate> {
    First(pool, BasisOutside(used))
  }

  function BasisOutside(used: set<ClauseId>): Candidate -> bool {
    (c: Candidate) => c.isIndemnityBasis && c.clauseId !in used
  }

  /** The definition clause and the indemnity-basis clause that come before the greedy phase. */
  function Head(pool: seq<Candidate>, wantBasis: bool, limit: int): seq<Candidate> {
    var definition := FirstDefinition(pool);
    var head := if definition.Some? && limit > 0 then [definition.value] else [];
    var basis := FirstBasis(pool, Ids(head));
    if wantBasis && basis.Some? && |head| < limit then head + [basis.value] else head
  }

  /** `c` is the first candidate of `left` with the smallest key. */
  ghost predicate LeastKey(left: seq<Candidate>, counts: map<Term, int>, c: Candidate) {
    exists i :: 0 <= i < |left| && LeastAt(left, counts, i) && left[i] == c
  }

  ghost predicate LeastAt(left: seq<Candidate>, counts: map<Term, int>, i: nat)
    requires i < |left|
  {
    && (forall j :: 0 <= j < |left| ==> KeyLe(SortKey(counts, left[i]), SortKey(counts, left[j])))
    && (forall j :: 0 <= j < i ==> SortKey(counts, left[j]) != SortKey(counts, left[i]))
  }

  ghost predicate GreedyPick(pool: seq<Candidate>, counts: map<Term, int>, before: seq<Candidate>, c: Candidate) {
    LeastKey(Remaining(pool, Ids(before)), Tally(counts, before), c)
  }

  ghost predicate GreedyFrom(pool: seq<Candidate>, counts: map<Term, int>, h: nat, chosen: seq<Candidate>) {
    forall i :: h <= i < |chosen| ==> GreedyPick(pool, counts, chosen[..i], chosen[i])
  }

  /** The selection, by what each position must hold rather than by how it is found. */
  ghost predicate Selection(pool: seq<Candidate>, counts: map<Term, int>, wantBasis: bool, limit: int,
                            chosen: seq<Candidate>) {
    var head := Head(pool, wantBasis, limit);
    && head <= chosen
    && GreedyFrom(pool, counts, |head|, chosen)
    && (|chosen| <= limit || chosen == [])
    && (|chosen| < limit ==> forall c :: c in pool ==> c.clauseId in Ids(chosen))
  }

  // ----- the imperative form

  class RunningCounts {
    var counts: map<Term, int>

    constructor (initial: map<Term, int>)
      ensures counts == initial
    {
      counts := initial;
    }

    /** Counts one more use of every term the clause hits. */
    method Take(c: Candidate)
      modifies this
      ensures counts == AddHits(old(counts), c.vocabHits)
    {
      var todo := c.vocabHits;
      while todo != {}
        invariant todo <= c.vocabHits
        invariant counts.Keys == old(counts.Keys) + (c.vocabHits - todo)
        invariant forall t :: t in counts ==>
          counts[t] == Count(old(counts), t) + (if t in c.vocabHits - todo then 1 else 0)
        decreases todo
      {
        var term :| term in todo;
        todo := todo - {term};
        counts := counts[term := Count(counts, term) + 1];
      }
      assert c.vocabHits - todo == c.vocabHits;
    }
  }

  method MinByKey(left: seq<Candidate>, counts: map<Term, int>) returns (least: Candidate)
    requires left != []
    ensures LeastKey(left, counts, least)
  {
    var best := 0;
    KeyOrder(SortKey(counts, left[0]), SortKey(counts, left[0]), SortKey(counts, left[0]));
    for i := 1 to |left|
      invariant 0 <= best < i
      invariant forall j :: 0 <= j < i ==> KeyLe(SortKey(counts, left[best]), SortKey(counts, left[j]))
      invariant forall j :: 0 <= j < best ==> SortKey(counts, left[j]) != SortKey(counts, left[best])
    {
      ghost var ki := SortKey(counts, left[i]);
      KeyOrder(ki, ki, ki);
      forall j | 0 <= j < i
        ensures !KeyLe(SortKey(counts, left[best]), ki) ==> KeyLe(ki, SortKey(counts, left[j]))
      {
        KeyOrder(ki, SortKey(counts, left[best]), SortKey(counts, left[j]));
      }
      if !KeyLe(SortKey(counts, left[best]), SortKey(counts, left[i])) {
        best := i;
      }
    }
    assert LeastAt(left, counts, best);
    least := left[best];
  }

  /** The definition clause, then the indemnity-basis clause, as far as the limit allows. */
  method TakeHead(pool: seq<Candidate>, running: RunningCounts, wantIndemnityBasis: bool, limit: int)
    returns (chosen: seq<Candidate>)
    modifies running
    ensures chosen == Head(pool, wantIndemnityBasis, limit)
    ensures running.counts == Tally(old(running.counts), chosen)
    ensures |chosen| <= limit || chosen == []
  {
    ghost var counts := running.counts;
    chosen := [];
    var definition := FirstDefinition(pool);
    if definition.Some? && limit > 0 {
      running.Take(definition.value);
      TallySnoc(counts, [], definition.value);
      chosen := [] + [definition.value];
    }
    if wantIndemnityBasis {
      var basis := FirstBasis(pool, Ids(chosen));
      if basis.Some? && |chosen| < limit {
        running.Take(basis.value);
        TallySnoc(counts, chosen, basis.value);
        chosen := chosen + [basis.value];
      }
    }
  }

  method PickSlots(candidates: seq<Candidate>, running: RunningCounts, wantIndemnityBasis: bool, limit: int,
                   alreadyUsedIds: set<ClauseId>) returns (chosen: seq<Candidate>)
    modifies running
    ensures Selection(Eligible(candidates, alreadyUsedIds), old(running.counts), wantIndemnityBasis, limit, chosen)
    ensures running.counts == Tally(old(running.counts), chosen)
  {
    var pool := Eligible(candidates, alreadyUsedIds);
    ghost var counts := running.counts;
    chosen := TakeHead(pool, running, wantIndemnityBasis, limit);
    ghost var head := chosen;
    while |chosen| < limit
      invariant Picking(pool, counts, head, limit, chosen)
      invariant running.counts == Tally(counts, chosen)
    {
      var left := Remaining(pool, Ids(chosen));
      if left == [] {
        break;
      }
      var c := MinByKey(left, running.counts);
      running.Take(c);
      PickTaken(pool, counts, head, limit, chosen, c);
      chosen := chosen + [c];
    }
    PickingDone(pool, counts, wantIndemnityBasis, limit, chosen);
  }

  /** What the loop keeps: the head, then greedy picks, within the limit. */
  ghost predicate Picking(pool: seq<Candidate>, counts: map<Term, int>, head: seq<Candidate>, limit: int,
                          chosen: seq<Candidate>) {
    head <= chosen && GreedyFrom(pool, counts, |head|, chosen) && (|chosen| <= limit || chosen == [])
  }

  lemma PickingDone(pool: seq<Candidate>, counts: map<Term, int>, wantBasis: bool, limit: int, chosen: seq<Candidate>)
    requires Picking(pool, counts, Head(pool, wantBasis, limit), limit, chosen)
    requires |chosen| >= limit || Remaining(pool, Ids(chosen)) == []
    ensures Selection(pool, counts, wantBasis, limit, chosen)
  {
    if |chosen| < limit { NoneRemaining(pool, Ids(chosen)); }
  }

  /** Taking the least clause left keeps the choice greedy and the counts in step. */
  lemma PickTaken(pool: seq<Candidate>, counts: map<Term, int>, head: seq<Candidate>, limit: int,
                  chosen: seq<Candidate>, c: Candidate)
    requires Picking(pool, counts, head, limit, chosen) && |chosen| < limit
    requires LeastKey(Remaining(pool, Ids(chosen)), Tally(counts, chosen), c)
    ensures Picking(pool, counts, head, limit, chosen + [c])
    ensures Tally(counts, chosen + [c]) == AddHits(Tally(counts, chosen), c.vocabHits)
  {
    TallySnoc(counts, chosen, c);
    SelectionStep(pool, counts, |head|, chosen, c);
  }

  lemma NoneRemaining(pool: seq<Candidate>, used: set<ClauseId>)
    requires Remaining(pool, used) == []
    ensures forall c :: c in pool ==> c.clauseId in used
  {
    FilterElements(pool, Unused(used));
    forall c | c in pool ensures c.clauseId in used {
      assert c.clauseId !in used ==> c in Remaining(pool, used);
    }
  }

  lemma TallySnoc(counts: map<Term, int>, chosen: seq<Candidate>, c: Candidate)
    ensures Tally(counts, chosen + [c]) == AddHits(Tally(counts, chosen), c.vocabHits)
  {
    var next := chosen + [c];
    assert next[..|next| - 1] == chosen;
  }

  lemma SelectionStep(pool: seq<Candidate>, counts: map<Term, int>, h: nat, chosen: seq<Candidate>, c: Candidate)
    requires GreedyFrom(pool, counts, h, chosen)
    requires GreedyPick(pool, counts, chosen, c)
    ensures GreedyFrom(pool, counts, h, chosen + [c])
  {
    var next := chosen + [c];
    assert next[..|chosen|] == chosen;
    forall i | h <= i < |next| ensures GreedyPick(pool, counts, next[..i], next[i]) {
      if i < |chosen| { assert next[..i] == chosen[..i]; }
    }
  }

  // ----- properties of every selection

  lemma {:induction false} FirstMeaning(xs: seq<Candidate>, test: Candidate -> bool)
    ensures First(xs, test).Some? ==> First(xs, test).value in xs && test(First(xs, test).value)
    ensures First(xs, test).None? <==> forall x :: x in xs ==> !test(x)
  {
    if xs != [] {
      FirstMeaning(xs[1..], test);
      assert xs == [xs[0]] + xs[1..];
    }
  }

  lemma HeadMeaning(pool: seq<Candidate>, wantBasis: bool, limit: int)
    ensures var head := Head(pool, wantBasis, limit);
      && (forall c :: c in head ==> c in pool)
      && (|head| == 2 ==> head[0].clauseId != head[1].clauseId)
      && |head| <= 2
  {
    FirstMeaning(pool, CascoDefinition());
    var definition := FirstDefinition(pool);
    var head := if definition.Some? && limit > 0 then [definition.value] else [];
    FirstMeaning(pool, BasisOutside(Ids(head)));
  }

  lemma PickMeaning(pool: seq<Candidate>, counts: map<Term, int>, before: seq<Candidate>, c: Candidate)
    requires GreedyPick(pool, counts, before, c)
    ensures c in pool && c.clauseId !in Ids(before)
    ensures forall d :: d in pool && d.clauseId !in Ids(before) ==>
      KeyLe(SortKey(Tally(counts, before), c), SortKey(Tally(counts, before), d))
  {
    var left := Remaining(pool, Ids(before));
    FilterElements(pool, Unused(Ids(before)));
    var i :| 0 <= i < |left| && LeastAt(left, Tally(counts, before), i) && left[i] == c;
    assert left[i] in left;
    forall d | d in pool && d.clauseId !in Ids(before)
      ensures KeyLe(SortKey(Tally(counts, before), c), SortKey(Tally(counts, before), d))
    {
      assert d in left;
      var j :| 0 <= j < |left| && left[j] == d;
    }
  }

  /** A selection takes clauses of the pool only, and no clause id twice. */
  lemma SelectionDistinct(
      pool: seq<Candidate>, counts: map<Term, int>, wantBasis: bool, limit: int, chosen: seq<Candidate>)
    requires Selection(pool, counts, wantBasis, limit, chosen)
    ensures forall c :: c in chosen ==> c in pool
    ensures forall i, j :: 0 <= i < j < |chosen| ==> chosen[i].clauseId != chosen[j].clauseId
  {
    var head := Head(pool, wantBasis, limit);
    HeadMeaning(pool, wantBasis, limit);
    forall j | 0 <= j < |chosen|
      ensures chosen[j] in pool && chosen[j].clauseId !in Ids(chosen[..j])
    {
      if j >= |head| {
        PickMeaning(pool, counts, chosen[..j], chosen[j]);
      } else {
        assert chosen[j] == head[j];
        assert j == 1 ==> chosen[..j] == [head[0]];
      }
    }
    forall i, j | 0 <= i < j < |chosen| ensures chosen[i].clauseId != chosen[j].clauseId {
      assert chosen[..j][i] == chosen[i];
    }
  }

  lemma IdsSize(chosen: seq<Candidate>)
    requires forall i, j :: 0 <= i < j < |chosen| ==> chosen[i].clauseId != chosen[j].clauseId
    ensures |Ids(chosen)| == |chosen|
  {
    var ids := seq(|chosen|, i requires 0 <= i < |chosen| => chosen[i].clauseId);
    forall id ensures id in Elements(ids) <==> id in Ids(chosen) {
      if id in Ids(chosen) {
        var c :| c in chosen && c.clauseId == id;
        var i :| 0 <= i < |chosen| && chosen[i] == c;
        assert ids[i] == id;
      }
      if id in ids {
        var i :| 0 <= i < |ids| && ids[i] == id;
        assert chosen[i] in chosen;
      }
    }
    assert Elements(ids) == Ids(chosen);
    DistinctCardinality(ids);
  }

  /** A selection holds exactly min(limit, number of distinct eligible ids) clauses. */
  lemma SelectionSize(pool: seq<Candidate>, counts: map<Term, int>, wantBasis: bool, limit: int, chosen: seq<Candidate>)
    requires Selection(pool, counts, wantBasis, limit, chosen)
    ensures |chosen| == if limit <= 0 then 0 else if limit < |Ids(pool)| then limit else |Ids(pool)|
  {
    SelectionDistinct(pool, counts, wantBasis, limit, chosen);
    IdsSize(chosen);
    assert Ids(chosen) <= Ids(pool);
    SubsetSize(Ids(chosen), Ids(pool));
    if |chosen| < limit {
      assert Ids(pool) <= Ids(chosen);
      assert Ids(pool) == Ids(chosen);
    }
  }

  /** The description leaves no freedom: pool, counts and limit determine the selection. */
  lemma SelectionUnique(pool: seq<Candidate>, counts: map<Term, int>, wantBasis: bool, limit: int,
                        a: seq<Candidate>, b: seq<Candidate>)
    requires Selection(pool, counts, wantBasis, limit, a) && Selection(pool, counts, wantBasis, limit, b)
    ensures a == b
  {
    SelectionSize(pool, counts, wantBasis, limit, a);
    SelectionSize(pool, counts, wantBasis, limit, b);
    var head := Head(pool, wantBasis, limit);
    assert a[..|head|] == head == b[..|head|];
    SelectionPrefix(pool, counts, |head|, a, b, |a|);
    assert a[..|a|] == a && b[..|a|] == b;
  }

  lemma {:induction false} SelectionPrefix(pool: seq<Candidate>, counts: map<Term, int>, h: nat,
                                           a: seq<Candidate>, b: seq<Candidate>, n: nat)
    requires GreedyFrom(pool, counts, h, a) && GreedyFrom(pool, counts, h, b)
    requires h <= n <= |a| && n <= |b| && a[..h] == b[..h]
    ensures a[..n] == b[..n]
  {
    if n > h {
      SelectionPrefix(pool, counts, h, a, b, n - 1);
      PickAt(pool, counts, h, a, n - 1);
      PickAt(pool, counts, h, b, n - 1);
      PickUnique(pool, counts, a[..n - 1], a[n - 1], b[n - 1]);
      PrefixSnoc(a, n);
      PrefixSnoc(b, n);
    }
  }

  lemma PickAt(pool: seq<Candidate>, counts: map<Term, int>, h: nat, chosen: seq<Candidate>, i: nat)
    requires GreedyFrom(pool, counts, h, chosen) && h <= i < |chosen|
    ensures GreedyPick(pool, counts, chosen[..i], chosen[i])
  {
  }

  lemma PrefixSnoc<T>(xs: seq<T>, n: nat)
    requires 0 < n <= |xs|
    ensures xs[..n] == xs[..n - 1] + [xs[n - 1]]
  {
  }

  lemma PickUnique(pool: seq<Candidate>, counts: map<Term, int>, before: seq<Candidate>, a: Candidate, b: Candidate)
    requires GreedyPick(pool, counts, before, a) && GreedyPick(pool, counts, before, b)
    ensures a == b
  {
    LeastKeyUnique(Remaining(pool, Ids(before)), Tally(counts, before), a, b);
  }

  lemma LeastKeyUnique(left: seq<Candidate>, counts: map<Term, int>, a: Candidate, b: Candidate)
    requires LeastKey(left, counts, a) && LeastKey(left, counts, b)
    ensures a == b
  {
    var i :| 0 <= i < |left| && LeastAt(left, counts, i) && left[i] == a;
    var j :| 0 <= j < |left| && LeastAt(left, counts, j) && left[j] == b;
    KeyOrder(SortKey(counts, left[i]), SortKey(counts, left[j]), SortKey(counts, left[i]));
    assert i == j;
  }

  /** Clauses left over at greedy step i: in the pool, not yet chosen. */
  ghost predicate LeftAt(pool: seq<Candidate>, chosen: seq<Candidate>, i: nat, d: Candidate)
    requires i <= |chosen|
  {
    d in pool && d.clauseId !in Ids(chosen[..i])
  }

  /** An assistance clause is taken only when every other clause left serves a strictly more
      covered term, and a clause that hits no term only when all counts left are at least 7. */
  lemma PriorityRespected(pool: seq<Candidate>, counts: map<Term, int>, wantBasis: bool, limit: int,
                          chosen: seq<Candidate>, i: nat, d: Candidate)
    requires Selection(pool, counts, wantBasis, limit, chosen)
    requires |Head(pool, wantBasis, limit)| <= i < |chosen| && LeftAt(pool, chosen, i, d)
    ensures var now := Tally(counts, chosen[..i]);
      && Lowest(now, chosen[i]) <= Lowest(now, d)
      && (chosen[i].scope.Assistance? && !d.scope.Assistance? ==> Lowest(now, chosen[i]) < Lowest(now, d))
      && (chosen[i].vocabHits == {} ==> forall t :: t in d.vocabHits ==> Count(now, t) >= 7)
  {
    PickMeaning(pool, counts, chosen[..i], chosen[i]);
    LowestMeaning(Tally(counts, chosen[..i]), chosen[i]);
    LowestMeaning(Tally(counts, chosen[..i]), d);
  }

  /** Scarcity is served first: the lowest count a greedy pick serves never goes down. */
  lemma LowestNeverDecreases(pool: seq<Candidate>, counts: map<Term, int>, wantBasis: bool, limit: int,
                             chosen: seq<Candidate>, i: nat, j: nat)
    requires Selection(pool, counts, wantBasis, limit, chosen)
    requires |Head(pool, wantBasis, limit)| <= i < j < |chosen|
    ensures Lowest(Tally(counts, chosen[..i]), chosen[i]) <= Lowest(Tally(counts, chosen[..j]), chosen[j])
  {
    SelectionDistinct(pool, counts, wantBasis, limit, chosen);
    assert LeftAt(pool, chosen, i, chosen[j]) by {
      forall c | c in chosen[..i] ensures c.clauseId != chosen[j].clauseId {
        var k :| 0 <= k < i && chosen[..i][k] == c;
        assert chosen[k].clauseId != chosen[j].clauseId;
      }
    }
    PriorityRespected(pool, counts, wantBasis, limit, chosen, i, chosen[j]);
    var early, late := Tally(counts, chosen[..i]), Tally(counts, chosen[..j]);
    LowestMeaning(early, chosen[j]);
    LowestMeaning(late, chosen[j]);
    forall t ensures Count(early, t) <= Count(late, t) {
      TallyCounts(counts, chosen[..i], t);
      TallyCounts(counts, chosen[..j], t);
      UsesPrefix(chosen, i, j, t);
    }
  }

  /** Nothing selected is out of scope, flagged, or already used elsewhere. */
  lemma SelectionEligible(candidates: seq<Candidate>, used: set<ClauseId>, counts: map<Term, int>, wantBasis: bool,
                          limit: int, chosen: seq<Candidate>)
    requires Selection(Eligible(candidates, used), counts, wantBasis, limit, chosen)
    ensures forall c :: c in chosen ==> c in candidates && c.IsSelectable() && c.clauseId !in used
  {
    SelectionDistinct(Eligible(candidates, used), counts, wantBasis, limit, chosen);
    FilterElements(candidates, Free(used));
  }

  // ----- the choice in the fields of the clauses

  /** Among clauses left with the same lowest count and the same assistance tag, boilerplate is
      taken only when nothing but boilerplate is left, and then the smaller clause id wins. */
  lemma TiesByTypeThenId(pool: seq<Candidate>, counts: map<Term, int>, wantBasis: bool, limit: int,
                         chosen: seq<Candidate>, i: nat, d: Candidate)
    requires Selection(pool, counts, wantBasis, limit, chosen)
    requires |Head(pool, wantBasis, limit)| <= i < |chosen| && LeftAt(pool, chosen, i, d)
    requires Lowest(Tally(counts, chosen[..i]), chosen[i]) == Lowest(Tally(counts, chosen[..i]), d)
    requires chosen[i].scope == Assistance <==> d.scope == Assistance
    ensures var core, c := {Coverage, Exclusion, Condition, Definition}, chosen[i];
      && (d.clauseType in core ==> c.clauseType in core)
      && ((c.clauseType in core <==> d.clauseType in core) ==> StringLe(c.clauseId, d.clauseId))
  {
    PickMeaning(pool, counts, chosen[..i], chosen[i]);
  }

  /** What is eligible, field by field. */
  lemma EligibleExactly(candidates: seq<Candidate>, used: set<ClauseId>, c: Candidate)
    ensures c in Eligible(candidates, used) <==>
      && c in candidates && c.clauseId !in used
      && (c.scope == Casco || c.scope == Assistance) && c.exclusionReasons == []
  {
    FilterElements(candidates, Free(used));
  }

  predicate IsFirst(pool: seq<Candidate>, test: Candidate -> bool, k: nat) {
    k < |pool| && test(pool[k]) && forall j :: 0 <= j < k ==> !test(pool[j])
  }

  lemma {:induction false} FirstAt(pool: seq<Candidate>, test: Candidate -> bool, k: nat)
    requires IsFirst(pool, test, k)
    ensures First(pool, test) == Some(pool[k])
  {
    if k > 0 {
      assert forall j :: 0 <= j < k - 1 ==> pool[1..][j] == pool[j + 1];
      FirstAt(pool[1..], test, k - 1);
    }
  }

  /** Clause k is the first casco definition of the pool. */
  predicate FirstCascoDefinition(pool: seq<Candidate>, k: nat) {
    && k < |pool| && pool[k].clauseType == Definition && pool[k].scope == Casco
    && forall j :: 0 <= j < k ==> pool[j].clauseType != Definition || pool[j].scope != Casco
  }

  /** Clause b is the first indemnity-basis clause of the pool with another id than `taken`. */
  predicate FirstOtherBasis(pool: seq<Candidate>, taken: seq<ClauseId>, b: nat) {
    && b < |pool| && pool[b].isIndemnityBasis && pool[b].clauseId !in taken
    && forall j :: 0 <= j < b ==> !pool[j].isIndemnityBasis || pool[j].clauseId in taken
  }

  /** How a choice begins: with the first casco definition of the pool, then, where wanted, the
      first indemnity-basis clause with another id. */
  lemma SelectionStarts(pool: seq<Candidate>, counts: map<Term, int>, wantBasis: bool, limit: int,
                        chosen: seq<Candidate>, k: nat)
    requires Selection(pool, counts, wantBasis, limit, chosen) && limit > 0
    requires FirstCascoDefinition(pool, k)
    ensures chosen != [] && chosen[0] == pool[k]
    ensures wantBasis && limit > 1 ==> forall b: nat :: FirstOtherBasis(pool, [pool[k].clauseId], b) ==>
      |chosen| > 1 && chosen[1] == pool[b]
    ensures !wantBasis || (forall c :: c in pool && c.isIndemnityBasis ==> c.clauseId == pool[k].clauseId) ==>
      |Head(pool, wantBasis, limit)| == 1
  {
    FirstAt(pool, CascoDefinition(), k);
    var taken := Ids([pool[k]]);
    assert taken == {pool[k].clauseId};
    FirstMeaning(pool, BasisOutside(taken));
    forall b: nat | FirstOtherBasis(pool, [pool[k].clauseId], b)
      ensures FirstBasis(pool, taken) == Some(pool[b])
    {
      FirstAt(pool, BasisOutside(taken), b);
    }
  }

  /** Without a casco definition it begins with the first indemnity-basis clause where wanted, and
      without either every pick is by the key. */
  lemma SelectionStartsWithoutDefinition(pool: seq<Candidate>, counts: map<Term, int>, wantBasis: bool, limit: int,
                                         chosen: seq<Candidate>)
    requires Selection(pool, counts, wantBasis, limit, chosen)
    requires forall c :: c in pool ==> c.clauseType != Definition || c.scope != Casco
    ensures wantBasis && limit > 0 ==> forall b: nat :: FirstOtherBasis(pool, [], b) ==>
      chosen != [] && chosen[0] == pool[b]
    ensures !wantBasis || (forall c :: c in pool ==> !c.isIndemnityBasis) ==> Head(pool, wantBasis, limit) == []
  {
    FirstMeaning(pool, CascoDefinition());
    FirstMeaning(pool, BasisOutside(Ids([])));
    forall b: nat | FirstOtherBasis(pool, [], b) ensures FirstBasis(pool, Ids([])) == Some(pool[b]) {
      FirstAt(pool, BasisOutside(Ids([])), b);
    }
  }
}
