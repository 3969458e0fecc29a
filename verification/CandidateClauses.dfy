/** Structurally related clauses (scripts/find_candidate_clauses.py).

    What the source reads out of a clause's text and path with a pattern is part of the
    clause here: the numbers it refers to and its own number. */
module CandidateClauses {
  import opened Ordering
  import opened Outcomes

  datatype Clause = Clause(
    clauseId: string,
    title: string,
    documentId: string,
    parentId: Option<string>,
    bundleSection: Option<string>,
    pageStart: nat,
    numbering: string,
    references: set<string>
  )

  ghost predicate DistinctIds(records: seq<Clause>) {
    forall i, j :: 0 <= i < j < |records| ==> records[i].clauseId != records[j].clauseId
  }

  // ----- document order

  function PageOrder(): (Clause, Clause) -> bool {
    (a: Clause, b: Clause) =>
      a.pageStart < b.pageStart || (a.pageStart == b.pageStart && StringLe(a.clauseId, b.clauseId))
  }

  function RootOf(documentId: string): Clause -> bool {
    (c: Clause) => c.documentId == documentId && c.parentId.None?
  }

  function Roots(records: seq<Clause>, documentId: string): seq<Clause> {
    SortBy(Filter(records, RootOf(documentId)), PageOrder())
  }

  /** The first place where the clause stands, or the length of the list. */
  function PositionOf(clauses: seq<Clause>, id: string): (p: nat)
    ensures p <= |clauses|
    ensures p < |clauses| ==> clauses[p].clauseId == id
    ensures forall i :: 0 <= i < p ==> clauses[i].clauseId != id
  {
    if clauses == [] || clauses[0].clauseId == id then 0 else 1 + PositionOf(clauses[1..], id)
  }

  /** Neither inside another clause nor inside a bundle section. */
  predicate IsFree(c: Clause) {
    c.parentId.None? && c.bundleSection.None?
  }

  /** The at most `window` entries on either side of a place. */
  function Around<T>(xs: seq<T>, p: nat, window: nat): seq<T>
    requires p < |xs|
  {
    var start := if p < window then 0 else p - window;
    var end := if p + 1 + window < |xs| then p + 1 + window else |xs|;
    xs[start..p] + xs[p + 1..end]
  }

  function IdsOf(clauses: seq<Clause>): set<string> {
    set c | c in clauses :: c.clauseId
  }

  function Neighbours(records: seq<Clause>, target: Clause, window: nat): set<string> {
    var roots := Roots(records, target.documentId);
    var p := PositionOf(roots, target.clauseId);
    if IsFree(target) && p < |roots| then IdsOf(Around(roots, p, window)) else {}
  }

  /** `find_document_order_neighbours`. */
  method FindDocumentOrderNeighbours(records: seq<Clause>, target: Clause, window: nat) returns (ids: set<string>)
    ensures ids == Neighbours(records, target, window)
  {
    if target.parentId.Some? || target.bundleSection.Some? {
      return {};
    }
    var roots := SortBy(Filter(records, RootOf(target.documentId)), PageOrder());
    var position := 0;
    while position < |roots| && roots[position].clauseId != target.clauseId
      invariant position <= |roots|
      invariant forall i :: 0 <= i < position ==> roots[i].clauseId != target.clauseId
    {
      position := position + 1;
    }
    ghost var p := PositionOf(roots, target.clauseId);
    assert position == p;
    if position == |roots| {
      return {};
    }
    ids := IdsOf(Around(roots, position, window));
  }

  // ----- neighbours, without positions

  /** The entries strictly between two others. */
  ghost function Between<T>(xs: seq<T>, le: (T, T) -> bool, a: T, b: T): set<T> {
    set z | z in xs && z != a && z != b && ((le(a, z) && le(z, b)) || (le(b, z) && le(z, a)))
  }

  lemma OrderIsPosition<T(!new)>(xs: seq<T>, le: (T, T) -> bool, i: nat, j: nat)
    requires TotalPreorder(le) && Separates(le, xs) && SortedBy(xs, le) && Distinct(xs)
    requires i < |xs| && j < |xs|
    ensures le(xs[i], xs[j]) <==> i <= j
  {
    var x, y := xs[i], xs[j];
    assert le(x, x) || le(x, x);
    assert i < j ==> le(x, y) && x != y;
    assert j < i ==> le(y, x) && x != y;
  }

  lemma BetweenIsSlice<T(!new)>(xs: seq<T>, le: (T, T) -> bool, i: nat, j: nat)
    requires TotalPreorder(le) && Separates(le, xs) && SortedBy(xs, le) && Distinct(xs)
    requires i < j < |xs|
    ensures |Between(xs, le, xs[i], xs[j])| == j - i - 1
    ensures |Between(xs, le, xs[j], xs[i])| == j - i - 1
  {
    var slice := xs[i + 1..j];
    forall z ensures z in Between(xs, le, xs[i], xs[j]) <==> z in slice {
      if z in xs {
        var k :| 0 <= k < |xs| && xs[k] == z;
        OrderIsPosition(xs, le, i, k);
        OrderIsPosition(xs, le, k, i);
        OrderIsPosition(xs, le, j, k);
        OrderIsPosition(xs, le, k, j);
        SliceHolds(xs, i + 1, j, k);
        assert z in slice ==> i < k < j;
      }
    }
    assert Between(xs, le, xs[i], xs[j]) == Elements(slice);
    assert Between(xs, le, xs[j], xs[i]) == Between(xs, le, xs[i], xs[j]);
    DistinctCardinality(slice);
  }

  lemma SliceHolds<T>(xs: seq<T>, from: nat, to: nat, k: nat)
    requires from <= to <= |xs| && k < |xs|
    ensures from <= k < to ==> xs[k] in xs[from..to]
  {
    if from <= k < to { assert xs[from..to][k - from] == xs[k]; }
  }

  lemma PageOrderIsTotal()
    ensures TotalPreorder(PageOrder())
  {
    StringOrder();
    var le := PageOrder();
    forall a, b ensures le(a, b) || le(b, a) { }
    forall a, b, c | le(a, b) && le(b, c) ensures le(a, c) {
      assert a.pageStart == b.pageStart == c.pageStart ==>
        StringLe(a.clauseId, b.clauseId) && StringLe(b.clauseId, c.clauseId);
    }
  }

  /** The roots of a document in order, each once. */
  lemma RootsInOrder(records: seq<Clause>, documentId: string)
    requires DistinctIds(records)
    ensures var roots := Roots(records, documentId);
      && TotalPreorder(PageOrder()) && SortedBy(roots, PageOrder())
      && Distinct(roots) && Separates(PageOrder(), roots) && DistinctIds(roots)
      && forall c :: c in roots <==> c in records && RootOf(documentId)(c)
  {
    var kept := Filter(records, RootOf(documentId));
    PageOrderIsTotal();
    FilterElements(records, RootOf(documentId));
    assert Distinct(records);
    FilterDistinct(records, RootOf(documentId));
    SortByDistinct(kept, PageOrder());
    SortByElements(kept, PageOrder());
    SortBySorts(kept, PageOrder());
    StringOrder();
    SameIdSameClause(records, Roots(records, documentId));
  }

  lemma SameIdSameClause(records: seq<Clause>, some: seq<Clause>)
    requires DistinctIds(records) && Distinct(some) && forall c :: c in some ==> c in records
    ensures DistinctIds(some)
    ensures forall a, b :: a in some && b in some && a.clauseId == b.clauseId ==> a == b
  {
    forall a, b | a in some && b in some && a.clauseId == b.clauseId ensures a == b {
      var i :| 0 <= i < |records| && records[i] == a;
      var j :| 0 <= j < |records| && records[j] == b;
    }
  }

  lemma PositionIs(clauses: seq<Clause>, i: nat)
    requires DistinctIds(clauses) && i < |clauses|
    ensures PositionOf(clauses, clauses[i].clauseId) == i
  {
    var p := PositionOf(clauses, clauses[i].clauseId);
    assert p <= i;
  }

  lemma AroundHolds<T>(xs: seq<T>, p: nat, window: nat, k: nat)
    requires p < |xs| && k < |xs| && Distinct(xs)
    ensures xs[k] in Around(xs, p, window) <==> k != p && (if k < p then p - k else k - p) <= window
  {
    var start := if p < window then 0 else p - window;
    var end := if p + 1 + window < |xs| then p + 1 + window else |xs|;
    SliceHolds(xs, start, p, k);
    SliceHolds(xs, p + 1, end, k);
    assert xs[k] in xs[start..p] ==> start <= k < p;
    assert xs[k] in xs[p + 1..end] ==> p + 1 <= k < end;
  }

  lemma AroundIsPart<T>(xs: seq<T>, p: nat, window: nat)
    requires p < |xs| && Distinct(xs)
    ensures forall x :: x in Around(xs, p, window) ==> x in xs
    ensures Distinct(Around(xs, p, window))
  {
  }

  lemma AroundSize<T>(xs: seq<T>, p: nat, window: nat)
    requires p < |xs|
    ensures |Around(xs, p, window)| == (if p < window then p else window)
                                     + (if |xs| - 1 - p < window then |xs| - 1 - p else window)
  {
  }

  /** The roots of the clause's document that stand strictly between two clauses in reading order. */
  ghost function RootsBetween(records: seq<Clause>, a: Clause, b: Clause): set<Clause> {
    Between(Roots(records, a.documentId), PageOrder(), a, b)
  }

  /** A clause is a document-order neighbour if and only if it is another root of the document
      with fewer than `window` roots in between. */
  lemma NeighbourExactly(records: seq<Clause>, target: Clause, window: nat, c: Clause)
    requires DistinctIds(records) && target in records && c in records
    ensures c.clauseId in Neighbours(records, target, window) <==>
      && target.parentId.None? && target.bundleSection.None?
      && c != target && c.parentId.None? && c.documentId == target.documentId
      && |RootsBetween(records, target, c)| < window
  {
    var roots := Roots(records, target.documentId);
    if IsFree(target) {
      RootsInOrder(records, target.documentId);
      var p :| 0 <= p < |roots| && roots[p] == target;
      PositionIs(roots, p);
      AroundIsPart(roots, p, window);
      IdIn(records, Around(roots, p, window), c);
      if c in roots { DistanceExactly(roots, PageOrder(), p, window, c); }
    }
  }

  /** Reading order: the page, then the id. */
  predicate ReadBefore(a: Clause, b: Clause) {
    a.pageStart < b.pageStart || (a.pageStart == b.pageStart && StringLe(a.clauseId, b.clauseId))
  }

  /** What lies between two clauses: the document's other roots read after one and before the other. */
  lemma BetweenInFields(records: seq<Clause>, a: Clause, b: Clause, z: Clause)
    requires DistinctIds(records)
    ensures z in RootsBetween(records, a, b) <==>
      && z in records && z.documentId == a.documentId && z.parentId.None? && z != a && z != b
      && ((ReadBefore(a, z) && ReadBefore(z, b)) || (ReadBefore(b, z) && ReadBefore(z, a)))
  {
    RootsInOrder(records, a.documentId);
  }

  lemma IdIn(records: seq<Clause>, some: seq<Clause>, c: Clause)
    requires DistinctIds(records) && c in records && forall d :: d in some ==> d in records
    ensures c.clauseId in IdsOf(some) <==> c in some
  {
    if c.clauseId in IdsOf(some) {
      var d :| d in some && d.clauseId == c.clauseId;
      var i :| 0 <= i < |records| && records[i] == c;
      var j :| 0 <= j < |records| && records[j] == d;
    }
  }

  lemma DistanceExactly<T(!new)>(xs: seq<T>, le: (T, T) -> bool, p: nat, window: nat, x: T)
    requires TotalPreorder(le) && Separates(le, xs) && SortedBy(xs, le) && Distinct(xs)
    requires p < |xs| && x in xs
    ensures x in Around(xs, p, window) <==> x != xs[p] && |Between(xs, le, xs[p], x)| < window
  {
    var k :| 0 <= k < |xs| && xs[k] == x;
    AroundHolds(xs, p, window, k);
    if k < p { BetweenIsSlice(xs, le, k, p); }
    if p < k { BetweenIsSlice(xs, le, p, k); }
  }

  /** Being neighbours is mutual between two clauses the tree says nothing about. */
  lemma NeighboursAreMutual(records: seq<Clause>, a: Clause, b: Clause, window: nat)
    requires DistinctIds(records) && a in records && b in records && IsFree(a) && IsFree(b)
    ensures a.clauseId in Neighbours(records, b, window) <==> b.clauseId in Neighbours(records, a, window)
  {
    NeighbourExactly(records, a, window, b);
    NeighbourExactly(records, b, window, a);
    if a.documentId == b.documentId { assert RootsBetween(records, a, b) == RootsBetween(records, b, a); }
  }

  /** With `before` roots ahead of it and `after` behind, a free clause has min(before, window) +
      min(after, window) neighbours: none only where it is the document's single root. */
  lemma NeighbourCount(records: seq<Clause>, target: Clause, window: nat)
    requires DistinctIds(records) && target in records && IsFree(target)
    ensures var roots := Roots(records, target.documentId);
            var before := PositionOf(roots, target.clauseId);
            var after := |roots| - 1 - before;
      && after >= 0
      && |Neighbours(records, target, window)| ==
           (if before < window then before else window) + (if after < window then after else window)
  {
    var roots := Roots(records, target.documentId);
    RootsInOrder(records, target.documentId);
    var p :| 0 <= p < |roots| && roots[p] == target;
    PositionIs(roots, p);
    AroundIsPart(roots, p, window);
    AroundSize(roots, p, window);
    SameIdSameClause(records, Around(roots, p, window));
    IdCount(Around(roots, p, window));
  }

  lemma {:induction false} IdCount(clauses: seq<Clause>)
    requires DistinctIds(clauses)
    ensures |IdsOf(clauses)| == |clauses|
  {
    if clauses != [] {
      var front, last := clauses[..|clauses| - 1], clauses[|clauses| - 1];
      IdCount(front);
      SplitLast(clauses);
      assert IdsOf(clauses) == IdsOf(front) + {last.clauseId};
      assert last.clauseId !in IdsOf(front);
    }
  }

  // ----- candidates

  datatype Reason = SharedParent | MatchingBundleSection | CrossReference(number: string) | DocumentOrderNeighbour

  datatype Candidate = Candidate(clauseId: string, title: string, reasons: seq<Reason>)

  function ReasonIf(holds: bool, reason: Reason): seq<Reason> {
    if holds then [reason] else []
  }

  predicate SharesParent(target: Clause, c: Clause) {
    target.parentId.Some? && c.parentId == target.parentId
  }

  predicate SharesBundle(target: Clause, c: Clause) {
    target.bundleSection.Some? && c.bundleSection == target.bundleSection
  }

  /** The signals that link a clause to the target, in the source's order. */
  function Reasons(target: Clause, neighbours: set<string>, c: Clause): seq<Reason> {
    Signals(SharesParent(target, c), SharesBundle(target, c), c.numbering in target.references, c.numbering,
            c.clauseId in neighbours)
  }

  function Signals(parent: bool, bundle: bool, cross: bool, number: string, order: bool): seq<Reason> {
    ReasonIf(parent, SharedParent) + ReasonIf(bundle, MatchingBundleSection)
    + ReasonIf(cross, CrossReference(number)) + ReasonIf(order, DocumentOrderNeighbour)
  }

  /** Place of a signal in the list. */
  function SignalPlace(r: Reason): nat {
    match r
    case SharedParent => 0
    case MatchingBundleSection => 1
    case CrossReference(_) => 2
    case DocumentOrderNeighbour => 3
  }

  lemma SignalsExactly(parent: bool, bundle: bool, cross: bool, number: string, order: bool)
    ensures var rs := Signals(parent, bundle, cross, number, order);
      && (SharedParent in rs <==> parent) && (MatchingBundleSection in rs <==> bundle)
      && (forall n :: CrossReference(n) in rs <==> cross && n == number)
      && (DocumentOrderNeighbour in rs <==> order)
  {
    var rs := Signals(parent, bundle, cross, number, order);
    assert forall r :: r in rs <==>
      || (parent && r == SharedParent) || (bundle && r == MatchingBundleSection)
      || (cross && r == CrossReference(number)) || (order && r == DocumentOrderNeighbour);
  }

  lemma SignalsInOrder(parent: bool, bundle: bool, cross: bool, number: string, order: bool)
    ensures var rs := Signals(parent, bundle, cross, number, order);
      forall i, j :: 0 <= i < j < |rs| ==> SignalPlace(rs[i]) < SignalPlace(rs[j])
  {
  }

  /** A signal is listed if and only if its relation to the target holds, once and in this order,
      so the length of the list counts the relations. */
  lemma ReasonsExactly(target: Clause, neighbours: set<string>, c: Clause)
    ensures var rs := Reasons(target, neighbours, c);
      && (SharedParent in rs <==> target.parentId.Some? && c.parentId == target.parentId)
      && (MatchingBundleSection in rs <==> target.bundleSection.Some? && c.bundleSection == target.bundleSection)
      && (forall n :: CrossReference(n) in rs <==> c.numbering in target.references && n == c.numbering)
      && (DocumentOrderNeighbour in rs <==> c.clauseId in neighbours)
      && forall i, j :: 0 <= i < j < |rs| ==> SignalPlace(rs[i]) < SignalPlace(rs[j])
  {
    var parent, bundle := SharesParent(target, c), SharesBundle(target, c);
    var cross, order := c.numbering in target.references, c.clauseId in neighbours;
    SignalsExactly(parent, bundle, cross, c.numbering, order);
    SignalsInOrder(parent, bundle, cross, c.numbering, order);
  }

  predicate IsListed(target: Clause, neighbours: set<string>, c: Clause) {
    c.documentId == target.documentId && c.clauseId != target.clauseId && Reasons(target, neighbours, c) != []
  }

  function CandidateOf(target: Clause, neighbours: set<string>, c: Clause): Candidate {
    Candidate(c.clauseId, c.title, Reasons(target, neighbours, c))
  }

  type Listing = map<string, Candidate>

  /** What the loop collects; a repeated id keeps its last clause. */
  function Listed(target: Clause, neighbours: set<string>, records: seq<Clause>): Listing {
    if records == [] then map[]
    else
      var before, c := Listed(target, neighbours, records[..|records| - 1]), records[|records| - 1];
      if IsListed(target, neighbours, c) then before[c.clauseId := CandidateOf(target, neighbours, c)] else before
  }

  function RankOrder(): (Candidate, Candidate) -> bool {
    (a: Candidate, b: Candidate) =>
      |a.reasons| > |b.reasons| || (|a.reasons| == |b.reasons| && StringLe(a.clauseId, b.clauseId))
  }

  /** The best `limit` entries of the listing, best first. */
  ghost predicate IsShortList(list: seq<Candidate>, listing: Listing, limit: nat) {
    && |list| == (if |listing| < limit then |listing| else limit)
    && Distinct(list) && SortedBy(list, RankOrder())
    && (forall c :: c in list ==> c in listing.Values)
    && forall c, d :: c in list && d in listing.Values && d !in list ==> RankOrder()(c, d)
  }

  /** Every entry is filed under its own id. */
  ghost predicate Filed(listing: Listing) {
    forall id :: id in listing ==> listing[id].clauseId == id
  }

  lemma {:induction false} ListedIsFiled(target: Clause, neighbours: set<string>, records: seq<Clause>)
    ensures Filed(Listed(target, neighbours, records))
  {
    if records != [] { ListedIsFiled(target, neighbours, records[..|records| - 1]); }
  }

  method CollectReasons(target: Clause, neighbours: set<string>, c: Clause) returns (reasons: seq<Reason>)
    ensures reasons == Reasons(target, neighbours, c)
  {
    reasons := [];
    if target.parentId.Some? && c.parentId == target.parentId {
      reasons := reasons + [SharedParent];
    }
    if target.bundleSection.Some? && c.bundleSection == target.bundleSection {
      reasons := reasons + [MatchingBundleSection];
    }
    if c.numbering in target.references {
      reasons := reasons + [CrossReference(c.numbering)];
    }
    if c.clauseId in neighbours {
      reasons := reasons + [DocumentOrderNeighbour];
    }
  }

  /** The values of `listing` but for those under `todo`, each once; `keyOf` recovers a value's key. */
  ghost predicate Collected<K, V>(listing: map<K, V>, keyOf: V -> K, todo: set<K>, entries: seq<V>) {
    && |entries| + |todo| == |listing| && Distinct(entries)
    && (forall key :: key in listing && key !in todo ==> listing[key] in entries)
    && (forall v :: v in entries ==> keyOf(v) in listing && keyOf(v) !in todo && listing[keyOf(v)] == v)
  }

  lemma CollectNext<K, V>(listing: map<K, V>, keyOf: V -> K, todo: set<K>, entries: seq<V>, key: K)
    requires key in listing && key in todo && keyOf(listing[key]) == key
    requires Collected(listing, keyOf, todo, entries)
    ensures Collected(listing, keyOf, todo - {key}, entries + [listing[key]])
  {
    DistinctSnoc(entries, listing[key]);
  }

  lemma CollectedAll<K, V>(listing: map<K, V>, keyOf: V -> K, entries: seq<V>)
    requires Collected(listing, keyOf, {}, entries)
    ensures |entries| == |listing| && Distinct(entries) && forall v :: v in entries <==> v in listing.Values
  {
  }

  method ValuesOf<K(==), V(==)>(listing: map<K, V>, ghost keyOf: V -> K) returns (entries: seq<V>)
    requires forall key :: key in listing ==> keyOf(listing[key]) == key
    ensures Distinct(entries) && |entries| == |listing| && forall v :: v in entries <==> v in listing.Values
  {
    entries := [];
    var todo := listing.Keys;
    while todo != {}
      invariant todo <= listing.Keys
      invariant Collected(listing, keyOf, todo, entries)
      decreases todo
    {
      var key :| key in todo;
      CollectNext(listing, keyOf, todo, entries, key);
      todo, entries := todo - {key}, entries + [listing[key]];
    }
    CollectedAll(listing, keyOf, entries);
  }

  function IdOf(): Candidate -> string {
    (c: Candidate) => c.clauseId
  }

  function FindClause(records: seq<Clause>, id: string): (r: Option<Clause>)
    ensures r.Some? ==> r.value in records && r.value.clauseId == id
    ensures r.None? ==> forall c :: c in records ==> c.clauseId != id
  {
    if records == [] then None
    else if records[0].clauseId == id then Some(records[0])
    else FindClause(records[1..], id)
  }

  const DEFAULT_ORDER_NEIGHBOUR_WINDOW := 3

  /** `find_candidates`; the error is the id that is not in the corpus. */
  method FindCandidates(records: seq<Clause>, clauseId: string, maxCandidates: nat)
    returns (r: Result<seq<Candidate>, string>)
    ensures r.Err? <==> forall c :: c in records ==> c.clauseId != clauseId
    ensures r.Err? ==> r.error == clauseId
    ensures r.Ok? ==>
      var target := FindClause(records, clauseId).value;
      var neighbours := Neighbours(records, target, 3);
      IsShortList(r.value, Listed(target, neighbours, records), maxCandidates)
  {
    var found := FindClause(records, clauseId);
    if found.None? {
      return Err(clauseId);
    }
    var target := found.value;
    var neighbours := FindDocumentOrderNeighbours(records, target, DEFAULT_ORDER_NEIGHBOUR_WINDOW);
    var listing: Listing := map[];
    for i := 0 to |records|
      invariant listing == Listed(target, neighbours, records[..i])
    {
      assert records[..i + 1][..i] == records[..i];
      var c := records[i];
      if c.documentId == target.documentId && c.clauseId != target.clauseId {
        var reasons := CollectReasons(target, neighbours, c);
        if reasons != [] {
          listing := listing[c.clauseId := Candidate(c.clauseId, c.title, reasons)];
        }
      }
    }
    assert records[..|records|] == records;
    ListedIsFiled(target, neighbours, records);
    var entries := ValuesOf(listing, IdOf());
    var sorted := SortBy(entries, RankOrder());
    BestFirst(entries, listing, maxCandidates);
    r := Ok(Take(sorted, maxCandidates));
  }

  lemma RankOrderIsTotal()
    ensures TotalPreorder(RankOrder())
  {
    StringOrder();
    var le := RankOrder();
    forall a, b ensures le(a, b) || le(b, a) { }
    forall a, b, c | le(a, b) && le(b, c) ensures le(a, c) {
      assert |a.reasons| == |b.reasons| == |c.reasons| ==>
        StringLe(a.clauseId, b.clauseId) && StringLe(b.clauseId, c.clauseId);
    }
  }

  lemma BestFirst(entries: seq<Candidate>, listing: Listing, limit: nat)
    requires Filed(listing) && Distinct(entries) && |entries| == |listing|
    requires forall c :: c in entries <==> c in listing.Values
    ensures var sorted := SortBy(entries, RankOrder());
      IsShortList(Take(sorted, limit), listing, limit)
  {
    var sorted := SortBy(entries, RankOrder());
    RankOrderIsTotal();
    SortByDistinct(entries, RankOrder());
    SortByElements(entries, RankOrder());
    SortBySorts(entries, RankOrder());
    if limit < |sorted| { TakeIsBest(sorted, RankOrder(), limit); }
  }

  lemma TakeIsBest<T(!new)>(sorted: seq<T>, le: (T, T) -> bool, limit: nat)
    requires SortedBy(sorted, le) && Distinct(sorted) && limit <= |sorted|
    ensures SortedBy(sorted[..limit], le) && Distinct(sorted[..limit])
    ensures forall c :: c in sorted[..limit] ==> c in sorted
    ensures forall c, d :: c in sorted[..limit] && d in sorted && d !in sorted[..limit] ==> le(c, d)
  {
    var list := sorted[..limit];
    forall c, d | c in list && d in sorted && d !in list ensures le(c, d) {
      var i :| 0 <= i < limit && list[i] == c;
      var j :| 0 <= j < |sorted| && sorted[j] == d;
      InTake(sorted, j, limit);
      assert sorted[i] == c;
    }
  }

  // ----- what the short list holds

  /** Two short lists of one listing are equal: the request fixes the answer. */
  lemma ShortListUnique(a: seq<Candidate>, b: seq<Candidate>, listing: Listing, limit: nat)
    requires Filed(listing) && IsShortList(a, listing, limit) && IsShortList(b, listing, limit)
    ensures a == b
  {
    RankOrderIsTotal();
    RankSeparates(listing);
    SameMembers(a, b, listing, limit);
    SameMembers(b, a, listing, limit);
    SortedUnique(a, b, RankOrder());
  }

  lemma RankSeparates(listing: Listing)
    requires Filed(listing)
    ensures forall c, d ::
      c in listing.Values && d in listing.Values && RankOrder()(c, d) && RankOrder()(d, c) ==> c == d
  {
    StringOrder();
  }

  lemma ListedBeforeOthers(list: seq<Candidate>, listing: Listing, limit: nat, c: Candidate, d: Candidate)
    requires IsShortList(list, listing, limit) && c in list && d in listing.Values && d !in list
    ensures RankOrder()(c, d)
  {
  }

  lemma SameMembers(a: seq<Candidate>, b: seq<Candidate>, listing: Listing, limit: nat)
    requires Filed(listing) && IsShortList(a, listing, limit) && IsShortList(b, listing, limit)
    ensures forall c :: c in a ==> c in b
  {
    RankSeparates(listing);
    forall c | c in a ensures c in b {
      if c !in b {
        var d := Spare(a, b, c);
        ListedBeforeOthers(a, listing, limit, c, d);
        ListedBeforeOthers(b, listing, limit, d, c);
      }
    }
  }

  /** An entry of b that a lacks, when a has one that b lacks. */
  lemma Spare<T>(a: seq<T>, b: seq<T>, c: T) returns (d: T)
    requires Distinct(a) && Distinct(b) && |a| == |b| && c in a && c !in b
    ensures d in b && d !in a
  {
    DistinctCardinality(a);
    DistinctCardinality(b);
    if Elements(b) <= Elements(a) - {c} { SubsetSize(Elements(b), Elements(a) - {c}); }
    d :| d in Elements(b) && d !in Elements(a);
  }

  /** With distinct ids, the listing is exactly the clauses of the target's document, the target
      aside, that some signal links to it. */
  lemma ListedExactly(target: Clause, neighbours: set<string>, records: seq<Clause>)
    requires DistinctIds(records)
    ensures forall c :: c in records && IsListed(target, neighbours, c) ==>
      c.clauseId in Listed(target, neighbours, records)
      && Listed(target, neighbours, records)[c.clauseId] == CandidateOf(target, neighbours, c)
    ensures forall id :: id in Listed(target, neighbours, records) ==>
      exists c :: c in records && IsListed(target, neighbours, c) && c.clauseId == id
  {
    forall c | c in records && IsListed(target, neighbours, c)
      ensures c.clauseId in Listed(target, neighbours, records)
      ensures Listed(target, neighbours, records)[c.clauseId] == CandidateOf(target, neighbours, c)
    {
      LinkedIsListed(target, neighbours, records, c);
    }
    forall id | id in Listed(target, neighbours, records)
      ensures exists c :: c in records && IsListed(target, neighbours, c) && c.clauseId == id
    {
      ListedIsLinked(target, neighbours, records, id);
    }
  }

  lemma {:induction false} LinkedIsListed(target: Clause, neighbours: set<string>, records: seq<Clause>, c: Clause)
    requires DistinctIds(records) && c in records && IsListed(target, neighbours, c)
    ensures c.clauseId in Listed(target, neighbours, records)
    ensures Listed(target, neighbours, records)[c.clauseId] == CandidateOf(target, neighbours, c)
  {
    var front, last := records[..|records| - 1], records[|records| - 1];
    SplitLast(records);
    if c in front {
      var i :| 0 <= i < |front| && front[i] == c;
      assert records[i].clauseId != records[|front|].clauseId;
      LinkedIsListed(target, neighbours, front, c);
    }
  }

  lemma {:induction false} ListedIsLinked(target: Clause, neighbours: set<string>, records: seq<Clause>, id: string)
    requires id in Listed(target, neighbours, records)
    ensures exists c :: c in records && IsListed(target, neighbours, c) && c.clauseId == id
  {
    var front, last := records[..|records| - 1], records[|records| - 1];
    SplitLast(records);
    if id in Listed(target, neighbours, front) {
      ListedIsLinked(target, neighbours, front, id);
    } else {
      assert IsListed(target, neighbours, last) && last.clauseId == id;
    }
  }

  /** At most three of the four signals can meet: document order only speaks where both the
      parent and the bundle signal are silent. */
  lemma AtMostThreeSignals(records: seq<Clause>, target: Clause, window: nat, c: Clause)
    ensures var reasons := Reasons(target, Neighbours(records, target, window), c);
      && |reasons| <= 3
      && (DocumentOrderNeighbour in reasons ==> SharedParent !in reasons && MatchingBundleSection !in reasons)
      && Distinct(reasons)
  {
    var n := Neighbours(records, target, window);
    assert n != {} ==> IsFree(target);
    assert !((SharesParent(target, c) || SharesBundle(target, c)) && c.clauseId in n);
    ReasonsExactly(target, n, c);
  }

  // ----- the list in the fields of its entries

  /** A shorter list of signals never comes before a longer one, equal ones come by id, and no clause
      that was cut off would have come before one that was kept. */
  lemma ListInFields(list: seq<Candidate>, listing: Listing, limit: nat, i: nat, d: Candidate)
    requires IsShortList(list, listing, limit) && i < |list|
    requires d in list[i + 1..] || (d in listing.Values && d !in list)
    ensures |list[i].reasons| > |d.reasons|
      || (|list[i].reasons| == |d.reasons| && StringLe(list[i].clauseId, d.clauseId))
  {
    if d in list[i + 1..] {
      var j :| 0 <= j < |list[i + 1..]| && list[i + 1..][j] == d;
      assert d == list[i + 1 + j] && RankOrder()(list[i], list[i + 1 + j]);
    } else {
      ListedBeforeOthers(list, listing, limit, list[i], d);
    }
  }

  /** What is listed: the document's other clauses with a signal, each with its title. */
  lemma ListedInFields(target: Clause, neighbours: set<string>, records: seq<Clause>, c: Clause)
    requires DistinctIds(records) && c in records
    ensures var listing, reasons := Listed(target, neighbours, records), Reasons(target, neighbours, c);
      && (c.clauseId in listing <==>
            c.documentId == target.documentId && c.clauseId != target.clauseId && reasons != [])
      && (c.clauseId in listing ==> listing[c.clauseId] == Candidate(c.clauseId, c.title, reasons))
  {
    ListedExactly(target, neighbours, records);
    if c.clauseId in Listed(target, neighbours, records) {
      var d :| d in records && IsListed(target, neighbours, d) && d.clauseId == c.clauseId;
      var i :| 0 <= i < |records| && records[i] == c;
      var j :| 0 <= j < |records| && records[j] == d;
    }
  }
}
