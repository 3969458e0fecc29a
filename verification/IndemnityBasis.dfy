/** Choosing which documents carry an indemnity-basis question
    (`select_indemnity_basis_documents` in scripts/casco_clause_selection.py).

    Documents are their numbers: the source keeps them as strings and orders them by `int`. */
module IndemnityBasis {
  import opened Ordering
  import opened Outcomes

  datatype Candidate = Candidate(isIndemnityBasis: bool, isSelectable: bool)

  /** `Unlisted` stands for a regime without a quota. */
  datatype Regime = VD | VMR | VDPlusVMR | Unlisted(name: string)

  const REGIMES: seq<Regime> := [VD, VMR, VDPlusVMR]

  function Quota(r: Regime): nat {
    if r.Unlisted? then 0 else 2
  }

  const MIN_INDEMNITY_BASIS_QUESTIONS := 5

  type Candidates = map<nat, seq<Candidate>>
  type Regimes = map<nat, Regime>

  predicate CarriesIndemnityBasis(candidates: seq<Candidate>) {
    exists c :: c in candidates && c.isIndemnityBasis && c.isSelectable
  }

  function Eligible(candidatesByDoc: Candidates): set<nat> {
    set d | d in candidatesByDoc && CarriesIndemnityBasis(candidatesByDoc[d])
  }

  // ----- what is promised

  function InRegime(docs: set<nat>, regimes: Regimes, r: Regime): set<nat>
    requires docs <= regimes.Keys
  {
    set d | d in docs && regimes[d] == r
  }

  /** The eligible documents of the same regime with a lower number. */
  function Ahead(docs: set<nat>, regimes: Regimes, d: nat): set<nat>
    requires docs <= regimes.Keys && d in docs
  {
    set e | e in InRegime(docs, regimes, regimes[d]) && e < d
  }

  predicate WithinQuota(docs: set<nat>, regimes: Regimes, d: nat)
    requires docs <= regimes.Keys && d in docs
  {
    |Ahead(docs, regimes, d)| < Quota(regimes[d])
  }

  /** The lowest-numbered documents of each regime, up to its quota. */
  function QuotaPart(docs: set<nat>, regimes: Regimes): set<nat>
    requires docs <= regimes.Keys
  {
    set d | d in docs && WithinQuota(docs, regimes, d)
  }

  /** The quota part, topped up with the lowest-numbered other documents to at least five
      where that many are eligible. */
  ghost predicate Choice(chosen: set<nat>, docs: set<nat>, regimes: Regimes)
    requires docs <= regimes.Keys
  {
    && QuotaPart(docs, regimes) <= chosen <= docs
    && |chosen| == Max(|QuotaPart(docs, regimes)|, Min(MIN_INDEMNITY_BASIS_QUESTIONS, |docs|))
    && forall d, e :: d in chosen - QuotaPart(docs, regimes) && e in docs - chosen ==> d < e
  }

  // ----- sorted groups

  function NatLe(): (nat, nat) -> bool {
    (a: nat, b: nat) => a <= b
  }

  ghost predicate Lists(xs: seq<nat>, docs: set<nat>) {
    Distinct(xs) && Elements(xs) == docs
  }

  ghost predicate Ascending(xs: seq<nat>) {
    forall i, j :: 0 <= i < j < |xs| ==> xs[i] < xs[j]
  }

  lemma SortLists(xs: seq<nat>, docs: set<nat>)
    requires Lists(xs, docs)
    ensures Lists(SortBy(xs, NatLe()), docs) && Ascending(SortBy(xs, NatLe()))
  {
    SortByDistinct(xs, NatLe());
    SortByElements(xs, NatLe());
    SortBySorts(xs, NatLe());
    var ys := SortBy(xs, NatLe());
    forall i, j | 0 <= i < j < |ys| ensures ys[i] < ys[j] { assert NatLe()(ys[i], ys[j]); }
  }

  /** In ascending order, the documents ahead of the i-th are the i before it. */
  lemma PlaceInOrder(xs: seq<nat>, docs: set<nat>, i: nat)
    requires Lists(xs, docs) && Ascending(xs) && i < |xs|
    ensures |set e | e in docs && e < xs[i]| == i
  {
    var front := xs[..i];
    DistinctCardinality(front);
    forall e ensures e in docs && e < xs[i] <==> e in front {
      if e in docs && e < xs[i] {
        var j :| 0 <= j < |xs| && xs[j] == e;
        assert j < i && front[j] == e;
      }
      if e in front {
        var j :| 0 <= j < |front| && front[j] == e;
        assert xs[j] == e;
      }
    }
    assert (set e | e in docs && e < xs[i]) == Elements(front);
  }

  type Groups = map<Regime, seq<nat>>

  function GroupAt(groups: Groups, r: Regime): seq<nat> {
    if r in groups then groups[r] else []
  }

  ghost predicate Grouped(groups: Groups, docs: set<nat>, regimes: Regimes)
    requires docs <= regimes.Keys
  {
    forall r :: Lists(GroupAt(groups, r), InRegime(docs, regimes, r))
  }

  ghost predicate Sorted(groups: Groups) {
    forall r :: r in groups ==> Ascending(groups[r])
  }

  lemma GroupNext(groups: Groups, docs: set<nat>, regimes: Regimes, d: nat)
    requires docs <= regimes.Keys && d in regimes && d !in docs && Grouped(groups, docs, regimes)
    ensures Grouped(groups[regimes[d] := GroupAt(groups, regimes[d]) + [d]], docs + {d}, regimes)
  {
    var next := groups[regimes[d] := GroupAt(groups, regimes[d]) + [d]];
    forall r ensures Lists(GroupAt(next, r), InRegime(docs + {d}, regimes, r)) {
      assert Lists(GroupAt(groups, r), InRegime(docs, regimes, r));
      if r == regimes[d] {
        assert d !in Elements(GroupAt(groups, r));
        DistinctSnoc(GroupAt(groups, r), d);
        assert InRegime(docs + {d}, regimes, r) == InRegime(docs, regimes, r) + {d};
      } else {
        assert InRegime(docs + {d}, regimes, r) == InRegime(docs, regimes, r);
      }
    }
  }

  method GroupEligible(candidatesByDoc: Candidates, regimes: Regimes) returns (r: Result<Groups, nat>)
    ensures r.Ok? <==> Eligible(candidatesByDoc) <= regimes.Keys
    ensures r.Ok? ==> Grouped(r.value, Eligible(candidatesByDoc), regimes)
    ensures r.Err? ==> r.error in Eligible(candidatesByDoc) && r.error !in regimes
  {
    var groups: Groups := map[];
    var todo := candidatesByDoc.Keys;
    ghost var done: set<nat> := {};
    while todo != {}
      invariant todo <= candidatesByDoc.Keys
      invariant done == Eligible(candidatesByDoc) - todo && done <= regimes.Keys
      invariant Grouped(groups, done, regimes)
      decreases todo
    {
      var d :| d in todo;
      todo := todo - {d};
      if CarriesIndemnityBasis(candidatesByDoc[d]) {
        if d !in regimes {
          return Err(d);
        }
        GroupNext(groups, done, regimes, d);
        groups := groups[regimes[d] := GroupAt(groups, regimes[d]) + [d]];
        done := done + {d};
      }
    }
    assert done == Eligible(candidatesByDoc);
    r := Ok(groups);
  }

  method SortGroups(groups: Groups, ghost docs: set<nat>, ghost regimes: Regimes) returns (sorted: Groups)
    requires docs <= regimes.Keys && Grouped(groups, docs, regimes)
    ensures Grouped(sorted, docs, regimes) && Sorted(sorted) && sorted.Keys == groups.Keys
  {
    sorted := groups;
    var todo := groups.Keys;
    while todo != {}
      invariant todo <= groups.Keys && sorted.Keys == groups.Keys
      invariant Grouped(sorted, docs, regimes)
      invariant forall r :: r in sorted && r !in todo ==> Ascending(sorted[r])
      decreases todo
    {
      var r :| r in todo;
      todo := todo - {r};
      assert Lists(GroupAt(sorted, r), InRegime(docs, regimes, r));
      SortLists(sorted[r], InRegime(docs, regimes, r));
      ghost var before := sorted;
      sorted := sorted[r := SortBy(sorted[r], NatLe())];
      forall q ensures Lists(GroupAt(sorted, q), InRegime(docs, regimes, q)) {
        assert Lists(GroupAt(before, q), InRegime(docs, regimes, q));
      }
    }
  }

  // ----- the quota loop and the top-up

  /** The quota part of the first regimes. */
  function QuotaPartOf(docs: set<nat>, regimes: Regimes, rs: seq<Regime>): set<nat>
    requires docs <= regimes.Keys
  {
    set d | d in QuotaPart(docs, regimes) && regimes[d] in rs
  }

  /** A regime's quota part is the beginning of its sorted list. */
  lemma QuotaIsPrefix(xs: seq<nat>, docs: set<nat>, regimes: Regimes, r: Regime)
    requires docs <= regimes.Keys
    requires Lists(xs, InRegime(docs, regimes, r)) && Ascending(xs)
    ensures Elements(xs[..Min(Quota(r), |xs|)]) == set d | d in QuotaPart(docs, regimes) && regimes[d] == r
  {
    var k := Min(Quota(r), |xs|);
    forall d ensures d in xs[..k] <==> d in QuotaPart(docs, regimes) && regimes[d] == r {
      if d in InRegime(docs, regimes, r) {
        assert d in Elements(xs);
        var i :| 0 <= i < |xs| && xs[i] == d;
        PlaceInOrder(xs, InRegime(docs, regimes, r), i);
        assert Ahead(docs, regimes, d) == set e | e in InRegime(docs, regimes, r) && e < xs[i];
        InTake(xs, i, k);
        assert d in xs[..k] ==> i < k;
      } else {
        assert d in xs[..k] ==> d in Elements(xs);
      }
    }
  }

  lemma AllRegimesListed(docs: set<nat>, regimes: Regimes)
    requires docs <= regimes.Keys
    ensures QuotaPartOf(docs, regimes, REGIMES) == QuotaPart(docs, regimes)
  {
    forall d | d in QuotaPart(docs, regimes) ensures regimes[d] in REGIMES {
      assert !regimes[d].Unlisted?;
      assert REGIMES[0] == VD && REGIMES[1] == VMR && REGIMES[2] == VDPlusVMR;
    }
  }

  method TakeQuotas(groups: Groups, ghost docs: set<nat>, ghost regimes: Regimes) returns (chosen: set<nat>)
    requires docs <= regimes.Keys && Grouped(groups, docs, regimes) && Sorted(groups)
    ensures chosen == QuotaPart(docs, regimes)
  {
    chosen := {};
    for i := 0 to |REGIMES|
      invariant chosen == QuotaPartOf(docs, regimes, REGIMES[..i])
    {
      var r := REGIMES[i];
      var group := GroupAt(groups, r);
      assert Lists(group, InRegime(docs, regimes, r)) && Ascending(group);
      QuotaIsPrefix(group, docs, regimes, r);
      chosen := chosen + Elements(group[..Min(Quota(r), |group|)]);
      assert REGIMES[..i + 1] == REGIMES[..i] + [r];
    }
    assert REGIMES[..|REGIMES|] == REGIMES;
    AllRegimesListed(docs, regimes);
  }

  /** All eligible documents not chosen yet, in ascending order. */
  method Remaining(groups: Groups, chosen: set<nat>, ghost docs: set<nat>, ghost regimes: Regimes)
    returns (remaining: seq<nat>)
    requires docs <= regimes.Keys && Grouped(groups, docs, regimes)
    ensures Lists(remaining, docs - chosen) && Ascending(remaining)
  {
    var open: seq<nat> := [];
    var todo := groups.Keys;
    ghost var seen: set<nat> := {};
    while todo != {}
      invariant todo <= groups.Keys
      invariant seen == set d | d in docs && regimes[d] in groups.Keys - todo
      invariant Lists(open, seen - chosen)
      decreases todo
    {
      var r :| r in todo;
      todo := todo - {r};
      assert Lists(GroupAt(groups, r), InRegime(docs, regimes, r));
      AppendOpen(open, seen, groups[r], InRegime(docs, regimes, r), chosen);
      open := open + Filter(groups[r], NotIn(chosen));
      seen := seen + InRegime(docs, regimes, r);
    }
    forall d | d in docs ensures regimes[d] in groups {
      assert Lists(GroupAt(groups, regimes[d]), InRegime(docs, regimes, regimes[d]));
      assert d in InRegime(docs, regimes, regimes[d]);
    }
    assert seen == docs;
    SortLists(open, docs - chosen);
    remaining := SortBy(open, NatLe());
  }

  function NotIn(chosen: set<nat>): nat -> bool {
    (d: nat) => d !in chosen
  }

  lemma AppendOpen(open: seq<nat>, seen: set<nat>, group: seq<nat>, docs: set<nat>, chosen: set<nat>)
    requires Lists(open, seen - chosen) && Lists(group, docs) && seen !! docs
    ensures Lists(open + Filter(group, NotIn(chosen)), seen + docs - chosen)
  {
    var more := Filter(group, NotIn(chosen));
    FilterElements(group, NotIn(chosen));
    FilterDistinct(group, NotIn(chosen));
    forall d | d in more ensures d in docs && d !in open {
      assert d in Elements(group);
      assert d in open ==> d in Elements(open);
    }
    DistinctConcat(open, more);
    forall d ensures d in open + more <==> d in seen + docs - chosen {
      assert d in open <==> d in Elements(open);
      assert d in group <==> d in Elements(group);
    }
  }

  method TopUp(base: set<nat>, remaining: seq<nat>, ghost docs: set<nat>) returns (chosen: set<nat>)
    requires base <= docs && Lists(remaining, docs - base) && Ascending(remaining)
    ensures base <= chosen <= docs
    ensures |chosen| == Max(|base|, Min(MIN_INDEMNITY_BASIS_QUESTIONS, |docs|))
    ensures forall d, e :: d in chosen - base && e in docs - chosen ==> d < e
  {
    chosen := base;
    var i := 0;
    RemainingSize(base, remaining, docs);
    while i < |remaining| && |chosen| < MIN_INDEMNITY_BASIS_QUESTIONS
      invariant i <= |remaining|
      invariant chosen == UpTo(base, remaining, i) && |chosen| == |base| + i
      invariant i > 0 ==> |chosen| <= MIN_INDEMNITY_BASIS_QUESTIONS
    {
      TakeNext(base, remaining, docs, i);
      chosen := chosen + {remaining[i]};
      i := i + 1;
    }
    LowestTaken(base, remaining, docs, i, chosen);
  }

  lemma RemainingSize(base: set<nat>, remaining: seq<nat>, docs: set<nat>)
    requires base <= docs && Lists(remaining, docs - base)
    ensures |docs| == |base| + |remaining|
  {
    DistinctCardinality(remaining);
    assert docs == base + (docs - base);
  }

  function UpTo(base: set<nat>, remaining: seq<nat>, i: nat): set<nat>
    requires i <= |remaining|
  {
    base + Elements(remaining[..i])
  }

  lemma TakeNext(base: set<nat>, remaining: seq<nat>, docs: set<nat>, i: nat)
    requires base <= docs && Lists(remaining, docs - base) && i < |remaining|
    ensures UpTo(base, remaining, i + 1) == UpTo(base, remaining, i) + {remaining[i]}
    ensures |UpTo(base, remaining, i + 1)| == |UpTo(base, remaining, i)| + 1
  {
    assert remaining[..i + 1] == remaining[..i] + [remaining[i]];
    assert remaining[i] in Elements(remaining);
  }

  lemma LowestTaken(base: set<nat>, remaining: seq<nat>, docs: set<nat>, i: nat, chosen: set<nat>)
    requires base <= docs && Lists(remaining, docs - base) && Ascending(remaining)
    requires i <= |remaining| && chosen == UpTo(base, remaining, i)
    ensures chosen <= docs
    ensures forall d, e :: d in chosen - base && e in docs - chosen ==> d < e
  {
    forall d | d in remaining[..i] ensures d in docs { assert d in Elements(remaining); }
    forall d, e | d in chosen - base && e in docs - chosen ensures d < e {
      assert e in Elements(remaining);
      var j :| 0 <= j < i && remaining[..i][j] == d;
      var k :| 0 <= k < |remaining| && remaining[k] == e;
      InTake(remaining, k, i);
    }
  }

  /** `select_indemnity_basis_documents`; an eligible document without a regime is the lookup error. */
  method SelectIndemnityBasisDocuments(candidatesByDoc: Candidates, regimes: Regimes) returns (r: Result<set<nat>, nat>)
    ensures r.Ok? <==> Eligible(candidatesByDoc) <= regimes.Keys
    ensures r.Ok? ==> Choice(r.value, Eligible(candidatesByDoc), regimes)
    ensures r.Err? ==> r.error in Eligible(candidatesByDoc) && r.error !in regimes
  {
    ghost var docs := Eligible(candidatesByDoc);
    var grouped := GroupEligible(candidatesByDoc, regimes);
    if grouped.Err? {
      return Err(grouped.error);
    }
    var groups := SortGroups(grouped.value, docs, regimes);
    var chosen := TakeQuotas(groups, docs, regimes);
    if |chosen| < MIN_INDEMNITY_BASIS_QUESTIONS {
      var remaining := Remaining(groups, chosen, docs, regimes);
      chosen := TopUp(chosen, remaining, docs);
    } else {
      SubsetSize(chosen, docs);
    }
    r := Ok(chosen);
  }

  // ----- what the choice means

  lemma LowerIsChosen(chosen: set<nat>, docs: set<nat>, regimes: Regimes, d: nat, e: nat)
    requires docs <= regimes.Keys && Choice(chosen, docs, regimes)
    requires d in chosen && d !in QuotaPart(docs, regimes) && e in docs && e !in chosen
    ensures d < e
  {
    assert d in chosen - QuotaPart(docs, regimes) && e in docs - chosen;
  }

  /** The choice is determined by the eligible documents and their regimes. */
  lemma ChoiceUnique(a: set<nat>, b: set<nat>, docs: set<nat>, regimes: Regimes)
    requires docs <= regimes.Keys
    requires Choice(a, docs, regimes) && Choice(b, docs, regimes)
    ensures a == b
  {
    if d :| d in a && d !in b {
      if e :| e in b && e !in a {
        LowerIsChosen(a, docs, regimes, d, e);
        LowerIsChosen(b, docs, regimes, e, d);
      } else {
        SubsetSize(b, a - {d});
      }
    } else {
      SubsetSize(a, b);
      if e :| e in b && e !in a { SubsetSize(a, b - {e}); }
    }
  }

  /** In every regime the chosen documents are its lowest-numbered ones: no eligible document
      is passed over for a later one of its regime, top-up included. */
  lemma LowestOfEveryRegime(chosen: set<nat>, docs: set<nat>, regimes: Regimes, d: nat, e: nat)
    requires docs <= regimes.Keys && Choice(chosen, docs, regimes)
    requires d in chosen && e in docs && regimes[e] == regimes[d] && e < d
    ensures e in chosen
  {
    if d in QuotaPart(docs, regimes) {
      assert Ahead(docs, regimes, e) <= Ahead(docs, regimes, d);
      SubsetSize(Ahead(docs, regimes, e), Ahead(docs, regimes, d));
      assert e in QuotaPart(docs, regimes);
    } else {
      assert d in chosen - QuotaPart(docs, regimes);
      assert e !in chosen ==> e in docs - chosen;
    }
  }

  /** The quota part has min(quota, eligible) documents of every regime. */
  lemma QuotaPartOfRegime(docs: set<nat>, regimes: Regimes, r: Regime)
    requires docs <= regimes.Keys
    ensures |InRegime(QuotaPart(docs, regimes), regimes, r)| == Min(Quota(r), |InRegime(docs, regimes, r)|)
  {
    var xs := AscendingList(InRegime(docs, regimes, r));
    var k := Min(Quota(r), |xs|);
    QuotaIsPrefix(xs, docs, regimes, r);
    DistinctCardinality(xs);
    DistinctCardinality(xs[..k]);
    assert InRegime(QuotaPart(docs, regimes), regimes, r) == Elements(xs[..k]);
  }

  lemma {:induction false} AscendingList(docs: set<nat>) returns (xs: seq<nat>)
    ensures Lists(xs, docs) && Ascending(xs)
    decreases |docs|
  {
    if docs == {} {
      xs := [];
    } else {
      var d :| d in docs;
      var rest := AscendingList(docs - {d});
      assert d !in Elements(rest);
      DistinctSnoc(rest, d);
      assert Elements(rest + [d]) == Elements(rest) + {d} == docs;
      SortLists(rest + [d], docs);
      xs := SortBy(rest + [d], NatLe());
    }
  }

  /** How many documents are chosen: the quotas' worth, or five where the corpus has them. */
  lemma ChoiceSize(chosen: set<nat>, docs: set<nat>, regimes: Regimes)
    requires docs <= regimes.Keys && Choice(chosen, docs, regimes)
    ensures var quotas := Min(2, |InRegime(docs, regimes, VD)|) + Min(2, |InRegime(docs, regimes, VMR)|)
                          + Min(2, |InRegime(docs, regimes, VDPlusVMR)|);
      |chosen| == Max(quotas, Min(5, |docs|))
    ensures |chosen| >= MIN_INDEMNITY_BASIS_QUESTIONS <==> |docs| >= MIN_INDEMNITY_BASIS_QUESTIONS
    ensures |chosen| <= 6
  {
    var q := QuotaPart(docs, regimes);
    QuotaPartOfRegime(docs, regimes, VD);
    QuotaPartOfRegime(docs, regimes, VMR);
    QuotaPartOfRegime(docs, regimes, VDPlusVMR);
    forall d | d in q ensures !regimes[d].Unlisted? { assert WithinQuota(docs, regimes, d); }
    SplitByRegime(q, regimes);
    SubsetSize(q, docs);
  }

  lemma SplitByRegime(q: set<nat>, regimes: Regimes)
    requires q <= regimes.Keys && forall d :: d in q ==> !regimes[d].Unlisted?
    ensures |q| == |InRegime(q, regimes, VD)| + |InRegime(q, regimes, VMR)| + |InRegime(q, regimes, VDPlusVMR)|
  {
    var a, b, c := InRegime(q, regimes, VD), InRegime(q, regimes, VMR), InRegime(q, regimes, VDPlusVMR);
    assert q == a + b + c;
    assert a !! b && (a + b) !! c;
  }

  /** A document is eligible if and only if one and the same of its clauses is an indemnity-basis
      clause and selectable. */
  lemma EligibleExactly(candidatesByDoc: Candidates, d: nat)
    ensures d in Eligible(candidatesByDoc) <==>
      d in candidatesByDoc && Candidate(true, true) in candidatesByDoc[d]
  {
    if d in Eligible(candidatesByDoc) {
      var c :| c in candidatesByDoc[d] && c.isIndemnityBasis && c.isSelectable;
      assert c == Candidate(true, true);
    }
  }
}
