/** The stratified top-up draw (`era_bucket`, `draw_stratified_sample` in
    scripts/sample_parsing_quality.py). The seeded sampler is an arbitrary one:
    every promise below holds whatever it picks. */
module StratifiedDraw {
  import opened Ordering
  import opened Outcomes
  import opened EraQuota

  datatype Record = Record(clauseId: string, productLine: string, source: string, filingYear: int)

  datatype Cell = Cell(productLine: string, source: string)

  datatype DrawError =
    | CellTooSmall(cell: Cell, have: nat, need: nat)
    | YearOutsideEras(year: int)
    | SampleLargerThanPopulation

  datatype Bucket = Bucket(name: Era, start: int, end: int)

  const ERA_BUCKETS: seq<Bucket> := [
    Bucket("2004-2009", 2004, 2009),
    Bucket("2010-2016", 2010, 2016),
    Bucket("2017-2021", 2017, 2021),
    Bucket("2022-2025", 2022, 2025)
  ]

  function FirstBucket(buckets: seq<Bucket>, year: int): Option<Era> {
    if buckets == [] then None
    else if buckets[0].start <= year <= buckets[0].end then Some(buckets[0].name)
    else FirstBucket(buckets[1..], year)
  }

  function EraBucket(year: int): Option<Era> {
    FirstBucket(ERA_BUCKETS, year)
  }

  /** A year has an era exactly when it lies in 2004-2025, and the era is the bucket that spans it. */
  lemma EraBucketCoversYears(year: int)
    ensures EraBucket(year).Some? <==> 2004 <= year <= 2025
    ensures forall b :: b in ERA_BUCKETS ==> (EraBucket(year) == Some(b.name) <==> b.start <= year <= b.end)
  {
    var b0, b1, b2, b3 := ERA_BUCKETS[0], ERA_BUCKETS[1], ERA_BUCKETS[2], ERA_BUCKETS[3];
    assert ERA_BUCKETS[1..] == [b1, b2, b3];
    assert [b1, b2, b3][1..] == [b2, b3];
    assert [b2, b3][1..] == [b3];
    assert [b3][1..] == [];
    assert EraBucket(year) ==
      if 2004 <= year <= 2009 then Some(b0.name) else FirstBucket([b1, b2, b3], year);
    assert FirstBucket([b1, b2, b3], year) ==
      if 2010 <= year <= 2016 then Some(b1.name) else FirstBucket([b2, b3], year);
    assert FirstBucket([b2, b3], year) ==
      if 2017 <= year <= 2021 then Some(b2.name) else FirstBucket([b3], year);
    assert FirstBucket([b3], year) == if 2022 <= year <= 2025 then Some(b3.name) else None;
    assert b0.name[3] == '4' && b1.name[3] == '0' && b2.name[3] == '7' && b3.name[3] == '2';
  }

  /** The buckets by name. */
  lemma EraOfYear(year: int)
    ensures EraBucket(year) ==
      if 2004 <= year <= 2009 then Some("2004-2009")
      else if 2010 <= year <= 2016 then Some("2010-2016")
      else if 2017 <= year <= 2021 then Some("2017-2021")
      else if 2022 <= year <= 2025 then Some("2022-2025")
      else None
  {
    EraBucketCoversYears(year);
    assert ERA_BUCKETS[0] in ERA_BUCKETS && ERA_BUCKETS[1] in ERA_BUCKETS
      && ERA_BUCKETS[2] in ERA_BUCKETS && ERA_BUCKETS[3] in ERA_BUCKETS;
  }

  function EraLabel(r: Record): Era {
    match EraBucket(r.filingYear)
    case Some(era) => era
    case None => ""
  }

  function CellOf(r: Record): Cell { Cell(r.productLine, r.source) }

  function InCell(cell: Cell): Record -> bool { r => CellOf(r) == cell }

  function InEra(era: Era): Record -> bool { r => EraLabel(r) == era }

  function Pool(records: seq<Record>, cell: Cell): seq<Record> { Filter(records, InCell(cell)) }

  /** Eras in the order a pool first mentions them: the iteration order of `by_era`. */
  function EraOrder(pool: seq<Record>): seq<Era> {
    if pool == [] then []
    else if EraLabel(pool[|pool| - 1]) in EraOrder(pool[..|pool| - 1]) then EraOrder(pool[..|pool| - 1])
    else EraOrder(pool[..|pool| - 1]) + [EraLabel(pool[|pool| - 1])]
  }

  /** How many of `xs` fall into each of the eras. */
  function Tally(eras: seq<Era>, xs: seq<Record>): map<Era, nat> {
    map e | e in eras :: |Filter(xs, InEra(e))|
  }

  // ----- eras and their counts

  lemma {:induction false} EraOrderIsDict(pool: seq<Record>)
    ensures Distinct(EraOrder(pool))
    ensures forall e :: e in EraOrder(pool) <==> exists r :: r in pool && EraLabel(r) == e
  {
    if pool != [] {
      var front, last := pool[..|pool| - 1], pool[|pool| - 1];
      EraOrderIsDict(front);
      assert pool == front + [last];
      forall e | e in EraOrder(pool) ensures exists r :: r in pool && EraLabel(r) == e {
        if e in EraOrder(front) {
          var r :| r in front && EraLabel(r) == e;
          assert r in pool;
        } else {
          assert last in pool && EraLabel(last) == e;
        }
      }
      forall e | exists r :: r in pool && EraLabel(r) == e ensures e in EraOrder(pool) {
        var r :| r in pool && EraLabel(r) == e;
        if r in front { assert e in EraOrder(front); }
      }
    }
  }

  /** Every record falls into exactly one era, so the tally adds up to the number of records. */
  lemma {:induction false} TallyTotal(eras: seq<Era>, xs: seq<Record>)
    requires Distinct(eras)
    requires forall x :: x in xs ==> EraLabel(x) in eras
    ensures Total(eras, Tally(eras, xs)) == |xs|
  {
    if xs == [] {
      ZeroTotal(eras, Tally(eras, xs));
    } else {
      var front, last := xs[..|xs| - 1], xs[|xs| - 1];
      assert xs == front + [last];
      TallyTotal(eras, front);
      var bumped := {EraLabel(last)};
      forall e | e in eras
        ensures Tally(eras, xs)[e] == Tally(eras, front)[e] + (if e in bumped then 1 else 0)
      {
        FilterSnoc(front, last, InEra(e));
      }
      TotalBump(eras, Tally(eras, front), Tally(eras, xs), bumped);
      assert last in xs;
      assert (set e | e in eras && e in bumped) == bumped;
    }
  }

  /** A pool of one era split as a whole is also the largest-remainder split. */
  lemma SingleEraSplit(era: Era, counts: map<Era, nat>, quota: nat, alloc: map<Era, int>)
    requires era in counts && era in alloc && alloc[era] == quota <= counts[era]
    ensures LargestRemainder([era], counts, quota, alloc)
  {
    var n := counts[era];
    assert [era][1..] == [];
    assert Total([era], counts) == n && Total([era], alloc) == quota;
    if n > 0 {
      assert quota * n / n == quota && quota * n % n == 0 by { ExactDivision(quota, n); }
    }
  }

  lemma ExactDivision(q: nat, n: nat)
    requires n > 0
    ensures q * n / n == q && q * n % n == 0
  {
    Division(q * n, n);
    var d := q * n / n;
    if d < q { MulMonotone(d + 1, q, n); }
    if d > q { MulMonotone(q + 1, d, n); }
  }

  // ----- the sampler

  /** `rng.sample`: some k of the population, without replacement. */
  method RngSample(population: seq<Record>, k: int) returns (r: Result<seq<Record>, DrawError>)
    ensures r.Ok? <==> 0 <= k <= |population|
    ensures r.Err? ==> r.error == SampleLargerThanPopulation
    ensures r.Ok? ==> |r.value| == k && multiset(r.value) <= multiset(population)
  {
    if k < 0 || k > |population| {
      return Err(SampleLargerThanPopulation);
    }
    var left, picked := population, [];
    while |picked| < k
      invariant |picked| <= k && |left| + |picked| == |population|
      invariant multiset(left) + multiset(picked) == multiset(population)
    {
      var i: nat :| i < |left|;
      assert left == left[..i] + [left[i]] + left[i + 1..];
      picked := picked + [left[i]];
      left := left[..i] + left[i + 1..];
    }
    r := Ok(picked);
  }

  // ----- one cell

  /** What a draw of `quota` clauses from a pool must look like. */
  ghost predicate ProportionalDraw(pool: seq<Record>, quota: nat, drawn: seq<Record>) {
    var eras := EraOrder(pool);
    && |drawn| == quota
    && multiset(drawn) <= multiset(pool)
    && LargestRemainder(eras, Tally(eras, pool), quota, Tally(eras, drawn))
  }

  function FirstBadYear(pool: seq<Record>): Option<int> {
    if pool == [] then None
    else if EraBucket(pool[0].filingYear).None? then Some(pool[0].filingYear)
    else FirstBadYear(pool[1..])
  }

  lemma {:induction false} NoBadYear(pool: seq<Record>)
    ensures FirstBadYear(pool).None? <==> forall r :: r in pool ==> EraBucket(r.filingYear).Some?
  {
    if pool != [] {
      NoBadYear(pool[1..]);
      assert pool == [pool[0]] + pool[1..];
    }
  }

  /** Groups a pool by era, in order of first appearance. */
  method GroupByEra(pool: seq<Record>) returns (bad: Option<int>, eras: seq<Era>, byEra: map<Era, seq<Record>>)
    ensures bad == FirstBadYear(pool)
    ensures bad.None? ==> Grouped(pool, eras, byEra)
  {
    bad, eras, byEra := None, [], map[];
    for i := 0 to |pool|
      invariant bad == None && FirstBadYear(pool) == FirstBadYear(pool[i..])
      invariant Grouped(pool[..i], eras, byEra)
    {
      var bucket := EraBucket(pool[i].filingYear);
      assert pool[i..][0] == pool[i] && pool[i..][1..] == pool[i + 1..];
      if bucket.None? {
        return Some(pool[i].filingYear), eras, byEra;
      }
      var era := bucket.value;
      GroupStep(pool, i, eras, byEra);
      var before := if era in byEra then byEra[era] else [];
      if era !in byEra {
        eras := eras + [era];
      }
      byEra := byEra[era := before + [pool[i]]];
    }
    assert pool[..|pool|] == pool && pool[|pool|..] == [];
  }

  ghost predicate Grouped(pool: seq<Record>, eras: seq<Era>, byEra: map<Era, seq<Record>>) {
    && eras == EraOrder(pool) && byEra.Keys == Elements(eras)
    && forall e :: e in eras ==> byEra[e] == Filter(pool, InEra(e))
  }

  lemma GroupStep(pool: seq<Record>, i: nat, eras: seq<Era>, byEra: map<Era, seq<Record>>)
    requires i < |pool| && EraBucket(pool[i].filingYear).Some?
    requires Grouped(pool[..i], eras, byEra)
    ensures var era := EraLabel(pool[i]);
            var eras' := if era in byEra then eras else eras + [era];
            var before := if era in byEra then byEra[era] else [];
            Grouped(pool[..i + 1], eras', byEra[era := before + [pool[i]]])
  {
    assert pool[..i + 1] == pool[..i] + [pool[i]];
    GroupNext(pool[..i], pool[i], eras, byEra);
  }

  lemma GroupNext(pool: seq<Record>, r: Record, eras: seq<Era>, byEra: map<Era, seq<Record>>)
    requires Grouped(pool, eras, byEra)
    ensures var era := EraLabel(r);
            var eras' := if era in byEra then eras else eras + [era];
            var before := if era in byEra then byEra[era] else [];
            Grouped(pool + [r], eras', byEra[era := before + [r]])
  {
    var next, era := pool + [r], EraLabel(r);
    assert next[..|next| - 1] == pool;
    forall e ensures Filter(next, InEra(e)) == Filter(pool, InEra(e)) + (if era == e then [r] else []) {
      FilterSnoc(pool, r, InEra(e));
    }
    if era !in eras {
      EraOrderIsDict(pool);
      FilterNone(pool, InEra(era));
    }
  }

  /** The draw from one cell's pool; the sampler is never asked for more than there is. */
  method DrawCell(pool: seq<Record>, quota: nat) returns (r: Result<seq<Record>, DrawError>)
    requires quota <= |pool|
    ensures r.Ok? <==> FirstBadYear(pool).None?
    ensures r.Err? ==> r.error == YearOutsideEras(FirstBadYear(pool).value)
    ensures r.Ok? ==> ProportionalDraw(pool, quota, r.value)
  {
    var bad, eras, byEra := GroupByEra(pool);
    if bad.Some? {
      return Err(YearOutsideEras(bad.value));
    }
    if |eras| == 1 {
      r := RngSample(pool, quota);
      WholePoolDraw(pool, quota, r.value);
    } else {
      var drawn := DrawByEra(pool, quota, eras, byEra);
      r := Ok(drawn);
    }
  }

  /** Splits the quota over the eras of the pool and samples each era for its part. */
  method DrawByEra(pool: seq<Record>, quota: nat, eras: seq<Era>, byEra: map<Era, seq<Record>>)
    returns (drawn: seq<Record>)
    requires quota <= |pool| && Grouped(pool, eras, byEra)
    ensures ProportionalDraw(pool, quota, drawn)
  {
    PoolTallies(pool, eras);
    var eraCounts := map e | e in byEra :: |byEra[e]|;
    assert eraCounts == Tally(eras, pool);
    var eraQuota := AllocateEraQuota(eras, eraCounts, quota);
    drawn := [];
    for k := 0 to |eras|
      invariant DrawnEras(pool, eras, k, eraQuota, drawn)
    {
      var part := RngSample(byEra[eras[k]], eraQuota[eras[k]]);
      EraPart(pool, eras, k, eraQuota, drawn, part.value);
      drawn := drawn + part.value;
    }
    SplitDraw(pool, quota, eras, eraQuota, drawn);
  }

  /** The state of a cell's draw after its first k eras. */
  ghost predicate DrawnEras(pool: seq<Record>, eras: seq<Era>, k: nat, alloc: map<Era, int>, drawn: seq<Record>)
    requires k <= |eras| && forall e :: e in eras ==> e in alloc
  {
    && multiset(drawn) <= multiset(pool)
    && (forall x :: x in drawn ==> EraLabel(x) in eras[..k])
    && (forall j :: 0 <= j < k ==> |Filter(drawn, InEra(eras[j]))| == alloc[eras[j]])
  }

  lemma PoolTallies(pool: seq<Record>, eras: seq<Era>)
    requires eras == EraOrder(pool)
    ensures Distinct(eras) && Total(eras, Tally(eras, pool)) == |pool|
  {
    EraOrderIsDict(pool);
    TallyTotal(eras, pool);
  }

  lemma WholePoolDraw(pool: seq<Record>, quota: nat, drawn: seq<Record>)
    requires |EraOrder(pool)| == 1 && quota <= |pool|
    requires |drawn| == quota && multiset(drawn) <= multiset(pool)
    ensures ProportionalDraw(pool, quota, drawn)
  {
    var eras := EraOrder(pool);
    var era := eras[0];
    EraOrderIsDict(pool);
    assert eras == [era];
    SubMultisetElements(drawn, pool);
    TallyTotal(eras, pool);
    TallyTotal(eras, drawn);
    assert [era][1..] == [];
    SingleEraSplit(era, Tally(eras, pool), quota, Tally(eras, drawn));
  }

  lemma SubMultisetElements<T>(xs: seq<T>, ys: seq<T>)
    requires multiset(xs) <= multiset(ys)
    ensures forall x :: x in xs ==> x in ys
  {
    forall x | x in xs ensures x in ys { assert x in multiset(xs); assert x in multiset(ys); }
  }

  /** Adding a sample of the kept records to one of the others stays inside the pool. */
  lemma PartFits(pool: seq<Record>, drawn: seq<Record>, part: seq<Record>, keep: Record -> bool)
    requires multiset(drawn) <= multiset(pool) && multiset(part) <= multiset(Filter(pool, keep))
    requires forall x :: x in drawn ==> !keep(x)
    ensures multiset(drawn + part) <= multiset(pool)
  {
    SubMultisetElements(part, Filter(pool, keep));
    FilterElements(pool, keep);
    forall x ensures multiset(drawn + part)[x] <= multiset(pool)[x] {
      FilterMultiset(pool, keep, x);
      assert multiset(drawn + part)[x] == multiset(drawn)[x] + multiset(part)[x];
      assert x in part ==> x !in drawn;
    }
  }

  /** Adding one era's sample to what earlier eras contributed. */
  lemma EraPart(pool: seq<Record>, eras: seq<Era>, k: nat, alloc: map<Era, int>, drawn: seq<Record>, part: seq<Record>)
    requires DictOrder(eras, alloc) && k < |eras|
    requires DrawnEras(pool, eras, k, alloc, drawn)
    requires multiset(part) <= multiset(Filter(pool, InEra(eras[k]))) && |part| == alloc[eras[k]]
    ensures DrawnEras(pool, eras, k + 1, alloc, drawn + part)
  {
    NewEra(pool, eras, k, drawn, part);
    PartFits(pool, drawn, part, InEra(eras[k]));
    EraCounts(eras, k, drawn, part);
  }

  /** The part lies in the next era, which no earlier record has. */
  lemma NewEra(pool: seq<Record>, eras: seq<Era>, k: nat, drawn: seq<Record>, part: seq<Record>)
    requires Distinct(eras) && k < |eras|
    requires forall x :: x in drawn ==> EraLabel(x) in eras[..k]
    requires multiset(part) <= multiset(Filter(pool, InEra(eras[k])))
    ensures forall x :: x in part ==> EraLabel(x) == eras[k]
    ensures forall x :: x in drawn ==> EraLabel(x) != eras[k]
    ensures forall x :: x in drawn + part ==> EraLabel(x) in eras[..k + 1]
  {
    SubMultisetElements(part, Filter(pool, InEra(eras[k])));
    FilterElements(pool, InEra(eras[k]));
    assert eras[..k + 1] == eras[..k] + [eras[k]];
    assert eras[k] !in eras[..k];
  }

  lemma EraCounts(eras: seq<Era>, k: nat, drawn: seq<Record>, part: seq<Record>)
    requires Distinct(eras) && k < |eras|
    requires forall x :: x in part ==> EraLabel(x) == eras[k]
    requires forall x :: x in drawn ==> EraLabel(x) != eras[k]
    ensures forall j :: 0 <= j < k ==> |Filter(drawn + part, InEra(eras[j]))| == |Filter(drawn, InEra(eras[j]))|
    ensures |Filter(drawn + part, InEra(eras[k]))| == |part|
  {
    forall j | 0 <= j < k ensures |Filter(drawn + part, InEra(eras[j]))| == |Filter(drawn, InEra(eras[j]))| {
      EraGains(drawn, part, eras[j], eras[k]);
    }
    EraGains(drawn, part, eras[k], eras[k]);
  }

  /** A part of one era adds itself to that era's records and nothing to another's. */
  lemma EraGains(drawn: seq<Record>, part: seq<Record>, era: Era, e: Era)
    requires forall x :: x in part ==> EraLabel(x) == e
    requires forall x :: x in drawn ==> EraLabel(x) != e
    ensures era == e ==> |Filter(drawn + part, InEra(era))| == |part|
    ensures era != e ==> |Filter(drawn + part, InEra(era))| == |Filter(drawn, InEra(era))|
  {
    FilterAppend(drawn, part, InEra(era));
    if era == e {
      FilterNone(drawn, InEra(era));
      FilterAll(part, InEra(era));
    } else {
      FilterNone(part, InEra(era));
    }
  }

  lemma SplitDraw(pool: seq<Record>, quota: nat, eras: seq<Era>, alloc: map<Era, int>, drawn: seq<Record>)
    requires eras == EraOrder(pool) && DictOrder(eras, alloc)
    requires quota <= |pool| == Total(eras, Tally(eras, pool))
    requires Total(eras, alloc) == quota
    requires LargestRemainder(eras, Tally(eras, pool), quota, alloc)
    requires DrawnEras(pool, eras, |eras|, alloc, drawn)
    ensures ProportionalDraw(pool, quota, drawn)
  {
    assert eras[..|eras|] == eras;
    TallyIsSplit(eras, alloc, drawn);
    TallyTotal(eras, drawn);
  }

  lemma TallyIsSplit(eras: seq<Era>, alloc: map<Era, int>, drawn: seq<Record>)
    requires DictOrder(eras, alloc)
    requires forall j :: 0 <= j < |eras| ==> |Filter(drawn, InEra(eras[j]))| == alloc[eras[j]]
    ensures Tally(eras, drawn) == alloc
  {
  }

  /** No other `quota` clauses of the pool match the pool's eras more closely,
      for any convex penalty on an era's deviation from its exact share. */
  lemma ProportionalDrawIsClosest(pool: seq<Record>, quota: nat, drawn: seq<Record>, other: seq<Record>,
                                  penalty: int -> int)
    requires pool != [] && ProportionalDraw(pool, quota, drawn)
    requires |other| == quota && multiset(other) <= multiset(pool)
    requires ConvexStep(penalty, |pool|)
    ensures var eras := EraOrder(pool);
            Deviation(eras, Tally(eras, pool), quota, |pool|, Tally(eras, drawn), penalty)
              <= Deviation(eras, Tally(eras, pool), quota, |pool|, Tally(eras, other), penalty)
  {
    var eras := EraOrder(pool);
    PoolTallies(pool, eras);
    EraOrderIsDict(pool);
    SubMultisetElements(other, pool);
    TallyTotal(eras, other);
    assert multiset(other) <= multiset(pool);
    MultisetSize(other, pool);
    LargestRemainderOptimal(eras, Tally(eras, pool), quota, Tally(eras, drawn), Tally(eras, other), penalty);
  }

  lemma MultisetSize<T>(xs: seq<T>, ys: seq<T>)
    requires multiset(xs) <= multiset(ys)
    ensures |xs| <= |ys|
  {
    var d := multiset(ys) - multiset(xs);
    assert multiset(ys) == multiset(xs) + d;
    assert |multiset(ys)| == |multiset(xs)| + |d|;
    assert |multiset(xs)| == |xs| && |multiset(ys)| == |ys|;
  }

  // ----- all cells

  function QuotaSum(quotas: seq<(Cell, nat)>): nat {
    if quotas == [] then 0 else QuotaSum(quotas[..|quotas| - 1]) + quotas[|quotas| - 1].1
  }

  /** The error of the first cell, in dictionary order, that cannot be drawn. */
  function FirstProblem(records: seq<Record>, quotas: seq<(Cell, nat)>): Option<DrawError> {
    if quotas == [] then None
    else if |Pool(records, quotas[0].0)| < quotas[0].1
      then Some(CellTooSmall(quotas[0].0, |Pool(records, quotas[0].0)|, quotas[0].1))
    else if FirstBadYear(Pool(records, quotas[0].0)).Some?
      then Some(YearOutsideEras(FirstBadYear(Pool(records, quotas[0].0)).value))
    else FirstProblem(records, quotas[1..])
  }

  ghost predicate DistinctCells(quotas: seq<(Cell, nat)>) {
    forall i, j :: 0 <= i < j < |quotas| ==> quotas[i].0 != quotas[j].0
  }

  method DrawStratifiedSample(records: seq<Record>, quotas: seq<(Cell, nat)>)
    returns (r: Result<seq<Record>, DrawError>)
    requires DistinctCells(quotas)
    ensures r.Ok? <==> FirstProblem(records, quotas).None?
    ensures r.Err? ==> r.error == FirstProblem(records, quotas).value
    ensures r.Ok? ==> |r.value| == QuotaSum(quotas) && multiset(r.value) <= multiset(records)
    ensures r.Ok? ==> forall x :: x in r.value ==> QuotaFor(quotas, CellOf(x))
    ensures r.Ok? ==> AllDrawn(records, quotas, r.value)
  {
    var byCell: map<Cell, seq<Record>> := map[];
    for i := 0 to |records|
      invariant forall c :: c !in byCell ==> Pool(records[..i], c) == []
      invariant forall c :: c in byCell ==> byCell[c] == Pool(records[..i], c)
    {
      PoolStep(records, i);
      var cell := CellOf(records[i]);
      var before := if cell in byCell then byCell[cell] else [];
      byCell := byCell[cell := before + [records[i]]];
    }
    assert records[..|records|] == records;
    var sampled: seq<Record> := [];
    for k := 0 to |quotas|
      invariant FirstProblem(records, quotas) == FirstProblem(records, quotas[k..])
      invariant Drawn(records, quotas[..k], sampled)
    {
      var cell, quota := quotas[k].0, quotas[k].1;
      var pool := if cell in byCell then byCell[cell] else [];
      assert pool == Pool(records, cell);
      assert quotas[k..][0] == quotas[k] && quotas[k..][1..] == quotas[k + 1..];
      if |pool| < quota {
        return Err(CellTooSmall(cell, |pool|, quota));
      }
      var part := DrawCell(pool, quota);
      if part.Err? {
        return part;
      }
      CellPart(records, quotas, k, sampled, part.value);
      sampled := sampled + part.value;
    }
    assert quotas[..|quotas|] == quotas && quotas[|quotas|..] == [];
    r := Ok(sampled);
  }

  ghost predicate QuotaFor(quotas: seq<(Cell, nat)>, cell: Cell) {
    exists i :: 0 <= i < |quotas| && quotas[i].0 == cell
  }

  ghost predicate CellDrawn(records: seq<Record>, sampled: seq<Record>, cell: Cell, quota: nat) {
    ProportionalDraw(Pool(records, cell), quota, Pool(sampled, cell))
  }

  /** The state of the draw after the cells of `done`. */
  ghost predicate Drawn(records: seq<Record>, done: seq<(Cell, nat)>, sampled: seq<Record>) {
    && |sampled| == QuotaSum(done)
    && multiset(sampled) <= multiset(records)
    && (forall x :: x in sampled ==> QuotaFor(done, CellOf(x)))
    && AllDrawn(records, done, sampled)
  }

  ghost predicate AllDrawn(records: seq<Record>, done: seq<(Cell, nat)>, sampled: seq<Record>) {
    forall i :: 0 <= i < |done| ==> CellDrawn(records, sampled, done[i].0, done[i].1)
  }

  lemma PoolStep(records: seq<Record>, i: nat)
    requires i < |records|
    ensures forall c :: Pool(records[..i + 1], c)
              == Pool(records[..i], c) + (if CellOf(records[i]) == c then [records[i]] else [])
  {
    assert records[..i + 1] == records[..i] + [records[i]];
    forall c ensures Pool(records[..i + 1], c)
        == Pool(records[..i], c) + (if CellOf(records[i]) == c then [records[i]] else []) {
      FilterSnoc(records[..i], records[i], InCell(c));
    }
  }

  lemma CellPart(records: seq<Record>, quotas: seq<(Cell, nat)>, k: nat, sampled: seq<Record>, part: seq<Record>)
    requires DistinctCells(quotas) && k < |quotas|
    requires Drawn(records, quotas[..k], sampled)
    requires ProportionalDraw(Pool(records, quotas[k].0), quotas[k].1, part)
    ensures Drawn(records, quotas[..k + 1], sampled + part)
  {
    PartDisjoint(records, quotas, k, sampled, part);
    PartCounts(records, quotas, k, sampled, part);
    CellsCarry(records, quotas, k, sampled, part);
  }

  lemma CellsCarry(records: seq<Record>, quotas: seq<(Cell, nat)>, k: nat, sampled: seq<Record>, part: seq<Record>)
    requires DistinctCells(quotas) && k < |quotas|
    requires AllDrawn(records, quotas[..k], sampled)
    requires ProportionalDraw(Pool(records, quotas[k].0), quotas[k].1, part)
    requires forall x :: x in sampled ==> CellOf(x) != quotas[k].0
    requires forall x :: x in part ==> CellOf(x) == quotas[k].0
    ensures AllDrawn(records, quotas[..k + 1], sampled + part)
  {
    var next := quotas[..k + 1];
    forall i | 0 <= i < |next| ensures CellDrawn(records, sampled + part, next[i].0, next[i].1) {
      if i < k { DrawnBefore(records, quotas, k, sampled, i); }
      CellCarries(records, sampled, part, quotas[k].0, quotas[i].0, quotas[i].1);
    }
  }

  lemma DrawnBefore(records: seq<Record>, quotas: seq<(Cell, nat)>, k: nat, sampled: seq<Record>, i: nat)
    requires DistinctCells(quotas) && i < k < |quotas| && AllDrawn(records, quotas[..k], sampled)
    ensures quotas[i].0 != quotas[k].0 && CellDrawn(records, sampled, quotas[i].0, quotas[i].1)
  {
    assert quotas[..k][i] == quotas[i];
  }

  lemma CellCarries(records: seq<Record>, sampled: seq<Record>, part: seq<Record>, cell: Cell, c: Cell, quota: nat)
    requires forall x :: x in sampled ==> CellOf(x) != cell
    requires forall x :: x in part ==> CellOf(x) == cell
    requires
      if c == cell
      then ProportionalDraw(Pool(records, c), quota, part)
      else CellDrawn(records, sampled, c, quota)
    ensures CellDrawn(records, sampled + part, c, quota)
  {
    CellPools(sampled, part, cell, c);
    if c != cell { FilterElements(sampled, InCell(c)); }
  }

  lemma PartCounts(records: seq<Record>, quotas: seq<(Cell, nat)>, k: nat, sampled: seq<Record>, part: seq<Record>)
    requires k < |quotas|
    requires |sampled| == QuotaSum(quotas[..k]) && multiset(sampled) <= multiset(records)
    requires forall x :: x in sampled ==> QuotaFor(quotas[..k], CellOf(x))
    requires |part| == quotas[k].1 && multiset(part) <= multiset(Pool(records, quotas[k].0))
    requires forall x :: x in sampled ==> CellOf(x) != quotas[k].0
    requires forall x :: x in part ==> CellOf(x) == quotas[k].0
    ensures |sampled + part| == QuotaSum(quotas[..k + 1]) && multiset(sampled + part) <= multiset(records)
    ensures forall x :: x in sampled + part ==> QuotaFor(quotas[..k + 1], CellOf(x))
  {
    var cell := quotas[k].0;
    var done, next := quotas[..k], quotas[..k + 1];
    assert next[..|next| - 1] == done && next[|next| - 1] == quotas[k];
    PartFits(records, sampled, part, InCell(cell));
    forall x | x in sampled + part ensures QuotaFor(next, CellOf(x)) {
      if x in part {
        assert next[k].0 == CellOf(x);
      } else {
        var i :| 0 <= i < |done| && done[i].0 == CellOf(x);
        assert next[i].0 == CellOf(x);
      }
    }
  }

  /** Earlier cells contributed nothing to this cell, and this cell's part is all its own. */
  lemma PartDisjoint(records: seq<Record>, quotas: seq<(Cell, nat)>, k: nat, sampled: seq<Record>, part: seq<Record>)
    requires DistinctCells(quotas) && k < |quotas|
    requires forall x :: x in sampled ==> QuotaFor(quotas[..k], CellOf(x))
    requires multiset(part) <= multiset(Pool(records, quotas[k].0))
    ensures forall x :: x in sampled ==> CellOf(x) != quotas[k].0
    ensures forall x :: x in part ==> CellOf(x) == quotas[k].0
  {
    SubMultisetElements(part, Pool(records, quotas[k].0));
    FilterElements(records, InCell(quotas[k].0));
    var done := quotas[..k];
    forall x | x in sampled ensures CellOf(x) != quotas[k].0 {
      var i :| 0 <= i < |done| && done[i].0 == CellOf(x);
      assert done[i] == quotas[i];
    }
  }

  lemma CellPools(sampled: seq<Record>, part: seq<Record>, cell: Cell, c: Cell)
    requires forall x :: x in sampled ==> CellOf(x) != cell
    requires forall x :: x in part ==> CellOf(x) == cell
    ensures Pool(sampled + part, c) == if c == cell then part else Pool(sampled, c)
  {
    FilterAppend(sampled, part, InCell(c));
    if c == cell {
      FilterNone(sampled, InCell(c));
      FilterAll(part, InCell(c));
    } else {
      FilterNone(part, InCell(c));
    }
  }

  /** A draw is possible exactly when every pool meets its quota and holds only years of 2004-2025. */
  lemma {:induction false} DrawPossible(records: seq<Record>, quotas: seq<(Cell, nat)>)
    ensures FirstProblem(records, quotas).None? <==>
      forall i :: 0 <= i < |quotas| ==>
        && quotas[i].1 <= |Pool(records, quotas[i].0)|
        && forall r :: r in records && CellOf(r) == quotas[i].0 ==> 2004 <= r.filingYear <= 2025
  {
    if quotas != [] {
      DrawPossible(records, quotas[1..]);
      var pool := Pool(records, quotas[0].0);
      NoBadYear(pool);
      FilterElements(records, InCell(quotas[0].0));
      forall r: Record ensures EraBucket(r.filingYear).Some? <==> 2004 <= r.filingYear <= 2025 {
        EraBucketCoversYears(r.filingYear);
      }
      assert FirstBadYear(pool).None? <==>
        forall r :: r in records && CellOf(r) == quotas[0].0 ==> 2004 <= r.filingYear <= 2025;
      assert quotas == [quotas[0]] + quotas[1..];
    }
  }

  // ----- the draw in the fields of the records

  /** How many records are of the product line and source. */
  function InCellCount(xs: seq<Record>, productLine: string, source: string): nat {
    |set i | 0 <= i < |xs| && xs[i].productLine == productLine && xs[i].source == source|
  }

  /** How many of them were filed in the years from `first` to `last`. */
  function InYearsCount(xs: seq<Record>, productLine: string, source: string, first: int, last: int): nat {
    |set i | 0 <= i < |xs| && xs[i].productLine == productLine && xs[i].source == source
             && first <= xs[i].filingYear <= last|
  }

  predicate IsEra(first: int, last: int) {
    (first, last) in {(2004, 2009), (2010, 2016), (2017, 2021), (2022, 2025)}
  }

  lemma PoolCount(xs: seq<Record>, cell: Cell)
    ensures |Pool(xs, cell)| == InCellCount(xs, cell.productLine, cell.source)
  {
    FilterCount(xs, InCell(cell));
    assert Places(xs, InCell(cell)) ==
      set i | 0 <= i < |xs| && xs[i].productLine == cell.productLine && xs[i].source == cell.source;
  }

  function InBoth(cell: Cell, era: Era): Record -> bool { r => InCell(cell)(r) && InEra(era)(r) }

  lemma {:induction false} FilterOfFilter(xs: seq<Record>, cell: Cell, era: Era)
    ensures Filter(Pool(xs, cell), InEra(era)) == Filter(xs, InBoth(cell, era))
  {
    if xs != [] { FilterOfFilter(xs[1..], cell, era); }
  }

  function NameOf(first: int): Era {
    if first == 2004 then "2004-2009" else if first == 2010 then "2010-2016"
    else if first == 2017 then "2017-2021" else "2022-2025"
  }

  lemma LabelOfYears(r: Record, first: int, last: int)
    requires IsEra(first, last)
    ensures EraLabel(r) == NameOf(first) <==> first <= r.filingYear <= last
  {
    EraOfYear(r.filingYear);
    assert "2004-2009"[3] == '4' && "2010-2016"[3] == '0' && "2017-2021"[3] == '7' && "2022-2025"[3] == '2';
  }

  lemma EraCount(xs: seq<Record>, cell: Cell, first: int, last: int)
    requires IsEra(first, last)
    ensures |Filter(Pool(xs, cell), InEra(NameOf(first)))|
      == InYearsCount(xs, cell.productLine, cell.source, first, last)
  {
    FilterOfFilter(xs, cell, NameOf(first));
    FilterCount(xs, InBoth(cell, NameOf(first)));
    forall i | 0 <= i < |xs| ensures EraLabel(xs[i]) == NameOf(first) <==> first <= xs[i].filingYear <= last {
      LabelOfYears(xs[i], first, last);
    }
    assert Places(xs, InBoth(cell, NameOf(first))) ==
      set i | 0 <= i < |xs| && xs[i].productLine == cell.productLine && xs[i].source == cell.source
              && first <= xs[i].filingYear <= last;
  }

  /** From every cell the draw takes its quota, and from each of the four year ranges less than one
      clause more or less than the range's proportional share of it. */
  lemma ShareOfYears(records: seq<Record>, quotas: seq<(Cell, nat)>, sampled: seq<Record>, k: nat,
                     first: int, last: int)
    requires AllDrawn(records, quotas, sampled) && k < |quotas| && IsEra(first, last)
    ensures var line, source, quota := quotas[k].0.productLine, quotas[k].0.source, quotas[k].1;
            var size, share := InCellCount(records, line, source), InYearsCount(records, line, source, first, last);
            var taken := InYearsCount(sampled, line, source, first, last);
      && InCellCount(sampled, line, source) == quota
      && (size > 0 ==> NearShare(quota, share, size, taken))
  {
    var cell, quota := quotas[k].0, quotas[k].1;
    assert CellDrawn(records, sampled, cell, quota);
    PoolCount(records, cell);
    PoolCount(sampled, cell);
    EraCount(records, cell, first, last);
    EraCount(sampled, cell, first, last);
    if |Pool(records, cell)| > 0 {
      ShareOfEra(Pool(records, cell), quota, Pool(sampled, cell), NameOf(first));
    }
  }

  /** Less than one clause from the exact share quota * share / size. */
  predicate NearShare(quota: nat, share: nat, size: nat, taken: nat) {
    taken * size < quota * share + size && taken * size > quota * share - size
  }

  lemma ShareOfEra(pool: seq<Record>, quota: nat, drawn: seq<Record>, era: Era)
    requires pool != [] && ProportionalDraw(pool, quota, drawn)
    ensures NearShare(quota, |Filter(pool, InEra(era))|, |pool|, |Filter(drawn, InEra(era))|)
  {
    if era in EraOrder(pool) {
      RoundedEra(pool, quota, drawn, era);
      RoundedShare(quota, |Filter(pool, InEra(era))|, |pool|, |Filter(drawn, InEra(era))|);
    } else {
      NoneOfEra(pool, drawn, era);
      ZeroShare(quota, |pool|);
    }
  }

  lemma RoundedEra(pool: seq<Record>, quota: nat, drawn: seq<Record>, era: Era)
    requires pool != [] && ProportionalDraw(pool, quota, drawn) && era in EraOrder(pool)
    ensures IsRounded(quota, |Filter(pool, InEra(era))|, |pool|, |Filter(drawn, InEra(era))|)
  {
    var eras := EraOrder(pool);
    PoolTallies(pool, eras);
    EraOrderIsDict(pool);
    var counts, alloc := Tally(eras, pool), Tally(eras, drawn);
    assert RoundedDown(counts, quota, |pool|, alloc, era) || RoundedUp(counts, quota, |pool|, alloc, era);
  }

  predicate IsRounded(quota: nat, share: nat, size: nat, taken: nat)
    requires size > 0
  {
    || taken == Floor(quota, share, size)
    || (taken == Floor(quota, share, size) + 1 && Remainder(quota, share, size) > 0)
  }

  lemma ZeroShare(quota: nat, size: nat)
    requires size > 0
    ensures NearShare(quota, 0, size, 0)
  {
  }

  lemma RoundedShare(quota: nat, share: nat, size: nat, taken: nat)
    requires size > 0 && IsRounded(quota, share, size, taken)
    ensures NearShare(quota, share, size, taken)
  {
    Division(quota * share, size);
    Distribute(size, Floor(quota, share, size), 1);
  }

  lemma NoneOfEra(pool: seq<Record>, drawn: seq<Record>, era: Era)
    requires era !in EraOrder(pool) && multiset(drawn) <= multiset(pool)
    ensures Filter(pool, InEra(era)) == [] && Filter(drawn, InEra(era)) == []
  {
    EraOrderIsDict(pool);
    SubMultisetElements(drawn, pool);
    FilterNone(pool, InEra(era));
    FilterNone(drawn, InEra(era));
  }

  /** Quota k cannot be met: its cell is too small, or holds a year outside the eras. */
  ghost predicate ProblemAt(records: seq<Record>, quotas: seq<(Cell, nat)>, k: nat, error: DrawError) {
    k < |quotas| &&
    (var cell, need := quotas[k].0, quotas[k].1;
     var have := InCellCount(records, cell.productLine, cell.source);
     match error
     case CellTooSmall(c, h, n) => c == cell && h == have && n == need && have < need
     case YearOutsideEras(year) =>
       && have >= need && !(2004 <= year <= 2025)
       && exists r :: r in records && CellOf(r) == cell && r.filingYear == year
     case SampleLargerThanPopulation => false)
  }

  ghost predicate FirstProblemAt(records: seq<Record>, quotas: seq<(Cell, nat)>, k: nat)
    requires FirstProblem(records, quotas).Some?
  {
    && ProblemAt(records, quotas, k, FirstProblem(records, quotas).value)
    && forall j: nat, e: DrawError :: j < k ==> !ProblemAt(records, quotas, j, e)
  }

  /** A failing draw reports the first quota that cannot be met. */
  lemma {:induction false} ProblemExactly(records: seq<Record>, quotas: seq<(Cell, nat)>)
    requires FirstProblem(records, quotas).Some?
    ensures exists k: nat :: FirstProblemAt(records, quotas, k)
  {
    HeadProblem(records, quotas);
    if exists e :: ProblemAt(records, quotas, 0, e) {
      assert FirstProblemAt(records, quotas, 0);
    } else {
      ProblemExactly(records, quotas[1..]);
      var k: nat :| FirstProblemAt(records, quotas[1..], k);
      forall j: nat, e: DrawError | j < k + 1 ensures !ProblemAt(records, quotas, j, e) {
        if j > 0 { assert ProblemAt(records, quotas, j, e) ==> ProblemAt(records, quotas[1..], j - 1, e); }
      }
      assert FirstProblemAt(records, quotas, k + 1);
    }
  }

  lemma HeadProblem(records: seq<Record>, quotas: seq<(Cell, nat)>)
    requires quotas != []
    ensures (exists e :: ProblemAt(records, quotas, 0, e)) ==>
      FirstProblem(records, quotas).Some? && ProblemAt(records, quotas, 0, FirstProblem(records, quotas).value)
    ensures (forall e :: !ProblemAt(records, quotas, 0, e)) ==>
      FirstProblem(records, quotas) == FirstProblem(records, quotas[1..])
  {
    var cell, need := quotas[0].0, quotas[0].1;
    var pool := Pool(records, cell);
    PoolCount(records, cell);
    FilterElements(records, InCell(cell));
    BadYearIsOutside(pool);
    if |pool| < need {
      assert ProblemAt(records, quotas, 0, CellTooSmall(cell, |pool|, need));
    } else if FirstBadYear(pool).Some? {
      assert ProblemAt(records, quotas, 0, YearOutsideEras(FirstBadYear(pool).value));
    }
  }

  lemma {:induction false} BadYearIsOutside(pool: seq<Record>)
    ensures FirstBadYear(pool).Some? ==>
      exists r :: r in pool && r.filingYear == FirstBadYear(pool).value && !(2004 <= r.filingYear <= 2025)
    ensures FirstBadYear(pool).None? ==> forall r :: r in pool ==> 2004 <= r.filingYear <= 2025
  {
    if pool != [] {
      EraOfYear(pool[0].filingYear);
      BadYearIsOutside(pool[1..]);
      assert pool == [pool[0]] + pool[1..];
    }
  }
}
