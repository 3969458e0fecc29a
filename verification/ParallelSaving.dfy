/** How much time the parallel assessment branches save over running them one after the other
    (`_parallel_comparison` in scripts/eval_performance.py). Times are exact numbers, before any
    rounding of the report. */
module ParallelSaving {
  import opened Outcomes

  datatype Node = Compatibility | Consistency | InjectionScan

  /** The wall times of each assessment node, one per invocation. */
  datatype Claim = Claim(latencies: map<Node, seq<real>>)
  {
    function Times(node: Node): seq<real> { if node in latencies then latencies[node] else [] }

    /** `node_contribution_ms`. */
    function Contribution(node: Node): real { Sum(Times(node)) }

    predicate CompatibilityRan() { Times(Compatibility) != [] }

    function Sequential(): real {
      Contribution(Compatibility) + Contribution(Consistency) + Contribution(InjectionScan)
    }

    function Parallel(): real {
      Larger(Contribution(Compatibility), Larger(Contribution(Consistency), Contribution(InjectionScan)))
    }

    ghost predicate NonNegative() {
      forall node, i :: 0 <= i < |Times(node)| ==> Times(node)[i] >= 0.0
    }
  }

  function Larger(a: real, b: real): real { if a < b then b else a }

  function Sum(xs: seq<real>): real {
    if xs == [] then 0.0 else Sum(xs[..|xs| - 1]) + xs[|xs| - 1]
  }

  /** The lists the comparison collects, one entry per claim whose compatibility node ran. */
  datatype Comparison = Comparison(seqMs: seq<real>, parMs: seq<real>, savings: seq<real>, fractionOfStage: real)

  function OnPath(scored: seq<Claim>): seq<Claim> {
    if scored == [] then []
    else
      var front, last := OnPath(scored[..|scored| - 1]), scored[|scored| - 1];
      if last.CompatibilityRan() then front + [last] else front
  }

  method SelectOnPath(scored: seq<Claim>) returns (onPath: seq<Claim>)
    ensures onPath == OnPath(scored)
  {
    onPath := [];
    for i := 0 to |scored|
      invariant onPath == OnPath(scored[..i])
    {
      assert scored[..i + 1][..i] == scored[..i];
      if scored[i].CompatibilityRan() {
        onPath := onPath + [scored[i]];
      }
    }
    assert scored[..|scored|] == scored;
  }

  method ParallelComparison(scored: seq<Claim>) returns (r: Option<Comparison>)
    ensures r.None? <==> OnPath(scored) == []
    ensures r.Some? ==> Compares(OnPath(scored), r.value)
  {
    var onPath := SelectOnPath(scored);
    if onPath == [] {
      return None;
    }
    var seqMs: seq<real>, parMs: seq<real>, savings: seq<real> := [], [], [];
    for i := 0 to |onPath|
      invariant |seqMs| == i && |parMs| == i && |savings| == i
      invariant forall k :: 0 <= k < i ==> EntryOf(onPath[k], seqMs[k], parMs[k], savings[k])
    {
      var tSeq, tPar := onPath[i].Sequential(), onPath[i].Parallel();
      seqMs, parMs, savings := seqMs + [tSeq], parMs + [tPar], savings + [tSeq - tPar];
    }
    var fraction := if Sum(seqMs) == 0.0 then 0.0 else Sum(savings) / Sum(seqMs);
    r := Some(Comparison(seqMs, parMs, savings, fraction));
  }

  predicate EntryOf(c: Claim, tSeq: real, tPar: real, saving: real) {
    tSeq == c.Sequential() && tPar == c.Parallel() && saving == tSeq - tPar
  }

  ghost predicate Compares(claims: seq<Claim>, r: Comparison) {
    && |r.seqMs| == |claims| && |r.parMs| == |claims| && |r.savings| == |claims|
    && (forall k :: 0 <= k < |claims| ==> EntryOf(claims[k], r.seqMs[k], r.parMs[k], r.savings[k]))
    && r.fractionOfStage == if Sum(r.seqMs) == 0.0 then 0.0 else Sum(r.savings) / Sum(r.seqMs)
  }

  // ----- one claim

  lemma {:induction false} SumNonNegative(xs: seq<real>)
    requires forall i :: 0 <= i < |xs| ==> xs[i] >= 0.0
    ensures Sum(xs) >= 0.0
  {
    if xs != [] { SumNonNegative(xs[..|xs| - 1]); }
  }

  predicate Balanced(c: Claim) {
    c.Contribution(Compatibility) == c.Contribution(Consistency) == c.Contribution(InjectionScan)
  }

  /** A claim saves between nothing and two thirds of its sequential time, two thirds exactly when
      its three branches take the same time. */
  lemma ClaimSaving(c: Claim)
    requires c.NonNegative()
    ensures 0.0 <= c.Sequential() - c.Parallel()
    ensures 3.0 * (c.Sequential() - c.Parallel()) <= 2.0 * c.Sequential()
    ensures 3.0 * (c.Sequential() - c.Parallel()) == 2.0 * c.Sequential() <==> Balanced(c)
  {
    forall node ensures c.Contribution(node) >= 0.0 { SumNonNegative(c.Times(node)); }
  }

  // ----- the aggregate

  predicate Fair(tSeq: real, tPar: real, saving: real) {
    saving == tSeq - tPar && 0.0 <= saving && 0.0 <= tSeq && 3.0 * saving <= 2.0 * tSeq
  }

  /** Sums keep what holds entry by entry, and reach two thirds only where every entry does. */
  lemma {:induction false} SumsCompare(seqMs: seq<real>, parMs: seq<real>, savings: seq<real>)
    requires |seqMs| == |parMs| == |savings|
    requires forall k :: 0 <= k < |seqMs| ==> Fair(seqMs[k], parMs[k], savings[k])
    ensures Fair(Sum(seqMs), Sum(parMs), Sum(savings))
    ensures 3.0 * Sum(savings) == 2.0 * Sum(seqMs) <==>
      forall k :: 0 <= k < |seqMs| ==> 3.0 * savings[k] == 2.0 * seqMs[k]
  {
    if seqMs != [] {
      var n := |seqMs| - 1;
      SumsCompare(seqMs[..n], parMs[..n], savings[..n]);
      assert Fair(seqMs[n], parMs[n], savings[n]);
    }
  }

  lemma SignOfProduct(x: real, b: real)
    requires b > 0.0
    ensures (x * b > 0.0 <==> x > 0.0) && (x * b == 0.0 <==> x == 0.0)
  {
    if x < 0.0 { assert (-x) * b > 0.0; }
  }

  lemma Ratio(a: real, b: real)
    requires b > 0.0 && 0.0 <= a && 3.0 * a <= 2.0 * b
    ensures 0.0 <= a / b <= 2.0 / 3.0
    ensures a / b == 2.0 / 3.0 <==> 3.0 * a == 2.0 * b
  {
    var q := a / b;
    assert a == q * b;
    SignOfProduct(-q, b);
    SignOfProduct(3.0 * q - 2.0, b);
    assert (3.0 * q - 2.0) * b == 3.0 * a - 2.0 * b;
  }

  lemma EntriesAreFair(claims: seq<Claim>, r: Comparison)
    requires Compares(claims, r) && forall k :: 0 <= k < |claims| ==> claims[k].NonNegative()
    ensures forall k :: 0 <= k < |claims| ==> Fair(r.seqMs[k], r.parMs[k], r.savings[k])
    ensures forall k :: 0 <= k < |claims| ==> (3.0 * r.savings[k] == 2.0 * r.seqMs[k] <==> Balanced(claims[k]))
  {
    forall k | 0 <= k < |claims|
      ensures Fair(r.seqMs[k], r.parMs[k], r.savings[k])
      ensures 3.0 * r.savings[k] == 2.0 * r.seqMs[k] <==> Balanced(claims[k])
    {
      assert EntryOf(claims[k], r.seqMs[k], r.parMs[k], r.savings[k]);
      ClaimSaving(claims[k]);
    }
  }

  /** For any list of claims the saved fraction of the stage lies between 0 and 2/3 and is
      1 - sum(parallel) / sum(sequential); it is 2/3 exactly when every claim's three branches
      take the same time. */
  lemma StageFraction(claims: seq<Claim>, r: Comparison)
    requires Compares(claims, r) && forall k :: 0 <= k < |claims| ==> claims[k].NonNegative()
    ensures 0.0 <= r.fractionOfStage <= 2.0 / 3.0
    ensures Sum(r.seqMs) > 0.0 ==> r.fractionOfStage == 1.0 - Sum(r.parMs) / Sum(r.seqMs)
    ensures Sum(r.seqMs) > 0.0 ==>
      (r.fractionOfStage == 2.0 / 3.0 <==> forall k :: 0 <= k < |claims| ==> Balanced(claims[k]))
  {
    EntriesAreFair(claims, r);
    SumsCompare(r.seqMs, r.parMs, r.savings);
    if Sum(r.seqMs) > 0.0 {
      Ratio(Sum(r.savings), Sum(r.seqMs));
      SplitRatio(Sum(r.seqMs), Sum(r.parMs));
    }
  }

  lemma SplitRatio(s: real, p: real)
    requires s > 0.0
    ensures (s - p) / s == 1.0 - p / s
  {
    var q, t := (s - p) / s, p / s;
    assert q * s == s - p && t * s == p;
    SignOfProduct(q + t - 1.0, s);
    assert (q + t - 1.0) * s == 0.0;
  }

  // ----- which claims count, and with what

  /** A claim is compared if and only if its compatibility node ran at least once. */
  lemma {:induction false} OnPathExactly(scored: seq<Claim>, c: Claim)
    ensures c in OnPath(scored) <==>
      c in scored && Compatibility in c.latencies && |c.latencies[Compatibility]| > 0
  {
    if scored != [] {
      var front, last := scored[..|scored| - 1], scored[|scored| - 1];
      OnPathExactly(front, c);
      assert scored == front + [last];
    }
  }

  /** Run one after the other the three nodes take the sum of their times, in parallel the largest. */
  lemma TimesExactly(c: Claim, x: real, y: real, z: real)
    requires x == c.Contribution(Compatibility) && y == c.Contribution(Consistency)
    requires z == c.Contribution(InjectionScan)
    ensures c.Sequential() == x + y + z
    ensures c.Parallel() in {x, y, z} && x <= c.Parallel() && y <= c.Parallel() && z <= c.Parallel()
    ensures forall node :: node !in c.latencies ==> c.Contribution(node) == 0.0
    ensures forall node, t: real :: node in c.latencies && c.latencies[node] == [t] ==> c.Contribution(node) == t
  {
    forall t: real ensures Sum([t]) == t { assert [t][..0] == []; }
  }
}
