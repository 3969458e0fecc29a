/** Splitting one cell's quota over the filing-year eras
    (`allocate_era_quota` in scripts/sample_parsing_quality.py).

    A Python dictionary is its iteration order `eras` together with a map; the
    quotients `quota * count / total` are kept exact by comparing numerators
    over the common denominator `total`. */
module EraQuota {
  import opened Ordering

  type Era = string

  ghost predicate DictOrder<V>(eras: seq<Era>, m: map<Era, V>) {
    Distinct(eras) && forall e :: e in eras <==> e in m
  }

  function Total(eras: seq<Era>, m: map<Era, int>): int
    requires forall e :: e in eras ==> e in m
  {
    if eras == [] then 0 else m[eras[0]] + Total(eras[1..], m)
  }

  // ----- the largest-remainder split, stated without the loop

  function Floor(quota: nat, count: nat, total: nat): nat
    requires total > 0
  {
    quota * count / total
  }

  /** Numerator of the fractional part of quota * count / total. */
  function Remainder(quota: nat, count: nat, total: nat): nat
    requires total > 0
  {
    quota * count % total
  }

  ghost predicate RoundedDown(counts: map<Era, nat>, quota: nat, total: nat, alloc: map<Era, int>, e: Era)
    requires total > 0 && e in counts && e in alloc
  {
    alloc[e] == Floor(quota, counts[e], total)
  }

  ghost predicate RoundedUp(counts: map<Era, nat>, quota: nat, total: nat, alloc: map<Era, int>, e: Era)
    requires total > 0 && e in counts && e in alloc
  {
    alloc[e] == Floor(quota, counts[e], total) + 1 && Remainder(quota, counts[e], total) > 0
  }

  ghost predicate Outranks(eras: seq<Era>, counts: map<Era, nat>, quota: nat, total: nat, i: nat, j: nat)
    requires total > 0 && i < |eras| && j < |eras| && eras[i] in counts && eras[j] in counts
  {
    Remainder(quota, counts[eras[i]], total) >= Remainder(quota, counts[eras[j]], total)
  }

  /** Era i was rounded up and era j down. */
  ghost predicate Favours(eras: seq<Era>, counts: map<Era, nat>, quota: nat, total: nat, alloc: map<Era, int>,
                          i: nat, j: nat)
    requires total > 0 && forall e :: e in eras ==> e in counts && e in alloc
  {
    && i < |eras| && j < |eras|
    && RoundedUp(counts, quota, total, alloc, eras[i]) && RoundedDown(counts, quota, total, alloc, eras[j])
  }

  /** Every era gets its exact share rounded down or up, the shares add up to the quota, and no
      era rounded up has a smaller remainder than one rounded down. Equal remainders may go
      either way. */
  ghost predicate LargestRemainder(eras: seq<Era>, counts: map<Era, nat>, quota: nat, alloc: map<Era, int>)
    requires forall e :: e in eras ==> e in counts && e in alloc
  {
    var total := Total(eras, counts);
    total > 0 ==>
      && Total(eras, alloc) == quota
      && (forall e :: e in eras ==>
            RoundedDown(counts, quota, total, alloc, e) || RoundedUp(counts, quota, total, alloc, e))
      && (forall i: nat, j: nat :: Favours(eras, counts, quota, total, alloc, i, j) ==>
            Outranks(eras, counts, quota, total, i, j))
  }

  /** Of two eras with equal remainders, the one earlier in the dictionary is rounded up first. */
  ghost predicate PlaceBreaksTies(eras: seq<Era>, counts: map<Era, nat>, quota: nat, alloc: map<Era, int>)
    requires forall e :: e in eras ==> e in counts && e in alloc
  {
    var total := Total(eras, counts);
    total > 0 ==>
      forall i: nat, j: nat :: Favours(eras, counts, quota, total, alloc, i, j) ==>
        i < j || Remainder(quota, counts[eras[i]], total) != Remainder(quota, counts[eras[j]], total)
  }

  // ----- arithmetic of one share

  lemma MulMonotone(x: int, y: int, c: int)
    requires c >= 0 && x <= y
    ensures x * c <= y * c
  {
    assert (y - x) * c >= 0;
  }

  lemma Distribute(c: int, x: int, y: int)
    ensures c * (x + y) == c * x + c * y
  {
  }

  lemma Division(n: nat, t: nat)
    requires t > 0
    ensures n == (n / t) * t + n % t && 0 <= n % t < t
  {
  }

  lemma ShareBounds(quota: nat, count: nat, total: nat)
    requires 0 < total && quota <= total
    ensures Floor(quota, count, total) <= count
    ensures Remainder(quota, count, total) > 0 ==> Floor(quota, count, total) < count
    ensures quota * count == Floor(quota, count, total) * total + Remainder(quota, count, total)
    ensures Remainder(quota, count, total) < total
  {
    var f := Floor(quota, count, total);
    Division(quota * count, total);
    MulMonotone(quota, total, count);
    if f >= count {
      MulMonotone(count, f, total);
      assert f * total >= quota * count;
      if f >= count + 1 { MulMonotone(count + 1, f, total); }
    }
  }

  lemma OversizedQuota(quota: nat, count: nat, total: nat)
    requires 0 < total <= quota
    ensures quota * count / total >= count
  {
    var f := quota * count / total;
    Division(quota * count, total);
    MulMonotone(total, quota, count);
    assert (f + 1) * total > count * total;
    if f + 1 <= count { MulMonotone(f + 1, count, total); }
  }

  // ----- sums over the dictionary

  lemma {:induction false} TotalNonNegative(eras: seq<Era>, m: map<Era, int>)
    requires forall e :: e in eras ==> e in m && m[e] >= 0
    ensures Total(eras, m) >= 0
    ensures Total(eras, m) == 0 ==> forall e :: e in eras ==> m[e] == 0
  {
    if eras != [] { TotalNonNegative(eras[1..], m); }
  }

  lemma {:induction false} TotalEqual(eras: seq<Era>, m: map<Era, int>, n: map<Era, int>)
    requires forall e :: e in eras ==> e in m && e in n && m[e] == n[e]
    ensures Total(eras, m) == Total(eras, n)
  {
    if eras != [] { TotalEqual(eras[1..], m, n); }
  }

  /** quota * sum(count) == total * sum(floor) + sum(remainder). */
  lemma {:induction false} ShareSums(eras: seq<Era>, counts: map<Era, nat>, quota: nat, total: nat,
                                     floors: map<Era, int>, rems: map<Era, int>)
    requires 0 < total && quota <= total
    requires forall e :: e in eras ==> e in counts && e in floors && e in rems
    requires forall e :: e in eras ==> floors[e] == Floor(quota, counts[e], total)
    requires forall e :: e in eras ==> rems[e] == Remainder(quota, counts[e], total)
    ensures quota * Total(eras, counts) == total * Total(eras, floors) + Total(eras, rems)
  {
    if eras != [] {
      var e, t := eras[0], eras[1..];
      ShareSums(t, counts, quota, total, floors, rems);
      ShareBounds(quota, counts[e], total);
      AddShare(quota, total, counts[e], floors[e], rems[e], Total(t, counts), Total(t, floors), Total(t, rems));
    }
  }

  lemma AddShare(q: int, t: int, count: int, floor: int, rem: int, counts: int, floors: int, rems: int)
    requires q * count == floor * t + rem && q * counts == t * floors + rems
    ensures q * (count + counts) == t * (floor + floors) + (rem + rems)
  {
    Distribute(q, count, counts);
    Distribute(t, floor, floors);
  }

  /** The remainders add up to less than `total` for every era that has one. */
  lemma {:induction false} RemainderSumBound(eras: seq<Era>, rems: map<Era, int>, total: nat)
    requires 0 < total && Distinct(eras)
    requires forall e :: e in eras ==> e in rems && 0 <= rems[e] < total
    ensures Total(eras, rems) <= (total - 1) * |set e | e in eras && rems[e] > 0|
  {
    var P := set e | e in eras && rems[e] > 0;
    if eras == [] {
    } else {
      var t := eras[1..];
      TailDistinct(eras);
      RemainderSumBound(t, rems, total);
      var Q := set e | e in t && rems[e] > 0;
      if rems[eras[0]] > 0 {
        assert P == Q + {eras[0]};
        assert |P| == |Q| + 1;
        Distribute(total - 1, |Q|, 1);
      } else {
        assert P == Q;
      }
    }
  }

  lemma TailDistinct(eras: seq<Era>)
    requires eras != [] && Distinct(eras)
    ensures Distinct(eras[1..]) && eras[0] !in eras[1..]
  {
    var t := eras[1..];
    forall i, j | 0 <= i < j < |t| ensures t[i] != t[j] { assert eras[i+1] != eras[j+1]; }
  }

  /** Adding one to each era of a set raises the sum by the size of that set. */
  lemma {:induction false} TotalBump(eras: seq<Era>, m: map<Era, int>, n: map<Era, int>, bumped: set<Era>)
    requires Distinct(eras)
    requires forall e :: e in eras ==> e in m && e in n && n[e] == m[e] + (if e in bumped then 1 else 0)
    ensures Total(eras, n) == Total(eras, m) + |set e | e in eras && e in bumped|
  {
    var B := set e | e in eras && e in bumped;
    if eras == [] {
    } else {
      TailDistinct(eras);
      var t := eras[1..];
      TotalBump(t, m, n, bumped);
      var C := set e | e in t && e in bumped;
      assert B == if eras[0] in bumped then C + {eras[0]} else C;
    }
  }

  // ----- the allocation loop

  /** Sort key of the source: exact share minus floor, as a numerator over `total`. */
  function SortKey(counts: map<Era, nat>, quota: nat, total: nat, floors: map<Era, int>, e: Era): int {
    if e in counts && e in floors then quota * counts[e] - floors[e] * total else 0
  }

  ghost predicate Before(eras: seq<Era>, a: Era, b: Era) {
    exists i, j :: 0 <= i < j < |eras| && eras[i] == a && eras[j] == b
  }

  method AllocateEraQuota(eras: seq<Era>, eraCounts: map<Era, nat>, quota: nat) returns (allocation: map<Era, int>)
    requires DictOrder(eras, eraCounts)
    ensures DictOrder(eras, allocation)
    ensures forall e :: e in eras ==> 0 <= allocation[e] <= eraCounts[e]
    ensures Total(eras, allocation) == Min(quota, Total(eras, eraCounts))
    ensures quota <= Total(eras, eraCounts) ==> LargestRemainder(eras, eraCounts, quota, allocation)
    ensures quota <= Total(eras, eraCounts) ==> PlaceBreaksTies(eras, eraCounts, quota, allocation)
  {
    var total := Total(eras, eraCounts);
    TotalNonNegative(eras, eraCounts);
    if total == 0 || quota == 0 {
      allocation := map e | e in eraCounts :: 0;
      ZeroAllocation(eras, eraCounts, allocation);
      return;
    }
    var floors: map<Era, int> := map e | e in eraCounts :: Min(quota * eraCounts[e] / total, eraCounts[e]);
    var remaining := quota - Total(eras, floors);
    var open := Filter(eras, e => e in eraCounts && e in floors && floors[e] < eraCounts[e]);
    var byLargestRemainder := SortBy(open,
      (a, b) => SortKey(eraCounts, quota, total, floors, a) >= SortKey(eraCounts, quota, total, floors, b));
    RankedEras(eras, eraCounts, quota, total, floors, byLargestRemainder);
    ghost var k;
    allocation, k := GiveRemainders(floors, byLargestRemainder, remaining);
    AllocationComplete(eras, eraCounts, quota, total, floors, byLargestRemainder, remaining, k, allocation);
  }

  /** Hands the remaining slots to the ranked eras, one each. */
  method GiveRemainders(floors: map<Era, int>, ranked: seq<Era>, spare: int)
    returns (allocation: map<Era, int>, ghost k: nat)
    requires Distinct(ranked) && forall e :: e in ranked ==> e in floors
    ensures k <= |ranked| && (k > 0 ==> k <= spare) && (k == |ranked| || spare <= k)
    ensures allocation.Keys == floors.Keys
    ensures forall e :: e in floors ==> allocation[e] == floors[e] + (if e in ranked[..k] then 1 else 0)
  {
    allocation := floors;
    var remaining, i := spare, 0;
    while i < |ranked|
      invariant 0 <= i <= |ranked|
      invariant remaining == spare - i && (i > 0 ==> remaining >= 0)
      invariant allocation.Keys == floors.Keys
      invariant forall e :: e in floors ==> allocation[e] == floors[e] + (if e in ranked[..i] then 1 else 0)
    {
      if remaining <= 0 {
        break;
      }
      var e := ranked[i];
      assert e !in ranked[..i];
      allocation := allocation[e := allocation[e] + 1];
      remaining := remaining - 1;
      i := i + 1;
      assert ranked[..i] == ranked[..i-1] + [e];
    }
    k := i;
  }

  /** What the loop leaves behind when it runs out of slots or of open eras. */
  lemma AllocationComplete(eras: seq<Era>, counts: map<Era, nat>, quota: nat, total: nat,
                           floors: map<Era, int>, ranked: seq<Era>, spare: int, k: nat, alloc: map<Era, int>)
    requires DictOrder(eras, counts) && DictOrder(eras, floors) && DictOrder(eras, alloc)
    requires total == Total(eras, counts) > 0
    requires forall e :: e in eras ==> floors[e] == Min(quota * counts[e] / total, counts[e])
    requires Ranked(eras, counts, quota, total, floors, ranked)
    requires spare == quota - Total(eras, floors)
    requires k <= |ranked| && (k > 0 ==> k <= spare) && (k == |ranked| || spare <= k)
    requires forall e :: e in eras ==> alloc[e] == floors[e] + (if e in ranked[..k] then 1 else 0)
    ensures forall e :: e in eras ==> 0 <= alloc[e] <= counts[e]
    ensures Total(eras, alloc) == Min(quota, total)
    ensures quota <= total ==> LargestRemainder(eras, counts, quota, alloc)
    ensures quota <= total ==> PlaceBreaksTies(eras, counts, quota, alloc)
  {
    if quota <= total {
      EnoughRemainders(eras, counts, quota, total, floors, ranked, spare);
      SplitIsLargestRemainder(eras, counts, quota, total, floors, ranked, k, alloc);
    } else {
      forall e | e in eras ensures floors[e] == counts[e] { OversizedQuota(quota, counts[e], total); }
      FirstIn(ranked);
      TotalEqual(eras, alloc, counts);
    }
  }

  lemma ZeroAllocation(eras: seq<Era>, counts: map<Era, nat>, zero: map<Era, int>)
    requires DictOrder(eras, counts) && DictOrder(eras, zero)
    requires forall e :: e in eras ==> zero[e] == 0
    ensures Total(eras, zero) == 0
    ensures LargestRemainder(eras, counts, 0, zero) && PlaceBreaksTies(eras, counts, 0, zero)
  {
    var none: map<Era, int> := map e | e in zero :: 0;
    ZeroTotal(eras, zero);
  }

  lemma {:induction false} ZeroTotal(eras: seq<Era>, m: map<Era, int>)
    requires forall e :: e in eras ==> e in m && m[e] == 0
    ensures Total(eras, m) == 0
  {
    if eras != [] { ZeroTotal(eras[1..], m); }
  }

  /** What the sorted list of open eras contains, and its order. */
  ghost predicate Ranked(eras: seq<Era>, counts: map<Era, nat>, quota: nat, total: nat,
                         floors: map<Era, int>, ranked: seq<Era>)
    requires DictOrder(eras, counts) && DictOrder(eras, floors)
  {
    && Distinct(ranked)
    && (forall e :: e in ranked <==> e in eras && floors[e] < counts[e])
    && (forall i, j :: 0 <= i < j < |ranked| ==>
          var ki := SortKey(counts, quota, total, floors, ranked[i]);
          var kj := SortKey(counts, quota, total, floors, ranked[j]);
          ki >= kj && (ki == kj ==> Before(eras, ranked[i], ranked[j])))
  }

  lemma RankedEras(
      eras: seq<Era>, counts: map<Era, nat>, quota: nat, total: nat, floors: map<Era, int>, ranked: seq<Era>)
    requires DictOrder(eras, counts) && DictOrder(eras, floors)
    requires ranked == SortBy(Filter(eras, e => e in counts && e in floors && floors[e] < counts[e]),
      (a, b) => SortKey(counts, quota, total, floors, a) >= SortKey(counts, quota, total, floors, b))
    ensures Ranked(eras, counts, quota, total, floors, ranked)
  {
    var keep := e => e in counts && e in floors && floors[e] < counts[e];
    var le := (a, b) => SortKey(counts, quota, total, floors, a) >= SortKey(counts, quota, total, floors, b);
    var tie := (a, b) => Before(eras, a, b);
    var open := Filter(eras, keep);
    FilterElements(eras, keep);
    FilterDistinct(eras, keep);
    forall i, j | 0 <= i < j < |eras| ensures tie(eras[i], eras[j]) { }
    FilterKeepsOrder(eras, keep, tie);
    SortByStable(open, le, tie);
    SortByElements(open, le);
    SortByDistinct(open, le);
    forall i, j | 0 <= i < j < |ranked|
      ensures le(ranked[i], ranked[j]) && (le(ranked[j], ranked[i]) ==> tie(ranked[i], ranked[j]))
    {
      assert Keeps(le, tie, ranked[i], ranked[j]);
    }
  }

  lemma KeyIsRemainder(eras: seq<Era>, counts: map<Era, nat>, quota: nat, total: nat, floors: map<Era, int>)
    requires DictOrder(eras, counts) && DictOrder(eras, floors)
    requires 0 < total && quota <= total
    requires forall e :: e in eras ==> floors[e] == Min(quota * counts[e] / total, counts[e])
    ensures forall e :: e in eras ==> floors[e] == Floor(quota, counts[e], total)
    ensures forall e :: e in eras ==> SortKey(counts, quota, total, floors, e) == Remainder(quota, counts[e], total)
    ensures forall e :: e in eras && Remainder(quota, counts[e], total) > 0 ==> floors[e] < counts[e]
  {
    forall e | e in eras
      ensures floors[e] == Floor(quota, counts[e], total)
      ensures SortKey(counts, quota, total, floors, e) == Remainder(quota, counts[e], total)
      ensures Remainder(quota, counts[e], total) > 0 ==> floors[e] < counts[e]
    {
      ShareBounds(quota, counts[e], total);
    }
  }

  /** The slots left after flooring are no more than the eras that have a remainder. */
  lemma SpareBound(eras: seq<Era>, counts: map<Era, nat>, quota: nat, total: nat,
                   floors: map<Era, int>, rems: map<Era, int>)
    requires DictOrder(eras, counts) && DictOrder(eras, floors) && DictOrder(eras, rems)
    requires total == Total(eras, counts) > 0 && quota <= total
    requires forall e :: e in eras ==> floors[e] == Floor(quota, counts[e], total)
    requires forall e :: e in eras ==> rems[e] == Remainder(quota, counts[e], total)
    ensures 0 <= quota - Total(eras, floors) <= |set e | e in eras && rems[e] > 0|
  {
    forall e | e in eras ensures 0 <= rems[e] < total { ShareBounds(quota, counts[e], total); }
    ShareSums(eras, counts, quota, total, floors, rems);
    TotalNonNegative(eras, rems);
    RemainderSumBound(eras, rems, total);
    SpareFits(quota, total, Total(eras, floors), Total(eras, rems), |set e | e in eras && rems[e] > 0|);
  }

  lemma SpareFits(quota: nat, total: nat, floorSum: int, remSum: int, p: nat)
    requires 0 < total && quota * total == total * floorSum + remSum
    requires 0 <= remSum <= (total - 1) * p
    ensures 0 <= quota - floorSum <= p
  {
    var spare := quota - floorSum;
    Distribute(total, spare, floorSum);
    assert total * spare == remSum;
    if spare <= -1 { MulMonotone(spare, -1, total); }
    Distribute(p, total - 1, 1);
    if spare >= p + 1 { MulMonotone(p + 1, spare, total); }
  }

  /** With quota <= total, every slot left after flooring goes to an era that has a remainder. */
  lemma EnoughRemainders(eras: seq<Era>, counts: map<Era, nat>, quota: nat, total: nat,
                         floors: map<Era, int>, ranked: seq<Era>, spare: int)
    requires DictOrder(eras, counts) && DictOrder(eras, floors)
    requires total == Total(eras, counts) > 0 && quota <= total
    requires forall e :: e in eras ==> floors[e] == Min(quota * counts[e] / total, counts[e])
    requires Ranked(eras, counts, quota, total, floors, ranked)
    requires spare == quota - Total(eras, floors)
    ensures 0 <= spare <= |ranked|
    ensures forall i :: 0 <= i < spare ==> Remainder(quota, counts[ranked[i]], total) > 0
  {
    var rems: map<Era, int> := map e | e in counts :: Remainder(quota, counts[e], total);
    KeyIsRemainder(eras, counts, quota, total, floors);
    SpareBound(eras, counts, quota, total, floors, rems);
    var P := set e | e in eras && rems[e] > 0;
    assert P <= Elements(ranked);
    SubsetSize(P, Elements(ranked));
    DistinctCardinality(ranked);
    forall i | 0 <= i < spare ensures rems[ranked[i]] > 0 {
      PositivePrefix(ranked, rems, P, i);
    }
  }

  /** In a list ranked by remainder, a position below the number of positive ones is positive. */
  lemma PositivePrefix(ranked: seq<Era>, rems: map<Era, int>, P: set<Era>, i: nat)
    requires forall e :: e in ranked ==> e in rems && rems[e] >= 0
    requires forall a, b :: 0 <= a < b < |ranked| ==> rems[ranked[a]] >= rems[ranked[b]]
    requires P <= Elements(ranked) && forall e :: e in P ==> rems[e] > 0
    requires i < |P| && i < |ranked|
    ensures rems[ranked[i]] > 0
  {
    var front := Elements(ranked[..i]);
    DistinctCardinality(ranked[..i]);
    if P <= front { SubsetSize(P, front); }
    var e :| e in P && e !in front;
    var p :| 0 <= p < |ranked| && ranked[p] == e;
    InTake(ranked, p, i);
  }

  lemma SplitIsLargestRemainder(eras: seq<Era>, counts: map<Era, nat>, quota: nat, total: nat,
                                floors: map<Era, int>, ranked: seq<Era>, k: nat, alloc: map<Era, int>)
    requires DictOrder(eras, counts) && DictOrder(eras, floors) && DictOrder(eras, alloc)
    requires total == Total(eras, counts) > 0 && quota <= total
    requires forall e :: e in eras ==> floors[e] == Min(quota * counts[e] / total, counts[e])
    requires Ranked(eras, counts, quota, total, floors, ranked)
    requires k == quota - Total(eras, floors) && k <= |ranked|
    requires forall i :: 0 <= i < k ==> Remainder(quota, counts[ranked[i]], total) > 0
    requires forall e :: e in eras ==> alloc[e] == floors[e] + (if e in ranked[..k] then 1 else 0)
    ensures LargestRemainder(eras, counts, quota, alloc) && PlaceBreaksTies(eras, counts, quota, alloc)
    ensures forall e :: e in eras ==> 0 <= alloc[e] <= counts[e]
  {
    KeyIsRemainder(eras, counts, quota, total, floors);
    forall e | e in eras ensures RoundedAsRanked(counts, quota, total, ranked[..k], alloc, e) {
      RoundingOfEra(counts, quota, total, ranked, k, alloc, e);
    }
    SplitTotal(eras, floors, alloc, ranked, k);
    forall i: nat, j: nat | Favours(eras, counts, quota, total, alloc, i, j)
      ensures RightlyFavoured(eras, counts, quota, total, i, j)
    {
      assert RoundedAsRanked(counts, quota, total, ranked[..k], alloc, eras[i]);
      assert RoundedAsRanked(counts, quota, total, ranked[..k], alloc, eras[j]);
      RankedOutranks(eras, counts, quota, total, floors, ranked, k, i, j);
    }
    RoundedIsLargestRemainder(eras, counts, quota, total, ranked[..k], alloc);
  }

  /** The eras rounded up are those of the prefix `up` of the ranking. */
  ghost predicate RoundedAsRanked(counts: map<Era, nat>, quota: nat, total: nat, up: seq<Era>,
                                  alloc: map<Era, int>, e: Era)
    requires total > 0 && e in counts && e in alloc
  {
    && 0 <= alloc[e] <= counts[e]
    && (RoundedUp(counts, quota, total, alloc, e) <==> e in up)
    && (RoundedDown(counts, quota, total, alloc, e) <==> e !in up)
  }

  /** Era i has the larger remainder, or the same one and an earlier place. */
  ghost predicate RightlyFavoured(eras: seq<Era>, counts: map<Era, nat>, quota: nat, total: nat, i: nat, j: nat)
    requires total > 0 && i < |eras| && j < |eras| && eras[i] in counts && eras[j] in counts
  {
    && Outranks(eras, counts, quota, total, i, j)
    && (i < j || Remainder(quota, counts[eras[i]], total) != Remainder(quota, counts[eras[j]], total))
  }

  lemma RoundedIsLargestRemainder(eras: seq<Era>, counts: map<Era, nat>, quota: nat, total: nat, up: seq<Era>,
                                  alloc: map<Era, int>)
    requires DictOrder(eras, counts) && DictOrder(eras, alloc) && total == Total(eras, counts) > 0
    requires Total(eras, alloc) == quota
    requires forall e :: e in eras ==> RoundedAsRanked(counts, quota, total, up, alloc, e)
    requires forall i: nat, j: nat :: Favours(eras, counts, quota, total, alloc, i, j) ==>
      RightlyFavoured(eras, counts, quota, total, i, j)
    ensures LargestRemainder(eras, counts, quota, alloc) && PlaceBreaksTies(eras, counts, quota, alloc)
    ensures forall e :: e in eras ==> 0 <= alloc[e] <= counts[e]
  {
  }

  lemma SplitTotal(eras: seq<Era>, floors: map<Era, int>, alloc: map<Era, int>, ranked: seq<Era>, k: nat)
    requires DictOrder(eras, floors) && DictOrder(eras, alloc)
    requires k <= |ranked| && Distinct(ranked) && forall e :: e in ranked ==> e in eras
    requires forall e :: e in eras ==> alloc[e] == floors[e] + (if e in ranked[..k] then 1 else 0)
    ensures Total(eras, alloc) == Total(eras, floors) + k
  {
    var up := Elements(ranked[..k]);
    TotalBump(eras, floors, alloc, up);
    assert up == set e | e in eras && e in up;
    DistinctCardinality(ranked[..k]);
  }

  lemma RoundingOfEra(
      counts: map<Era, nat>, quota: nat, total: nat, ranked: seq<Era>, k: nat, alloc: map<Era, int>, e: Era)
    requires 0 < total && quota <= total && k <= |ranked| && e in counts && e in alloc
    requires forall p :: 0 <= p < k ==> ranked[p] in counts && Remainder(quota, counts[ranked[p]], total) > 0
    requires alloc[e] == Floor(quota, counts[e], total) + (if e in ranked[..k] then 1 else 0)
    ensures 0 <= alloc[e] <= counts[e]
    ensures RoundedUp(counts, quota, total, alloc, e) <==> e in ranked[..k]
    ensures RoundedDown(counts, quota, total, alloc, e) <==> e !in ranked[..k]
  {
    ShareBounds(quota, counts[e], total);
    if e in ranked[..k] {
      var p :| 0 <= p < k && ranked[..k][p] == e;
      assert ranked[p] == e;
    }
  }

  lemma RankedOutranks(eras: seq<Era>, counts: map<Era, nat>, quota: nat, total: nat,
                       floors: map<Era, int>, ranked: seq<Era>, k: nat, i: nat, j: nat)
    requires DictOrder(eras, counts) && DictOrder(eras, floors) && total > 0
    requires Ranked(eras, counts, quota, total, floors, ranked) && k <= |ranked|
    requires i < |eras| && j < |eras| && eras[i] in ranked[..k] && eras[j] !in ranked[..k]
    requires forall e :: e in eras ==> SortKey(counts, quota, total, floors, e) == Remainder(quota, counts[e], total)
    requires forall e :: e in eras && e !in ranked ==> Remainder(quota, counts[e], total) == 0
    requires forall p :: 0 <= p < k ==> Remainder(quota, counts[ranked[p]], total) > 0
    ensures RightlyFavoured(eras, counts, quota, total, i, j)
  {
    var p :| 0 <= p < k && ranked[..k][p] == eras[i];
    assert ranked[p] == eras[i];
    if eras[j] in ranked {
      var q :| 0 <= q < |ranked| && ranked[q] == eras[j];
      InTake(ranked, q, k);
      if Before(eras, ranked[p], ranked[q]) {
        var a, b :| 0 <= a < b < |eras| && eras[a] == eras[i] && eras[b] == eras[j];
        assert a == i && b == j;
      }
    }
  }

  // ----- the split is determined, and it is optimal

  /** With ties broken by place the split leaves no freedom: two of them are the same dictionary. */
  lemma LargestRemainderUnique(eras: seq<Era>, counts: map<Era, nat>, quota: nat, a: map<Era, int>, b: map<Era, int>)
    requires DictOrder(eras, counts) && DictOrder(eras, a) && DictOrder(eras, b)
    requires Total(eras, counts) > 0
    requires LargestRemainder(eras, counts, quota, a) && LargestRemainder(eras, counts, quota, b)
    requires PlaceBreaksTies(eras, counts, quota, a) && PlaceBreaksTies(eras, counts, quota, b)
    ensures a == b
  {
    if forall i :: 0 <= i < |eras| ==> a[eras[i]] <= b[eras[i]] {
      TotalGap(eras, a, b);
    } else {
      var i :| 0 <= i < |eras| && a[eras[i]] > b[eras[i]];
      forall j | 0 <= j < |eras| ensures b[eras[j]] <= a[eras[j]] {
        NoCrossing(eras, counts, quota, a, b, i, j);
      }
      TotalGap(eras, b, a);
    }
    assert forall e :: e in eras ==> a[e] == b[e];
  }

  lemma NoCrossing(
      eras: seq<Era>, counts: map<Era, nat>, quota: nat, a: map<Era, int>, b: map<Era, int>, i: nat, j: nat)
    requires DictOrder(eras, counts) && DictOrder(eras, a) && DictOrder(eras, b)
    requires Total(eras, counts) > 0 && i < |eras| && j < |eras|
    requires LargestRemainder(eras, counts, quota, a) && LargestRemainder(eras, counts, quota, b)
    requires PlaceBreaksTies(eras, counts, quota, a) && PlaceBreaksTies(eras, counts, quota, b)
    ensures !(a[eras[i]] > b[eras[i]] && b[eras[j]] > a[eras[j]])
  {
    Promoted(eras, counts, quota, a, b, i, j);
    Promoted(eras, counts, quota, b, a, j, i);
  }

  /** If a gives era i more than b does and era j less, then a favours i over j. */
  lemma Promoted(eras: seq<Era>, counts: map<Era, nat>, quota: nat, a: map<Era, int>, b: map<Era, int>, i: nat, j: nat)
    requires DictOrder(eras, counts) && DictOrder(eras, a) && DictOrder(eras, b)
    requires Total(eras, counts) > 0 && i < |eras| && j < |eras|
    requires LargestRemainder(eras, counts, quota, a) && LargestRemainder(eras, counts, quota, b)
    ensures a[eras[i]] > b[eras[i]] && b[eras[j]] > a[eras[j]] ==>
      Favours(eras, counts, quota, Total(eras, counts), a, i, j)
  {
    var total := Total(eras, counts);
    assert eras[i] in eras && eras[j] in eras;
    assert a[eras[i]] > b[eras[i]] ==> RoundedUp(counts, quota, total, a, eras[i]);
    assert b[eras[j]] > a[eras[j]] ==> RoundedDown(counts, quota, total, a, eras[j]);
  }

  /** However ties are broken, two splits only exchange slots between eras of equal remainder. */
  lemma SplitsDifferOnlyInTies(eras: seq<Era>, counts: map<Era, nat>, quota: nat,
                               a: map<Era, int>, b: map<Era, int>, i: nat, j: nat)
    requires DictOrder(eras, counts) && DictOrder(eras, a) && DictOrder(eras, b)
    requires Total(eras, counts) > 0 && i < |eras| && j < |eras|
    requires LargestRemainder(eras, counts, quota, a) && LargestRemainder(eras, counts, quota, b)
    requires a[eras[i]] > b[eras[i]] && b[eras[j]] > a[eras[j]]
    ensures var total := Total(eras, counts);
      Remainder(quota, counts[eras[i]], total) == Remainder(quota, counts[eras[j]], total)
  {
    var total := Total(eras, counts);
    Promoted(eras, counts, quota, a, b, i, j);
    Promoted(eras, counts, quota, b, a, j, i);
    assert Outranks(eras, counts, quota, total, i, j) && Outranks(eras, counts, quota, total, j, i);
  }

  /** With counts 1, 10, 22 and a quota of 11 all remainders are equal. The earlier place gives the
      spare slot to the first era; float quotients rank the second one highest. Both splits are
      covered by what is proved about largest remainders. */
  lemma TiesMayGoEitherWay(a: Era, b: Era, c: Era)
    requires a != b && a != c && b != c
    ensures var eras, counts := [a, b, c], map[a := 1, b := 10, c := 22];
            var byPlace, byFloat := map[a := 1, b := 3, c := 7], map[a := 0, b := 4, c := 7];
      && LargestRemainder(eras, counts, 11, byPlace) && PlaceBreaksTies(eras, counts, 11, byPlace)
      && LargestRemainder(eras, counts, 11, byFloat) && !PlaceBreaksTies(eras, counts, 11, byFloat)
  {
    var eras, counts := [a, b, c], map[a := 1, b := 10, c := 22];
    var byPlace, byFloat := map[a := 1, b := 3, c := 7], map[a := 0, b := 4, c := 7];
    TotalOfThree(a, b, c, counts);
    TotalOfThree(a, b, c, byPlace);
    TotalOfThree(a, b, c, byFloat);
    assert Floor(11, 1, 33) == 0 && Floor(11, 10, 33) == 3 && Floor(11, 22, 33) == 7;
    assert Remainder(11, 1, 33) == 11 && Remainder(11, 10, 33) == 11 && Remainder(11, 22, 33) == 11;
    assert eras[0] == a && eras[1] == b && eras[2] == c;
    assert Favours(eras, counts, 11, 33, byFloat, 1, 0);
  }

  lemma TotalOfThree(a: Era, b: Era, c: Era, m: map<Era, int>)
    requires a in m && b in m && c in m
    ensures Total([a, b, c], m) == m[a] + m[b] + m[c]
  {
    assert [a, b, c][1..] == [b, c] && [b, c][1..] == [c] && [c][1..] == [];
    assert Total([c], m) == m[c] && Total([b, c], m) == m[b] + Total([c], m);
  }

  /** Equal sums of pointwise ordered dictionaries mean equal entries. */
  lemma {:induction false} TotalGap(eras: seq<Era>, a: map<Era, int>, b: map<Era, int>)
    requires forall e :: e in eras ==> e in a && e in b && a[e] <= b[e]
    ensures Total(eras, a) <= Total(eras, b)
    ensures Total(eras, a) == Total(eras, b) ==> forall e :: e in eras ==> a[e] == b[e]
  {
    if eras != [] { TotalGap(eras[1..], a, b); }
  }

  ghost function Increment(penalty: int -> int, t: int, x: int): int {
    penalty(x + t) - penalty(x)
  }

  /** A penalty whose increments over one step of `t` never decrease: a convex one. */
  ghost predicate ConvexStep(penalty: int -> int, t: int) {
    forall x, y :: x <= y ==> Increment(penalty, t, x) <= Increment(penalty, t, y)
  }

  /** How far an era's slots are from its exact share, as a numerator over `total`. */
  function Gap(counts: map<Era, nat>, quota: nat, total: nat, alloc: map<Era, int>, e: Era): int
    requires e in counts && e in alloc
  {
    alloc[e] * total - quota * counts[e]
  }

  /** Sum of the penalties of alloc * total - quota * count over the eras. */
  ghost function Deviation(eras: seq<Era>, counts: map<Era, nat>, quota: nat, total: nat,
                           alloc: map<Era, int>, penalty: int -> int): int
    requires forall e :: e in eras ==> e in counts && e in alloc
  {
    if eras == [] then 0
    else penalty(Gap(counts, quota, total, alloc, eras[0])) + Deviation(eras[1..], counts, quota, total, alloc, penalty)
  }

  /** Largest remainder of an era that was rounded down. */
  ghost function Threshold(
      eras: seq<Era>, counts: map<Era, nat>, quota: nat, total: nat, alloc: map<Era, int>): (h: nat)
    requires total > 0 && forall e :: e in eras ==> e in counts && e in alloc
    ensures h < total
    ensures forall e ::
      e in eras && RoundedDown(counts, quota, total, alloc, e) ==> Remainder(quota, counts[e], total) <= h
    ensures h == 0 || exists e ::
      e in eras && RoundedDown(counts, quota, total, alloc, e) && Remainder(quota, counts[e], total) == h
  {
    if eras == [] then 0
    else if RoundedDown(counts, quota, total, alloc, eras[0])
      then Max(Remainder(quota, counts[eras[0]], total), Threshold(eras[1..], counts, quota, total, alloc))
      else Threshold(eras[1..], counts, quota, total, alloc)
  }

  /** The era was rounded down below the threshold or up above it. */
  ghost predicate Separated(counts: map<Era, nat>, quota: nat, total: nat, alloc: map<Era, int>, h: int, e: Era)
    requires total > 0 && e in counts && e in alloc
  {
    var r := Remainder(quota, counts[e], total);
    || (RoundedDown(counts, quota, total, alloc, e) && r <= h)
    || (RoundedUp(counts, quota, total, alloc, e) && r >= h)
  }

  /** Tangent line: at the chosen rounding the penalty minus `slope` per unit is smallest. */
  lemma {:induction false} Tangent(penalty: int -> int, t: int, r: int, h: int, a: int, k: int, slope: int)
    requires t > 0 && 0 <= r < t && 0 <= h < t && ConvexStep(penalty, t)
    requires (a == 1 && r >= h) || (a == 0 && r <= h)
    requires slope == Increment(penalty, t, -h)
    ensures penalty(k * t - r) - slope * k >= penalty(a * t - r) - slope * a
    decreases if k >= a then k - a else a - k
  {
    if k > a {
      Tangent(penalty, t, r, h, a, k - 1, slope);
      MulMonotone(a, k - 1, t);
      TangentStep(penalty, t, r, k - 1, slope);
      assert Increment(penalty, t, (k - 1) * t - r) >= slope;
    } else if k < a {
      Tangent(penalty, t, r, h, a, k + 1, slope);
      MulMonotone(k, a - 1, t);
      TangentStep(penalty, t, r, k, slope);
      assert Increment(penalty, t, k * t - r) <= slope;
    }
  }

  lemma TangentStep(penalty: int -> int, t: int, r: int, k: int, slope: int)
    ensures penalty((k + 1) * t - r) - slope * (k + 1)
         == penalty(k * t - r) - slope * k + Increment(penalty, t, k * t - r) - slope
  {
    Distribute(t, k, 1);
    Distribute(slope, k, 1);
    assert (k + 1) * t - r == k * t - r + t;
  }

  lemma ShareTangent(penalty: int -> int, count: nat, quota: nat, total: nat, h: int, a: int, other: int, slope: int)
    requires total > 0 && 0 <= h < total && ConvexStep(penalty, total) && quota <= total
    requires var r := Remainder(quota, count, total); (a == 1 && r >= h) || (a == 0 && r <= h)
    requires slope == Increment(penalty, total, -h)
    ensures var given := Floor(quota, count, total) + a;
            penalty(other * total - quota * count) - slope * other
              >= penalty(given * total - quota * count) - slope * given
  {
    var f, r := Floor(quota, count, total), Remainder(quota, count, total);
    var k := other - f;
    ShareBounds(quota, count, total);
    Tangent(penalty, total, r, h, a, k, slope);
    Distribute(total, f, k);
    Distribute(total, f, a);
    Distribute(slope, f, k);
    Distribute(slope, f, a);
    assert other * total - quota * count == k * total - r;
    assert (f + a) * total - quota * count == a * total - r;
  }

  lemma {:induction false} DeviationTangent(eras: seq<Era>, counts: map<Era, nat>, quota: nat, total: nat,
                                            alloc: map<Era, int>, other: map<Era, int>, penalty: int -> int,
                                            h: int, slope: int)
    requires total > 0 && 0 <= h < total && ConvexStep(penalty, total) && quota <= total
    requires forall e :: e in eras ==> e in counts && e in alloc && e in other
    requires forall e :: e in eras ==> Separated(counts, quota, total, alloc, h, e)
    requires slope == Increment(penalty, total, -h)
    ensures Deviation(eras, counts, quota, total, other, penalty) - slope * Total(eras, other)
         >= Deviation(eras, counts, quota, total, alloc, penalty) - slope * Total(eras, alloc)
  {
    if eras != [] {
      var e, t := eras[0], eras[1..];
      DeviationTangent(t, counts, quota, total, alloc, other, penalty, h, slope);
      var a := alloc[e] - Floor(quota, counts[e], total);
      assert Separated(counts, quota, total, alloc, h, e);
      ShareTangent(penalty, counts[e], quota, total, h, a, other[e], slope);
      Distribute(slope, other[e], Total(t, other));
      Distribute(slope, alloc[e], Total(t, alloc));
    }
  }

  /** No integer split of the quota is closer to proportional, under any convex penalty. */
  lemma LargestRemainderOptimal(eras: seq<Era>, counts: map<Era, nat>, quota: nat,
                                alloc: map<Era, int>, other: map<Era, int>, penalty: int -> int)
    requires DictOrder(eras, counts) && DictOrder(eras, alloc) && DictOrder(eras, other)
    requires 0 < Total(eras, counts) && quota <= Total(eras, counts)
    requires LargestRemainder(eras, counts, quota, alloc)
    requires Total(eras, other) == quota
    requires ConvexStep(penalty, Total(eras, counts))
    ensures Deviation(eras, counts, quota, Total(eras, counts), alloc, penalty)
         <= Deviation(eras, counts, quota, Total(eras, counts), other, penalty)
  {
    var total := Total(eras, counts);
    var h: int := Threshold(eras, counts, quota, total, alloc);
    forall e | e in eras
      ensures Separated(counts, quota, total, alloc, h, e)
    {
      ThresholdSeparates(eras, counts, quota, alloc, h, e);
    }
    DeviationTangent(eras, counts, quota, total, alloc, other, penalty, h, Increment(penalty, total, -h));
  }

  lemma ThresholdSeparates(eras: seq<Era>, counts: map<Era, nat>, quota: nat, alloc: map<Era, int>, h: nat, e: Era)
    requires DictOrder(eras, counts) && DictOrder(eras, alloc)
    requires 0 < Total(eras, counts) && LargestRemainder(eras, counts, quota, alloc)
    requires e in eras && h == Threshold(eras, counts, quota, Total(eras, counts), alloc)
    ensures Separated(counts, quota, Total(eras, counts), alloc, h, e)
  {
    var total := Total(eras, counts);
    if RoundedUp(counts, quota, total, alloc, e) && h > 0 {
      var d :| d in eras && RoundedDown(counts, quota, total, alloc, d) && Remainder(quota, counts[d], total) == h;
      var i :| 0 <= i < |eras| && eras[i] == e;
      var j :| 0 <= j < |eras| && eras[j] == d;
      assert Outranks(eras, counts, quota, total, i, j);
    }
  }

  function Abs(x: int): (r: int)
    ensures r >= 0 && (r == x || r == -x)
  {
    if x < 0 then -x else x
  }

  /** In particular it minimises the sum over eras of |alloc * total - quota * count|. */
  lemma LargestRemainderMinimisesAbsoluteDeviation(eras: seq<Era>, counts: map<Era, nat>, quota: nat,
                                                   alloc: map<Era, int>, other: map<Era, int>)
    requires DictOrder(eras, counts) && DictOrder(eras, alloc) && DictOrder(eras, other)
    requires 0 < Total(eras, counts) && quota <= Total(eras, counts)
    requires LargestRemainder(eras, counts, quota, alloc)
    requires Total(eras, other) == quota
    ensures Deviation(eras, counts, quota, Total(eras, counts), alloc, Abs)
         <= Deviation(eras, counts, quota, Total(eras, counts), other, Abs)
  {
    LargestRemainderOptimal(eras, counts, quota, alloc, other, Abs);
  }
}
