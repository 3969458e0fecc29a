/** Stable sorting by a key order, as Python's `sorted` performs it, and the
    lexicographic order on strings it is used with. */
module Ordering {

  ghost predicate TotalPreorder<T(!new)>(le: (T, T) -> bool) {
    && (forall a, b :: le(a, b) || le(b, a))
    && (forall a, b, c :: le(a, b) && le(b, c) ==> le(a, c))
  }

  ghost predicate SortedBy<T(!new)>(xs: seq<T>, le: (T, T) -> bool) {
    forall i, j :: 0 <= i < j < |xs| ==> le(xs[i], xs[j])
  }

  /** No two positions hold the same value. */
  ghost predicate Distinct<T>(xs: seq<T>) {
    forall i, j :: 0 <= i < j < |xs| ==> xs[i] != xs[j]
  }

  function Elements<T>(xs: seq<T>): set<T> {
    set x | x in xs
  }

  function Min(a: int, b: int): int { if a < b then a else b }

  function Max(a: int, b: int): int { if a < b then b else a }

  /** The first n elements, or all of them: a Python slice [:n]. */
  function Take<T>(xs: seq<T>, n: nat): seq<T> {
    if n < |xs| then xs[..n] else xs
  }

  function Filter<T>(xs: seq<T>, keep: T -> bool): seq<T> {
    if xs == [] then []
    else if keep(xs[0]) then [xs[0]] + Filter(xs[1..], keep)
    else Filter(xs[1..], keep)
  }

  /** Places `x` before the first element it is not above. */
  function Insert<T>(x: T, ys: seq<T>, le: (T, T) -> bool): seq<T> {
    if ys == [] || le(x, ys[0]) then [x] + ys else [ys[0]] + Insert(x, ys[1..], le)
  }

  /** Stable insertion sort: equal keys keep their input order. */
  function SortBy<T>(xs: seq<T>, le: (T, T) -> bool): seq<T> {
    if xs == [] then [] else Insert(xs[0], SortBy(xs[1..], le), le)
  }

  lemma SplitLast<T>(xs: seq<T>)
    requires xs != []
    ensures xs == xs[..|xs| - 1] + [xs[|xs| - 1]]
    ensures forall x :: x in xs <==> x in xs[..|xs| - 1] || x == xs[|xs| - 1]
  {
  }

  lemma FirstIn<T>(xs: seq<T>)
    ensures xs == [] || xs[0] in xs
  {
  }

  lemma {:induction false} InsertElements<T>(x: T, ys: seq<T>, le: (T, T) -> bool)
    ensures multiset(Insert(x, ys, le)) == multiset([x]) + multiset(ys)
    ensures |Insert(x, ys, le)| == 1 + |ys|
  {
    if ys == [] || le(x, ys[0]) {
    } else {
      InsertElements(x, ys[1..], le);
      assert ys == [ys[0]] + ys[1..];
    }
  }

  lemma {:induction false} SortByPermutes<T>(xs: seq<T>, le: (T, T) -> bool)
    ensures multiset(SortBy(xs, le)) == multiset(xs)
    ensures |SortBy(xs, le)| == |xs|
  {
    if xs != [] {
      SortByPermutes(xs[1..], le);
      InsertElements(xs[0], SortBy(xs[1..], le), le);
      assert xs == [xs[0]] + xs[1..];
    }
  }

  lemma SameMultisetSameElements<T>(xs: seq<T>, ys: seq<T>)
    requires multiset(xs) == multiset(ys)
    ensures forall x :: x in xs <==> x in ys
    ensures |xs| == |ys|
  {
    forall x ensures x in xs <==> x in ys {
      assert x in xs <==> x in multiset(xs);
      assert x in ys <==> x in multiset(ys);
    }
    assert |xs| == |multiset(xs)| == |multiset(ys)| == |ys|;
  }

  lemma {:induction false} DistinctMultiset<T>(xs: seq<T>)
    ensures Distinct(xs) <==> forall x :: multiset(xs)[x] <= 1
  {
    if xs != [] {
      var t := xs[1..];
      assert xs == [xs[0]] + t;
      DistinctMultiset(t);
      if Distinct(xs) {
        assert Distinct(t) by {
          forall i, j | 0 <= i < j < |t| ensures t[i] != t[j] { assert xs[i+1] != xs[j+1]; }
        }
        assert xs[0] !in t;
        forall x ensures multiset(xs)[x] <= 1 { assert multiset(xs)[x] == multiset([xs[0]])[x] + multiset(t)[x]; }
      }
      if forall x :: multiset(xs)[x] <= 1 {
        forall x ensures multiset(t)[x] <= 1 { assert multiset(xs)[x] == multiset([xs[0]])[x] + multiset(t)[x]; }
        assert multiset(xs)[xs[0]] == 1 + multiset(t)[xs[0]];
        assert xs[0] !in t;
        forall i, j | 0 <= i < j < |xs| ensures xs[i] != xs[j] {
          if i > 0 { assert t[i-1] != t[j-1]; } else { assert xs[j] == t[j-1]; }
        }
      }
    }
  }

  lemma SortByDistinct<T>(xs: seq<T>, le: (T, T) -> bool)
    requires Distinct(xs)
    ensures Distinct(SortBy(xs, le))
  {
    SortByPermutes(xs, le);
    DistinctMultiset(xs);
    DistinctMultiset(SortBy(xs, le));
  }

  lemma SortByElements<T>(xs: seq<T>, le: (T, T) -> bool)
    ensures forall x :: x in SortBy(xs, le) <==> x in xs
    ensures |SortBy(xs, le)| == |xs|
  {
    SortByPermutes(xs, le);
    SameMultisetSameElements(SortBy(xs, le), xs);
  }

  ghost predicate Keeps<T(!new)>(le: (T, T) -> bool, tie: (T, T) -> bool, a: T, b: T) {
    le(a, b) && (le(b, a) ==> tie(a, b))
  }

  /** The order a stable sort leaves behind: by key, and by `tie` between equal keys. */
  ghost predicate StableSorted<T(!new)>(xs: seq<T>, le: (T, T) -> bool, tie: (T, T) -> bool) {
    forall i, j :: 0 <= i < j < |xs| ==> Keeps(le, tie, xs[i], xs[j])
  }

  lemma StableCons<T(!new)>(x: T, ys: seq<T>, le: (T, T) -> bool, tie: (T, T) -> bool)
    requires StableSorted(ys, le, tie)
    requires forall y :: y in ys ==> Keeps(le, tie, x, y)
    ensures StableSorted([x] + ys, le, tie)
  {
    var r := [x] + ys;
    forall i, j | 0 <= i < j < |r| ensures Keeps(le, tie, r[i], r[j]) {
      assert r[j] == ys[j-1];
      if i > 0 { assert r[i] == ys[i-1]; }
    }
  }

  lemma StableTail<T(!new)>(ys: seq<T>, le: (T, T) -> bool, tie: (T, T) -> bool)
    requires ys != [] && StableSorted(ys, le, tie)
    ensures StableSorted(ys[1..], le, tie)
    ensures forall y :: y in ys[1..] ==> Keeps(le, tie, ys[0], y)
  {
  }

  lemma {:induction false} InsertStable<T(!new)>(x: T, ys: seq<T>, le: (T, T) -> bool, tie: (T, T) -> bool)
    requires TotalPreorder(le) && StableSorted(ys, le, tie)
    requires forall y :: y in ys ==> tie(x, y)
    ensures StableSorted(Insert(x, ys, le), le, tie)
  {
    if ys == [] {
    } else if le(x, ys[0]) {
      StableTail(ys, le, tie);
      forall y | y in ys ensures Keeps(le, tie, x, y) {
        assert y == ys[0] || y in ys[1..];
      }
      StableCons(x, ys, le, tie);
    } else {
      StableTail(ys, le, tie);
      InsertStable(x, ys[1..], le, tie);
      InsertElements(x, ys[1..], le);
      var u := Insert(x, ys[1..], le);
      SameMultisetSameElements(u, [x] + ys[1..]);
      forall y | y in u ensures Keeps(le, tie, ys[0], y) {
        assert y in [x] + ys[1..];
      }
      StableCons(ys[0], u, le, tie);
    }
  }

  /** Sorting keeps elements of equal key in the order the input had them. */
  lemma {:induction false} SortByStable<T(!new)>(xs: seq<T>, le: (T, T) -> bool, tie: (T, T) -> bool)
    requires TotalPreorder(le)
    requires forall i, j :: 0 <= i < j < |xs| ==> tie(xs[i], xs[j])
    ensures StableSorted(SortBy(xs, le), le, tie)
  {
    if xs != [] {
      var t := xs[1..];
      forall i, j | 0 <= i < j < |t| ensures tie(t[i], t[j]) { assert t[i] == xs[i+1] && t[j] == xs[j+1]; }
      SortByStable(t, le, tie);
      SortByElements(t, le);
      forall y | y in SortBy(t, le) ensures tie(xs[0], y) {
        var k :| 0 <= k < |t| && t[k] == y;
        assert xs[k+1] == y;
      }
      InsertStable(xs[0], SortBy(t, le), le, tie);
    }
  }

  lemma SortBySorts<T(!new)>(xs: seq<T>, le: (T, T) -> bool)
    requires TotalPreorder(le)
    ensures SortedBy(SortBy(xs, le), le)
  {
    SortByStable(xs, le, (a, b) => true);
  }

  /** The order tells the entries of the list apart. */
  ghost predicate Separates<T(!new)>(le: (T, T) -> bool, xs: seq<T>) {
    forall a, b :: a in xs && b in xs && le(a, b) && le(b, a) ==> a == b
  }

  /** A sorted list without repeats is determined by its elements when the order tells them apart. */
  lemma {:induction false} SortedUnique<T(!new)>(xs: seq<T>, ys: seq<T>, le: (T, T) -> bool)
    requires TotalPreorder(le) && Separates(le, xs)
    requires SortedBy(xs, le) && SortedBy(ys, le) && Distinct(xs) && Distinct(ys)
    requires forall x :: x in xs <==> x in ys
    ensures xs == ys
  {
    FirstIn(xs);
    FirstIn(ys);
    if xs != [] && ys != [] {
      HeadIsLeast(xs, le);
      HeadIsLeast(ys, le);
      assert xs[0] in ys && ys[0] in xs;
      assert xs == [xs[0]] + xs[1..] && ys == [ys[0]] + ys[1..];
      TailOrdered(xs, le);
      TailOrdered(ys, le);
      TailMembers(xs);
      TailMembers(ys);
      SortedUnique(xs[1..], ys[1..], le);
    }
  }

  lemma HeadIsLeast<T(!new)>(xs: seq<T>, le: (T, T) -> bool)
    requires SortedBy(xs, le) && TotalPreorder(le) && xs != []
    ensures forall x :: x in xs ==> le(xs[0], x)
  {
    var h := xs[0];
    assert le(h, h) || le(h, h);
  }

  lemma TailMembers<T>(xs: seq<T>)
    requires xs != [] && Distinct(xs)
    ensures forall x :: x in xs[1..] <==> x in xs && x != xs[0]
  {
    assert xs == [xs[0]] + xs[1..];
  }

  lemma TailOrdered<T(!new)>(xs: seq<T>, le: (T, T) -> bool)
    requires xs != []
    ensures SortedBy(xs, le) ==> SortedBy(xs[1..], le)
    ensures Distinct(xs) ==> Distinct(xs[1..])
  {
  }

  lemma {:induction false} FilterElements<T>(xs: seq<T>, keep: T -> bool)
    ensures forall x :: x in Filter(xs, keep) <==> x in xs && keep(x)
    ensures |Filter(xs, keep)| <= |xs|
    ensures multiset(Filter(xs, keep)) <= multiset(xs)
  {
    if xs != [] {
      FilterElements(xs[1..], keep);
      assert xs == [xs[0]] + xs[1..];
    }
  }

  lemma {:induction false} FilterAppend<T>(xs: seq<T>, ys: seq<T>, keep: T -> bool)
    ensures Filter(xs + ys, keep) == Filter(xs, keep) + Filter(ys, keep)
  {
    if xs == [] {
      assert xs + ys == ys;
    } else {
      FilterAppend(xs[1..], ys, keep);
      assert (xs + ys)[1..] == xs[1..] + ys;
    }
  }

  lemma FilterSnoc<T>(xs: seq<T>, x: T, keep: T -> bool)
    ensures Filter(xs + [x], keep) == if keep(x) then Filter(xs, keep) + [x] else Filter(xs, keep)
  {
    FilterAppend(xs, [x], keep);
    assert [x][1..] == [];
  }

  lemma {:induction false} FilterMultiset<T>(xs: seq<T>, keep: T -> bool, x: T)
    ensures multiset(Filter(xs, keep))[x] == if keep(x) then multiset(xs)[x] else 0
  {
    if xs != [] {
      FilterMultiset(xs[1..], keep, x);
      assert xs == [xs[0]] + xs[1..];
    }
  }

  function Places<T>(xs: seq<T>, keep: T -> bool): set<int> {
    set i | 0 <= i < |xs| && keep(xs[i])
  }

  /** A filtered list has one element for every place that passes. */
  lemma {:induction false} FilterCount<T>(xs: seq<T>, keep: T -> bool)
    ensures |Filter(xs, keep)| == |Places(xs, keep)|
  {
    if xs != [] {
      var front, last := xs[..|xs| - 1], xs[|xs| - 1];
      FilterCount(front, keep);
      FilterSnoc(front, last, keep);
      SplitLast(xs);
      PlacesSnoc(front, last, keep);
    } else {
      assert Places(xs, keep) == {};
    }
  }

  lemma PlacesSnoc<T>(xs: seq<T>, x: T, keep: T -> bool)
    ensures |Places(xs + [x], keep)| == |Places(xs, keep)| + (if keep(x) then 1 else 0)
  {
    assert Places(xs + [x], keep) == Places(xs, keep) + (if keep(x) then {|xs|} else {});
  }

  lemma FilterDistinct<T>(xs: seq<T>, keep: T -> bool)
    requires Distinct(xs)
    ensures Distinct(Filter(xs, keep))
  {
    DistinctMultiset(xs);
    FilterElements(xs, keep);
    DistinctMultiset(Filter(xs, keep));
  }

  lemma {:induction false} FilterNone<T>(xs: seq<T>, keep: T -> bool)
    requires forall x :: x in xs ==> !keep(x)
    ensures Filter(xs, keep) == []
  {
    if xs != [] { FilterNone(xs[1..], keep); }
  }

  lemma {:induction false} FilterAll<T>(xs: seq<T>, keep: T -> bool)
    requires forall x :: x in xs ==> keep(x)
    ensures Filter(xs, keep) == xs
  {
    if xs != [] { FilterAll(xs[1..], keep); }
  }

  /** Filtering keeps the relative order, so any pairwise relation survives it. */
  lemma {:induction false} FilterKeepsOrder<T(!new)>(xs: seq<T>, keep: T -> bool, rel: (T, T) -> bool)
    requires forall i, j :: 0 <= i < j < |xs| ==> rel(xs[i], xs[j])
    ensures var f := Filter(xs, keep); forall i, j :: 0 <= i < j < |f| ==> rel(f[i], f[j])
  {
    if xs != [] {
      var t := xs[1..];
      forall i, j | 0 <= i < j < |t| ensures rel(t[i], t[j]) { assert rel(xs[i+1], xs[j+1]); }
      FilterKeepsOrder(t, keep, rel);
      FilterElements(t, keep);
      var g := Filter(t, keep);
      forall y | y in g ensures rel(xs[0], y) {
        var k :| 0 <= k < |t| && t[k] == y;
        assert rel(xs[0], xs[k+1]);
      }
    }
  }

  lemma DistinctSnoc<T>(xs: seq<T>, x: T)
    requires Distinct(xs) && x !in xs
    ensures Distinct(xs + [x])
    ensures forall y :: y in xs + [x] <==> y in xs || y == x
  {
  }

  lemma DistinctConcat<T>(xs: seq<T>, ys: seq<T>)
    requires Distinct(xs) && Distinct(ys) && forall j :: 0 <= j < |ys| ==> ys[j] !in xs
    ensures Distinct(xs + ys)
  {
  }

  lemma InTake<T>(xs: seq<T>, k: nat, i: nat)
    requires k < |xs| && i <= |xs|
    ensures k < i ==> xs[k] in xs[..i]
  {
    if k < i { assert xs[..i][k] == xs[k]; }
  }

  function Map<T, U>(xs: seq<T>, f: T -> U): seq<U> {
    if xs == [] then [] else Map(xs[..|xs| - 1], f) + [f(xs[|xs| - 1])]
  }

  lemma {:induction false} MapAt<T, U>(xs: seq<T>, f: T -> U)
    ensures |Map(xs, f)| == |xs| && forall i :: 0 <= i < |xs| ==> Map(xs, f)[i] == f(xs[i])
  {
    if xs != [] { MapAt(xs[..|xs| - 1], f); }
  }

  lemma MapSnoc<T, U>(xs: seq<T>, x: T, f: T -> U)
    ensures Map(xs + [x], f) == Map(xs, f) + [f(x)]
  {
    assert (xs + [x])[..|xs|] == xs;
  }

  lemma MapAppend<T, U>(xs: seq<T>, ys: seq<T>, f: T -> U)
    ensures Map(xs + ys, f) == Map(xs, f) + Map(ys, f)
  {
    MapAt(xs, f);
    MapAt(ys, f);
    MapAt(xs + ys, f);
  }

  lemma {:induction false} MapOfInsert<T, U>(x: T, ys: seq<T>, le: (T, T) -> bool, f: T -> U, leOf: (U, U) -> bool)
    requires forall a: T, b: T :: leOf(f(a), f(b)) == le(a, b)
    ensures Map(Insert(x, ys, le), f) == Insert(f(x), Map(ys, f), leOf)
  {
    if ys == [] {
      MapAppend([x], ys, f);
    } else {
      var tail := ys[1..];
      assert ys == [ys[0]] + tail;
      MapAppend([ys[0]], tail, f);
      MapAppend([x], ys, f);
      MapAppend([ys[0]], Insert(x, tail, le), f);
      MapOfInsert(x, tail, le, f, leOf);
      assert Map(ys, f)[1..] == Map(tail, f);
    }
  }

  /** Sorting by what `f` shows and then applying `f` is applying `f` and then sorting. */
  lemma {:induction false} MapOfSort<T, U>(xs: seq<T>, le: (T, T) -> bool, f: T -> U, leOf: (U, U) -> bool)
    requires forall a: T, b: T :: leOf(f(a), f(b)) == le(a, b)
    ensures Map(SortBy(xs, le), f) == SortBy(Map(xs, f), leOf)
  {
    if xs != [] {
      var tail := xs[1..];
      assert xs == [xs[0]] + tail;
      MapAppend([xs[0]], tail, f);
      assert Map(xs, f)[1..] == Map(tail, f);
      MapOfSort(tail, le, f, leOf);
      MapOfInsert(xs[0], SortBy(tail, le), le, f, leOf);
    }
  }

  lemma MapInsert<T, U>(a: seq<T>, x: T, b: seq<T>, f: T -> U)
    ensures multiset(Map(a + [x] + b, f)) == multiset(Map(a + b, f)) + multiset{f(x)}
  {
    MapAppend(a + [x], b, f);
    MapSnoc(a, x, f);
    MapAppend(a, b, f);
  }

  lemma RemoveCommon<T>(xs: seq<T>, ys: seq<T>) returns (j: nat)
    requires xs != [] && multiset(xs) == multiset(ys)
    ensures j < |ys| && ys[j] == xs[|xs| - 1] && ys == ys[..j] + [ys[j]] + ys[j + 1..]
    ensures multiset(xs[..|xs| - 1]) == multiset(ys[..j] + ys[j + 1..])
  {
    var last := xs[|xs| - 1];
    SameMultisetSameElements(xs, ys);
    assert last in ys;
    j :| 0 <= j < |ys| && ys[j] == last;
    RemoveAt(ys, j);
    RemoveAt(xs, |xs| - 1);
    assert xs[..|xs| - 1] + xs[|xs|..] == xs[..|xs| - 1];
    CancelOne(multiset(xs[..|xs| - 1]), multiset(ys[..j] + ys[j + 1..]), last);
  }

  lemma RemoveAt<T>(xs: seq<T>, j: nat)
    requires j < |xs|
    ensures xs == xs[..j] + [xs[j]] + xs[j + 1..]
    ensures multiset(xs) == multiset(xs[..j] + xs[j + 1..]) + multiset{xs[j]}
  {
    assert xs == xs[..j] + [xs[j]] + xs[j + 1..];
  }

  lemma CancelOne<T>(a: multiset<T>, b: multiset<T>, x: T)
    requires a + multiset{x} == b + multiset{x}
    ensures a == b
  {
    assert a == (a + multiset{x}) - multiset{x};
    assert b == (b + multiset{x}) - multiset{x};
  }

  /** Mapping permutations gives permutations. */
  lemma {:induction false} MapPermutes<T, U>(xs: seq<T>, ys: seq<T>, f: T -> U)
    requires multiset(xs) == multiset(ys)
    ensures multiset(Map(xs, f)) == multiset(Map(ys, f))
  {
    if xs == [] {
      assert |multiset(ys)| == |ys|;
    } else {
      var j := RemoveCommon(xs, ys);
      MapPermutes(xs[..|xs| - 1], ys[..j] + ys[j + 1..], f);
      MapInsert(ys[..j], ys[j], ys[j + 1..], f);
    }
  }

  lemma {:induction false} DistinctCardinality<T>(xs: seq<T>)
    ensures |Elements(xs)| <= |xs|
    ensures Distinct(xs) <==> |Elements(xs)| == |xs|
  {
    if xs != [] {
      var t := xs[1..];
      DistinctCardinality(t);
      assert Elements(xs) == {xs[0]} + Elements(t);
      if xs[0] in t {
        assert Elements(xs) == Elements(t);
        var k :| 0 <= k < |t| && t[k] == xs[0];
        assert xs[k+1] == xs[0];
      } else {
        assert |Elements(xs)| == 1 + |Elements(t)|;
        if Distinct(t) {
          forall i, j | 0 <= i < j < |xs| ensures xs[i] != xs[j] {
            if i > 0 { assert t[i-1] != t[j-1]; } else { assert xs[j] == t[j-1]; }
          }
        }
        if Distinct(xs) {
          forall i, j | 0 <= i < j < |t| ensures t[i] != t[j] { assert xs[i+1] != xs[j+1]; }
        }
      }
    }
  }

  lemma SubsetSize<T>(a: set<T>, b: set<T>)
    requires a <= b
    ensures |a| <= |b|
  {
    assert b == a + (b - a);
    assert |b| == |a| + |b - a|;
  }

  // ----- strings

  /** Lexicographic order, as Python compares `str` values. */
  predicate StringLe(a: string, b: string) {
    if a == [] then true
    else if b == [] then false
    else if a[0] != b[0] then a[0] < b[0]
    else StringLe(a[1..], b[1..])
  }

  lemma {:induction false} StringLeTotal(a: string, b: string)
    ensures StringLe(a, b) || StringLe(b, a)
    ensures StringLe(a, b) && StringLe(b, a) ==> a == b
  {
    if a != [] && b != [] && a[0] == b[0] {
      StringLeTotal(a[1..], b[1..]);
      assert a == [a[0]] + a[1..] && b == [b[0]] + b[1..];
    }
  }

  lemma {:induction false} StringLeTransitive(a: string, b: string, c: string)
    requires StringLe(a, b) && StringLe(b, c)
    ensures StringLe(a, c)
  {
    if a != [] && b != [] && c != [] && a[0] == b[0] && b[0] == c[0] {
      StringLeTransitive(a[1..], b[1..], c[1..]);
    }
  }

  /** Strings are compared at the first place where they differ; a prefix comes before what it starts. */
  lemma {:induction false} StringLeExactly(a: string, b: string)
    ensures StringLe(a, b) <==> a <= b || exists k :: FirstSmaller(a, b, k)
  {
    if a != [] && b != [] && a[0] == b[0] {
      StringLeExactly(a[1..], b[1..]);
      SameHead(a, b);
    } else if a != [] && b != [] {
      assert a[0] < b[0] ==> FirstSmaller(a, b, 0);
    }
  }

  /** Behind an equal first character the comparison is that of the rest. */
  lemma SameHead(a: string, b: string)
    requires a != [] && b != [] && a[0] == b[0]
    ensures a <= b <==> a[1..] <= b[1..]
    ensures (exists k :: FirstSmaller(a, b, k)) <==> exists k :: FirstSmaller(a[1..], b[1..], k)
  {
    if a[1..] <= b[1..] { assert a == [a[0]] + a[1..] && b == [b[0]] + b[1..]; }
    if k :| FirstSmaller(a[1..], b[1..], k) { assert FirstSmaller(a, b, k + 1); }
    if k :| FirstSmaller(a, b, k) {
      assert a[1..][..k - 1] == a[..k][1..] && b[1..][..k - 1] == b[..k][1..];
      assert FirstSmaller(a[1..], b[1..], k - 1);
    }
  }

  predicate FirstSmaller(a: string, b: string, k: int) {
    0 <= k < |a| && k < |b| && a[..k] == b[..k] && a[k] < b[k]
  }

  lemma StringOrder()
    ensures TotalPreorder(StringLe)
    ensures forall a, b :: StringLe(a, b) && StringLe(b, a) ==> a == b
  {
    forall a, b ensures StringLe(a, b) || StringLe(b, a) { StringLeTotal(a, b); }
    forall a, b | StringLe(a, b) && StringLe(b, a) ensures a == b { StringLeTotal(a, b); }
    forall a, b, c | StringLe(a, b) && StringLe(b, c) ensures StringLe(a, c) { StringLeTransitive(a, b, c); }
  }
}
