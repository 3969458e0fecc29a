/** Measuring the abstention gate (scripts/eval_insufficient_context_gate.py) over labelled questions.

    Scores are exact numbers here. Whether a question asks for a policy-instance value is part of its row. */
module GateSweep {
  import opened Ordering
  import opened Outcomes

  datatype Row = Row(
    questionId: string,
    isUnanswerable: bool,
    topScore: real,
    nReturned: nat,
    asksInstanceValue: bool
  )

  /** `evaluate_gate`: nothing retrieved, a low top score, or an unverified instance value. */
  predicate Abstains(r: Row, low: real, high: real) {
    r.nReturned == 0 || r.topScore < low || (r.topScore < high && r.asksInstanceValue)
  }

  /** The rows with one label and one decision. */
  function Cell(isUnanswerable: bool, abstained: bool, low: real, high: real): Row -> bool {
    (r: Row) => r.isUnanswerable == isUnanswerable && Abstains(r, low, high) == abstained
  }

  datatype Confusion = Confusion(tp: nat, fp: nat, fn: nat, tn: nat, fpRows: seq<Row>, fnRows: seq<Row>)
  {
    function Recall(): real { if tp + fn == 0 then 0.0 else tp as real / (tp + fn) as real }
  }

  function ConfusionOf(rows: seq<Row>, low: real, high: real): Confusion {
    var fpRows, fnRows := Filter(rows, Cell(false, true, low, high)), Filter(rows, Cell(true, false, low, high));
    Confusion(|Filter(rows, Cell(true, true, low, high))|, |fpRows|, |fnRows|,
              |Filter(rows, Cell(false, false, low, high))|, fpRows, fnRows)
  }

  /** `confusion_at`. */
  method ConfusionAt(rows: seq<Row>, low: real, high: real) returns (c: Confusion)
    ensures c == ConfusionOf(rows, low, high)
  {
    c := Confusion(0, 0, 0, 0, [], []);
    for i := 0 to |rows|
      invariant c == ConfusionOf(rows[..i], low, high)
    {
      var row := rows[i];
      assert rows[..i + 1] == rows[..i] + [row];
      FilterSnoc(rows[..i], row, Cell(true, true, low, high));
      FilterSnoc(rows[..i], row, Cell(true, false, low, high));
      FilterSnoc(rows[..i], row, Cell(false, true, low, high));
      FilterSnoc(rows[..i], row, Cell(false, false, low, high));
      var abstained := Abstains(row, low, high);
      if row.isUnanswerable && abstained {
        c := c.(tp := c.tp + 1);
      } else if row.isUnanswerable && !abstained {
        c := c.(fn := c.fn + 1, fnRows := c.fnRows + [row]);
      } else if !row.isUnanswerable && abstained {
        c := c.(fp := c.fp + 1, fpRows := c.fpRows + [row]);
      } else {
        c := c.(tn := c.tn + 1);
      }
    }
    assert rows[..|rows|] == rows;
  }

  // ----- laws of the confusion counts

  function Unanswerable(): Row -> bool { (r: Row) => r.isUnanswerable }

  /** Every row is counted once, and the positive class is what the labels say. */
  lemma {:induction false} EveryRowCounted(rows: seq<Row>, low: real, high: real)
    ensures var c := ConfusionOf(rows, low, high);
      c.tp + c.fp + c.fn + c.tn == |rows| && c.tp + c.fn == |Filter(rows, Unanswerable())|
  {
    if rows != [] { EveryRowCounted(rows[1..], low, high); }
  }

  lemma {:induction false} FilterGrows<T>(xs: seq<T>, p: T -> bool, q: T -> bool)
    requires forall x :: x in xs && p(x) ==> q(x)
    ensures |Filter(xs, p)| <= |Filter(xs, q)|
  {
    if xs != [] { FilterGrows(xs[1..], p, q); }
  }

  /** Raising either threshold never loses an abstention, right or wrong. */
  lemma RaisingAbstainsMore(rows: seq<Row>, low: real, high: real, low': real, high': real)
    requires low <= low' && high <= high'
    ensures ConfusionOf(rows, low, high).tp <= ConfusionOf(rows, low', high').tp
    ensures ConfusionOf(rows, low, high).fp <= ConfusionOf(rows, low', high').fp
    ensures ConfusionOf(rows, low', high').fn <= ConfusionOf(rows, low, high).fn
  {
    FilterGrows(rows, Cell(true, true, low, high), Cell(true, true, low', high'));
    FilterGrows(rows, Cell(false, true, low, high), Cell(false, true, low', high'));
    FilterGrows(rows, Cell(true, false, low', high'), Cell(true, false, low, high));
  }

  ghost predicate NonNegative(rows: seq<Row>) {
    forall r :: r in rows ==> r.topScore >= 0.0
  }

  /** With the instance-value rule off, recall is 1 exactly for the floors above the score of
      every unanswerable question that retrieved something. */
  lemma FullRecallExactly(rows: seq<Row>, low: real)
    requires NonNegative(rows) && exists r :: r in rows && r.isUnanswerable
    ensures ConfusionOf(rows, low, 0.0).Recall() == 1.0 <==>
      forall r :: r in rows && r.isUnanswerable && r.nReturned > 0 ==> r.topScore < low
  {
    var c := ConfusionOf(rows, low, 0.0);
    FilterElements(rows, Cell(true, false, low, 0.0));
    FilterElements(rows, Unanswerable());
    EveryRowCounted(rows, low, 0.0);
    RatioIsOne(c.tp, c.fn);
    if c.fn == 0 {
      forall r | r in rows && r.isUnanswerable && r.nReturned > 0 ensures r.topScore < low {
        assert r !in Filter(rows, Cell(true, false, low, 0.0));
      }
    } else {
      FirstIn(c.fnRows);
    }
  }

  lemma RatioIsOne(a: nat, b: nat)
    requires a + b > 0
    ensures a as real / (a + b) as real == 1.0 <==> b == 0
  {
    var s := (a + b) as real;
    assert a as real == (a as real / s) * s;
  }

  // ----- the sweep

  /** Rounding to four decimals, half to even, as `round(x, 4)` does on exact numbers. */
  function Round4(x: real): real {
    var scaled := x * 10000.0;
    var below := scaled.Floor;
    var part := scaled - below as real;
    var n := if part < 0.5 || (part == 0.5 && below % 2 == 0) then below else below + 1;
    n as real / 10000.0
  }

  lemma Round4IsClose(x: real)
    ensures x - 0.00005 <= Round4(x) <= x + 0.00005
  {
  }

  function MaxScore(rows: seq<Row>): real
    requires rows != []
  {
    if |rows| == 1 then rows[0].topScore
    else
      var rest := MaxScore(rows[1..]);
      if rows[0].topScore < rest then rest else rows[0].topScore
  }

  lemma {:induction false} MaxScoreIsMax(rows: seq<Row>)
    requires rows != []
    ensures forall r :: r in rows ==> r.topScore <= MaxScore(rows)
    ensures exists r :: r in rows && r.topScore == MaxScore(rows)
  {
    if |rows| > 1 {
      MaxScoreIsMax(rows[1..]);
      assert rows == [rows[0]] + rows[1..];
    } else {
      assert rows[0] in rows;
    }
  }

  function RealLe(): (real, real) -> bool { (a: real, b: real) => a <= b }

  /** The added floor: just above the highest score of an unanswerable question. */
  function FullRecallPoint(rows: seq<Row>): real
    requires Filter(rows, Unanswerable()) != []
  {
    Round4(MaxScore(Filter(rows, Unanswerable())) + 0.001)
  }

  function GridPoint(i: nat): real { 0.3 + 0.025 * i as real }

  function ThresholdGrid(): seq<real> { seq(15, i requires 0 <= i => GridPoint(i)) }

  method ConfusionPerThreshold(rows: seq<Row>, thresholds: seq<real>) returns (sweep: seq<(real, Confusion)>)
    ensures |sweep| == |thresholds|
    ensures forall k :: 0 <= k < |sweep| ==> sweep[k] == (thresholds[k], ConfusionOf(rows, thresholds[k], 0.0))
  {
    sweep := [];
    for i := 0 to |thresholds|
      invariant |sweep| == i
      invariant forall k :: 0 <= k < i ==> sweep[k] == (thresholds[k], ConfusionOf(rows, thresholds[k], 0.0))
    {
      var c := ConfusionAt(rows, thresholds[i], 0.0);
      sweep := sweep + [(thresholds[i], c)];
    }
  }

  /** `pure_floor_sweep`; without an unanswerable row the maximum is an error. */
  method PureFloorSweep(rows: seq<Row>) returns (r: Result<seq<(real, Confusion)>, string>)
    ensures r.Err? <==> forall row :: row in rows ==> !row.isUnanswerable
    ensures r.Ok? ==> SweepsThresholds(rows, r.value)
  {
    FilterElements(rows, Unanswerable());
    FirstIn(Filter(rows, Unanswerable()));
    if Filter(rows, Unanswerable()) == [] {
      return Err("max() arg is an empty sequence");
    }
    var point := FullRecallPoint(rows);
    var grid := ThresholdGrid();
    var thresholds := SortBy(if point in grid then grid else grid + [point], RealLe());
    var sweep := ConfusionPerThreshold(rows, thresholds);
    SweepMeaning(rows, point, thresholds, sweep);
    r := Ok(sweep);
  }

  lemma GridIsDistinct()
    ensures Distinct(ThresholdGrid())
  {
  }

  lemma SweepMeaning(rows: seq<Row>, point: real, thresholds: seq<real>, sweep: seq<(real, Confusion)>)
    requires Filter(rows, Unanswerable()) != [] && point == FullRecallPoint(rows)
    requires thresholds ==
      SortBy(if point in ThresholdGrid() then ThresholdGrid() else ThresholdGrid() + [point], RealLe())
    requires |sweep| == |thresholds|
    requires forall k :: 0 <= k < |sweep| ==> sweep[k] == (thresholds[k], ConfusionOf(rows, thresholds[k], 0.0))
    ensures SweepsThresholds(rows, sweep)
  {
    GridIsDistinct();
    SortAscends(ThresholdGrid(), point);
    forall k | 0 <= k < |sweep| ensures sweep[k].0 in ThresholdGrid() || sweep[k].0 == point {
      assert thresholds[k] in thresholds;
    }
    forall x | x in thresholds ensures Reaches(sweep, x) {
      var k :| 0 <= k < |thresholds| && thresholds[k] == x;
      assert sweep[k].0 == x;
    }
  }

  ghost predicate Reaches(sweep: seq<(real, Confusion)>, x: real) {
    exists k :: 0 <= k < |sweep| && sweep[k].0 == x
  }

  ghost predicate SweepsThresholds(rows: seq<Row>, sweep: seq<(real, Confusion)>)
  {
    && (forall k :: 0 <= k < |sweep| ==> sweep[k].1 == ConfusionOf(rows, sweep[k].0, 0.0))
    && (forall i, j :: 0 <= i < j < |sweep| ==> sweep[i].0 < sweep[j].0)
    && Filter(rows, Unanswerable()) != []
    && (forall x :: x in ThresholdGrid() ==> Reaches(sweep, x))
    && Reaches(sweep, FullRecallPoint(rows))
    && (forall k :: 0 <= k < |sweep| ==> sweep[k].0 in ThresholdGrid() || sweep[k].0 == FullRecallPoint(rows))
  }

  lemma SortAscends(grid: seq<real>, point: real)
    requires Distinct(grid)
    ensures var sorted := SortBy(if point in grid then grid else grid + [point], RealLe());
      && (forall i, j :: 0 <= i < j < |sorted| ==> sorted[i] < sorted[j])
      && forall x :: x in sorted <==> x in grid || x == point
  {
    var all := if point in grid then grid else grid + [point];
    if point !in grid { DistinctSnoc(grid, point); }
    SortBySorts(all, RealLe());
    SortByDistinct(all, RealLe());
    SortByElements(all, RealLe());
    var sorted := SortBy(all, RealLe());
    forall i, j | 0 <= i < j < |sorted| ensures sorted[i] < sorted[j] { assert RealLe()(sorted[i], sorted[j]); }
  }

  /** Along the sweep, catches and false alarms only grow. */
  lemma SweepOnlyGrows(rows: seq<Row>, sweep: seq<(real, Confusion)>, i: nat, j: nat)
    requires SweepsThresholds(rows, sweep) && i < j < |sweep|
    ensures sweep[i].1.tp <= sweep[j].1.tp && sweep[i].1.fp <= sweep[j].1.fp
  {
    RaisingAbstainsMore(rows, sweep[i].0, 0.0, sweep[j].0, 0.0);
  }

  /** The added floor lies above every unanswerable score, by less than 0.0011. */
  lemma PointIsJustAbove(rows: seq<Row>)
    requires Filter(rows, Unanswerable()) != []
    ensures var top := MaxScore(Filter(rows, Unanswerable())); top < FullRecallPoint(rows) < top + 0.0011
    ensures forall r :: r in rows && r.isUnanswerable ==> r.topScore < FullRecallPoint(rows)
    ensures exists r :: r in rows && r.isUnanswerable
  {
    var unanswerable := Filter(rows, Unanswerable());
    FilterElements(rows, Unanswerable());
    FirstIn(unanswerable);
    MaxScoreIsMax(unanswerable);
    Round4IsClose(MaxScore(unanswerable) + 0.001);
  }

  /** So the sweep has an entry that misses no unanswerable question. */
  lemma SweepReachesFullRecall(rows: seq<Row>, sweep: seq<(real, Confusion)>)
    requires NonNegative(rows) && SweepsThresholds(rows, sweep)
    ensures exists k :: 0 <= k < |sweep| && sweep[k].0 == FullRecallPoint(rows) && sweep[k].1.Recall() == 1.0
  {
    var point := FullRecallPoint(rows);
    PointIsJustAbove(rows);
    FullRecallExactly(rows, point);
    var k :| 0 <= k < |sweep| && sweep[k].0 == point;
    assert sweep[k].1.Recall() == 1.0;
  }

  // ----- attribution at the operating point

  datatype Attribution = Attribution(byLowFloor: seq<Row>, byInstanceValue: seq<Row>, missed: seq<Row>)

  function ByLowFloor(low: real): Row -> bool {
    (r: Row) => r.isUnanswerable && (r.nReturned == 0 || r.topScore < low)
  }

  function ByInstanceValue(low: real, high: real): Row -> bool {
    (r: Row) => r.isUnanswerable && !ByLowFloor(low)(r) && r.topScore < high && r.asksInstanceValue
  }

  method OperatingPoint(rows: seq<Row>, low: real, high: real) returns (c: Confusion, a: Attribution)
    ensures c == ConfusionOf(rows, low, high)
    ensures a.byLowFloor == Filter(rows, ByLowFloor(low))
    ensures a.byInstanceValue == Filter(rows, ByInstanceValue(low, high))
    ensures a.missed == c.fnRows
    ensures |a.byLowFloor| + |a.byInstanceValue| == c.tp
  {
    c := ConfusionAt(rows, low, high);
    var caughtByLow: seq<Row>, caughtByInstanceValue: seq<Row>, missed: seq<Row> := [], [], [];
    for i := 0 to |rows|
      invariant Attributed(rows[..i], low, high, Attribution(caughtByLow, caughtByInstanceValue, missed))
    {
      var row := rows[i];
      assert rows[..i + 1] == rows[..i] + [row];
      AttributedNext(rows[..i], row, low, high, Attribution(caughtByLow, caughtByInstanceValue, missed));
      if row.isUnanswerable {
        if row.nReturned == 0 || row.topScore < low {
          caughtByLow := caughtByLow + [row];
        } else if row.topScore < high && row.asksInstanceValue {
          caughtByInstanceValue := caughtByInstanceValue + [row];
        } else {
          missed := missed + [row];
        }
      }
    }
    assert rows[..|rows|] == rows;
    a := Attribution(caughtByLow, caughtByInstanceValue, missed);
  }

  ghost predicate Attributed(rows: seq<Row>, low: real, high: real, a: Attribution) {
    && a.byLowFloor == Filter(rows, ByLowFloor(low))
    && a.byInstanceValue == Filter(rows, ByInstanceValue(low, high))
    && a.missed == Filter(rows, Cell(true, false, low, high))
    && |a.byLowFloor| + |a.byInstanceValue| == |Filter(rows, Cell(true, true, low, high))|
  }

  function AddIf(rows: seq<Row>, row: Row, add: bool): seq<Row> {
    if add then rows + [row] else rows
  }

  lemma AttributedNext(rows: seq<Row>, row: Row, low: real, high: real, a: Attribution)
    requires Attributed(rows, low, high, a)
    ensures Attributed(rows + [row], low, high, Attribution(
      AddIf(a.byLowFloor, row, ByLowFloor(low)(row)),
      AddIf(a.byInstanceValue, row, ByInstanceValue(low, high)(row)),
      AddIf(a.missed, row, Cell(true, false, low, high)(row))))
  {
    FilterSnoc(rows, row, ByLowFloor(low));
    FilterSnoc(rows, row, ByInstanceValue(low, high));
    FilterSnoc(rows, row, Cell(true, false, low, high));
    FilterSnoc(rows, row, Cell(true, true, low, high));
  }

  /** The rows determine the sweep. */
  lemma SweepUnique(rows: seq<Row>, a: seq<(real, Confusion)>, b: seq<(real, Confusion)>)
    requires SweepsThresholds(rows, a) && SweepsThresholds(rows, b)
    ensures a == b
  {
    SameThresholdList(rows, a, b);
    forall k | 0 <= k < |a| ensures |a| == |b| && a[k] == b[k] {
      assert |Thresholds(a)| == |Thresholds(b)| && Thresholds(a)[k] == Thresholds(b)[k];
    }
    if |a| == 0 { assert |Thresholds(b)| == 0; }
  }

  lemma SameThresholdList(rows: seq<Row>, a: seq<(real, Confusion)>, b: seq<(real, Confusion)>)
    requires SweepsThresholds(rows, a) && SweepsThresholds(rows, b)
    ensures Thresholds(a) == Thresholds(b)
  {
    var ta, tb := Thresholds(a), Thresholds(b);
    forall x ensures x in ta <==> x in tb {
      SameThresholds(rows, a, b, x);
      SameThresholds(rows, b, a, x);
    }
    ThresholdsAscend(rows, a);
    ThresholdsAscend(rows, b);
    SortedUnique(ta, tb, RealLe());
  }

  lemma ThresholdsAscend(rows: seq<Row>, sweep: seq<(real, Confusion)>)
    requires SweepsThresholds(rows, sweep)
    ensures SortedBy(Thresholds(sweep), RealLe()) && Distinct(Thresholds(sweep))
  {
  }

  function Thresholds(sweep: seq<(real, Confusion)>): seq<real> {
    seq(|sweep|, k requires 0 <= k < |sweep| => sweep[k].0)
  }

  lemma SameThresholds(rows: seq<Row>, a: seq<(real, Confusion)>, b: seq<(real, Confusion)>, x: real)
    requires SweepsThresholds(rows, a) && SweepsThresholds(rows, b)
    ensures x in Thresholds(a) ==> x in Thresholds(b)
  {
    if x in Thresholds(a) {
      var k :| 0 <= k < |a| && a[k].0 == x;
      assert Reaches(b, x);
      var j :| 0 <= j < |b| && b[j].0 == x;
      assert Thresholds(b)[j] == x;
    }
  }

  // ----- the counts in the fields of the rows

  /** The gate abstains on the row. */
  predicate Withheld(r: Row, low: real, high: real) {
    r.nReturned == 0 || r.topScore < low || (r.topScore < high && r.asksInstanceValue)
  }

  /** The four counts are those of the rows by label and abstention. */
  lemma CountsInFields(rows: seq<Row>, low: real, high: real)
    ensures var c := ConfusionOf(rows, low, high);
      && c.tp == |set i | 0 <= i < |rows| && rows[i].isUnanswerable && Withheld(rows[i], low, high)|
      && c.fp == |set i | 0 <= i < |rows| && !rows[i].isUnanswerable && Withheld(rows[i], low, high)|
      && c.fn == |set i | 0 <= i < |rows| && rows[i].isUnanswerable && !Withheld(rows[i], low, high)|
      && c.tn == |set i | 0 <= i < |rows| && !rows[i].isUnanswerable && !Withheld(rows[i], low, high)|
  {
    CellCount(rows, true, true, low, high);
    CellCount(rows, false, true, low, high);
    CellCount(rows, true, false, low, high);
    CellCount(rows, false, false, low, high);
    assert (set i | 0 <= i < |rows| && rows[i].isUnanswerable && Withheld(rows[i], low, high))
      == CellPlaces(rows, true, true, low, high);
    assert (set i | 0 <= i < |rows| && !rows[i].isUnanswerable && Withheld(rows[i], low, high))
      == CellPlaces(rows, false, true, low, high);
    assert (set i | 0 <= i < |rows| && rows[i].isUnanswerable && !Withheld(rows[i], low, high))
      == CellPlaces(rows, true, false, low, high);
    assert (set i | 0 <= i < |rows| && !rows[i].isUnanswerable && !Withheld(rows[i], low, high))
      == CellPlaces(rows, false, false, low, high);
  }

  function CellPlaces(rows: seq<Row>, unanswerable: bool, withheld: bool, low: real, high: real): set<int> {
    set i | 0 <= i < |rows| && rows[i].isUnanswerable == unanswerable && Withheld(rows[i], low, high) == withheld
  }

  lemma CellCount(rows: seq<Row>, unanswerable: bool, withheld: bool, low: real, high: real)
    ensures |Filter(rows, Cell(unanswerable, withheld, low, high))|
      == |CellPlaces(rows, unanswerable, withheld, low, high)|
  {
    FilterCount(rows, Cell(unanswerable, withheld, low, high));
    assert Places(rows, Cell(unanswerable, withheld, low, high))
      == CellPlaces(rows, unanswerable, withheld, low, high);
  }

  /** Recall times the unanswerable rows is the number caught; without such rows it is 0. */
  lemma RecallExactly(c: Confusion)
    ensures c.Recall() * (c.tp + c.fn) as real == c.tp as real
    ensures c.tp + c.fn == 0 ==> c.Recall() == 0.0
  {
  }

  /** The grid: 0.3 to 0.65 in fifteen steps of 0.025. */
  lemma GridExactly(i: nat)
    ensures |ThresholdGrid()| == 15
    ensures i < 15 ==> ThresholdGrid()[i] == 0.3 + 0.025 * i as real
  {
  }

  /** Rounding gives the multiple of 1/10000 that is nearest, the even one of two equally near. */
  lemma Round4Exactly(x: real, n: int)
    ensures Round4(x) == n as real / 10000.0 <==> NearestEven(x * 10000.0, n)
  {
    var scaled := x * 10000.0;
    var below := scaled.Floor;
    assert n <= below - 1 || n == below || n == below + 1 || n >= below + 2;
  }

  predicate NearestEven(x: real, n: int) {
    && x - 0.5 <= n as real <= x + 0.5
    && (n as real == x - 0.5 || n as real == x + 0.5 ==> n % 2 == 0)
  }
}
