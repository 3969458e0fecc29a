/** Topping up the second-review cross-document sample
    (scripts/review_sample_selection.py). */
module ReviewTopUp {
  import opened Ordering

  const HDI_DOCUMENT_ID := "12"

  datatype Question = Question(questionId: string, documentId: string, references: seq<string>)

  /** Clause id to bundle section; a clause outside any bundle has the empty section. */
  type Sections = map<string, string>

  /** `_has_bundle_section`: a reference to an unknown clause does not count. */
  predicate HasBundleSection(q: Question, sections: Sections) {
    exists c :: c in q.references && c in sections && sections[c] != ""
  }

  type Trap = Question -> bool

  function Hdi(): Trap {
    (q: Question) => q.documentId == HDI_DOCUMENT_ID
  }

  function Bundled(sections: Sections): Trap {
    (q: Question) => HasBundleSection(q, sections)
  }

  /** Some row shows the trap case. */
  predicate Shows(rows: seq<Question>, trap: Trap) {
    exists i :: 0 <= i < |rows| && trap(rows[i])
  }

  predicate FirstShows(rows: seq<Question>, trap: Trap) {
    rows != [] && trap(rows[0])
  }

  // ----- the loop

  /** The variables of `_ensure_cross_document_subsets`. */
  datatype Draw = Draw(chosen: seq<Question>, chosenIds: set<string>, swapIndex: int)
  {
    predicate Lacks(subset: seq<Question>) {
      subset != [] && forall q: Question :: q in subset ==> q.questionId !in chosenIds
    }

    function TopUp(subset: seq<Question>): Draw
      requires swapIndex < |chosen|
    {
      if !Lacks(subset) then this
      else if swapIndex < 0
        then Draw(chosen + [subset[0]], chosenIds + {subset[0].questionId}, swapIndex)
      else
        var kept := chosenIds - {chosen[swapIndex].questionId};
        Draw(chosen[swapIndex := subset[0]], kept + {subset[0].questionId}, swapIndex - 1)
    }
  }

  function Start(chosen: seq<Question>): Draw {
    Draw(chosen, set q: Question | q in chosen :: q.questionId, |chosen| - 1)
  }

  function ToppedUp(chosen: seq<Question>, pool: seq<Question>, sections: Sections): seq<Question> {
    var d := Start(chosen).TopUp(Filter(pool, Hdi()));
    d.TopUp(Filter(pool, Bundled(sections))).chosen
  }

  /** `_ensure_cross_document_subsets`. */
  method EnsureCrossDocumentSubsets(drawn: seq<Question>, pool: seq<Question>, sections: Sections)
    returns (chosen: seq<Question>)
    ensures chosen == ToppedUp(drawn, pool, sections)
  {
    chosen := drawn;
    var chosenIds := set row: Question | row in chosen :: row.questionId;
    var swapIndex := |chosen| - 1;
    var subsets := [Filter(pool, Hdi()), Filter(pool, Bundled(sections))];
    for i := 0 to 2
      invariant swapIndex < |chosen|
      invariant i == 0 ==> Draw(chosen, chosenIds, swapIndex) == Start(drawn)
      invariant i == 1 ==> Draw(chosen, chosenIds, swapIndex) == Start(drawn).TopUp(subsets[0])
      invariant i == 2 ==> chosen == Start(drawn).TopUp(subsets[0]).TopUp(subsets[1]).chosen
    {
      var subset := subsets[i];
      if subset != [] && !exists row: Question :: row in subset && row.questionId in chosenIds {
        var replacement := subset[0];
        if swapIndex < 0 {
          chosen := chosen + [replacement];
        } else {
          chosenIds := chosenIds - {chosen[swapIndex].questionId};
          chosen := chosen[swapIndex := replacement];
          swapIndex := swapIndex - 1;
        }
        chosenIds := chosenIds + {replacement.questionId};
      }
    }
  }

  // ----- what one step does

  ghost predicate UniqueIds(rows: seq<Question>) {
    forall q: Question, r: Question :: q in rows && r in rows && q.questionId == r.questionId ==> q == r
  }

  /** The sample holds rows of the pool, each once. */
  ghost predicate DrawnFrom(chosen: seq<Question>, pool: seq<Question>) {
    Distinct(chosen) && forall q :: q in chosen ==> q in pool
  }

  ghost predicate Good(d: Draw, pool: seq<Question>) {
    && DrawnFrom(d.chosen, pool)
    && -1 <= d.swapIndex < |d.chosen|
    && d.chosenIds == set q: Question | q in d.chosen :: q.questionId
  }

  lemma LacksMeaning(d: Draw, pool: seq<Question>, trap: Trap)
    requires UniqueIds(pool) && Good(d, pool)
    ensures d.Lacks(Filter(pool, trap)) <==> Shows(pool, trap) && !Shows(d.chosen, trap)
    ensures d.Lacks(Filter(pool, trap)) ==>
      var r := Filter(pool, trap)[0]; r in pool && trap(r) && r !in d.chosen && r.questionId !in d.chosenIds
  {
    var subset := Filter(pool, trap);
    FilterElements(pool, trap);
    FirstIn(subset);
    forall q | q in d.chosen && trap(q) ensures q in subset && q.questionId in d.chosenIds { }
    if Shows(pool, trap) {
      var i :| 0 <= i < |pool| && trap(pool[i]);
      assert pool[i] in subset;
    }
    if Shows(d.chosen, trap) {
      var i :| 0 <= i < |d.chosen| && trap(d.chosen[i]);
      assert d.chosen[i] in subset;
    }
  }

  lemma DistinctUpdate<T>(xs: seq<T>, i: nat, x: T)
    requires Distinct(xs) && i < |xs| && x !in xs
    ensures Distinct(xs[i := x])
    ensures forall y :: y in xs[i := x] <==> (y in xs && y != xs[i]) || y == x
  {
    forall y ensures y in xs[i := x] <==> (y in xs && y != xs[i]) || y == x {
      if y in xs && y != xs[i] {
        var j :| 0 <= j < |xs| && xs[j] == y;
        assert xs[i := x][j] == y;
      }
      assert xs[i := x][i] == x;
    }
  }

  lemma StepIsGood(d: Draw, pool: seq<Question>, trap: Trap)
    requires UniqueIds(pool) && Good(d, pool)
    ensures Good(d.TopUp(Filter(pool, trap)), pool)
  {
    LacksMeaning(d, pool, trap);
    if d.Lacks(Filter(pool, trap)) {
      var r := Filter(pool, trap)[0];
      var e := d.TopUp(Filter(pool, trap));
      if d.swapIndex < 0 {
        DistinctSnoc(d.chosen, r);
      } else {
        DistinctUpdate(d.chosen, d.swapIndex, r);
        var out := d.chosen[d.swapIndex];
        assert forall q :: q in d.chosen && q.questionId == out.questionId ==> q == out;
      }
      assert e.chosenIds == set q: Question | q in e.chosen :: q.questionId;
    }
  }

  /** A step leaves its trap case in the sample, and replaces at most the row at the swap index. */
  lemma StepShows(d: Draw, pool: seq<Question>, trap: Trap)
    requires UniqueIds(pool) && Good(d, pool)
    ensures Shows(d.TopUp(Filter(pool, trap)).chosen, trap) <==> Shows(pool, trap)
  {
    LacksMeaning(d, pool, trap);
    StepIsGood(d, pool, trap);
    var e := d.TopUp(Filter(pool, trap));
    if d.Lacks(Filter(pool, trap)) {
      var at := if d.swapIndex < 0 then |d.chosen| else d.swapIndex;
      assert trap(e.chosen[at]);
    }
    ShowsOfPool(e.chosen, pool, trap);
  }

  lemma ShowsOfPool(rows: seq<Question>, pool: seq<Question>, trap: Trap)
    requires forall q :: q in rows ==> q in pool
    ensures Shows(rows, trap) ==> Shows(pool, trap)
  {
    if Shows(rows, trap) {
      var i :| 0 <= i < |rows| && trap(rows[i]);
      assert rows[i] in rows && rows[i] in pool;
      var j :| 0 <= j < |pool| && pool[j] == rows[i];
      assert trap(pool[j]);
    }
  }

  lemma StartIsGood(chosen: seq<Question>, pool: seq<Question>)
    requires DrawnFrom(chosen, pool)
    ensures Good(Start(chosen), pool)
  {
  }

  // ----- the guarantees

  /** The topped-up sample still holds rows of the pool, each once, and it shows a bundle row
      whenever the pool has one. */
  lemma BundleIsGuaranteed(chosen: seq<Question>, pool: seq<Question>, sections: Sections)
    requires UniqueIds(pool) && DrawnFrom(chosen, pool)
    ensures DrawnFrom(ToppedUp(chosen, pool, sections), pool)
    ensures Shows(ToppedUp(chosen, pool, sections), Bundled(sections)) <==> Shows(pool, Bundled(sections))
  {
    var d := Start(chosen).TopUp(Filter(pool, Hdi()));
    StartIsGood(chosen, pool);
    StepIsGood(Start(chosen), pool, Hdi());
    StepIsGood(d, pool, Bundled(sections));
    StepShows(d, pool, Bundled(sections));
  }

  predicate Missing(chosen: seq<Question>, pool: seq<Question>, trap: Trap) {
    Shows(pool, trap) && !Shows(chosen, trap)
  }

  /** The size only changes when two replacements meet a sample of fewer than two rows. */
  lemma SizeAfterTopUp(chosen: seq<Question>, pool: seq<Question>, sections: Sections)
    requires UniqueIds(pool) && DrawnFrom(chosen, pool)
    ensures var withHdi := Start(chosen).TopUp(Filter(pool, Hdi())).chosen;
            var replaced := (if Missing(chosen, pool, Hdi()) then 1 else 0)
                            + (if Missing(withHdi, pool, Bundled(sections)) then 1 else 0);
      |ToppedUp(chosen, pool, sections)| == if |chosen| < replaced then replaced else |chosen|
  {
    var d := Start(chosen).TopUp(Filter(pool, Hdi()));
    StartIsGood(chosen, pool);
    LacksMeaning(Start(chosen), pool, Hdi());
    StepIsGood(Start(chosen), pool, Hdi());
    LacksMeaning(d, pool, Bundled(sections));
  }

  /** The docstring promises that only an empty sample grows; a sample of one row grows too,
      exactly when both cases are missing and the HDI row brought in is not a bundle row. */
  lemma GrowsExactlyWhen(chosen: seq<Question>, pool: seq<Question>, sections: Sections)
    requires UniqueIds(pool) && DrawnFrom(chosen, pool) && chosen != []
    ensures |ToppedUp(chosen, pool, sections)| > |chosen| <==>
      && |chosen| == 1
      && Missing(chosen, pool, Hdi())
      && Shows(pool, Bundled(sections))
      && !FirstShows(Filter(pool, Hdi()), Bundled(sections))
  {
    SizeAfterTopUp(chosen, pool, sections);
    StartIsGood(chosen, pool);
    LacksMeaning(Start(chosen), pool, Hdi());
    if |chosen| == 1 && Missing(chosen, pool, Hdi()) {
      var first := Filter(pool, Hdi())[0];
      assert Start(chosen).TopUp(Filter(pool, Hdi())).chosen == [first];
      ShowsOne(first, Bundled(sections));
    }
  }

  lemma ShowsOne(q: Question, trap: Trap)
    ensures Shows([q], trap) <==> trap(q)
  {
    if trap(q) { assert trap([q][0]); }
  }

  /** The trailing row carried the only HDI case and gives way to a bundle row of another document. */
  predicate HdiOverwritten(chosen: seq<Question>, pool: seq<Question>, sections: Sections) {
    && chosen != [] && Shows(chosen, Hdi()) && !Shows(chosen[..|chosen| - 1], Hdi())
    && Missing(chosen, pool, Bundled(sections))
    && !FirstShows(Filter(pool, Bundled(sections)), Hdi())
  }

  lemma HdiBroughtInStays(chosen: seq<Question>, pool: seq<Question>, sections: Sections)
    requires UniqueIds(pool) && DrawnFrom(chosen, pool) && Missing(chosen, pool, Hdi())
    ensures Shows(ToppedUp(chosen, pool, sections), Hdi())
  {
    var d := Start(chosen).TopUp(Filter(pool, Hdi()));
    StartIsGood(chosen, pool);
    LacksMeaning(Start(chosen), pool, Hdi());
    var at := if chosen == [] then 0 else |chosen| - 1;
    assert d.chosen[at] == Filter(pool, Hdi())[0] && d.swapIndex < at;
    assert ToppedUp(chosen, pool, sections)[at] == d.chosen[at];
    assert Hdi()(d.chosen[at]);
  }

  lemma TrailingSwap(chosen: seq<Question>, r: Question)
    requires chosen != []
    ensures Shows(chosen[|chosen| - 1 := r], Hdi()) <==> Shows(chosen[..|chosen| - 1], Hdi()) || Hdi()(r)
  {
    var swapped := chosen[|chosen| - 1 := r];
    assert swapped[|chosen| - 1] == r;
    if Shows(chosen[..|chosen| - 1], Hdi()) {
      var i :| 0 <= i < |chosen| - 1 && Hdi()(chosen[..|chosen| - 1][i]);
      assert swapped[i] == chosen[i];
    }
    if Shows(swapped, Hdi()) && !Hdi()(r) {
      var i :| 0 <= i < |swapped| && Hdi()(swapped[i]);
      assert chosen[..|chosen| - 1][i] == swapped[i];
    }
  }

  lemma OnlyBundleMissing(chosen: seq<Question>, pool: seq<Question>, sections: Sections)
    requires UniqueIds(pool) && DrawnFrom(chosen, pool) && Shows(chosen, Hdi())
    ensures Missing(chosen, pool, Bundled(sections)) ==> Filter(pool, Bundled(sections)) != []
    ensures ToppedUp(chosen, pool, sections) ==
      if Missing(chosen, pool, Bundled(sections))
      then chosen[|chosen| - 1 := Filter(pool, Bundled(sections))[0]]
      else chosen
  {
    StartIsGood(chosen, pool);
    LacksMeaning(Start(chosen), pool, Hdi());
    LacksMeaning(Start(chosen), pool, Bundled(sections));
  }

  lemma HdiUnlessOverwritten(chosen: seq<Question>, pool: seq<Question>, sections: Sections)
    requires UniqueIds(pool) && DrawnFrom(chosen, pool)
    requires Shows(pool, Hdi()) && Shows(chosen, Hdi())
    ensures Shows(ToppedUp(chosen, pool, sections), Hdi()) <==> !HdiOverwritten(chosen, pool, sections)
  {
    OnlyBundleMissing(chosen, pool, sections);
    if Missing(chosen, pool, Bundled(sections)) {
      TrailingSwap(chosen, Filter(pool, Bundled(sections))[0]);
    }
  }

  /** The guarantee for HDI rows is conditional, and this is its exact condition. */
  lemma HdiIsGuaranteedUnlessOverwritten(chosen: seq<Question>, pool: seq<Question>, sections: Sections)
    requires UniqueIds(pool) && DrawnFrom(chosen, pool)
    ensures Shows(ToppedUp(chosen, pool, sections), Hdi()) <==>
      Shows(pool, Hdi()) && !HdiOverwritten(chosen, pool, sections)
  {
    if Missing(chosen, pool, Hdi()) {
      HdiBroughtInStays(chosen, pool, sections);
    } else if Shows(pool, Hdi()) {
      HdiUnlessOverwritten(chosen, pool, sections);
    } else {
      BundleIsGuaranteed(chosen, pool, sections);
      ShowsOfPool(ToppedUp(chosen, pool, sections), pool, Hdi());
    }
  }

  /** Only the last two rows can ever be replaced. */
  lemma LeadingRowsStay(chosen: seq<Question>, pool: seq<Question>, sections: Sections, i: nat)
    requires i + 2 < |chosen|
    ensures |ToppedUp(chosen, pool, sections)| == |chosen| && ToppedUp(chosen, pool, sections)[i] == chosen[i]
  {
    var d := Start(chosen).TopUp(Filter(pool, Hdi()));
    assert d.swapIndex >= |chosen| - 2 && d.chosen[i] == chosen[i];
  }

  // ----- the two ways the docstring's promise fails

  lemma FilterOne<T>(x: T, xs: seq<T>, keep: T -> bool)
    ensures Filter([x] + xs, keep) == (if keep(x) then [x] else []) + Filter(xs, keep)
  {
    assert ([x] + xs)[1..] == xs;
  }

  /** A sample of one row grows to two. */
  lemma OneRowGrows()
    ensures var plain := Question("a", "1", []);
            var hdi := Question("b", "12", []);
            var bundle := Question("c", "10", ["k"]);
      |ToppedUp([plain], [plain, hdi, bundle], map["k" := "glass"])| == 2
  {
    var plain, hdi, bundle := Question("a", "1", []), Question("b", "12", []), Question("c", "10", ["k"]);
    var sections := map["k" := "glass"];
    assert Bundled(sections)(bundle) by { assert "k" in bundle.references; }
    GrowByBundle(plain, hdi, bundle, sections);
  }

  lemma GrowByBundle(plain: Question, hdi: Question, bundle: Question, sections: Sections)
    requires UniqueIds([plain, hdi, bundle])
    requires !Hdi()(plain) && Hdi()(hdi)
    requires Bundled(sections)(bundle) && !Bundled(sections)(hdi)
    ensures |ToppedUp([plain], [plain, hdi, bundle], sections)| == 2
  {
    var pool := [plain, hdi, bundle];
    assert pool == [plain] + ([hdi] + [bundle]);
    FilterOne(plain, [hdi] + [bundle], Hdi());
    FilterOne(hdi, [bundle], Hdi());
    assert Hdi()(pool[1]) && Bundled(sections)(pool[2]);
    assert Filter(pool, Hdi())[0] == hdi;
    GrowsExactlyWhen([plain], pool, sections);
    SizeAfterTopUp([plain], pool, sections);
  }

  /** The only HDI row of the sample is overwritten although the pool had both cases. */
  lemma HdiCanBeLost()
    ensures var plain := Question("a", "1", []);
            var hdi := Question("b", "12", []);
            var bundle := Question("c", "10", ["k"]);
            var pool := [plain, hdi, bundle];
      Shows(pool, Hdi()) && !Shows(ToppedUp([plain, hdi], pool, map["k" := "glass"]), Hdi())
  {
    var plain, hdi, bundle := Question("a", "1", []), Question("b", "12", []), Question("c", "10", ["k"]);
    var pool, sections := [plain, hdi, bundle], map["k" := "glass"];
    LastIsTheBundle(plain, hdi, bundle, sections);
    LoseHdi(plain, hdi, bundle, sections);
  }

  lemma LoseHdi(plain: Question, hdi: Question, bundle: Question, sections: Sections)
    requires UniqueIds([plain, hdi, bundle]) && Distinct([plain, hdi, bundle])
    requires !Hdi()(plain) && Hdi()(hdi) && !Hdi()(bundle)
    requires Bundled(sections)(bundle) && !Bundled(sections)(plain) && !Bundled(sections)(hdi)
    requires Filter([plain, hdi, bundle], Bundled(sections)) == [bundle]
    ensures Shows([plain, hdi, bundle], Hdi())
    ensures !Shows(ToppedUp([plain, hdi], [plain, hdi, bundle], sections), Hdi())
  {
    var pool := [plain, hdi, bundle];
    assert Hdi()(pool[1]) && Bundled(sections)(pool[2]);
    assert Hdi()([plain, hdi][1]);
    OnlyBundleMissing([plain, hdi], pool, sections);
    assert [plain, hdi][1 := bundle] == [plain, bundle];
  }

  lemma LastIsTheBundle(plain: Question, hdi: Question, bundle: Question, sections: Sections)
    requires plain.references == [] && hdi.references == []
    requires bundle.references == ["k"] && sections == map["k" := "glass"]
    ensures Bundled(sections)(bundle) && !Bundled(sections)(plain) && !Bundled(sections)(hdi)
    ensures Filter([plain, hdi, bundle], Bundled(sections)) == [bundle]
  {
    assert "k" in bundle.references;
    assert [plain, hdi, bundle] == [plain] + ([hdi] + [bundle]);
    FilterOne(plain, [hdi] + [bundle], Bundled(sections));
    FilterOne(hdi, [bundle], Bundled(sections));
    assert [bundle][1..] == [];
  }

  /** The two trap cases: a row of document 12, and a row that refers to a clause with a bundle
      section, the empty section not counting. */
  lemma TrapsInFields(rows: seq<Question>, sections: Sections)
    ensures Shows(rows, Hdi()) <==> exists q :: q in rows && q.documentId == "12"
    ensures Shows(rows, Bundled(sections)) <==>
      exists q, c :: q in rows && c in q.references && c in sections && |sections[c]| > 0
  {
    if q :| q in rows && q.documentId == "12" {
      var i :| 0 <= i < |rows| && rows[i] == q;
      assert Hdi()(rows[i]);
    }
    if q, c :| q in rows && c in q.references && c in sections && |sections[c]| > 0 {
      var i :| 0 <= i < |rows| && rows[i] == q;
      assert Bundled(sections)(rows[i]);
    }
  }
}
