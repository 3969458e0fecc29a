/** What histories of the golden set that start empty look like, and uniqueness of ids across its
    files (`main` in scripts/finalize_golden_set_from_review.py, `check_question_ids_unique` in
    scripts/validate_golden_set.py). */
module GoldenSetHistory {
  import opened Ordering
  import opened RowIds
  import opened GoldenSetFinalize

  // ----- files numbered from 1

  /** The file holds the ids 1..n of its type. */
  predicate Numbered1(files: Files, t: QuestionType) {
    NumberedIds(t, FileAt(files, t))
  }

  predicate NumberedIds(t: QuestionType, ids: seq<string>) {
    ids == IdRange(t, 1, |ids|)
  }

  ghost predicate AllNumbered(files: Files) {
    forall t :: Numbered1(files, t)
  }

  ghost predicate NoQuestions(s: Store) {
    forall t :: FileAt(s.files, t) == []
  }

  /** Every type the run reaches starts with at most 999 stored questions. */
  ghost predicate RunStartsSmall(s: Store, k: nat) {
    forall t :: FileStartsSmall(s, k, t)
  }

  ghost predicate FileStartsSmall(s: Store, k: nat, t: QuestionType) {
    Reaches(s.csv, k, t) ==> |FileAt(s.files, t)| <= 999
  }

  ghost predicate AlwaysSmall(s: Store, actions: seq<Action>) {
    actions == [] ||
    (var front, last := actions[..|actions| - 1], actions[|actions| - 1];
     AlwaysSmall(s, front) && (last.Execute? ==> RunStartsSmall(History(s, front), last.effects)))
  }

  /** A file numbered from 1 fits exactly when it holds at most 999 questions. */
  lemma SmallIsFit(s: Store, k: nat, t: QuestionType)
    requires Numbered1(s.files, t)
    ensures FileFits(s, k, t) <==> FileStartsSmall(s, k, t)
  {
    ReachedIsPending(s.csv, k, t);
    if Reaches(s.csv, k, t) {
      SmallIsFree(t, |FileAt(s.files, t)|, PendingCount(s.csv, t));
    }
  }

  lemma SmallIsFree(t: QuestionType, n: nat, count: nat)
    requires IsTypeName(t.name) && count > 0
    ensures LongIdsFree(t, IdRange(t, 1, n), count) <==> n <= 999
  {
    RangeDistinct(t, 1, n);
    NumberingLimit(t, n, count);
    AppendDistinctExactly(t, IdRange(t, 1, n), count);
  }

  function Extended(t: QuestionType, ids: seq<string>, count: nat): seq<string> {
    ids + IdRange(t, MaxSeq(t, ids) + 1, count)
  }

  /** What a run of the rows does to one file, in terms of the files alone. */
  ghost predicate Grows(files: Files, after: Files, rows: seq<Row>, k: nat, t: QuestionType) {
    var ids := FileAt(files, t);
    && (!Reaches(rows, k, t) ==> FileAt(after, t) == ids)
    && (Reaches(rows, k, t) ==>
          FileAt(after, t) == Extended(t, ids, PendingCount(rows, t)))
  }

  lemma NewIdsGrow(files: Files, after: Files, rows: seq<Row>, k: nat, t: QuestionType)
    requires !Reaches(rows, k, t) ==> FileAt(after, t) == FileAt(files, t)
    requires Reaches(rows, k, t) ==>
      FileAt(after, t) == FileAt(files, t) + NewIds(NumberingOf(files), t, PendingCount(rows, t))
    ensures Grows(files, after, rows, k, t)
  {
    NewIdsAreNext(files, rows, t);
  }

  lemma RunGrows(s: Store, k: nat, t: QuestionType)
    ensures Grows(s.files, RunTo(s, k).files, s.csv, k, t)
  {
    RunAppendsConsecutively(s, k, t);
    NewIdsGrow(s.files, RunTo(s, k).files, s.csv, k, t);
  }

  lemma GrowthKeepsNumbered(files: Files, after: Files, rows: seq<Row>, k: nat, t: QuestionType)
    requires Grows(files, after, rows, k, t) && Numbered1(files, t)
    requires Reaches(rows, k, t) ==> |FileAt(files, t)| <= 999
    ensures Numbered1(after, t)
  {
    ReachedIsPending(rows, k, t);
    if Reaches(rows, k, t) { ExtendNumbered(t, FileAt(files, t), PendingCount(rows, t)); }
  }

  lemma ExtendNumbered(t: QuestionType, ids: seq<string>, count: nat)
    requires IsTypeName(t.name) && NumberedIds(t, ids) && |ids| <= 999
    ensures NumberedIds(t, Extended(t, ids, count))
  {
    var n := |ids|;
    MaxSeqOfRange(t, n);
    RangeJoin(t, n, count);
    RangeAt(t, 1, n + count);
  }

  lemma {:induction false} HistoryIsNumbered(s: Store, actions: seq<Action>)
    requires NoQuestions(s)
    ensures AlwaysSmall(s, actions) <==> AlwaysFits(s, actions)
    ensures AlwaysSmall(s, actions) ==> AllNumbered(History(s, actions).files)
  {
    if actions == [] {
      forall t ensures Numbered1(s.files, t) { assert FileAt(s.files, t) == []; }
    } else {
      var front, last := actions[..|actions| - 1], actions[|actions| - 1];
      HistoryIsNumbered(s, front);
      if AlwaysSmall(s, front) { ActKeepsNumbered(History(s, front), last); }
    }
  }

  lemma ActKeepsNumbered(s: Store, a: Action)
    requires AllNumbered(s.files)
    ensures a.Execute? ==> (RunFits(s, a.effects) <==> RunStartsSmall(s, a.effects))
    ensures a.Edit? || RunStartsSmall(s, a.effects) ==> AllNumbered(Act(s, a).files)
  {
    match a
    case Edit(rows) =>
    case Execute(effects) =>
      forall t ensures FileFits(s, effects, t) <==> FileStartsSmall(s, effects, t) {
        assert Numbered1(s.files, t);
        SmallIsFit(s, effects, t);
      }
      if RunStartsSmall(s, effects) {
        forall t ensures Numbered1(RunTo(s, effects).files, t) {
          assert Numbered1(s.files, t) && FileStartsSmall(s, effects, t);
          RunGrows(s, effects, t);
          GrowthKeepsNumbered(s.files, RunTo(s, effects).files, s.csv, effects, t);
        }
      }
  }

  /** From an empty golden set: over any history the ids of every file stay pairwise distinct if
      and only if every run starts with at most 999 questions of each type it reaches. */
  lemma DistinctFromEmptyExactly(s: Store, actions: seq<Action>)
    requires NoQuestions(s)
    ensures AlwaysDistinct(s, actions) <==> AlwaysSmall(s, actions)
  {
    forall t ensures Distinct(FileAt(s.files, t)) { assert FileAt(s.files, t) == []; }
    IdsStayDistinct(s, actions);
    HistoryIsNumbered(s, actions);
  }

  // ----- uniqueness across files

  /** Every stored id is of its file's type. */
  ghost predicate OwnIds(files: Files) {
    forall t :: FileOwnsIds(files, t)
  }

  ghost predicate FileOwnsIds(files: Files, t: QuestionType) {
    OwnedBy(FileAt(files, t), t)
  }

  ghost predicate OwnedBy(ids: seq<string>, t: QuestionType) {
    forall i :: 0 <= i < |ids| ==> IsOf(ids[i], t)
  }

  predicate IsOf(id: string, t: QuestionType) {
    Parse(id).Some? && Parse(id).value.0 == t.name
  }

  lemma RangeIsOwned(t: QuestionType, from: nat, count: nat)
    ensures OwnedBy(IdRange(t, from, count), t)
  {
    forall n: nat ensures IsOf(Writer(t, ThreeDigits())(n), t) { ParseRender(t.name, n, 3); }
    TableIsOwned(t, Writer(t, ThreeDigits()), from, count);
  }

  lemma {:induction false} TableIsOwned(t: QuestionType, make: nat -> string, from: nat, count: nat)
    requires forall n: nat :: IsOf(make(n), t)
    ensures OwnedBy(Tabulate(make, from, count), t)
  {
    if count > 0 { TableIsOwned(t, make, from, count - 1); }
  }

  lemma OwnedGrown(ids: seq<string>, t: QuestionType, from: nat, count: nat)
    requires OwnedBy(ids, t)
    ensures OwnedBy(ids + IdRange(t, from, count), t)
  {
    RangeIsOwned(t, from, count);
  }

  lemma GrowthKeepsOwn(files: Files, after: Files, rows: seq<Row>, k: nat, t: QuestionType)
    requires Grows(files, after, rows, k, t) && FileOwnsIds(files, t)
    ensures FileOwnsIds(after, t)
  {
    var ids := FileAt(files, t);
    if Reaches(rows, k, t) { OwnedGrown(ids, t, MaxSeq(t, ids) + 1, PendingCount(rows, t)); }
  }

  lemma {:induction false} HistoryKeepsOwn(s: Store, actions: seq<Action>)
    requires OwnIds(s.files)
    ensures OwnIds(History(s, actions).files)
  {
    if actions != [] {
      var front := actions[..|actions| - 1];
      HistoryKeepsOwn(s, front);
      ActKeepsOwn(History(s, front), actions[|actions| - 1]);
    }
  }

  lemma ActKeepsOwn(s: Store, a: Action)
    requires OwnIds(s.files)
    ensures OwnIds(Act(s, a).files)
  {
    match a
    case Edit(rows) =>
    case Execute(effects) =>
      forall t ensures FileOwnsIds(RunTo(s, effects).files, t) {
        assert FileOwnsIds(s.files, t);
        RunGrows(s, effects, t);
        GrowthKeepsOwn(s.files, RunTo(s, effects).files, s.csv, effects, t);
      }
  }

  /** No id stands at two places of the golden set, in one file or in two. */
  ghost predicate UniqueAcrossFiles(files: Files) {
    forall t, i, u, j ::
      StoredAt(files, t, i) && StoredAt(files, u, j) && FileAt(files, t)[i] == FileAt(files, u)[j] ==>
        t == u && i == j
  }

  predicate StoredAt(files: Files, t: QuestionType, i: int) {
    0 <= i < |FileAt(files, t)|
  }

  lemma OwnAndDistinctIsUnique(s: Store)
    requires OwnIds(s.files)
    ensures UniqueAcrossFiles(s.files) <==> DistinctFiles(s)
  {
    if DistinctFiles(s) {
      forall t, i, u, j |
        StoredAt(s.files, t, i) && StoredAt(s.files, u, j) && FileAt(s.files, t)[i] == FileAt(s.files, u)[j]
        ensures t == u && i == j
      {
        assert FileOwnsIds(s.files, t) && FileOwnsIds(s.files, u);
        assert IsOf(FileAt(s.files, t)[i], t) && IsOf(FileAt(s.files, u)[j], u);
        assert Distinct(FileAt(s.files, t));
      }
    }
    if UniqueAcrossFiles(s.files) {
      forall t ensures Distinct(FileAt(s.files, t)) {
        forall i, j | 0 <= i < j < |FileAt(s.files, t)| ensures FileAt(s.files, t)[i] != FileAt(s.files, t)[j] {
          assert StoredAt(s.files, t, i) && StoredAt(s.files, t, j);
        }
      }
    }
  }

  ghost predicate AlwaysUnique(s: Store, actions: seq<Action>) {
    UniqueAcrossFiles(History(s, actions).files) && (actions == [] || AlwaysUnique(s, actions[..|actions| - 1]))
  }

  /** Over any history, the golden set passes the uniqueness check at every point if and only if
      every run fits. */
  lemma UniqueAcrossFilesExactly(s: Store, actions: seq<Action>)
    requires OwnIds(s.files) && DistinctFiles(s)
    ensures AlwaysUnique(s, actions) <==> AlwaysFits(s, actions)
  {
    UniqueIsDistinct(s, actions);
    IdsStayDistinct(s, actions);
  }

  /** From an empty golden set: if and only if no run reaches a type with 1000 questions or more. */
  lemma UniqueFromEmptyExactly(s: Store, actions: seq<Action>)
    requires NoQuestions(s)
    ensures AlwaysUnique(s, actions) <==> AlwaysSmall(s, actions)
  {
    forall t ensures FileOwnsIds(s.files, t) { assert FileAt(s.files, t) == []; }
    UniqueIsDistinct(s, actions);
    DistinctFromEmptyExactly(s, actions);
  }

  lemma {:induction false} UniqueIsDistinct(s: Store, actions: seq<Action>)
    requires OwnIds(s.files)
    ensures AlwaysUnique(s, actions) <==> AlwaysDistinct(s, actions)
  {
    HistoryKeepsOwn(s, actions);
    OwnAndDistinctIsUnique(History(s, actions));
    if actions != [] { UniqueIsDistinct(s, actions[..|actions| - 1]); }
  }
}
