/** Promoting approved draft rows into the golden set
    (scripts/finalize_golden_set_from_review.py).

    The schema's answer for a row is the field `wellFormed`. The schema only knows
    question types made of lower-case letters and underscores, which is spelled out
    because the numbering depends on it. */
module GoldenSetFinalize {
  import opened Ordering
  import opened Outcomes
  import opened RowIds

  /** A question type, which is also the stem of its file's name. */
  datatype QuestionType = QuestionType(name: string)

  /** `finalizedId` is empty until the row has been finalized. */
  datatype Row = Row(rowId: string, approved: bool, finalizedId: string, questionType: QuestionType, wellFormed: bool)
  {
    predicate IsPending() { approved && finalizedId == "" }

    predicate IsPendingOf(t: QuestionType) { IsPending() && questionType == t }

    predicate IsValid() { wellFormed && IsTypeName(questionType.name) }
  }

  type Files = map<QuestionType, seq<string>>

  function FileAt(files: Files, t: QuestionType): seq<string> {
    if t in files then files[t] else []
  }

  /** The file of type t gains ids at its end. */
  function Appended(files: Files, t: QuestionType, ids: seq<string>): Files {
    files[t := FileAt(files, t) + ids]
  }

  lemma AppendedAt(files: Files, t: QuestionType, ids: seq<string>, u: QuestionType)
    ensures u == t ==> FileAt(Appended(files, t, ids), u) == FileAt(files, t) + ids
    ensures u != t ==> FileAt(Appended(files, t, ids), u) == FileAt(files, u)
  {
  }

  // ----- reading sequence numbers

  predicate IsTypeChar(c: char) { 'a' <= c <= 'z' || c == '_' }

  predicate IsTypeName(name: string) {
    name != "" && forall i :: 0 <= i < |name| ==> IsTypeChar(name[i])
  }

  /** The number of an id that the pattern <type>-<three digits> recognises for this file. */
  function Recognise(name: string, id: string): Option<nat> {
    if && IsTypeName(name) && |id| == |name| + 4
       && id[..|name|] == name && id[|name|] == '-' && AllDigits(id[|name| + 1..])
    then Some(ReadNat(id[|name| + 1..])) else None
  }

  function Highest(read: string -> Option<nat>, ids: seq<string>): nat {
    if ids == [] then 0
    else match read(ids[|ids| - 1])
      case None => Highest(read, ids[..|ids| - 1])
      case Some(n) => Max(Highest(read, ids[..|ids| - 1]), n)
  }

  function Reader(t: QuestionType): string -> Option<nat> {
    (id: string) => Recognise(t.name, id)
  }

  function MaxSeq(t: QuestionType, ids: seq<string>): nat {
    Highest(Reader(t), ids)
  }

  /** The next unused number of every stored type; a type without a file starts at 1. */
  function NextNumbers(files: Files): map<QuestionType, nat> {
    map t | t in files :: MaxSeq(t, files[t]) + 1
  }

  function NumberAt(next: map<QuestionType, nat>, t: QuestionType): nat {
    if t in next then next[t] else 1
  }

  /** Where the numbers of a run start and how an id is written. */
  datatype Numbering = Numbering(next: map<QuestionType, nat>, format: (string, nat) -> string)
  {
    function At(t: QuestionType): nat { NumberAt(next, t) }

    function IdOf(t: QuestionType, n: nat): string { format(t.name, n) }
  }

  function ThreeDigits(): (string, nat) -> string {
    (name: string, n: nat) => Render(name, n, 3)
  }

  function NumberingOf(files: Files): Numbering {
    Numbering(NextNumbers(files), ThreeDigits())
  }

  method NextSequenceNumbers(files: Files) returns (nextSeq: map<QuestionType, nat>)
    ensures nextSeq == NextNumbers(files)
  {
    nextSeq := map[];
    var todo := files.Keys;
    while todo != {}
      invariant todo <= files.Keys && nextSeq.Keys == files.Keys - todo
      invariant forall t :: t in nextSeq ==> nextSeq[t] == MaxSeq(t, files[t]) + 1
      decreases todo
    {
      var t :| t in todo;
      todo := todo - {t};
      var maxSeq: nat := HighestSequence(t, files[t]);
      nextSeq := nextSeq[t := maxSeq + 1];
    }
  }

  lemma NextIsAboveFile(files: Files, t: QuestionType)
    ensures NumberAt(NextNumbers(files), t) == MaxSeq(t, FileAt(files, t)) + 1
  {
  }

  method HighestSequence(t: QuestionType, ids: seq<string>) returns (maxSeq: nat)
    ensures maxSeq == MaxSeq(t, ids)
  {
    maxSeq := 0;
    for i := 0 to |ids|
      invariant maxSeq == MaxSeq(t, ids[..i])
    {
      assert ids[..i + 1][..i] == ids[..i];
      var found := Recognise(t.name, ids[i]);
      if found.Some? {
        maxSeq := Max(maxSeq, found.value);
      }
    }
    assert ids[..|ids|] == ids;
  }

  // ----- what a run assigns

  function PendingCount(rows: seq<Row>, t: QuestionType): nat {
    if rows == [] then 0
    else PendingCount(rows[..|rows| - 1], t) + (if rows[|rows| - 1].IsPendingOf(t) then 1 else 0)
  }

  function Tabulate(make: nat -> string, from: nat, count: nat): seq<string> {
    if count == 0 then [] else Tabulate(make, from, count - 1) + [make(from + count - 1)]
  }

  function Writer(t: QuestionType, format: (string, nat) -> string): nat -> string {
    (n: nat) => format(t.name, n)
  }

  /** `count` consecutive ids of one type. */
  function IdRange(t: QuestionType, from: nat, count: nat): seq<string> {
    Tabulate(Writer(t, ThreeDigits()), from, count)
  }

  /** The ids a run gives to `count` pending rows of one type. */
  function NewIds(next: Numbering, t: QuestionType, count: nat): seq<string> {
    Tabulate(Writer(t, next.format), next.At(t), count)
  }

  /** The rows with the id each pending one receives: its type's next number, counting the
      pending rows above it. */
  function Finalized(rows: seq<Row>, next: Numbering): seq<Row> {
    if rows == [] then []
    else Finalized(rows[..|rows| - 1], next) + [FinalizedRow(rows[..|rows| - 1], next, rows[|rows| - 1])]
  }

  function FinalizedRow(above: seq<Row>, next: Numbering, row: Row): Row {
    if row.IsPending()
    then
      var number := next.At(row.questionType) + PendingCount(above, row.questionType);
      row.(finalizedId := next.IdOf(row.questionType, number))
    else row
  }

  /** Types of the pending rows, in order of first appearance. */
  function NewTypes(rows: seq<Row>): seq<QuestionType> {
    if rows == [] then []
    else if rows[|rows| - 1].IsPending() && rows[|rows| - 1].questionType !in NewTypes(rows[..|rows| - 1])
      then NewTypes(rows[..|rows| - 1]) + [rows[|rows| - 1].questionType]
    else NewTypes(rows[..|rows| - 1])
  }

  ghost predicate AllValid(rows: seq<Row>) {
    forall row :: row in rows && row.IsPending() ==> row.IsValid()
  }

  /** The ids a run gives out, by type. */
  function NewIdsByType(next: Numbering, rows: seq<Row>): Files {
    map t | t in NewTypes(rows) :: NewIds(next, t, PendingCount(rows, t))
  }

  method FinalizeRows(rows: seq<Row>, files: Files)
    returns (r: Result<seq<Row>, string>, types: seq<QuestionType>, newIds: map<QuestionType, seq<string>>)
    ensures r.Ok? <==> AllValid(rows)
    ensures r.Err? ==> exists row :: row in rows && row.IsPending() && !row.IsValid() && row.rowId == r.error
    ensures r.Ok? ==> r.value == Finalized(rows, NumberingOf(files))
    ensures r.Ok? ==> types == NewTypes(rows) && newIds == NewIdsByType(NumberingOf(files), rows)
  {
    var nextSeq := NextSequenceNumbers(files);
    r, types, newIds := AssignIds(rows, Numbering(nextSeq, ThreeDigits()));
  }

  /** The loop of `finalize_rows`, with the counters as they were at the start. */
  method AssignIds(rows: seq<Row>, first: Numbering)
    returns (r: Result<seq<Row>, string>, types: seq<QuestionType>, newIds: map<QuestionType, seq<string>>)
    ensures r.Ok? <==> AllValid(rows)
    ensures r.Err? ==> exists row :: row in rows && row.IsPending() && !row.IsValid() && row.rowId == r.error
    ensures r.Ok? ==> r.value == Finalized(rows, first)
    ensures r.Ok? ==> types == NewTypes(rows) && newIds == NewIdsByType(first, rows)
  {
    var nextSeq := first.next;
    var done: seq<Row> := [];
    types, newIds := [], map[];
    ghost var seen: seq<Row> := [];
    for i := 0 to |rows|
      invariant seen == rows[..i]
      invariant Assigned(seen, first, nextSeq, types, newIds, done)
    {
      var row := rows[i];
      if !row.IsPending() {
        AssignedSame(seen, first, nextSeq, types, newIds, done, row);
        done := done + [row];
      } else {
        var t := row.questionType;
        var seqNumber := NumberAt(nextSeq, t);
        var id := first.IdOf(t, seqNumber);
        if !row.IsValid() {
          r := Err(row.rowId);
          return;
        }
        AssignedNext(seen, first, nextSeq, types, newIds, done, row);
        nextSeq := nextSeq[t := seqNumber + 1];
        if t !in newIds {
          types := types + [t];
        }
        newIds := Appended(newIds, t, [id]);
        done := done + [row.(finalizedId := id)];
      }
      seen := seen + [row];
    }
    assert seen == rows;
    AssignedIds(rows, first, nextSeq, types, newIds);
    r := Ok(done);
  }

  lemma FinalizedPending(rows: seq<Row>, next: Numbering, row: Row)
    requires row.IsPending()
    ensures var id := next.IdOf(row.questionType, next.At(row.questionType) + PendingCount(rows, row.questionType));
      Finalized(rows + [row], next) == Finalized(rows, next) + [row.(finalizedId := id)]
  {
    assert (rows + [row])[..|rows|] == rows;
  }

  lemma FinalizedSame(rows: seq<Row>, next: Numbering, row: Row)
    requires !row.IsPending()
    ensures Finalized(rows + [row], next) == Finalized(rows, next) + [row]
  {
    assert (rows + [row])[..|rows|] == rows;
  }

  lemma ValidNext(rows: seq<Row>, row: Row)
    ensures AllValid(rows + [row]) <==> AllValid(rows) && (row.IsPending() ==> row.IsValid())
  {
    if AllValid(rows + [row]) {
      assert forall other :: other in rows ==> other in rows + [row];
      assert row in rows + [row];
    }
  }

  lemma PendingNext(rows: seq<Row>, row: Row, t: QuestionType)
    ensures PendingCount(rows + [row], t) == PendingCount(rows, t) + (if row.IsPendingOf(t) then 1 else 0)
  {
    assert (rows + [row])[..|rows|] == rows;
  }

  lemma NewTypesNext(rows: seq<Row>, row: Row)
    ensures NewTypes(rows + [row]) ==
      if row.IsPending() && row.questionType !in NewTypes(rows)
      then NewTypes(rows) + [row.questionType]
      else NewTypes(rows)
  {
    assert (rows + [row])[..|rows|] == rows;
  }

  ghost predicate CountersFollow(rows: seq<Row>, first: Numbering, nextSeq: map<QuestionType, nat>) {
    forall t :: CounterFollows(rows, first, nextSeq, t)
  }

  predicate CounterFollows(rows: seq<Row>, first: Numbering, nextSeq: map<QuestionType, nat>, t: QuestionType) {
    NumberAt(nextSeq, t) == first.At(t) + PendingCount(rows, t)
  }

  ghost predicate IdsFollow(rows: seq<Row>, first: Numbering, newIds: map<QuestionType, seq<string>>) {
    forall t :: IdListFollows(rows, first, newIds, t)
  }

  predicate IdListFollows(rows: seq<Row>, first: Numbering, newIds: map<QuestionType, seq<string>>, t: QuestionType) {
    FileAt(newIds, t) == NewIds(first, t, PendingCount(rows, t))
  }

  /** What the loop of `AssignIds` holds after the rows seen so far. */
  ghost predicate Assigned(rows: seq<Row>, first: Numbering, nextSeq: map<QuestionType, nat>,
                           types: seq<QuestionType>, newIds: map<QuestionType, seq<string>>, done: seq<Row>) {
    && AllValid(rows) && done == Finalized(rows, first)
    && Filed(rows, first, nextSeq, types, newIds)
  }

  /** The counters and lists among it. */
  ghost predicate Filed(rows: seq<Row>, first: Numbering, nextSeq: map<QuestionType, nat>,
                        types: seq<QuestionType>, newIds: map<QuestionType, seq<string>>) {
    && types == NewTypes(rows) && newIds.Keys == Elements(types)
    && CountersFollow(rows, first, nextSeq)
    && IdsFollow(rows, first, newIds)
  }

  lemma AssignedIds(rows: seq<Row>, first: Numbering, nextSeq: map<QuestionType, nat>,
                    types: seq<QuestionType>, newIds: map<QuestionType, seq<string>>)
    requires Filed(rows, first, nextSeq, types, newIds)
    ensures types == NewTypes(rows) && newIds == NewIdsByType(first, rows)
  {
    forall t | t in newIds ensures newIds[t] == NewIds(first, t, PendingCount(rows, t)) {
      assert IdListFollows(rows, first, newIds, t);
    }
    assert newIds.Keys == NewIdsByType(first, rows).Keys;
  }

  lemma AssignedSame(rows: seq<Row>, first: Numbering, nextSeq: map<QuestionType, nat>,
                     types: seq<QuestionType>, newIds: map<QuestionType, seq<string>>, done: seq<Row>, row: Row)
    requires Assigned(rows, first, nextSeq, types, newIds, done) && !row.IsPending()
    ensures Assigned(rows + [row], first, nextSeq, types, newIds, done + [row])
  {
    ValidNext(rows, row);
    FinalizedSame(rows, first, row);
    FiledSame(rows, first, nextSeq, types, newIds, row);
  }

  lemma FiledSame(rows: seq<Row>, first: Numbering, nextSeq: map<QuestionType, nat>,
                  types: seq<QuestionType>, newIds: map<QuestionType, seq<string>>, row: Row)
    requires Filed(rows, first, nextSeq, types, newIds) && !row.IsPending()
    ensures Filed(rows + [row], first, nextSeq, types, newIds)
  {
    NewTypesNext(rows, row);
    forall t ensures CounterFollows(rows + [row], first, nextSeq, t) && IdListFollows(rows + [row], first, newIds, t) {
      PendingNext(rows, row, t);
      assert CounterFollows(rows, first, nextSeq, t) && IdListFollows(rows, first, newIds, t);
    }
  }

  lemma AssignedNext(rows: seq<Row>, first: Numbering, nextSeq: map<QuestionType, nat>,
                     types: seq<QuestionType>, newIds: map<QuestionType, seq<string>>, done: seq<Row>, row: Row)
    requires Assigned(rows, first, nextSeq, types, newIds, done) && row.IsPending() && row.IsValid()
    ensures var t := row.questionType;
            var n := NumberAt(nextSeq, t);
            var id := first.IdOf(t, n);
      Assigned(rows + [row], first, nextSeq[t := n + 1],
               if t in newIds then types else types + [t],
               Appended(newIds, t, [id]), done + [row.(finalizedId := id)])
  {
    ValidNext(rows, row);
    FinalizedPending(rows, first, row);
    assert CounterFollows(rows, first, nextSeq, row.questionType);
    FiledNext(rows, first, nextSeq, types, newIds, row);
  }

  lemma FiledNext(rows: seq<Row>, first: Numbering, nextSeq: map<QuestionType, nat>,
                  types: seq<QuestionType>, newIds: map<QuestionType, seq<string>>, row: Row)
    requires Filed(rows, first, nextSeq, types, newIds) && row.IsPending()
    ensures var t := row.questionType;
            var n := first.At(t) + PendingCount(rows, t);
      Filed(rows + [row], first, nextSeq[t := n + 1],
            if t in newIds then types else types + [t],
            Appended(newIds, t, [first.IdOf(t, n)]))
  {
    NewTypesNext(rows, row);
    CountersNext(rows, first, nextSeq, row);
    IdsNext(rows, first, newIds, row);
  }

  lemma CountersNext(rows: seq<Row>, first: Numbering, nextSeq: map<QuestionType, nat>, row: Row)
    requires CountersFollow(rows, first, nextSeq) && row.IsPending()
    ensures var t := row.questionType;
      CountersFollow(rows + [row], first, nextSeq[t := first.At(t) + PendingCount(rows, t) + 1])
  {
    var t := row.questionType;
    var next := nextSeq[t := first.At(t) + PendingCount(rows, t) + 1];
    forall u ensures CounterFollows(rows + [row], first, next, u) {
      PendingNext(rows, row, u);
      assert CounterFollows(rows, first, nextSeq, u);
    }
  }

  lemma IdsNext(rows: seq<Row>, first: Numbering, newIds: map<QuestionType, seq<string>>, row: Row)
    requires IdsFollow(rows, first, newIds) && row.IsPending()
    ensures var t := row.questionType;
            var id := first.IdOf(t, first.At(t) + PendingCount(rows, t));
      IdsFollow(rows + [row], first, Appended(newIds, t, [id]))
  {
    var t := row.questionType;
    var id := first.IdOf(t, first.At(t) + PendingCount(rows, t));
    forall u ensures IdListFollows(rows + [row], first, Appended(newIds, t, [id]), u) {
      PendingNext(rows, row, u);
      NewIdsSnoc(first, u, PendingCount(rows, u));
      AppendedAt(newIds, t, [id], u);
      assert IdListFollows(rows, first, newIds, u);
    }
  }

  lemma NewIdsSnoc(next: Numbering, t: QuestionType, count: nat)
    ensures NewIds(next, t, count + 1) == NewIds(next, t, count) + [next.IdOf(t, next.At(t) + count)]
  {
    TabulateSnoc(Writer(t, next.format), next.At(t), count);
  }

  lemma TabulateSnoc(make: nat -> string, from: nat, count: nat)
    ensures Tabulate(make, from, count + 1) == Tabulate(make, from, count) + [make(from + count)]
  {
  }

  // ----- the stored golden set

  /** The question files and the draft CSV. */
  datatype Store = Store(files: Files, csv: seq<Row>)

  /** The files after appending the new questions of some types, one after the other. */
  function FilesAfter(files: Files, types: seq<QuestionType>, newIds: Files): Files {
    if types == [] then files
    else
      var last := types[|types| - 1];
      Appended(FilesAfter(files, types[..|types| - 1], newIds), last, FileAt(newIds, last))
  }

  /** A run that is cut off after `k` effects: first one append per type, then the CSV.
      An invalid row stops it before any effect. */
  ghost function RunTo(s: Store, k: nat): Store {
    if !AllValid(s.csv) then s
    else Effects(s, NumberingOf(s.files), NewTypes(s.csv), k)
  }

  function Effects(s: Store, next: Numbering, types: seq<QuestionType>, k: nat): Store {
    Store(FilesAfter(s.files, Take(types, k), NewIdsByType(next, s.csv)),
          if k <= |types| then s.csv else Finalized(s.csv, next))
  }

  /** The run gets as far as the file of type t. */
  ghost predicate Reaches(rows: seq<Row>, k: nat, t: QuestionType) {
    AllValid(rows) && t in Take(NewTypes(rows), k)
  }

  class GoldenSet {
    var files: Files
    var csv: seq<Row>

    ghost function Contents(): Store
      reads this
    {
      Store(files, csv)
    }

    constructor (files: Files, csv: seq<Row>)
      ensures Contents() == Store(files, csv)
    {
      this.files, this.csv := files, csv;
    }

    /** `append_questions`. */
    method AppendQuestions(t: QuestionType, ids: seq<string>)
      modifies this`files
      ensures files == Appended(old(files), t, ids)
    {
      files := files[t := FileAt(files, t) + ids];
    }

    /** The loop of `main` over the types with new questions, cut off after `stopAfter` appends. */
    method AppendAll(types: seq<QuestionType>, newIds: Files, stopAfter: nat) returns (appended: nat)
      requires newIds.Keys == Elements(types)
      modifies this`files
      ensures appended == if stopAfter < |types| then stopAfter else |types|
      ensures files == FilesAfter(old(files), types[..appended], newIds)
    {
      appended := 0;
      while appended < |types| && appended < stopAfter
        invariant appended <= |types| && appended <= stopAfter
        invariant files == FilesAfter(old(files), types[..appended], newIds)
      {
        assert types[..appended + 1][..appended] == types[..appended];
        AppendQuestions(types[appended], newIds[types[appended]]);
        appended := appended + 1;
      }
    }

    /** `main`, interrupted once `stopAfter` effects have happened. */
    method Run(stopAfter: nat) returns (failedRow: Option<string>)
      modifies this
      ensures Contents() == RunTo(old(Contents()), stopAfter)
      ensures failedRow.None? <==> AllValid(old(csv))
    {
      var r, types, newIds := FinalizeRows(csv, files);
      if r.Err? {
        return Some(r.error);
      }
      failedRow := None;
      if types == [] {
        NothingPending(csv, NumberingOf(files));
        return;
      }
      RunMeaning(Contents(), NumberingOf(files), stopAfter);
      var appended := AppendAll(types, newIds, stopAfter);
      if appended < stopAfter {
        csv := r.value;
      }
    }
  }

  // ----- the effects of a run

  lemma RunMeaning(s: Store, next: Numbering, k: nat)
    requires AllValid(s.csv) && next == NumberingOf(s.files)
    ensures var types := NewTypes(s.csv);
            var appended := if k < |types| then k else |types|;
            var files := FilesAfter(s.files, types[..appended], NewIdsByType(next, s.csv));
      RunTo(s, k) == Store(files, if appended < k then Finalized(s.csv, next) else s.csv)
  {
    var types := NewTypes(s.csv);
    assert Take(types, k) == types[..if k < |types| then k else |types|];
  }

  lemma {:induction false} NewTypesMeaning(rows: seq<Row>)
    ensures Distinct(NewTypes(rows))
    ensures forall t :: t in NewTypes(rows) <==> PendingCount(rows, t) > 0
  {
    if rows != [] {
      NewTypesMeaning(rows[..|rows| - 1]);
      var last := rows[|rows| - 1];
      var before := NewTypes(rows[..|rows| - 1]);
      if last.IsPending() && last.questionType !in before { DistinctSnoc(before, last.questionType); }
    }
  }

  lemma {:induction false} FileAfter(files: Files, types: seq<QuestionType>, newIds: Files, t: QuestionType)
    requires Distinct(types)
    ensures t !in types ==> FileAt(FilesAfter(files, types, newIds), t) == FileAt(files, t)
    ensures t in types ==> FileAt(FilesAfter(files, types, newIds), t) == FileAt(files, t) + FileAt(newIds, t)
  {
    if types != [] {
      var front, last := types[..|types| - 1], types[|types| - 1];
      SplitLast(types);
      FileAfter(files, front, newIds, t);
      AppendedAt(FilesAfter(files, front, newIds), last, FileAt(newIds, last), t);
    }
  }

  lemma {:induction false} NothingPending(rows: seq<Row>, next: Numbering)
    requires NewTypes(rows) == []
    ensures Finalized(rows, next) == rows && AllValid(rows)
  {
    NoneIsPending(rows);
    FinalizedUnchanged(rows, next);
  }

  lemma {:induction false} NoneIsPending(rows: seq<Row>)
    ensures NewTypes(rows) == [] <==> forall row :: row in rows ==> !row.IsPending()
  {
    if rows != [] {
      NoneIsPending(rows[..|rows| - 1]);
      SplitLast(rows);
    }
  }

  lemma {:induction false} FinalizedUnchanged(rows: seq<Row>, next: Numbering)
    requires forall row :: row in rows ==> !row.IsPending()
    ensures Finalized(rows, next) == rows
  {
    if rows != [] {
      SplitLast(rows);
      FinalizedUnchanged(rows[..|rows| - 1], next);
    }
  }

  /** A run appends to each type it reaches the consecutive numbers after the highest one,
      one per pending row of the type, and touches no other file. */
  lemma RunAppendsConsecutively(s: Store, k: nat, t: QuestionType)
    ensures !Reaches(s.csv, k, t) ==> FileAt(RunTo(s, k).files, t) == FileAt(s.files, t)
    ensures Reaches(s.csv, k, t) ==>
      FileAt(RunTo(s, k).files, t) == FileAt(s.files, t) + NewIds(NumberingOf(s.files), t, PendingCount(s.csv, t))
  {
    if AllValid(s.csv) {
      NewTypesMeaning(s.csv);
      EffectsAt(s, NumberingOf(s.files), NewTypes(s.csv), k, t);
    }
  }

  lemma EffectsAt(s: Store, next: Numbering, types: seq<QuestionType>, k: nat, t: QuestionType)
    requires Distinct(types) && types == NewTypes(s.csv)
    ensures t !in Take(types, k) ==> FileAt(Effects(s, next, types, k).files, t) == FileAt(s.files, t)
    ensures t in Take(types, k) ==>
      FileAt(Effects(s, next, types, k).files, t) == FileAt(s.files, t) + NewIds(next, t, PendingCount(s.csv, t))
  {
    FileAfter(s.files, Take(types, k), NewIdsByType(next, s.csv), t);
  }

  lemma ReachedIsPending(rows: seq<Row>, k: nat, t: QuestionType)
    ensures Reaches(rows, k, t) ==> IsTypeName(t.name) && PendingCount(rows, t) > 0
    ensures AllValid(rows) && k >= |NewTypes(rows)| ==> (Reaches(rows, k, t) <==> PendingCount(rows, t) > 0)
  {
    NewTypesMeaning(rows);
    if Reaches(rows, k, t) { PendingTypesAreKnown(rows, t); }
  }

  lemma NewIdsCount(next: Numbering, t: QuestionType, count: nat)
    ensures |NewIds(next, t, count)| == count
  {
    TabulateAt(Writer(t, next.format), next.At(t), count);
  }

  // ----- ids stay distinct

  lemma RecogniseRender(t: QuestionType, n: nat)
    requires IsTypeName(t.name)
    ensures Recognise(t.name, Render(t.name, n, 3)) == if n <= 999 then Some(n) else None
  {
    var id := Render(t.name, n, 3);
    PadThree(n);
    ReadPad(n, 3);
    assert id[..|t.name|] == t.name && id[|t.name| + 1..] == Pad(n, 3);
  }

  lemma {:induction false} HighestBounds(read: string -> Option<nat>, ids: seq<string>, id: string)
    requires id in ids && read(id).Some?
    ensures read(id).value <= Highest(read, ids)
  {
    SplitLast(ids);
    if id in ids[..|ids| - 1] { HighestBounds(read, ids[..|ids| - 1], id); }
  }

  lemma {:induction false} TabulateAt(make: nat -> string, from: nat, count: nat)
    ensures |Tabulate(make, from, count)| == count
    ensures forall j :: 0 <= j < count ==> Tabulate(make, from, count)[j] == make(from + j)
  {
    if count > 0 { TabulateAt(make, from, count - 1); }
  }

  lemma WrittenAt(t: QuestionType, format: (string, nat) -> string, from: nat, count: nat)
    ensures var ids := Tabulate(Writer(t, format), from, count);
      |ids| == count && forall j :: 0 <= j < count ==> ids[j] == format(t.name, from + j)
  {
    TabulateAt(Writer(t, format), from, count);
  }

  lemma RangeAt(t: QuestionType, from: nat, count: nat)
    ensures |IdRange(t, from, count)| == count
    ensures forall j :: 0 <= j < count ==> IdRange(t, from, count)[j] == Render(t.name, from + j, 3)
  {
    WrittenAt(t, ThreeDigits(), from, count);
  }

  lemma RenderInjective(t: QuestionType, m: nat, n: nat)
    requires Render(t.name, m, 3) == Render(t.name, n, 3)
    ensures m == n
  {
    ParseRender(t.name, m, 3);
    ParseRender(t.name, n, 3);
  }

  lemma RangeDistinct(t: QuestionType, from: nat, count: nat)
    ensures Distinct(IdRange(t, from, count))
  {
    RangeAt(t, from, count);
    var r := IdRange(t, from, count);
    forall i, j | 0 <= i < j < |r| ensures r[i] != r[j] {
      if r[i] == r[j] { RenderInjective(t, from + i, from + j); }
    }
  }

  /** None of the numbers after 999 that a run would give out is in the file already. */
  ghost predicate LongIdsFree(t: QuestionType, ids: seq<string>, count: nat) {
    forall n: nat :: IsLongNext(t, ids, count, n) ==> Render(t.name, n, 3) !in ids
  }

  predicate IsLongNext(t: QuestionType, ids: seq<string>, count: nat, n: nat) {
    MaxSeq(t, ids) < n <= MaxSeq(t, ids) + count && n > 999
  }

  lemma NextIdIsNew(t: QuestionType, ids: seq<string>, n: nat)
    requires IsTypeName(t.name) && MaxSeq(t, ids) < n <= 999
    ensures Render(t.name, n, 3) !in ids
  {
    RecogniseRender(t, n);
    if Render(t.name, n, 3) in ids { HighestBounds(Reader(t), ids, Render(t.name, n, 3)); }
  }

  lemma TabulateIn(make: nat -> string, from: nat, count: nat, n: nat)
    requires from <= n < from + count
    ensures make(n) in Tabulate(make, from, count)
  {
    TabulateAt(make, from, count);
    assert Tabulate(make, from, count)[n - from] == make(n);
  }

  /** Exactly when continuing the numbering of a file repeats no id: only a number after 999 can
      be there already, because every shorter one is recognised and counted in the maximum. */
  lemma AppendDistinctExactly(t: QuestionType, ids: seq<string>, count: nat)
    requires IsTypeName(t.name) && Distinct(ids)
    ensures Distinct(ids + IdRange(t, MaxSeq(t, ids) + 1, count)) <==> LongIdsFree(t, ids, count)
  {
    var from := MaxSeq(t, ids) + 1;
    var added := IdRange(t, from, count);
    if LongIdsFree(t, ids, count) {
      RangeDistinct(t, from, count);
      RangeAt(t, from, count);
      forall j | 0 <= j < count ensures added[j] !in ids {
        if from + j <= 999 { NextIdIsNew(t, ids, from + j); } else { assert IsLongNext(t, ids, count, from + j); }
      }
      DistinctConcat(ids, added);
    } else {
      var n: nat :| IsLongNext(t, ids, count, n) && Render(t.name, n, 3) in ids;
      TabulateIn(Writer(t, ThreeDigits()), from, count, n);
      SharedBreaksDistinct(ids, added, Render(t.name, n, 3));
    }
  }

  lemma SharedBreaksDistinct<T>(xs: seq<T>, ys: seq<T>, x: T)
    requires x in xs && x in ys
    ensures !Distinct(xs + ys)
  {
    var i :| 0 <= i < |xs| && xs[i] == x;
    var j :| 0 <= j < |ys| && ys[j] == x;
    assert (xs + ys)[i] == (xs + ys)[|xs| + j];
  }

  lemma MaxSeqOfRange(t: QuestionType, n: nat)
    requires IsTypeName(t.name)
    ensures MaxSeq(t, IdRange(t, 1, n)) == if n <= 999 then n else 999
  {
    forall m: nat ensures Reader(t)(Writer(t, ThreeDigits())(m)) == if m <= 999 then Some(m) else None {
      RecogniseRender(t, m);
    }
    HighestOfTable(Reader(t), Writer(t, ThreeDigits()), n);
  }

  lemma {:induction false} HighestOfTable(read: string -> Option<nat>, make: nat -> string, n: nat)
    requires forall m: nat :: read(make(m)) == if m <= 999 then Some(m) else None
    ensures Highest(read, Tabulate(make, 1, n)) == if n <= 999 then n else 999
  {
    if n > 0 {
      HighestOfTable(read, make, n - 1);
      HighestSnoc(read, Tabulate(make, 1, n - 1), make(n));
    }
  }

  lemma HighestSnoc(read: string -> Option<nat>, ids: seq<string>, id: string)
    ensures read(id).None? ==> Highest(read, ids + [id]) == Highest(read, ids)
    ensures read(id).Some? ==> Highest(read, ids + [id]) == Max(Highest(read, ids), read(id).value)
  {
    assert (ids + [id])[..|ids|] == ids;
  }

  /** The limit is exact: a file numbered 1..n takes further questions without repeating an id
      if and only if n is at most 999, because a four-digit number is not recognised. */
  lemma NumberingLimit(t: QuestionType, n: nat, count: nat)
    requires IsTypeName(t.name) && count > 0
    ensures var ids := IdRange(t, 1, n);
      Distinct(ids + IdRange(t, MaxSeq(t, ids) + 1, count)) <==> n <= 999
  {
    MaxSeqOfRange(t, n);
    ContinuedFrom(t, n, MaxSeq(t, IdRange(t, 1, n)), count);
  }

  lemma ContinuedFrom(t: QuestionType, n: nat, highest: nat, count: nat)
    requires count > 0 && highest == if n <= 999 then n else 999
    ensures Distinct(IdRange(t, 1, n) + IdRange(t, highest + 1, count)) <==> n <= 999
  {
    if n <= 999 { FitsBelowLimit(t, n, count); } else { RepeatsPastLimit(t, n, count); }
  }

  lemma FitsBelowLimit(t: QuestionType, n: nat, count: nat)
    ensures Distinct(IdRange(t, 1, n) + IdRange(t, n + 1, count))
  {
    RangeJoin(t, n, count);
    RangeDistinct(t, 1, n + count);
  }

  lemma RepeatsPastLimit(t: QuestionType, n: nat, count: nat)
    requires n > 999 && count > 0
    ensures !Distinct(IdRange(t, 1, n) + IdRange(t, 1000, count))
  {
    RangeAt(t, 1, n);
    RangeAt(t, 1000, count);
    var all := IdRange(t, 1, n) + IdRange(t, 1000, count);
    assert all[999] == IdRange(t, 1, n)[999] == Render(t.name, 1000, 3);
    assert all[n] == IdRange(t, 1000, count)[0] == Render(t.name, 1000, 3);
  }

  lemma RangeJoin(t: QuestionType, n: nat, count: nat)
    ensures IdRange(t, 1, n) + IdRange(t, n + 1, count) == IdRange(t, 1, n + count)
  {
    TabulateJoin(Writer(t, ThreeDigits()), n, count);
  }

  lemma {:induction false} TabulateJoin(make: nat -> string, n: nat, count: nat)
    ensures Tabulate(make, 1, n) + Tabulate(make, n + 1, count) == Tabulate(make, 1, n + count)
  {
    if count > 0 { TabulateJoin(make, n, count - 1); }
  }

  // ----- any history of edits, runs and crashes

  /** The draft is edited, or a run performs its first `effects` effects. */
  datatype Action = Edit(rows: seq<Row>) | Execute(effects: nat)

  ghost function Act(s: Store, a: Action): Store {
    match a
    case Edit(rows) => s.(csv := rows)
    case Execute(effects) => RunTo(s, effects)
  }

  ghost function History(s: Store, actions: seq<Action>): Store {
    if actions == [] then s else Act(History(s, actions[..|actions| - 1]), actions[|actions| - 1])
  }

  ghost predicate DistinctFiles(s: Store) {
    forall t :: Distinct(FileAt(s.files, t))
  }

  /** Every file the run reaches can continue its numbering without meeting a long id. */
  ghost predicate RunFits(s: Store, k: nat) {
    forall t :: FileFits(s, k, t)
  }

  ghost predicate FileFits(s: Store, k: nat, t: QuestionType) {
    Reaches(s.csv, k, t) ==> LongIdsFree(t, FileAt(s.files, t), PendingCount(s.csv, t))
  }

  /** No type of the next run would pass number 999. */
  ghost predicate InRange(s: Store) {
    forall t :: MaxSeq(t, FileAt(s.files, t)) + PendingCount(s.csv, t) <= 999
  }

  ghost predicate AlwaysDistinct(s: Store, actions: seq<Action>) {
    DistinctFiles(History(s, actions)) && (actions == [] || AlwaysDistinct(s, actions[..|actions| - 1]))
  }

  ghost predicate AlwaysFits(s: Store, actions: seq<Action>) {
    actions == [] ||
    (var front, last := actions[..|actions| - 1], actions[|actions| - 1];
     AlwaysFits(s, front) && (last.Execute? ==> RunFits(History(s, front), last.effects)))
  }

  lemma PendingTypesAreKnown(rows: seq<Row>, t: QuestionType)
    requires AllValid(rows) && PendingCount(rows, t) > 0
    ensures IsTypeName(t.name)
  {
    PendingRowOf(rows, t);
  }

  lemma {:induction false} PendingRowOf(rows: seq<Row>, t: QuestionType)
    requires PendingCount(rows, t) > 0
    ensures exists row :: row in rows && row.IsPending() && row.questionType == t
  {
    if !rows[|rows| - 1].IsPendingOf(t) {
      PendingRowOf(rows[..|rows| - 1], t);
      SplitLast(rows);
    }
  }

  lemma RunKeepsDistinctExactly(s: Store, k: nat)
    requires DistinctFiles(s)
    ensures DistinctFiles(RunTo(s, k)) <==> RunFits(s, k)
  {
    forall t ensures Distinct(FileAt(RunTo(s, k).files, t)) <==> FileFits(s, k, t) { RunKeepsFileDistinct(s, k, t); }
  }

  lemma RunKeepsFileDistinct(s: Store, k: nat, t: QuestionType)
    requires Distinct(FileAt(s.files, t))
    ensures Distinct(FileAt(RunTo(s, k).files, t)) <==> FileFits(s, k, t)
  {
    RunAppendsConsecutively(s, k, t);
    ReachedIsPending(s.csv, k, t);
    if Reaches(s.csv, k, t) { NewIdsDistinctExactly(s.files, s.csv, t); }
  }

  lemma NewIdsDistinctExactly(files: Files, rows: seq<Row>, t: QuestionType)
    requires IsTypeName(t.name) && Distinct(FileAt(files, t))
    ensures Distinct(FileAt(files, t) + NewIds(NumberingOf(files), t, PendingCount(rows, t)))
      <==> LongIdsFree(t, FileAt(files, t), PendingCount(rows, t))
  {
    NewIdsAreNext(files, rows, t);
    AppendDistinctExactly(t, FileAt(files, t), PendingCount(rows, t));
  }

  lemma NewIdsAreNext(files: Files, rows: seq<Row>, t: QuestionType)
    ensures NewIds(NumberingOf(files), t, PendingCount(rows, t)) ==
      IdRange(t, MaxSeq(t, FileAt(files, t)) + 1, PendingCount(rows, t))
  {
    NextIsAboveFile(files, t);
  }

  /** In particular a run fits while no type passes 999. */
  lemma ThreeDigitsFit(s: Store, k: nat)
    requires InRange(s)
    ensures RunFits(s, k)
  {
    forall t ensures FileFits(s, k, t) {
      var ids, count := FileAt(s.files, t), PendingCount(s.csv, t);
      assert MaxSeq(t, ids) + count <= 999;
      forall n: nat ensures !IsLongNext(t, ids, count, n) { }
    }
  }

  /** Over any history of edits and runs, complete or cut off anywhere, the ids of every file
      stay pairwise distinct if and only if every run of it fits. */
  lemma {:induction false} IdsStayDistinct(s: Store, actions: seq<Action>)
    requires DistinctFiles(s)
    ensures AlwaysDistinct(s, actions) <==> AlwaysFits(s, actions)
  {
    if actions != [] {
      var front, last := actions[..|actions| - 1], actions[|actions| - 1];
      IdsStayDistinct(s, front);
      if AlwaysDistinct(s, front) {
        LastOfAlways(s, front);
        match last
        case Edit(rows) => EditKeepsDistinct(History(s, front), rows);
        case Execute(effects) => RunKeepsDistinctExactly(History(s, front), effects);
      }
    }
  }

  lemma LastOfAlways(s: Store, actions: seq<Action>)
    requires AlwaysDistinct(s, actions)
    ensures DistinctFiles(History(s, actions))
  {
  }

  lemma EditKeepsDistinct(s: Store, rows: seq<Row>)
    requires DistinctFiles(s)
    ensures DistinctFiles(s.(csv := rows))
  {
    forall t ensures Distinct(FileAt(s.(csv := rows).files, t)) { assert Distinct(FileAt(s.files, t)); }
  }

  // ----- a finalized row is a stored question

  /** Every id in the draft is in its type's file. */
  ghost predicate Backed(files: Files, rows: seq<Row>) {
    forall row :: row in rows && row.finalizedId != "" ==> row.finalizedId in FileAt(files, row.questionType)
  }

  /** Edits invent no id. */
  ghost predicate HonestEdits(s: Store, actions: seq<Action>) {
    actions == [] ||
    (var front, last := actions[..|actions| - 1], actions[|actions| - 1];
     HonestEdits(s, front) && (last.Edit? ==> Backed(History(s, front).files, last.rows)))
  }

  /** Every new id of the rows is among the ids stored for its type. */
  ghost predicate Covers(files: Files, after: Files, next: Numbering, rows: seq<Row>) {
    forall t :: FileCovers(files, after, next, rows, t)
  }

  ghost predicate FileCovers(files: Files, after: Files, next: Numbering, rows: seq<Row>, t: QuestionType) {
    && FileAt(files, t) <= FileAt(after, t)
    && Numbered(next, t, PendingCount(rows, t), FileAt(after, t))
  }

  ghost predicate Numbered(next: Numbering, t: QuestionType, count: nat, ids: seq<string>) {
    forall n: nat {:trigger next.IdOf(t, n)} :: next.At(t) <= n < next.At(t) + count ==> next.IdOf(t, n) in ids
  }

  lemma {:induction false} FinalizedBacked(rows: seq<Row>, files: Files, after: Files, next: Numbering)
    requires Backed(files, rows) && Covers(files, after, next, rows)
    ensures Backed(after, Finalized(rows, next))
  {
    if rows != [] {
      var front, last := rows[..|rows| - 1], rows[|rows| - 1];
      SplitLast(rows);
      forall t ensures FileCovers(files, after, next, front, t) {
        assert FileCovers(files, after, next, rows, t);
        PendingNext(front, last, t);
      }
      FinalizedBacked(front, files, after, next);
      assert FileCovers(files, after, next, rows, last.questionType);
      LastBacked(front, last, files, after, next);
      BackedSnoc(after, Finalized(front, next), FinalizedRow(front, next, last));
    }
  }

  lemma BackedSnoc(files: Files, rows: seq<Row>, row: Row)
    requires Backed(files, rows)
    requires row.finalizedId != "" ==> row.finalizedId in FileAt(files, row.questionType)
    ensures Backed(files, rows + [row])
  {
  }

  lemma LastBacked(front: seq<Row>, last: Row, files: Files, after: Files, next: Numbering)
    requires Backed(files, front + [last]) && FileCovers(files, after, next, front + [last], last.questionType)
    ensures FinalizedRow(front, next, last).finalizedId != "" ==>
      FinalizedRow(front, next, last).finalizedId in FileAt(after, last.questionType)
  {
    assert last in front + [last];
    PendingNext(front, last, last.questionType);
  }

  lemma RunKeepsBacked(s: Store, k: nat)
    requires Backed(s.files, s.csv)
    ensures Backed(RunTo(s, k).files, RunTo(s, k).csv)
  {
    if AllValid(s.csv) && k > |NewTypes(s.csv)| {
      var next := NumberingOf(s.files);
      var after := RunTo(s, k).files;
      forall t ensures FileCovers(s.files, after, next, s.csv, t) { CompletedRunCovers(s, k, t); }
      FinalizedBacked(s.csv, s.files, after, next);
    } else {
      forall t ensures FileAt(s.files, t) <= FileAt(RunTo(s, k).files, t) { RunAppendsConsecutively(s, k, t); }
      GrownFilesBack(s.files, RunTo(s, k).files, s.csv);
    }
  }

  lemma CompletedRunCovers(s: Store, k: nat, t: QuestionType)
    requires AllValid(s.csv) && k > |NewTypes(s.csv)|
    ensures FileCovers(s.files, RunTo(s, k).files, NumberingOf(s.files), s.csv, t)
  {
    RunAppendsConsecutively(s, k, t);
    ReachedIsPending(s.csv, k, t);
    NewIdsNumbered(NumberingOf(s.files), t, PendingCount(s.csv, t), FileAt(s.files, t));
  }

  lemma NewIdsNumbered(next: Numbering, t: QuestionType, count: nat, ids: seq<string>)
    ensures Numbered(next, t, count, ids + NewIds(next, t, count))
  {
    var from := next.At(t);
    TabulateAt(Writer(t, next.format), from, count);
    forall n: nat | from <= n < from + count ensures next.IdOf(t, n) in ids + NewIds(next, t, count) {
      assert NewIds(next, t, count)[n - from] == next.IdOf(t, n);
    }
  }

  lemma GrownFilesBack(files: Files, after: Files, rows: seq<Row>)
    requires Backed(files, rows) && forall t :: FileAt(files, t) <= FileAt(after, t)
    ensures Backed(after, rows)
  {
    forall row | row in rows && row.finalizedId != "" ensures row.finalizedId in FileAt(after, row.questionType) {
      assert FileAt(files, row.questionType) <= FileAt(after, row.questionType);
    }
  }

  /** Because the files are appended before the CSV is rewritten, a row is never marked
      finalized without its question being stored, wherever runs are cut off. */
  lemma {:induction false} FinalizedRowsAreStored(s: Store, actions: seq<Action>)
    requires Backed(s.files, s.csv) && HonestEdits(s, actions)
    ensures Backed(History(s, actions).files, History(s, actions).csv)
  {
    if actions != [] {
      var front := actions[..|actions| - 1];
      FinalizedRowsAreStored(s, front);
      match actions[|actions| - 1]
      case Edit(rows) =>
      case Execute(effects) => RunKeepsBacked(History(s, front), effects);
    }
  }

  // ----- reruns

  lemma {:induction false} FinalizedLeavesNothing(rows: seq<Row>, next: Numbering)
    requires forall name: string, n: nat :: next.format(name, n) != ""
    ensures forall row :: row in Finalized(rows, next) ==> !row.IsPending()
  {
    if rows != [] { FinalizedLeavesNothing(rows[..|rows| - 1], next); }
  }

  /** After a completed run a rerun changes nothing, and a run with an invalid row has no effect at all. */
  lemma RerunChangesNothing(s: Store, k: nat, again: nat)
    requires k > |NewTypes(s.csv)|
    ensures RunTo(RunTo(s, k), again) == RunTo(s, k)
    ensures !AllValid(s.csv) ==> RunTo(s, k) == s
  {
    if AllValid(s.csv) {
      var done := RunTo(s, k);
      FinalizedLeavesNothing(s.csv, NumberingOf(s.files));
      NoneIsPending(done.csv);
      NothingPending(done.csv, NumberingOf(done.files));
    }
  }

  /** Runs one after the other, run i cut off after stops[i] effects. */
  function Executions(stops: seq<nat>): seq<Action> {
    if stops == [] then [] else Executions(stops[..|stops| - 1]) + [Execute(stops[|stops| - 1])]
  }

  ghost function AfterRuns(s: Store, stops: seq<nat>): Store {
    History(s, Executions(stops))
  }

  lemma LastRun(s: Store, stops: seq<nat>)
    requires stops != []
    ensures AfterRuns(s, stops) == RunTo(AfterRuns(s, stops[..|stops| - 1]), stops[|stops| - 1])
  {
    var front := Executions(stops[..|stops| - 1]);
    assert Executions(stops)[..|front|] == front;
  }

  /** Every run stops before it rewrites the CSV. */
  predicate Interrupted(rows: seq<Row>, stops: seq<nat>) {
    forall i :: 0 <= i < |stops| ==> stops[i] <= |NewTypes(rows)|
  }

  /** The pending questions of type t, once for each run that appends to its file. */
  ghost function Repeats(rows: seq<Row>, stops: seq<nat>, t: QuestionType): nat {
    if stops == [] then 0 else Repeats(rows, stops[..|stops| - 1], t) + Appends(rows, stops[|stops| - 1], t)
  }

  ghost function Appends(rows: seq<Row>, k: nat, t: QuestionType): nat {
    if Reaches(rows, k, t) then PendingCount(rows, t) else 0
  }

  ghost predicate Gains(s: Store, after: Store, count: nat, t: QuestionType) {
    |FileAt(after.files, t)| == |FileAt(s.files, t)| + count
  }

  /** Any number of runs cut off before the CSV was rewritten leave the draft as it was, and every
      file gains its pending questions once for each run that reached it. */
  lemma {:induction false} CrashedRunsRepeat(s: Store, stops: seq<nat>, t: QuestionType)
    requires Interrupted(s.csv, stops)
    ensures AfterRuns(s, stops).csv == s.csv
    ensures Gains(s, AfterRuns(s, stops), Repeats(s.csv, stops, t), t)
  {
    if stops != [] {
      var front, last := stops[..|stops| - 1], stops[|stops| - 1];
      CrashedRunsRepeat(s, front, t);
      LastRun(s, stops);
      CrashKeepsDraft(AfterRuns(s, front), last);
      RunLength(AfterRuns(s, front), last, t);
    }
  }

  lemma CrashKeepsDraft(s: Store, k: nat)
    requires k <= |NewTypes(s.csv)|
    ensures RunTo(s, k).csv == s.csv
  {
  }

  ghost function CompleteRun(s: Store): Store {
    RunTo(s, |NewTypes(s.csv)| + 1)
  }

  lemma CompleteRunLength(s: Store, t: QuestionType)
    requires AllValid(s.csv)
    ensures GainsPending(s, CompleteRun(s), t)
  {
    RunLength(s, |NewTypes(s.csv)| + 1, t);
    ReachedIsPending(s.csv, |NewTypes(s.csv)| + 1, t);
  }

  lemma RunLength(s: Store, k: nat, t: QuestionType)
    ensures Gains(s, RunTo(s, k), Appends(s.csv, k, t), t)
  {
    RunAppendsConsecutively(s, k, t);
    NewIdsCount(NumberingOf(s.files), t, PendingCount(s.csv, t));
  }

  /** A complete run after the interrupted ones adds the pending questions once more. */
  lemma RerunRepeats(s: Store, stops: seq<nat>, t: QuestionType)
    requires AllValid(s.csv) && Interrupted(s.csv, stops)
    ensures Gains(s, CompleteRun(AfterRuns(s, stops)), Repeats(s.csv, stops, t) + PendingCount(s.csv, t), t)
  {
    CrashedRunsRepeat(s, stops, t);
    CompleteRunLength(AfterRuns(s, stops), t);
  }

  /** So finishing after any number of interruptions stores every pending question exactly once
      if and only if none of the interrupted runs had appended anything. */
  lemma RerunIsExactlyOnce(s: Store, stops: seq<nat>)
    requires AllValid(s.csv) && Interrupted(s.csv, stops)
    ensures StoredOnce(s, CompleteRun(AfterRuns(s, stops))) <==> forall i :: 0 <= i < |stops| ==> stops[i] == 0
  {
    var again := CompleteRun(AfterRuns(s, stops));
    forall t ensures Gains(s, again, Repeats(s.csv, stops, t) + PendingCount(s.csv, t), t) {
      RerunRepeats(s, stops, t);
    }
    OnceIffNothingAppended(s, again, stops);
  }

  lemma OnceIffNothingAppended(s: Store, again: Store, stops: seq<nat>)
    requires AllValid(s.csv) && Interrupted(s.csv, stops)
    requires forall t :: Gains(s, again, Repeats(s.csv, stops, t) + PendingCount(s.csv, t), t)
    ensures StoredOnce(s, again) <==> forall i :: 0 <= i < |stops| ==> stops[i] == 0
  {
    if i :| 0 <= i < |stops| && stops[i] != 0 {
      var t := NewTypes(s.csv)[0];
      assert Reaches(s.csv, stops[i], t);
      RepeatsAtLeast(s.csv, stops, i, t);
      ReachedIsPending(s.csv, stops[i], t);
      assert Gains(s, again, Repeats(s.csv, stops, t) + PendingCount(s.csv, t), t);
      assert !GainsPending(s, again, t);
    } else {
      forall t ensures GainsPending(s, again, t) {
        NothingRepeats(s.csv, stops, t);
        assert Gains(s, again, Repeats(s.csv, stops, t) + PendingCount(s.csv, t), t);
      }
    }
  }

  lemma {:induction false} NothingRepeats(rows: seq<Row>, stops: seq<nat>, t: QuestionType)
    requires forall i :: 0 <= i < |stops| ==> stops[i] == 0
    ensures Repeats(rows, stops, t) == 0
  {
    if stops != [] { NothingRepeats(rows, stops[..|stops| - 1], t); }
  }

  lemma {:induction false} RepeatsAtLeast(rows: seq<Row>, stops: seq<nat>, i: nat, t: QuestionType)
    requires i < |stops|
    ensures Repeats(rows, stops, t) >= Appends(rows, stops[i], t)
  {
    if i < |stops| - 1 { RepeatsAtLeast(rows, stops[..|stops| - 1], i, t); }
  }

  /** Every file has grown by one question per row that was pending. */
  ghost predicate StoredOnce(s: Store, after: Store) {
    forall t :: GainsPending(s, after, t)
  }

  ghost predicate GainsPending(s: Store, after: Store, t: QuestionType) {
    Gains(s, after, PendingCount(s.csv, t), t)
  }
}
