/** What a run of the finalizer does, in the fields of the draft's rows and in the characters of the
    ids (`finalize_rows`, `next_sequence_numbers` and `main` in
    scripts/finalize_golden_set_from_review.py). */
module GoldenSetRows {
  import opened Ordering
  import opened Outcomes
  import opened RowIds
  import opened GoldenSetFinalize

  /** Which of the first n rows are approved, not yet finalized and of type t. */
  function Waiting(rows: seq<Row>, t: QuestionType, n: nat): set<int> {
    set i | 0 <= i < n && i < |rows| && rows[i].approved && rows[i].finalizedId == "" && rows[i].questionType == t
  }

  lemma WaitingSnoc(rows: seq<Row>, row: Row, t: QuestionType)
    ensures |Waiting(rows + [row], t, |rows| + 1)| == |Waiting(rows, t, |rows|)|
      + (if row.approved && row.finalizedId == "" && row.questionType == t then 1 else 0)
  {
    var more := if row.approved && row.finalizedId == "" && row.questionType == t then {|rows|} else {};
    assert Waiting(rows + [row], t, |rows| + 1) == Waiting(rows, t, |rows|) + more;
  }

  lemma {:induction false} PendingIsWaiting(rows: seq<Row>, t: QuestionType)
    ensures PendingCount(rows, t) == |Waiting(rows, t, |rows|)|
  {
    if rows != [] {
      var front, last := rows[..|rows| - 1], rows[|rows| - 1];
      PendingIsWaiting(front, t);
      WaitingSnoc(front, last, t);
      SplitLast(rows);
    }
  }

  lemma WaitingAbove(rows: seq<Row>, t: QuestionType, i: nat)
    requires i <= |rows|
    ensures PendingCount(rows[..i], t) == |Waiting(rows, t, i)|
  {
    PendingIsWaiting(rows[..i], t);
    assert Waiting(rows[..i], t, i) == Waiting(rows, t, i);
  }

  // ----- refused drafts

  /** An approved row that is not finalized yet cannot be turned into a question. */
  predicate Refuses(row: Row) {
    && row.approved && row.finalizedId == ""
    && (!row.wellFormed || row.questionType.name == ""
        || exists i :: 0 <= i < |row.questionType.name| && !TypeCharacter(row.questionType.name[i]))
  }

  predicate TypeCharacter(c: char) { c == '_' || c in "abcdefghijklmnopqrstuvwxyz" }

  lemma TypeCharacters(c: char)
    ensures TypeCharacter(c) <==> IsTypeChar(c)
  {
    var letters := "abcdefghijklmnopqrstuvwxyz";
    assert forall i :: 0 <= i < 26 ==> letters[i] as int == 'a' as int + i;
    if 'a' <= c <= 'z' { assert letters[c as int - 'a' as int] == c; }
  }

  lemma RefusedIsInvalid(rows: seq<Row>)
    ensures AllValid(rows) <==> forall row :: row in rows ==> !Refuses(row)
  {
    forall c: char ensures TypeCharacter(c) <==> IsTypeChar(c) { TypeCharacters(c); }
  }

  /** A draft with a refused row, and one in which no unfinalized row is approved, is left alone. */
  lemma NothingHappens(s: Store, k: nat)
    requires (exists row :: row in s.csv && Refuses(row)) ||
      forall row :: row in s.csv ==> !row.approved || row.finalizedId != ""
    ensures RunTo(s, k) == s
  {
    RefusedIsInvalid(s.csv);
    if AllValid(s.csv) {
      NoneIsPending(s.csv);
      NothingPending(s.csv, NumberingOf(s.files));
    }
  }

  // ----- the rows after a run

  lemma {:induction false} FinalizedAt(rows: seq<Row>, next: Numbering, i: nat)
    requires i < |rows|
    ensures |Finalized(rows, next)| == |rows|
    ensures Finalized(rows, next)[i] == FinalizedRow(rows[..i], next, rows[i])
  {
    var front := rows[..|rows| - 1];
    FinalizedLength(front, next);
    if i < |front| {
      FinalizedAt(front, next, i);
      assert front[..i] == rows[..i];
    }
  }

  lemma {:induction false} FinalizedLength(rows: seq<Row>, next: Numbering)
    ensures |Finalized(rows, next)| == |rows|
  {
    if rows != [] { FinalizedLength(rows[..|rows| - 1], next); }
  }

  /** Rows keep their place and everything but their finalized id, and a row that is not approved or
      is finalized already keeps that too. */
  lemma RowsStay(s: Store, k: nat, i: nat)
    requires i < |s.csv|
    ensures var csv := RunTo(s, k).csv;
      && |csv| == |s.csv|
      && csv[i] == s.csv[i].(finalizedId := csv[i].finalizedId)
      && (!s.csv[i].approved || s.csv[i].finalizedId != "" ==> csv[i] == s.csv[i])
  {
    FinalizedAt(s.csv, NumberingOf(s.files), i);
  }

  /** A completed run gives an approved row the next number of its type, counting the approved
      unfinalized rows of the type above it. */
  lemma RowIsNumbered(s: Store, k: nat, i: nat)
    requires (forall row :: row in s.csv ==> !Refuses(row)) && k > |NewTypes(s.csv)|
    requires i < |s.csv| && s.csv[i].approved && s.csv[i].finalizedId == ""
    ensures var t := s.csv[i].questionType;
            var n := MaxSeq(t, StoredIn(s, t)) + 1 + |Waiting(s.csv, t, i)|;
      |RunTo(s, k).csv| == |s.csv| && RunTo(s, k).csv[i].finalizedId == t.name + "-" + Pad(n, 3)
  {
    RefusedIsInvalid(s.csv);
    FinalizedAt(s.csv, NumberingOf(s.files), i);
    IdGiven(s, i);
  }

  lemma IdGiven(s: Store, i: nat)
    requires i < |s.csv| && s.csv[i].approved && s.csv[i].finalizedId == ""
    ensures var t := s.csv[i].questionType;
            var n := MaxSeq(t, StoredIn(s, t)) + 1 + |Waiting(s.csv, t, i)|;
      FinalizedRow(s.csv[..i], NumberingOf(s.files), s.csv[i]).finalizedId == t.name + "-" + Pad(n, 3)
  {
    WaitingAbove(s.csv, s.csv[i].questionType, i);
  }

  function StoredIn(s: Store, t: QuestionType): seq<string> {
    if t in s.files then s.files[t] else []
  }

  // ----- the files after a run

  /** The types that the rows above row i wait for. */
  function TypesAbove(rows: seq<Row>, i: nat): set<QuestionType> {
    set j | 0 <= j < i && j < |rows| && rows[j].approved && rows[j].finalizedId == "" :: rows[j].questionType
  }

  lemma {:induction false} NewTypesAbove(rows: seq<Row>)
    ensures Elements(NewTypes(rows)) == TypesAbove(rows, |rows|)
    ensures Distinct(NewTypes(rows))
  {
    if rows != [] {
      var front, last := rows[..|rows| - 1], rows[|rows| - 1];
      NewTypesAbove(front);
      NewTypesMeaning(rows);
      NewTypesNext(front, last);
      SplitLast(rows);
      TypesSnoc(front, last);
      AddOnce(NewTypes(front), last.questionType, last.IsPending());
    }
  }

  lemma AddOnce(types: seq<QuestionType>, t: QuestionType, add: bool)
    ensures Elements(if add && t !in types then types + [t] else types) == Elements(types) + (if add then {t} else {})
  {
  }

  lemma TypesSnoc(rows: seq<Row>, row: Row)
    ensures TypesAbove(rows + [row], |rows| + 1) == TypesAbove(rows, |rows|)
      + (if row.approved && row.finalizedId == "" then {row.questionType} else {})
  {
    var all := rows + [row];
    assert all[|rows|] == row;
    forall t | t in TypesAbove(rows, |rows|) ensures t in TypesAbove(all, |rows| + 1) {
      var j :| 0 <= j < |rows| && rows[j].approved && rows[j].finalizedId == "" && rows[j].questionType == t;
      assert all[j] == rows[j];
    }
  }

  lemma {:induction false} TakenExactly(rows: seq<Row>, k: nat, i: nat)
    requires i < |rows| && rows[i].approved && rows[i].finalizedId == ""
    requires rows[i].questionType !in TypesAbove(rows, i)
    ensures rows[i].questionType in Take(NewTypes(rows), k) <==> |TypesAbove(rows, i)| < k
    decreases |rows|
  {
    var front, last := rows[..|rows| - 1], rows[|rows| - 1];
    SplitLast(rows);
    NewTypesNext(front, last);
    NewTypesAbove(front);
    NewTypesAbove(rows);
    DistinctCardinality(NewTypes(front));
    if i < |front| {
      assert TypesAbove(front, i) == TypesAbove(rows, i);
      assert rows[i].questionType in TypesAbove(front, |front|) by { assert front[i] == rows[i]; }
      TakenExactly(front, k, i);
      TypesSnocTake(NewTypes(front), NewTypes(rows), rows[i].questionType, k);
    } else {
      assert TypesAbove(front, |front|) == TypesAbove(rows, i);
      LastTaken(NewTypes(front), rows[i].questionType, k);
    }
  }

  lemma TypesSnocTake(before: seq<QuestionType>, after: seq<QuestionType>, t: QuestionType, k: nat)
    requires before <= after && t in before && Distinct(after)
    ensures t in Take(before, k) <==> t in Take(after, k)
  {
    var p :| 0 <= p < |before| && before[p] == t;
    if p < k {
      assert Take(before, k)[p] == t && Take(after, k)[p] == t;
    } else {
      assert forall q :: 0 <= q < |Take(after, k)| ==> Take(after, k)[q] == after[q] && q != p;
      assert forall q :: 0 <= q < |Take(before, k)| ==> Take(before, k)[q] == after[q] && q != p;
    }
  }

  lemma LastTaken(before: seq<QuestionType>, t: QuestionType, k: nat)
    requires t !in before
    ensures t in Take(before + [t], k) <==> |before| < k
  {
    if |before| < k { assert Take(before + [t], k)[|before|] == t; }
  }

  /** Row i is the first approved unfinalized row of its type. */
  predicate IsFirstOf(rows: seq<Row>, i: nat, t: QuestionType) {
    && i < |rows| && rows[i].approved && rows[i].finalizedId == "" && rows[i].questionType == t
    && t !in TypesAbove(rows, i)
  }

  /** A run of a draft without refused rows, cut off after k effects, reaches the types of the first
      k approved unfinalized rows of different types, and no type that no row waits for. */
  lemma ReachedExactly(rows: seq<Row>, k: nat, i: nat, t: QuestionType)
    requires forall row :: row in rows ==> !Refuses(row)
    ensures IsFirstOf(rows, i, t) ==> (Reaches(rows, k, t) <==> |TypesAbove(rows, i)| < k)
    ensures Waiting(rows, t, |rows|) == {} ==> !Reaches(rows, k, t)
  {
    RefusedIsInvalid(rows);
    if IsFirstOf(rows, i, t) { TakenExactly(rows, k, i); }
    PendingIsWaiting(rows, t);
    ReachedIsPending(rows, k, t);
  }

  /** A file reached by a run is continued by one id per approved unfinalized row of its type. All
      other files stay as they were. */
  lemma FileGrows(s: Store, k: nat, t: QuestionType)
    ensures Reaches(s.csv, k, t) ==>
      StoredIn(RunTo(s, k), t) == Extended(t, StoredIn(s, t), |Waiting(s.csv, t, |s.csv|)|)
    ensures !Reaches(s.csv, k, t) ==> StoredIn(RunTo(s, k), t) == StoredIn(s, t)
  {
    if Reaches(s.csv, k, t) {
      ReachedAppends(s, k, t, |Waiting(s.csv, t, |s.csv|)|);
    } else {
      RunAppendsConsecutively(s, k, t);
    }
  }

  function Extended(t: QuestionType, before: seq<string>, count: nat): seq<string> {
    before + IdRange(t, MaxSeq(t, before) + 1, count)
  }

  /** Continuing a file: consecutive ids from the one after its highest, none in between. */
  lemma ExtendedContinues(t: QuestionType, before: seq<string>, count: nat)
    ensures Continues(t, before, Extended(t, before, count), MaxSeq(t, before) + 1, count)
  {
    RangeContinues(t, before, MaxSeq(t, before) + 1, count);
  }

  lemma ReachedAppends(s: Store, k: nat, t: QuestionType, count: nat)
    requires Reaches(s.csv, k, t) && count == |Waiting(s.csv, t, |s.csv|)|
    ensures StoredIn(RunTo(s, k), t) == Extended(t, StoredIn(s, t), count)
  {
    RunAppendsConsecutively(s, k, t);
    PendingIsWaiting(s.csv, t);
    NewIdsExtend(s, t);
  }

  lemma NewIdsExtend(s: Store, t: QuestionType)
    ensures FileAt(s.files, t) + NewIds(NumberingOf(s.files), t, PendingCount(s.csv, t))
      == Extended(t, FileAt(s.files, t), PendingCount(s.csv, t))
  {
    NewIdsAreNext(s.files, s.csv, t);
  }

  /** The file goes on with `count` ids of its type, numbered consecutively from `first`. */
  predicate Continues(t: QuestionType, before: seq<string>, after: seq<string>, first: nat, count: nat) {
    && before <= after && |after| == |before| + count
    && forall j :: |before| <= j < |after| ==> after[j] == t.name + "-" + Pad(first + j - |before|, 3)
  }

  lemma RangeContinues(t: QuestionType, before: seq<string>, first: nat, count: nat)
    ensures Continues(t, before, before + IdRange(t, first, count), first, count)
  {
    RangeAt(t, first, count);
  }

  // ----- the numbers that are read back

  /** The id is the type's name, a dash and three digits that make n. */
  predicate Reads(id: string, name: string, n: nat) {
    && |id| == |name| + 4 && id[..|name|] == name && id[|name|] == '-'
    && (forall i :: |name| < i < |id| ==> '0' <= id[i] <= '9')
    && n == 100 * Value(id[|name| + 1]) + 10 * Value(id[|name| + 2]) + Value(id[|name| + 3])
  }

  function Value(c: char): int { c as int - '0' as int }

  lemma RecognisedExactly(t: QuestionType, id: string, n: nat)
    ensures Recognise(t.name, id) == Some(n) <==> NamesType(t.name) && Reads(id, t.name, n)
  {
    forall c: char ensures TypeCharacter(c) <==> IsTypeChar(c) { TypeCharacters(c); }
    if IsTypeName(t.name) { RecognisedIfNamed(t, id, n); }
  }

  predicate NamesType(name: string) {
    name != "" && forall i :: 0 <= i < |name| ==> TypeCharacter(name[i])
  }

  lemma RecognisedIfNamed(t: QuestionType, id: string, n: nat)
    requires IsTypeName(t.name)
    ensures Recognise(t.name, id) == Some(n) <==> Reads(id, t.name, n)
  {
    if |id| == |t.name| + 4 && id[..|t.name|] == t.name && id[|t.name|] == '-' {
      var tail := id[|t.name| + 1..];
      assert forall i :: |t.name| < i < |id| ==> id[i] == tail[i - |t.name| - 1];
      assert AllDigits(tail) <==> forall i :: |t.name| < i < |id| ==> '0' <= id[i] <= '9';
      if AllDigits(tail) { ThreeDigitsRead(tail); }
    }
  }

  lemma ThreeDigitsRead(s: string)
    requires |s| == 3 && AllDigits(s)
    ensures ReadNat(s) == 100 * Value(s[0]) + 10 * Value(s[1]) + Value(s[2])
  {
    assert s[..2][..1][..0] == [];
    assert ReadNat(s[..2][..1]) == Value(s[0]);
    assert ReadNat(s[..2]) == 10 * Value(s[0]) + Value(s[1]);
  }

  /** The highest number of a file is that of one of its ids, or 0, and no id has a higher one. */
  lemma {:induction false} HighestExactly(t: QuestionType, ids: seq<string>)
    ensures NamesType(t.name) ==> forall id, n: nat :: id in ids && Reads(id, t.name, n) ==> n <= MaxSeq(t, ids)
    ensures MaxSeq(t, ids) == 0
      || (NamesType(t.name) && exists id :: id in ids && Reads(id, t.name, MaxSeq(t, ids)))
  {
    if ids != [] {
      var front, last := ids[..|ids| - 1], ids[|ids| - 1];
      SplitLast(ids);
      HighestExactly(t, front);
      if Recognise(t.name, last).Some? { RecognisedExactly(t, last, Recognise(t.name, last).value); }
      forall n: nat | NamesType(t.name) && Reads(last, t.name, n) ensures Recognise(t.name, last) == Some(n) {
        RecognisedExactly(t, last, n);
      }
    }
  }
}
