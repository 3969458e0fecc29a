/** What ends up in the handler's list, read off the events' own fields (`_NodeCostCallback` and
    `_NodeLatencyCollector` in scripts/eval_performance.py). */
module CallRecords {
  import opened Ordering
  import opened Outcomes
  import opened NodeCapture

  /** Event p is the first end of the call that event i starts. */
  predicate Ends(trace: seq<Event>, i: nat, p: nat) {
    && i < p < |trace| && trace[i].Start?
    && (trace[p].EndPop? || trace[p].Error?) && trace[p].run == trace[i].run
    && forall k :: i < k < p && (trace[k].EndPop? || trace[k].Error?) ==> trace[k].run != trace[i].run
  }

  /** Event q is the first append of the thread that popped at event p. */
  predicate Appends(trace: seq<Event>, p: nat, q: nat) {
    && p < q < |trace| && trace[p].EndPop? && trace[q].EndAppend? && trace[q].thread == trace[p].thread
    && forall k :: p < k < q && trace[k].EndAppend? ==> trace[k].thread != trace[p].thread
  }

  lemma {:induction false} EndFound(trace: seq<Event>, run: RunId, k: nat, p: nat)
    requires k <= p < |trace| && EndsRun(trace[p], run)
    requires forall j :: k <= j < p ==> !EndsRun(trace[j], run)
    ensures EndOf(trace, run, k) == p
    decreases p - k
  {
    if k < p { EndFound(trace, run, k + 1, p); }
  }

  lemma {:induction false} AppendFound(trace: seq<Event>, thread: ThreadId, k: nat, q: nat)
    requires k <= q < |trace| && AppendsFor(trace[q], thread)
    requires forall j :: k <= j < q ==> !AppendsFor(trace[j], thread)
    ensures AppendOf(trace, thread, k) == q
    decreases q - k
  {
    if k < q { AppendFound(trace, thread, k + 1, q); }
  }

  lemma {:induction false} PartIn<T>(part: nat -> seq<T>, n: nat, i: nat, x: T)
    requires i < n && x in part(i)
    ensures x in Concat(part, n)
  {
    if i < n - 1 { PartIn(part, n - 1, i, x); }
  }

  lemma FinishedIsRecorded(trace: seq<Event>, i: nat)
    requires Orderly(trace) && IsStart(trace, i) && FateOf(trace, i).Finished?
    ensures Record(trace[i].run, FateOf(trace, i).call) in Run(trace).records
  {
    var r := Record(trace[i].run, FateOf(trace, i).call);
    EveryInterleavingIsFaithful(trace);
    assert r in RecordAt(trace)(i);
    PartIn(RecordAt(trace), |trace|, i, r);
    SameMultisetSameElements(Run(trace).records, FinishedCalls(trace));
  }

  /** A call that ends normally is recorded with the node and model of its start, "unknown" where
      the start named no node, and with the usage of its own append. */
  lemma EndedCallIsRecorded(trace: seq<Event>, i: nat, p: nat, q: nat)
    requires Orderly(trace) && Ends(trace, i, p) && Appends(trace, p, q)
    ensures var node := match trace[i].node case Some(name) => name case None => "unknown";
      Record(trace[i].run, LlmCall(CallMeta(node, trace[i].model), trace[q].usage, false)) in Run(trace).records
  {
    EndFate(trace, i, p, q);
    FinishedIsRecorded(trace, i);
  }

  lemma EndFate(trace: seq<Event>, i: nat, p: nat, q: nat)
    requires Ends(trace, i, p) && Appends(trace, p, q)
    ensures FateOf(trace, i) == Finished(LlmCall(MetaAt(trace, i), trace[q].usage, false))
  {
    EndFound(trace, trace[i].run, i + 1, p);
    AppendFound(trace, trace[p].thread, p + 1, q);
  }

  /** A call that fails is recorded with the same attribution and no tokens. */
  lemma FailedCallIsRecorded(trace: seq<Event>, i: nat, p: nat)
    requires Orderly(trace) && Ends(trace, i, p) && trace[p].Error?
    ensures var node := match trace[i].node case Some(name) => name case None => "unknown";
      Record(trace[i].run, LlmCall(CallMeta(node, trace[i].model), Usage(0, 0, 0, 0), true)) in Run(trace).records
  {
    EndFound(trace, trace[i].run, i + 1, p);
    FinishedIsRecorded(trace, i);
  }

  /** Start i, end p and, unless the call failed, append q are the events the record comes from. */
  ghost predicate ComesFrom(trace: seq<Event>, r: Record, i: nat, p: nat) {
    && Ends(trace, i, p) && r.run == trace[i].run && r.call.meta.model == trace[i].model
    && r.call.meta.node == (match trace[i].node case Some(name) => name case None => "unknown")
    && r.call.failed == trace[p].Error?
    && (trace[p].EndPop? ==> exists q: nat :: Appends(trace, p, q) && r.call.usage == trace[q].usage)
  }

  /** No record comes from nowhere. */
  lemma RecordHasItsCall(trace: seq<Event>, r: Record)
    requires Orderly(trace) && r in Run(trace).records
    ensures exists i: nat, p: nat :: ComesFrom(trace, r, i, p)
  {
    EveryInterleavingIsFaithful(trace);
    SameMultisetSameElements(Run(trace).records, FinishedCalls(trace));
    var i := PartOf(RecordAt(trace), |trace|, r);
    FinishedHasItsEvents(trace, r, i);
  }

  lemma FinishedHasItsEvents(trace: seq<Event>, r: Record, i: nat)
    requires r in RecordOf(trace, i)
    ensures exists p: nat :: ComesFrom(trace, r, i, p)
  {
    var p := EndOf(trace, trace[i].run, i + 1);
    EndIsFirst(trace, trace[i].run, i + 1);
    assert Ends(trace, i, p);
    if trace[p].EndPop? {
      var q := AppendOf(trace, trace[p].thread, p + 1);
      AppendIsFirst(trace, trace[p].thread, p + 1);
      assert Appends(trace, p, q);
    }
    assert ComesFrom(trace, r, i, p);
  }

  lemma {:induction false} PartOf<T>(part: nat -> seq<T>, n: nat, x: T) returns (i: nat)
    requires x in Concat(part, n)
    ensures i < n && x in part(i)
  {
    if x in part(n - 1) { i := n - 1; } else { i := PartOf(part, n - 1, x); }
  }

  lemma {:induction false} EndIsFirst(trace: seq<Event>, run: RunId, k: nat)
    requires k <= |trace|
    ensures forall j :: k <= j < EndOf(trace, run, k) ==> !EndsRun(trace[j], run)
    decreases |trace| - k
  {
    if k < |trace| && !EndsRun(trace[k], run) { EndIsFirst(trace, run, k + 1); }
  }

  lemma {:induction false} AppendIsFirst(trace: seq<Event>, thread: ThreadId, k: nat)
    requires k <= |trace|
    ensures forall j :: k <= j < AppendOf(trace, thread, k) ==> !AppendsFor(trace[j], thread)
    decreases |trace| - k
  {
    if k < |trace| && !AppendsFor(trace[k], thread) { AppendIsFirst(trace, thread, k + 1); }
  }

  // ----- ends of nothing

  lemma {:induction false} OnlyStartedIsPending(trace: seq<Event>, run: RunId)
    requires forall i :: 0 <= i < |trace| && trace[i].Start? ==> trace[i].run != run
    ensures run !in Run(trace).pending
  {
    if trace != [] { OnlyStartedIsPending(trace[..|trace| - 1], run); }
  }

  /** The end of a call that was never started is recorded without a node or model. */
  lemma UnstartedEndIsUnknown(trace: seq<Event>, run: RunId, thread: ThreadId, usage: Usage)
    requires forall i :: 0 <= i < |trace| && trace[i].Start? ==> trace[i].run != run
    ensures Run(trace + [EndPop(run, thread)] + [EndAppend(run, thread, usage)]).records
      == Run(trace).records + [Record(run, LlmCall(CallMeta("unknown", None), usage, false))]
  {
    OnlyStartedIsPending(trace, run);
    Appended(trace, EndPop(run, thread));
    Appended(trace + [EndPop(run, thread)], EndAppend(run, thread, usage));
    EndOfNothing(Run(trace), run, thread, usage);
  }

  lemma EndOfNothing(s: State, run: RunId, thread: ThreadId, usage: Usage)
    requires run !in s.pending
    ensures Step(Step(s, EndPop(run, thread)), EndAppend(run, thread, usage)).records
      == s.records + [Record(run, LlmCall(CallMeta("unknown", None), usage, false))]
  {
  }

  /** So is its failure. */
  lemma UnstartedErrorIsUnknown(trace: seq<Event>, run: RunId)
    requires forall i :: 0 <= i < |trace| && trace[i].Start? ==> trace[i].run != run
    ensures Run(trace + [Error(run)]).records
      == Run(trace).records + [Record(run, LlmCall(CallMeta("unknown", None), Usage(0, 0, 0, 0), true))]
  {
    OnlyStartedIsPending(trace, run);
    Appended(trace, Error(run));
    ErrorOfNothing(Run(trace), run);
  }

  lemma ErrorOfNothing(s: State, run: RunId)
    requires run !in s.pending
    ensures Step(s, Error(run)).records
      == s.records + [Record(run, LlmCall(CallMeta("unknown", None), Usage(0, 0, 0, 0), true))]
  {
  }

  // ----- log lines

  /** The line says that the node took so long in this run. */
  predicate Reports(record: LogRecord, run: string, x: Sample) {
    && record.message == (if x.failed then "node.failed" else "node.completed")
    && record.node == Some(x.node) && record.durationMs == Some(x.durationMs)
    && run == (match record.correlationId case Some(id) => id case None => "-")
  }

  predicate ReportedAt(accesses: seq<Access>, run: string, x: Sample, i: int) {
    0 <= i < |accesses| && accesses[i].Emit? && Reports(accesses[i].record, run, x)
  }

  /** A run's samples are exactly what its node lines report; all other lines are ignored. */
  lemma {:induction false} EmittedExactly(accesses: seq<Access>, run: string, x: Sample)
    ensures x in Emitted(accesses, run) <==> exists i :: ReportedAt(accesses, run, x, i)
  {
    if accesses != [] {
      var front, last := accesses[..|accesses| - 1], accesses[|accesses| - 1];
      EmittedExactly(front, run, x);
      LineCounts(last, run, x);
      ReportedSnoc(front, last, run, x);
      SplitLast(accesses);
    }
  }

  lemma ReportedSnoc(accesses: seq<Access>, a: Access, run: string, x: Sample)
    ensures (exists i :: ReportedAt(accesses + [a], run, x, i)) <==>
      (exists i :: ReportedAt(accesses, run, x, i)) || (a.Emit? && Reports(a.record, run, x))
  {
    if i :| ReportedAt(accesses, run, x, i) { assert ReportedAt(accesses + [a], run, x, i); }
    if i :| ReportedAt(accesses + [a], run, x, i) {
      if i < |accesses| { assert ReportedAt(accesses, run, x, i); }
    }
    if a.Emit? && Reports(a.record, run, x) { assert ReportedAt(accesses + [a], run, x, |accesses|); }
  }

  lemma LineCounts(a: Access, run: string, x: Sample)
    ensures x in SampleFor(a, run) <==> a.Emit? && Reports(a.record, run, x)
    ensures |SampleFor(a, run)| <= 1
  {
  }
}
