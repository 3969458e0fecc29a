/** Attributing model calls and node times while graph branches run in parallel
    (`_NodeCostCallback` and `_NodeLatencyCollector` in scripts/eval_performance.py).

    Each critical section is one atomic step. Finishing a call takes two of them,
    so the machine below keeps what each thread popped but has not recorded yet,
    and a trace is any interleaving of the steps of all threads. */
module NodeCapture {
  import opened Ordering
  import opened Outcomes

  type RunId = nat
  type ThreadId = nat

  datatype CallMeta = CallMeta(node: string, model: Option<string>)

  const UNKNOWN := CallMeta("unknown", None)

  datatype Usage = Usage(input: int, output: int, reasoning: int, cacheRead: int)

  const NO_USAGE := Usage(0, 0, 0, 0)

  datatype LlmCall = LlmCall(meta: CallMeta, usage: Usage, failed: bool)

  function MetaOf(node: Option<string>, model: Option<string>): CallMeta {
    CallMeta(if node.Some? then node.value else "unknown", model)
  }

  // ----- the machine

  datatype Event =
    | Start(run: RunId, node: Option<string>, model: Option<string>)
    | EndPop(run: RunId, thread: ThreadId)
    | EndAppend(run: RunId, thread: ThreadId, usage: Usage)
    | Error(run: RunId)

  /** What a thread inside `on_llm_end` has in its local variables. */
  datatype Local = Local(run: RunId, meta: CallMeta)

  /** A recorded call and the run it is for; the handler's list holds the call alone. */
  datatype Record = Record(run: RunId, call: LlmCall)

  datatype State = State(pending: map<RunId, CallMeta>, popped: map<ThreadId, Local>, records: seq<Record>)

  const EMPTY := State(map[], map[], [])

  function Lookup(m: map<RunId, CallMeta>, run: RunId): CallMeta {
    if run in m then m[run] else UNKNOWN
  }

  function Step(s: State, e: Event): State {
    match e
    case Start(run, node, model) => s.(pending := s.pending[run := MetaOf(node, model)])
    case EndPop(run, thread) =>
      s.(pending := s.pending - {run}, popped := s.popped[thread := Local(run, Lookup(s.pending, run))])
    case EndAppend(_, thread, usage) =>
      if thread in s.popped
      then
        var own := s.popped[thread];
        s.(popped := s.popped - {thread}, records := s.records + [Record(own.run, LlmCall(own.meta, usage, false))])
      else s
    case Error(run) =>
      var call := LlmCall(Lookup(s.pending, run), NO_USAGE, true);
      s.(pending := s.pending - {run}, records := s.records + [Record(run, call)])
  }

  function Run(trace: seq<Event>): State {
    if trace == [] then EMPTY else Step(Run(trace[..|trace| - 1]), trace[|trace| - 1])
  }

  function CallOf(): Record -> LlmCall {
    (r: Record) => r.call
  }

  function Calls(s: State): seq<LlmCall> {
    Map(s.records, CallOf())
  }

  // ----- the imperative handler refines the machine

  class NodeCostCallback {
    var pending: map<RunId, CallMeta>
    var calls: seq<LlmCall>

    constructor ()
      ensures pending == map[] && calls == []
    {
      pending, calls := map[], [];
    }

    method OnChatModelStart(run: RunId, node: Option<string>, model: Option<string>)
      modifies this
      ensures pending == old(pending)[run := MetaOf(node, model)] && calls == old(calls)
    {
      pending := pending[run := MetaOf(node, model)];
    }

    /** First critical section of `on_llm_end`. */
    method PopPending(run: RunId) returns (meta: CallMeta)
      modifies this
      ensures meta == Lookup(old(pending), run)
      ensures pending == old(pending) - {run} && calls == old(calls)
    {
      meta := Lookup(pending, run);
      pending := pending - {run};
    }

    /** Second critical section of `on_llm_end`. */
    method AppendCall(meta: CallMeta, usage: Usage)
      modifies this
      ensures pending == old(pending) && calls == old(calls) + [LlmCall(meta, usage, false)]
    {
      calls := calls + [LlmCall(meta, usage, false)];
    }

    method OnLlmError(run: RunId)
      modifies this
      ensures pending == old(pending) - {run}
      ensures calls == old(calls) + [LlmCall(Lookup(old(pending), run), NO_USAGE, true)]
    {
      var meta := Lookup(pending, run);
      pending := pending - {run};
      calls := calls + [LlmCall(meta, NO_USAGE, true)];
    }
  }

  /** Performing the steps of any interleaving on the handler ends in the machine's state. */
  method Perform(trace: seq<Event>) returns (handler: NodeCostCallback, locals: map<ThreadId, Local>)
    ensures fresh(handler)
    ensures var s := Run(trace);
      handler.pending == s.pending && locals == s.popped && handler.calls == Calls(s)
  {
    handler := new NodeCostCallback();
    locals := map[];
    for i := 0 to |trace|
      invariant fresh(handler)
      invariant handler.pending == Run(trace[..i]).pending && locals == Run(trace[..i]).popped
      invariant handler.calls == Calls(Run(trace[..i]))
    {
      assert trace[..i + 1][..i] == trace[..i];
      match trace[i] {
        case Start(run, node, model) =>
          handler.OnChatModelStart(run, node, model);
        case EndPop(run, thread) =>
          var meta := handler.PopPending(run);
          locals := locals[thread := Local(run, meta)];
        case EndAppend(_, thread, usage) =>
          if thread in locals {
            CallsSnoc(Run(trace[..i]).records, Record(locals[thread].run, LlmCall(locals[thread].meta, usage, false)));
            handler.AppendCall(locals[thread].meta, usage);
            locals := locals - {thread};
          }
        case Error(run) =>
          CallsSnoc(Run(trace[..i]).records, Record(run, LlmCall(Lookup(handler.pending, run), NO_USAGE, true)));
          handler.OnLlmError(run);
      }
    }
    assert trace[..|trace|] == trace;
  }

  lemma CallsSnoc(records: seq<Record>, r: Record)
    ensures Map(records + [r], CallOf()) == Map(records, CallOf()) + [r.call]
  {
    MapSnoc(records, r, CallOf());
  }

  // ----- disciplined traces

  /** A thread inside `on_llm_end` finishes it, for the same run, before it ends another call. */
  predicate ThreadFits(s: State, e: Event) {
    && (e.EndPop? ==> e.thread !in s.popped)
    && (e.EndAppend? ==> e.thread in s.popped && s.popped[e.thread].run == e.run)
  }

  /** The call that ends has been started. */
  predicate EndFits(s: State, e: Event) {
    e.EndPop? || e.Error? ==> e.run in s.pending
  }

  /** The run id is not still pending when it starts. */
  predicate StartFits(s: State, e: Event) {
    e.Start? ==> e.run !in s.pending
  }

  /** Threads run one callback at a time. */
  predicate Sequential(trace: seq<Event>) {
    trace == [] || (Sequential(trace[..|trace| - 1]) && ThreadFits(Run(trace[..|trace| - 1]), trace[|trace| - 1]))
  }

  /** No call ends before it has started. */
  predicate EndsFit(trace: seq<Event>) {
    trace == [] || (EndsFit(trace[..|trace| - 1]) && EndFits(Run(trace[..|trace| - 1]), trace[|trace| - 1]))
  }

  /** No run id is started again while it is pending. It may be reused later. */
  predicate StartsFit(trace: seq<Event>) {
    trace == [] || (StartsFit(trace[..|trace| - 1]) && StartFits(Run(trace[..|trace| - 1]), trace[|trace| - 1]))
  }

  predicate Orderly(trace: seq<Event>) {
    Sequential(trace) && EndsFit(trace) && StartsFit(trace)
  }

  // ----- conservation

  function Starts(trace: seq<Event>): nat {
    if trace == [] then 0 else Starts(trace[..|trace| - 1]) + (if trace[|trace| - 1].Start? then 1 else 0)
  }

  /** Starts that replaced a pending entry. */
  function Overwrites(trace: seq<Event>): nat {
    if trace == [] then 0
    else Overwrites(trace[..|trace| - 1]) + (if StartFits(Run(trace[..|trace| - 1]), trace[|trace| - 1]) then 0 else 1)
  }

  /** Ends that found nothing pending and record an unknown call. */
  function Orphans(trace: seq<Event>): nat {
    if trace == [] then 0
    else Orphans(trace[..|trace| - 1]) + (if EndFits(Run(trace[..|trace| - 1]), trace[|trace| - 1]) then 0 else 1)
  }

  /** The books balance at every point of every interleaving: what was started, plus the ends of
      nothing, is pending, held by a thread or recorded, except what a start overwrote. */
  lemma {:induction false} CallsBalance(trace: seq<Event>)
    requires Sequential(trace)
    ensures var s := Run(trace);
      Starts(trace) + Orphans(trace) == |s.pending| + |s.popped| + |s.records| + Overwrites(trace)
  {
    if trace != [] {
      CallsBalance(trace[..|trace| - 1]);
      StepBalance(Run(trace[..|trace| - 1]), trace[|trace| - 1]);
    }
  }

  function Size(s: State): nat { |s.pending| + |s.popped| + |s.records| }

  lemma StepBalance(s: State, e: Event)
    requires ThreadFits(s, e)
    ensures Size(Step(s, e)) + (if StartFits(s, e) then 0 else 1)
      == Size(s) + (if e.Start? then 1 else 0) + (if EndFits(s, e) then 0 else 1)
  {
    match e
    case Start(run, node, model) => PutSize(s.pending, run, MetaOf(node, model));
    case EndPop(run, thread) => PopBalance(s, run, thread);
    case EndAppend(_, thread, _) => RemoveSize(s.popped, thread);
    case Error(run) => RemoveSize(s.pending, run);
  }

  lemma PopBalance(s: State, run: RunId, thread: ThreadId)
    requires thread !in s.popped
    ensures Size(Step(s, EndPop(run, thread))) == Size(s) + (if run in s.pending then 0 else 1)
  {
    var next := Step(s, EndPop(run, thread));
    RemoveSize(s.pending, run);
    PutSize(s.popped, thread, Local(run, Lookup(s.pending, run)));
    assert next.records == s.records;
    assert |next.pending| == |s.pending - {run}|;
    assert |next.popped| == |s.popped| + 1;
  }

  lemma PutSize<K, V>(m: map<K, V>, k: K, v: V)
    ensures |m[k := v]| == |m| + (if k in m then 0 else 1)
  {
    assert m[k := v].Keys == m.Keys + {k};
    assert |m[k := v]| == |m[k := v].Keys| && |m| == |m.Keys|;
  }

  lemma RemoveSize<K, V>(m: map<K, V>, k: K)
    ensures |m - {k}| == |m| - (if k in m then 1 else 0)
  {
    assert (m - {k}).Keys == m.Keys - {k};
    assert |m - {k}| == |(m - {k}).Keys| && |m| == |m.Keys|;
  }

  lemma {:induction false} CountsAreDefects(trace: seq<Event>)
    ensures EndsFit(trace) <==> Orphans(trace) == 0
    ensures StartsFit(trace) <==> Overwrites(trace) == 0
  {
    if trace != [] { CountsAreDefects(trace[..|trace| - 1]); }
  }

  /** Exactly when no call is lost: where every end finds its call, all started calls are pending,
      held or recorded if and only if no run id was started again while still pending. */
  lemma NoCallLostExactly(trace: seq<Event>)
    requires Sequential(trace) && EndsFit(trace)
    ensures var s := Run(trace);
      Starts(trace) == |s.pending| + |s.popped| + |s.records| <==> StartsFit(trace)
  {
    CallsBalance(trace);
    CountsAreDefects(trace);
  }

  // ----- what becomes of a started call

  predicate IsStart(trace: seq<Event>, i: nat) {
    i < |trace| && trace[i].Start?
  }

  predicate EndsRun(e: Event, run: RunId) {
    (e.EndPop? || e.Error?) && e.run == run
  }

  predicate AppendsFor(e: Event, thread: ThreadId) {
    e.EndAppend? && e.thread == thread
  }

  /** The first end of the run from place k on, or the length of the trace. */
  function EndOf(trace: seq<Event>, run: RunId, k: nat): (p: nat)
    requires k <= |trace|
    ensures k <= p <= |trace| && (p < |trace| ==> EndsRun(trace[p], run))
    decreases |trace| - k
  {
    if k == |trace| || EndsRun(trace[k], run) then k else EndOf(trace, run, k + 1)
  }

  /** The first append of the thread from place k on, or the length of the trace. */
  function AppendOf(trace: seq<Event>, thread: ThreadId, k: nat): (p: nat)
    requires k <= |trace|
    ensures k <= p <= |trace| && (p < |trace| ==> AppendsFor(trace[p], thread))
    decreases |trace| - k
  {
    if k == |trace| || AppendsFor(trace[k], thread) then k else AppendOf(trace, thread, k + 1)
  }

  datatype Fate = StillOpen | Taken(thread: ThreadId) | Finished(call: LlmCall)

  function MetaAt(trace: seq<Event>, i: nat): CallMeta
    requires IsStart(trace, i)
  {
    MetaOf(trace[i].node, trace[i].model)
  }

  /** Read off the trace alone: the next end of its run ends a call, and the next append of the
      thread that popped it records it. */
  function FateOf(trace: seq<Event>, i: nat): Fate
    requires IsStart(trace, i)
  {
    var p := EndOf(trace, trace[i].run, i + 1);
    if p == |trace| then StillOpen
    else if trace[p].Error? then Finished(LlmCall(MetaAt(trace, i), NO_USAGE, true))
    else
      var q := AppendOf(trace, trace[p].thread, p + 1);
      if q == |trace| then Taken(trace[p].thread)
      else Finished(LlmCall(MetaAt(trace, i), trace[q].usage, false))
  }

  /** How one more event changes the fate of a call. */
  function NextFate(fate: Fate, run: RunId, meta: CallMeta, e: Event): Fate {
    match fate
    case StillOpen =>
      if e.EndPop? && e.run == run then Taken(e.thread)
      else if e.Error? && e.run == run then Finished(LlmCall(meta, NO_USAGE, true))
      else StillOpen
    case Taken(thread) => if AppendsFor(e, thread) then Finished(LlmCall(meta, e.usage, false)) else fate
    case Finished(_) => fate
  }

  lemma {:induction false} EndOfSnoc(trace: seq<Event>, e: Event, run: RunId, k: nat)
    requires k <= |trace|
    ensures var p := EndOf(trace, run, k);
      EndOf(trace + [e], run, k) == if p < |trace| || EndsRun(e, run) then p else |trace| + 1
    decreases |trace| - k
  {
    if k < |trace| && !EndsRun(trace[k], run) { EndOfSnoc(trace, e, run, k + 1); }
  }

  lemma {:induction false} AppendOfSnoc(trace: seq<Event>, e: Event, thread: ThreadId, k: nat)
    requires k <= |trace|
    ensures var p := AppendOf(trace, thread, k);
      AppendOf(trace + [e], thread, k) == if p < |trace| || AppendsFor(e, thread) then p else |trace| + 1
    decreases |trace| - k
  {
    if k < |trace| && !AppendsFor(trace[k], thread) { AppendOfSnoc(trace, e, thread, k + 1); }
  }

  lemma FateSnoc(trace: seq<Event>, e: Event, i: nat)
    requires IsStart(trace, i)
    ensures IsStart(trace + [e], i) && MetaAt(trace + [e], i) == MetaAt(trace, i)
    ensures FateOf(trace + [e], i) == NextFate(FateOf(trace, i), trace[i].run, MetaAt(trace, i), e)
  {
    var next := trace + [e];
    var p := EndOf(trace, trace[i].run, i + 1);
    EndOfSnoc(trace, e, trace[i].run, i + 1);
    if p < |trace| {
      assert next[p] == trace[p];
      if trace[p].EndPop? { AppendOfSnoc(trace, e, trace[p].thread, p + 1); }
    } else if EndsRun(e, trace[i].run) {
      assert next[p] == e;
    }
  }

  lemma NewFate(trace: seq<Event>, e: Event)
    requires e.Start?
    ensures IsStart(trace + [e], |trace|) && FateOf(trace + [e], |trace|) == StillOpen
    ensures MetaAt(trace + [e], |trace|) == MetaOf(e.node, e.model)
  {
  }

  // ----- every interleaving keeps calls apart

  /** An open call is pending and a taken one is in its thread's hands, with its own meta. */
  predicate Placed(trace: seq<Event>, s: State, i: nat)
    requires IsStart(trace, i)
  {
    var run, meta := trace[i].run, MetaAt(trace, i);
    match FateOf(trace, i)
    case StillOpen => run in s.pending && s.pending[run] == meta
    case Taken(thread) => thread in s.popped && s.popped[thread] == Local(run, meta)
    case Finished(_) => true
  }

  predicate OpenFor(trace: seq<Event>, i: nat, run: RunId) {
    IsStart(trace, i) && trace[i].run == run && FateOf(trace, i).StillOpen?
  }

  predicate TakenBy(trace: seq<Event>, i: nat, thread: ThreadId) {
    IsStart(trace, i) && FateOf(trace, i) == Taken(thread)
  }

  /** The shared state holds exactly the unfinished calls, one place each. */
  ghost predicate Faithful(trace: seq<Event>, s: State) {
    && (forall i: nat :: IsStart(trace, i) ==> Placed(trace, s, i))
    && (forall run :: run in s.pending ==> exists i: nat :: OpenFor(trace, i, run))
    && (forall thread :: thread in s.popped ==> exists i: nat :: TakenBy(trace, i, thread))
    && (forall i: nat, j: nat, run :: OpenFor(trace, i, run) && OpenFor(trace, j, run) ==> i == j)
    && (forall i: nat, j: nat, thread :: TakenBy(trace, i, thread) && TakenBy(trace, j, thread) ==> i == j)
  }

  function Concat<T>(part: nat -> seq<T>, n: nat): seq<T> {
    if n == 0 then [] else Concat(part, n - 1) + part(n - 1)
  }

  /** The records of the finished calls, in the order the calls started. */
  function FinishedCalls(trace: seq<Event>): seq<Record> {
    Concat(RecordAt(trace), |trace|)
  }

  function RecordAt(trace: seq<Event>): nat -> seq<Record> {
    (i: nat) => RecordOf(trace, i)
  }

  function RecordOf(trace: seq<Event>, i: nat): seq<Record> {
    if IsStart(trace, i) && FateOf(trace, i).Finished? then [Record(trace[i].run, FateOf(trace, i).call)] else []
  }

  /** In every orderly interleaving the pending and popped entries are exactly the unfinished
      calls, and the list holds exactly the finished ones, each with what its own start declared
      and what its own end reported. */
  lemma {:induction false} EveryInterleavingIsFaithful(trace: seq<Event>)
    requires Orderly(trace)
    ensures Faithful(trace, Run(trace))
    ensures multiset(Run(trace).records) == multiset(FinishedCalls(trace))
  {
    if trace != [] {
      var front, last := trace[..|trace| - 1], trace[|trace| - 1];
      EveryInterleavingIsFaithful(front);
      SplitLast(trace);
      StepIsFaithful(front, last, Run(front));
      StepRecords(front, last, Run(front));
    }
  }

  predicate EventFits(s: State, e: Event) {
    ThreadFits(s, e) && EndFits(s, e) && StartFits(s, e)
  }

  lemma StepIsFaithful(trace: seq<Event>, e: Event, s: State)
    requires Faithful(trace, s) && EventFits(s, e)
    ensures Faithful(trace + [e], Step(s, e))
  {
    var next, t := trace + [e], Step(s, e);
    forall i: nat | IsStart(next, i) ensures Placed(next, t, i) {
      if i < |trace| { FateSnoc(trace, e, i); PlacedNext(trace, e, s, i); } else { NewFate(trace, e); }
    }
    forall run | run in t.pending ensures exists i: nat :: OpenFor(next, i, run) { PendingNext(trace, e, s, run); }
    forall thread | thread in t.popped ensures exists i: nat :: TakenBy(next, i, thread) {
      PoppedNext(trace, e, s, thread);
    }
    forall i: nat, j: nat, run | OpenFor(next, i, run) && OpenFor(next, j, run) ensures i == j {
      OpenBefore(trace, e, s, i, run);
      OpenBefore(trace, e, s, j, run);
    }
    forall i: nat, j: nat, thread | TakenBy(next, i, thread) && TakenBy(next, j, thread) ensures i == j {
      TakenBefore(trace, e, s, i, thread);
      TakenBefore(trace, e, s, j, thread);
    }
  }

  lemma PlacedNext(trace: seq<Event>, e: Event, s: State, i: nat)
    requires Faithful(trace, s) && EventFits(s, e) && IsStart(trace, i)
    ensures Placed(trace + [e], Step(s, e), i)
  {
    FateSnoc(trace, e, i);
    assert Placed(trace, s, i);
    if e.EndPop? && e.run == trace[i].run && FateOf(trace, i).StillOpen? { assert OpenFor(trace, i, e.run); }
    if e.EndAppend? && FateOf(trace, i).Taken? { assert TakenBy(trace, i, FateOf(trace, i).thread); }
  }

  lemma PendingNext(trace: seq<Event>, e: Event, s: State, run: RunId)
    requires Faithful(trace, s) && EventFits(s, e) && run in Step(s, e).pending
    ensures exists i: nat :: OpenFor(trace + [e], i, run)
  {
    if e.Start? && e.run == run {
      NewFate(trace, e);
      assert OpenFor(trace + [e], |trace|, run);
    } else {
      assert run in s.pending;
      var i: nat :| OpenFor(trace, i, run);
      FateSnoc(trace, e, i);
      assert OpenFor(trace + [e], i, run);
    }
  }

  lemma PoppedNext(trace: seq<Event>, e: Event, s: State, thread: ThreadId)
    requires Faithful(trace, s) && EventFits(s, e) && thread in Step(s, e).popped
    ensures exists i: nat :: TakenBy(trace + [e], i, thread)
  {
    if e.EndPop? && e.thread == thread {
      var i: nat :| OpenFor(trace, i, e.run);
      FateSnoc(trace, e, i);
      assert TakenBy(trace + [e], i, thread);
    } else {
      var i: nat :| TakenBy(trace, i, thread);
      FateSnoc(trace, e, i);
      assert TakenBy(trace + [e], i, thread);
    }
  }

  /** A call that is open after the event was open before, unless the event started it. */
  lemma OpenBefore(trace: seq<Event>, e: Event, s: State, i: nat, run: RunId)
    requires Faithful(trace, s) && EventFits(s, e) && OpenFor(trace + [e], i, run)
    ensures OpenFor(trace, i, run) || (i == |trace| && e.Start? && e.run == run)
    ensures OpenFor(trace, i, run) ==> !(e.Start? && e.run == run)
  {
    if i < |trace| {
      FateSnoc(trace, e, i);
      assert Placed(trace, s, i);
    }
  }

  /** A call that is taken after the event was taken before, unless the event took it. */
  lemma TakenBefore(trace: seq<Event>, e: Event, s: State, i: nat, thread: ThreadId)
    requires Faithful(trace, s) && EventFits(s, e) && TakenBy(trace + [e], i, thread)
    ensures e.EndPop? && e.thread == thread ==> OpenFor(trace, i, e.run)
    ensures !(e.EndPop? && e.thread == thread) ==> TakenBy(trace, i, thread)
  {
    if i < |trace| {
      FateSnoc(trace, e, i);
      assert Placed(trace, s, i);
    } else {
      NewFate(trace, e);
    }
  }

  // ----- the records are the finished calls

  /** The call an event finishes. */
  predicate Finishes(trace: seq<Event>, e: Event, i: nat) {
    (e.Error? && OpenFor(trace, i, e.run)) || (e.EndAppend? && TakenBy(trace, i, e.thread))
  }

  lemma StepRecords(trace: seq<Event>, e: Event, s: State)
    requires Faithful(trace, s) && EventFits(s, e)
    requires multiset(s.records) == multiset(FinishedCalls(trace))
    ensures multiset(Step(s, e).records) == multiset(FinishedCalls(trace + [e]))
  {
    NewEventRecords(trace, e);
    var before, after := RecordAt(trace), RecordAt(trace + [e]);
    if e.Error? || e.EndAppend? {
      var i := FinishedBy(trace, e, s);
      forall k: nat | k < |trace| && k != i ensures after(k) == before(k) {
        if Finishes(trace, e, k) { FinishesOne(trace, e, s, i, k); }
        OtherRecord(trace, e, k);
      }
      AddedRecord(trace, e, s, i);
      ConcatPlus(before, after, i, |trace|);
    } else {
      forall k: nat | k < |trace| ensures after(k) == before(k) { OtherRecord(trace, e, k); }
      ConcatSame(before, after, |trace|);
    }
  }

  lemma NewEventRecords(trace: seq<Event>, e: Event)
    ensures FinishedCalls(trace + [e]) == Concat(RecordAt(trace + [e]), |trace|)
  {
    NoRecordYet(trace, e);
    ConcatNothing(RecordAt(trace + [e]), |trace|);
  }

  lemma NoRecordYet(trace: seq<Event>, e: Event)
    ensures RecordOf(trace + [e], |trace|) == []
  {
    if e.Start? { NewFate(trace, e); }
  }

  lemma ConcatNothing<T>(part: nat -> seq<T>, n: nat)
    requires part(n) == []
    ensures Concat(part, n + 1) == Concat(part, n)
  {
  }

  lemma {:induction false} ConcatSame<T>(f: nat -> seq<T>, g: nat -> seq<T>, n: nat)
    requires forall k: nat :: k < n ==> f(k) == g(k)
    ensures Concat(f, n) == Concat(g, n)
  {
    if n > 0 { ConcatSame(f, g, n - 1); }
  }

  lemma {:induction false} ConcatPlus<T>(f: nat -> seq<T>, g: nat -> seq<T>, i: nat, n: nat)
    requires i < n && f(i) == [] && forall k: nat :: k < n && k != i ==> f(k) == g(k)
    ensures multiset(Concat(g, n)) == multiset(Concat(f, n)) + multiset(g(i))
  {
    if i == n - 1 { ConcatSame(f, g, n - 1); } else { ConcatPlus(f, g, i, n - 1); }
  }

  lemma AddedRecord(trace: seq<Event>, e: Event, s: State, i: nat)
    requires Faithful(trace, s) && EventFits(s, e) && Finishes(trace, e, i)
    ensures RecordOf(trace, i) == []
    ensures Step(s, e).records == s.records + RecordOf(trace + [e], i)
  {
    FateSnoc(trace, e, i);
    assert Placed(trace, s, i);
  }

  lemma FinishedBy(trace: seq<Event>, e: Event, s: State) returns (i: nat)
    requires Faithful(trace, s) && EventFits(s, e) && (e.Error? || e.EndAppend?)
    ensures IsStart(trace, i) && Finishes(trace, e, i)
  {
    if e.Error? { i :| OpenFor(trace, i, e.run); } else { i :| TakenBy(trace, i, e.thread); }
  }

  lemma FinishesOne(trace: seq<Event>, e: Event, s: State, i: nat, k: nat)
    requires Faithful(trace, s) && Finishes(trace, e, i) && Finishes(trace, e, k)
    ensures i == k
  {
  }

  /** Events leave the record of every call alone but the one they finish. */
  lemma OtherRecord(trace: seq<Event>, e: Event, k: nat)
    requires k < |trace| && !Finishes(trace, e, k)
    ensures RecordOf(trace + [e], k) == RecordOf(trace, k)
  {
    if IsStart(trace, k) { FateSnoc(trace, e, k); }
  }

  // ----- order does not matter

  /** The steps of one run, in order. */
  function StepsOf(trace: seq<Event>, run: RunId): seq<Event> {
    if trace == [] then []
    else if trace[|trace| - 1].run == run then StepsOf(trace[..|trace| - 1], run) + [trace[|trace| - 1]]
    else StepsOf(trace[..|trace| - 1], run)
  }

  function IsFor(run: RunId): Record -> bool {
    (r: Record) => r.run == run
  }

  predicate HeldFor(popped: map<ThreadId, Local>, thread: ThreadId, run: RunId) {
    thread in popped && popped[thread].run == run
  }

  /** What `s` holds for the run is all that `own` holds. */
  ghost predicate Projects(s: State, own: State, run: RunId) {
    && (run in s.pending <==> run in own.pending) && (run in s.pending ==> s.pending[run] == own.pending[run])
    && (forall thread :: HeldFor(s.popped, thread, run) <==> thread in own.popped)
    && (forall thread :: thread in own.popped ==> s.popped[thread] == own.popped[thread])
    && Filter(s.records, IsFor(run)) == own.records
  }

  /** A run's part of the shared state is what its own steps alone would leave, reused ids,
      overwrites and unstarted ends included. */
  lemma {:induction false} RunsDoNotInterfere(trace: seq<Event>, run: RunId)
    requires Sequential(trace)
    ensures Projects(Run(trace), Run(StepsOf(trace, run)), run)
  {
    if trace != [] {
      var front, last := trace[..|trace| - 1], trace[|trace| - 1];
      RunsDoNotInterfere(front, run);
      if last.run == run {
        Appended(StepsOf(front, run), last);
        OwnStep(Run(front), Run(StepsOf(front, run)), last);
      } else {
        OtherStep(Run(front), Run(StepsOf(front, run)), last, run);
      }
    }
  }

  lemma OwnStep(s: State, own: State, e: Event)
    requires ThreadFits(s, e) && Projects(s, own, e.run)
    ensures Projects(Step(s, e), Step(own, e), e.run)
  {
    if e.EndAppend? { assert HeldFor(s.popped, e.thread, e.run); }
    if e.EndAppend? || e.Error? {
      FilterSnoc(s.records, Step(s, e).records[|s.records|], IsFor(e.run));
    }
  }

  lemma OtherStep(s: State, own: State, e: Event, run: RunId)
    requires ThreadFits(s, e) && Projects(s, own, run) && e.run != run
    ensures Projects(Step(s, e), own, run)
  {
    if e.EndPop? { assert !HeldFor(s.popped, e.thread, run); }
    if e.EndAppend? || e.Error? {
      FilterSnoc(s.records, Step(s, e).records[|s.records|], IsFor(run));
    }
  }

  /** Interleavings of the same calls: each run takes the same steps in both. */
  ghost predicate SameCalls(a: seq<Event>, b: seq<Event>) {
    forall run :: StepsOf(a, run) == StepsOf(b, run)
  }

  /** Two interleavings of the same calls end with the same pending and popped calls and the
      same records up to order. */
  lemma InterleavingsAgree(a: seq<Event>, b: seq<Event>)
    requires Sequential(a) && Sequential(b) && SameCalls(a, b)
    ensures Run(a).pending == Run(b).pending && Run(a).popped == Run(b).popped
    ensures multiset(Run(a).records) == multiset(Run(b).records)
    ensures multiset(Calls(Run(a))) == multiset(Calls(Run(b)))
  {
    forall run ensures SameFor(Run(a), Run(b), run) {
      RunsDoNotInterfere(a, run);
      RunsDoNotInterfere(b, run);
      assert StepsOf(a, run) == StepsOf(b, run);
      SameProjection(Run(a), Run(b), Run(StepsOf(a, run)), run);
    }
    SameEverywhere(Run(a), Run(b));
    MapPermutes(Run(a).records, Run(b).records, CallOf());
  }

  ghost predicate SameFor(s: State, t: State, run: RunId) {
    && (run in s.pending <==> run in t.pending) && (run in s.pending ==> s.pending[run] == t.pending[run])
    && (forall thread :: HeldFor(s.popped, thread, run) <==> HeldFor(t.popped, thread, run))
    && (forall thread :: HeldFor(s.popped, thread, run) ==> s.popped[thread] == t.popped[thread])
    && Filter(s.records, IsFor(run)) == Filter(t.records, IsFor(run))
  }

  lemma SameProjection(s: State, t: State, own: State, run: RunId)
    requires Projects(s, own, run) && Projects(t, own, run)
    ensures SameFor(s, t, run)
  {
  }

  lemma SameEverywhere(s: State, t: State)
    requires forall run :: SameFor(s, t, run)
    ensures s.pending == t.pending && s.popped == t.popped
    ensures multiset(s.records) == multiset(t.records)
  {
    forall run ensures run in s.pending <==> run in t.pending { assert SameFor(s, t, run); }
    forall run | run in s.pending ensures s.pending[run] == t.pending[run] { assert SameFor(s, t, run); }
    forall thread | thread in s.popped ensures thread in t.popped && s.popped[thread] == t.popped[thread] {
      assert SameFor(s, t, s.popped[thread].run);
      assert HeldFor(s.popped, thread, s.popped[thread].run);
    }
    forall thread | thread in t.popped ensures thread in s.popped {
      assert SameFor(s, t, t.popped[thread].run);
      assert HeldFor(t.popped, thread, t.popped[thread].run);
    }
    forall r ensures multiset(s.records)[r] == multiset(t.records)[r] {
      assert SameFor(s, t, r.run);
      FilterMultiset(s.records, IsFor(r.run), r);
      FilterMultiset(t.records, IsFor(r.run), r);
    }
  }

  // ----- per-node totals

  function Tokens(c: LlmCall): int { c.usage.input + c.usage.output }

  function NodeTotal(calls: seq<LlmCall>, node: string): int {
    if calls == [] then 0
    else NodeTotal(calls[..|calls| - 1], node) + TokensAt(calls[|calls| - 1], node)
  }

  function TokensAt(c: LlmCall, node: string): int {
    if c.meta.node == node then Tokens(c) else 0
  }

  lemma {:induction false} NodeTotalInsert(a: seq<LlmCall>, x: LlmCall, b: seq<LlmCall>, node: string)
    ensures NodeTotal(a + [x] + b, node) == NodeTotal(a + b, node) + TokensAt(x, node)
  {
    if b == [] {
      assert a + [x] + b == a + [x] && a + b == a && (a + [x])[..|a|] == a;
    } else {
      var front, last := b[..|b| - 1], b[|b| - 1];
      NodeTotalInsert(a, x, front, node);
      assert (a + [x] + b)[..|a| + |b|] == a + [x] + front;
      assert (a + b)[..|a| + |b| - 1] == a + front;
    }
  }

  lemma {:induction false} NodeTotalPermutes(c: seq<LlmCall>, d: seq<LlmCall>, node: string)
    requires multiset(c) == multiset(d)
    ensures NodeTotal(c, node) == NodeTotal(d, node)
  {
    if c == [] {
      assert |multiset(d)| == |d|;
    } else {
      var j := RemoveCommon(c, d);
      NodeTotalPermutes(c[..|c| - 1], d[..j] + d[j + 1..], node);
      NodeTotalInsert(d[..j], d[j], d[j + 1..], node);
    }
  }

  /** What place i adds to a node: if it starts a call and names the node, the tokens its own end
      reported, once that is recorded. */
  function TokensOfStart(trace: seq<Event>, node: string, i: nat): int {
    if IsStart(trace, i) && StartNames(trace[i], node) && FateOf(trace, i).Finished?
    then FateOf(trace, i).call.usage.input + FateOf(trace, i).call.usage.output else 0
  }

  predicate StartNames(e: Event, node: string)
    requires e.Start?
  {
    if e.node.Some? then e.node.value == node else node == "unknown"
  }

  function SumTo(part: nat -> int, n: nat): int {
    if n == 0 then 0 else SumTo(part, n - 1) + part(n - 1)
  }

  function TokensFrom(trace: seq<Event>, node: string): nat -> int {
    (i: nat) => TokensOfStart(trace, node, i)
  }

  /** The sum of these over the whole trace. */
  function StartedTokens(trace: seq<Event>, node: string): int {
    SumTo(TokensFrom(trace, node), |trace|)
  }

  /** A node's total is the sum, over the started calls whose own start named it, of the tokens
      their own ends reported; once nothing is pending or held, every started call is in it. */
  lemma NodeTotalIsOwnTokens(trace: seq<Event>, node: string)
    requires Orderly(trace)
    ensures NodeTotal(Calls(Run(trace)), node) == StartedTokens(trace, node)
    ensures Run(trace).pending == map[] && Run(trace).popped == map[] ==>
      forall i: nat :: IsStart(trace, i) ==> FateOf(trace, i).Finished?
  {
    EveryInterleavingIsFaithful(trace);
    MapPermutes(Run(trace).records, FinishedCalls(trace), CallOf());
    NodeTotalPermutes(Calls(Run(trace)), Map(FinishedCalls(trace), CallOf()), node);
    forall i: nat ensures Counts(RecordAt(trace)(i), TokensFrom(trace, node)(i), node) {
      TokensOfRecord(trace, node, i);
    }
    ConcatTokens(RecordAt(trace), TokensFrom(trace, node), node, |trace|);
    forall i: nat | IsStart(trace, i)
      ensures FateOf(trace, i).Finished? || Run(trace).pending != map[] || Run(trace).popped != map[]
    {
      assert Placed(trace, Run(trace), i);
    }
  }

  /** At most one record, worth the given tokens to the node. */
  predicate Counts(records: seq<Record>, tokens: int, node: string) {
    |records| <= 1 && tokens == if records == [] then 0 else TokensAt(records[0].call, node)
  }

  lemma {:induction false} ConcatTokens(part: nat -> seq<Record>, tokens: nat -> int, node: string, n: nat)
    requires forall i: nat :: Counts(part(i), tokens(i), node)
    ensures NodeTotal(Map(Concat(part, n), CallOf()), node) == SumTo(tokens, n)
  {
    if n > 0 {
      ConcatTokens(part, tokens, node, n - 1);
      assert Counts(part(n - 1), tokens(n - 1), node);
      OneRecordTokens(Concat(part, n - 1), part(n - 1), node);
    }
  }

  lemma TokensOfRecord(trace: seq<Event>, node: string, i: nat)
    ensures Counts(RecordOf(trace, i), TokensOfStart(trace, node, i), node)
  {
    if RecordOf(trace, i) != [] { FinishedMeta(trace, i); }
  }

  lemma OneRecordTokens(before: seq<Record>, more: seq<Record>, node: string)
    requires |more| <= 1
    ensures NodeTotal(Map(before + more, CallOf()), node)
      == NodeTotal(Map(before, CallOf()), node) + (if more == [] then 0 else TokensAt(more[0].call, node))
  {
    if more == [] {
      assert before + more == before;
    } else {
      assert more == [more[0]];
      CallsSnoc(before, more[0]);
      assert (Map(before, CallOf()) + [more[0].call])[..|Map(before, CallOf())|] == Map(before, CallOf());
    }
  }

  lemma FinishedMeta(trace: seq<Event>, i: nat)
    requires IsStart(trace, i) && FateOf(trace, i).Finished?
    ensures FateOf(trace, i).call.meta == MetaAt(trace, i)
  {
  }

  /** A node's token total depends only on what each call did, not on how the branches were
      interleaved. */
  lemma TotalsIndependentOfOrder(a: seq<Event>, b: seq<Event>, node: string)
    requires Sequential(a) && Sequential(b) && SameCalls(a, b)
    ensures NodeTotal(Calls(Run(a)), node) == NodeTotal(Calls(Run(b)), node)
  {
    InterleavingsAgree(a, b);
    NodeTotalPermutes(Calls(Run(a)), Calls(Run(b)), node);
  }

  /** A run id started again while pending loses the first call: two starts, one record. */
  lemma ReusedRunIdLosesACall(run: RunId, thread: ThreadId, first: Option<string>, second: Option<string>, usage: Usage)
    ensures
      var trace := [Start(run, first, None), Start(run, second, None), EndPop(run, thread),
        EndAppend(run, thread, usage)];
      && Sequential(trace) && EndsFit(trace) && Starts(trace) == 2
      && Run(trace) == State(map[], map[], [Record(run, LlmCall(MetaOf(second, None), usage, false))])
  {
    var a, b := Start(run, first, None), Start(run, second, None);
    var c, d := EndPop(run, thread), EndAppend(run, thread, usage);
    var one, two := MetaOf(first, None), MetaOf(second, None);
    Appended([], a);
    Appended([a], b);
    Appended([a, b], c);
    Appended([a, b, c], d);
    assert [] + [a] == [a] && [a] + [b] == [a, b] && [a, b] + [c] == [a, b, c] && [a, b, c] + [d] == [a, b, c, d];
    assert Run([a]) == State(map[run := one], map[], []);
    assert map[run := one][run := two] == map[run := two];
    assert Run([a, b]) == State(map[run := two], map[], []);
    assert map[run := two] - {run} == map[];
    assert Run([a, b, c]) == State(map[], map[thread := Local(run, two)], []);
    assert map[thread := Local(run, two)] - {thread} == map[];
  }

  lemma Appended(trace: seq<Event>, e: Event)
    ensures Run(trace + [e]) == Step(Run(trace), e)
    ensures Sequential(trace + [e]) <==> Sequential(trace) && ThreadFits(Run(trace), e)
    ensures EndsFit(trace + [e]) <==> EndsFit(trace) && EndFits(Run(trace), e)
    ensures Starts(trace + [e]) == Starts(trace) + (if e.Start? then 1 else 0)
  {
    assert (trace + [e])[..|trace|] == trace;
  }

  // ----- node times

  datatype Sample = Sample(node: string, durationMs: real, failed: bool)

  datatype LogRecord = LogRecord(
    message: string, node: Option<string>, durationMs: Option<real>, correlationId: Option<string>)

  /** The run and sample a log line contributes; None for every other line. */
  function Contribution(r: LogRecord): Option<(string, Sample)> {
    if r.message != "node.completed" && r.message != "node.failed" then None
    else if r.node.None? || r.durationMs.None? then None
    else Some((if r.correlationId.Some? then r.correlationId.value else "-",
               Sample(r.node.value, r.durationMs.value, r.message == "node.failed")))
  }

  datatype Access = Emit(record: LogRecord) | Drain(run: string)

  function SamplesAt(byRun: map<string, seq<Sample>>, run: string): seq<Sample> {
    if run in byRun then byRun[run] else []
  }

  /** The samples the log lines contributed to a run, in order. */
  function Emitted(accesses: seq<Access>, run: string): seq<Sample> {
    if accesses == [] then []
    else Emitted(accesses[..|accesses| - 1], run) + SampleFor(accesses[|accesses| - 1], run)
  }

  function SampleFor(a: Access, run: string): seq<Sample> {
    if a.Emit? && Contribution(a.record).Some? && Contribution(a.record).value.0 == run
    then [Contribution(a.record).value.1] else []
  }

  class NodeLatencyCollector {
    var byRun: map<string, seq<Sample>>

    constructor ()
      ensures byRun == map[]
    {
      byRun := map[];
    }

    method EmitRecord(record: LogRecord)
      modifies this
      ensures forall run :: SamplesAt(byRun, run) == SamplesAt(old(byRun), run) + SampleFor(Emit(record), run)
    {
      var c := Contribution(record);
      if c.Some? {
        byRun := byRun[c.value.0 := SamplesAt(byRun, c.value.0) + [c.value.1]];
      }
    }

    method DrainRun(run: string) returns (samples: seq<Sample>)
      modifies this
      ensures samples == SamplesAt(old(byRun), run)
      ensures byRun == old(byRun) - {run}
    {
      samples := SamplesAt(byRun, run);
      byRun := byRun - {run};
    }
  }

  /** However emits and drains interleave, what was drained for a run followed by what is left
      is what was emitted for it, each sample once and in order. */
  method Collect(accesses: seq<Access>) returns (collector: NodeLatencyCollector, drained: map<string, seq<Sample>>)
    ensures fresh(collector)
    ensures forall run :: SamplesAt(drained, run) + SamplesAt(collector.byRun, run) == Emitted(accesses, run)
  {
    collector := new NodeLatencyCollector();
    drained := map[];
    for i := 0 to |accesses|
      invariant fresh(collector)
      invariant forall run :: SamplesAt(drained, run) + SamplesAt(collector.byRun, run) == Emitted(accesses[..i], run)
    {
      ghost var left, before := collector.byRun, drained;
      assert accesses[..i + 1][..i] == accesses[..i];
      match accesses[i] {
        case Emit(record) =>
          collector.EmitRecord(record);
        case Drain(run) =>
          var samples := collector.DrainRun(run);
          drained := drained[run := SamplesAt(drained, run) + samples];
      }
      forall run ensures SamplesAt(drained, run) + SamplesAt(collector.byRun, run) == Emitted(accesses[..i + 1], run) {
        assert SamplesAt(before, run) + SamplesAt(left, run) == Emitted(accesses[..i], run);
        assert Emitted(accesses[..i + 1], run) == Emitted(accesses[..i], run) + SampleFor(accesses[i], run);
      }
    }
    assert accesses[..|accesses|] == accesses;
  }
}
