/**
 The batch ingest job of the knowledge router: one asynchronous task per accepted item, all sharing a
 semaphore, an initialisation lock, an update lock and a sticky fail-fast event.

 A `State` holds everything the tasks share plus where each task stands; an `Action` is what happens
 between two suspension points of one task. Which action comes next is left open, so a property of every
 run is a property of every interleaving (the event loop serves waiters in order; any order is allowed here).
 */
module BatchIngest {
  import opened Common
  import Text

  // ---------------------------------------------------------------- the job row

  datatype JobStatus = Pending | Running | Success | Failed

  datatype JobRow = JobRow(
    status: JobStatus,
    completed: nat,
    failedCount: nat,
    results: seq<(nat, string)>,
    failures: seq<(nat, string)>)
  {
    function RecordSuccess(index: nat, doc: string): JobRow {
      this.(completed := completed + 1, results := results + [(index, doc)])
    }

    function RecordFailure(index: nat, reason: string): JobRow {
      this.(completed := completed + 1, failedCount := failedCount + 1, failures := failures + [(index, reason)])
    }
  }

  const SKIP_REASON := "skipped due to fail_fast"

  // ---------------------------------------------------------------- tasks

  datatype Outcome = Succeeded(doc: string) | Failure(reason: string) | Skipped

  /** Where one task stands. `Waiting` phases ask for a permit or a lock, `Recording` phases hold the update lock. */
  datatype Phase =
    | Unstarted
    | SkipWaiting
    | SkipRecording
    | SkipCrashed
    | PermitWaiting
    | InitWaiting
    | Initialising
    | Ingesting
    | SuccessWaiting(doc: string)
    | SuccessRecording(doc: string)
    | FailureWaiting(reason: string)
    | FailureRecording(reason: string)
    | Closing(outcome: Option<Outcome>)
    | Done(result: Outcome)
    | Crashed(left: Option<Outcome>)

  predicate HoldsPermit(p: Phase) {
    match p
    case InitWaiting | Initialising | Ingesting | SuccessWaiting(_) | SuccessRecording(_)
       | FailureWaiting(_) | FailureRecording(_) | Closing(_) => true
    case _ => false
  }

  predicate HoldsInit(p: Phase) { p.Initialising? }

  predicate HoldsUpdate(p: Phase) { p.SkipRecording? || p.SuccessRecording? || p.FailureRecording? }

  predicate WaitsForUpdate(p: Phase) { p.SkipWaiting? || p.SuccessWaiting? || p.FailureWaiting? }

  /** The task has left `run_one`, normally or with an exception. */
  predicate Ended(p: Phase) { p.Done? || p.Crashed? || p.SkipCrashed? }

  predicate Raised(p: Phase) { p.Crashed? || p.SkipCrashed? }

  /** The task saw the event set when it started. */
  predicate OnSkipPath(p: Phase) {
    p.SkipWaiting? || p.SkipRecording? || p.SkipCrashed? || p == Done(Skipped)
  }

  /** What the task has written to the job row so far. */
  function Recorded(p: Phase): Option<Outcome> {
    match p
    case Closing(o) => o
    case Done(o) => Some(o)
    case Crashed(o) => o
    case _ => None
  }

  // ---------------------------------------------------------------- states and actions

  datatype Options = Options(maxConcurrent: nat, failFast: bool)

  datatype Main = Gathering | Finished | Aborted

  datatype State = State(
    options: Options,
    indices: seq<nat>,
    phases: seq<Phase>,
    permits: nat,
    initLock: Option<nat>,
    updateLock: Option<nat>,
    event: bool,
    job: JobRow,
    main: Main)

  /**
   `Proceed` and `Raise` end the call the task is suspended in, with a value or with an exception;
   `Finish` and `Propagate` are the two ways in which the gathering coroutine continues.
   */
  datatype Action =
    | Start(task: nat)
    | Acquire(task: nat)
    | Proceed(task: nat, doc: string)
    | Raise(task: nat, reason: string)
    | Finish
    | Propagate

  function Init(options: Options, indices: seq<nat>): State {
    State(options, indices, seq(|indices|, _ => Unstarted), options.maxConcurrent, None, None, false,
          JobRow(Running, 0, 0, [], []), Gathering)
  }

  predicate InCall(p: Phase) { p.Initialising? || p.Ingesting? || HoldsUpdate(p) || p.Closing? }

  /** An exception in these phases reaches the `except` clause of `run_one`. */
  predicate InTry(p: Phase) { p.Initialising? || p.Ingesting? || p.SuccessRecording? }

  predicate Enabled(s: State, a: Action) {
    match a
    case Start(t) => t < |s.phases| && s.phases[t].Unstarted?
    case Acquire(t) =>
      && t < |s.phases|
      && (|| (s.phases[t].PermitWaiting? && s.permits > 0)
          || (s.phases[t].InitWaiting? && s.initLock.None?)
          || (WaitsForUpdate(s.phases[t]) && s.updateLock.None?))
    case Proceed(t, _) => t < |s.phases| && InCall(s.phases[t])
    case Raise(t, _) => t < |s.phases| && InCall(s.phases[t])
    case Finish => s.main.Gathering? && forall t | 0 <= t < |s.phases| :: s.phases[t].Done?
    case Propagate => s.main.Gathering? && exists t | 0 <= t < |s.phases| :: Raised(s.phases[t])
  }

  function Granted(p: Phase): Phase
    requires p.PermitWaiting? || p.InitWaiting? || WaitsForUpdate(p)
  {
    match p
    case PermitWaiting => InitWaiting
    case InitWaiting => Initialising
    case SkipWaiting => SkipRecording
    case SuccessWaiting(doc) => SuccessRecording(doc)
    case FailureWaiting(reason) => FailureRecording(reason)
  }

  function Returned(p: Phase, doc: string): Phase
    requires InCall(p)
  {
    match p
    case SkipRecording => Done(Skipped)
    case Initialising => Ingesting
    case Ingesting => SuccessWaiting(doc)
    case SuccessRecording(d) => Closing(Some(Succeeded(d)))
    case FailureRecording(reason) => Closing(Some(Failure(reason)))
    case Closing(None) => Crashed(None)
    case Closing(Some(o)) => Done(o)
  }

  function Threw(p: Phase, reason: string): Phase
    requires InCall(p)
  {
    match p
    case SkipRecording => SkipCrashed
    case FailureRecording(_) => Closing(None)
    case Closing(o) => Crashed(o)
    case _ => FailureWaiting(reason)
  }

  /** The job row after the recording call of phase `p` returns. */
  function Write(job: JobRow, index: nat, p: Phase): JobRow {
    match p
    case SkipRecording => job.RecordFailure(index, SKIP_REASON)
    case SuccessRecording(d) => job.RecordSuccess(index, d)
    case FailureRecording(reason) => job.RecordFailure(index, reason)
    case _ => job
  }

  /** Gives back what phase `p` holds for the duration of the call that has just ended. */
  function Release(s: State, p: Phase): State {
    if p.Initialising? then s.(initLock := None)
    else if HoldsUpdate(p) then s.(updateLock := None)
    else if p.Closing? then s.(permits := s.permits + 1)
    else s
  }

  function Apply(s: State, a: Action): State
    requires |s.indices| == |s.phases| && Enabled(s, a)
  {
    match a
    case Start(t) => s.(phases := s.phases[t := if s.event then SkipWaiting else PermitWaiting])
    case Acquire(t) =>
      var p := s.phases[t];
      var moved := s.(phases := s.phases[t := Granted(p)]);
      if p.PermitWaiting? then moved.(permits := s.permits - 1)
      else if p.InitWaiting? then moved.(initLock := Some(t))
      else moved.(updateLock := Some(t))
    case Proceed(t, doc) =>
      var p := s.phases[t];
      Release(s, p).(phases := s.phases[t := Returned(p, doc)], job := Write(s.job, s.indices[t], p))
    case Raise(t, reason) =>
      var p := s.phases[t];
      Release(s, p).(phases := s.phases[t := Threw(p, reason)],
                     event := s.event || (s.options.failFast && InTry(p)))
    case Finish => s.(main := Finished,
                      job := s.job.(status := if s.job.failedCount != 0 then Failed else Success))
    case Propagate => s.(main := Aborted)
  }

  // ---------------------------------------------------------------- the inductive invariant

  ghost predicate Distinct(indices: seq<nat>) {
    forall i, j | 0 <= i < j < |indices| :: indices[i] != indices[j]
  }

  /** The sum over all tasks of what `entry` says each of them has written to the job row. */
  ghost function Tally<E>(entry: (nat, Phase) -> multiset<E>, indices: seq<nat>, phases: seq<Phase>): multiset<E>
    requires |indices| == |phases|
  {
    if phases == [] then multiset{} else
      var n := |phases| - 1;
      Tally(entry, indices[..n], phases[..n]) + entry(indices[n], phases[n])
  }

  ghost function SuccessOf(index: nat, p: Phase): multiset<(nat, string)> {
    match Recorded(p)
    case Some(Succeeded(d)) => multiset{(index, d)}
    case _ => multiset{}
  }

  ghost function FailureOf(index: nat, p: Phase): multiset<(nat, string)> {
    match Recorded(p)
    case Some(Failure(reason)) => multiset{(index, reason)}
    case Some(Skipped) => multiset{(index, SKIP_REASON)}
    case _ => multiset{}
  }

  ghost function IndexOf(index: nat, p: Phase): multiset<nat> {
    if Recorded(p).Some? then multiset{index} else multiset{}
  }

  /** How many entries of `list` are about request item `index`. */
  ghost function EntriesFor(list: seq<(nat, string)>, index: nat): nat {
    if list == [] then 0
    else EntriesFor(list[..|list| - 1], index) + (if list[|list| - 1].0 == index then 1 else 0)
  }

  ghost function OutcomesFor(job: JobRow, index: nat): nat {
    EntriesFor(job.results, index) + EntriesFor(job.failures, index)
  }

  /** The job row holds what the tasks have recorded, entry by entry and item by item. */
  ghost predicate JobMatches(s: State)
    requires |s.indices| == |s.phases|
  {
    && multiset(s.job.results) == Tally(SuccessOf, s.indices, s.phases)
    && multiset(s.job.failures) == Tally(FailureOf, s.indices, s.phases)
    && ItemsMatch(s)
    && s.job.completed == |s.job.results| + |s.job.failures|
    && s.job.failedCount == |s.job.failures|
  }

  ghost predicate ItemsMatch(s: State)
    requires |s.indices| == |s.phases|
  {
    forall i: nat :: OutcomesFor(s.job, i) == Tally(IndexOf, s.indices, s.phases)[i]
  }

  ghost predicate PermitsMatch(s: State) {
    s.permits + Count(s.phases, HoldsPermit) == s.options.maxConcurrent
  }

  /** `lock` names the one task, if any, whose phase holds it. */
  ghost predicate LockMatches(lock: Option<nat>, phases: seq<Phase>, holds: Phase -> bool) {
    && (lock.Some? ==> lock.value < |phases|)
    && (forall t: nat | t < |phases| :: holds(phases[t]) <==> lock == Some(t))
  }

  ghost predicate MainMatches(s: State) {
    && (s.main.Finished? ==> forall t | 0 <= t < |s.phases| :: s.phases[t].Done?)
    && (s.main.Finished? ==> s.job.status == if s.job.failedCount != 0 then Failed else Success)
    && (s.main.Aborted? ==> exists t | 0 <= t < |s.phases| :: Raised(s.phases[t]))
    && (!s.main.Finished? ==> s.job.status == Running)
  }

  ghost predicate Inv(s: State) {
    && |s.indices| == |s.phases|
    && Distinct(s.indices)
    && s.options.maxConcurrent >= 1
    && PermitsMatch(s)
    && LockMatches(s.initLock, s.phases, HoldsInit)
    && LockMatches(s.updateLock, s.phases, HoldsUpdate)
    && JobMatches(s)
    && MainMatches(s)
  }

  lemma InitInv(options: Options, indices: seq<nat>)
    requires Distinct(indices) && options.maxConcurrent >= 1
    ensures Inv(Init(options, indices))
  {
    var s := Init(options, indices);
    CountBounds(s.phases, HoldsPermit);
    NothingRecorded(SuccessOf, indices, s.phases);
    NothingRecorded(FailureOf, indices, s.phases);
    NothingRecorded(IndexOf, indices, s.phases);
  }

  lemma {:induction false} NothingRecorded<E>(entry: (nat, Phase) -> multiset<E>, indices: seq<nat>, phases: seq<Phase>)
    requires |indices| == |phases|
    requires forall t: nat | t < |phases| :: entry(indices[t], phases[t]) == multiset{}
    ensures Tally(entry, indices, phases) == multiset{}
  {
    if phases != [] {
      var n := |phases| - 1;
      NothingRecorded(entry, indices[..n], phases[..n]);
    }
  }

  /** Moving one task replaces its own entries in a tally and nothing else. */
  lemma {:induction false} TallyUpdate<E>(entry: (nat, Phase) -> multiset<E>, indices: seq<nat>, phases: seq<Phase>,
                                          t: nat, p: Phase)
    requires |indices| == |phases| && t < |phases|
    ensures Tally(entry, indices, phases[t := p]) + entry(indices[t], phases[t])
         == Tally(entry, indices, phases) + entry(indices[t], p)
  {
    var n := |phases| - 1;
    var moved := phases[t := p];
    assert Tally(entry, indices, moved) == Tally(entry, indices[..n], moved[..n]) + entry(indices[n], moved[n]);
    if t == n {
      assert moved[..n] == phases[..n];
    } else {
      TallyUpdate(entry, indices[..n], phases[..n], t, p);
      assert moved[..n] == phases[..n][t := p];
      assert Tally(entry, indices, phases) == Tally(entry, indices[..n], phases[..n]) + entry(indices[n], phases[n]);
      AddSame(Tally(entry, indices[..n], moved[..n]), entry(indices[t], phases[t]),
              Tally(entry, indices[..n], phases[..n]), entry(indices[t], p), entry(indices[n], phases[n]));
    }
  }

  lemma AddSame<E>(a: multiset<E>, b: multiset<E>, c: multiset<E>, d: multiset<E>, extra: multiset<E>)
    requires a + b == c + d
    ensures (a + extra) + b == (c + extra) + d
  {
    calc {
      (a + extra) + b;
      (a + b) + extra;
      (c + d) + extra;
      (c + extra) + d;
    }
  }

  predicate OfTask(a: Action) { !a.Finish? && !a.Propagate? }

  /** How `holds` and its lock change when task `t` moves from `p` to `q`. */
  predicate Handover(holds: Phase -> bool, before: Option<nat>, after: Option<nat>, t: nat, p: Phase, q: Phase) {
    if holds(p) == holds(q) then after == before
    else if holds(q) then before.None? && after == Some(t)
    else after.None?
  }

  /** Task `t` moves, and gains or gives back exactly what its two phases differ in. */
  predicate Moves(s: State, s': State, t: nat) {
    && t < |s.phases| == |s.indices| == |s'.phases|
    && s'.phases == s.phases[t := s'.phases[t]]
    && s'.options == s.options && s'.indices == s.indices && s'.main == s.main
    && s'.permits + (if HoldsPermit(s'.phases[t]) then 1 else 0)
       == s.permits + (if HoldsPermit(s.phases[t]) then 1 else 0)
    && Handover(HoldsInit, s.initLock, s'.initLock, t, s.phases[t], s'.phases[t])
    && Handover(HoldsUpdate, s.updateLock, s'.updateLock, t, s.phases[t], s'.phases[t])
    && !Ended(s.phases[t])
    && s'.job.status == s.job.status
  }

  /** The job row is written exactly when task `t` gets its outcome. */
  predicate Writes(s: State, s': State, t: nat)
    requires t < |s.phases| == |s.indices| == |s'.phases|
  {
    if Recorded(s'.phases[t]) == Recorded(s.phases[t]) then s'.job == s.job
    else
      && Recorded(s.phases[t]).None? && Recorded(s'.phases[t]).Some?
      && s'.job == match Recorded(s'.phases[t]).value
                   case Succeeded(d) => s.job.RecordSuccess(s.indices[t], d)
                   case Failure(reason) => s.job.RecordFailure(s.indices[t], reason)
                   case Skipped => s.job.RecordFailure(s.indices[t], SKIP_REASON)
  }

  lemma MoveShape(s: State, a: Action)
    requires |s.indices| == |s.phases| && Enabled(s, a) && OfTask(a)
    ensures Moves(s, Apply(s, a), a.task)
  {
  }

  lemma WriteShape(s: State, a: Action)
    requires |s.indices| == |s.phases| && Enabled(s, a) && OfTask(a)
    requires Moves(s, Apply(s, a), a.task)
    ensures Writes(s, Apply(s, a), a.task)
  {
  }

  lemma StepKeepsPermits(s: State, a: Action)
    requires |s.indices| == |s.phases| && PermitsMatch(s) && Enabled(s, a) && OfTask(a)
    ensures PermitsMatch(Apply(s, a))
  {
    MoveShape(s, a);
    CountUpdate(s.phases, HoldsPermit, a.task, Apply(s, a).phases[a.task]);
  }

  lemma HandoverKeepsLock(holds: Phase -> bool, before: Option<nat>, after: Option<nat>,
                          phases: seq<Phase>, t: nat, q: Phase)
    requires t < |phases| && LockMatches(before, phases, holds)
    requires Handover(holds, before, after, t, phases[t], q)
    ensures LockMatches(after, phases[t := q], holds)
  {
  }

  lemma WritesKeepJob(s: State, s': State, t: nat)
    requires Moves(s, s', t) && Writes(s, s', t) && JobMatches(s)
    ensures JobMatches(s')
  {
    TallyStep(SuccessOf, s, s', t);
    TallyStep(FailureOf, s, s', t);
    WritesKeepItems(s, s', t);
  }

  lemma WritesKeepItems(s: State, s': State, t: nat)
    requires Moves(s, s', t) && Writes(s, s', t) && ItemsMatch(s)
    ensures ItemsMatch(s')
  {
    var tally, tally' := Tally(IndexOf, s.indices, s.phases), Tally(IndexOf, s'.indices, s'.phases);
    TallyStep(IndexOf, s, s', t);
    if Recorded(s'.phases[t]) == Recorded(s.phases[t]) {
      assert s'.job == s.job && tally' == tally;
    } else {
      OutcomesGrow(s, s', t);
      assert tally' == tally + multiset{s.indices[t]};
    }
  }

  lemma OutcomesGrow(s: State, s': State, t: nat)
    requires Moves(s, s', t) && Writes(s, s', t) && Recorded(s'.phases[t]) != Recorded(s.phases[t])
    ensures forall i: nat ::
      OutcomesFor(s'.job, i) == OutcomesFor(s.job, i) + (if s.indices[t] == i then 1 else 0)
  {
    var i := s.indices[t];
    match Recorded(s'.phases[t]).value
    case Succeeded(d) => EntriesAppend(s.job.results, (i, d));
    case Failure(reason) => EntriesAppend(s.job.failures, (i, reason));
    case Skipped => EntriesAppend(s.job.failures, (i, SKIP_REASON));
  }

  lemma EntriesAppend(list: seq<(nat, string)>, entry: (nat, string))
    ensures forall i: nat ::
      EntriesFor(list + [entry], i) == EntriesFor(list, i) + (if entry.0 == i then 1 else 0)
  {
    assert (list + [entry])[..|list|] == list;
  }

  /** A task whose entries grow by `added` adds just that to the tally; one whose entries stay adds nothing. */
  lemma TallyStep<E>(entry: (nat, Phase) -> multiset<E>, s: State, s': State, t: nat)
    requires t < |s.phases| == |s.indices| == |s'.phases|
    requires s'.indices == s.indices && s'.phases == s.phases[t := s'.phases[t]]
    ensures var before, after := entry(s.indices[t], s.phases[t]), entry(s.indices[t], s'.phases[t]);
      && (before == after ==> Tally(entry, s'.indices, s'.phases) == Tally(entry, s.indices, s.phases))
      && (before == multiset{} ==>
            Tally(entry, s'.indices, s'.phases) == Tally(entry, s.indices, s.phases) + after)
  {
    var before, after := entry(s.indices[t], s.phases[t]), entry(s.indices[t], s'.phases[t]);
    TallyUpdate(entry, s.indices, s.phases, t, s'.phases[t]);
    var old', new' := Tally(entry, s.indices, s.phases), Tally(entry, s'.indices, s'.phases);
    assert new' + before == old' + after;
    if before == after {
      assert new' == (new' + before) - before;
      assert old' == (old' + after) - after;
    }
    if before == multiset{} {
      assert new' == new' + before;
    }
  }

  lemma StepKeepsMain(s: State, a: Action)
    requires |s.indices| == |s.phases| && MainMatches(s) && Enabled(s, a) && OfTask(a)
    ensures MainMatches(Apply(s, a))
  {
    MoveShape(s, a);
    var s' := Apply(s, a);
    if s'.main.Aborted? {
      var t: nat :| t < |s.phases| && Raised(s.phases[t]);
      assert Raised(s'.phases[t]);
    }
  }

  lemma StepKeepsInv(s: State, a: Action)
    requires Inv(s) && Enabled(s, a)
    ensures Inv(Apply(s, a))
  {
    if OfTask(a) {
      var s' := Apply(s, a);
      StepKeepsPermits(s, a);
      StepKeepsMain(s, a);
      MoveShape(s, a);
      WriteShape(s, a);
      WritesKeepJob(s, s', a.task);
      HandoverKeepsLock(HoldsInit, s.initLock, s'.initLock, s.phases, a.task, s'.phases[a.task]);
      HandoverKeepsLock(HoldsUpdate, s.updateLock, s'.updateLock, s.phases, a.task, s'.phases[a.task]);
    }
  }

  // ---------------------------------------------------------------- safety in every reachable state

  /** At most `maxConcurrent` tasks are past the semaphore, and each lock has at most one holder. */
  lemma MutualExclusion(s: State)
    requires Inv(s)
    ensures Count(s.phases, HoldsPermit) <= s.options.maxConcurrent
    ensures forall t, u | 0 <= t < u < |s.phases| ::
      && !(HoldsInit(s.phases[t]) && HoldsInit(s.phases[u]))
      && !(HoldsUpdate(s.phases[t]) && HoldsUpdate(s.phases[u]))
  {
    forall t: nat, u: nat | t < u < |s.phases|
      ensures !(HoldsInit(s.phases[t]) && HoldsInit(s.phases[u]))
      ensures !(HoldsUpdate(s.phases[t]) && HoldsUpdate(s.phases[u]))
    {
      assert HoldsInit(s.phases[t]) ==> s.initLock == Some(t);
      assert HoldsUpdate(s.phases[t]) ==> s.updateLock == Some(t);
    }
  }

  lemma {:induction false} IndexTally(indices: seq<nat>, phases: seq<Phase>, t: nat)
    requires |indices| == |phases| && Distinct(indices) && t < |phases|
    ensures Tally(IndexOf, indices, phases)[indices[t]] == if Recorded(phases[t]).Some? then 1 else 0
  {
    var n := |phases| - 1;
    if t < n {
      IndexTally(indices[..n], phases[..n], t);
      assert indices[..n][t] == indices[t];
    } else {
      IndexTallyAbsent(indices[..n], phases[..n], indices[n]);
    }
  }

  lemma {:induction false} IndexTallyAbsent(indices: seq<nat>, phases: seq<Phase>, index: nat)
    requires |indices| == |phases| && index !in indices
    ensures Tally(IndexOf, indices, phases)[index] == 0
  {
    if phases != [] {
      var n := |phases| - 1;
      IndexTallyAbsent(indices[..n], phases[..n], index);
    }
  }

  /** Every accepted item has at most one entry in the job row, and one exactly when its task has an outcome. */
  lemma AtMostOneOutcome(s: State)
    requires Inv(s)
    ensures forall t: nat | t < |s.indices| ::
      OutcomesFor(s.job, s.indices[t]) == if Recorded(s.phases[t]).Some? then 1 else 0
    ensures forall i: nat | i !in s.indices :: OutcomesFor(s.job, i) == 0
  {
    forall t: nat | t < |s.indices|
      ensures OutcomesFor(s.job, s.indices[t]) == if Recorded(s.phases[t]).Some? then 1 else 0
    {
      IndexTally(s.indices, s.phases, t);
    }
    forall i: nat | i !in s.indices
      ensures OutcomesFor(s.job, i) == 0
    {
      IndexTallyAbsent(s.indices, s.phases, i);
    }
  }

  // ---------------------------------------------------------------- progress and termination

  /** Nothing is left to happen: every task has ended and the gathering coroutine has continued. */
  predicate Quiet(s: State) {
    !s.main.Gathering? && forall t | 0 <= t < |s.phases| :: Ended(s.phases[t])
  }

  /** No deadlock: as long as something is left to happen, some action is enabled. */
  lemma Progress(s: State) returns (a: Action)
    requires Inv(s) && !Quiet(s)
    ensures Enabled(s, a)
  {
    if t: nat :| t < |s.phases| && !Ended(s.phases[t]) {
      if s.phases[t].Unstarted? {
        a := Start(t);
      } else if s.phases[t].PermitWaiting? && s.permits == 0 {
        CountBounds(s.phases, HoldsPermit);
        var u: nat :| u < |s.phases| && HoldsPermit(s.phases[u]);
        a := TaskProgress(s, u);
      } else {
        a := TaskProgress(s, t);
      }
    } else if u: nat :| u < |s.phases| && Raised(s.phases[u]) {
      a := Propagate;
    } else {
      a := Finish;
    }
  }

  lemma TaskProgress(s: State, t: nat) returns (a: Action)
    requires Inv(s) && t < |s.phases| && !Ended(s.phases[t]) && !s.phases[t].Unstarted?
    requires s.phases[t].PermitWaiting? ==> s.permits > 0
    ensures Enabled(s, a)
  {
    if s.phases[t].InitWaiting? && s.initLock.Some? {
      a := Proceed(s.initLock.value, "");
    } else if WaitsForUpdate(s.phases[t]) && s.updateLock.Some? {
      a := Proceed(s.updateLock.value, "");
    } else if InCall(s.phases[t]) {
      a := Proceed(t, "");
    } else {
      a := Acquire(t);
    }
  }

  /** How many actions a task can still take. */
  function Rank(p: Phase): nat {
    match p
    case Unstarted => 10
    case PermitWaiting => 9
    case InitWaiting => 8
    case Initialising => 7
    case Ingesting => 6
    case SuccessWaiting(_) => 5
    case SuccessRecording(_) => 4
    case FailureWaiting(_) => 3
    case FailureRecording(_) => 2
    case Closing(_) => 1
    case SkipWaiting => 2
    case SkipRecording => 1
    case Done(_) | Crashed(_) | SkipCrashed => 0
  }

  function RankSum(phases: seq<Phase>): nat {
    if phases == [] then 0 else RankSum(phases[..|phases| - 1]) + Rank(phases[|phases| - 1])
  }

  function Remaining(s: State): nat { RankSum(s.phases) + (if s.main.Gathering? then 1 else 0) }

  lemma {:induction false} RankSumUpdate(phases: seq<Phase>, t: nat, p: Phase)
    requires t < |phases|
    ensures RankSum(phases[t := p]) + Rank(phases[t]) == RankSum(phases) + Rank(p)
  {
    var n := |phases| - 1;
    if t == n {
      assert phases[t := p][..n] == phases[..n];
    } else {
      RankSumUpdate(phases[..n], t, p);
      assert phases[t := p][..n] == phases[..n][t := p];
    }
  }

  lemma {:induction false} RankSumBound(phases: seq<Phase>)
    ensures RankSum(phases) <= 10 * |phases|
  {
    if phases != [] { RankSumBound(phases[..|phases| - 1]); }
  }

  /** Every action brings the job closer to its end, whatever it does. */
  lemma StepDecreases(s: State, a: Action)
    requires |s.indices| == |s.phases| && Enabled(s, a)
    ensures Remaining(Apply(s, a)) < Remaining(s)
  {
    if OfTask(a) {
      MoveShape(s, a);
      RankSumUpdate(s.phases, a.task, Apply(s, a).phases[a.task]);
    }
  }

  // ---------------------------------------------------------------- whole runs

  /** `states` is what the shared state goes through when `actions` happen one after the other. */
  ghost predicate IsRun(states: seq<State>, actions: seq<Action>) {
    && |states| == |actions| + 1
    && states[0] == Init(states[0].options, states[0].indices)
    && (forall k | 0 <= k < |states| :: |states[k].indices| == |states[k].phases|)
    && forall k | 0 <= k < |actions| ::
      Enabled(states[k], actions[k]) && states[k + 1] == Apply(states[k], actions[k])
  }

  lemma RunPrefix(states: seq<State>, actions: seq<Action>, k: nat)
    requires IsRun(states, actions) && k <= |actions|
    ensures IsRun(states[..k + 1], actions[..k])
  {
  }

  lemma {:induction false} RunKeepsInv(states: seq<State>, actions: seq<Action>)
    requires IsRun(states, actions) && Distinct(states[0].indices) && states[0].options.maxConcurrent >= 1
    ensures Inv(states[|actions|])
    ensures states[|actions|].indices == states[0].indices && states[|actions|].options == states[0].options
  {
    if actions == [] {
      InitInv(states[0].options, states[0].indices);
    } else {
      var n := |actions| - 1;
      RunPrefix(states, actions, n);
      RunKeepsInv(states[..n + 1], actions[..n]);
      StepKeepsInv(states[n], actions[n]);
      if OfTask(actions[n]) { MoveShape(states[n], actions[n]); }
    }
  }

  /** A run of a batch of `n` items has at most `10 n + 1` actions. */
  lemma {:induction false} RunsAreShort(states: seq<State>, actions: seq<Action>)
    requires IsRun(states, actions)
    ensures |actions| + Remaining(states[|actions|]) <= 10 * |states[0].indices| + 1
  {
    if actions == [] {
      RankSumBound(states[0].phases);
    } else {
      var n := |actions| - 1;
      RunPrefix(states, actions, n);
      RunsAreShort(states[..n + 1], actions[..n]);
      StepDecreases(states[n], actions[n]);
    }
  }

  /** In step `k` an exception of task `u` reaches its `except` clause while fail-fast is on. */
  ghost predicate SetsEvent(states: seq<State>, actions: seq<Action>, k: nat, u: nat)
    requires IsRun(states, actions)
  {
    && k < |actions| && states[0].options.failFast && actions[k].Raise? && actions[k].task == u
    && InTry(states[k].phases[u])
  }

  lemma {:induction false} EventIsSet(states: seq<State>, actions: seq<Action>)
    requires IsRun(states, actions)
    ensures states[|actions|].options == states[0].options
    ensures states[|actions|].event <==> exists j: nat, u: nat :: SetsEvent(states, actions, j, u)
  {
    if actions != [] {
      var n := |actions| - 1;
      RunPrefix(states, actions, n);
      var states', actions' := states[..n + 1], actions[..n];
      EventIsSet(states', actions');
      if OfTask(actions[n]) { MoveShape(states[n], actions[n]); }
      assert forall j: nat, u: nat | SetsEvent(states', actions', j, u) :: SetsEvent(states, actions, j, u);
      assert forall j: nat, u: nat | SetsEvent(states, actions, j, u) :: j == n || SetsEvent(states', actions', j, u);
      if states[n + 1].event && !states[n].event {
        assert SetsEvent(states, actions, n, actions[n].task);
      }
    }
  }

  /** Task `t` starts in step `k` and sees the event already set. */
  ghost predicate SeesEvent(states: seq<State>, actions: seq<Action>, k: nat, t: nat)
    requires IsRun(states, actions)
  {
    k < |actions| && actions[k] == Start(t) && states[k].event
  }

  lemma SkipStep(s: State, a: Action, t: nat)
    requires t < |s.phases| == |s.indices| && Enabled(s, a) && s.phases[t] != Closing(Some(Skipped))
    ensures var s' := Apply(s, a);
      && s'.indices == s.indices && |s'.phases| == |s.phases|
      && s'.phases[t] != Closing(Some(Skipped))
      && (s'.phases[t].Unstarted? <==> s.phases[t].Unstarted? && a != Start(t))
      && (OnSkipPath(s'.phases[t]) <==> OnSkipPath(s.phases[t]) || (a == Start(t) && s.event))
  {
  }

  lemma {:induction false} SkipPath(states: seq<State>, actions: seq<Action>, t: nat)
    requires IsRun(states, actions) && t < |states[0].indices|
    ensures states[|actions|].indices == states[0].indices
    ensures states[|actions|].phases[t].Unstarted? <==> forall k: nat | k < |actions| :: actions[k] != Start(t)
    ensures states[|actions|].phases[t] != Closing(Some(Skipped))
    ensures OnSkipPath(states[|actions|].phases[t]) <==> exists k: nat :: SeesEvent(states, actions, k, t)
  {
    if actions != [] {
      var n := |actions| - 1;
      RunPrefix(states, actions, n);
      var states', actions' := states[..n + 1], actions[..n];
      SkipPath(states', actions', t);
      SkipStep(states[n], actions[n], t);
      assert forall k: nat | SeesEvent(states', actions', k, t) :: SeesEvent(states, actions, k, t);
      assert forall k: nat | SeesEvent(states, actions, k, t) :: k == n || SeesEvent(states', actions', k, t);
      if actions[n] == Start(t) && states[n].event {
        assert SeesEvent(states, actions, n, t);
      }
    }
  }

  /** In step `j` an exception of `u` sets the event, and later, in step `k`, task `t` starts. */
  ghost predicate StartsTooLate(states: seq<State>, actions: seq<Action>, j: nat, u: nat, k: nat, t: nat)
    requires IsRun(states, actions)
  {
    j < k < |actions| && u != t && SetsEvent(states, actions, j, u) && actions[k] == Start(t)
  }

  /**
   Who is skipped: exactly the tasks that start, fail-fast being on, after the exception of another task.
   A task that has passed its check is never skipped, even if it still waits for the semaphore when the event is set.
   */
  lemma SkippedExactlyWhenLate(states: seq<State>, actions: seq<Action>, t: nat)
    requires IsRun(states, actions) && t < |states[0].indices|
    ensures t < |states[|actions|].phases|
    ensures OnSkipPath(states[|actions|].phases[t])
       <==> exists j: nat, u: nat, k: nat :: StartsTooLate(states, actions, j, u, k, t)
  {
    SkipPath(states, actions, t);
    if k: nat :| SeesEvent(states, actions, k, t) {
      RunPrefix(states, actions, k);
      EventIsSet(states[..k + 1], actions[..k]);
      var j: nat, u: nat :| SetsEvent(states[..k + 1], actions[..k], j, u);
      assert SetsEvent(states, actions, j, u);
      NotBothStartedAndNot(states, actions, j, k, t);
      assert StartsTooLate(states, actions, j, u, k, t);
    }
    if j: nat, u: nat, k: nat :| StartsTooLate(states, actions, j, u, k, t) {
      RunPrefix(states, actions, k);
      assert SetsEvent(states[..k + 1], actions[..k], j, u);
      EventIsSet(states[..k + 1], actions[..k]);
      assert SeesEvent(states, actions, k, t);
    }
  }

  /** A task that starts in step `k` was still unstarted in every earlier step. */
  lemma NotBothStartedAndNot(states: seq<State>, actions: seq<Action>, j: nat, k: nat, t: nat)
    requires IsRun(states, actions) && j < k < |actions| && actions[k] == Start(t) && t < |states[0].indices|
    ensures t < |states[j].phases| && states[j].phases[t].Unstarted?
  {
    RunPrefix(states, actions, k);
    SkipPath(states[..k + 1], actions[..k], t);
    RunPrefix(states, actions, j);
    SkipPath(states[..j + 1], actions[..j], t);
    assert forall i: nat | i < j :: actions[..j][i] == actions[..k][i];
  }

  /** When every task starts before the first exception, fail-fast skips nothing at all. */
  lemma EarlyStartsAreNeverSkipped(states: seq<State>, actions: seq<Action>)
    requires IsRun(states, actions)
    requires forall j: nat, u: nat, k: nat | SetsEvent(states, actions, j, u) && k < |actions| && actions[k].Start? ::
      k < j
    ensures |states[|actions|].phases| == |states[0].indices|
    ensures forall t: nat | t < |states[0].indices| :: !OnSkipPath(states[|actions|].phases[t])
  {
    if states[0].indices == [] {
      EventIsSet(states, actions);
      PhasesKeepLength(states, actions);
    } else {
      SkipPath(states, actions, 0);
    }
    forall t: nat | t < |states[0].indices|
      ensures !OnSkipPath(states[|actions|].phases[t])
    {
      SkippedExactlyWhenLate(states, actions, t);
    }
  }

  lemma {:induction false} PhasesKeepLength(states: seq<State>, actions: seq<Action>)
    requires IsRun(states, actions)
    ensures |states[|actions|].phases| == |states[0].indices|
  {
    if actions != [] {
      var n := |actions| - 1;
      RunPrefix(states, actions, n);
      PhasesKeepLength(states[..n + 1], actions[..n]);
    }
  }

  // ---------------------------------------------------------------- the finished job

  predicate HasSucceeded(p: Phase) { Recorded(p).Some? && Recorded(p).value.Succeeded? }

  predicate HasFailed(p: Phase) { Recorded(p).Some? && !Recorded(p).value.Succeeded? }

  lemma {:induction false} TallySizes(indices: seq<nat>, phases: seq<Phase>)
    requires |indices| == |phases|
    ensures |Tally(SuccessOf, indices, phases)| == Count(phases, HasSucceeded)
    ensures |Tally(FailureOf, indices, phases)| == Count(phases, HasFailed)
  {
    if phases != [] {
      var n := |phases| - 1;
      TallySizes(indices[..n], phases[..n]);
      assert |SuccessOf(indices[n], phases[n])| == if HasSucceeded(phases[n]) then 1 else 0;
      assert |FailureOf(indices[n], phases[n])| == if HasFailed(phases[n]) then 1 else 0;
    }
  }

  /** The counters of the row are the numbers of tasks that have succeeded and failed. */
  lemma CountersMatch(s: State)
    requires Inv(s)
    ensures |s.job.results| == Count(s.phases, HasSucceeded)
    ensures s.job.failedCount == |s.job.failures| == Count(s.phases, HasFailed)
  {
    TallySizes(s.indices, s.phases);
    assert |multiset(s.job.results)| == |s.job.results|;
    assert |multiset(s.job.failures)| == |s.job.failures|;
  }

  lemma {:induction false} CountsAddUp(phases: seq<Phase>)
    requires forall t: nat | t < |phases| :: Recorded(phases[t]).Some?
    ensures Count(phases, HasSucceeded) + Count(phases, HasFailed) == |phases|
  {
    if phases != [] {
      assert Recorded(phases[|phases| - 1]).Some?;
      CountsAddUp(phases[..|phases| - 1]);
    }
  }

  /**
   A job whose gathering coroutine has finished: every accepted item has exactly one outcome, the counters add up
   and the job is failed exactly when some item failed or was skipped.
   */
  lemma FinishedJob(s: State)
    requires Inv(s) && s.main.Finished?
    ensures forall t: nat | t < |s.indices| :: OutcomesFor(s.job, s.indices[t]) == 1
    ensures s.job.completed == |s.job.results| + s.job.failedCount == |s.indices|
    ensures s.job.status == Failed <==> exists t: nat :: t < |s.phases| && HasFailed(s.phases[t])
    ensures s.job.status == Success <==> forall t: nat | t < |s.phases| :: HasSucceeded(s.phases[t])
  {
    AtMostOneOutcome(s);
    CountersMatch(s);
    CountsAddUp(s.phases);
    CountBounds(s.phases, HasFailed);
  }

  /**
   How a run ends: the final status is written exactly when no task raised. Otherwise the job row says
   "running" for good, although every task has ended, and only a task that raised may have left no outcome.
   */
  lemma QuietJob(s: State)
    requires Inv(s) && Quiet(s)
    ensures s.main.Finished? <==> forall t: nat | t < |s.phases| :: !Raised(s.phases[t])
    ensures s.job.status == Running <==> s.main.Aborted?
    ensures forall t: nat | t < |s.indices| && !Raised(s.phases[t]) :: OutcomesFor(s.job, s.indices[t]) == 1
  {
    AtMostOneOutcome(s);
  }

  // ---------------------------------------------------------------- what the entries of the job row go back to

  /** In step `k` an exception with message `reason` reaches the `except` clause of task `t`. */
  ghost predicate Fails(states: seq<State>, actions: seq<Action>, k: nat, t: nat, reason: string)
    requires IsRun(states, actions)
  {
    k < |actions| && actions[k] == Raise(t, reason) && InTry(states[k].phases[t])
  }

  /** In step `k` the ingest of task `t` returns the document id `doc`. */
  ghost predicate Ingests(states: seq<State>, actions: seq<Action>, k: nat, t: nat, doc: string)
    requires IsRun(states, actions)
  {
    k < |actions| && actions[k] == Proceed(t, doc) && states[k].phases[t].Ingesting?
  }

  /** The outcome a task has recorded or is about to record. */
  function OutcomeOf(p: Phase): Option<Outcome> {
    match p
    case SuccessWaiting(doc) => Some(Succeeded(doc))
    case SuccessRecording(doc) => Some(Succeeded(doc))
    case FailureWaiting(reason) => Some(Failure(reason))
    case FailureRecording(reason) => Some(Failure(reason))
    case _ => Recorded(p)
  }

  /** The exception `reason` has reached the `except` clause; at worst the record of it was lost. */
  predicate AfterFailure(p: Phase, reason: string) {
    OutcomeOf(p) == Some(Failure(reason)) || p == Closing(None) || p == Crashed(None)
  }

  lemma OutcomeStep(s: State, a: Action, t: nat)
    requires t < |s.phases| == |s.indices| && Enabled(s, a)
    ensures var s' := Apply(s, a); var before, after := OutcomeOf(s.phases[t]), OutcomeOf(s'.phases[t]);
      && (after == Some(Skipped) && before != after ==> s'.phases[t] == Done(Skipped))
      && (after.Some? && after.value.Failure? && before != after ==>
            a == Raise(t, after.value.reason) && InTry(s.phases[t]))
      && (after.Some? && after.value.Succeeded? && before != after ==>
            a == Proceed(t, after.value.doc) && s.phases[t].Ingesting?)
      && (forall r :: AfterFailure(s.phases[t], r) ==> AfterFailure(s'.phases[t], r))
      && (a.Raise? && a.task == t && InTry(s.phases[t]) ==> AfterFailure(s'.phases[t], a.reason))
      && (s.phases[t] == Done(Skipped) ==> s'.phases[t] == Done(Skipped))
  {
  }

  /** Where the outcome of a task comes from, and that an exception is not forgotten. */
  lemma {:induction false} OutcomesComeFrom(states: seq<State>, actions: seq<Action>, t: nat)
    requires IsRun(states, actions) && t < |states[0].indices|
    ensures |states[|actions|].phases| == |states[0].indices|
    ensures var p := states[|actions|].phases[t];
      match OutcomeOf(p)
      case Some(Succeeded(doc)) => exists k: nat :: Ingests(states, actions, k, t, doc)
      case Some(Failure(reason)) => exists k: nat :: Fails(states, actions, k, t, reason)
      case Some(Skipped) => p == Done(Skipped)
      case None => true
    ensures forall k: nat, reason | Fails(states, actions, k, t, reason) ::
      AfterFailure(states[|actions|].phases[t], reason)
  {
    PhasesKeepLength(states, actions);
    if actions != [] {
      var n := |actions| - 1;
      RunPrefix(states, actions, n);
      var states', actions' := states[..n + 1], actions[..n];
      OutcomesComeFrom(states', actions', t);
      OutcomeStep(states[n], actions[n], t);
      assert forall k: nat, doc | Ingests(states', actions', k, t, doc) :: Ingests(states, actions, k, t, doc);
      assert forall k: nat, r | Fails(states', actions', k, t, r) :: Fails(states, actions, k, t, r);
      assert forall k: nat, r | Fails(states, actions, k, t, r) :: k == n || Fails(states', actions', k, t, r);
      var outcome := OutcomeOf(states[n + 1].phases[t]);
      if outcome != OutcomeOf(states[n].phases[t]) {
        match outcome
        case Some(Succeeded(doc)) => assert Ingests(states, actions, n, t, doc);
        case Some(Failure(reason)) => assert Fails(states, actions, n, t, reason);
        case _ =>
      }
    }
  }

  lemma {:induction false} TallyHolds<E>(entry: (nat, Phase) -> multiset<E>, indices: seq<nat>, phases: seq<Phase>,
                                         e: E)
    requires |indices| == |phases|
    ensures e in Tally(entry, indices, phases)
       <==> exists t: nat :: t < |phases| && e in entry(indices[t], phases[t])
  {
    if phases != [] {
      var n := |phases| - 1;
      TallyHolds(entry, indices[..n], phases[..n], e);
      if t: nat :| t < n && e in entry(indices[t], phases[t]) {
        assert e in entry(indices[..n][t], phases[..n][t]);
      }
      if t: nat :| t < n && e in entry(indices[..n][t], phases[..n][t]) {
        assert e in entry(indices[t], phases[t]);
      }
    }
  }

  /** Task `t` answers for a failure entry: its own exception, or its start after the exception of another task. */
  ghost predicate AnswersFor(states: seq<State>, actions: seq<Action>, t: nat, entry: (nat, string))
    requires IsRun(states, actions)
  {
    && t < |states[0].indices| && states[0].indices[t] == entry.0
    && (|| (exists k: nat :: Fails(states, actions, k, t, entry.1))
        || (entry.1 == SKIP_REASON && exists j: nat, u: nat, k: nat :: StartsTooLate(states, actions, j, u, k, t)))
  }

  /** Some step ingests the document of a result entry, and it is the ingest of the task of that entry. */
  ghost predicate IngestedBy(states: seq<State>, actions: seq<Action>, t: nat, entry: (nat, string))
    requires IsRun(states, actions)
  {
    && t < |states[0].indices| && states[0].indices[t] == entry.0
    && exists k: nat :: Ingests(states, actions, k, t, entry.1)
  }

  lemma FailedTask(s: State, entry: (nat, string)) returns (t: nat)
    requires Inv(s) && entry in s.job.failures
    ensures t < |s.phases| && entry in FailureOf(s.indices[t], s.phases[t])
  {
    hide LockMatches, PermitsMatch, ItemsMatch, MainMatches, Distinct;
    assert entry in multiset(s.job.failures);
    TallyHolds(FailureOf, s.indices, s.phases, entry);
    t :| t < |s.phases| && entry in FailureOf(s.indices[t], s.phases[t]);
  }

  lemma SucceededTask(s: State, entry: (nat, string)) returns (t: nat)
    requires Inv(s) && entry in s.job.results
    ensures t < |s.phases| && entry in SuccessOf(s.indices[t], s.phases[t])
  {
    hide LockMatches, PermitsMatch, ItemsMatch, MainMatches, Distinct;
    assert entry in multiset(s.job.results);
    TallyHolds(SuccessOf, s.indices, s.phases, entry);
    t :| t < |s.phases| && entry in SuccessOf(s.indices[t], s.phases[t]);
  }

  /**
   No entry of the job row is invented: a result goes back to an ingest of the same task that returned the document
   id, a failure to an exception of the same task with that message or, under fail-fast, to its late start.
   */
  lemma EntriesGoBack(states: seq<State>, actions: seq<Action>, entry: (nat, string))
    requires IsRun(states, actions) && Distinct(states[0].indices) && states[0].options.maxConcurrent >= 1
    ensures entry in states[|actions|].job.results ==> exists t: nat :: IngestedBy(states, actions, t, entry)
    ensures entry in states[|actions|].job.failures ==> exists t: nat :: AnswersFor(states, actions, t, entry)
  {
    var s := states[|actions|];
    RunKeepsInv(states, actions);
    hide Fails, Ingests, StartsTooLate, IsRun, Distinct, Inv;
    if entry in s.job.results {
      var t := SucceededTask(s, entry);
      OutcomesComeFrom(states, actions, t);
      assert IngestedBy(states, actions, t, entry);
    }
    if entry in s.job.failures {
      var t := FailedTask(s, entry);
      FailureHasAnswer(states, actions, t, entry);
    }
  }

  lemma FailureHasAnswer(states: seq<State>, actions: seq<Action>, t: nat, entry: (nat, string))
    requires IsRun(states, actions) && t < |states[0].indices| == |states[|actions|].phases|
    requires entry in FailureOf(states[0].indices[t], states[|actions|].phases[t])
    ensures AnswersFor(states, actions, t, entry)
  {
    OutcomesComeFrom(states, actions, t);
    SkippedExactlyWhenLate(states, actions, t);
    hide Fails, Ingests, StartsTooLate, IsRun;
  }

  /** When the job has finished nothing is lost either: the failures are exactly what the tasks answer for. */
  lemma FailuresAreExact(states: seq<State>, actions: seq<Action>, entry: (nat, string))
    requires IsRun(states, actions) && Distinct(states[0].indices) && states[0].options.maxConcurrent >= 1
    requires states[|actions|].main.Finished?
    ensures entry in states[|actions|].job.failures <==> exists t: nat :: AnswersFor(states, actions, t, entry)
  {
    EntriesGoBack(states, actions, entry);
    if t: nat :| AnswersFor(states, actions, t, entry) {
      AnswerIsRecorded(states, actions, t, entry);
    }
  }

  lemma AnswerIsRecorded(states: seq<State>, actions: seq<Action>, t: nat, entry: (nat, string))
    requires IsRun(states, actions) && Distinct(states[0].indices) && states[0].options.maxConcurrent >= 1
    requires states[|actions|].main.Finished? && AnswersFor(states, actions, t, entry)
    ensures entry in states[|actions|].job.failures
  {
    var s := states[|actions|];
    RunKeepsInv(states, actions);
    OutcomesComeFrom(states, actions, t);
    SkippedExactlyWhenLate(states, actions, t);
    hide IsRun, Fails, Ingests, StartsTooLate, Distinct;
    FinishedIsDone(s, t);
    FailureIsListed(s, t, entry);
  }

  lemma FinishedIsDone(s: State, t: nat)
    requires Inv(s) && s.main.Finished? && t < |s.phases|
    ensures s.phases[t].Done?
  {
  }

  lemma FailureIsListed(s: State, t: nat, entry: (nat, string))
    requires Inv(s) && t < |s.phases| && entry in FailureOf(s.indices[t], s.phases[t])
    ensures entry in s.job.failures
  {
    hide LockMatches, PermitsMatch, ItemsMatch, MainMatches, Distinct, FailureOf;
    TallyHolds(FailureOf, s.indices, s.phases, entry);
    assert entry in multiset(s.job.failures);
  }

  lemma ExtendRun(states: seq<State>, actions: seq<Action>, a: Action)
    requires IsRun(states, actions) && Inv(states[|actions|]) && Enabled(states[|actions|], a)
    ensures var s, s' := states[|actions|], Apply(states[|actions|], a);
      IsRun(states + [s'], actions + [a]) && Inv(s') && s'.indices == s.indices && s'.options == s.options
  {
    var s, s' := states[|actions|], Apply(states[|actions|], a);
    StepKeepsInv(s, a);
    if OfTask(a) { MoveShape(s, a); }
    RunExtends(states, actions, s', a);
  }

  lemma RunExtends(states: seq<State>, actions: seq<Action>, s': State, a: Action)
    requires IsRun(states, actions) && Enabled(states[|actions|], a)
    requires s' == Apply(states[|actions|], a) && |s'.indices| == |s'.phases|
    ensures IsRun(states + [s'], actions + [a])
  {
  }

  /** Runs the tasks under an arbitrary scheduler until nothing is left to happen. */
  method GatherAll(options: Options, indices: seq<nat>, choose: State -> Action)
    returns (s: State, ghost states: seq<State>, ghost actions: seq<Action>)
    requires Distinct(indices) && options.maxConcurrent >= 1
    requires forall s :: Inv(s) && !Quiet(s) ==> Enabled(s, choose(s))
    ensures Inv(s) && Quiet(s) && s.indices == indices && s.options == options
    ensures IsRun(states, actions) && states[|actions|] == s && states[0] == Init(options, indices)
  {
    s := Init(options, indices);
    InitInv(options, indices);
    states, actions := [s], [];
    while !Quiet(s)
      invariant Inv(s) && s.indices == indices && s.options == options
      invariant IsRun(states, actions) && states[|actions|] == s && states[0] == Init(options, indices)
      decreases Remaining(s)
    {
      var a := choose(s);
      StepDecreases(s, a);
      ExtendRun(states, actions, a);
      s := Apply(s, a);
      states, actions := states + [s], actions + [a];
    }
  }

  // ---------------------------------------------------------------- two runs, action by action

  /** One item; its ingest raises, and so does the call that should record this. */
  const STUCK_ACTIONS := [
    Start(0), Acquire(0), Acquire(0), Proceed(0, ""), Raise(0, "ingest"), Acquire(0), Raise(0, "record"),
    Proceed(0, ""), Propagate]

  /** The state of a job with one item before anything is recorded. */
  function OneTask(p: Phase, permits: nat, init: Option<nat>, update: Option<nat>, main: Main): State {
    State(Options(1, false), [0], [p], permits, init, update, false, JobRow(Running, 0, 0, [], []), main)
  }

  const STUCK_STATES := [
    OneTask(Unstarted, 1, None, None, Gathering),
    OneTask(PermitWaiting, 1, None, None, Gathering),
    OneTask(InitWaiting, 0, None, None, Gathering),
    OneTask(Initialising, 0, Some(0), None, Gathering),
    OneTask(Ingesting, 0, None, None, Gathering),
    OneTask(FailureWaiting("ingest"), 0, None, None, Gathering),
    OneTask(FailureRecording("ingest"), 0, None, Some(0), Gathering),
    OneTask(Closing(None), 0, None, None, Gathering),
    OneTask(Crashed(None), 1, None, None, Gathering),
    OneTask(Crashed(None), 1, None, None, Aborted)]

  /** Action `a` is enabled in `s` and leads to `s'`. */
  ghost predicate Leads(s: State, a: Action, s': State) {
    |s.indices| == |s.phases| && Enabled(s, a) && s' == Apply(s, a)
  }

  lemma StuckBegins(k: nat)
    requires k < 5
    ensures Leads(STUCK_STATES[k], STUCK_ACTIONS[k], STUCK_STATES[k + 1])
  {
  }

  lemma StuckEnds(k: nat)
    requires 5 <= k < 9
    ensures Leads(STUCK_STATES[k], STUCK_ACTIONS[k], STUCK_STATES[k + 1])
  {
    if k == 8 { assert Raised(STUCK_STATES[8].phases[0]); }
  }

  lemma StepsMakeRun(states: seq<State>, actions: seq<Action>, options: Options, indices: seq<nat>)
    requires |states| == |actions| + 1 && states[0] == Init(options, indices)
    requires forall k | 0 <= k < |actions| :: Leads(states[k], actions[k], states[k + 1])
    requires |states[|actions|].indices| == |states[|actions|].phases|
    ensures IsRun(states, actions)
  {
    forall k | 0 <= k < |states|
      ensures |states[k].indices| == |states[k].phases|
    {
      if k < |actions| { assert Leads(states[k], actions[k], states[k + 1]); }
    }
    forall k | 0 <= k < |actions|
      ensures Enabled(states[k], actions[k]) && states[k + 1] == Apply(states[k], actions[k])
    {
      assert Leads(states[k], actions[k], states[k + 1]);
    }
  }

  /**
   A run of one item after which nothing is left to happen, nothing is recorded, and the job row says that the job
   is running.
   */
  lemma StuckJob()
    ensures IsRun(STUCK_STATES, STUCK_ACTIONS) && STUCK_STATES[0] == Init(Options(1, false), [0])
    ensures Quiet(STUCK_STATES[9]) && STUCK_STATES[9].job == JobRow(Running, 0, 0, [], [])
  {
    forall k | 0 <= k < 9
      ensures Leads(STUCK_STATES[k], STUCK_ACTIONS[k], STUCK_STATES[k + 1])
    {
      if k < 5 { StuckBegins(k); } else { StuckEnds(k); }
    }
    OneItemStart();
    StepsMakeRun(STUCK_STATES, STUCK_ACTIONS, Options(1, false), [0]);
  }

  lemma OneItemStart()
    ensures Init(Options(1, false), [0]) == OneTask(Unstarted, 1, None, None, Gathering)
  {
  }

  /** Two items, one permit, fail-fast on: the second waits for the permit while the first raises. */
  const WAITING_ACTIONS := [
    Start(0), Start(1), Acquire(0), Acquire(0), Proceed(0, ""), Raise(0, "boom"), Acquire(0), Proceed(0, ""),
    Proceed(0, ""), Acquire(1), Acquire(1), Proceed(1, ""), Proceed(1, "doc"), Acquire(1), Proceed(1, ""),
    Proceed(1, ""), Finish]

  function TwoTasks(p: Phase, q: Phase, permits: nat, init: Option<nat>, update: Option<nat>, event: bool): State {
    var failures := if p.Closing? || p.Done? then [(0, "boom")] else [];
    var results := if q.Closing? || q.Done? then [(1, "doc")] else [];
    State(Options(1, true), [0, 1], [p, q], permits, init, update, event,
          JobRow(Running, |failures| + |results|, |failures|, results, failures), Gathering)
  }

  const FIRST := Done(Failure("boom"))

  const WAITING_STATES := [
    TwoTasks(Unstarted, Unstarted, 1, None, None, false),
    TwoTasks(PermitWaiting, Unstarted, 1, None, None, false),
    TwoTasks(PermitWaiting, PermitWaiting, 1, None, None, false),
    TwoTasks(InitWaiting, PermitWaiting, 0, None, None, false),
    TwoTasks(Initialising, PermitWaiting, 0, Some(0), None, false),
    TwoTasks(Ingesting, PermitWaiting, 0, None, None, false),
    TwoTasks(FailureWaiting("boom"), PermitWaiting, 0, None, None, true),
    TwoTasks(FailureRecording("boom"), PermitWaiting, 0, None, Some(0), true),
    TwoTasks(Closing(Some(Failure("boom"))), PermitWaiting, 0, None, None, true),
    TwoTasks(FIRST, PermitWaiting, 1, None, None, true),
    TwoTasks(FIRST, InitWaiting, 0, None, None, true),
    TwoTasks(FIRST, Initialising, 0, Some(1), None, true),
    TwoTasks(FIRST, Ingesting, 0, None, None, true),
    TwoTasks(FIRST, SuccessWaiting("doc"), 0, None, None, true),
    TwoTasks(FIRST, SuccessRecording("doc"), 0, None, Some(1), true),
    TwoTasks(FIRST, Closing(Some(Succeeded("doc"))), 0, None, None, true),
    TwoTasks(FIRST, Done(Succeeded("doc")), 1, None, None, true),
    TwoTasks(FIRST, Done(Succeeded("doc")), 1, None, None, true).(
      main := Finished, job := JobRow(Failed, 2, 1, [(1, "doc")], [(0, "boom")]))]

  lemma WaitingStarts(k: nat)
    requires 0 <= k < 3
    ensures Leads(WAITING_STATES[k], WAITING_ACTIONS[k], WAITING_STATES[k + 1])
  {
  }

  lemma WaitingRaises(k: nat)
    requires 3 <= k < 6
    ensures Leads(WAITING_STATES[k], WAITING_ACTIONS[k], WAITING_STATES[k + 1])
  {
  }

  lemma WaitingForLock(k: nat)
    requires k == 6
    ensures Leads(WAITING_STATES[k], WAITING_ACTIONS[k], WAITING_STATES[k + 1])
  {
  }

  lemma FirstIsRecorded()
    ensures Leads(TwoTasks(FailureRecording("boom"), PermitWaiting, 0, None, Some(0), true), Proceed(0, ""),
                  TwoTasks(Closing(Some(Failure("boom"))), PermitWaiting, 0, None, None, true))
  {
  }

  lemma WaitingRecords(k: nat)
    requires k == 7
    ensures Leads(WAITING_STATES[k], WAITING_ACTIONS[k], WAITING_STATES[k + 1])
  {
    hide Leads, TwoTasks;
    FirstIsRecorded();
  }

  lemma WaitingReturns(k: nat)
    requires 8 <= k < 10
    ensures Leads(WAITING_STATES[k], WAITING_ACTIONS[k], WAITING_STATES[k + 1])
  {
  }

  lemma WaitingProceeds(k: nat)
    requires 10 <= k < 12
    ensures Leads(WAITING_STATES[k], WAITING_ACTIONS[k], WAITING_STATES[k + 1])
  {
  }

  lemma WaitingIngests(k: nat)
    requires 12 <= k < 14
    ensures Leads(WAITING_STATES[k], WAITING_ACTIONS[k], WAITING_STATES[k + 1])
  {
  }

  lemma WaitingSucceeds(k: nat)
    requires 14 <= k < 16
    ensures Leads(WAITING_STATES[k], WAITING_ACTIONS[k], WAITING_STATES[k + 1])
  {
  }

  lemma WaitingEnds(k: nat)
    requires 16 <= k < 17
    ensures Leads(WAITING_STATES[k], WAITING_ACTIONS[k], WAITING_STATES[k + 1])
  {
  }

  /**
   A run in which the second task is still waiting for the permit when the exception of the first sets the event, and
   yet is ingested and recorded as a success; the job fails for the first item alone.
   */
  lemma WaitingTaskIsIngested()
    ensures IsRun(WAITING_STATES, WAITING_ACTIONS) && WAITING_STATES[0] == Init(Options(1, true), [0, 1])
    ensures WAITING_STATES[6].event && WAITING_STATES[6].phases[1] == PermitWaiting
    ensures WAITING_STATES[17].main.Finished?
    ensures WAITING_STATES[17].job == JobRow(Failed, 2, 1, [(1, "doc")], [(0, "boom")])
  {
    forall k | 0 <= k < 17
      ensures Leads(WAITING_STATES[k], WAITING_ACTIONS[k], WAITING_STATES[k + 1])
    {
      if k < 3 {
        WaitingStarts(k);
      } else if k < 6 {
        WaitingRaises(k);
      } else if k < 7 {
        WaitingForLock(k);
      } else if k < 8 {
        WaitingRecords(k);
      } else if k < 10 {
        WaitingReturns(k);
      } else if k < 12 {
        WaitingProceeds(k);
      } else if k < 14 {
        WaitingIngests(k);
      } else if k < 16 {
        WaitingSucceeds(k);
      } else {
        WaitingEnds(k);
      }
    }
    TwoItemsStart();
    StepsMakeRun(WAITING_STATES, WAITING_ACTIONS, Options(1, true), [0, 1]);
  }

  lemma TwoItemsStart()
    ensures Init(Options(1, true), [0, 1]) == TwoTasks(Unstarted, Unstarted, 1, None, None, false)
  {
  }

  // ---------------------------------------------------------------- accepting and rejecting the request's items

  datatype Source = Url | PlainText | Base64

  datatype Item = Item(source: Source, url: Option<string>, text: Option<string>,
                       content: Option<string>, mime: Option<string>)

  const ALLOWED_MIME_TYPES: set<string> :=
    {"application/json", "text/csv", "text/html", "text/markdown", "text/plain"}

  /** A missing field and an empty one are both falsy. */
  function OrEmpty(field: Option<string>): string {
    if field.Some? then field.value else ""
  }

  /** Why an item is rejected, if it is. */
  function ValidateItem(item: Item): Option<string> {
    if item.source.Url? && OrEmpty(item.url) == "" then Some("url is required")
    else if item.source.PlainText? && Text.Strip(OrEmpty(item.text)) == "" then Some("text is required")
    else if item.source.Base64? then
      if OrEmpty(item.content) == "" then Some("content_b64 is required")
      else if OrEmpty(item.mime) == "" then Some("mime is required")
      else if Text.Lower(Text.Strip(Text.UpTo(item.mime.value, ';'))) !in ALLOWED_MIME_TYPES then
        Some("mime is not supported")
      else None
    else None
  }

  /** Which items are accepted, source by source; a text item has to hold something other than white space. */
  lemma AcceptedExactlyWhen(item: Item)
    ensures ValidateItem(item).None? <==>
      match item.source
      case Url => item.url.Some? && item.url.value != ""
      case PlainText => item.text.Some? && exists i :: 0 <= i < |item.text.value| && !Text.IsSpace(item.text.value[i])
      case Base64 =>
        && item.content.Some? && item.content.value != "" && item.mime.Some? && item.mime.value != ""
        && Text.Lower(Text.Strip(Text.UpTo(item.mime.value, ';'))) in ALLOWED_MIME_TYPES
  {
    if item.source.PlainText? { BlankText(OrEmpty(item.text)); }
  }

  lemma BlankText(text: string)
    ensures Text.Strip(text) == "" <==> forall i | 0 <= i < |text| :: Text.IsSpace(text[i])
  {
    var from := Text.TrimShape(text, Text.IsSpace);
    var r := Text.Strip(text);
    if r != "" { assert text[from] == r[0]; }
  }

  /** Parameters behind a semicolon do not matter, and the reason for a rejection is what is missing first. */
  lemma MimeParametersAreIgnored(item: Item, name: string, rest: string)
    requires item.source.Base64? && name != "" && ';' !in name
    ensures ValidateItem(item.(mime := Some(name + ";" + rest))) == ValidateItem(item.(mime := Some(name)))
    ensures OrEmpty(item.content) == "" <==> ValidateItem(item) == Some("content_b64 is required")
  {
    Text.UpToStops(name, ';', rest);
    assert "content_b64 is required"[0] == 'c' && "mime is required"[0] == 'm' && "mime is not supported"[0] == 'm';
  }

  ghost predicate Increasing<T>(list: seq<(nat, T)>) {
    forall i, j | 0 <= i < j < |list| :: list[i].0 < list[j].0
  }

  ghost predicate Mentions<T>(list: seq<(nat, T)>, index: nat) {
    exists k :: 0 <= k < |list| && list[k].0 == index
  }

  /** Splits the request into rejected and accepted items, in request order. */
  method SplitBatch(items: seq<Item>) returns (rejected: seq<(nat, string)>, accepted: seq<(nat, Item)>)
    ensures Increasing(rejected) && Increasing(accepted)
    ensures forall k | 0 <= k < |rejected| ::
      rejected[k].0 < |items| && ValidateItem(items[rejected[k].0]) == Some(rejected[k].1)
    ensures forall k | 0 <= k < |accepted| ::
      accepted[k].0 < |items| && ValidateItem(items[accepted[k].0]).None? && accepted[k].1 == items[accepted[k].0]
    ensures forall i: nat | i < |items| :: Mentions(rejected, i) <==> !Mentions(accepted, i)
    ensures |rejected| + |accepted| == |items|
  {
    rejected, accepted := [], [];
    for index := 0 to |items|
      invariant Increasing(rejected) && Increasing(accepted)
      invariant forall k | 0 <= k < |rejected| ::
        rejected[k].0 < index && ValidateItem(items[rejected[k].0]) == Some(rejected[k].1)
      invariant forall k | 0 <= k < |accepted| ::
        accepted[k].0 < index && ValidateItem(items[accepted[k].0]).None? && accepted[k].1 == items[accepted[k].0]
      invariant forall i: nat | i < index :: Mentions(rejected, i) <==> !Mentions(accepted, i)
      invariant |rejected| + |accepted| == index
    {
      ghost var before, before' := rejected, accepted;
      var reason := ValidateItem(items[index]);
      if reason.Some? {
        rejected := rejected + [(index, reason.value)];
      } else {
        accepted := accepted + [(index, items[index])];
      }
      MentionsGrows(before, rejected, index);
      MentionsGrows(before', accepted, index);
    }
  }

  lemma MentionsGrows<T>(before: seq<(nat, T)>, after: seq<(nat, T)>, index: nat)
    requires after == before || (|after| == |before| + 1 && after[..|before|] == before && after[|before|].0 == index)
    requires forall k | 0 <= k < |before| :: before[k].0 < index
    ensures forall i: nat | i < index :: Mentions(after, i) <==> Mentions(before, i)
    ensures Mentions(after, index) <==> after != before
  {
    forall i: nat | i < index && Mentions(before, i)
      ensures Mentions(after, i)
    {
      var k :| 0 <= k < |before| && before[k].0 == i;
      assert after[k] == before[k];
    }
    forall i: nat | i < index && Mentions(after, i)
      ensures Mentions(before, i)
    {
      var k :| 0 <= k < |after| && after[k].0 == i;
      assert before[k] == after[k];
    }
  }

  function IndicesOf(accepted: seq<(nat, Item)>): seq<nat> {
    seq(|accepted|, k requires 0 <= k < |accepted| => accepted[k].0)
  }

  /** Asked for at least one and at most sixteen concurrent tasks, whatever the request says. */
  function JobOptions(maxConcurrent: int, failFast: bool): Options {
    var clamped := if maxConcurrent > 16 then 16 else maxConcurrent;
    Options(if clamped < 1 then 1 else clamped, failFast)
  }

  /**
   The whole request: once the job has finished, every item of the request has been answered exactly once,
   by a rejection, by a result or by a failure. The job fails exactly when some item has failed, and then `states`
   and `actions` show the exception or, under fail-fast only, the late start; it stays "running" exactly when a task
   raised. A request without an accepted item succeeds at once.
   */
  method ProcessRequest(items: seq<Item>, maxConcurrent: int, failFast: bool, choose: State -> Action)
    returns (rejected: seq<(nat, string)>, job: JobRow, ghost states: seq<State>, ghost actions: seq<Action>)
    requires forall s :: Inv(s) && !Quiet(s) ==> Enabled(s, choose(s))
    ensures job.status != Running ==> forall i: nat | i < |items| ::
      OutcomesFor(job, i) == if ValidateItem(items[i]).None? then 1 else 0
    ensures forall i: nat | i < |items| :: Mentions(rejected, i) <==> ValidateItem(items[i]).Some?
    ensures job.status != Running ==> |rejected| + job.completed == |items|
    ensures (forall i: nat | i < |items| :: ValidateItem(items[i]).Some?) ==> job == JobRow(Success, 0, 0, [], [])
    ensures job.status != Running ==> (job.status == Failed <==> job.failures != [])
    ensures job.status != Running ==> (job.status == Success <==> job.failures == [])
    ensures IsRun(states, actions) && states[0].options.failFast == failFast
    ensures states[0].indices != [] ==> Quiet(states[|actions|]) && job == states[|actions|].job
    ensures 1 <= states[0].options.maxConcurrent <= 16
    ensures 1 <= maxConcurrent <= 16 ==> states[0].options.maxConcurrent == maxConcurrent
    ensures forall i: nat :: i in states[0].indices <==> i < |items| && ValidateItem(items[i]).None?
    ensures job.status == Running <==> exists t: nat ::
      t < |states[|actions|].phases| && Raised(states[|actions|].phases[t])
    ensures forall e | e in job.results :: exists t: nat :: IngestedBy(states, actions, t, e)
    ensures forall e | e in job.failures :: exists t: nat :: AnswersFor(states, actions, t, e)
    ensures !failFast ==> forall e | e in job.failures :: exists t: nat, k: nat ::
      t < |states[0].indices| && states[0].indices[t] == e.0 && Fails(states, actions, k, t, e.1)
  {
    hide Inv, Quiet, Distinct, Fails, IngestedBy, AnswersFor, OutcomesFor, ValidateItem;
    var accepted;
    rejected, accepted := SplitBatch(items);
    var options, indices := JobOptions(maxConcurrent, failFast), IndicesOf(accepted);
    forall i: nat | i < |items|
      ensures Mentions(rejected, i) <==> ValidateItem(items[i]).Some?
      ensures i in indices <==> ValidateItem(items[i]).None?
    {
      if Mentions(accepted, i) {
        var k :| 0 <= k < |accepted| && accepted[k].0 == i;
        assert indices[k] == i;
      }
    }
    if accepted == [] {
      job := JobRow(Success, 0, 0, [], []);
      NothingRecordedFor(job);
      states, actions := [Init(options, indices)], [];
    } else {
      var s;
      DistinctIndices(accepted);
      s, states, actions := GatherAll(options, indices, choose);
      job := s.job;
      assert indices[0] == accepted[0].0;
      QuietAnswers(s);
      EntriesAllGoBack(states, actions);
    }
  }

  /** What a quiet job says about the indices it was given, and with which status. */
  lemma QuietAnswers(s: State)
    requires Inv(s) && Quiet(s)
    ensures s.job.status != Running ==> forall i: nat :: OutcomesFor(s.job, i) == if i in s.indices then 1 else 0
    ensures s.job.status != Running ==> s.job.completed == |s.indices|
    ensures s.job.status != Running ==> (s.job.status == Failed <==> s.job.failures != [])
    ensures s.job.status != Running ==> (s.job.status == Success <==> s.job.failures == [])
    ensures s.job.status == Running <==> exists t: nat :: t < |s.phases| && Raised(s.phases[t])
  {
    QuietJob(s);
    AtMostOneOutcome(s);
    StatusIsExact(s);
    if s.main.Finished? { FinishedJob(s); }
    hide *;
    forall i: nat | s.job.status != Running
      ensures OutcomesFor(s.job, i) == if i in s.indices then 1 else 0
    {
      if i in s.indices {
        var t: nat :| t < |s.indices| && s.indices[t] == i;
      }
    }
  }

  lemma NothingRecordedFor(job: JobRow)
    requires job.results == [] && job.failures == []
    ensures forall i: nat :: OutcomesFor(job, i) == 0
  {
  }

  lemma DistinctIndices(accepted: seq<(nat, Item)>)
    requires Increasing(accepted)
    ensures Distinct(IndicesOf(accepted))
  {
  }

  lemma StatusIsExact(s: State)
    requires Inv(s) && Quiet(s)
    ensures s.job.status != Running ==> (s.job.status == Failed <==> s.job.failures != [])
    ensures s.job.status != Running ==> (s.job.status == Success <==> s.job.failures == [])
    ensures s.main.Finished? || s.job.status == Running
  {
    hide LockMatches, PermitsMatch, ItemsMatch, Tally, Distinct;
  }

  lemma EntriesAllGoBack(states: seq<State>, actions: seq<Action>)
    requires IsRun(states, actions) && Distinct(states[0].indices) && states[0].options.maxConcurrent >= 1
    ensures var job := states[|actions|].job;
      && (forall e | e in job.results :: exists t: nat :: IngestedBy(states, actions, t, e))
      && (forall e | e in job.failures :: exists t: nat :: AnswersFor(states, actions, t, e))
    ensures !states[0].options.failFast ==> forall e | e in states[|actions|].job.failures ::
      exists t: nat, k: nat ::
        t < |states[0].indices| && states[0].indices[t] == e.0 && Fails(states, actions, k, t, e.1)
  {
    forall e
      ensures e in states[|actions|].job.results ==> exists t: nat :: IngestedBy(states, actions, t, e)
      ensures e in states[|actions|].job.failures ==> exists t: nat :: AnswersFor(states, actions, t, e)
    {
      EntriesGoBack(states, actions, e);
    }
    if !states[0].options.failFast {
      forall e | e in states[|actions|].job.failures
        ensures exists t: nat, k: nat ::
          t < |states[0].indices| && states[0].indices[t] == e.0 && Fails(states, actions, k, t, e.1)
      {
        var t: nat :| AnswersFor(states, actions, t, e);
        var k: nat :| Fails(states, actions, k, t, e.1);
      }
    }
  }
}
