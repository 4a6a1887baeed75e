/** The field worker protocol: a pending slot and an in-progress flag between callers and one worker
    thread. One action per critical section and per callback. */
module FieldWorker {
  import opened Numeric

  /** What a job asks for does not matter here. */
  type Job = nat

  /** Where the worker thread stands. */
  datatype Pc =
    | NotStarted
    | LoopHead
    | Awake                             // about to evaluate the wait predicate under the lock
    | Sleeping                          // blocked on the condition variable
    | Computing(job: Job)
    | Computed(job: Job, ok: bool)      // about to reset the flag
    | Reporting(job: Job, ok: bool)     // flag reset, about to report an error, if there is one
    | Notifying(job: Job, ok: bool)     // about to invoke the completion callback
    | Exited

  datatype Notice = Notice(job: Job, ok: bool)

  datatype State = State(
    pending: Option<Job>,
    inProgress: bool,
    pc: Pc,
    stopRequested: bool,
    owed: nat,                // callers between unlocking and notifying
    accepted: seq<Job>,       // history
    refused: nat,             // history: submissions answered with a warning
    errors: seq<Job>,         // history: jobs whose failure was reported
    noticed: seq<Notice>)     // history

  datatype Action =
    | Submit(job: Job)        // the critical section of a call with measurements, from any thread or callback
    | Notify                  // the notification of such a call
    | RequestStop             // also wakes the worker
    | SpuriousWake
    | Work(ok: bool)          // the worker's next step; ok is the outcome when that step is a computation

  function Initial(): State {
    State(None, false, NotStarted, false, 0, [], 0, [], [])
  }

  predicate Enabled(s: State, a: Action) {
    match a
    case Submit(_) => true
    case Notify => s.owed > 0
    case RequestStop => s.pc != NotStarted
    case SpuriousWake => s.pc == Sleeping
    case Work(_) => s.pc != NotStarted && s.pc != Sleeping && s.pc != Exited
  }

  /** The critical section of `calculate_field_async`: refused while the flag is set, otherwise the worker
      is started if there is none, and the job becomes pending. */
  function Submitted(s: State, job: Job): State {
    if s.inProgress then s.(refused := s.refused + 1)
    else s.(pending := Some(job), inProgress := true, pc := if s.pc == NotStarted then LoopHead else s.pc,
            owed := s.owed + 1, accepted := s.accepted + [job])
  }

  /** The predicate holds: take the job. */
  function Taken(s: State): State
    requires s.pending.Some?
  {
    s.(pending := None, pc := Computing(s.pending.value))
  }

  /** One step of `field_worker_loop`. */
  function Worked(s: State, ok: bool): State
    requires Enabled(s, Work(ok))
  {
    match s.pc
    case LoopHead => s.(pc := if s.stopRequested then Exited else Awake)
    case Awake =>
      if s.pending.Some? then Taken(s) else if s.stopRequested then s.(pc := Exited) else s.(pc := Sleeping)
    case Computing(job) => s.(pc := Computed(job, ok))
    case Computed(job, outcome) => s.(inProgress := false, pc := Reporting(job, outcome))
    case Reporting(job, outcome) =>
      s.(pc := Notifying(job, outcome), errors := if outcome then s.errors else s.errors + [job])
    case Notifying(job, outcome) => s.(noticed := s.noticed + [Notice(job, outcome)], pc := LoopHead)
  }

  function Woken(s: State): State {
    if s.pc == Sleeping then s.(pc := Awake) else s
  }

  function Next(s: State, a: Action): State
    requires Enabled(s, a)
  {
    match a
    case Submit(job) => Submitted(s, job)
    case Notify => Woken(s.(owed := s.owed - 1))
    case RequestStop => Woken(s.(stopRequested := true))
    case SpuriousWake => Woken(s)
    case Work(ok) => Worked(s, ok)
  }

  /** The actions can happen one after the other, starting from s. */
  predicate Possible(s: State, actions: seq<Action>)
    decreases |actions|
  {
    actions == [] || (Enabled(s, actions[0]) && Possible(Next(s, actions[0]), actions[1..]))
  }

  function After(s: State, actions: seq<Action>): State
    requires Possible(s, actions)
    decreases |actions|
  {
    if actions == [] then s else After(Next(s, actions[0]), actions[1..])
  }

  // ----- The invariant -----

  function Jobs(notices: seq<Notice>): seq<Job> {
    seq(|notices|, i requires 0 <= i < |notices| => notices[i].job)
  }

  function PendingJobs(s: State): seq<Job> {
    if s.pending.Some? then [s.pending.value] else []
  }

  function RunningJobs(s: State): seq<Job> {
    if s.pc.Computing? || s.pc.Computed? then [s.pc.job] else []
  }

  /** Computed, flag reset, but the caller has not been told. */
  function AwaitingNotice(s: State): seq<Job> {
    if s.pc.Reporting? || s.pc.Notifying? then [s.pc.job] else []
  }

  /** Every accepted job is, in the order of acceptance, noticed, awaiting its notice, running or pending. */
  predicate Accounted(s: State) {
    s.accepted == Jobs(s.noticed) + AwaitingNotice(s) + RunningJobs(s) + PendingJobs(s)
  }

  predicate Invariant(s: State) {
    && (s.inProgress <==> s.pending.Some? || s.pc.Computing? || s.pc.Computed?)
    && (s.pending.Some? ==> !s.pc.Computing? && !s.pc.Computed? && s.pc != NotStarted)
    && Accounted(s)
    && (s.pc == NotStarted ==> s.accepted == [])
    && (s.pc == Sleeping && s.pending.Some? ==> s.owed > 0)
    && (s.pc == Sleeping ==> !s.stopRequested)
    && (s.pc == Exited ==> s.stopRequested)
  }

  lemma JobsExtend(notices: seq<Notice>, notice: Notice)
    ensures Jobs(notices + [notice]) == Jobs(notices) + [notice.job]
  {
  }

  lemma StepKeepsInvariant(s: State, a: Action)
    requires Invariant(s) && Enabled(s, a)
    ensures Invariant(Next(s, a))
  {
    var t := Next(s, a);
    match a
    case Submit(job) =>
      if !s.inProgress {
        assert PendingJobs(s) == [] && RunningJobs(s) == [] && RunningJobs(t) == [];
        assert AwaitingNotice(t) == AwaitingNotice(s);
        assert t.accepted == Jobs(t.noticed) + AwaitingNotice(t) + RunningJobs(t) + PendingJobs(t);
      }
    case Work(_) =>
      if s.pc.Notifying? {
        JobsExtend(s.noticed, Notice(s.pc.job, s.pc.ok));
      }
      assert t.accepted == Jobs(t.noticed) + AwaitingNotice(t) + RunningJobs(t) + PendingJobs(t);
    case Notify =>
    case RequestStop =>
    case SpuriousWake =>
  }

  /** The invariant holds after every run, however callers and worker interleave. */
  lemma {:induction false} RunKeepsInvariant(s: State, actions: seq<Action>)
    requires Invariant(s) && Possible(s, actions)
    ensures Invariant(After(s, actions))
    decreases |actions|
  {
    if actions != [] {
      StepKeepsInvariant(s, actions[0]);
      RunKeepsInvariant(Next(s, actions[0]), actions[1..]);
    }
  }

  /** After any run from the start: the flag is set exactly while a job is pending or computed; the accepted
      jobs are the noticed ones followed by at most one awaiting its notice, one running and one pending,
      in the order of acceptance; and running and pending exclude each other. */
  lemma FieldWorkerIsSafe(actions: seq<Action>)
    requires Possible(Initial(), actions)
    ensures var s := After(Initial(), actions);
            && (s.inProgress <==> PendingJobs(s) + RunningJobs(s) != [])
            && s.accepted == Jobs(s.noticed) + AwaitingNotice(s) + RunningJobs(s) + PendingJobs(s)
            && |PendingJobs(s) + RunningJobs(s)| <= 1 && |AwaitingNotice(s)| <= 1
  {
    RunKeepsInvariant(Initial(), actions);
  }

  /** A pending job is never overwritten: a submission is only accepted when the slot is empty. */
  lemma PendingIsNeverOverwritten(actions: seq<Action>, job: Job)
    requires Possible(Initial(), actions)
    ensures var s := After(Initial(), actions);
            var t := Next(s, Submit(job));
            && (s.pending.Some? ==> t == s.(refused := s.refused + 1))
            && (t.accepted != s.accepted ==> s.pending == None && t.pending == Some(job))
  {
    RunKeepsInvariant(Initial(), actions);
  }

  /** Histories only grow, so jobs complete in the order of acceptance. */
  lemma {:induction false} HistoriesGrow(s: State, actions: seq<Action>)
    requires Possible(s, actions)
    ensures s.accepted <= After(s, actions).accepted && s.noticed <= After(s, actions).noticed
    decreases |actions|
  {
    if actions != [] {
      HistoriesGrow(Next(s, actions[0]), actions[1..]);
    }
  }

  lemma CompletionFollowsAcceptance(actions: seq<Action>)
    requires Possible(Initial(), actions)
    ensures Jobs(After(Initial(), actions).noticed) <= After(Initial(), actions).accepted
  {
    FieldWorkerIsSafe(actions);
  }

  // ----- Answers -----

  /** After any run, a submission is accepted exactly if every accepted job has been noticed or only awaits its notice,
      and refused otherwise; nothing else changes then. */
  lemma SubmissionAcceptedExactlyWhen(actions: seq<Action>, job: Job)
    requires Possible(Initial(), actions)
    ensures var s := After(Initial(), actions);
            var t := Next(s, Submit(job));
            if s.accepted == Jobs(s.noticed) + AwaitingNotice(s)
            then t.accepted == s.accepted + [job] && t.refused == s.refused && t.pending == Some(job)
            else t == s.(refused := s.refused + 1)
  {
    RunKeepsInvariant(Initial(), actions);
    var s := After(Initial(), actions);
    assert Accounted(s);
    assert |s.accepted| == |Jobs(s.noticed)| + |AwaitingNotice(s)| + |RunningJobs(s)| + |PendingJobs(s)|;
  }

  function Submissions(actions: seq<Action>): nat {
    if actions == [] then 0 else (if actions[0].Submit? then 1 else 0) + Submissions(actions[1..])
  }

  /** Every submission is answered once. */
  lemma {:induction false} EverySubmissionIsAnswered(s: State, actions: seq<Action>)
    requires Possible(s, actions)
    ensures var t := After(s, actions);
            |t.accepted| + t.refused == |s.accepted| + s.refused + Submissions(actions)
    decreases |actions|
  {
    if actions != [] {
      EverySubmissionIsAnswered(Next(s, actions[0]), actions[1..]);
    }
  }

  /** The outcomes of the computations of a run, in order. */
  function Outcomes(s: State, actions: seq<Action>): seq<bool>
    requires Possible(s, actions)
    decreases |actions|
  {
    if actions == [] then []
    else NewOutcome(s, actions[0]) + Outcomes(Next(s, actions[0]), actions[1..])
  }

  function Successes(notices: seq<Notice>): seq<bool> {
    seq(|notices|, i requires 0 <= i < |notices| => notices[i].ok)
  }

  /** The outcome that has been computed but not noticed. */
  function OutcomeOnTheWay(pc: Pc): seq<bool> {
    if pc.Computed? || pc.Reporting? || pc.Notifying? then [pc.ok] else []
  }

  function OutcomeHistory(s: State): seq<bool> {
    Successes(s.noticed) + OutcomeOnTheWay(s.pc)
  }

  lemma SuccessesExtend(notices: seq<Notice>, notice: Notice)
    ensures Successes(notices + [notice]) == Successes(notices) + [notice.ok]
  {
  }

  function NewOutcome(s: State, a: Action): seq<bool> {
    if a.Work? && s.pc.Computing? then [a.ok] else []
  }

  lemma StepKeepsOutcomes(s: State, a: Action)
    requires Enabled(s, a)
    ensures OutcomeHistory(Next(s, a)) == OutcomeHistory(s) + NewOutcome(s, a)
  {
    if a.Work? && s.pc.Notifying? {
      SuccessesExtend(s.noticed, Notice(s.pc.job, s.pc.ok));
    }
  }

  lemma {:induction false} RunKeepsOutcomes(s: State, actions: seq<Action>)
    requires Possible(s, actions)
    ensures OutcomeHistory(After(s, actions)) == OutcomeHistory(s) + Outcomes(s, actions)
    decreases |actions|
  {
    if actions != [] {
      StepKeepsOutcomes(s, actions[0]);
      RunKeepsOutcomes(Next(s, actions[0]), actions[1..]);
    }
  }

  /** The jobs noticed as failed. */
  function FailedJobs(notices: seq<Notice>): seq<Job> {
    if notices == [] then []
    else
      var last := notices[|notices| - 1];
      FailedJobs(notices[..|notices| - 1]) + (if last.ok then [] else [last.job])
  }

  /** A failed job whose error is reported but which has not been noticed. */
  function FailureOnTheWay(pc: Pc): seq<Job> {
    if pc.Notifying? && !pc.ok then [pc.job] else []
  }

  predicate ErrorsFit(s: State) {
    s.errors == FailedJobs(s.noticed) + FailureOnTheWay(s.pc)
  }

  predicate IsNoticing(s: State, a: Action) {
    a.Work? && s.pc.Notifying?
  }

  lemma StepReportsErrors(s: State, a: Action, failed: seq<Job>)
    requires Enabled(s, a) && s.errors == failed + FailureOnTheWay(s.pc)
    ensures var t := Next(s, a);
            if IsNoticing(s, a) then
              && t.noticed == s.noticed + [Notice(s.pc.job, s.pc.ok)]
              && t.errors == failed + (if s.pc.ok then [] else [s.pc.job]) && FailureOnTheWay(t.pc) == []
            else t.noticed == s.noticed && t.errors == failed + FailureOnTheWay(t.pc)
  {
  }

  lemma StepKeepsErrors(s: State, a: Action)
    requires Enabled(s, a) && ErrorsFit(s)
    ensures ErrorsFit(Next(s, a))
  {
    StepReportsErrors(s, a, FailedJobs(s.noticed));
    if IsNoticing(s, a) {
      FailedExtend(s.noticed, Notice(s.pc.job, s.pc.ok));
    }
  }

  lemma FailedExtend(notices: seq<Notice>, notice: Notice)
    ensures FailedJobs(notices + [notice]) == FailedJobs(notices) + (if notice.ok then [] else [notice.job])
  {
    assert (notices + [notice])[..|notices|] == notices;
  }

  lemma {:induction false} RunKeepsErrors(s: State, actions: seq<Action>)
    requires Possible(s, actions) && ErrorsFit(s)
    ensures ErrorsFit(After(s, actions))
    decreases |actions|
  {
    if actions != [] {
      StepKeepsErrors(s, actions[0]);
      RunKeepsErrors(Next(s, actions[0]), actions[1..]);
    }
  }

  /** After any run the notices carry the outcomes of the computations, in order, with at most one on its way; and an
      error has been reported for exactly the failed jobs, before their notice. */
  lemma NoticesTellOutcomes(actions: seq<Action>)
    requires Possible(Initial(), actions)
    ensures var s := After(Initial(), actions);
            && Successes(s.noticed) + OutcomeOnTheWay(s.pc) == Outcomes(Initial(), actions)
            && s.errors == FailedJobs(s.noticed) + FailureOnTheWay(s.pc)
  {
    RunKeepsOutcomes(Initial(), actions);
    RunKeepsErrors(Initial(), actions);
  }

  // ----- Stopping -----

  /** Steps of the worker until it ends, at most, once a stop is requested. */
  function UntilExit(pc: Pc): nat {
    match pc
    case Exited => 0
    case LoopHead => 1
    case Notifying(_, _) => 2
    case Reporting(_, _) => 3
    case Computed(_, _) => 4
    case Computing(_) => 5
    case Awake => 6
    case Sleeping => 7
    case NotStarted => 7
  }

  function WorkerSteps(actions: seq<Action>): nat {
    if actions == [] then 0 else (if actions[0].Work? then 1 else 0) + WorkerSteps(actions[1..])
  }

  /** Once a stop is requested the worker ends after at most six more steps, whatever the callers do. A job it has not
      taken up to then stays pending. */
  lemma {:induction false} StopEndsWorker(s: State, actions: seq<Action>)
    requires Invariant(s) && s.stopRequested && s.pc != NotStarted && Possible(s, actions)
    ensures UntilExit(s.pc) <= 6 && UntilExit(After(s, actions).pc) + WorkerSteps(actions) <= UntilExit(s.pc)
    ensures WorkerSteps(actions) == 6 ==> After(s, actions).pc == Exited
    decreases |actions|
  {
    if actions != [] {
      StepKeepsInvariant(s, actions[0]);
      StopEndsWorker(Next(s, actions[0]), actions[1..]);
    }
  }

  /** A worker past its stop check takes a pending job even if a stop is requested, and still completes it: at most
      five steps later, whatever the callers do, it has told the outcome. */
  lemma {:induction false} TakenJobCompletes(s: State, actions: seq<Action>)
    requires Invariant(s) && Possible(s, actions) && WorkerSteps(actions) + Completes(s) >= 6
    requires (s.pc == Awake && s.pending.Some?) || Completes(s) > 1
    ensures |After(s, actions).noticed| > |s.noticed|
    decreases |actions|
  {
    if actions != [] {
      var t := Next(s, actions[0]);
      StepKeepsInvariant(s, actions[0]);
      HistoriesGrow(s, [actions[0]]);
      HistoriesGrow(t, actions[1..]);
      if t.noticed == s.noticed {
        TakenJobCompletes(t, actions[1..]);
      }
    }
  }

  /** Steps a job has behind it since the worker woke up for it. */
  function Completes(s: State): nat {
    match s.pc
    case Awake => 1
    case Computing(_) => 2
    case Computed(_, _) => 3
    case Reporting(_, _) => 4
    case Notifying(_, _) => 5
    case _ => 0
  }

  /** Requesting a stop reaches such a state. */
  lemma StopIsRequested(actions: seq<Action>)
    requires Possible(Initial(), actions) && Enabled(After(Initial(), actions), RequestStop)
    ensures var s := Next(After(Initial(), actions), RequestStop);
            Invariant(s) && s.stopRequested && s.pc != NotStarted
  {
    RunKeepsInvariant(Initial(), actions);
    StepKeepsInvariant(After(Initial(), actions), RequestStop);
  }

  /** So after any run, with a stop requested then: the worker takes at most six more steps, and ends with them. */
  lemma StopEndsEveryRun(actions: seq<Action>, more: seq<Action>)
    requires Possible(Initial(), actions) && Enabled(After(Initial(), actions), RequestStop)
    requires Possible(Next(After(Initial(), actions), RequestStop), more)
    ensures var s := After(Next(After(Initial(), actions), RequestStop), more);
            WorkerSteps(more) <= 6 && (WorkerSteps(more) == 6 ==> s.pc == Exited)
  {
    StopIsRequested(actions);
    StopEndsWorker(Next(After(Initial(), actions), RequestStop), more);
  }

  // ----- Idling -----

  /** Steps of the worker until it sleeps, if nothing is pending. */
  function UntilAsleep(pc: Pc): nat {
    match pc
    case Sleeping => 0
    case Awake => 1
    case LoopHead => 2
    case Notifying(_, _) => 3
    case Reporting(_, _) => 4
    case Computed(_, _) => 5
    case Computing(_) => 6
    case NotStarted => 0
    case Exited => 0
  }

  /** The worker's own steps only. */
  predicate AllWork(actions: seq<Action>) {
    forall k :: 0 <= k < |actions| ==> actions[k].Work?
  }

  /** Left alone with nothing pending and no stop requested, a worker finishes what it is doing and falls asleep: it can
      take exactly so many steps, and then none. */
  lemma {:induction false} IdleWorkerSleeps(s: State, actions: seq<Action>)
    requires Invariant(s) && s.pending == None && !s.stopRequested && s.pc != NotStarted && s.pc != Exited
    requires Possible(s, actions) && AllWork(actions)
    ensures |actions| <= UntilAsleep(s.pc)
    ensures After(s, actions).pc == Sleeping <==> |actions| == UntilAsleep(s.pc)
    decreases |actions|
  {
    if actions != [] {
      assert actions[0].Work?;
      StepKeepsInvariant(s, actions[0]);
      IdleWorkerSleeps(Next(s, actions[0]), actions[1..]);
    }
  }

  // ----- Progress -----

  /** How many worker steps, at most, until the oldest unfinished job is noticed. */
  function Rank(s: State): nat {
    match s.pc
    case Notifying(_, _) => 1
    case Reporting(_, _) => 2
    case Computed(_, _) => 3
    case Computing(_) => 4
    case Awake => 5
    case LoopHead => 6
    case Sleeping => 6
    case NotStarted => 7
    case Exited => 7
  }

  predicate Unfinished(s: State) {
    |s.noticed| < |s.accepted|
  }

  /** As long as no stop is requested and a job is unfinished, the worker can step or a notification that
      wakes it is still owed: no wakeup is lost. */
  lemma NoLostWakeup(s: State)
    requires Invariant(s) && Unfinished(s) && !s.stopRequested
    ensures Enabled(s, Work(true)) || (s.pc == Sleeping && Enabled(s, Notify))
  {
    assert |Jobs(s.noticed)| == |s.noticed|;
  }

  /** Then every step of the worker, and the owed notification, brings the oldest unfinished job strictly
      closer to its notice or delivers the notice; no other action moves it away. */
  lemma ProgressIsMade(s: State, a: Action)
    requires Invariant(s) && Unfinished(s) && !s.stopRequested && Enabled(s, a) && a != RequestStop
    ensures Next(s, a).noticed != s.noticed || Rank(Next(s, a)) <= Rank(s)
    ensures a.Work? || (a.Notify? && s.pc == Sleeping) ==> Next(s, a).noticed != s.noticed || Rank(Next(s, a)) < Rank(s)
  {
    assert |Jobs(s.noticed)| == |s.noticed|;
  }

  predicate IsProgress(s: State, a: Action) {
    a.Work? || (a.Notify? && s.pc == Sleeping)
  }

  /** The steps of a run that are the worker's, or wake it. */
  function ProgressSteps(s: State, actions: seq<Action>): nat
    requires Possible(s, actions)
    decreases |actions|
  {
    if actions == [] then 0
    else (if IsProgress(s, actions[0]) then 1 else 0) + ProgressSteps(Next(s, actions[0]), actions[1..])
  }

  /** So any run without a stop request in which the worker is scheduled often enough, at most seven times,
      delivers the next notice, whatever the callers do in between. */
  lemma {:induction false} JobsComplete(s: State, actions: seq<Action>)
    requires Invariant(s) && Unfinished(s) && !s.stopRequested && Possible(s, actions) && RequestStop !in actions
    requires ProgressSteps(s, actions) >= Rank(s)
    ensures |After(s, actions).noticed| > |s.noticed|
    decreases |actions|
  {
    if actions != [] {
      var a, t := actions[0], Next(s, actions[0]);
      assert a in actions;
      ProgressIsMade(s, a);
      HistoriesGrow(s, [a]);
      HistoriesGrow(t, actions[1..]);
      if t.noticed == s.noticed {
        StepKeepsInvariant(s, a);
        JobsComplete(t, actions[1..]);
      }
    }
  }
}
