/** The polling protocol: callers start, retime and stop workers that deliver frames. One action per
    critical section and per callback, in any interleaving. */
module PollingWorker {
  import opened Numeric

  /** Where a worker thread stands. */
  datatype Pc =
    | LoopHead
    | Delivering                               // passed the stop check, about to invoke the frame callback
    | BeforeWait                               // about to take the lock and read interval and revision
    | Sleeping(interval: nat, revision: nat)   // blocked in the timed wait, with what it read
    | Checking(interval: nat, revision: nat)   // woken, about to evaluate the wait condition under the lock
    | Exited

  /** `changes` is how often polling had been started when the worker last read the revision, `late` counts its frames
      since the stop request and `frames` all of them; these are history. */
  datatype Worker = Worker(pc: Pc, stopped: bool, changes: nat, late: nat, frames: nat)

  const REVISIONS: nat := SIZE_MAX + 1

  datatype State = State(
    workers: seq<Worker>,     // every worker ever created
    slot: Option<nat>,        // the one the object holds
    interval: nat,
    revision: nat,            // a `std::size_t`
    changes: nat,             // history: how often polling was started
    owed: nat)                // callers between unlocking and notifying

  datatype Action =
    | Start(interval: nat)    // the critical section of `start_polling_async` with a non-zero interval
    | Stop                    // the critical section of `stop_async`; also wakes the worker it stops
    | NotifyAll               // the notification after either
    | Work(worker: nat)       // the next step of a worker
    | Wake(worker: nat)       // a spurious wakeup
    | TimeOut(worker: nat)

  function Initial(): State {
    State([], None, 0, 0, 0, 0)
  }

  predicate IsStoppedSlot(s: State) {
    s.slot.Some? && s.slot.value < |s.workers| && s.workers[s.slot.value].stopped
  }

  /** A stopped worker is moved out of the slot; an empty slot gets a new worker. */
  function Started(s: State, interval: nat): State {
    var t := s.(interval := interval, revision := (s.revision + 1) % REVISIONS, changes := s.changes + 1,
                owed := s.owed + 1);
    if s.slot == None || IsStoppedSlot(s) then
      t.(workers := s.workers + [Worker(LoopHead, false, 0, 0, 0)], slot := Some(|s.workers|))
    else t
  }

  function WokenPc(pc: Pc): Pc {
    if pc.Sleeping? then Checking(pc.interval, pc.revision) else pc
  }

  /** The stop request notifies the worker's own wait. */
  function Stopped(s: State): State {
    if s.slot.Some? && s.slot.value < |s.workers| then
      var w := s.workers[s.slot.value];
      s.(workers := s.workers[s.slot.value := w.(pc := WokenPc(w.pc), stopped := true)], owed := s.owed + 1)
    else s.(owed := s.owed + 1)
  }

  function AllWoken(workers: seq<Worker>): seq<Worker> {
    seq(|workers|, i requires 0 <= i < |workers| => workers[i].(pc := WokenPc(workers[i].pc)))
  }

  predicate Enabled(s: State, a: Action) {
    match a
    case Start(interval) => interval > 0
    case Stop => true
    case NotifyAll => s.owed > 0
    case Work(i) => i < |s.workers| && !s.workers[i].pc.Sleeping? && s.workers[i].pc != Exited
    case Wake(i) => i < |s.workers| && s.workers[i].pc.Sleeping?
    case TimeOut(i) => i < |s.workers| && s.workers[i].pc.Sleeping?
  }

  /** One step of `polling_worker_loop`. */
  function Worked(s: State, w: Worker): Worker
    requires !w.pc.Sleeping? && w.pc != Exited
  {
    match w.pc
    case LoopHead => w.(pc := if w.stopped then Exited else Delivering)
    case Delivering =>
      w.(pc := BeforeWait, late := if w.stopped then w.late + 1 else w.late, frames := w.frames + 1)
    case BeforeWait =>
      if w.stopped then w.(pc := LoopHead) else w.(pc := Sleeping(s.interval, s.revision), changes := s.changes)
    case Checking(interval, revision) =>
      w.(pc := if w.stopped || s.revision != revision then LoopHead else Sleeping(interval, revision))
  }

  function Next(s: State, a: Action): State
    requires Enabled(s, a)
  {
    match a
    case Start(interval) => Started(s, interval)
    case Stop => Stopped(s)
    case NotifyAll => s.(workers := AllWoken(s.workers), owed := s.owed - 1)
    case Work(i) => s.(workers := s.workers[i := Worked(s, s.workers[i])])
    case Wake(i) => s.(workers := s.workers[i := s.workers[i].(pc := WokenPc(s.workers[i].pc))])
    case TimeOut(i) => s.(workers := s.workers[i := s.workers[i].(pc := LoopHead)])
  }

  predicate Possible(s: State, actions: seq<Action>)
    decreases |actions|
  {
    actions == [] || (Enabled(s, actions[0]) && Possible(Next(s, actions[0]), actions[1..]))
  }

  function After(s: State, actions: seq<Action>): State
    requires Possible(s, actions)
    decreases |actions|
  {
    if actions == [] then s else After(Next(s, actions[0]), actions[1..])
  }

  // ----- The invariant -----

  predicate HoldsReading(pc: Pc) {
    pc.Sleeping? || pc.Checking?
  }

  /** What a worker remembers fits the history of the shared state. */
  predicate WorkerFits(s: State, i: nat)
    requires i < |s.workers|
  {
    var w := s.workers[i];
    && (!w.stopped ==> s.slot == Some(i))
    && (w.stopped ==> !w.pc.Sleeping? && w.late + (if w.pc == Delivering then 1 else 0) <= 1)
    && (!w.stopped ==> w.late == 0 && w.pc != Exited)
    && (HoldsReading(w.pc) ==>
          && w.changes <= s.changes && w.pc.revision == w.changes % REVISIONS
          && (w.changes == s.changes ==> w.pc.interval == s.interval))
    && (w.pc.Sleeping? && s.revision != w.pc.revision ==> s.owed > 0)
  }

  predicate Invariant(s: State) {
    && (s.slot.Some? ==> s.slot.value < |s.workers|)
    && s.revision == s.changes % REVISIONS
    && forall i :: 0 <= i < |s.workers| ==> WorkerFits(s, i)
  }

  lemma NextRevision(changes: nat)
    ensures (changes % REVISIONS + 1) % REVISIONS == (changes + 1) % REVISIONS
  {
  }

  lemma StartKeepsInvariant(s: State, interval: nat)
    requires Invariant(s) && interval > 0
    ensures Invariant(Started(s, interval))
  {
    var t := Started(s, interval);
    NextRevision(s.changes);
    forall i | 0 <= i < |t.workers|
      ensures WorkerFits(t, i)
    {
      assert i < |s.workers| ==> WorkerFits(s, i);
    }
  }

  lemma StopKeepsInvariant(s: State)
    requires Invariant(s)
    ensures Invariant(Stopped(s))
  {
    var t := Stopped(s);
    forall i | 0 <= i < |t.workers|
      ensures WorkerFits(t, i)
    {
      assert WorkerFits(s, i);
    }
  }

  /** An action that only changes workers keeps the invariant if it keeps each of them fitting. */
  lemma WorkersKeepInvariant(s: State, a: Action)
    requires Invariant(s) && Enabled(s, a) && (a.NotifyAll? || a.Work? || a.Wake? || a.TimeOut?)
    ensures Invariant(Next(s, a))
  {
    var t := Next(s, a);
    forall i | 0 <= i < |t.workers|
      ensures WorkerFits(t, i)
    {
      assert WorkerFits(s, i);
    }
  }

  lemma {:induction false} RunKeepsInvariant(s: State, actions: seq<Action>)
    requires Invariant(s) && Possible(s, actions)
    ensures Invariant(After(s, actions))
    decreases |actions|
  {
    if actions != [] {
      match actions[0] {
        case Start(interval) => StartKeepsInvariant(s, interval);
        case Stop => StopKeepsInvariant(s);
        case _ => WorkersKeepInvariant(s, actions[0]);
      }
      RunKeepsInvariant(Next(s, actions[0]), actions[1..]);
    }
  }

  /** Whether the wait condition of a sleeping worker holds. */
  predicate WouldWake(s: State, i: nat)
    requires i < |s.workers| && s.workers[i].pc.Sleeping?
  {
    s.revision != s.workers[i].pc.revision
  }

  /** After any run: at most one worker ever created has not been asked to stop, and it is the one in the
      slot; and after its stop request no worker delivers more than one more frame. */
  lemma PollingIsSafe(actions: seq<Action>)
    requires Possible(Initial(), actions)
    ensures var s := After(Initial(), actions);
            && (forall i, j :: 0 <= i < |s.workers| && 0 <= j < |s.workers| ==>
                                 !s.workers[i].stopped && !s.workers[j].stopped ==> i == j)
            && (forall i :: 0 <= i < |s.workers| && !s.workers[i].stopped ==> s.slot == Some(i))
            && (forall i :: 0 <= i < |s.workers| ==> s.workers[i].late <= 1)
  {
    RunKeepsInvariant(Initial(), actions);
    var s := After(Initial(), actions);
    forall i | 0 <= i < |s.workers|
      ensures (!s.workers[i].stopped ==> s.slot == Some(i)) && s.workers[i].late <= 1
    {
      assert WorkerFits(s, i);
    }
  }

  lemma SameRemainder(a: nat, b: nat, d: nat)
    requires a <= b && d > 0
    ensures a % d == b % d <==> (b - a) % d == 0
  {
    var e := (b - a) / d - (b / d - a / d);
    assert e * d == b % d - a % d - (b - a) % d;
    assert e >= 1 ==> e * d >= d;
    assert e <= -1 ==> e * d <= -1 * d;
  }

  /** After any run, a sleeping worker would wake exactly unless the number of starts since it read the
      revision is a multiple of two to the 64; when it is zero, the worker holds the current interval. */
  lemma SleeperWakesExactlyWhen(actions: seq<Action>, i: nat)
    requires Possible(Initial(), actions)
    requires i < |After(Initial(), actions).workers| && After(Initial(), actions).workers[i].pc.Sleeping?
    ensures var s := After(Initial(), actions);
            var w := s.workers[i];
            && w.changes <= s.changes
            && (WouldWake(s, i) <==> (s.changes - w.changes) % REVISIONS != 0)
            && (w.changes == s.changes ==> w.pc.interval == s.interval)
            && (WouldWake(s, i) ==> s.owed > 0)
  {
    RunKeepsInvariant(Initial(), actions);
    var s := After(Initial(), actions);
    assert WorkerFits(s, i);
    SameRemainder(s.workers[i].changes, s.changes, REVISIONS);
  }

  /** So, short of two to the 64 starts during one sleep, a sleeping worker holds the current interval or
      its wake condition is already true, and the notification that makes it look is still owed. */
  lemma SleeperIsCurrentOrWakes(actions: seq<Action>, i: nat)
    requires Possible(Initial(), actions)
    requires i < |After(Initial(), actions).workers| && After(Initial(), actions).workers[i].pc.Sleeping?
    requires After(Initial(), actions).changes - After(Initial(), actions).workers[i].changes < REVISIONS
    ensures var s := After(Initial(), actions);
            s.workers[i].pc.interval == s.interval || (WouldWake(s, i) && s.owed > 0)
  {
    SleeperWakesExactlyWhen(actions, i);
  }

  // ----- Starting, stopping and delivering -----

  /** Some worker ever created has not been asked to stop. */
  predicate IsPolling(s: State) {
    exists i :: 0 <= i < |s.workers| && !s.workers[i].stopped
  }

  /** After any run, starting leaves a worker in the slot that has not been asked to stop, with the given interval. It
      creates one exactly if there was none, ready to deliver its first frame, and leaves the others alone. */
  lemma StartLeavesWorker(actions: seq<Action>, interval: nat)
    requires Possible(Initial(), actions) && interval > 0
    ensures var s := After(Initial(), actions);
            var t := Next(s, Start(interval));
            && t.interval == interval
            && t.slot.Some? && t.slot.value < |t.workers| && !t.workers[t.slot.value].stopped
            && |t.workers| == (if IsPolling(s) then |s.workers| else |s.workers| + 1)
            && s.workers <= t.workers
            && (!IsPolling(s) ==> t.slot.value == |s.workers| && t.workers[t.slot.value].pc == LoopHead)
  {
    RunKeepsInvariant(Initial(), actions);
    var s := After(Initial(), actions);
    if i :| 0 <= i < |s.workers| && !s.workers[i].stopped {
      assert WorkerFits(s, i);
    }
  }

  /** After any run, stopping leaves no worker that polls, creates none, keeps the slot as it is, and lets none sleep
      on. */
  lemma StopLeavesNone(actions: seq<Action>)
    requires Possible(Initial(), actions)
    ensures var s := After(Initial(), actions);
            var t := Next(s, Stop);
            && |t.workers| == |s.workers| && t.slot == s.slot && !IsPolling(t)
            && forall i :: 0 <= i < |t.workers| ==>
                 !t.workers[i].pc.Sleeping? && t.workers[i].frames == s.workers[i].frames
  {
    RunKeepsInvariant(Initial(), actions);
    var s := After(Initial(), actions);
    StopKeepsInvariant(s);
    forall i | 0 <= i < |s.workers|
      ensures Stopped(s).workers[i].stopped && !Stopped(s).workers[i].pc.Sleeping?
    {
      assert WorkerFits(s, i) && WorkerFits(Stopped(s), i);
    }
  }

  /** Steps of a worker until its next frame. */
  function UntilFrame(pc: Pc): nat {
    match pc
    case Delivering => 1
    case LoopHead => 2
    case Sleeping(_, _) => 3
    case Checking(_, _) => 3
    case BeforeWait => 4
    case Exited => 0
  }

  /** A step that brings worker i closer to its next frame: any of its own but finding nothing changed after a wakeup,
      and the end of its wait. */
  predicate BringsFrame(s: State, a: Action, i: nat)
    requires Enabled(s, a)
  {
    || a == TimeOut(i)
    || (a == Work(i) && (s.workers[i].pc.Checking? ==> s.workers[i].pc.revision != s.revision))
  }

  function FrameSteps(s: State, actions: seq<Action>, i: nat): nat
    requires Possible(s, actions)
    decreases |actions|
  {
    if actions == [] then 0
    else (if BringsFrame(s, actions[0], i) then 1 else 0) + FrameSteps(Next(s, actions[0]), actions[1..], i)
  }

  /** Worker i has not been asked to stop. */
  predicate Polls(s: State, i: nat) {
    i < |s.workers| && !s.workers[i].stopped
  }

  /** A polling worker can always take a step, and one that brings it closer to its next frame at once or, after a
      wakeup that changed nothing, with the end of its wait. */
  lemma FrameIsNeverBlocked(s: State, i: nat) returns (a: Action)
    requires Invariant(s) && Polls(s, i)
    ensures Enabled(s, a) && (a == Work(i) || a == TimeOut(i))
    ensures BringsFrame(s, a, i) || (Enabled(Next(s, a), TimeOut(i)) && BringsFrame(Next(s, a), TimeOut(i), i))
  {
    assert WorkerFits(s, i);
    a := if s.workers[i].pc.Sleeping? then TimeOut(i) else Work(i);
  }

  lemma StepTowardsFrame(s: State, a: Action, i: nat)
    requires Invariant(s) && Enabled(s, a) && a != Stop && Polls(s, i)
    ensures var t := Next(s, a);
            && Polls(t, i)
            && 4 * t.workers[i].frames - UntilFrame(t.workers[i].pc)
            == 4 * s.workers[i].frames - UntilFrame(s.workers[i].pc) + (if BringsFrame(s, a, i) then 1 else 0)
  {
    assert WorkerFits(s, i);
  }

  lemma {:induction false} FramesOfRun(s: State, actions: seq<Action>, i: nat)
    requires Invariant(s) && Possible(s, actions) && Stop !in actions && Polls(s, i)
    ensures var t := After(s, actions);
            && Polls(t, i)
            && 4 * t.workers[i].frames - UntilFrame(t.workers[i].pc)
            == 4 * s.workers[i].frames - UntilFrame(s.workers[i].pc) + FrameSteps(s, actions, i)
    decreases |actions|
  {
    if actions != [] {
      var a := actions[0];
      assert a in actions;
      StepTowardsFrame(s, a, i);
      assert Possible(Next(s, a), []) && After(Next(s, a), []) == Next(s, a);
      RunKeepsInvariant(s, [a]);
      FramesOfRun(Next(s, a), actions[1..], i);
    }
  }

  /** Without a stop, a polling worker delivers one frame in four such steps, whatever the callers do in between: never
      fewer and at most one more. */
  lemma FramesAreDelivered(s: State, actions: seq<Action>, i: nat)
    requires Invariant(s) && Possible(s, actions) && Stop !in actions && Polls(s, i)
    ensures i < |After(s, actions).workers|
    ensures var before, after := s.workers[i].frames, After(s, actions).workers[i].frames;
            before + FrameSteps(s, actions, i) / 4 <= after <= before + (FrameSteps(s, actions, i) + 3) / 4
  {
    FramesOfRun(s, actions, i);
    RunKeepsInvariant(s, actions);
    assert WorkerFits(s, i) && WorkerFits(After(s, actions), i);
    QuarterSteps(After(s, actions).workers[i].frames - s.workers[i].frames, FrameSteps(s, actions, i),
                 UntilFrame(After(s, actions).workers[i].pc), UntilFrame(s.workers[i].pc));
  }

  lemma QuarterSteps(frames: int, steps: nat, after: nat, before: nat)
    requires 1 <= before <= 4 && 1 <= after <= 4 && 4 * frames - after == steps - before
    ensures steps / 4 <= frames <= (steps + 3) / 4
  {
  }

  /** Steps of a stopped worker until it ends. */
  function UntilExit(pc: Pc): nat {
    match pc
    case Exited => 0
    case LoopHead => 1
    case BeforeWait => 2
    case Checking(_, _) => 2
    case Sleeping(_, _) => 2
    case Delivering => 3
  }

  function StepsOf(actions: seq<Action>, i: nat): nat {
    if actions == [] then 0 else (if actions[0] == Work(i) then 1 else 0) + StepsOf(actions[1..], i)
  }

  /** The frame that a worker past its stop check still delivers. */
  function FramesDue(w: Worker): nat {
    if w.pc == Delivering then 1 else 0
  }

  lemma StepTowardsExit(s: State, a: Action, i: nat)
    requires Invariant(s) && Enabled(s, a) && i < |s.workers| && s.workers[i].stopped
    ensures i < |Next(s, a).workers| && Next(s, a).workers[i].stopped
    ensures UntilExit(Next(s, a).workers[i].pc) + (if a == Work(i) then 1 else 0) == UntilExit(s.workers[i].pc)
    ensures var v, w := s.workers[i], Next(s, a).workers[i];
            w.frames + FramesDue(w) <= v.frames + FramesDue(v) && w.late - v.late == w.frames - v.frames
  {
    assert WorkerFits(s, i);
  }

  /** A worker that has been asked to stop ends after at most three more steps, whatever is started meanwhile, and
      delivers one more frame at most, and none unless it had passed its stop check. */
  lemma {:induction false} StoppedWorkerEnds(s: State, actions: seq<Action>, i: nat)
    requires Invariant(s) && Possible(s, actions) && i < |s.workers| && s.workers[i].stopped
    ensures i < |After(s, actions).workers| && After(s, actions).workers[i].stopped
    ensures UntilExit(After(s, actions).workers[i].pc) + StepsOf(actions, i) == UntilExit(s.workers[i].pc) <= 3
    ensures After(s, actions).workers[i].pc == Exited <==> StepsOf(actions, i) == UntilExit(s.workers[i].pc)
    ensures var v, w := s.workers[i], After(s, actions).workers[i];
            w.frames <= v.frames + FramesDue(v) && w.late - v.late == w.frames - v.frames
    decreases |actions|
  {
    if actions != [] {
      var a := actions[0];
      StepTowardsExit(s, a, i);
      assert Possible(Next(s, a), []) && After(Next(s, a), []) == Next(s, a);
      RunKeepsInvariant(s, [a]);
      StoppedWorkerEnds(Next(s, a), actions[1..], i);
    }
  }

  // ----- The exact limit -----

  function Starts(interval: nat, n: nat): seq<Action> {
    seq(n, _ => Start(interval))
  }

  /** n starts in a row on a running worker change nothing but the interval and the revision. */
  lemma {:induction false} ManyStarts(s: State, interval: nat, n: nat)
    requires interval > 0 && s.slot.Some? && !IsStoppedSlot(s) && s.revision == s.changes % REVISIONS
    ensures Possible(s, Starts(interval, n))
    ensures n > 0 ==>
              After(s, Starts(interval, n)) == s.(interval := interval, revision := (s.changes + n) % REVISIONS,
                                                  changes := s.changes + n, owed := s.owed + n)
    decreases n
  {
    if n > 0 {
      var t := Started(s, interval);
      NextRevision(s.changes);
      assert Starts(interval, n)[1..] == Starts(interval, n - 1);
      ManyStarts(t, interval, n - 1);
      if n == 1 {
        assert Starts(interval, 0) == [];
      }
    }
  }

  /** Two to the 64 starts while a worker sleeps put the revision back where it was: the worker then sleeps
      on with the old interval and its wake condition false. */
  lemma RevisionWraps(s: State, i: nat, interval: nat)
    requires Invariant(s) && i < |s.workers| && s.workers[i].pc.Sleeping? && s.slot == Some(i)
    requires s.workers[i].changes == s.changes && interval > 0 && interval != s.interval
    ensures Possible(s, Starts(interval, REVISIONS))
    ensures var t := After(s, Starts(interval, REVISIONS));
            && i < |t.workers| && t.workers[i].pc.Sleeping?
            && t.workers[i].pc.interval != t.interval && !WouldWake(t, i)
  {
    assert WorkerFits(s, i);
    ManyStarts(s, interval, REVISIONS);
    SameRemainder(s.changes, s.changes + REVISIONS, REVISIONS);
  }

  /** Reached by starting to poll every millisecond and letting the worker deliver one frame. */
  function Asleep(): State {
    State([Worker(Sleeping(1, 1), false, 1, 0, 1)], Some(0), 1, 1, 1, 1)
  }

  function FallAsleep(): seq<Action> {
    [Start(1), Work(0), Work(0), Work(0)]
  }

  lemma AsleepIsReached()
    ensures Possible(Initial(), FallAsleep()) && After(Initial(), FallAsleep()) == Asleep()
  {
    var actions := FallAsleep();
    var s1 := Next(Initial(), actions[0]);
    var s2 := Next(s1, actions[1]);
    var s3 := Next(s2, actions[2]);
    assert Next(s3, actions[3]) == Asleep();
    assert Possible(Asleep(), actions[4..]) && After(Asleep(), actions[4..]) == Asleep();
    assert actions[3..][1..] == actions[4..] && actions[3..][0] == actions[3];
    assert Possible(s3, actions[3..]) && After(s3, actions[3..]) == Asleep();
    assert actions[2..][1..] == actions[3..] && actions[2..][0] == actions[2];
    assert Possible(s2, actions[2..]) && After(s2, actions[2..]) == Asleep();
    assert actions[1..][1..] == actions[2..] && actions[1..][0] == actions[1];
  }

  lemma {:induction false} RunsCompose(s: State, first: seq<Action>, second: seq<Action>)
    requires Possible(s, first) && Possible(After(s, first), second)
    ensures Possible(s, first + second) && After(s, first + second) == After(After(s, first), second)
    decreases |first|
  {
    if first == [] {
      assert first + second == second;
    } else {
      assert (first + second)[1..] == first[1..] + second;
      RunsCompose(Next(s, first[0]), first[1..], second);
    }
  }

  /** So a run from the start leaves a worker asleep with a stale interval and nothing to wake it but time. */
  lemma StaleIntervalIsReached() returns (actions: seq<Action>)
    ensures Possible(Initial(), actions)
    ensures var s := After(Initial(), actions);
            && |s.workers| == 1 && s.slot == Some(0) && s.workers[0].pc.Sleeping?
            && s.workers[0].pc.interval == 1 && s.interval == 2 && !WouldWake(s, 0)
  {
    var wrap := Starts(2, REVISIONS);
    AsleepIsReached();
    AsleepInvariant();
    RevisionWraps(Asleep(), 0, 2);
    ManyStarts(Asleep(), 2, REVISIONS);
    RunsCompose(Initial(), FallAsleep(), wrap);
    actions := FallAsleep() + wrap;
  }

  lemma AsleepInvariant()
    ensures Invariant(Asleep())
  {
  }
}
