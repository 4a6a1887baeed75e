/** The two reader/writer locks of the analytics state, for any number of threads: one action per request
    and grant of a lock and per access to the shared data. */
module AnalyticsLocks {
  import opened Numeric

  /** A coefficient vector, compared only for equality. */
  type Coefficients = nat

  /** The stored field: whether it is marked valid, how many triples its grid has, and for each triple filled
      so far the coefficients it was computed from. */
  datatype Field = Field(valid: bool, size: nat, cells: seq<Coefficients>)

  /** Where a thread stands inside an operation. A grid is the number of its triples, or `None` if the grid
      kernel refuses it. */
  datatype Pc =
    | Idle
    | StoreWanted                             // wants the coefficients lock, exclusive
    | StoringCoefficients                     // has it
    | EvaluateWanted                          // wants the coefficients lock, shared
    | Evaluating(used: seq<Coefficients>)     // has it: what each read so far returned
    | FieldStarted(grid: Option<nat>)         // wants the coefficients lock, shared
    | FieldWanted(grid: Option<nat>)          // has it; wants the field lock, exclusive
    | FillingField(left: Option<nat>)         // has both; how many triples are still to be written
    | ViewWanted                              // wants the field lock, shared

  /** A view outlives the call that returned it: a thread may hold one, with the field it saw then, and call
      any other operation meanwhile. */
  datatype Thread = Thread(pc: Pc, view: Option<Field>)

  /** `writersFirst` says whether the locks hold new readers back while a writer waits, which
      `std::shared_mutex` may or may not do. */
  datatype State = State(
    writersFirst: bool,
    threads: seq<Thread>,
    coefficients: Option<Coefficients>,
    coefficientReaders: set<nat>,
    coefficientWriter: Option<nat>,
    field: Field,
    fieldReaders: set<nat>,
    fieldWriter: Option<nat>)

  datatype Action =
    | BeginStore(thread: nat)                      // `calculate_svd_coefficients` asks for its lock
    | LockStore(thread: nat)
    | Store(thread: nat, vector: Coefficients)     // assigns and releases
    | BeginEvaluate(thread: nat)                   // `evaluate_for_point` or `evaluate_field_slice`
    | LockEvaluate(thread: nat)
    | ReadCoefficients(thread: nat)                // one more read of the stored vector
    | EndEvaluate(thread: nat)
    | BeginField(thread: nat, grid: Option<nat>)   // `calculate_field` asks for the coefficients lock
    | LockCoefficients(thread: nat)                // gets it, and gives up if there are no coefficients
    | LockField(thread: nat)                       // gets the field lock, and clears the field
    | FillCell(thread: nat)                        // the kernel writes one more triple
    | AbandonField(thread: nat)                    // the grid is refused
    | FinishField(thread: nat)                     // marks the field valid and returns
    | BeginView(thread: nat)                       // `get_field_data`, or the export, asks for the field lock
    | LockView(thread: nat)                        // gets it, and gives up if there is no valid field
    | EndView(thread: nat)                         // the view is destroyed

  function Initial(threads: nat, writersFirst: bool): State {
    State(writersFirst, seq(threads, _ => Thread(Idle, None)), None, {}, None, Field(false, 0, []), {}, None)
  }

  predicate At(s: State, t: nat, pc: Pc) {
    t < |s.threads| && s.threads[t].pc == pc
  }

  predicate HoldsView(s: State, t: nat) {
    t < |s.threads| && s.threads[t].view.Some?
  }

  predicate StoreAwaited(s: State) {
    exists t :: 0 <= t < |s.threads| && s.threads[t].pc == StoreWanted
  }

  predicate FieldAwaited(s: State) {
    exists t :: 0 <= t < |s.threads| && s.threads[t].pc.FieldWanted?
  }

  // ----- When the locks are granted -----

  predicate CoefficientsFree(s: State) {
    s.coefficientReaders == {} && s.coefficientWriter == None
  }

  predicate CoefficientsReadable(s: State) {
    s.coefficientWriter == None && (s.writersFirst ==> !StoreAwaited(s))
  }

  predicate FieldFree(s: State) {
    s.fieldReaders == {} && s.fieldWriter == None
  }

  predicate FieldReadable(s: State) {
    s.fieldWriter == None && (s.writersFirst ==> !FieldAwaited(s))
  }

  predicate Enabled(s: State, a: Action) {
    match a
    case BeginStore(t) => At(s, t, Idle)
    case LockStore(t) => At(s, t, StoreWanted) && CoefficientsFree(s)
    case Store(t, _) => At(s, t, StoringCoefficients)
    case BeginEvaluate(t) => At(s, t, Idle)
    case LockEvaluate(t) => At(s, t, EvaluateWanted) && CoefficientsReadable(s)
    case ReadCoefficients(t) => t < |s.threads| && s.threads[t].pc.Evaluating? && s.coefficients.Some?
    case EndEvaluate(t) => t < |s.threads| && s.threads[t].pc.Evaluating?
    case BeginField(t, _) => At(s, t, Idle)
    case LockCoefficients(t) => t < |s.threads| && s.threads[t].pc.FieldStarted? && CoefficientsReadable(s)
    case LockField(t) => t < |s.threads| && s.threads[t].pc.FieldWanted? && FieldFree(s)
    case FillCell(t) =>
      && t < |s.threads| && s.threads[t].pc.FillingField?
      && s.threads[t].pc.left.Some? && s.threads[t].pc.left.value > 0 && s.coefficients.Some?
    case AbandonField(t) => At(s, t, FillingField(None))
    case FinishField(t) => At(s, t, FillingField(Some(0)))
    case BeginView(t) => At(s, t, Idle) && !HoldsView(s, t)
    case LockView(t) => At(s, t, ViewWanted) && FieldReadable(s)
    case EndView(t) => At(s, t, Idle) && HoldsView(s, t)
  }

  function Move(s: State, t: nat, pc: Pc): State
    requires t < |s.threads|
  {
    s.(threads := s.threads[t := s.threads[t].(pc := pc)])
  }

  function Cleared(grid: Option<nat>): Field {
    Field(false, if grid.Some? then grid.value else 0, [])
  }

  function Next(s: State, a: Action): State
    requires Enabled(s, a)
  {
    match a
    case BeginStore(t) => Move(s, t, StoreWanted)
    case LockStore(t) => Move(s, t, StoringCoefficients).(coefficientWriter := Some(t))
    case Store(t, vector) => Move(s, t, Idle).(coefficients := Some(vector), coefficientWriter := None)
    case BeginEvaluate(t) => Move(s, t, EvaluateWanted)
    case LockEvaluate(t) => Move(s, t, Evaluating([])).(coefficientReaders := s.coefficientReaders + {t})
    case ReadCoefficients(t) => Move(s, t, Evaluating(s.threads[t].pc.used + [s.coefficients.value]))
    case EndEvaluate(t) => Move(s, t, Idle).(coefficientReaders := s.coefficientReaders - {t})
    case BeginField(t, grid) => Move(s, t, FieldStarted(grid))
    case LockCoefficients(t) =>
      if s.coefficients == None then Move(s, t, Idle)
      else Move(s, t, FieldWanted(s.threads[t].pc.grid)).(coefficientReaders := s.coefficientReaders + {t})
    case LockField(t) =>
      Move(s, t, FillingField(s.threads[t].pc.grid)).(field := Cleared(s.threads[t].pc.grid), fieldWriter := Some(t))
    case FillCell(t) =>
      Move(s, t, FillingField(Some(s.threads[t].pc.left.value - 1)))
      .(field := s.field.(cells := s.field.cells + [s.coefficients.value]))
    case AbandonField(t) => Move(s, t, Idle).(fieldWriter := None, coefficientReaders := s.coefficientReaders - {t})
    case FinishField(t) =>
      Move(s, t, Idle).(field := s.field.(valid := true), fieldWriter := None,
                        coefficientReaders := s.coefficientReaders - {t})
    case BeginView(t) => Move(s, t, ViewWanted)
    case LockView(t) =>
      if !s.field.valid then Move(s, t, Idle)
      else s.(threads := s.threads[t := Thread(Idle, Some(s.field))], fieldReaders := s.fieldReaders + {t})
    case EndView(t) => s.(threads := s.threads[t := Thread(Idle, None)], fieldReaders := s.fieldReaders - {t})
  }

  predicate Possible(s: State, actions: seq<Action>)
    decreases |actions|
  {
    actions == [] || (Enabled(s, actions[0]) && Possible(Next(s, actions[0]), actions[1..]))
  }

  function After(s: State, actions: seq<Action>): State
    requires Possible(s, actions)
    decreases |actions|
  {
    if actions == [] then s else After(Next(s, actions[0]), actions[1..])
  }

  // ----- The invariant -----

  predicate ReadsCoefficients(pc: Pc) {
    pc.Evaluating? || pc.FieldWanted? || pc.FillingField?
  }

  /** The locks are held by exactly the threads that stand inside them. */
  predicate HoldsItsLocks(s: State, t: nat)
    requires t < |s.threads|
  {
    && (t in s.coefficientReaders <==> ReadsCoefficients(s.threads[t].pc))
    && (s.coefficientWriter == Some(t) <==> s.threads[t].pc == StoringCoefficients)
    && (t in s.fieldReaders <==> s.threads[t].view.Some?)
    && (s.fieldWriter == Some(t) <==> s.threads[t].pc.FillingField?)
    && (s.threads[t].pc == ViewWanted ==> s.threads[t].view == None)
  }

  predicate LocksExclude(s: State) {
    && (s.coefficientWriter.Some? ==> s.coefficientReaders == {} && s.coefficientWriter.value < |s.threads|)
    && (s.fieldWriter.Some? ==> s.fieldReaders == {} && s.fieldWriter.value < |s.threads|)
    && (forall t :: t in s.coefficientReaders ==> t < |s.threads|)
    && (forall t :: t in s.fieldReaders ==> t < |s.threads|)
  }

  predicate AllFrom(cells: seq<Coefficients>, vector: Coefficients) {
    forall i :: 0 <= i < |cells| ==> cells[i] == vector
  }

  /** Complete, and computed from one coefficient vector. */
  predicate IsComplete(field: Field) {
    && field.valid && |field.cells| == field.size
    && (field.cells == [] || AllFrom(field.cells, field.cells[0]))
  }

  /** What a thread has seen so far is what is there now. */
  predicate SeesOneState(s: State, t: nat)
    requires t < |s.threads|
  {
    var pc := s.threads[t].pc;
    && (pc.Evaluating? ==> pc.used == [] || (s.coefficients.Some? && AllFrom(pc.used, s.coefficients.value)))
    && (pc.FieldWanted? ==> s.coefficients.Some?)
    && (pc.FillingField? ==>
          && s.coefficients.Some? && !s.field.valid && AllFrom(s.field.cells, s.coefficients.value)
          && (pc.left.Some? ==> |s.field.cells| + pc.left.value == s.field.size))
    && (s.threads[t].view.Some? ==> s.field == s.threads[t].view.value && IsComplete(s.field))
  }

  predicate Invariant(s: State) {
    && LocksExclude(s)
    && (s.field.valid ==> IsComplete(s.field) && s.coefficients.Some?)
    && forall t :: 0 <= t < |s.threads| ==> HoldsItsLocks(s, t) && SeesOneState(s, t)
  }

  lemma InitialInvariant(threads: nat, writersFirst: bool)
    ensures Invariant(Initial(threads, writersFirst))
  {
  }

  lemma StepKeepsExclusion(s: State, a: Action)
    requires Invariant(s) && Enabled(s, a)
    ensures LocksExclude(Next(s, a))
  {
    assert HoldsItsLocks(s, a.thread);
  }

  lemma StepKeepsLocks(s: State, a: Action, t: nat)
    requires LocksExclude(s) && Enabled(s, a) && t < |s.threads| && HoldsItsLocks(s, t) && HoldsItsLocks(s, a.thread)
    ensures HoldsItsLocks(Next(s, a), t)
  {
    if t != a.thread {
      assert Next(s, a).threads[t] == s.threads[t];
    }
  }

  lemma StepKeepsViews(s: State, a: Action)
    requires Invariant(s) && Enabled(s, a)
    ensures Next(s, a).field.valid ==> IsComplete(Next(s, a).field) && Next(s, a).coefficients.Some?
    ensures forall t :: 0 <= t < |s.threads| ==> SeesOneState(Next(s, a), t)
  {
    assert HoldsItsLocks(s, a.thread) && SeesOneState(s, a.thread);
    forall t | 0 <= t < |s.threads|
      ensures SeesOneState(Next(s, a), t)
    {
      assert HoldsItsLocks(s, t) && SeesOneState(s, t);
    }
  }

  lemma StepKeepsInvariant(s: State, a: Action)
    requires Invariant(s) && Enabled(s, a)
    ensures Invariant(Next(s, a)) && |Next(s, a).threads| == |s.threads|
  {
    StepKeepsExclusion(s, a);
    StepKeepsViews(s, a);
    forall t | 0 <= t < |s.threads|
      ensures HoldsItsLocks(Next(s, a), t)
    {
      assert HoldsItsLocks(s, t) && HoldsItsLocks(s, a.thread);
      StepKeepsLocks(s, a, t);
    }
  }

  lemma {:induction false} RunKeepsInvariant(s: State, actions: seq<Action>)
    requires Invariant(s) && Possible(s, actions)
    ensures Invariant(After(s, actions)) && |After(s, actions).threads| == |s.threads|
    decreases |actions|
  {
    if actions != [] {
      StepKeepsInvariant(s, actions[0]);
      RunKeepsInvariant(Next(s, actions[0]), actions[1..]);
    }
  }

  /** Snapshot safety, after any run: a held view sees a complete field computed wholly from one coefficient
      vector, and exactly the contents it saw when it was obtained; an evaluation in progress has read one
      and the same vector every time. */
  lemma SnapshotsAreSafe(threads: nat, writersFirst: bool, actions: seq<Action>, t: nat)
    requires Possible(Initial(threads, writersFirst), actions) && t < threads
    ensures var s := After(Initial(threads, writersFirst), actions);
            && t < |s.threads|
            && (s.threads[t].view.Some? ==> s.threads[t].view.value == s.field && IsComplete(s.field))
            && (s.threads[t].pc.Evaluating? && s.threads[t].pc.used != [] ==>
                  s.coefficients.Some? && AllFrom(s.threads[t].pc.used, s.coefficients.value))
  {
    InitialInvariant(threads, writersFirst);
    RunKeepsInvariant(Initial(threads, writersFirst), actions);
    var s := After(Initial(threads, writersFirst), actions);
    assert HoldsItsLocks(s, t) && SeesOneState(s, t);
  }

  /** While a view is held, no action of any thread changes the field, for as long as it is held. */
  lemma {:induction false} ViewIsStable(s: State, actions: seq<Action>, t: nat)
    requires Invariant(s) && Possible(s, actions) && HoldsView(s, t) && EndView(t) !in actions
    ensures HoldsView(After(s, actions), t) && After(s, actions).threads[t].view == s.threads[t].view
    ensures After(s, actions).field == s.field
    decreases |actions|
  {
    if actions != [] {
      var a := actions[0];
      assert a in actions;
      assert HoldsItsLocks(s, t) && SeesOneState(s, t) && HoldsItsLocks(s, a.thread);
      StepKeepsInvariant(s, a);
      assert SeesOneState(Next(s, a), t);
      ViewIsStable(Next(s, a), actions[1..], t);
    }
  }

  // ----- What the shared data hold -----

  /** Whether the last calculation that touched the field finished. */
  function FinishedLast(finished: bool, actions: seq<Action>): bool
    decreases |actions|
  {
    if actions == [] then finished
    else FinishedLast(if actions[0].FinishField? then true
                      else if actions[0].LockField? || actions[0].AbandonField? then false
                      else finished, actions[1..])
  }

  /** The field is valid exactly if the last calculation that touched it finished: not while one is filling it, nor
      after a refused grid. */
  lemma {:induction false} ValidExactlyWhenFinished(s: State, actions: seq<Action>)
    requires Invariant(s) && Possible(s, actions)
    ensures After(s, actions).field.valid == FinishedLast(s.field.valid, actions)
    decreases |actions|
  {
    if actions != [] {
      var a := actions[0];
      assert SeesOneState(s, a.thread) && HoldsItsLocks(s, a.thread);
      StepKeepsInvariant(s, a);
      ValidExactlyWhenFinished(Next(s, a), actions[1..]);
    }
  }

  /** The vector stored last, if any. */
  function LastStored(vector: Option<Coefficients>, actions: seq<Action>): Option<Coefficients>
    decreases |actions|
  {
    if actions == [] then vector
    else LastStored(if actions[0].Store? then Some(actions[0].vector) else vector, actions[1..])
  }

  /** The coefficients are the vector stored last. */
  lemma {:induction false} CoefficientsAreLastStored(s: State, actions: seq<Action>)
    requires Possible(s, actions)
    ensures After(s, actions).coefficients == LastStored(s.coefficients, actions)
    decreases |actions|
  {
    if actions != [] {
      CoefficientsAreLastStored(Next(s, actions[0]), actions[1..]);
    }
  }

  /** How often thread t has read the coefficients since it got its lock for an evaluation. */
  function ReadsSinceLock(t: nat, count: nat, actions: seq<Action>): nat
    decreases |actions|
  {
    if actions == [] then count
    else ReadsSinceLock(t, if actions[0] == LockEvaluate(t) then 0
                           else if actions[0] == ReadCoefficients(t) then count + 1
                           else count, actions[1..])
  }

  /** Every read of an evaluation is on its record. */
  lemma {:induction false} ReadsAreRecorded(s: State, actions: seq<Action>, t: nat, count: nat)
    requires Possible(s, actions) && t < |s.threads|
    requires s.threads[t].pc.Evaluating? ==> count == |s.threads[t].pc.used|
    ensures t < |After(s, actions).threads|
    ensures var pc := After(s, actions).threads[t].pc;
            pc.Evaluating? ==> |pc.used| == ReadsSinceLock(t, count, actions)
    decreases |actions|
  {
    if actions != [] {
      var a := actions[0];
      var next := if a == LockEvaluate(t) then 0 else if a == ReadCoefficients(t) then count + 1 else count;
      ReadsAreRecorded(Next(s, a), actions[1..], t, next);
    }
  }

  predicate SomeoneReads(s: State) {
    exists t :: 0 <= t < |s.threads| && ReadsCoefficients(s.threads[t].pc)
  }

  predicate SomeoneStores(s: State) {
    exists t :: 0 <= t < |s.threads| && s.threads[t].pc == StoringCoefficients
  }

  predicate SomeoneViews(s: State) {
    exists t :: 0 <= t < |s.threads| && s.threads[t].view.Some?
  }

  predicate SomeoneFills(s: State) {
    exists t :: 0 <= t < |s.threads| && s.threads[t].pc.FillingField?
  }

  /** Who holds what, as the state of the locks shows it. */
  lemma LocksShowHolders(s: State)
    requires Invariant(s)
    ensures s.coefficientReaders != {} <==> SomeoneReads(s)
    ensures s.coefficientWriter.Some? <==> SomeoneStores(s)
    ensures s.fieldReaders != {} <==> SomeoneViews(s)
    ensures s.fieldWriter.Some? <==> SomeoneFills(s)
  {
    forall t | 0 <= t < |s.threads|
      ensures t in s.coefficientReaders <==> ReadsCoefficients(s.threads[t].pc)
      ensures s.coefficientWriter == Some(t) <==> s.threads[t].pc == StoringCoefficients
      ensures t in s.fieldReaders <==> s.threads[t].view.Some?
      ensures s.fieldWriter == Some(t) <==> s.threads[t].pc.FillingField?
    {
      assert HoldsItsLocks(s, t);
    }
    if t :| t in s.coefficientReaders {
      assert ReadsCoefficients(s.threads[t].pc);
    }
    if t :| t in s.fieldReaders {
      assert s.threads[t].view.Some?;
    }
  }

  /** When a waiting thread gets its lock: an exclusive one if nobody is inside it, a shared one if no writer is, and,
      if writers go first, none waits. So any number of readers share a lock. */
  lemma GrantedExactlyWhen(s: State, t: nat)
    requires Invariant(s)
    ensures At(s, t, StoreWanted) ==> (Enabled(s, LockStore(t)) <==> !SomeoneReads(s) && !SomeoneStores(s))
    ensures At(s, t, EvaluateWanted) ==>
      (Enabled(s, LockEvaluate(t)) <==> !SomeoneStores(s) && (s.writersFirst ==> !StoreAwaited(s)))
    ensures t < |s.threads| && s.threads[t].pc.FieldStarted? ==>
      (Enabled(s, LockCoefficients(t)) <==> !SomeoneStores(s) && (s.writersFirst ==> !StoreAwaited(s)))
    ensures t < |s.threads| && s.threads[t].pc.FieldWanted? ==>
      (Enabled(s, LockField(t)) <==> !SomeoneViews(s) && !SomeoneFills(s))
    ensures At(s, t, ViewWanted) ==>
      (Enabled(s, LockView(t)) <==> !SomeoneFills(s) && (s.writersFirst ==> !FieldAwaited(s)))
  {
    LocksShowHolders(s);
  }

  // ----- Deadlock -----

  /** Every thread is outside all operations and holds no view. */
  predicate Quiet(s: State) {
    forall t :: 0 <= t < |s.threads| ==> s.threads[t] == Thread(Idle, None)
  }

  /** Thread t holds a view that it will never give back. */
  predicate Trapped(s: State, t: nat) {
    && HoldsView(s, t)
    && match s.threads[t].pc
       case FieldStarted(_) => true
       case FieldWanted(_) => true
       case StoreWanted => FieldAwaited(s)
       case EvaluateWanted => s.writersFirst && StoreAwaited(s) && FieldAwaited(s)
       case _ => false
  }

  predicate Doomed(s: State) {
    exists t :: 0 <= t < |s.threads| && Trapped(s, t)
  }

  /** A thread that waits for the field lock goes on waiting for it while another holds a view. */
  lemma StepKeepsWaiting(s: State, a: Action, h: nat, f: nat)
    requires Invariant(s) && Enabled(s, a) && HoldsView(s, h) && f < |s.threads| && s.threads[f].pc.FieldWanted?
    ensures Next(s, a).threads[f] == s.threads[f]
    ensures a.thread != h && StoreAwaited(s) ==> StoreAwaited(Next(s, a))
  {
    assert HoldsItsLocks(s, h) && HoldsItsLocks(s, f);
    if w :| 0 <= w < |s.threads| && s.threads[w].pc == StoreWanted {
      assert Next(s, a).threads[w].pc == StoreWanted;
    }
  }

  lemma StepKeepsTrapped(s: State, a: Action, t: nat)
    requires Invariant(s) && Enabled(s, a) && Trapped(s, t)
    ensures Trapped(Next(s, a), t)
  {
    assert HoldsItsLocks(s, t) && SeesOneState(s, t);
    if f :| 0 <= f < |s.threads| && s.threads[f].pc.FieldWanted? {
      StepKeepsWaiting(s, a, t, f);
      assert HoldsItsLocks(s, f);
    }
  }

  /** A trapped thread stays trapped in every run, whatever the other threads do. */
  lemma {:induction false} TrapIsForever(s: State, actions: seq<Action>, t: nat)
    requires Invariant(s) && Possible(s, actions) && Trapped(s, t)
    ensures Trapped(After(s, actions), t)
    decreases |actions|
  {
    if actions != [] {
      StepKeepsTrapped(s, actions[0], t);
      StepKeepsInvariant(s, actions[0]);
      TrapIsForever(Next(s, actions[0]), actions[1..], t);
    }
  }

  /** Steps a thread needs, left to itself, to finish its operation and give its view back. */
  function Remaining(thread: Thread): nat {
    (if thread.view.Some? then 1 else 0) +
    match thread.pc
    case Idle => 0
    case StoreWanted => 2
    case StoringCoefficients => 1
    case EvaluateWanted => 2
    case Evaluating(_) => 1
    case FieldStarted(grid) => Triples(grid) + 3
    case FieldWanted(grid) => Triples(grid) + 2
    case FillingField(left) => Triples(left) + 1
    case ViewWanted => 2
  }

  function Triples(grid: Option<nat>): nat {
    if grid.Some? then grid.value else 0
  }

  function TotalRemaining(threads: seq<Thread>): nat {
    if threads == [] then 0 else Remaining(threads[0]) + TotalRemaining(threads[1..])
  }

  lemma {:induction false} TotalFalls(threads: seq<Thread>, t: nat, thread: Thread)
    requires t < |threads| && Remaining(thread) < Remaining(threads[t])
    ensures TotalRemaining(threads[t := thread]) < TotalRemaining(threads)
  {
    if t == 0 {
      assert threads[t := thread][1..] == threads[1..];
    } else {
      assert threads[t := thread][1..] == threads[1..][t - 1 := thread];
      TotalFalls(threads[1..], t - 1, thread);
    }
  }

  /** An action that brings some thread closer to the end of its operation, or ends its view. */
  predicate Advances(s: State, a: Action) {
    Enabled(s, a) && a.thread < |s.threads| && Remaining(Next(s, a).threads[a.thread]) < Remaining(s.threads[a.thread])
  }

  /** Advancing leaves less to do. */
  lemma AdvancingUsesWork(s: State, a: Action)
    requires Invariant(s) && Advances(s, a)
    ensures TotalRemaining(Next(s, a).threads) < TotalRemaining(s.threads)
  {
    assert HoldsItsLocks(s, a.thread);
    TotalFalls(s.threads, a.thread, Next(s, a).threads[a.thread]);
  }

  /** Advancing never traps a thread, except when a calculation joins the wait for the field lock. */
  lemma AdvancingIsSafe(s: State, a: Action)
    requires Invariant(s) && Advances(s, a) && !Doomed(s)
    requires a.LockCoefficients? ==> !StoreAwaited(s)
    ensures !Doomed(Next(s, a))
  {
    forall h | 0 <= h < |s.threads|
      ensures |Next(s, a).threads| == |s.threads| && !Trapped(Next(s, a), h)
    {
      assert HoldsItsLocks(s, h) && !Trapped(s, h);
      AdvancingTrapsNobody(s, a, h);
    }
  }

  lemma AdvancingTrapsNobody(s: State, a: Action, h: nat)
    requires Advances(s, a) && h < |s.threads| && HoldsItsLocks(s, h) && !Trapped(s, h)
    requires a.LockCoefficients? ==> !StoreAwaited(s)
    ensures |Next(s, a).threads| == |s.threads| && !Trapped(Next(s, a), h)
  {
    AdvancingKeepsWaiters(s, a);
  }

  lemma AdvancingKeepsWaiters(s: State, a: Action)
    requires Advances(s, a)
    ensures StoreAwaited(Next(s, a)) ==> StoreAwaited(s)
    ensures FieldAwaited(Next(s, a)) ==> FieldAwaited(s) || a.LockCoefficients?
  {
    var t := Next(s, a);
    if w :| 0 <= w < |t.threads| && t.threads[w].pc == StoreWanted {
      assert s.threads[w].pc == StoreWanted;
    }
    if f :| 0 <= f < |t.threads| && t.threads[f].pc.FieldWanted? {
      assert a.LockCoefficients? || s.threads[f].pc.FieldWanted?;
    }
  }

  /** A thread that has all its locks, or only its view, can go on. */
  predicate Unhindered(thread: Thread) {
    || thread.pc == StoringCoefficients || thread.pc.Evaluating? || thread.pc.FillingField?
    || (thread.pc == Idle && thread.view.Some?)
  }

  lemma UnhinderedAdvances(s: State, t: nat) returns (a: Action)
    requires Invariant(s) && t < |s.threads| && Unhindered(s.threads[t])
    ensures Advances(s, a) && !a.LockCoefficients?
  {
    assert SeesOneState(s, t);
    a := match s.threads[t].pc
      case StoringCoefficients => Store(t, 0)
      case Evaluating(_) => EndEvaluate(t)
      case FillingField(left) =>
        if left == None then AbandonField(t) else if left.value == 0 then FinishField(t) else FillCell(t)
      case _ => EndView(t);
  }

  /** If nobody is unhindered, the locks are held only by views and by those waiting for the field lock. */
  lemma LocksWhenHindered(s: State)
    requires Invariant(s) && forall t :: 0 <= t < |s.threads| ==> !Unhindered(s.threads[t])
    ensures s.coefficientWriter == None && s.fieldWriter == None
    ensures !FieldAwaited(s) ==> CoefficientsFree(s)
  {
    assert s.coefficientWriter.Some? ==> HoldsItsLocks(s, s.coefficientWriter.value);
    assert s.fieldWriter.Some? ==> HoldsItsLocks(s, s.fieldWriter.value);
    if t :| t in s.coefficientReaders {
      assert HoldsItsLocks(s, t);
    }
  }

  /** Some thread waits for the field lock: either it gets it, or an evaluation goes first. */
  lemma FieldWaiterAdvances(s: State, f: nat) returns (a: Action)
    requires Invariant(s) && !Doomed(s) && forall t :: 0 <= t < |s.threads| ==> !Unhindered(s.threads[t])
    requires f < |s.threads| && s.threads[f].pc.FieldWanted?
    ensures Advances(s, a) && !a.LockCoefficients?
  {
    LocksWhenHindered(s);
    if s.fieldReaders == {} {
      a := LockField(f);
    } else {
      var h :| h in s.fieldReaders;
      assert HoldsItsLocks(s, h) && !Trapped(s, h);
      a := LockEvaluate(h);
    }
  }

  /** No deadlock: unless some thread is trapped, some thread can advance, and without trapping another. */
  lemma SomeoneAdvances(s: State) returns (a: Action)
    requires Invariant(s) && !Doomed(s) && !Quiet(s)
    ensures Advances(s, a) && !Doomed(Next(s, a)) && TotalRemaining(Next(s, a).threads) < TotalRemaining(s.threads)
  {
    var t :| 0 <= t < |s.threads| && s.threads[t] != Thread(Idle, None);
    if u :| 0 <= u < |s.threads| && Unhindered(s.threads[u]) {
      a := UnhinderedAdvances(s, u);
    } else {
      LocksWhenHindered(s);
      if f :| 0 <= f < |s.threads| && s.threads[f].pc.FieldWanted? {
        a := FieldWaiterAdvances(s, f);
      } else if w :| 0 <= w < |s.threads| && s.threads[w].pc == StoreWanted {
        a := LockStore(w);
      } else {
        assert !StoreAwaited(s) && !FieldAwaited(s);
        var pc := s.threads[t].pc;
        a := if pc == EvaluateWanted then LockEvaluate(t)
             else if pc.FieldStarted? then LockCoefficients(t)
             else LockView(t);
      }
    }
    AdvancingIsSafe(s, a);
    AdvancingUsesWork(s, a);
  }

  /** Some run leads from s to a quiet state. */
  predicate LeadsToQuiet(s: State, actions: seq<Action>) {
    Possible(s, actions) && Quiet(After(s, actions))
  }

  lemma {:induction false} AllFinish(s: State) returns (actions: seq<Action>)
    requires Invariant(s) && !Doomed(s)
    ensures LeadsToQuiet(s, actions)
    decreases TotalRemaining(s.threads)
  {
    if Quiet(s) {
      actions := [];
    } else {
      var a := SomeoneAdvances(s);
      StepKeepsInvariant(s, a);
      var rest := AllFinish(Next(s, a));
      actions := [a] + rest;
      assert actions[1..] == rest;
    }
  }

  /** All operations under way can be brought to their end, and all views given back, if and only if no
      thread is trapped. */
  lemma FinishesExactlyWhen(s: State)
    requires Invariant(s)
    ensures (exists actions :: LeadsToQuiet(s, actions)) <==> !Doomed(s)
  {
    if Doomed(s) {
      var t :| 0 <= t < |s.threads| && Trapped(s, t);
      forall actions | Possible(s, actions)
        ensures !Quiet(After(s, actions))
      {
        TrapIsForever(s, actions, t);
      }
    } else {
      var actions := AllFinish(s);
    }
  }

  /** A caller that holds a view begins no operation that takes an exclusive lock, nor, if waiting writers
      hold readers back, any that takes the coefficients lock at all. */
  predicate IsConsiderate(s: State, a: Action) {
    HoldsView(s, a.thread) ==> !a.BeginStore? && !a.BeginField? && (s.writersFirst ==> !a.BeginEvaluate?)
  }

  predicate AllConsiderate(s: State, actions: seq<Action>)
    requires Possible(s, actions)
    decreases |actions|
  {
    actions == [] || (IsConsiderate(s, actions[0]) && AllConsiderate(Next(s, actions[0]), actions[1..]))
  }

  /** Holders of a view are inside no operation that could trap them. */
  predicate HoldersAreFree(s: State) {
    forall t :: 0 <= t < |s.threads| && s.threads[t].view.Some? ==>
      s.threads[t].pc == Idle || (!s.writersFirst && (s.threads[t].pc == EvaluateWanted || s.threads[t].pc.Evaluating?))
  }

  lemma {:induction false} ConsiderateRun(s: State, actions: seq<Action>)
    requires Invariant(s) && HoldersAreFree(s) && Possible(s, actions) && AllConsiderate(s, actions)
    ensures HoldersAreFree(After(s, actions))
    decreases |actions|
  {
    if actions != [] {
      assert HoldsItsLocks(s, actions[0].thread);
      StepKeepsInvariant(s, actions[0]);
      ConsiderateRun(Next(s, actions[0]), actions[1..]);
    }
  }

  /** Every action of the run advances some thread: no operation begins, and none only reads. */
  predicate AllAdvance(s: State, actions: seq<Action>)
    decreases |actions|
  {
    actions == [] || (Advances(s, actions[0]) && AllAdvance(Next(s, actions[0]), actions[1..]))
  }

  ghost predicate NobodyAdvances(s: State) {
    forall a :: !Advances(s, a)
  }

  lemma FreeIsNotDoomed(s: State)
    requires HoldersAreFree(s)
    ensures !Doomed(s)
  {
  }

  lemma AdvancingIsConsiderate(s: State, a: Action)
    requires Invariant(s) && HoldersAreFree(s) && Advances(s, a)
    ensures HoldersAreFree(Next(s, a))
  {
    assert HoldsItsLocks(s, a.thread);
  }

  /** While holders of a view are inside no operation that could trap them, the order in which threads advance does
      not matter: no run of advancing actions is longer than the work remaining, and once nobody can advance
      all operations are finished and all views given back. */
  lemma {:induction false} EveryOrderFinishes(s: State, actions: seq<Action>)
    requires Invariant(s) && HoldersAreFree(s) && AllAdvance(s, actions)
    ensures Possible(s, actions) && |actions| <= TotalRemaining(s.threads)
    ensures NobodyAdvances(After(s, actions)) ==> Quiet(After(s, actions))
    decreases |actions|
  {
    if actions == [] {
      FreeIsNotDoomed(s);
      if !Quiet(s) {
        var a := SomeoneAdvances(s);
      }
    } else {
      AdvancingIsConsiderate(s, actions[0]);
      StepKeepsInvariant(s, actions[0]);
      AdvancingUsesWork(s, actions[0]);
      EveryOrderFinishes(Next(s, actions[0]), actions[1..]);
    }
  }

  /** With considerate callers the locks never deadlock: after every run, whatever order the threads then advance
      in, everything under way is finished after a bounded number of steps. */
  lemma ConsiderateCallersFinish(threads: nat, writersFirst: bool, actions: seq<Action>, more: seq<Action>)
    requires Possible(Initial(threads, writersFirst), actions)
    requires AllConsiderate(Initial(threads, writersFirst), actions)
    requires AllAdvance(After(Initial(threads, writersFirst), actions), more)
    ensures var s := After(Initial(threads, writersFirst), actions);
            && Possible(s, more) && |more| <= TotalRemaining(s.threads)
            && (NobodyAdvances(After(s, more)) ==> Quiet(After(s, more)))
            && exists last :: LeadsToQuiet(s, last)
  {
    var s := After(Initial(threads, writersFirst), actions);
    InitialInvariant(threads, writersFirst);
    RunKeepsInvariant(Initial(threads, writersFirst), actions);
    ConsiderateRun(Initial(threads, writersFirst), actions);
    EveryOrderFinishes(s, more);
    FreeIsNotDoomed(s);
    FinishesExactlyWhen(s);
  }

  /** Each kind of inconsiderate call traps its caller exactly in these states: calculating the field always,
      storing coefficients whenever a calculation waits for the field lock. The first asks for the lock that the
      caller's own view already owns shared, which C++ leaves undefined; here the request is never granted. */
  lemma InconsiderateCallTraps(s: State, t: nat, grid: Option<nat>)
    requires Invariant(s) && At(s, t, Idle) && HoldsView(s, t)
    ensures Trapped(Next(s, BeginField(t, grid)), t)
    ensures Trapped(Next(s, BeginStore(t)), t) <==> FieldAwaited(s)
    ensures Trapped(Next(s, BeginEvaluate(t)), t) <==> s.writersFirst && StoreAwaited(s) && FieldAwaited(s)
  {
    var u, v := Next(s, BeginStore(t)), Next(s, BeginEvaluate(t));
    assert forall i :: 0 <= i < |s.threads| && i != t ==> u.threads[i] == s.threads[i] && v.threads[i] == s.threads[i];
    if f :| 0 <= f < |s.threads| && s.threads[f].pc.FieldWanted? {
      assert u.threads[f].pc.FieldWanted? && v.threads[f].pc.FieldWanted?;
    }
    if w :| 0 <= w < |s.threads| && s.threads[w].pc == StoreWanted {
      assert v.threads[w].pc == StoreWanted;
    }
  }

  // ----- Witnesses -----

  ghost predicate Reachable(threads: nat, writersFirst: bool, s: State) {
    var first := Initial(threads, writersFirst);
    exists actions :: Possible(first, actions) && After(first, actions) == s
  }

  lemma {:induction false} RunExtends(s: State, actions: seq<Action>, a: Action)
    requires Possible(s, actions) && Enabled(After(s, actions), a)
    ensures Possible(s, actions + [a]) && After(s, actions + [a]) == Next(After(s, actions), a)
    decreases |actions|
  {
    if actions == [] {
      assert [a][1..] == [];
    } else {
      assert (actions + [a])[1..] == actions[1..] + [a];
      RunExtends(Next(s, actions[0]), actions[1..], a);
    }
  }

  lemma StepReaches(threads: nat, writersFirst: bool, s: State, a: Action) returns (t: State)
    requires Reachable(threads, writersFirst, s) && Enabled(s, a)
    ensures t == Next(s, a) && Reachable(threads, writersFirst, t)
  {
    t := Next(s, a);
    var first := Initial(threads, writersFirst);
    var actions :| Possible(first, actions) && After(first, actions) == s;
    RunExtends(Initial(threads, writersFirst), actions, a);
  }

  /** Threads 0 and 1 at rest, the field computed from vector 1, and thread 0 holding a view of it. */
  function Viewed(writersFirst: bool): State {
    var field := Field(true, 1, [1]);
    State(writersFirst, [Thread(Idle, Some(field)), Thread(Idle, None)], Some(1), {}, None, field, {0}, None)
  }

  /** The same with other program counters, and the coefficients lock held by one thread. */
  function ViewedAt(writersFirst: bool, first: Pc, second: Pc, reader: nat): State {
    var field := Field(true, 1, [1]);
    State(writersFirst, [Thread(first, Some(field)), Thread(second, None)], Some(1), {reader}, None, field, {0}, None)
  }

  lemma Stored(writersFirst: bool, s: State, vector: nat) returns (t: State)
    requires Reachable(2, writersFirst, s) && At(s, 1, Idle) && CoefficientsFree(s)
    ensures Reachable(2, writersFirst, t) && t == s.(coefficients := Some(vector))
  {
    t := StepReaches(2, writersFirst, s, BeginStore(1));
    t := StepReaches(2, writersFirst, t, LockStore(1));
    t := StepReaches(2, writersFirst, t, Store(1, vector));
    assert t.threads == s.threads;
  }

  /** Thread 1 of two threads without views has just cleared the field for one triple. */
  function Filling(writersFirst: bool): State {
    var threads := [Thread(Idle, None), Thread(FillingField(Some(1)), None)];
    State(writersFirst, threads, Some(1), {1}, None, Field(false, 1, []), {}, Some(1))
  }

  lemma FillingIsReachable(writersFirst: bool)
    ensures Reachable(2, writersFirst, Filling(writersFirst))
  {
    var s := Initial(2, writersFirst);
    assert Possible(s, []) && After(s, []) == s;
    s := Stored(writersFirst, s, 1);
    s := StepReaches(2, writersFirst, s, BeginField(1, Some(1)));
    s := StepReaches(2, writersFirst, s, LockCoefficients(1));
    s := StepReaches(2, writersFirst, s, LockField(1));
    assert s == Filling(writersFirst);
  }

  function Filled(writersFirst: bool): State {
    var threads := [Thread(Idle, None), Thread(Idle, None)];
    State(writersFirst, threads, Some(1), {}, None, Field(true, 1, [1]), {}, None)
  }

  lemma FilledIsReachable(writersFirst: bool)
    ensures Reachable(2, writersFirst, Filled(writersFirst))
  {
    FillingIsReachable(writersFirst);
    var s := StepReaches(2, writersFirst, Filling(writersFirst), FillCell(1));
    s := StepReaches(2, writersFirst, s, FinishField(1));
    assert s == Filled(writersFirst);
  }

  lemma ViewedIsReachable(writersFirst: bool)
    ensures Reachable(2, writersFirst, Viewed(writersFirst))
  {
    FilledIsReachable(writersFirst);
    var s := StepReaches(2, writersFirst, Filled(writersFirst), BeginView(0));
    s := StepReaches(2, writersFirst, s, LockView(0));
    assert s == Viewed(writersFirst);
  }

  /** The field a view sees need not belong to the current coefficients. */
  lemma ViewMayBeStale(writersFirst: bool)
    ensures exists s :: Reachable(2, writersFirst, s) && HoldsView(s, 0)
                        && s.field == Field(true, 1, [1]) && s.coefficients == Some(2)
  {
    ViewedIsReachable(writersFirst);
    var s := Stored(writersFirst, Viewed(writersFirst), 2);
  }

  lemma NothingMoves(writersFirst: bool, a: Action)
    ensures !Enabled(ViewedAt(writersFirst, StoreWanted, FieldWanted(Some(1)), 1), a)
  {
  }

  /** Two threads can deadlock: thread 1 has begun to calculate the field and waits for the view of thread 0,
      which then wants to store coefficients and waits for thread 1. No action at all is possible any more. */
  lemma TwoThreadsDeadlock(writersFirst: bool)
    ensures exists s :: Reachable(2, writersFirst, s) && HoldsView(s, 0) && s.threads[0].pc == StoreWanted
                        && forall a :: !Enabled(s, a)
  {
    ViewedIsReachable(writersFirst);
    var s := StepReaches(2, writersFirst, Viewed(writersFirst), BeginField(1, Some(1)));
    s := StepReaches(2, writersFirst, s, LockCoefficients(1));
    s := StepReaches(2, writersFirst, s, BeginStore(0));
    assert s == ViewedAt(writersFirst, StoreWanted, FieldWanted(Some(1)), 1);
    forall a
      ensures !Enabled(s, a)
    {
      NothingMoves(writersFirst, a);
    }
  }

  /** And a thread can be trapped by its own view, by calculating the field while it holds one. Asking for a
      `std::shared_mutex` exclusively while owning it shared is undefined in C++; here the request is never
      granted. */
  lemma OneThreadDeadlocks(writersFirst: bool)
    ensures exists s :: Reachable(2, writersFirst, s) && At(s, 1, Idle) && Trapped(s, 0)
  {
    ViewedIsReachable(writersFirst);
    ViewedInvariant(writersFirst);
    InconsiderateCallTraps(Viewed(writersFirst), 0, Some(1));
    var s := StepReaches(2, writersFirst, Viewed(writersFirst), BeginField(0, Some(1)));
  }

  lemma ViewedInvariant(writersFirst: bool)
    ensures Invariant(Viewed(writersFirst))
  {
  }
}
