/** The SheepShaver Time Manager and its timer thread as one state machine: the two
    share `wakeup_time`, the thread tests it without the lock, and the emulator
    thread may interleave with every step. */
module TimerThreads {
  import opened Bytes
  import opened TimerTasks

  // ---------------------------------------------------------------- the manager's own steps

  datatype Manager = Manager(descs: seq<Desc>, q: Words, tmWakeUp: Words, wakeupTime: Time)

  /** `InsTime`: the type bits, and a descriptor at the head of the list if there is none. */
  function Inserted(m: Manager, t: Task, trap: nat): Manager {
    m.(q := m.q[t := Installed(Word(m.q, t), trap)],
       descs := if Has(m.descs, t) then m.descs else [Desc(t, 0)] + m.descs)
  }

  /** `PrimeTime` up to the critical section: the deadline. */
  function Scheduled(m: Manager, t: Task, delay: Time, now: Time): Manager {
    if !Has(m.descs, t) then m
    else
      var i, w := Find(m.descs, t), Word(m.q, t);
      m.(descs := m.descs[i := Desc(t, Deadline(w, Word(m.tmWakeUp, t), m.descs[i].wakeup, delay, now))],
         tmWakeUp := if IsExtended(w) then m.tmWakeUp[t := WAKEUP_MARK] else m.tmWakeUp)
  }

  function Recomputed(m: Manager): Manager { m.(wakeupTime := Earliest(m.descs, m.q)) }

  /** The critical section of `PrimeTime`. */
  function Primed(m: Manager, t: Task): Manager {
    Recomputed(m.(q := m.q[t := Activated(Word(m.q, t))]))
  }

  /** The critical section of `RmvTime`: only an active task makes it look for the next wakeup. */
  function Stopped(m: Manager, t: Task): Manager {
    if IsActive(Word(m.q, t)) then Recomputed(m.(q := m.q[t := Deactivated(Word(m.q, t))])) else m
  }

  /** `free_desc` */
  function Freed(m: Manager, t: Task): Manager {
    var i := Find(m.descs, t);
    if i == |m.descs| then m else m.(descs := m.descs[..i] + m.descs[i + 1..])
  }

  /** A due task marked inactive by `TimerInterrupt`. */
  function Fired(m: Manager, t: Task): Manager { m.(q := m.q[t := Deactivated(Word(m.q, t))]) }

  // ---------------------------------------------------------------- the machine

  /** The timer thread: between sleeps; asleep; woken; having seen an expired wakeup
      time outside the lock; having reset it, with the flag still to be set. */
  datatype Thread = Idle | Sleeping(until: Time) | Awake | Expired | Pending

  /** A call in progress on the emulator thread; task routines nest. */
  datatype Frame = Priming(t: Task) | Removing(t: Task) | Freeing(t: Task) | Interrupting

  datatype State = State(m: Manager, thread: Thread, flag: bool, frames: List<Frame>, now: Time)

  datatype Step =
    // the emulator thread
    | Insert(t: Task, trap: nat)
    | BeginPrime(t: Task, delay: Time)
    | EnterPrime
    | BeginRemove(t: Task)
    | EnterRemove
    | FinishRemove
    | TimerReset
    | ServeInterrupt
    | Fire(t: Task)
    | FinishInterrupt
    // the timer thread
    | GoToSleep | WakeUp | Test | Reset | SetFlag
    | TestLocked            // the threads that test, reset and set the flag under the lock
    // time passes
    | Tick(to: Time)

  predicate InGuestCode(s: State) { s.frames.Nil? || s.frames.head.Interrupting? }

  predicate Enabled(s: State, a: Step) {
    match a
    case Insert(_, _) => InGuestCode(s)
    case BeginPrime(t, _) => InGuestCode(s) && Has(s.m.descs, t)
    case EnterPrime => s.frames.Cons? && s.frames.head.Priming?
    case BeginRemove(t) => InGuestCode(s) && Has(s.m.descs, t)
    case EnterRemove => s.frames.Cons? && s.frames.head.Removing?
    case FinishRemove => s.frames.Cons? && s.frames.head.Freeing?
    case TimerReset => s.frames.Nil?
    case ServeInterrupt => InGuestCode(s) && s.flag
    case Fire(t) => s.frames.Cons? && s.frames.head.Interrupting? && Has(s.m.descs, t) && IsActive(Word(s.m.q, t))
    case FinishInterrupt => s.frames.Cons? && s.frames.head.Interrupting?
    case GoToSleep => s.thread.Idle?
    case WakeUp => s.thread.Sleeping? && s.thread.until <= s.now
    case Test => s.thread.Awake?
    case Reset => s.thread.Expired?
    case SetFlag => s.thread.Pending?
    case TestLocked => s.thread.Awake?
    case Tick(to) => s.now <= to
  }

  /** The end of a critical section resumes the thread, which ends its sleep. */
  function Resumed(th: Thread): Thread { if th.Sleeping? then Awake else th }

  function Next(s: State, a: Step): State
    requires Enabled(s, a)
  {
    match a
    case Insert(t, trap) => s.(m := Inserted(s.m, t, trap))
    case BeginPrime(t, delay) => s.(m := Scheduled(s.m, t, delay, s.now), frames := Cons(Priming(t), s.frames))
    case EnterPrime =>
      s.(m := Primed(s.m, s.frames.head.t), thread := Resumed(s.thread), frames := s.frames.tail)
    case BeginRemove(t) => s.(frames := Cons(Removing(t), s.frames))
    case EnterRemove =>
      s.(m := Stopped(s.m, s.frames.head.t), thread := Resumed(s.thread),
         frames := Cons(Freeing(s.frames.head.t), s.frames.tail))
    case FinishRemove => s.(m := Freed(s.m, s.frames.head.t), frames := s.frames.tail)
    case TimerReset => s.(m := s.m.(descs := []))
    case ServeInterrupt => s.(flag := false, frames := Cons(Interrupting, s.frames))
    case Fire(t) => s.(m := Fired(s.m, t))
    case FinishInterrupt => s.(m := Recomputed(s.m), thread := Resumed(s.thread), frames := s.frames.tail)
    case GoToSleep => s.(thread := Sleeping(s.m.wakeupTime))
    case WakeUp => s.(thread := Awake)
    case Test => s.(thread := if s.m.wakeupTime < s.now then Expired else Idle)
    case Reset => s.(m := s.m.(wakeupTime := WAKEUP_MAX), thread := Pending)
    case SetFlag => s.(flag := true, thread := Idle)
    case TestLocked =>
      if s.m.wakeupTime < s.now then s.(m := s.m.(wakeupTime := WAKEUP_MAX), flag := true, thread := Idle)
      else s.(thread := Idle)
    case Tick(to) => s.(now := to)
  }

  function Init(q: Words, tmWakeUp: Words, now: Time): State {
    State(Manager([], q, tmWakeUp, WAKEUP_MAX), Idle, false, Nil, now)
  }

  predicate Runnable(s: State, run: List<Step>)
    decreases run
  {
    run.Cons? ==> Enabled(s, run.head) && Runnable(Next(s, run.head), run.tail)
  }

  function After(s: State, run: List<Step>): State
    requires Runnable(s, run)
    decreases run
  {
    if run.Nil? then s else After(Next(s, run.head), run.tail)
  }

  // ---------------------------------------------------------------- no lost wakeup

  /** The emulator thread is in none of the calls that end by looking for the next
      wakeup (removing an idle task is not one of them). */
  predicate Settled(s: State) {
    s.frames.Nil? || (s.frames.tail.Nil? && (s.frames.head.Removing? || s.frames.head.Freeing?))
  }

  /** An active task is not forgotten: the thread will wake for it, or has told the
      emulator, or is about to. */
  ghost predicate NoLostWakeup(s: State) {
    s.flag || s.thread.Pending? || NoneBefore(s.m.descs, s.m.q, s.m.wakeupTime)
  }

  /** Only an interrupt in progress runs guest code, which makes further calls. */
  predicate WellNested(fs: List<Frame>) {
    fs.Cons? ==> (fs.tail.Cons? ==> fs.tail.head.Interrupting?) && WellNested(fs.tail)
  }

  ghost predicate Inv(s: State) {
    WellNested(s.frames) &&
    (Settled(s) ==> NoLostWakeup(s)) &&
    (s.thread.Sleeping? ==> s.thread.until == s.m.wakeupTime) &&
    Distinct(s.m.descs)
  }

  lemma FreedKeeps(m: Manager, t: Task, u: Time)
    requires Distinct(m.descs)
    ensures Distinct(Freed(m, t).descs)
    ensures NoneBefore(m.descs, m.q, u) ==> NoneBefore(Freed(m, t).descs, m.q, u)
  {
    var i := Find(m.descs, t);
    if i < |m.descs| {
      var ds := Freed(m, t).descs;
      assert forall j :: 0 <= j < |ds| ==> ds[j] == m.descs[if j < i then j else j + 1];
    }
  }

  lemma InsertedKeeps(m: Manager, t: Task, trap: nat, u: Time)
    requires Distinct(m.descs)
    ensures Distinct(Inserted(m, t, trap).descs)
    ensures NoneBefore(m.descs, m.q, u) ==> NoneBefore(Inserted(m, t, trap).descs, Inserted(m, t, trap).q, u)
  {
    var m' := Inserted(m, t, trap);
    if !Has(m.descs, t) {
      assert forall j :: 0 < j < |m'.descs| ==> m'.descs[j] == m.descs[j - 1];
    }
  }

  /** Every step of either thread keeps the invariant. */
  lemma StepKeepsInv(s: State, a: Step)
    requires Inv(s) && Enabled(s, a)
    ensures Inv(Next(s, a))
  {
    hide Earliest, Installed, Activated, Deactivated, Deadline;
    var s' := Next(s, a);
    EarliestIsBound(s'.m.descs, s'.m.q);
    match a {
      case Insert(t, trap) => InsertedKeeps(s.m, t, trap, s.m.wakeupTime);
      case FinishRemove => FreedKeeps(s.m, s.frames.head.t, s.m.wakeupTime);
      case _ =>
    }
  }

  /** No wakeup is lost in any run, whatever the interleaving. */
  lemma {:induction false} RunsKeepInv(s: State, run: List<Step>)
    requires Inv(s) && Runnable(s, run)
    ensures Inv(After(s, run))
    decreases run
  {
    if run.Cons? {
      StepKeepsInv(s, run.head);
      RunsKeepInv(Next(s, run.head), run.tail);
    }
  }

  lemma InitInv(q: Words, tmWakeUp: Words, now: Time)
    ensures Inv(Init(q, tmWakeUp, now))
  {
  }

  /** The same from the start: in every reachable state outside the manager's calls,
      the wakeup time is no later than any active deadline, or the flag is set, or
      the thread is about to set it; and the thread never sleeps past the wakeup time. */
  lemma NoWakeupIsLost(q: Words, tmWakeUp: Words, start: Time, run: List<Step>)
    requires Runnable(Init(q, tmWakeUp, start), run)
    ensures var s := After(Init(q, tmWakeUp, start), run);
      (Settled(s) ==> NoLostWakeup(s)) && (s.thread.Sleeping? ==> s.thread.until == s.m.wakeupTime)
    ensures Distinct(After(Init(q, tmWakeUp, start), run).m.descs)
  {
    InitInv(q, tmWakeUp, start);
    RunsKeepInv(Init(q, tmWakeUp, start), run);
  }

  // ---------------------------------------------------------------- no false alarm

  /** A run in which no task is primed, and which ends before the end of time. */
  predicate NothingPrimed(run: List<Step>) {
    run.Cons? ==>
      !run.head.BeginPrime? && (run.head.Tick? ==> run.head.to <= WAKEUP_MAX) && NothingPrimed(run.tail)
  }

  predicate NoPriming(fs: List<Frame>) { fs.Cons? ==> !fs.head.Priming? && NoPriming(fs.tail) }

  /** No task is active and nothing is waited for or announced. */
  ghost predicate Quiet(s: State) {
    s.m.wakeupTime == WAKEUP_MAX && s.now <= WAKEUP_MAX && !s.flag && !s.thread.Expired? && !s.thread.Pending? &&
    NoPriming(s.frames) && forall i :: 0 <= i < |s.m.descs| ==> !Running(s.m.descs[i], s.m.q)
  }

  lemma QuietStep(s: State, a: Step)
    requires Quiet(s) && Enabled(s, a) && NothingPrimed(Cons(a, Nil))
    ensures Quiet(Next(s, a))
  {
    hide Earliest, Installed, Activated, Deactivated, Deadline, IsActive;
    var s' := Next(s, a);
    EarliestIsBound(s'.m.descs, s'.m.q);
    if a.FinishRemove? && Has(s.m.descs, s.frames.head.t) {
      var i := Find(s.m.descs, s.frames.head.t);
      assert forall j :: 0 <= j < |s'.m.descs| ==> s'.m.descs[j] == s.m.descs[if j < i then j else j + 1];
    }
  }

  /** While no task has been primed the interrupt flag is never raised, in any run. */
  lemma {:induction false} NoFalseAlarm(s: State, run: List<Step>)
    requires Quiet(s) && Runnable(s, run) && NothingPrimed(run)
    ensures !After(s, run).flag
    decreases run
  {
    hide Enabled, Next;
    if run.Cons? {
      QuietStep(s, run.head);
      NoFalseAlarm(Next(s, run.head), run.tail);
    }
  }

  // ---------------------------------------------------------------- progress

  /** What the POSIX timer thread does next when it is left alone. */
  function ThreadStep(s: State): State {
    match s.thread
    case Idle => Next(s, GoToSleep)
    case Sleeping(until) => if until <= s.now then Next(s, WakeUp) else s
    case Awake => Next(s, Test)
    case Expired => Next(s, Reset)
    case Pending => Next(s, SetFlag)
  }

  function ThreadSteps(s: State, n: nat): State
    decreases n
  {
    if n == 0 then s else ThreadSteps(ThreadStep(s), n - 1)
  }

  /** In every reachable state outside the manager's calls, once the deadline of an
      active task has passed, the timer thread alone raises the interrupt flag within
      five steps: it is never asleep for longer. */
  lemma DueTaskRaisesFlag(q: Words, tmWakeUp: Words, start: Time, run: List<Step>, i: nat)
    requires Runnable(Init(q, tmWakeUp, start), run)
    requires var s := After(Init(q, tmWakeUp, start), run);
      Settled(s) && i < |s.m.descs| && Running(s.m.descs[i], s.m.q) && s.m.descs[i].wakeup < s.now && !s.flag
    ensures exists n :: 1 <= n <= 5 && ThreadSteps(After(Init(q, tmWakeUp, start), run), n).flag
  {
    InitInv(q, tmWakeUp, start);
    RunsKeepInv(Init(q, tmWakeUp, start), run);
    var s := After(Init(q, tmWakeUp, start), run);
    var s1 := ThreadStep(s);
    var s2 := ThreadStep(s1);
    var s3 := ThreadStep(s2);
    var s4 := ThreadStep(s3);
    StepsUnfold(s);
    assert s.thread.Pending? || s.m.wakeupTime < s.now;
  }

  lemma StepsUnfold(s: State)
    ensures ThreadSteps(s, 1) == ThreadStep(s)
    ensures ThreadSteps(s, 2) == ThreadStep(ThreadStep(s))
    ensures ThreadSteps(s, 3) == ThreadStep(ThreadStep(ThreadStep(s)))
    ensures ThreadSteps(s, 4) == ThreadStep(ThreadStep(ThreadStep(ThreadStep(s))))
    ensures ThreadSteps(s, 5) == ThreadStep(ThreadStep(ThreadStep(ThreadStep(ThreadStep(s)))))
  {
  }
}
