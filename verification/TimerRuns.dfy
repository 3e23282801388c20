/** One pass of the SheepShaver timer interrupt as a run of the machine of the two threads. */
module TimerRuns {
  import opened Bytes
  import opened TimerTasks
  import opened TimerThreads
  import opened SheepTimer

  /** The steps that a task routine makes, in front of others; it runs at the time it says. */
  function RoutineSteps(m: Manager, t: Task, e: Effect, rest: List<Step>): List<Step> {
    match e
    case Leave => rest
    case Prime(delay, later) =>
      if Has(m.descs, t) then Cons(Tick(later), Cons(BeginPrime(t, delay), Cons(EnterPrime, rest))) else rest
    case Remove =>
      if Has(m.descs, t) then Cons(BeginRemove(t), Cons(EnterRemove, Cons(FinishRemove, rest))) else rest
  }

  /** The steps that visiting a descriptor takes. */
  function VisitSteps(m: Manager, d: Desc, now: Time, rs: Routines, rest: List<Step>): List<Step> {
    if !Due(d, m.q, now, false) then rest
    else Cons(Fire(d.task), match rs(d.task)
      case None => rest
      case Some(e) => RoutineSteps(Fired(m, d.task), d.task, e, rest))
  }

  /** The steps of a pass over the descriptors ds. */
  function PassSteps(m: Manager, ds: seq<Desc>, now: Time, rs: Routines): List<Step>
    decreases |ds|
  {
    if ds == [] then Cons(FinishInterrupt, Nil)
    else VisitSteps(m, ds[0], now, rs, PassSteps(Visited(m, ds[0], now, rs), ds[1..], now, rs))
  }

  /** The clock after a visit. */
  function Clock(m: Manager, d: Desc, now: Time, rs: Routines, clock: Time): Time {
    if Due(d, m.q, now, false) && rs(d.task).Some? && rs(d.task).value.Prime? && Has(m.descs, d.task)
    then rs(d.task).value.now else clock
  }

  /** The routines run one after the other: the clock does not go back. */
  predicate Timely(m: Manager, ds: seq<Desc>, now: Time, rs: Routines, clock: Time)
    decreases |ds|
  {
    ds != [] ==>
      clock <= Clock(m, ds[0], now, rs, clock) &&
      Timely(Visited(m, ds[0], now, rs), ds[1..], now, rs, Clock(m, ds[0], now, rs, clock))
  }

  predicate Serving(s: State) { s.frames.Cons? && s.frames.head.Interrupting? }

  /** s runs on as s' does once the steps `run` have led from s to s'. */
  predicate LeadsTo(s: State, run: List<Step>, s': State, rest: List<Step>) {
    Runnable(s', rest) ==> Runnable(s, run) && After(s, run) == After(s', rest)
  }

  lemma RoutineRuns(s: State, t: Task, e: Effect, rest: List<Step>) returns (s': State)
    requires Serving(s) && (e.Prime? && Has(s.m.descs, t) ==> s.now <= e.now)
    ensures s'.m == AfterRoutine(s.m, t, e) && s'.frames == s.frames && s'.flag == s.flag
    ensures s'.now == if e.Prime? && Has(s.m.descs, t) then e.now else s.now
    ensures LeadsTo(s, RoutineSteps(s.m, t, e, rest), s', rest)
  {
    s' := s;
    hide Scheduled, Primed, Stopped, Freed;
    if Has(s.m.descs, t) {
      match e {
        case Leave =>
        case Prime(delay, later) =>
          var s1 := Next(s, Tick(later));
          var s2 := Next(s1, BeginPrime(t, delay));
          s' := Next(s2, EnterPrime);
          assert LeadsTo(s2, Cons(EnterPrime, rest), s', rest);
          assert LeadsTo(s1, Cons(BeginPrime(t, delay), Cons(EnterPrime, rest)), s', rest);
        case Remove =>
          var s1 := Next(s, BeginRemove(t));
          var s2 := Next(s1, EnterRemove);
          s' := Next(s2, FinishRemove);
          assert LeadsTo(s2, Cons(FinishRemove, rest), s', rest);
          assert LeadsTo(s1, Cons(EnterRemove, Cons(FinishRemove, rest)), s', rest);
      }
    }
  }

  lemma VisitRuns(s: State, d: Desc, now: Time, rs: Routines, rest: List<Step>) returns (s': State)
    requires Serving(s) && Has(s.m.descs, d.task) && s.now <= Clock(s.m, d, now, rs, s.now)
    ensures s'.m == Visited(s.m, d, now, rs) && s'.frames == s.frames && s'.flag == s.flag
    ensures s'.now == Clock(s.m, d, now, rs, s.now)
    ensures LeadsTo(s, VisitSteps(s.m, d, now, rs, rest), s', rest)
  {
    hide RoutineSteps, AfterRoutine;
    s' := s;
    if Due(d, s.m.q, now, false) {
      s' := Next(s, Fire(d.task));
      if rs(d.task).Some? {
        var s1 := s';
        s' := RoutineRuns(s1, d.task, rs(d.task).value, rest);
        assert LeadsTo(s1, RoutineSteps(s1.m, d.task, rs(d.task).value, rest), s', rest);
      }
    }
  }

  /** The descriptor that is visited next is still in the list. */
  lemma StillThere(m0: Manager, k: nat, m: Manager, now: Time, rs: Routines)
    requires Halfway(m0, k, m, now, rs) && k < |m0.descs|
    ensures Has(m.descs, m0.descs[k].task)
  {
    var p := |m.descs| - (|m0.descs| - k);
    assert m.descs[p] == m.descs[p..][0] == m0.descs[k..][0];
    FindIs(m.descs, p);
  }

  lemma {:induction false} WalkRuns(m0: Manager, k: nat, s: State, now: Time, rs: Routines)
    requires k <= |m0.descs| && Halfway(m0, k, s.m, now, rs) && Serving(s)
    requires Timely(s.m, m0.descs[k..], now, rs, s.now)
    ensures Runnable(s, PassSteps(s.m, m0.descs[k..], now, rs))
    ensures var s' := After(s, PassSteps(s.m, m0.descs[k..], now, rs));
      s'.m == Recomputed(Walked(s.m, m0.descs[k..], now, rs)) && s'.frames == s.frames.tail && s'.flag == s.flag
    decreases |m0.descs| - k
  {
    hide Halfway, Visited, VisitSteps, Recomputed, Clock;
    var ds := m0.descs[k..];
    if k == |m0.descs| {
      assert ds == [];
    } else {
      assert ds[0] == m0.descs[k] && ds[1..] == m0.descs[k + 1..];
      StillThere(m0, k, s.m, now, rs);
      HalfwayStep(m0, k, s.m, now, rs);
      var m1 := Visited(s.m, ds[0], now, rs);
      var s1 := VisitRuns(s, ds[0], now, rs, PassSteps(m1, ds[1..], now, rs));
      WalkRuns(m0, k + 1, s1, now, rs);
    }
  }

  /** Serving the timer interrupt with task routines that act on their own task: from any
      state of the machine with the flag set, the pass is a run of the machine, it ends with
      the state that the method leaves behind, and no wakeup is lost over it. */
  lemma InterruptIsARun(s: State, now: Time, rs: Routines)
    requires Inv(s) && InGuestCode(s) && s.flag && s.now == now && Timely(s.m, s.m.descs, now, rs, now)
    ensures var run := Cons(ServeInterrupt, PassSteps(s.m, s.m.descs, now, rs));
      Runnable(s, run) && Inv(After(s, run)) && After(s, run).frames == s.frames &&
      After(s, run).m == Recomputed(Walked(s.m, s.m.descs, now, rs))
  {
    var s1 := Next(s, ServeInterrupt);
    var steps := PassSteps(s.m, s.m.descs, now, rs);
    PassStarts(s.m, now, rs);
    WalkRuns(s.m, 0, s1, now, rs);
    hide PassSteps, Halfway, Recomputed, Walked, Inv, Timely;
    assert Runnable(s, Cons(ServeInterrupt, steps)) && After(s, Cons(ServeInterrupt, steps)) == After(s1, steps);
    RunsKeepInv(s, Cons(ServeInterrupt, steps));
  }
}
