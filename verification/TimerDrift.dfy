/** Extended tasks do not drift: what many passes make of the deadline of a task that its
    routine primes again and again, however late the passes come. */
module SheepDrift {
  import opened Bytes
  import opened TimerTasks
  import opened TimerThreads
  import opened SheepTimer

  /** The manager after one pass, and after several. */
  function AfterPass(m: Manager, p: Pass): Manager { Recomputed(Walked(m, m.descs, p.now, p.rs)) }

  function AfterPasses(m: Manager, ps: List<Pass>): Manager
    decreases ps
  {
    if ps.Nil? then m else AfterPasses(AfterPass(m, ps.head), ps.tail)
  }

  /** What `PrimeTime` makes of the deadline: an extended task that has run before counts from
      its last deadline, an extended one that has not and any other from the time of the call. */
  lemma PrimedDeadline(m: Manager, t: Task, last: Time, delay: Time, now: Time)
    requires Distinct(m.descs) && LookUp(m.descs, t) == Some(last)
    ensures var m' := Primed(Scheduled(m, t, delay, now), t); var w := Word(m.q, t);
      IsActive(Word(m'.q, t)) && (IsExtended(Word(m'.q, t)) <==> IsExtended(w)) &&
      Distinct(m'.descs) &&
      (w / 0x4000 % 2 == 0 ==> LookUp(m'.descs, t) == Some(now + delay)) &&
      (w / 0x4000 % 2 == 1 && Word(m.tmWakeUp, t) == 0 ==> LookUp(m'.descs, t) == Some(now + delay)) &&
      (w / 0x4000 % 2 == 1 && Word(m.tmWakeUp, t) != 0 ==> LookUp(m'.descs, t) == Some(last + delay)) &&
      (w / 0x4000 % 2 == 1 ==> Word(m'.tmWakeUp, t) == 0x12345678)
  {
    hide Earliest, Activated;
    var i, counts := Find(m.descs, t), IsExtended(Word(m.q, t)) && Word(m.tmWakeUp, t) != 0;
    LookUpUpdate(m.descs, i, if counts then last + delay else now + delay, t);
  }

  // ---------------------------------------------------------------- one pass

  lemma {:induction false} WalkedHalfway(m0: Manager, k: nat, m: Manager, now: Time, rs: Routines)
    requires k <= |m0.descs| && Halfway(m0, k, m, now, rs)
    ensures Halfway(m0, |m0.descs|, Walked(m, m0.descs[k..], now, rs), now, rs)
    decreases |m0.descs| - k
  {
    hide Halfway, Visited;
    if k < |m0.descs| {
      HalfwayStep(m0, k, m, now, rs);
      WalkOn(m, m0.descs, k, now, rs);
      WalkedHalfway(m0, k + 1, Visited(m, m0.descs[k], now, rs), now, rs);
    }
  }

  /** No call takes the mark of a task away that it has run before. */
  lemma VisitedMark(m: Manager, d: Desc, now: Time, rs: Routines, t: Task)
    requires Word(m.tmWakeUp, t) != 0
    ensures Word(Visited(m, d, now, rs).tmWakeUp, t) != 0
  {
    hide Earliest, Activated, Deactivated, Deadline;
  }

  lemma {:induction false} WalkedMark(m: Manager, ds: seq<Desc>, now: Time, rs: Routines, t: Task)
    requires Word(m.tmWakeUp, t) != 0
    ensures Word(Walked(m, ds, now, rs).tmWakeUp, t) != 0
    decreases |ds|
  {
    hide Visited;
    if ds != [] {
      VisitedMark(m, ds[0], now, rs, t);
      WalkedMark(Visited(m, ds[0], now, rs), ds[1..], now, rs, t);
    }
  }

  /** What a pass makes of a task and its deadline. */
  lemma PassSettles(m: Manager, t: Task, last: Time, p: Pass)
    requires Distinct(m.descs) && LookUp(m.descs, t) == Some(last)
    ensures var m' := AfterPass(m, p);
      Distinct(m'.descs) && LookUp(m'.descs, t) == NewDeadline(m, Desc(t, last), p.now, p.rs) &&
      Word(m'.q, t) == NewWord(m, Desc(t, last), p.now, p.rs)
  {
    hide Walked, Earliest, NewDeadline, NewWord;
    PassStarts(m, p.now, p.rs);
    WalkedHalfway(m, 0, m, p.now, p.rs);
    assert m.descs[Find(m.descs, t)] == Desc(t, last);
  }

  /** An active extended task that has run before, with its deadline. */
  ghost predicate Ticking(m: Manager, t: Task, deadline: Time) {
    Distinct(m.descs) && LookUp(m.descs, t) == Some(deadline) &&
    Word(m.q, t) / 0x8000 % 2 == 1 && Word(m.q, t) / 0x4000 % 2 == 1 && Word(m.tmWakeUp, t) != 0
  }

  /** One pass, at the deadline or after it, moves the deadline on by the delay; an earlier
      one leaves it alone. */
  lemma PassTicks(m: Manager, t: Task, deadline: Time, delay: Time, p: Pass)
    requires Ticking(m, t, deadline) && p.rs(t).Some? && p.rs(t).value.Prime? && p.rs(t).value.delay == delay
    ensures Ticking(AfterPass(m, p), t, if deadline <= p.now then deadline + delay else deadline)
  {
    hide Distinct, LookUp, Activated, Deactivated;
    PassSettles(m, t, deadline, p);
    WalkedMark(m, m.descs, p.now, p.rs, t);
    hide Walked, AfterPass;
  }

  // ---------------------------------------------------------------- many passes

  /** The deadline after any sequence of passes is the first one and as many delays as there
      were passes that came late enough, however late: it depends on no time of a pass. */
  lemma {:induction false} NoDrift(m: Manager, t: Task, deadline: Time, delay: Time, ps: List<Pass>)
    requires Ticking(m, t, deadline) && Reprimes(ps, t, delay)
    ensures Ticking(AfterPasses(m, ps), t, deadline + Served(ps, deadline, delay, false) * delay)
    decreases ps
  {
    hide Ticking, AfterPass;
    if ps.Cons? {
      var late := deadline <= ps.head.now;
      PassTicks(m, t, deadline, delay, ps.head);
      NoDrift(AfterPass(m, ps.head), t, if late then deadline + delay else deadline, delay, ps.tail);
      if late { Later(deadline, delay, Served(ps.tail, deadline + delay, delay, false)); }
    }
  }

  /** From the first time an extended task is primed: its n-th deadline is the time of that
      call and n delays. */
  lemma FirstPrimeNoDrift(m: Manager, t: Task, delay: Time, start: Time, ps: List<Pass>)
    requires Distinct(m.descs) && Has(m.descs, t) && IsExtended(Word(m.q, t)) && Word(m.tmWakeUp, t) == 0
    requires Reprimes(ps, t, delay) && Punctual(ps, start + delay, delay, false)
    ensures LookUp(AfterPasses(Primed(Scheduled(m, t, delay, start), t), ps).descs, t)
      == Some(start + (Length(ps) + 1) * delay)
  {
    PrimedDeadline(m, t, LookUp(m.descs, t).value, delay, start);
    hide Scheduled, Primed, LookUp, Distinct;
    NoDrift(Primed(Scheduled(m, t, delay, start), t), t, start + delay, delay, ps);
    Later(start, delay, Length(ps));
  }

  /** A task that is not extended gets the time at which its routine primes it, and so
      drifts by as much as the pass is late. */
  lemma OrdinaryDrifts(m: Manager, t: Task, deadline: Time, p: Pass, delay: Time, later: Time)
    requires Distinct(m.descs) && LookUp(m.descs, t) == Some(deadline) && deadline <= p.now
    requires IsActive(Word(m.q, t)) && !IsExtended(Word(m.q, t)) && p.rs(t) == Some(Prime(delay, later))
    ensures LookUp(AfterPass(m, p).descs, t) == Some(later + delay)
  {
    hide LookUp, Distinct;
    PassSettles(m, t, deadline, p);
  }
}

/** The same of the Basilisk II manager and its table, whose passes are due a little later. */
module BasiliskDrift {
  import opened Bytes
  import opened TimerTasks
  import opened BasiliskTimer

  /** The deadline in the slot of a task, if it has one. */
  function LookUp(ss: seq<Slot>, t: Task): Option<Time> {
    if FindSlot(ss, t) < |ss| then Some(ss[FindSlot(ss, t)].wakeup) else None
  }

  function AfterPasses(m: Table, ps: List<Pass>): Table
    decreases ps
  {
    if ps.Nil? then m else AfterPasses(Walked(m, 0, ps.head.now, ps.head.rs), ps.tail)
  }

  lemma SlotUpdated(ss: seq<Slot>, s: Slot)
    requires OneEach(ss) && FindSlot(ss, s.task) < |ss| && s.inUse
    ensures LookUp(ss[FindSlot(ss, s.task) := s], s.task) == Some(s.wakeup)
    ensures OneEach(ss[FindSlot(ss, s.task) := s])
  {
    FindIs(ss[FindSlot(ss, s.task) := s], FindSlot(ss, s.task));
  }

  /** What `PrimeTime` makes of the deadline: an extended task that has run before counts from
      its last deadline, an extended one that has not and any other from the time of the call. */
  lemma PrimedDeadline(m: Table, t: Task, last: Time, delay: Time, now: Time)
    requires OneEach(m.slots) && LookUp(m.slots, t) == Some(last)
    ensures var m' := Primed(m, t, delay, now); var w := Word(m.q, t);
      IsActive(Word(m'.q, t)) && (IsExtended(Word(m'.q, t)) <==> IsExtended(w)) &&
      OneEach(m'.slots) &&
      (w / 0x4000 % 2 == 0 ==> LookUp(m'.slots, t) == Some(now + delay)) &&
      (w / 0x4000 % 2 == 1 && Word(m.tmWakeUp, t) == 0 ==> LookUp(m'.slots, t) == Some(now + delay)) &&
      (w / 0x4000 % 2 == 1 && Word(m.tmWakeUp, t) != 0 ==> LookUp(m'.slots, t) == Some(last + delay)) &&
      (w / 0x4000 % 2 == 1 ==> Word(m'.tmWakeUp, t) == 0x12345678)
  {
    hide Activated;
    var counts := IsExtended(Word(m.q, t)) && Word(m.tmWakeUp, t) != 0;
    SlotUpdated(m.slots, Slot(t, if counts then last + delay else now + delay, true));
  }

  // ---------------------------------------------------------------- one pass

  lemma {:induction false} WalkedHalfway(m0: Table, k: nat, m: Table, now: Time, rs: Routines)
    requires Halfway(m0, k, m, now, rs)
    ensures Halfway(m0, |m0.slots|, Walked(m, k, now, rs), now, rs)
    decreases |m0.slots| - k
  {
    assert k <= |m0.slots| == |m.slots|;
    hide Halfway, Visited;
    if k < |m0.slots| {
      HalfwayStep(m0, k, m, now, rs);
      WalkedHalfway(m0, k + 1, Visited(m, m.slots[k], now, rs), now, rs);
    }
  }

  lemma VisitedMark(m: Table, s: Slot, now: Time, rs: Routines, t: Task)
    requires Word(m.tmWakeUp, t) != 0
    ensures Word(Visited(m, s, now, rs).tmWakeUp, t) != 0
  {
    hide Activated, Deactivated, Deadline;
  }

  lemma {:induction false} WalkedMark(m: Table, k: nat, now: Time, rs: Routines, t: Task)
    requires Word(m.tmWakeUp, t) != 0
    ensures Word(Walked(m, k, now, rs).tmWakeUp, t) != 0
    decreases |m.slots| - k
  {
    hide Visited;
    if k < |m.slots| {
      VisitedMark(m, m.slots[k], now, rs, t);
      WalkedMark(Visited(m, m.slots[k], now, rs), k + 1, now, rs, t);
    }
  }

  /** What a pass makes of a task and its slot. */
  lemma PassSettles(m: Table, t: Task, p: Pass)
    requires OneEach(m.slots) && FindSlot(m.slots, t) < |m.slots|
    ensures var m', i := Walked(m, 0, p.now, p.rs), FindSlot(m.slots, t);
      |m'.slots| == |m.slots| && OneEach(m'.slots) && m'.slots[i] == NewSlot(m, m.slots[i], p.now, p.rs) &&
      Word(m'.q, t) == NewWord(m, m.slots[i], p.now, p.rs)
  {
    hide Walked, NewSlot, NewWord;
    PassStarts(m, p.now, p.rs);
    WalkedHalfway(m, 0, m, p.now, p.rs);
    var i := FindSlot(m.slots, t);
    assert m.slots[i].inUse && m.slots[i].task == t;
  }

  /** An active extended task that has run before, with its deadline. */
  ghost predicate Ticking(m: Table, t: Task, deadline: Time) {
    OneEach(m.slots) && LookUp(m.slots, t) == Some(deadline) &&
    Word(m.q, t) / 0x8000 % 2 == 1 && Word(m.q, t) / 0x4000 % 2 == 1 && Word(m.tmWakeUp, t) != 0
  }

  lemma SlotOf(ss: seq<Slot>, i: nat)
    requires OneEach(ss) && i < |ss| && ss[i].inUse
    ensures LookUp(ss, ss[i].task) == Some(ss[i].wakeup)
  {
    FindIs(ss, i);
  }

  /** One pass after the deadline moves it on by the delay; an earlier one, or one at the
      very time of the deadline, leaves it alone. */
  lemma PassTicks(m: Table, t: Task, deadline: Time, delay: Time, p: Pass)
    requires Ticking(m, t, deadline) && p.rs(t).Some? && p.rs(t).value.Prime? && p.rs(t).value.delay == delay
    ensures Ticking(Walked(m, 0, p.now, p.rs), t, if deadline < p.now then deadline + delay else deadline)
  {
    hide OneEach, Activated, Deactivated;
    PassSettles(m, t, p);
    WalkedMark(m, 0, p.now, p.rs, t);
    hide Walked;
    SlotOf(Walked(m, 0, p.now, p.rs).slots, FindSlot(m.slots, t));
  }

  // ---------------------------------------------------------------- many passes

  /** The deadline after any sequence of passes is the first one and as many delays as there
      were passes that came late enough, however late: it depends on no time of a pass. */
  lemma {:induction false} NoDrift(m: Table, t: Task, deadline: Time, delay: Time, ps: List<Pass>)
    requires Ticking(m, t, deadline) && Reprimes(ps, t, delay)
    ensures Ticking(AfterPasses(m, ps), t, deadline + Served(ps, deadline, delay, true) * delay)
    decreases ps
  {
    hide Ticking, Walked;
    if ps.Cons? {
      var late := deadline < ps.head.now;
      PassTicks(m, t, deadline, delay, ps.head);
      NoDrift(Walked(m, 0, ps.head.now, ps.head.rs), t, if late then deadline + delay else deadline, delay, ps.tail);
      if late { Later(deadline, delay, Served(ps.tail, deadline + delay, delay, true)); }
    }
  }

  /** From the first time an extended task is primed: its n-th deadline is the time of that
      call and n delays. */
  lemma FirstPrimeNoDrift(m: Table, t: Task, delay: Time, start: Time, ps: List<Pass>)
    requires OneEach(m.slots) && FindSlot(m.slots, t) < |m.slots|
    requires IsExtended(Word(m.q, t)) && Word(m.tmWakeUp, t) == 0
    requires Reprimes(ps, t, delay) && Punctual(ps, start + delay, delay, true)
    ensures LookUp(AfterPasses(Primed(m, t, delay, start), ps).slots, t) == Some(start + (Length(ps) + 1) * delay)
  {
    PrimedDeadline(m, t, LookUp(m.slots, t).value, delay, start);
    hide Primed, LookUp, OneEach;
    NoDrift(Primed(m, t, delay, start), t, start + delay, delay, ps);
    Later(start, delay, Length(ps));
  }

  /** A task that is not extended gets the time at which its routine primes it, and so
      drifts by as much as the pass is late. */
  lemma OrdinaryDrifts(m: Table, t: Task, deadline: Time, p: Pass, delay: Time, later: Time)
    requires OneEach(m.slots) && LookUp(m.slots, t) == Some(deadline) && deadline < p.now
    requires IsActive(Word(m.q, t)) && !IsExtended(Word(m.q, t)) && p.rs(t) == Some(Prime(delay, later))
    ensures LookUp(Walked(m, 0, p.now, p.rs).slots, t) == Some(later + delay)
  {
    hide OneEach;
    PassSettles(m, t, p);
    SlotOf(Walked(m, 0, p.now, p.rs).slots, FindSlot(m.slots, t));
  }
}
