/** The SheepShaver Time Manager: the calls of the emulator thread on the descriptor
    list, each one a transition of the manager in TimerThreads. */
module SheepTimer {
  import opened Bytes
  import opened TimerTasks
  import opened TimerThreads

  class TimeManager {
    var descs: seq<Desc>      // tmDescList, its head first
    var qType: Words          // the qType words in Mac memory
    var tmWakeUp: Words       // the tmWakeUp words in Mac memory
    var wakeupTime: Time

    constructor (q: Words, w: Words)
      ensures View() == Init(q, w, 0).m
    {
      descs, qType, tmWakeUp, wakeupTime := [], q, w, WAKEUP_MAX;
    }

    function View(): Manager
      reads this
    {
      Manager(descs, qType, tmWakeUp, wakeupTime)
    }

    /** `find_desc` */
    method FindDesc(t: Task) returns (i: nat)
      ensures i == Find(descs, t)
    {
      i := 0;
      while i < |descs| && descs[i].task != t
        invariant i <= |descs| && Find(descs, t) == FindFrom(descs, t, i)
      {
        i := i + 1;
      }
    }

    /** `free_desc`: unlinks the descriptor from the list. Its task has none afterwards, and
        every other task keeps its deadline. */
    method FreeDesc(i: nat)
      requires i < |descs|
      modifies this`descs
      ensures descs == old(descs)[..i] + old(descs)[i + 1..]
      ensures Distinct(old(descs)) ==> Distinct(descs) && !Has(descs, old(descs[i].task))
      ensures Distinct(old(descs)) ==>
        forall t :: t != old(descs[i].task) ==> LookUp(descs, t) == LookUp(old(descs), t)
    {
      if Distinct(descs) {
        forall t
          ensures LookUp(descs[..i] + descs[i + 1..], t) == if t == descs[i].task then None else LookUp(descs, t)
        {
          LookUpRemove(descs, i, t);
        }
        LookUpRemove(descs, i, descs[i].task);
      }
      descs := descs[..i] + descs[i + 1..];
    }

    /** The loop that looks for the next task to be called. */
    method LookForNext()
      modifies this`wakeupTime
      ensures View() == Recomputed(old(View()))
    {
      wakeupTime := WAKEUP_MAX;
      var i := 0;
      assert descs[..0] == [];
      while i < |descs|
        invariant i <= |descs| && wakeupTime == Earliest(descs[..i], qType)
      {
        assert descs[..i + 1][..i] == descs[..i];
        if IsActive(Word(qType, descs[i].task)) {
          if descs[i].wakeup < wakeupTime {
            wakeupTime := descs[i].wakeup;
          }
        }
        i := i + 1;
      }
      assert descs[..i] == descs;
    }

    method InsTime(t: Task, trap: nat)
      modifies this
      ensures View() == Inserted(old(View()), t, trap)
    {
      qType := qType[t := Installed(Word(qType, t), trap)];
      var i := FindDesc(t);
      if i == |descs| {
        descs := [Desc(t, 0)] + descs;
      }
    }

    method RmvTime(t: Task)
      modifies this
      ensures View() == if Has(old(descs), t) then Freed(Stopped(old(View()), t), t) else old(View())
    {
      var i := FindDesc(t);
      if i == |descs| {
        return;
      }
      if IsActive(Word(qType, t)) {
        qType := qType[t := Deactivated(Word(qType, t))];
        LookForNext();
      }
      FreeDesc(i);
    }

    method PrimeTime(t: Task, delay: Time, now: Time)
      modifies this
      ensures View() == if Has(old(descs), t) then Primed(Scheduled(old(View()), t, delay, now), t) else old(View())
    {
      var i := FindDesc(t);
      if i == |descs| {
        return;
      }
      ghost var m := Scheduled(View(), t, delay, now);
      if IsExtended(Word(qType, t)) {
        if Word(tmWakeUp, t) != 0 {
          descs := descs[i := Desc(t, descs[i].wakeup + delay)];
        } else {
          descs := descs[i := Desc(t, now + delay)];
        }
        tmWakeUp := tmWakeUp[t := WAKEUP_MARK];
      } else {
        descs := descs[i := Desc(t, now + delay)];
      }
      assert View() == m;
      qType := qType[t := Activated(Word(qType, t))];
      LookForNext();
    }

    /** The routine of a task, which has been marked inactive. */
    method RunTask(t: Task, e: Effect)
      requires !IsActive(Word(qType, t))
      modifies this
      ensures View() == AfterRoutine(old(View()), t, e)
    {
      match e {
        case Leave =>
        case Prime(delay, now) => PrimeTime(t, delay, now);
        case Remove => RmvTime(t);
      }
    }

    /** The body of the loop over the list: a due task is marked inactive, then called. */
    method VisitTask(d: Desc, now: Time, rs: Routines) returns (called: bool)
      modifies this
      ensures View() == Visited(old(View()), d, now, rs)
      ensures called <==> Due(d, old(qType), now, false) && rs(d.task).Some?
    {
      hide AfterRoutine, Activated, Deactivated;
      var t := d.task;
      called := false;
      if IsActive(Word(qType, t)) && d.wakeup <= now {
        qType := qType[t := Deactivated(Word(qType, t))];
        assert View() == Fired(old(View()), t);
        if rs(t).Some? {
          called := true;
          RunTask(t, rs(t).value);
        }
      }
    }

    /** One pass over the list, then the search for the next wakeup. `left` counts the
        descriptors from the current one to the end, as the saved next pointer does. */
    method TimerInterrupt(now: Time, rs: Routines) returns (calls: seq<Task>)
      requires Distinct(descs)
      modifies this
      ensures calls == Calls(old(descs), old(qType), now, false, rs)
      ensures Passed(old(View()), View(), now, rs) && wakeupTime == Earliest(descs, qType)
      ensures View() == Recomputed(Walked(old(View()), old(descs), now, rs))
    {
      hide Earliest, Visited, Halfway, Distinct, Due;
      ghost var m0 := View();
      var left := |descs|;
      calls := [];
      PassStarts(m0, now, rs);
      while left > 0
        invariant 0 <= left <= |m0.descs| && Halfway(m0, |m0.descs| - left, View(), now, rs)
        invariant calls + Calls(m0.descs[|m0.descs| - left..], m0.q, now, false, rs)
          == Calls(m0.descs, m0.q, now, false, rs)
        invariant Walked(View(), m0.descs[|m0.descs| - left..], now, rs) == Walked(m0, m0.descs, now, rs)
      {
        hide Calls, Walked;
        WalkOn(View(), m0.descs, |m0.descs| - left, now, rs);
        ghost var k, m := |m0.descs| - left, View();
        HalfwayStep(m0, k, m, now, rs);
        CallsNext(m0, k, m, now, rs, calls);
        var d := descs[|descs| - left];
        var called := VisitTask(d, now, rs);
        if called {
          calls := calls + [d.task];
        }
        left := left - 1;
      }
      PassEnds(m0, View(), now, rs);
      LookForNext();
    }
  }

  /** The manager after the descriptors ds have been visited one after the other. */
  function Walked(m: Manager, ds: seq<Desc>, now: Time, rs: Routines): Manager
    decreases |ds|
  {
    if ds == [] then m else Walked(Visited(m, ds[0], now, rs), ds[1..], now, rs)
  }

  lemma WalkOn(m: Manager, ds: seq<Desc>, k: nat, now: Time, rs: Routines)
    requires k < |ds|
    ensures Walked(m, ds[k..], now, rs) == Walked(Visited(m, ds[k], now, rs), ds[k + 1..], now, rs)
  {
    assert ds[k..][0] == ds[k] && ds[k..][1..] == ds[k + 1..];
  }

  lemma PassStarts(m0: Manager, now: Time, rs: Routines)
    requires Distinct(m0.descs)
    ensures Halfway(m0, 0, m0, now, rs) && m0.descs[0..] == m0.descs
  {
  }

  lemma PassEnds(m0: Manager, m: Manager, now: Time, rs: Routines)
    requires Halfway(m0, |m0.descs|, m, now, rs)
    ensures Passed(m0, m, now, rs) && Passed(m0, Recomputed(m), now, rs)
  {
    hide Earliest, LookUp, NewDeadline, NewWord;
  }

  /** The outcome of a whole pass: every descriptor dealt with, no others added. */
  ghost predicate Passed(m0: Manager, m: Manager, now: Time, rs: Routines) {
    Distinct(m.descs) && (forall t :: Has(m.descs, t) ==> Has(m0.descs, t)) &&
    forall i :: 0 <= i < |m0.descs| ==> Settled1(m0, m0.descs[i], m, now, rs)
  }

  lemma CallsNext(m0: Manager, k: nat, m: Manager, now: Time, rs: Routines, calls: seq<Task>)
    requires Halfway(m0, k, m, now, rs) && k < |m0.descs|
    ensures |m0.descs| - k <= |m.descs| && m.descs[|m.descs| - (|m0.descs| - k)] == m0.descs[k]
    ensures var d := m0.descs[k];
      calls + Calls(m0.descs[k..], m0.q, now, false, rs)
      == (if Due(d, m.q, now, false) && rs(d.task).Some? then calls + [d.task] else calls)
        + Calls(m0.descs[k + 1..], m0.q, now, false, rs)
  {
    var p := |m.descs| - (|m0.descs| - k);
    assert m.descs[p] == m.descs[p..][0] == m0.descs[k..][0] == m0.descs[k];
    assert m0.descs[k..][1..] == m0.descs[k + 1..];
  }

  function AfterRoutine(m: Manager, t: Task, e: Effect): Manager {
    match e
    case Leave => m
    case Prime(delay, now) => if Has(m.descs, t) then Primed(Scheduled(m, t, delay, now), t) else m
    case Remove => if Has(m.descs, t) then Freed(Stopped(m, t), t) else m
  }

  // ---------------------------------------------------------------- one pass of TimerInterrupt

  /** The deadline of a task, if it has a descriptor. */
  function LookUp(ds: seq<Desc>, t: Task): Option<Time> {
    if Has(ds, t) then Some(ds[Find(ds, t)].wakeup) else None
  }

  /** What a pass at time `now` makes of the task of descriptor d: its deadline and its qType. */
  function NewDeadline(m: Manager, d: Desc, now: Time, rs: Routines): Option<Time> {
    if !Due(d, m.q, now, false) then Some(d.wakeup)
    else match rs(d.task)
      case None => Some(d.wakeup)
      case Some(Leave) => Some(d.wakeup)
      case Some(Prime(delay, later)) =>
        Some(Deadline(Word(m.q, d.task), Word(m.tmWakeUp, d.task), d.wakeup, delay, later))
      case Some(Remove) => None
  }

  function NewWord(m: Manager, d: Desc, now: Time, rs: Routines): nat {
    var w := Word(m.q, d.task);
    if !Due(d, m.q, now, false) then w
    else if rs(d.task).Some? && rs(d.task).value.Prime? then Activated(Deactivated(w))
    else Deactivated(w)
  }

  /** The pass has dealt with descriptor d of the list it started from. */
  ghost predicate Settled1(m0: Manager, d: Desc, m: Manager, now: Time, rs: Routines) {
    LookUp(m.descs, d.task) == NewDeadline(m0, d, now, rs) && Word(m.q, d.task) == NewWord(m0, d, now, rs)
  }

  lemma FindIs(ds: seq<Desc>, i: nat)
    requires Distinct(ds) && i < |ds|
    ensures Find(ds, ds[i].task) == i
  {
  }

  lemma LookUpUpdate(ds: seq<Desc>, p: nat, w: Time, u: Task)
    requires Distinct(ds) && p < |ds|
    ensures Distinct(ds[p := Desc(ds[p].task, w)])
    ensures LookUp(ds[p := Desc(ds[p].task, w)], u) == if u == ds[p].task then Some(w) else LookUp(ds, u)
  {
    var ds' := ds[p := Desc(ds[p].task, w)];
    var i := Find(ds, u);
    if i < |ds| {
      FindIs(ds', i);
    }
  }

  lemma LookUpRemove(ds: seq<Desc>, p: nat, u: Task)
    requires Distinct(ds) && p < |ds|
    ensures Distinct(ds[..p] + ds[p + 1..])
    ensures LookUp(ds[..p] + ds[p + 1..], u) == if u == ds[p].task then None else LookUp(ds, u)
  {
    var ds' := ds[..p] + ds[p + 1..];
    assert forall j :: 0 <= j < |ds'| ==> ds'[j] == ds[if j < p then j else j + 1];
    var i := Find(ds, u);
    if i < |ds| && i != p {
      var i' := if i < p then i else i - 1;
      assert ds'[i'] == ds[i];
      FindIs(ds', i');
    }
  }

  ghost predicate SameWords(m0: Manager, m: Manager, t: Task) {
    Word(m.q, t) == Word(m0.q, t) && Word(m.tmWakeUp, t) == Word(m0.tmWakeUp, t)
  }

  /** The state in the middle of a pass over m0: the first k descriptors are dealt
      with, and the list ends with the ones to come, which are untouched. */
  ghost predicate Halfway(m0: Manager, k: nat, m: Manager, now: Time, rs: Routines) {
    k <= |m0.descs| && |m0.descs| - k <= |m.descs| && Distinct(m0.descs) && Distinct(m.descs) &&
    m.descs[|m.descs| - (|m0.descs| - k)..] == m0.descs[k..] &&
    (forall i :: 0 <= i < k ==> Settled1(m0, m0.descs[i], m, now, rs)) &&
    (forall i :: k <= i < |m0.descs| ==> SameWords(m0, m, m0.descs[i].task)) &&
    (forall t :: Has(m.descs, t) ==> Has(m0.descs, t))
  }

  /** One descriptor of the pass. */
  function Visited(m: Manager, d: Desc, now: Time, rs: Routines): Manager {
    if !Due(d, m.q, now, false) then m
    else match rs(d.task)
      case None => Fired(m, d.task)
      case Some(e) => AfterRoutine(Fired(m, d.task), d.task, e)
  }

  /** What visiting the descriptor at position p does to the list and the words. */
  lemma VisitedEffect(m: Manager, p: nat, now: Time, rs: Routines)
    requires Distinct(m.descs) && p < |m.descs|
    ensures var d := m.descs[p]; var m' := Visited(m, d, now, rs);
      m'.descs == (match NewDeadline(m, d, now, rs)
                   case None => m.descs[..p] + m.descs[p + 1..]
                   case Some(w) => m.descs[p := Desc(d.task, w)])
      && Word(m'.q, d.task) == NewWord(m, d, now, rs)
      && (forall u :: u != d.task ==> Word(m'.q, u) == Word(m.q, u) && Word(m'.tmWakeUp, u) == Word(m.tmWakeUp, u))
  {
    hide Earliest, Installed, Activated, Deactivated;
    FindIs(m.descs, p);
  }

  /** The list after a visit, by tasks and by its end. */
  lemma VisitedList(m: Manager, p: nat, now: Time, rs: Routines)
    requires Distinct(m.descs) && p < |m.descs|
    ensures var d, ds := m.descs[p], Visited(m, m.descs[p], now, rs).descs;
      Distinct(ds) && (forall t :: Has(ds, t) ==> Has(m.descs, t)) &&
      (forall u :: LookUp(ds, u) == if u == d.task then NewDeadline(m, d, now, rs) else LookUp(m.descs, u)) &&
      |m.descs| - p - 1 <= |ds| && ds[|ds| - (|m.descs| - p - 1)..] == m.descs[p + 1..]
  {
    var d, m' := m.descs[p], Visited(m, m.descs[p], now, rs);
    VisitedEffect(m, p, now, rs);
    hide Visited;
    if NewDeadline(m, d, now, rs).None? {
      hide NewDeadline, LookUp;
      forall u
        ensures LookUp(m'.descs, u) == if u == d.task then None else LookUp(m.descs, u)
      {
        LookUpRemove(m.descs, p, u);
      }
      HasStep(m, m', d, p);
    } else {
      var w := NewDeadline(m, d, now, rs).value;
      hide NewDeadline, LookUp;
      forall u
        ensures LookUp(m'.descs, u) == if u == d.task then Some(w) else LookUp(m.descs, u)
      {
        LookUpUpdate(m.descs, p, w, u);
      }
      HasStep(m, m', d, p);
    }
  }

  lemma SameView(m0: Manager, m: Manager, d: Desc, now: Time, rs: Routines)
    requires SameWords(m0, m, d.task)
    ensures NewDeadline(m, d, now, rs) == NewDeadline(m0, d, now, rs)
    ensures NewWord(m, d, now, rs) == NewWord(m0, d, now, rs)
  {
    hide Activated, Deactivated;
  }

  lemma NextInList(m0: Manager, k: nat, m: Manager, now: Time, rs: Routines)
    requires Halfway(m0, k, m, now, rs) && k < |m0.descs|
    ensures var p := |m.descs| - (|m0.descs| - k);
      0 <= p < |m.descs| && m.descs[p] == m0.descs[k] && m.descs[p + 1..] == m0.descs[k + 1..]
  {
    var p := |m.descs| - (|m0.descs| - k);
    assert m.descs[p] == m.descs[p..][0] == m0.descs[k..][0] == m0.descs[k];
    assert m.descs[p..][1..] == m.descs[p + 1..] && m0.descs[k..][1..] == m0.descs[k + 1..];
  }

  /** Whatever routine the visited task has, the pass stays on course. */
  lemma HalfwayStep(m0: Manager, k: nat, m: Manager, now: Time, rs: Routines)
    requires Halfway(m0, k, m, now, rs) && k < |m0.descs|
    ensures Halfway(m0, k + 1, Visited(m, m0.descs[k], now, rs), now, rs)
  {
    hide Visited, NewDeadline, NewWord, LookUp, Has, Word;
    var p := |m.descs| - (|m0.descs| - k);
    NextInList(m0, k, m, now, rs);
    VisitedEffect(m, p, now, rs);
    VisitedList(m, p, now, rs);
    SameView(m0, m, m0.descs[k], now, rs);
  }

  lemma HasStep(m: Manager, m': Manager, d: Desc, p: nat)
    requires Distinct(m.descs) && p < |m.descs| && d == m.descs[p]
    requires m'.descs == m.descs[..p] + m.descs[p + 1..] || exists w :: m'.descs == m.descs[p := Desc(d.task, w)]
    ensures Distinct(m'.descs) && forall t :: Has(m'.descs, t) ==> Has(m.descs, t)
  {
    assert forall j :: 0 <= j < |m'.descs| ==>
      m'.descs[j].task == m.descs[j].task || (j + 1 < |m.descs| && m'.descs[j] == m.descs[j + 1]);
    LookUpRemove(m.descs, p, d.task);
    if m'.descs != m.descs[..p] + m.descs[p + 1..] {
      var w :| m'.descs == m.descs[p := Desc(d.task, w)];
      LookUpUpdate(m.descs, p, w, d.task);
    }
  }
}
