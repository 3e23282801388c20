/** The Basilisk II Time Manager: the same calls over a fixed table of 64
    descriptors. A task is due strictly after its deadline. */
module BasiliskTimer {
  import opened Bytes
  import opened TimerTasks

  const NUM_DESCS: nat := 64

  datatype Slot = Slot(task: Task, wakeup: Time, inUse: bool)

  datatype Table = Table(slots: seq<Slot>, q: Words, tmWakeUp: Words)

  /** No task has two descriptors. */
  predicate OneEach(ss: seq<Slot>) {
    forall i, j :: 0 <= i < j < |ss| && ss[i].inUse && ss[j].inUse ==> ss[i].task != ss[j].task
  }

  /** `find_desc`, from slot i on; |ss| for none. */
  function FindSlotFrom(ss: seq<Slot>, t: Task, i: nat): (k: nat)
    requires i <= |ss|
    ensures i <= k <= |ss| && (k < |ss| ==> ss[k].inUse && ss[k].task == t)
    ensures forall j :: i <= j < k ==> !(ss[j].inUse && ss[j].task == t)
    decreases |ss| - i
  {
    if i == |ss| || (ss[i].inUse && ss[i].task == t) then i else FindSlotFrom(ss, t, i + 1)
  }

  function FindSlot(ss: seq<Slot>, t: Task): nat { FindSlotFrom(ss, t, 0) }

  function FreeFrom(ss: seq<Slot>, i: nat): (k: nat)
    requires i <= |ss|
    ensures i <= k <= |ss| && (k < |ss| ==> !ss[k].inUse)
    ensures forall j :: i <= j < k ==> ss[j].inUse
    decreases |ss| - i
  {
    if i == |ss| || !ss[i].inUse then i else FreeFrom(ss, i + 1)
  }

  // ---------------------------------------------------------------- the calls

  function Inserted(m: Table, t: Task, trap: nat): Table {
    var ss := m.slots;
    var k := FreeFrom(ss, 0);
    Table(if FindSlot(ss, t) < |ss| || k == |ss| then ss else ss[k := Slot(t, ss[k].wakeup, true)],
          m.q[t := Installed(Word(m.q, t), trap)], m.tmWakeUp)
  }

  function Removed(m: Table, t: Task): Table {
    var i := FindSlot(m.slots, t);
    if i == |m.slots| then m
    else m.(slots := m.slots[i := m.slots[i].(inUse := false)],
            q := if IsActive(Word(m.q, t)) then m.q[t := Deactivated(Word(m.q, t))] else m.q)
  }

  function Primed(m: Table, t: Task, delay: Time, now: Time): Table {
    var i, w := FindSlot(m.slots, t), Word(m.q, t);
    if i == |m.slots| then m
    else Table(m.slots[i := Slot(t, Deadline(w, Word(m.tmWakeUp, t), m.slots[i].wakeup, delay, now), true)],
               m.q[t := Activated(w)], if IsExtended(w) then m.tmWakeUp[t := WAKEUP_MARK] else m.tmWakeUp)
  }

  function AfterRoutine(m: Table, t: Task, e: Effect): Table {
    match e
    case Leave => m
    case Prime(delay, now) => Primed(m, t, delay, now)
    case Remove => Removed(m, t)
  }

  lemma KeepsOneEach(m: Table, t: Task, trap: nat, delay: Time, now: Time)
    requires OneEach(m.slots)
    ensures OneEach(Inserted(m, t, trap).slots)
    ensures OneEach(Removed(m, t).slots)
    ensures OneEach(Primed(m, t, delay, now).slots)
  {
    hide Installed, Activated, Deactivated, Deadline;
  }

  // ---------------------------------------------------------------- one pass

  function AsDesc(s: Slot): Desc { Desc(s.task, s.wakeup) }

  /** The descriptors in use, in table order. */
  function Live(ss: seq<Slot>): seq<Desc> {
    if ss == [] then [] else (if ss[0].inUse then [AsDesc(ss[0])] else []) + Live(ss[1..])
  }

  /** What becomes of a slot in a pass at time `now`. */
  function NewSlot(m: Table, s: Slot, now: Time, rs: Routines): Slot {
    if !s.inUse || !Due(AsDesc(s), m.q, now, true) then s
    else match rs(s.task)
      case None => s
      case Some(Leave) => s
      case Some(Prime(delay, later)) =>
        s.(wakeup := Deadline(Word(m.q, s.task), Word(m.tmWakeUp, s.task), s.wakeup, delay, later))
      case Some(Remove) => s.(inUse := false)
  }

  function NewWord(m: Table, s: Slot, now: Time, rs: Routines): nat {
    var w := Word(m.q, s.task);
    if !Due(AsDesc(s), m.q, now, true) then w
    else if rs(s.task).Some? && rs(s.task).value.Prime? then Activated(Deactivated(w))
    else Deactivated(w)
  }

  predicate IsCalled(s: Slot, q: Words, now: Time, rs: Routines) {
    s.inUse && Due(AsDesc(s), q, now, true) && rs(s.task).Some?
  }

  function Fired(m: Table, t: Task): Table { m.(q := m.q[t := Deactivated(Word(m.q, t))]) }

  function Visited(m: Table, s: Slot, now: Time, rs: Routines): (m': Table)
    ensures |m'.slots| == |m.slots|
  {
    if !s.inUse || !Due(AsDesc(s), m.q, now, true) then m
    else match rs(s.task)
      case None => Fired(m, s.task)
      case Some(e) => AfterRoutine(Fired(m, s.task), s.task, e)
  }

  /** The table after the slots from k on have been visited one after the other. */
  function Walked(m: Table, k: nat, now: Time, rs: Routines): Table
    decreases |m.slots| - k
  {
    if k >= |m.slots| then m else Walked(Visited(m, m.slots[k], now, rs), k + 1, now, rs)
  }

  lemma FindIs(ss: seq<Slot>, i: nat)
    requires OneEach(ss) && i < |ss| && ss[i].inUse
    ensures FindSlot(ss, ss[i].task) == i
  {
  }

  lemma VisitedEffect(m: Table, i: nat, now: Time, rs: Routines)
    requires OneEach(m.slots) && i < |m.slots|
    ensures var s := m.slots[i]; var m' := Visited(m, s, now, rs);
      m'.slots == m.slots[i := NewSlot(m, s, now, rs)]
      && (s.inUse ==> Word(m'.q, s.task) == NewWord(m, s, now, rs))
      && (forall u :: !s.inUse || u != s.task ==>
            Word(m'.q, u) == Word(m.q, u) && Word(m'.tmWakeUp, u) == Word(m.tmWakeUp, u))
  {
    hide Activated, Deactivated, Installed;
    if m.slots[i].inUse { FindIs(m.slots, i); }
  }

  ghost predicate SameWords(m0: Table, m: Table, t: Task) {
    Word(m.q, t) == Word(m0.q, t) && Word(m.tmWakeUp, t) == Word(m0.tmWakeUp, t)
  }

  /** The first k slots are dealt with, the others are untouched. */
  ghost predicate Halfway(m0: Table, k: nat, m: Table, now: Time, rs: Routines) {
    k <= |m0.slots| == |m.slots| && OneEach(m0.slots) && OneEach(m.slots) &&
    (forall i :: 0 <= i < k ==> m.slots[i] == NewSlot(m0, m0.slots[i], now, rs)) &&
    (forall i :: 0 <= i < k && m0.slots[i].inUse ==>
       Word(m.q, m0.slots[i].task) == NewWord(m0, m0.slots[i], now, rs)) &&
    (forall i :: k <= i < |m0.slots| ==> m.slots[i] == m0.slots[i]) &&
    (forall i :: k <= i < |m0.slots| && m0.slots[i].inUse ==> SameWords(m0, m, m0.slots[i].task))
  }

  lemma HalfwayStep(m0: Table, k: nat, m: Table, now: Time, rs: Routines)
    requires Halfway(m0, k, m, now, rs) && k < |m0.slots|
    ensures Halfway(m0, k + 1, Visited(m, m.slots[k], now, rs), now, rs)
  {
    var s := m.slots[k];
    VisitedEffect(m, k, now, rs);
    assert NewSlot(m, s, now, rs) == NewSlot(m0, s, now, rs);
    assert s.inUse ==> NewWord(m, s, now, rs) == NewWord(m0, s, now, rs);
    NewSlotKeeps(m0, s, now, rs);
    hide Visited, NewSlot, NewWord;
  }

  lemma NewSlotKeeps(m: Table, s: Slot, now: Time, rs: Routines)
    ensures NewSlot(m, s, now, rs).task == s.task && (NewSlot(m, s, now, rs).inUse ==> s.inUse)
  {
  }

  // ---------------------------------------------------------------- the manager

  class TimeManager {
    var desc: array<Slot>
    var qType: Words
    var tmWakeUp: Words

    ghost predicate Valid()
      reads this, desc
    {
      desc.Length == NUM_DESCS && OneEach(desc[..])
    }

    ghost function View(): Table
      reads this, desc
    {
      Table(desc[..], qType, tmWakeUp)
    }

    /** `TimerInit` and `TimerReset`: all descriptors are free. */
    constructor (q: Words, w: Words)
      ensures Valid() && fresh(desc) && Live(desc[..]) == [] && qType == q && tmWakeUp == w
    {
      desc := new Slot[NUM_DESCS](_ => Slot(0, 0, false));
      qType, tmWakeUp := q, w;
      new;
      NothingLive(desc[..]);
    }

    /** `find_desc`; NUM_DESCS for none. */
    method FindDesc(t: Task) returns (i: nat)
      ensures i == FindSlot(desc[..], t)
    {
      i := 0;
      while i < desc.Length && !(desc[i].inUse && desc[i].task == t)
        invariant i <= desc.Length && FindSlot(desc[..], t) == FindSlotFrom(desc[..], t, i)
      {
        i := i + 1;
      }
    }

    /** `alloc_desc`: takes the first free descriptor; NUM_DESCS if there is none. */
    method AllocDesc(t: Task) returns (i: nat)
      modifies desc
      ensures i == FreeFrom(old(desc[..]), 0)
      ensures var ss := old(desc[..]);
        desc[..] == if i == desc.Length then ss else ss[i := Slot(t, ss[i].wakeup, true)]
    {
      i := 0;
      while i < desc.Length && desc[i].inUse
        invariant i <= desc.Length && FreeFrom(desc[..], 0) == FreeFrom(desc[..], i) && desc[..] == old(desc[..])
      {
        i := i + 1;
      }
      if i < desc.Length {
        desc[i] := Slot(t, desc[i].wakeup, true);
      }
    }

    method InsTime(t: Task, trap: nat)
      requires Valid()
      modifies this`qType, desc
      ensures Valid() && View() == Inserted(old(View()), t, trap)
    {
      KeepsOneEach(View(), t, trap, 0, 0);
      qType := qType[t := Installed(Word(qType, t), trap)];
      var i := FindDesc(t);
      if i == desc.Length {
        i := AllocDesc(t);
      }
    }

    method RmvTime(t: Task)
      requires Valid()
      modifies this`qType, desc
      ensures Valid() && View() == Removed(old(View()), t)
    {
      KeepsOneEach(View(), t, 0, 0, 0);
      var i := FindDesc(t);
      if i == desc.Length {
        return;
      }
      if IsActive(Word(qType, t)) {
        qType := qType[t := Deactivated(Word(qType, t))];
      }
      desc[i] := desc[i].(inUse := false);
    }

    method PrimeTime(t: Task, delay: Time, now: Time)
      requires Valid()
      modifies this`qType, this`tmWakeUp, desc
      ensures Valid() && View() == Primed(old(View()), t, delay, now)
    {
      KeepsOneEach(View(), t, 0, delay, now);
      hide Activated, Installed, Deactivated;
      var i := FindDesc(t);
      if i == desc.Length {
        return;
      }
      if IsExtended(Word(qType, t)) {
        if Word(tmWakeUp, t) != 0 {
          desc[i] := desc[i].(wakeup := desc[i].wakeup + delay);
        } else {
          desc[i] := desc[i].(wakeup := now + delay);
        }
        tmWakeUp := tmWakeUp[t := WAKEUP_MARK];
      } else {
        desc[i] := desc[i].(wakeup := now + delay);
      }
      qType := qType[t := Activated(Word(qType, t))];
    }

    /** The routine of a task, which has been marked inactive. */
    method RunTask(t: Task, e: Effect)
      requires Valid() && !IsActive(Word(qType, t))
      modifies this`qType, this`tmWakeUp, desc
      ensures Valid() && View() == AfterRoutine(old(View()), t, e)
    {
      match e {
        case Leave =>
        case Prime(delay, now) => PrimeTime(t, delay, now);
        case Remove => RmvTime(t);
      }
    }

    /** The body of the loop over the table: a due task is marked inactive, then called. */
    method VisitSlot(i: nat, now: Time, rs: Routines) returns (called: bool)
      requires Valid() && i < NUM_DESCS
      modifies this`qType, this`tmWakeUp, desc
      ensures Valid() && View() == Visited(old(View()), old(desc[i]), now, rs)
      ensures called <==> IsCalled(old(desc[i]), old(qType), now, rs)
    {
      hide AfterRoutine, Activated, Deactivated, OneEach;
      called := false;
      if desc[i].inUse {
        var t := desc[i].task;
        if IsActive(Word(qType, t)) && desc[i].wakeup < now {
          qType := qType[t := Deactivated(Word(qType, t))];
          if rs(t).Some? {
            called := true;
            RunTask(t, rs(t).value);
          }
        }
      }
    }

    method TimerInterrupt(now: Time, rs: Routines) returns (calls: seq<Task>)
      requires Valid()
      modifies this`qType, this`tmWakeUp, desc
      ensures Valid() && calls == Calls(Live(old(desc[..])), old(qType), now, true, rs)
      ensures Halfway(old(View()), NUM_DESCS, View(), now, rs)
      ensures View() == Walked(old(View()), 0, now, rs)
    {
      hide Visited, Halfway, OneEach, Live, IsCalled, Calls;
      ghost var m0 := View();
      calls := [];
      PassStarts(m0, now, rs);
      var i := 0;
      while i < NUM_DESCS
        invariant i <= NUM_DESCS && Valid() && Halfway(m0, i, View(), now, rs)
        invariant calls + Calls(Live(m0.slots[i..]), m0.q, now, true, rs)
          == Calls(Live(m0.slots), m0.q, now, true, rs)
        invariant Walked(View(), i, now, rs) == Walked(m0, 0, now, rs)
      {
        HalfwayStep(m0, i, View(), now, rs);
        CallsNext(m0, i, View(), now, rs, calls);
        var t := desc[i].task;
        var called := VisitSlot(i, now, rs);
        if called {
          calls := calls + [t];
        }
        i := i + 1;
      }
      NothingLeft(m0, now, rs);
    }
  }

  lemma {:induction false} NothingLive(ss: seq<Slot>)
    requires forall i :: 0 <= i < |ss| ==> !ss[i].inUse
    ensures Live(ss) == []
  {
    if ss != [] { NothingLive(ss[1..]); }
  }

  lemma {:induction false} LiveSlots(ss: seq<Slot>, d: Desc)
    ensures d in Live(ss) <==> exists i :: 0 <= i < |ss| && ss[i].inUse && AsDesc(ss[i]) == d
  {
    if ss != [] {
      var tail := ss[1..];
      LiveSlots(tail, d);
      assert forall i :: 0 < i < |ss| ==> tail[i - 1] == ss[i];
      if d in Live(tail) {
        var i :| 0 <= i < |tail| && tail[i].inUse && AsDesc(tail[i]) == d;
        assert ss[i + 1].inUse && AsDesc(ss[i + 1]) == d;
      }
    }
  }

  /** The table makes one list of tasks, none of them twice. */
  lemma {:induction false} LiveDistinct(ss: seq<Slot>)
    requires OneEach(ss)
    ensures Distinct(Live(ss))
  {
    if ss != [] {
      var tail := ss[1..];
      LiveDistinct(tail);
      forall j | 0 <= j < |Live(tail)|
        ensures ss[0].inUse ==> Live(tail)[j].task != ss[0].task
      {
        LiveSlots(tail, Live(tail)[j]);
      }
    }
  }

  lemma PassStarts(m0: Table, now: Time, rs: Routines)
    requires OneEach(m0.slots)
    ensures Halfway(m0, 0, m0, now, rs) && m0.slots[0..] == m0.slots
  {
  }

  lemma NothingLeft(m0: Table, now: Time, rs: Routines)
    ensures Calls(Live(m0.slots[|m0.slots|..]), m0.q, now, true, rs) == []
  {
  }

  lemma CallsNext(m0: Table, k: nat, m: Table, now: Time, rs: Routines, calls: seq<Task>)
    requires Halfway(m0, k, m, now, rs) && k < |m0.slots|
    ensures m.slots[k] == m0.slots[k]
    ensures var s := m.slots[k];
      calls + Calls(Live(m0.slots[k..]), m0.q, now, true, rs)
      == (if IsCalled(s, m.q, now, rs) then calls + [s.task] else calls)
        + Calls(Live(m0.slots[k + 1..]), m0.q, now, true, rs)
  {
    var s, rest := m0.slots[k], Live(m0.slots[k + 1..]);
    assert m0.slots[k..][1..] == m0.slots[k + 1..];
    if s.inUse {
      assert Live(m0.slots[k..]) == [AsDesc(s)] + rest;
      assert ([AsDesc(s)] + rest)[1..] == rest;
    } else {
      assert Live(m0.slots[k..]) == rest;
    }
    var later := Calls(rest, m0.q, now, true, rs);
    assert calls + ([s.task] + later) == calls + [s.task] + later;
    assert calls + ([] + later) == calls + later;
  }
}
