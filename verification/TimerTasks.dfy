/** What the two Time Managers share: task addresses, the qType word of a task in
    Mac memory, deadlines, and the recomputation of the next wakeup. */
module TimerTasks {
  import opened Bytes

  type Task = word32

  type Time = int

  /** The latest time there is; nothing is waited for. */
  const WAKEUP_MAX: Time := 0x7fff_ffff_ffff_ffff

  // ---------------------------------------------------------------- the qType word

  /** Words in Mac memory by task; memory never written reads as 0. */
  type Words = map<Task, nat>

  function Word(q: Words, t: Task): nat { if t in q then q[t] else 0 }

  const ACTIVE: nat := 0x8000

  predicate IsActive(w: nat) { w / 0x8000 % 2 == 1 }

  predicate IsExtended(w: nat) { w / 0x4000 % 2 == 1 }

  function Activated(w: nat): (r: nat)
    ensures IsActive(r) && (IsExtended(r) <==> IsExtended(w))
  {
    AddActive(w);
    if IsActive(w) then w else w + ACTIVE
  }

  lemma AddActive(w: nat)
    ensures (w + ACTIVE) / 0x8000 == w / 0x8000 + 1 && (w + ACTIVE) / 0x4000 == w / 0x4000 + 2
  {
  }

  /** w & 0x7fff */
  function Deactivated(w: nat): (r: nat)
    ensures !IsActive(r) && (IsExtended(r) <==> IsExtended(w))
  {
    w % 0x8000
  }

  /** (w & 0x1fff) | ((trap << 4) & 0x6000): the type bits of the trap word; never active. */
  function Installed(w: nat, trap: nat): (r: nat)
    ensures !IsActive(r)
  {
    w % 0x2000 + trap * 16 / 0x2000 % 4 * 0x2000
  }

  // ---------------------------------------------------------------- descriptors

  datatype Desc = Desc(task: Task, wakeup: Time)

  predicate Distinct(ds: seq<Desc>) {
    forall i, j :: 0 <= i < j < |ds| ==> ds[i].task != ds[j].task
  }

  predicate Running(d: Desc, q: Words) { IsActive(Word(q, d.task)) }

  /** No active task is due before t. */
  ghost predicate NoneBefore(ds: seq<Desc>, q: Words, t: Time) {
    forall i :: 0 <= i < |ds| && Running(ds[i], q) ==> t <= ds[i].wakeup
  }

  /** The next wakeup: the earliest deadline of an active task. */
  function Earliest(ds: seq<Desc>, q: Words): Time {
    if ds == [] then WAKEUP_MAX
    else
      var n, t := |ds| - 1, Earliest(ds[..|ds| - 1], q);
      if Running(ds[n], q) && ds[n].wakeup < t then ds[n].wakeup else t
  }

  lemma {:induction false} EarliestIsBound(ds: seq<Desc>, q: Words)
    ensures NoneBefore(ds, q, Earliest(ds, q)) && Earliest(ds, q) <= WAKEUP_MAX
    ensures Earliest(ds, q) == WAKEUP_MAX
      || exists i :: 0 <= i < |ds| && Running(ds[i], q) && ds[i].wakeup == Earliest(ds, q)
    decreases |ds|
  {
    if ds != [] {
      var n := |ds| - 1;
      EarliestIsBound(ds[..n], q);
      forall i | 0 <= i < |ds| && Running(ds[i], q)
        ensures Earliest(ds, q) <= ds[i].wakeup
      {
        if i < n { assert ds[..n][i] == ds[i]; }
      }
      if Earliest(ds, q) != WAKEUP_MAX && Earliest(ds, q) == Earliest(ds[..n], q) {
        var i :| 0 <= i < n && Running(ds[..n][i], q) && ds[..n][i].wakeup == Earliest(ds, q);
        assert Running(ds[i], q) && ds[i].wakeup == Earliest(ds, q);
      }
    }
  }

  /** A task with the deadline of a descriptor: an extended task that has run before
      counts from its last deadline, any other from the current time. */
  function Deadline(w: nat, tmWakeUp: nat, last: Time, delay: Time, now: Time): Time {
    if IsExtended(w) && tmWakeUp != 0 then last + delay else now + delay
  }

  const WAKEUP_MARK: nat := 0x12345678

  /** The descriptor of a task from position i on; |ds| if there is none. */
  function FindFrom(ds: seq<Desc>, t: Task, i: nat): (k: nat)
    requires i <= |ds|
    ensures i <= k <= |ds| && (k < |ds| ==> ds[k].task == t)
    ensures forall j :: i <= j < k ==> ds[j].task != t
    decreases |ds| - i
  {
    if i == |ds| || ds[i].task == t then i else FindFrom(ds, t, i + 1)
  }

  function Find(ds: seq<Desc>, t: Task): nat { FindFrom(ds, t, 0) }

  predicate Has(ds: seq<Desc>, t: Task) { Find(ds, t) < |ds| }

  // ---------------------------------------------------------------- task routines

  /** What a task routine does to its own task: nothing, prime it again at time
      `now`, or remove it. */
  datatype Effect = Leave | Prime(delay: Time, now: Time) | Remove

  /** The routine of every task; None where tmAddr is 0. */
  type Routines = Task -> Option<Effect>

  predicate Due(d: Desc, q: Words, now: Time, strict: bool) {
    Running(d, q) && (d.wakeup < now || (!strict && d.wakeup == now))
  }

  /** The tasks one pass calls, in list order. */
  function Calls(ds: seq<Desc>, q: Words, now: Time, strict: bool, rs: Routines): seq<Task> {
    if ds == [] then []
    else
      (if Due(ds[0], q, now, strict) && rs(ds[0].task).Some? then [ds[0].task] else [])
      + Calls(ds[1..], q, now, strict, rs)
  }

  lemma {:induction false} CallsDue(ds: seq<Desc>, q: Words, now: Time, strict: bool, rs: Routines, t: Task)
    requires Distinct(ds)
    ensures multiset(Calls(ds, q, now, strict, rs))[t] ==
      if exists i :: 0 <= i < |ds| && ds[i].task == t && Due(ds[i], q, now, strict) && rs(t).Some? then 1 else 0
    decreases |ds|
  {
    if ds != [] {
      var tail := ds[1..];
      CallsDue(tail, q, now, strict, rs, t);
      assert forall i :: 0 < i < |ds| ==> tail[i - 1] == ds[i];
      if ds[0].task == t {
        assert forall i :: 0 <= i < |tail| ==> tail[i].task != t;
      } else if exists i :: 0 <= i < |ds| && ds[i].task == t && Due(ds[i], q, now, strict) && rs(t).Some? {
        var i :| 0 <= i < |ds| && ds[i].task == t && Due(ds[i], q, now, strict) && rs(t).Some?;
        assert tail[i - 1].task == t && Due(tail[i - 1], q, now, strict);
      }
    }
  }

  /** Every active task with a routine is called exactly once if its deadline has passed, or
      is just being reached and the pass is not strict; nothing else is called. */
  lemma CallsExactlyDue(ds: seq<Desc>, q: Words, now: Time, strict: bool, rs: Routines, t: Task)
    requires Distinct(ds)
    ensures multiset(Calls(ds, q, now, strict, rs))[t] ==
      if exists i :: 0 <= i < |ds| && ds[i].task == t && IsActive(Word(q, t)) && rs(t).Some? &&
                     (if strict then ds[i].wakeup < now else ds[i].wakeup <= now) then 1 else 0
  {
    hide Calls, Distinct;
    CallsDue(ds, q, now, strict, rs, t);
  }

  // ---------------------------------------------------------------- several passes

  /** A pass over the tasks, at a time and with the routines as they then are. */
  datatype Pass = Pass(now: Time, rs: Routines)

  /** Whenever the routine of t is called it primes its task with the same delay, however
      late it comes to that. */
  predicate Reprimes(ps: List<Pass>, t: Task, delay: Time) {
    ps.Cons? ==>
      (var e := ps.head.rs(t); e.Some? && e.value.Prime? && e.value.delay == delay) && Reprimes(ps.tail, t, delay)
  }

  /** The number of passes that come late enough for a deadline that then moves on by the
      delay; `strict` if a pass at the very time of the deadline is too early. */
  function Served(ps: List<Pass>, deadline: Time, delay: Time, strict: bool): (n: nat)
    ensures n <= Length(ps)
    ensures Punctual(ps, deadline, delay, strict) ==> n == Length(ps)
  {
    if ps.Nil? then 0
    else if (if strict then deadline < ps.head.now else deadline <= ps.head.now) then
      1 + Served(ps.tail, deadline + delay, delay, strict)
    else Served(ps.tail, deadline, delay, strict)
  }

  /** Every pass comes late enough. */
  predicate Punctual(ps: List<Pass>, deadline: Time, delay: Time, strict: bool) {
    ps.Cons? ==>
      (if strict then deadline < ps.head.now else deadline <= ps.head.now) &&
      Punctual(ps.tail, deadline + delay, delay, strict)
  }

  function Length<T>(ts: List<T>): nat { if ts.Nil? then 0 else 1 + Length(ts.tail) }

  lemma Later(deadline: Time, delay: Time, n: nat)
    ensures deadline + delay + n * delay == deadline + (n + 1) * delay
  {
  }

  // ---------------------------------------------------------------- the type bits

  /** The bit of the trap word that makes a task extended is 0x400; the low 13 bits stay. */
  lemma InstalledBits(w: nat, trap: nat)
    ensures IsExtended(Installed(w, trap)) <==> trap / 0x400 % 2 == 1
    ensures Installed(w, trap) % 0x2000 == w % 0x2000 && Installed(w, trap) < 0x8000
  {
    var k := trap * 16 / 0x2000 % 4;
    assert trap * 16 / 0x2000 == trap / 0x200;
    assert Installed(w, trap) == w % 0x2000 + k * 0x2000;
    assert Installed(w, trap) / 0x4000 == k / 2;
    assert trap / 0x200 / 2 == trap / 0x400;
  }
}
