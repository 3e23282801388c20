/** The SCSI Manager's calls over its global state. */
module ScsiManager {
  import opened Bytes
  import opened ScsiTable
  import opened Scsi

  datatype Phase = Free | Arbitrated | Selected | DataTransfer

  /** The 5830 status word of a phase. */
  function StatusOf(p: Phase): nat {
    match p
    case Free => 0
    case Arbitrated => 0x40
    case Selected => 0x6a
    case DataTransfer => 0x6e
  }

  class Manager {
    var mem: seq<byte>                // Mac memory
    const base: int                   // where Mac memory starts in host memory
    var phase: Phase
    var targetId: int
    var fakeStatus: nat
    var reading: bool
    var sgIndex: nat
    const sgPtr: array<int>
    const sgLen: array<word32>
    var sgTotalLength: word32
    ghost var ops: seq<Entry>         // the transfers executed since SCSIGet

    constructor (mem: seq<byte>, base: int)
      requires |mem| == WORD32
      ensures Valid() && phase == Free && fresh(sgPtr) && fresh(sgLen)
    {
      this.mem, this.base, phase, targetId, fakeStatus, reading := mem, base, Free, 8, 0, false;
      sgIndex, sgTotalLength, ops := 0, 0, [];
      sgPtr, sgLen := new int[TABLE_SIZE](_ => 0), new word32[TABLE_SIZE](_ => 0);
    }

    /** The table in use. */
    ghost function Entries(): (es: seq<Entry>)
      requires sgIndex <= TABLE_SIZE && sgPtr.Length == sgLen.Length == TABLE_SIZE
      reads this`sgIndex, sgPtr, sgLen
      ensures |es| == sgIndex
    {
      Zip(sgPtr[..sgIndex], sgLen[..sgIndex])
    }

    /** The status word tells the phase; outside the free phase the table accounts for the
        transfers since SCSIGet. */
    ghost predicate Valid()
      reads this, sgPtr, sgLen
    {
      |mem| == WORD32 && sgIndex <= TABLE_SIZE && sgPtr.Length == sgLen.Length == TABLE_SIZE &&
      fakeStatus == StatusOf(phase) && (phase != Free ==> Accounted(Entries(), sgTotalLength, ops))
    }

    ghost function View(pc: word32): Tib
      requires sgIndex <= TABLE_SIZE && sgPtr.Length == sgLen.Length == TABLE_SIZE
      reads this, sgPtr, sgLen
    {
      Tib(mem, Entries(), sgTotalLength, pc, ops)
    }

    /** The case scInc falls into: one transfer on the table. */
    method AddTransfer(ptr: word32, len: word32) returns (full: bool)
      requires sgIndex <= TABLE_SIZE && sgPtr.Length == sgLen.Length == TABLE_SIZE
      modifies this`sgIndex, this`sgTotalLength, this`ops, sgPtr, sgLen
      ensures sgIndex <= TABLE_SIZE
      ensures full <==> !Adjoins(old(Entries()), Entry(base + ptr, len)) && old(sgIndex) == TABLE_SIZE
      ensures full ==> Entries() == old(Entries()) && sgTotalLength == old(sgTotalLength) && ops == old(ops)
      ensures !full ==> Entries() == Push(old(Entries()), Entry(base + ptr, len))
      ensures !full ==> sgTotalLength == Wrap(old(sgTotalLength) + len) && ops == old(ops) + [Entry(base + ptr, len)]
    {
      var host := base + ptr;
      if sgIndex > 0 && host == sgPtr[sgIndex - 1] + sgLen[sgIndex - 1] {
        sgLen[sgIndex - 1] := Merged(sgLen[sgIndex - 1], len);
      } else {
        if sgIndex == TABLE_SIZE {
          return true;
        }
        sgPtr[sgIndex], sgLen[sgIndex] := host, len;
        sgIndex := sgIndex + 1;
      }
      sgTotalLength := Wrap(sgTotalLength + len);
      ops := ops + [Entry(host, len)];
      full := false;
    }

    /** One turn of the loop of `exec_tib`: the next position, and the error code if
        the program ends here. */
    method ExecOne(tib: word32) returns (pc: word32, r: Option<int>)
      requires |mem| == WORD32 && sgIndex <= TABLE_SIZE && sgPtr.Length == sgLen.Length == TABLE_SIZE
      modifies this`mem, this`sgIndex, this`sgTotalLength, this`ops, sgPtr, sgLen
      ensures |mem| == WORD32 && sgIndex <= TABLE_SIZE
      ensures Step(old(View(tib)), base) == if r.None? then Running(View(pc)) else Ended(View(pc), r.value)
    {
      hide Read16, Read32, Write32, Entries, Push, Wrap;
      var cmd, ptr, len := Read16(mem, tib), Read32(mem, tib + 2), Read32(mem, tib + 6);
      pc, r := Wrap(tib + 10), None;
      if cmd == SC_INC || cmd == SC_NO_INC {
        if cmd == SC_INC {
          mem := Write32(mem, pc - 8, Wrap(ptr as int + len as int));
        }
        var full := AddTransfer(ptr, len);
        if full {
          r := Some(MEM_FULL_ERR);
        }
      } else if cmd == SC_ADD {
        mem := Write32(mem, ptr, Wrap(Read32(mem, ptr) as int + len as int));
      } else if cmd == SC_MOVE {
        mem := Write32(mem, len, Read32(mem, ptr));
      } else if cmd == SC_LOOP {
        mem := Write32(mem, pc - 4, Wrap(len as int - 1));
        if Wrap(len as int - 1) > 0 {
          pc := Wrap(pc as int + ptr as int - 10);
        }
      } else if cmd == SC_NOP {
      } else if cmd == SC_STOP {
        r := Some(0);
      } else if cmd == SC_COMP {
        r := Some(SC_COMPARE_ERR);
      } else {
        r := Some(SC_BAD_PARMS_ERR);
      }
    }

    /** `exec_tib`, at most `fuel` operations of it: the error code, or None if it is
        still running. */
    method ExecTib(tib: word32, fuel: nat) returns (r: Option<int>)
      requires Valid() && phase != Free
      modifies this`mem, this`sgIndex, this`sgTotalLength, this`ops, sgPtr, sgLen
      ensures Valid() && old(ops) <= ops
      ensures exists pc: word32 :: Run(old(View(tib)), base, fuel) == Reached(View(pc), r)
    {
      hide Run, Step, Entries, Accounted;
      ghost var t0 := View(tib);
      var pc, n := tib, fuel;
      r := None;
      while n > 0
        invariant 0 <= n <= fuel && |mem| == WORD32 && sgIndex <= TABLE_SIZE
        invariant r.None? && Run(t0, base, fuel) == Run(View(pc), base, n)
      {
        RunStep(View(pc), base, n);
        pc, r := ExecOne(pc);
        if r.Some? {
          RunEnds(t0, base, fuel, View(pc), r);
          return;
        }
        n := n - 1;
      }
      RunNothing(View(pc), base);
      RunEnds(t0, base, fuel, View(pc), r);
    }

    // ------------------------------------------------------------ the phases

    method SCSIReset() returns (r: int)
      requires Valid()
      modifies this`phase, this`fakeStatus, this`sgIndex, this`targetId, this`ops
      ensures Valid() && r == 0 && phase == Free && targetId == 8 && Entries() == [] && ops == []
    {
      phase, fakeStatus, sgIndex, targetId, ops := Free, 0, 0, 8, [];
      r := 0;
    }

    /** Flushes the table and starts a transaction. */
    method SCSIGet() returns (r: int)
      requires Valid()
      modifies this`phase, this`fakeStatus, this`reading, this`sgIndex, this`sgTotalLength, this`ops
      ensures Valid()
      ensures old(phase) != Free ==> r == SC_MGR_BUSY_ERR && phase == old(phase) && reading == old(reading)
      ensures old(phase) != Free ==>
        ops == old(ops) && Entries() == old(Entries()) && sgTotalLength == old(sgTotalLength)
      ensures old(phase) == Free ==> r == 0 && phase == Arbitrated && ops == [] && Entries() == []
      ensures old(phase) == Free ==> sgTotalLength == 0 && !reading
    {
      if phase != Free {
        return SC_MGR_BUSY_ERR;
      }
      phase, fakeStatus, reading := Arbitrated, 0x40, false;
      sgIndex, sgTotalLength, ops := 0, 0, [];
      r := 0;
    }

    /** `present` is what the host answers about the target. */
    method SCSISelect(id: int, present: bool) returns (r: int)
      requires Valid()
      modifies this`phase, this`fakeStatus, this`targetId
      ensures Valid() && ops == old(ops) && Entries() == old(Entries())
      ensures r == if old(phase) != Arbitrated then SC_SEQUENCE_ERR else if id < 0 || id > 7 then SC_BAD_PARMS_ERR
        else if !present then SC_COMM_ERR else 0
      ensures phase == if r == 0 then Selected else if r == SC_COMM_ERR then Free else old(phase)
      ensures targetId == if old(phase) == Arbitrated && 0 <= id <= 7 then id else old(targetId)
    {
      if phase != Arbitrated {
        return SC_SEQUENCE_ERR;
      }
      if id < 0 || id > 7 {
        return SC_BAD_PARMS_ERR;
      }
      targetId := id;
      if !present {
        phase, fakeStatus := Free, 0;
        return SC_COMM_ERR;
      }
      phase, fakeStatus := Selected, 0x6a;
      r := 0;
    }

    /** `accepted` is what the host answers about the target and the logical unit. */
    method SCSICmd(cmdLength: int, accepted: bool) returns (r: int)
      requires Valid()
      modifies this`phase, this`fakeStatus
      ensures Valid() && ops == old(ops) && Entries() == old(Entries())
      ensures r == if old(phase) != Selected then SC_PHASE_ERR else if cmdLength !in {6, 10, 12} then SC_BAD_PARMS_ERR
        else if !accepted then SC_COMM_ERR else 0
      ensures phase == if r == 0 then DataTransfer else if r == SC_COMM_ERR then Free else old(phase)
    {
      if phase != Selected {
        return SC_PHASE_ERR;
      }
      if cmdLength != 6 && cmdLength != 10 && cmdLength != 12 {
        return SC_BAD_PARMS_ERR;
      }
      if !accepted {
        phase, fakeStatus := Free, 0;
        return SC_COMM_ERR;
      }
      phase, fakeStatus := DataTransfer, 0x6e;
      r := 0;
    }

    /** `SCSIRead` and `SCSIWrite`: both add to the table of the transaction. */
    method ReadOrWrite(tib: word32, isRead: bool, fuel: nat) returns (r: Option<int>)
      requires Valid()
      modifies this`mem, this`reading, this`sgIndex, this`sgTotalLength, this`ops, sgPtr, sgLen
      ensures Valid()
      ensures phase != DataTransfer ==> r == Some(SC_PHASE_ERR) && mem == old(mem)
      ensures phase != DataTransfer ==>
        ops == old(ops) && Entries() == old(Entries()) && sgTotalLength == old(sgTotalLength)
      ensures phase == DataTransfer ==> exists pc: word32 :: Run(old(View(tib)), base, fuel) == Reached(View(pc), r)
      ensures reading == (old(reading) || (isRead && phase == DataTransfer))
    {
      if phase != DataTransfer {
        return Some(SC_PHASE_ERR);
      }
      if isRead {
        reading := true;
      }
      r := ExecTib(tib, fuel);
    }

    /** Hands the table to the host and ends the transaction. `success` and `status` are
        the host's answer. What it is handed stands for exactly the transfers of the
        transaction, in order, if and only if no merge overflowed. */
    method SCSIComplete(message: word32, stat: word32, success: bool, status: nat)
        returns (r: int, sent: Option<(seq<Entry>, word32)>)
      requires Valid()
      modifies this`mem, this`phase, this`fakeStatus
      ensures Valid()
      ensures old(phase) != DataTransfer ==> r == SC_PHASE_ERR && sent == None && phase == old(phase)
      ensures old(phase) == DataTransfer ==> r == (if success then 0 else SC_COMM_ERR) && phase == Free
      ensures var m := Write16(old(mem), message, 0);
        mem == if old(phase) == DataTransfer then Write16(m, stat, status) else m
      ensures old(phase) == DataTransfer ==> sent == Some((old(Entries()), sgTotalLength))
      ensures sent.Some? ==> (Flatten(sent.value.0) == Flatten(ops) <==> !Overflowed(ops))
      ensures sent.Some? ==> sent.value.1 == Wrap(Total(sent.value.0)) && |sent.value.0| <= TABLE_SIZE
    {
      hide Flatten, Overflowed, Total, Coalesce, Write16;
      mem := Write16(mem, message, 0);
      if phase != DataTransfer {
        return SC_PHASE_ERR, None;
      }
      FlattenCoalesced(ops);
      TotalCoalesced(ops);
      var table := Zip(sgPtr[..sgIndex], sgLen[..sgIndex]);
      sent := Some((table, sgTotalLength));
      mem := Write16(mem, stat, status);
      phase, fakeStatus := Free, 0;
      r := if success then 0 else SC_COMM_ERR;
    }

    method SCSIStat() returns (status: nat)
      requires Valid()
      ensures status == StatusOf(phase)
      ensures phase == Free <==> status == 0
      ensures phase == Arbitrated <==> status == 0x40
      ensures phase == Selected <==> status == 0x6a
      ensures phase == DataTransfer <==> status == 0x6e
    {
      status := fakeStatus;
    }
  }

  /** The outcome of a run, by the code it returned. */
  function Reached(t: Tib, r: Option<int>): Outcome { if r.None? then Running(t) else Ended(t, r.value) }

  lemma RunNothing(t: Tib, base: int)
    requires |t.mem| == WORD32
    ensures Run(t, base, 0) == Running(t)
  {
  }

  lemma RunEnds(t0: Tib, base: int, fuel: nat, t: Tib, r: Option<int>)
    requires |t0.mem| == WORD32 && Accounted(t0.es, t0.total, t0.ops)
    requires Run(t0, base, fuel) == Reached(t, r)
    ensures Accounted(t.es, t.total, t.ops) && t0.ops <= t.ops
  {
    RunAccounted(t0, base, fuel);
  }

  function Zip(ptrs: seq<int>, lens: seq<word32>): (es: seq<Entry>)
    requires |ptrs| == |lens|
    ensures |es| == |ptrs|
  {
    seq(|ptrs|, i requires 0 <= i < |ptrs| => Entry(ptrs[i], lens[i]))
  }

  lemma RunStep(t: Tib, base: int, n: nat)
    requires |t.mem| == WORD32 && n > 0
    ensures Run(t, base, n) == match Step(t, base)
      case Running(t') => Run(t', base, n - 1)
      case Ended(t', code) => Ended(t', code)
  {
    hide Step;
  }
}
