/** The SCSI Manager: TIB programs in Mac memory, which may rewrite themselves, and
    the phases of a transaction. */
module Scsi {
  import opened Bytes
  import opened ScsiTable

  // ---------------------------------------------------------------- Mac memory

  /** The address space has 32 bits; addresses wrap around. */
  function Wrap(a: int): word32 { a % WORD32 }

  function Read16(m: seq<byte>, a: int): (v: nat)
    requires |m| == WORD32
  {
    m[Wrap(a)] as int * 0x100 + m[Wrap(a + 1)] as int
  }

  function Read32(m: seq<byte>, a: int): (v: word32)
    requires |m| == WORD32
  {
    m[Wrap(a)] as int * 0x100_0000 + m[Wrap(a + 1)] as int * 0x1_0000
      + m[Wrap(a + 2)] as int * 0x100 + m[Wrap(a + 3)] as int
  }

  function Write16(m: seq<byte>, a: int, v: nat): (m': seq<byte>)
    requires |m| == WORD32
    ensures |m'| == WORD32
  {
    m[Wrap(a) := v / 0x100 % 0x100][Wrap(a + 1) := v % 0x100]
  }

  function Write32(m: seq<byte>, a: int, v: word32): (m': seq<byte>)
    requires |m| == WORD32
    ensures |m'| == WORD32
  {
    m[Wrap(a) := v / 0x100_0000][Wrap(a + 1) := v / 0x1_0000 % 0x100]
     [Wrap(a + 2) := v / 0x100 % 0x100][Wrap(a + 3) := v % 0x100]
  }

  lemma BytesWritten(m: seq<byte>, a: int, v: word32)
    requires |m| == WORD32
    ensures var m' := Write32(m, a, v);
      m'[Wrap(a)] == v / 0x100_0000 && m'[Wrap(a + 1)] == v / 0x1_0000 % 0x100 &&
      m'[Wrap(a + 2)] == v / 0x100 % 0x100 && m'[Wrap(a + 3)] == v % 0x100
  {
    assert Wrap(a) != Wrap(a + 1) && Wrap(a) != Wrap(a + 2) && Wrap(a) != Wrap(a + 3);
    assert Wrap(a + 1) != Wrap(a + 2) && Wrap(a + 1) != Wrap(a + 3) && Wrap(a + 2) != Wrap(a + 3);
  }

  lemma ReadWritten(m: seq<byte>, a: int, v: word32)
    requires |m| == WORD32
    ensures Read32(Write32(m, a, v), a) == v
  {
    hide Write32, Wrap;
    BytesWritten(m, a, v);
    BytesOfWord(v);
  }

  /** A write leaves all other bytes alone. */
  lemma ByteElsewhere(m: seq<byte>, a: int, v: word32, b: int)
    requires |m| == WORD32 && 0 <= a <= WORD32 - 4 && 0 <= b < WORD32 && (b < a || a + 4 <= b)
    ensures Write32(m, a, v)[b] == m[b]
  {
  }

  lemma Read32Elsewhere(m: seq<byte>, a: int, v: word32, b: int)
    requires |m| == WORD32 && 0 <= a <= WORD32 - 4 && 0 <= b <= WORD32 - 4 && (b + 4 <= a || a + 4 <= b)
    ensures Read32(Write32(m, a, v), b) == Read32(m, b)
  {
    hide Write32;
    ByteElsewhere(m, a, v, b);
    ByteElsewhere(m, a, v, b + 1);
    ByteElsewhere(m, a, v, b + 2);
    ByteElsewhere(m, a, v, b + 3);
  }

  lemma Read16Elsewhere(m: seq<byte>, a: int, v: word32, b: int)
    requires |m| == WORD32 && 0 <= a <= WORD32 - 4 && 0 <= b <= WORD32 - 2 && (b + 2 <= a || a + 4 <= b)
    ensures Read16(Write32(m, a, v), b) == Read16(m, b)
  {
    hide Write32;
    ByteElsewhere(m, a, v, b);
    ByteElsewhere(m, a, v, b + 1);
  }

  /** The number that bytes make, the most significant one first. */
  function BigEndian(s: seq<byte>): nat {
    if s == [] then 0 else BigEndian(s[..|s| - 1]) * 256 + s[|s| - 1]
  }

  lemma BigEndianLast(s: seq<byte>, b: byte)
    ensures BigEndian(s + [b]) == BigEndian(s) * 256 + b
  {
    assert (s + [b])[..|s|] == s;
  }

  /** Mac memory is big-endian. */
  lemma ReadIsBigEndian(m: seq<byte>, a: nat)
    requires |m| == WORD32 && a + 4 <= WORD32
    ensures Read16(m, a) == BigEndian(m[a..a + 2]) && Read32(m, a) == BigEndian(m[a..a + 4])
  {
    hide BigEndian, Read16, Read32;
    InMemory(m, a);
    var s0: seq<byte> := [];
    var s1, s2, s3 := s0 + [m[a]], m[a..a + 2], m[a..a + 3];
    assert s2 == s1 + [m[a + 1]] && s3 == s2 + [m[a + 2]] && m[a..a + 4] == s3 + [m[a + 3]];
    BigEndianLast(s0, m[a]);
    BigEndianLast(s1, m[a + 1]);
    BigEndianLast(s2, m[a + 2]);
    BigEndianLast(s3, m[a + 3]);
    NoBytes();
  }

  lemma NoBytes()
    ensures BigEndian([]) == 0
  {
  }

  lemma InMemory(m: seq<byte>, a: nat)
    requires |m| == WORD32 && a + 4 <= WORD32
    ensures Read16(m, a) == m[a] as int * 256 + m[a + 1] as int
    ensures Read32(m, a) ==
      ((m[a] as int * 256 + m[a + 1] as int) * 256 + m[a + 2] as int) * 256 + m[a + 3] as int
  {
    assert Wrap(a) == a && Wrap(a + 1) == a + 1 && Wrap(a + 2) == a + 2 && Wrap(a + 3) == a + 3;
  }

  lemma Read16Written(m: seq<byte>, a: nat, v: nat)
    requires |m| == WORD32 && a + 4 <= WORD32 && v < 0x10000
    ensures Read16(Write16(m, a, v), a) == v
  {
    hide Read16;
    InMemory(Write16(m, a, v), a);
    assert Wrap(a) == a && Wrap(a + 1) == a + 1;
    assert v / 0x100 < 0x100;
  }

  // ---------------------------------------------------------------- TIB programs

  const SC_COMM_ERR := 2
  const SC_BAD_PARMS_ERR := 4
  const SC_PHASE_ERR := 5
  const SC_COMPARE_ERR := 6
  const SC_MGR_BUSY_ERR := 7
  const SC_SEQUENCE_ERR := 8
  const MEM_FULL_ERR := -108

  const SC_INC := 1
  const SC_NO_INC := 2
  const SC_ADD := 3
  const SC_MOVE := 4
  const SC_LOOP := 5
  const SC_NOP := 6
  const SC_STOP := 7
  const SC_COMP := 8

  /** A TIB being executed: memory, the table and its total length, the next opcode,
      and the transfers done since the table was flushed. */
  datatype Tib = Tib(mem: seq<byte>, es: seq<Entry>, total: word32, pc: word32, ops: seq<Entry>)

  datatype Outcome = Running(t: Tib) | Ended(t: Tib, code: int)

  /** `scInc` and `scNoInc` on the table: the data at ptr in host memory. */
  function Transfer(t: Tib, base: int, ptr: word32, len: word32): Outcome {
    var e := Entry(base + ptr, len);
    if !Adjoins(t.es, e) && |t.es| == TABLE_SIZE then Ended(t, MEM_FULL_ERR)
    else Running(t.(es := Push(t.es, e), total := Wrap(t.total + len), ops := t.ops + [e]))
  }

  /** One operation; `base` is where Mac memory starts in host memory. */
  function Step(t: Tib, base: int): (o: Outcome)
    requires |t.mem| == WORD32
    ensures |o.t.mem| == WORD32
  {
    var cmd, ptr, len := Read16(t.mem, t.pc), Read32(t.mem, t.pc + 2), Read32(t.mem, t.pc + 6);
    var next := Wrap(t.pc + 10);
    var t' := t.(pc := next);
    if cmd == SC_INC then Transfer(t'.(mem := Write32(t.mem, next - 8, Wrap(ptr + len))), base, ptr, len)
    else if cmd == SC_NO_INC then Transfer(t', base, ptr, len)
    else if cmd == SC_ADD then Running(t'.(mem := Write32(t.mem, ptr, Wrap(Read32(t.mem, ptr) + len))))
    else if cmd == SC_MOVE then Running(t'.(mem := Write32(t.mem, len, Read32(t.mem, ptr))))
    else if cmd == SC_LOOP then
      Running(t'.(mem := Write32(t.mem, next - 4, Wrap(len - 1)),
                  pc := if Wrap(len - 1) > 0 then Wrap(next + ptr - 10) else next))
    else if cmd == SC_NOP then Running(t')
    else if cmd == SC_STOP then Ended(t', 0)
    else if cmd == SC_COMP then Ended(t', SC_COMPARE_ERR)
    else Ended(t', SC_BAD_PARMS_ERR)
  }

  /** At most `fuel` operations. */
  function Run(t: Tib, base: int, fuel: nat): (o: Outcome)
    requires |t.mem| == WORD32
    ensures |o.t.mem| == WORD32
    decreases fuel
  {
    if fuel == 0 then Running(t)
    else match Step(t, base)
      case Running(t') => Run(t', base, fuel - 1)
      case Ended(t', code) => Ended(t', code)
  }

  /** The table is what the transfers coalesce to, and the total is theirs modulo 2^32. */
  ghost predicate Accounted(es: seq<Entry>, total: word32, ops: seq<Entry>) {
    es == Coalesce(ops) && |es| <= TABLE_SIZE && total == Wrap(Total(ops))
  }

  lemma StepAccounted(t: Tib, base: int)
    requires |t.mem| == WORD32 && Accounted(t.es, t.total, t.ops)
    ensures var t' := Step(t, base).t; Accounted(t'.es, t'.total, t'.ops) && t.ops <= t'.ops
  {
    hide Read16, Read32, Write32, Overflowed, Flatten, Push;
    var ptr, len := Read32(t.mem, t.pc + 2), Read32(t.mem, t.pc + 6);
    var e := Entry(base + ptr, len);
    assert (t.ops + [e])[..|t.ops|] == t.ops;
    PushLength(t.es, e);
    TotalModulo(t.total, Total(t.ops), len);
  }

  /** Whatever a TIB program does, also to itself, and however it ends. */
  lemma {:induction false} RunAccounted(t: Tib, base: int, fuel: nat)
    requires |t.mem| == WORD32 && Accounted(t.es, t.total, t.ops)
    ensures var t' := Run(t, base, fuel).t; Accounted(t'.es, t'.total, t'.ops) && t.ops <= t'.ops
    decreases fuel
  {
    hide Step;
    if fuel > 0 {
      StepAccounted(t, base);
      if Step(t, base).Running? { RunAccounted(Step(t, base).t, base, fuel - 1); }
    }
  }

  // ---------------------------------------------------------------- what the operations do

  /** A write at a leaves the bytes alone that are not among the four from a on. */
  lemma OtherBytes(m: seq<byte>, a: word32, v: word32)
    requires |m| == WORD32
    ensures forall b: word32 :: (b - a) % WORD32 >= 4 ==> Write32(m, a, v)[b] == m[b]
  {
    forall b: word32 | (b - a) % WORD32 >= 4
      ensures Write32(m, a, v)[b] == m[b]
    {
      hide Wrap;
      Distance(a, b, 0);
      Distance(a, b, 1);
      Distance(a, b, 2);
      Distance(a, b, 3);
    }
  }

  lemma Distance(a: word32, b: word32, i: nat)
    requires i < 4 && (b - a) % WORD32 >= 4
    ensures Wrap(a + i) != b
  {
    assert (b - a) % WORD32 == if b >= a then b - a else b - a + WORD32;
    assert Wrap(a + i) == if a + i >= WORD32 then a + i - WORD32 else a + i;
  }

  /** Only the word at a has changed, and to v. */
  ghost predicate Stored(m: seq<byte>, m': seq<byte>, a: word32, v: int)
    requires |m| == |m'| == WORD32
  {
    Read32(m', a) == v % 0x1_0000_0000 && forall b: word32 :: (b - a) % 0x1_0000_0000 >= 4 ==> m'[b] == m[b]
  }

  lemma WriteStores(m: seq<byte>, a: word32, v: int)
    requires |m| == WORD32
    ensures Stored(m, Write32(m, a, Wrap(v)), a, v)
  {
    hide Read32, Write32;
    ReadWritten(m, a, Wrap(v));
    OtherBytes(m, a, Wrap(v));
  }

  /** The operations on memory: 3 adds its second operand to the word at the first, 4 copies
      the word at the first operand to the second, and 5 counts its own second operand down
      and goes back or forth by the first from where it stands until that is 0. */
  lemma MemoryOperations(t: Tib, base: int)
    requires |t.mem| == WORD32
    ensures var cmd, x, y := Read16(t.mem, t.pc), Read32(t.mem, t.pc + 2), Read32(t.mem, t.pc + 6);
      var o := Step(t, base);
      var t', next := o.t, (t.pc + 10) % 0x1_0000_0000;
      (cmd in {3, 4, 5, 6} ==> o.Running? && t'.es == t.es && t'.ops == t.ops && t'.total == t.total) &&
      (cmd == 3 ==> Stored(t.mem, t'.mem, x, Read32(t.mem, x) + y) && t'.pc == next) &&
      (cmd == 4 ==> Stored(t.mem, t'.mem, y, Read32(t.mem, x)) && t'.pc == next) &&
      (cmd == 5 ==>
        Stored(t.mem, t'.mem, Wrap(t.pc + 6), y - 1) &&
        t'.pc == if y == 1 then next else (t.pc + x) % 0x1_0000_0000) &&
      (cmd == 6 ==> t'.mem == t.mem && t'.pc == next)
  {
    hide Read16, Read32, Write32, Stored;
    var x: int, y: int := Read32(t.mem, t.pc + 2), Read32(t.mem, t.pc + 6);
    WriteStores(t.mem, x, Read32(t.mem, x) + y);
    WriteStores(t.mem, y, Read32(t.mem, x));
    WriteStores(t.mem, Wrap(t.pc + 6), y - 1);
    SameAddress(t.mem, Wrap(t.pc + 10) - 4, Wrap(y - 1));
    NextPlace(t.pc, x);
    SmallWrap(Read32(t.mem, x));
    CountedDown(y);
  }

  lemma NextPlace(pc: word32, x: word32)
    ensures Wrap(Wrap(pc + 10) - 4) == Wrap(pc + 6) && Wrap(Wrap(pc + 10) - 8) == Wrap(pc + 2)
    ensures Wrap(Wrap(pc + 10) + x - 10) == Wrap(pc + x)
  {
    hide Wrap;
    QuotientRemainder(pc + 10, -4);
    QuotientRemainder(pc + 10, -8);
    QuotientRemainder(pc + 10, x - 10);
  }

  lemma SmallWrap(v: word32)
    ensures Wrap(v) == v
  {
  }

  lemma CountedDown(y: word32)
    ensures Wrap(y - 1) == 0 <==> y == 1
  {
  }

  lemma SameAddress(m: seq<byte>, a: int, v: word32)
    requires |m| == WORD32
    ensures Write32(m, a, v) == Write32(m, Wrap(a), v)
  {
    hide Wrap;
    QuotientRemainder(a, 0);
    QuotientRemainder(a, 1);
    QuotientRemainder(a, 2);
    QuotientRemainder(a, 3);
  }

  /** The other operations: 1 and 2 transfer the bytes that the operands name, 1 moves its
      first operand on by the second, and the table of 1024 entries may be full; 7, 8 and
      anything else end the program, with 0, 6 (comparing is not implemented) and 4. */
  lemma OtherOperations(t: Tib, base: int)
    requires |t.mem| == WORD32
    ensures var cmd, x, y := Read16(t.mem, t.pc), Read32(t.mem, t.pc + 2), Read32(t.mem, t.pc + 6);
      var o := Step(t, base);
      (cmd in {1, 2} ==>
        (if |t.es| == 1024 && base + x != t.es[1023].ptr + t.es[1023].len
         then o.Ended? && o.code == -108 && o.t.ops == t.ops && o.t.es == t.es
         else o.Running? && o.t.ops == t.ops + [Entry(base + x, y)])) &&
      (cmd == 1 ==> Stored(t.mem, o.t.mem, Wrap(t.pc + 2), x + y)) &&
      (cmd == 2 ==> o.t.mem == t.mem) &&
      (cmd !in {1, 2, 3, 4, 5, 6} ==>
        o.Ended? && o.t.mem == t.mem && o.t.ops == t.ops && o.t.es == t.es &&
        o.code == if cmd == 7 then 0 else if cmd == 8 then 6 else 4)
  {
    hide Read16, Read32, Write32, Stored, Push;
    var x: int, y: int := Read32(t.mem, t.pc + 2), Read32(t.mem, t.pc + 6);
    NextPlace(t.pc, x);
    WriteStores(t.mem, Wrap(t.pc + 2), x + y);
    SameAddress(t.mem, Wrap(t.pc + 10) - 8, Wrap(x + y));
  }

  // ---------------------------------------------------------------- the counted loop

  /** The program scInc(ptr, len), scLoop(-10, n), scStop at address a. */
  ghost predicate CountedLoop(m: seq<byte>, a: int, ptr: word32, len: word32, n: word32) {
    |m| == WORD32 && 0 <= a <= WORD32 - 30 &&
    Read16(m, a) == SC_INC && Read32(m, a + 2) == ptr && Read32(m, a + 6) == len &&
    Read16(m, a + 10) == SC_LOOP && Read32(m, a + 12) == WORD32 - 10 && Read32(m, a + 16) == n &&
    Read16(m, a + 20) == SC_STOP
  }

  lemma WritePtr(m: seq<byte>, a: int, ptr: word32, len: word32, n: word32, v: word32)
    requires CountedLoop(m, a, ptr, len, n)
    ensures CountedLoop(Write32(m, a + 2, v), a, v, len, n)
  {
    hide Read16, Read32, Write32;
    ReadWritten(m, a + 2, v);
    Read16Elsewhere(m, a + 2, v, a);
    Read32Elsewhere(m, a + 2, v, a + 6);
    Read16Elsewhere(m, a + 2, v, a + 10);
    Read32Elsewhere(m, a + 2, v, a + 12);
    Read32Elsewhere(m, a + 2, v, a + 16);
    Read16Elsewhere(m, a + 2, v, a + 20);
  }

  lemma WriteCount(m: seq<byte>, a: int, ptr: word32, len: word32, n: word32, v: word32)
    requires CountedLoop(m, a, ptr, len, n)
    ensures CountedLoop(Write32(m, a + 16, v), a, ptr, len, v)
  {
    hide Read16, Read32, Write32;
    ReadWritten(m, a + 16, v);
    Read16Elsewhere(m, a + 16, v, a);
    Read32Elsewhere(m, a + 16, v, a + 2);
    Read32Elsewhere(m, a + 16, v, a + 6);
    Read16Elsewhere(m, a + 16, v, a + 10);
    Read32Elsewhere(m, a + 16, v, a + 12);
    Read16Elsewhere(m, a + 16, v, a + 20);
  }

  /** At the start of the loop, k transfers done and n - k to go, all coalesced so far. */
  ghost predicate LoopAt(t: Tib, base: int, a: int, p: word32, len: word32, n: word32, k: nat) {
    k < n && CountedLoop(t.mem, a, Wrap(p + k * len), len, n - k) && t.pc == a &&
    t.es == if k == 0 then [] else [Entry(base + p, Wrap(k * len))]
  }

  lemma MultipleStep(k: nat, len: nat)
    ensures (k + 1) * len == k * len + len && k * len >= 0
  {
  }

  lemma TurnInc(t: Tib, base: int, a: int, ptr: word32, len: word32, c: word32)
    requires CountedLoop(t.mem, a, ptr, len, c) && t.pc == a
    requires |t.es| <= 1 && (t.es != [] ==> Adjoins(t.es, Entry(base + ptr, len)))
    ensures var o := Step(t, base);
      o.Running? && CountedLoop(o.t.mem, a, Wrap(ptr + len), len, c) && o.t.pc == a + 10 &&
      o.t.ops == t.ops + [Entry(base + ptr, len)] &&
      o.t.es == if t.es == [] then [Entry(base + ptr, len)] else [Entry(t.es[0].ptr, Merged(t.es[0].len, len))]
  {
    hide Read16, Read32, Write32, Merged;
    WritePtr(t.mem, a, ptr, len, c, Wrap(ptr + len));
  }

  lemma TurnLoop(t: Tib, base: int, a: int, ptr: word32, len: word32, c: word32)
    requires CountedLoop(t.mem, a, ptr, len, c) && t.pc == a + 10 && c >= 1
    ensures var o := Step(t, base);
      o.Running? && CountedLoop(o.t.mem, a, ptr, len, c - 1) && o.t.pc == (if c == 1 then a + 20 else a) &&
      o.t.ops == t.ops && o.t.es == t.es
  {
    hide Read16, Read32, Write32;
    WriteCount(t.mem, a, ptr, len, c, c - 1);
  }

  /** Once round the loop: the next transfer extends the entry as long as the pointer
      has not run over the end of memory. */
  lemma LoopTurn(t: Tib, base: int, a: int, p: word32, len: word32, n: word32, k: nat)
    requires LoopAt(t, base, a, p, len, n, k) && p + k * len < WORD32
    ensures Step(t, base).Running? && Step(Step(t, base).t, base).Running?
    ensures var t2 := Step(Step(t, base).t, base).t;
      t2.es == [Entry(base + p, Wrap((k + 1) * len))] && |t2.ops| == |t.ops| + 1 &&
      CountedLoop(t2.mem, a, Wrap(p + (k + 1) * len), len, n - k - 1) &&
      t2.pc == if k + 1 == n then a + 20 else a
  {
    hide Step, Read16, Read32, Wrap, Merged;
    LoopArithmetic(p, len, k);
    TurnInc(t, base, a, p + k * len, len, n - k);
    TurnLoop(Step(t, base).t, base, a, Wrap(p + (k + 1) * len), len, n - k);
  }

  lemma LoopArithmetic(p: word32, len: word32, k: nat)
    requires p + k * len < WORD32
    ensures 0 <= k * len && Wrap(p + k * len) == p + k * len && Wrap(k * len) == k * len
    ensures Wrap(p + k * len + len) == Wrap(p + (k + 1) * len)
    ensures Merged(Wrap(k * len), len) == Wrap((k + 1) * len) && (k == 0 ==> len == Wrap((k + 1) * len))
  {
    MultipleStep(k, len);
  }

  lemma RunTwo(t: Tib, base: int, fuel: nat)
    requires |t.mem| == WORD32 && Step(t, base).Running? && Step(Step(t, base).t, base).Running?
    ensures Run(t, base, fuel + 2) == Run(Step(Step(t, base).t, base).t, base, fuel)
  {
    hide Step;
    assert Run(t, base, fuel + 2) == Run(Step(t, base).t, base, fuel + 1);
  }

  /** From k transfers on the loop runs to its end. */
  lemma {:induction false} LoopRuns(t: Tib, base: int, a: int, p: word32, len: word32, n: word32, k: nat)
    requires LoopAt(t, base, a, p, len, n, k) && p + (n - 1) * len < WORD32
    ensures var o := Run(t, base, 2 * (n - k) + 1);
      o.Ended? && o.code == 0 && |o.t.ops| == |t.ops| + n - k &&
      o.t.es == [Entry(base + p, Wrap(n * len))] &&
      CountedLoop(o.t.mem, a, Wrap(p + n * len), len, 0)
    decreases n - k
  {
    hide Step, Read16, Read32;
    assert k * len <= (n - 1) * len by { MultipleMonotone(k, n - 1, len); }
    LoopTurn(t, base, a, p, len, n, k);
    var t2 := Step(Step(t, base).t, base).t;
    RunTwo(t, base, 2 * (n - k - 1) + 1);
    if k + 1 < n {
      LoopRuns(t2, base, a, p, len, n, k + 1);
    } else {
      StopEnds(t2, base, a, Wrap(p + n * len), len, 0);
    }
  }

  lemma MultipleMonotone(i: nat, j: nat, len: nat)
    requires i <= j
    ensures i * len <= j * len
  {
  }

  lemma StopEnds(t: Tib, base: int, a: int, ptr: word32, len: word32, n: word32)
    requires CountedLoop(t.mem, a, ptr, len, n) && t.pc == a + 20
    ensures Run(t, base, 1).Ended? && Run(t, base, 1).code == 0 && Run(t, base, 1).t == t.(pc := Wrap(a + 30))
  {
    hide Read16, Read32, Write32;
  }

  /** From k transfers on the loop runs on to k' of them, if the pointer stays in memory. */
  lemma {:induction false} LoopReaches(t: Tib, base: int, a: int, p: word32, len: word32, n: word32, k: nat, k': nat)
    requires LoopAt(t, base, a, p, len, n, k) && k <= k' < n && (k < k' ==> p + (k' - 1) * len < WORD32)
    ensures var o := Run(t, base, 2 * (k' - k)); o.Running? && LoopAt(o.t, base, a, p, len, n, k')
    decreases k' - k
  {
    hide Step, Read16, Read32;
    if k < k' {
      MultipleMonotone(k, k' - 1, len);
      LoopTurn(t, base, a, p, len, n, k);
      RunTwo(t, base, 2 * (k' - k - 1));
      LoopReaches(Step(Step(t, base).t, base).t, base, a, p, len, n, k + 1, k');
    }
  }

  lemma {:induction false} RunOn(t: Tib, base: int, i: nat, j: nat)
    requires |t.mem| == WORD32 && Run(t, base, i).Running?
    ensures Run(t, base, i + j) == Run(Run(t, base, i).t, base, j)
    decreases i
  {
    hide Step;
    if i > 0 { RunOn(Step(t, base).t, base, i - 1, j); }
  }

  lemma StepKeepsEntries(t: Tib, base: int)
    requires |t.mem| == WORD32
    ensures |Step(t, base).t.es| >= |t.es|
  {
    hide Read16, Read32, Write32, Push;
    PushLength(t.es, Entry(base + Read32(t.mem, t.pc + 2), Read32(t.mem, t.pc + 6)));
  }

  /** A table of two entries never becomes one again. */
  lemma {:induction false} TwoEntriesStay(t: Tib, base: int, fuel: nat)
    requires |t.mem| == WORD32 && |t.es| >= 2
    ensures |Run(t, base, fuel).t.es| >= 2
    decreases fuel
  {
    hide Step;
    if fuel > 0 {
      StepKeepsEntries(t, base);
      if Step(t, base).Running? { TwoEntriesStay(Step(t, base).t, base, fuel - 1); }
    }
  }

  /** The first k with p + k * len at or past the end of memory, if there is one before n. */
  lemma {:induction false} FirstPast(p: word32, len: word32, n: nat) returns (k: nat)
    requires n >= 1 && p + (n - 1) * len >= WORD32
    ensures 1 <= k < n && p + k * len >= WORD32 && p + (k - 1) * len < WORD32
    decreases n
  {
    MultipleStep(n - 2, len);
    if p + (n - 2) * len < WORD32 { k := n - 1; } else { k := FirstPast(p, len, n - 1); }
  }

  /** Where the pointer runs over the end of memory, the transfer starts a second entry. */
  lemma LoopSplits(t: Tib, base: int, a: int, p: word32, len: word32, n: word32, k: nat)
    requires LoopAt(t, base, a, p, len, n, k) && 1 <= k && k * len < WORD32
    requires p + (k - 1) * len < WORD32 <= p + k * len
    ensures Step(t, base).Running? && |Step(t, base).t.es| == 2
  {
    hide Read16, Read32, Write32;
    MultipleStep(k - 1, len);
    assert Wrap(p + k * len) == p + k * len - WORD32;
  }

  ghost predicate IsOneEntry(es: seq<Entry>, ptr: int, len: int) { |es| == 1 && es[0].ptr == ptr && es[0].len == len }

  lemma TwoEntriesAfter(t: Tib, base: int, i: nat, fuel: nat)
    requires |t.mem| == WORD32 && Run(t, base, i).Running? && Run(t, base, fuel).Ended?
    requires Step(Run(t, base, i).t, base).Running? && |Step(Run(t, base, i).t, base).t.es| >= 2
    ensures |Run(t, base, fuel).t.es| >= 2
  {
    hide Step;
    var t1 := Run(t, base, i).t;
    if fuel <= i {
      EndedStays(t, base, fuel, i - fuel);
    } else {
      RunOn(t, base, i, fuel - i);
      assert Run(t1, base, fuel - i) == Run(Step(t1, base).t, base, fuel - i - 1);
      TwoEntriesStay(Step(t1, base).t, base, fuel - i - 1);
    }
  }

  lemma {:induction false} EndedStays(t: Tib, base: int, i: nat, j: nat)
    requires |t.mem| == WORD32 && Run(t, base, i).Ended?
    ensures Run(t, base, i + j) == Run(t, base, i)
    decreases i
  {
    hide Step;
    if Step(t, base).Running? { EndedStays(Step(t, base).t, base, i - 1, j); }
  }

  // ---------------------------------------------------------------- the loop ends

  /** The transfer of one turn, on any table: it is done, or the table is full. */
  lemma TurnTransfers(t: Tib, base: int, a: int, ptr: word32, len: word32, c: word32)
    requires CountedLoop(t.mem, a, ptr, len, c) && t.pc == a
    ensures var o := Step(t, base);
      if o.Running?
      then CountedLoop(o.t.mem, a, Wrap(ptr + len), len, c) && o.t.pc == a + 10 && |o.t.ops| == |t.ops| + 1
      else o.code == MEM_FULL_ERR
  {
    hide Read16, Read32, Write32, Push, Adjoins;
    WritePtr(t.mem, a, ptr, len, c, Wrap(ptr + len));
  }

  lemma NextPointer(ptr: word32, len: word32, c: nat)
    requires c >= 1
    ensures (c - 1) * len >= 0 && Wrap(Wrap(ptr + len) + (c - 1) * len) == Wrap(ptr + c * len)
  {
    MultipleStep(c - 1, len);
    QuotientRemainder(ptr + len, (c - 1) * len);
  }

  lemma QuotientRemainder(a: int, b: int)
    ensures Wrap(Wrap(a) + b) == Wrap(a + b)
  {
  }

  /** What has become of the loop with c turns to go. */
  ghost predicate LoopDone(t: Tib, a: int, ptr: word32, len: word32, c: nat, o: Outcome) {
    o.Ended? && |o.t.mem| == WORD32 &&
    (o.code == MEM_FULL_ERR ||
     (o.code == 0 && |o.t.ops| == |t.ops| + c && CountedLoop(o.t.mem, a, Wrap(ptr + c * len), len, 0)))
  }

  /** From any table the loop ends, with all its transfers done or with the table full. */
  lemma {:induction false} LoopEnds(t: Tib, base: int, a: int, ptr: word32, len: word32, c: word32)
    requires CountedLoop(t.mem, a, ptr, len, c) && t.pc == a && c >= 1
    ensures LoopDone(t, a, ptr, len, c, Run(t, base, 2 * c + 1))
    decreases c
  {
    hide Step, Read16, Read32;
    TurnTransfers(t, base, a, ptr, len, c);
    if Step(t, base).Running? {
      var ptr' := Wrap(ptr + len);
      var t1 := Step(t, base).t;
      TurnLoop(t1, base, a, ptr', len, c);
      RunTwo(t, base, 2 * (c - 1) + 1);
      NextPointer(ptr, len, c);
      if c == 1 {
        StopEnds(Step(t1, base).t, base, a, ptr', len, 0);
      } else {
        LoopEnds(Step(t1, base).t, base, a, ptr', len, c - 1);
      }
    }
  }

  /** The counted loop always ends within 2 n + 1 operations: with all n transfers done,
      the pointer in memory moved on by n * len and the counter at zero; or, which from an
      empty table takes a pointer that runs over the end of memory, with the table full. */
  lemma CountedLoopEnds(t: Tib, base: int, a: int, p: word32, len: word32, n: word32)
    requires CountedLoop(t.mem, a, p, len, n) && t.pc == a && n >= 1
    ensures var o := Run(t, base, 2 * n + 1); o.Ended? && (o.code == 0 || o.code == MEM_FULL_ERR)
    ensures var o := Run(t, base, 2 * n + 1);
      o.code == 0 ==>
        |o.t.ops| == |t.ops| + n && Read32(o.t.mem, a + 2) == Wrap(p + n * len) && Read32(o.t.mem, a + 16) == 0
    ensures t.es == [] && p + (n - 1) * len < WORD32 ==> Run(t, base, 2 * n + 1).code == 0
  {
    hide Step, Read16, Read32;
    LoopEnds(t, base, a, p, len, n);
    if t.es == [] && p + (n - 1) * len < WORD32 {
      assert 0 * len == 0;
      LoopRuns(t, base, a, p, len, n, 0);
    }
  }

  /** A pointer that runs over the end of memory leaves more than one entry. */
  lemma OverrunSplits(t: Tib, base: int, a: int, p: word32, len: word32, n: word32)
    requires CountedLoop(t.mem, a, p, len, n) && t.pc == a && t.es == [] && n >= 1
    requires p + (n - 1) * len >= WORD32 && n * len < WORD32
    ensures |Run(t, base, 2 * n + 1).t.es| >= 2
  {
    hide Step, Read16, Read32;
    LoopEnds(t, base, a, p, len, n);
    assert LoopAt(t, base, a, p, len, n, 0) by { assert 0 * len == 0; }
    var k := FirstPast(p, len, n);
    MultipleMonotone(k, n, len);
    LoopReaches(t, base, a, p, len, n, 0, k);
    hide CountedLoop;
    LoopSplits(Run(t, base, 2 * k).t, base, a, p, len, n, k);
    TwoEntriesAfter(t, base, 2 * k, 2 * n + 1);
  }

  /** The counted loop, on an empty table: it makes n transfers into one entry for the
      whole of n * len bytes, if and only if the pointer stays within memory and the
      length within 32 bits. */
  lemma CountedLoopCoalesces(t: Tib, base: int, a: int, p: word32, len: word32, n: word32)
    requires CountedLoop(t.mem, a, p, len, n) && t.pc == a && t.es == [] && n >= 1
    ensures Run(t, base, 2 * n + 1).Ended?
    ensures IsOneEntry(Run(t, base, 2 * n + 1).t.es, base + p, n * len)
      <==> p + (n - 1) * len < WORD32 && n * len < WORD32
  {
    hide Run, Read16, Read32;
    CountedLoopEnds(t, base, a, p, len, n);
    if p + (n - 1) * len < WORD32 {
      assert 0 * len == 0;
      LoopRuns(t, base, a, p, len, n, 0);
    } else if n * len < WORD32 {
      OverrunSplits(t, base, a, p, len, n);
    }
  }
}
