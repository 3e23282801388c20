/** `find_rom_trap`: the delta-coded table of A-Trap routines in the ROM. */
module RomTrap {
  import opened Bytes

  const BLOCK: nat := 0x400
  const TOOLBOX: int := 0xa800
  const SYSTEM: int := 0xa000

  // ---------------------------------------------------------------- decoding

  /** One entry read: unimplemented, an offset, or the zero step that ends the search. */
  datatype Read = Unimplemented | At(ofs: word32) | Zero

  function Add(ofs: word32, step: int): word32 { (ofs + step) % WORD32 }

  /** A 15-bit number doubled into a signed 16-bit one. */
  function LongStep(hi: byte, lo: byte): int {
    var v := 2 * (hi as int * 0x100 + lo as int);
    if v % 0x1_0000 >= 0x8000 then v % 0x1_0000 - 0x1_0000 else v % 0x1_0000
  }

  /** The number of bytes of the entry that starts with b. */
  function EntrySize(b: byte): nat {
    if b == 0xff then 5 else if b < 0x80 then 2 else 1
  }

  /** The entry at p after the running offset ofs. */
  function ReadEntry(t: seq<byte>, p: nat, ofs: word32): Read
    requires p < |t| && p + EntrySize(t[p]) <= |t|
  {
    var b := t[p];
    if b == 0x80 then Unimplemented
    else if b == 0xff then
      At(t[p + 1] as int * 0x100_0000 + t[p + 2] as int * 0x1_0000 + t[p + 3] as int * 0x100 + t[p + 4] as int)
    else if b > 0x80 then At(Add(ofs, 2 * (b as int - 0x80)))
    else if LongStep(b, t[p + 1]) == 0 then Zero
    else At(Add(ofs, LongStep(b, t[p + 1])))
  }

  /** The outcome of a search: the routine's offset (0 if there is none), or that the
      search ran past the table. */
  datatype Search = Found(ofs: word32) | PastTable

  /** The search from position p on: k entries before the one asked for. */
  function Lookup(t: seq<byte>, p: nat, ofs: word32, k: nat): Search
    decreases k
  {
    if p >= |t| || p + EntrySize(t[p]) > |t| then PastTable
    else
      var e := ReadEntry(t, p, ofs);
      if e.Zero? then Found(0)
      else if k == 0 then Found(if e.At? then e.ofs else 0)
      else Lookup(t, p + EntrySize(t[p]), if e.At? then e.ofs else ofs, k - 1)
  }

  // ---------------------------------------------------------------- encoding

  /** The table's meaning: the offset of each trap, None where it is not implemented. */
  type Entries = List<Option<word32>>

  /** A way to write an entry. */
  datatype Code = Absent | Short(step: int) | Long(step: int) | Absolute(ofs: word32)

  predicate ValidCode(c: Code) {
    match c
    case Absent => true
    case Short(s) => 2 <= s <= 252 && s % 2 == 0
    case Long(s) => -0x8000 <= s < 0x8000 && s % 2 == 0 && s != 0
    case Absolute(_) => true
  }

  /** c is a valid way to write entry e after the running offset ofs. */
  predicate Writes(c: Code, e: Option<word32>, ofs: word32) {
    ValidCode(c) &&
    match c
    case Absent => e.None?
    case Short(s) => e == Some(Add(ofs, s))
    case Long(s) => e == Some(Add(ofs, s))
    case Absolute(o) => e == Some(o)
  }

  function CodeBytes(c: Code): (s: seq<byte>)
    requires ValidCode(c)
    ensures s != [] && |s| == EntrySize(s[0])
  {
    match c
    case Absent => [0x80]
    case Short(s) => [0x80 + s / 2]
    case Long(s) => [s / 2 % 0x8000 / 0x100, s / 2 % 0x100]
    case Absolute(o) => [0xff, o / 0x100_0000, o / 0x1_0000 % 0x100, o / 0x100 % 0x100, o % 0x100]
  }

  /** The running offset behind an entry. */
  function Behind(ofs: word32, e: Option<word32>): word32 { if e.Some? then e.value else ofs }

  /** The codes write the entries, one each. */
  predicate Table(cs: List<Code>, es: Entries, ofs: word32)
    decreases cs
  {
    if cs.Nil? then es.Nil?
    else es.Cons? && Writes(cs.head, es.head, ofs) && Table(cs.tail, es.tail, Behind(ofs, es.head))
  }

  predicate ValidCodes(cs: List<Code>) { cs.Cons? ==> ValidCode(cs.head) && ValidCodes(cs.tail) }

  function TableBytes(cs: List<Code>): seq<byte>
    requires ValidCodes(cs)
  {
    if cs.Nil? then [] else CodeBytes(cs.head) + TableBytes(cs.tail)
  }

  function Length<T>(l: List<T>): nat { if l.Nil? then 0 else 1 + Length(l.tail) }

  function Nth<T>(l: List<T>, k: nat): T
    requires k < Length(l)
  {
    if k == 0 then l.head else Nth(l.tail, k - 1)
  }

  lemma LongStepBack(s: int)
    requires -0x8000 <= s < 0x8000 && s % 2 == 0
    ensures LongStep(s / 2 % 0x8000 / 0x100, s / 2 % 0x100) == s
  {
    var h, q := s / 2, s / 2 % 0x8000;
    assert q % 0x100 == h % 0x100;
    assert q / 0x100 * 0x100 + q % 0x100 == q;
  }

  /** Reading back one entry, whichever way it was written. */
  lemma ReadCode(t: seq<byte>, p: nat, c: Code, e: Option<word32>, ofs: word32)
    requires Writes(c, e, ofs) && p + |CodeBytes(c)| <= |t| && t[p..p + |CodeBytes(c)|] == CodeBytes(c)
    ensures EntrySize(t[p]) == |CodeBytes(c)|
    ensures ReadEntry(t, p, ofs) == if e.Some? then At(e.value) else Unimplemented
  {
    hide LongStep, Add;
    var s := CodeBytes(c);
    assert t[p] == t[p..p + |s|][0] == s[0];
    match c {
      case Absent =>
      case Short(step) =>
      case Long(step) =>
        assert t[p + 1] == t[p..p + |s|][1] == s[1];
        LongStepBack(step);
      case Absolute(o) =>
        assert t[p + 1] == t[p..p + |s|][1] == s[1] && t[p + 2] == t[p..p + |s|][2] == s[2];
        assert t[p + 3] == t[p..p + |s|][3] == s[3] && t[p + 4] == t[p..p + |s|][4] == s[4];
        BytesOfWord(o);
    }
  }

  lemma {:induction false} TableValid(cs: List<Code>, es: Entries, ofs: word32)
    requires Table(cs, es, ofs)
    ensures ValidCodes(cs) && Length(cs) == Length(es)
    decreases cs
  {
    if cs.Cons? { TableValid(cs.tail, es.tail, Behind(ofs, es.head)); }
  }

  lemma Split(t: seq<byte>, p: nat, a: seq<byte>, b: seq<byte>)
    requires p + |a| + |b| <= |t| && t[p..p + |a| + |b|] == a + b
    ensures t[p..p + |a|] == a && t[p + |a|..p + |a| + |b|] == b
  {
    assert t[p..p + |a|] == t[p..p + |a| + |b|][..|a|];
    assert t[p + |a|..p + |a| + |b|] == t[p..p + |a| + |b|][|a|..];
  }

  /** Looking up entry k of a written table, anywhere in memory, gives that entry. */
  lemma {:induction false} LookupWritten(t: seq<byte>, p: nat, ofs: word32, cs: List<Code>, es: Entries, k: nat)
    requires Table(cs, es, ofs) && ValidCodes(cs) && k < Length(es)
    requires p + |TableBytes(cs)| <= |t| && t[p..p + |TableBytes(cs)|] == TableBytes(cs)
    ensures Lookup(t, p, ofs, k) == Found(if Nth(es, k).Some? then Nth(es, k).value else 0)
    decreases k
  {
    hide ReadEntry, CodeBytes, Writes;
    var c, rest := CodeBytes(cs.head), TableBytes(cs.tail);
    Split(t, p, c, rest);
    ReadCode(t, p, cs.head, es.head, ofs);
    if k > 0 {
      LookupWritten(t, p + |c|, Behind(ofs, es.head), cs.tail, es.tail, k - 1);
    }
  }

  /** Every list of entries can be written: the shortest code that fits. */
  function Encode(es: Entries, ofs: word32): (cs: List<Code>)
    ensures Table(cs, es, ofs)
    decreases es
  {
    if es.Nil? then Nil else Cons(Shortest(es.head, ofs), Encode(es.tail, Behind(ofs, es.head)))
  }

  function Shortest(e: Option<word32>, ofs: word32): (c: Code)
    ensures Writes(c, e, ofs)
  {
    match e
    case None => Absent
    case Some(o) =>
      var up := (o - ofs) % WORD32;
      var step := if up >= 0x8000_0000 then up - WORD32 else up;
      if step % 2 == 0 && 2 <= step <= 252 then Short(step)
      else if step % 2 == 0 && -0x8000 <= step < 0x8000 && step != 0 then Long(step)
      else Absolute(o)
  }

  // ---------------------------------------------------------------- the search

  /** The entry of a trap: the toolbox block comes first, the system block after it. */
  function Index(trap: nat): Option<nat> {
    if TOOLBOX <= trap < TOOLBOX + BLOCK then Some(trap - TOOLBOX)
    else if SYSTEM <= trap < SYSTEM + BLOCK then Some(BLOCK + trap - SYSTEM)
    else None
  }

  /** The step of the running offset that an entry makes. */
  method NextEntry(rom: array<byte>, bp0: nat, ofs0: word32)
      returns (bp: nat, ofs: word32, unimplemented: bool, zero: bool)
    requires bp0 < rom.Length && bp0 + EntrySize(rom[bp0]) <= rom.Length
    ensures bp == bp0 + EntrySize(rom[bp0])
    ensures ReadEntry(rom[..], bp0, ofs0) == if zero then Zero else if unimplemented then Unimplemented else At(ofs)
    ensures !zero && unimplemented ==> ofs == ofs0
  {
    ofs, unimplemented, zero := ofs0, false, false;
    var b := rom[bp0];
    bp := bp0 + 1;
    if b == 0x80 {
      unimplemented := true;
    } else if b == 0xff {
      ofs := rom[bp] as int * 0x100_0000 + rom[bp + 1] as int * 0x1_0000
             + rom[bp + 2] as int * 0x100 + rom[bp + 3] as int;
      bp := bp + 4;
    } else if b >= 0x80 {
      ofs := Add(ofs, 2 * (b as int - 0x80));
    } else {
      var add := LongStep(b, rom[bp]);
      bp := bp + 1;
      if add == 0 {
        zero := true;
      } else {
        ofs := Add(ofs, add);
      }
    }
  }

  /** `find_rom_trap` with the table at `start` of the ROM. Behind the system block the
      program takes further entries for the system block again, so that a trap of
      neither block is searched for until a zero step. */
  method FindRomTrap(rom: array<byte>, start: nat, trap: nat) returns (r: Search)
    ensures Index(trap).Some? ==> r == Lookup(rom[..], start, 0, Index(trap).value)
    ensures Index(trap).None? ==> r == PastTable || r == Found(0)
  {
    hide ReadEntry;
    var bp, ofs: word32, i, romTrap := start, 0, 0, TOOLBOX;
    ghost var n, first := 0, true;
    while bp < rom.Length && bp + EntrySize(rom[bp]) <= rom.Length
      invariant 0 <= i <= BLOCK && romTrap == (if first then TOOLBOX else SYSTEM) + i
      invariant first ==> n == i
      invariant Index(trap).Some? ==> n <= Index(trap).value && (first || n == BLOCK + i)
      invariant Index(trap).Some? ==>
        Lookup(rom[..], start, 0, Index(trap).value) == Lookup(rom[..], bp, ofs, Index(trap).value - n)
      decreases rom.Length - bp
    {
      if i == BLOCK {
        romTrap, i := SYSTEM, 0;
        first := false;
      }
      var unimplemented, zero;
      bp, ofs, unimplemented, zero := NextEntry(rom, bp, ofs);
      if zero {
        return Found(0);
      }
      if romTrap == trap {
        return Found(if unimplemented then 0 else ofs);
      }
      romTrap, i := romTrap + 1, i + 1;
      n := n + 1;
    }
    r := PastTable;
  }

  /** A written table of 2048 entries is searched correctly: any toolbox trap 0xa800 to 0xabff
      and any system trap 0xa000 to 0xa3ff, the former first, gives its offset, or 0 if it is
      not implemented; there are no other traps. */
  lemma TableIsSearched(rom: seq<byte>, start: nat, cs: List<Code>, es: Entries, trap: nat)
    requires Table(cs, es, 0) && ValidCodes(cs) && Length(es) == 2048
    requires start + |TableBytes(cs)| <= |rom| && rom[start..start + |TableBytes(cs)|] == TableBytes(cs)
    ensures Index(trap).Some? <==> 0xa800 <= trap <= 0xabff || 0xa000 <= trap <= 0xa3ff
    ensures Index(trap).Some? ==>
      var e := Nth(es, if trap >= 0xa800 then trap - 0xa800 else 1024 + trap - 0xa000);
      Lookup(rom, start, 0, Index(trap).value) == Found(if e.Some? then e.value else 0)
  {
    if Index(trap).Some? {
      LookupWritten(rom, start, 0, cs, es, Index(trap).value);
    }
  }

  /** Encoding and searching are inverse: every list of 2048 entries has a table that
      the search reads back, trap by trap. */
  lemma EncodedTableIsSearched(rom: seq<byte>, start: nat, es: Entries, trap: nat)
    requires Length(es) == 2048 && (0xa800 <= trap <= 0xabff || 0xa000 <= trap <= 0xa3ff)
    requires ValidCodes(Encode(es, 0)) && start <= |rom| && TableBytes(Encode(es, 0)) <= rom[start..]
    ensures Index(trap).Some?
    ensures var e := Nth(es, if trap >= 0xa800 then trap - 0xa800 else 1024 + trap - 0xa000);
      Lookup(rom, start, 0, Index(trap).value) == Found(if e.Some? then e.value else 0)
  {
    var cs := Encode(es, 0);
    assert rom[start..start + |TableBytes(cs)|] == rom[start..][..|TableBytes(cs)|];
    TableIsSearched(rom, start, cs, es, trap);
  }
}
