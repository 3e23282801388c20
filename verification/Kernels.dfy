/** The row kernels of the QuickDraw acceleration (`do_invrect`, `do_fillrect`): an
    unrolled loop entered in the middle, over a flat byte memory. */
module Kernels {
  import opened Bytes

  /** What a kernel writes: the complement, or a colour whose four bytes are given in
      memory order; `little` tells how the host orders them. */
  datatype Pen = Invert | Fill(color: seq<byte>, little: bool)

  predicate ValidPen(p: Pen) { p.Fill? ==> |p.color| == 4 }

  /** Byte i of a cell of `size` bytes, narrower cells taking the low-order end of the colour. */
  function CellByte(p: Pen, size: nat, i: nat, was: byte): byte
    requires ValidPen(p) && i < size && size in {1, 2, 4, 8}
  {
    if p.Invert? then 255 - was
    else if size >= 4 then p.color[i % 4]
    else if p.little then p.color[i] else p.color[4 - size + i]
  }

  /** Byte k of a row of `length` bytes: cells of four bytes, then at most one of two
      and one of one byte. */
  function RowByte(p: Pen, length: nat, k: nat, was: byte): byte
    requires ValidPen(p) && k < length
  {
    var rest := length / 4 * 4;
    if k < rest then CellByte(p, 4, k % 4, was)
    else if length % 4 >= 2 && k < rest + 2 then CellByte(p, 2, k - rest, was)
    else CellByte(p, 1, 0, was)
  }

  /** The row at d, rewritten. */
  function RowDone(m: seq<byte>, p: Pen, d: nat, length: nat): (m': seq<byte>)
    requires ValidPen(p) && d + length <= |m|
    ensures |m'| == |m|
  {
    seq(|m|, a requires 0 <= a < |m| => if d <= a < d + length then RowByte(p, length, a - d, m[a]) else m[a])
  }

  /** One cell. */
  method PutCell(mem: array<byte>, p: Pen, a: nat, size: nat)
    requires ValidPen(p) && size in {1, 2, 4, 8} && a + size <= mem.Length
    modifies mem
    ensures forall x :: a <= x < a + size ==> mem[x] == CellByte(p, size, x - a, old(mem[x]))
    ensures forall x :: 0 <= x < mem.Length && !(a <= x < a + size) ==> mem[x] == old(mem[x])
  {
    var i := 0;
    while i < size
      invariant i <= size
      invariant forall x :: a <= x < a + i ==> mem[x] == CellByte(p, size, x - a, old(mem[x]))
      invariant forall x :: 0 <= x < mem.Length && !(a <= x < a + i) ==> mem[x] == old(mem[x])
    {
      mem[a + i] := CellByte(p, size, i, mem[a + i]);
      i := i + 1;
    }
  }

  /** The bytes from d to e have been rewritten in cells of eight, the others not. */
  ghost predicate WordsDone(was: seq<byte>, m: seq<byte>, p: Pen, d: nat, e: nat)
    requires ValidPen(p)
  {
    |m| == |was| && d <= e <= |m| && (e - d) % 8 == 0 &&
    (forall x :: d <= x < e ==> m[x] == CellByte(p, 8, (x - d) % 8, was[x])) &&
    (forall x :: 0 <= x < |m| && !(d <= x < e) ==> m[x] == was[x])
  }

  lemma WordStep(was: seq<byte>, m: seq<byte>, m': seq<byte>, p: Pen, d: nat, e: nat)
    requires ValidPen(p) && WordsDone(was, m, p, d, e) && |m'| == |m| && e + 8 <= |m|
    requires forall x :: e <= x < e + 8 ==> m'[x] == CellByte(p, 8, x - e, m[x])
    requires forall x :: 0 <= x < |m| && !(e <= x < e + 8) ==> m'[x] == m[x]
    ensures WordsDone(was, m', p, d, e + 8)
  {
    hide CellByte;
    forall x | d <= x < e + 8
      ensures m'[x] == CellByte(p, 8, (x - d) % 8, was[x])
    {
      if x >= e { assert (x - d) % 8 == x - e; }
    }
  }

  /** The cases k down to 1 of the switch, the row position already moved on to dest. */
  method Unrolled(mem: array<byte>, p: Pen, d: nat, dest: nat, k: nat, ghost was: seq<byte>)
    requires ValidPen(p) && 1 <= k <= 8 && d + 8 * k <= dest <= mem.Length
    requires WordsDone(was, mem[..], p, d, dest - 8 * k)
    modifies mem
    ensures WordsDone(was, mem[..], p, d, dest)
  {
    hide WordsDone, CellByte;
    var ofs := k;
    while ofs > 0
      invariant 0 <= ofs <= k
      invariant WordsDone(was, mem[..], p, d, dest - 8 * ofs)
    {
      ghost var m := mem[..];
      PutCell(mem, p, dest - 8 * ofs, 8);
      WordStep(was, m, mem[..], p, d, dest - 8 * ofs);
      ofs := ofs - 1;
    }
  }

  /** The eight-byte words of a row: the switch jumps into the unrolled loop. */
  method Words(mem: array<byte>, p: Pen, d: nat, length: nat) returns (dest: nat)
    requires ValidPen(p) && d + length <= mem.Length && length >= 8
    modifies mem
    ensures dest == d + length / 8 * 8 && WordsDone(old(mem[..]), mem[..], p, d, dest)
  {
    var r := length / 8 % 8;
    dest := d + r * 8;
    var n := (length / 8 + 7) / 8;
    var k := r;
    if r == 0 {
      dest, k := dest + 64, 8;
    }
    Unrolled(mem, p, d, dest, k, old(mem[..]));
    n := n - 1;
    while n > 0
      invariant 0 <= n && dest + 64 * n == d + length / 8 * 8
      invariant WordsDone(old(mem[..]), mem[..], p, d, dest)
    {
      dest := dest + 64;
      Unrolled(mem, p, d, dest, 8, old(mem[..]));
      n := n - 1;
    }
  }

  /** The row is rewritten up to e. */
  ghost predicate DoneTo(was: seq<byte>, m: seq<byte>, p: Pen, d: nat, length: nat, e: nat)
    requires ValidPen(p)
  {
    |m| == |was| && d <= e <= d + length <= |m| &&
    (forall x :: d <= x < e ==> m[x] == RowByte(p, length, x - d, was[x])) &&
    (forall x :: 0 <= x < |m| && !(d <= x < e) ==> m[x] == was[x])
  }

  lemma WordsAreDone(was: seq<byte>, m: seq<byte>, p: Pen, d: nat, length: nat)
    requires ValidPen(p) && d + length <= |was| && WordsDone(was, m, p, d, d + length / 8 * 8)
    ensures DoneTo(was, m, p, d, length, d + length / 8 * 8)
  {
    hide CellByte;
    var e := d + length / 8 * 8;
    WordsFit(length, length / 8, length % 8);
    forall x | d <= x < e
      ensures m[x] == RowByte(p, length, x - d, was[x])
    {
      WordIsCells(p, x - d, was[x]);
    }
  }

  lemma WordIsCells(p: Pen, k: nat, was: byte)
    requires ValidPen(p)
    ensures CellByte(p, 8, k % 8, was) == CellByte(p, 4, k % 4, was)
  {
    hide CellByte;
    FourOfEight(k, k / 8, k % 8);
    SameCell(p, k % 8, k % 4, was);
  }

  lemma SameCell(p: Pen, i: nat, j: nat, was: byte)
    requires ValidPen(p) && i < 8 && j < 4 && j == i % 4
    ensures CellByte(p, 8, i, was) == CellByte(p, 4, j, was)
  {
  }

  lemma FourOfEight(k: nat, q: nat, r: nat)
    requires k == 8 * q + r && r < 8
    ensures k % 4 == r % 4
  {
    Remainder(k, if r < 4 then 2 * q else 2 * q + 1, r % 4);
  }

  lemma Remainder(k: nat, q: nat, r: nat)
    requires k == 4 * q + r && r < 4
    ensures k % 4 == r && k / 4 == q
  {
  }

  lemma WordsFit(length: nat, q: nat, r: nat)
    requires length == 8 * q + r && r < 8
    ensures 8 * q <= length / 4 * 4 <= length
  {
    Remainder(length, if r < 4 then 2 * q else 2 * q + 1, r % 4);
  }

  /** The cell at e continues the row. */
  predicate Continues(length: nat, at: nat, size: nat) {
    if size == 4 then at % 4 == 0 && at + 4 <= length
    else if size == 2 then at == length / 4 * 4 && at + 2 <= length
    else size == 1 && at + 1 == length && at % 2 == 0
  }

  method NextCell(mem: array<byte>, p: Pen, d: nat, length: nat, e: nat, size: nat, ghost was: seq<byte>)
    requires ValidPen(p) && DoneTo(was, mem[..], p, d, length, e) && Continues(length, e - d, size)
    modifies mem
    ensures DoneTo(was, mem[..], p, d, length, e + size)
  {
    hide CellByte, RowByte, Continues;
    ghost var m := mem[..];
    CellOfRow(p, length, e - d, size, 0, 0);
    PutCell(mem, p, e, size);
    forall x | e <= x < e + size
      ensures mem[x] == RowByte(p, length, x - d, was[x])
    {
      assert m[x] == was[x];
      CellOfRow(p, length, e - d, size, x - e, was[x]);
    }
  }

  lemma CellOfRow(p: Pen, length: nat, at: nat, size: nat, i: nat, was: byte)
    requires ValidPen(p) && Continues(length, at, size)
    ensures size in {1, 2, 4} && at + size <= length
    ensures i < size ==> CellByte(p, size, i, was) == RowByte(p, length, at + i, was)
  {
    hide CellByte, RowByte;
    if i < size {
      if size == 4 {
        WideCell(p, length, at / 4, i, was);
      } else if size == 2 {
        HalfCell(p, length, length / 4, length % 4, i, was);
      } else {
        LastCell(p, length, length / 4, length % 4, was);
      }
    }
  }

  lemma WideCell(p: Pen, length: nat, t: nat, i: nat, was: byte)
    requires ValidPen(p) && i < 4 && 4 * t + 4 <= length
    ensures CellByte(p, 4, i, was) == RowByte(p, length, 4 * t + i, was)
  {
    hide CellByte;
    Remainder(4 * t + i, t, i);
  }

  lemma HalfCell(p: Pen, length: nat, q: nat, r: nat, i: nat, was: byte)
    requires ValidPen(p) && length == 4 * q + r && 2 <= r < 4 && i < 2
    ensures CellByte(p, 2, i, was) == RowByte(p, length, 4 * q + i, was)
  {
    hide CellByte;
    Remainder(length, q, r);
  }

  lemma LastCell(p: Pen, length: nat, q: nat, r: nat, was: byte)
    requires ValidPen(p) && length == 4 * q + r && (r == 1 || r == 3)
    ensures CellByte(p, 1, 0, was) == RowByte(p, length, length - 1, was)
  {
    hide CellByte;
    Remainder(length, q, r);
  }

  lemma RowIsDone(was: seq<byte>, m: seq<byte>, p: Pen, d: nat, length: nat)
    requires ValidPen(p) && DoneTo(was, m, p, d, length, d + length)
    ensures m == RowDone(was, p, d, length)
  {
  }

  lemma NothingDone(m: seq<byte>, p: Pen, d: nat, length: nat)
    requires ValidPen(p) && d + length <= |m|
    ensures DoneTo(m, m, p, d, length, d)
  {
  }

  lemma Eighth(length: nat, q: nat, r: nat)
    requires length == 8 * q + r && r < 8
    ensures length / 8 == q
  {
  }

  lemma Quarter(length: nat, q: nat, r: nat)
    requires length == 4 * q + r && r < 4
    ensures length / 4 == q
  {
  }

  /** The low bits of a length. */
  lemma LengthBits(length: nat) returns (q: nat, b4: nat, b2: nat, b1: nat)
    ensures b4 < 2 && b2 < 2 && b1 < 2 && length == 8 * q + 4 * b4 + 2 * b2 + b1
    ensures length / 8 == q && length / 4 == 2 * q + b4 && length / 2 == 4 * q + 2 * b4 + b2 && length % 2 == b1
  {
    var h := length / 2;
    b1, b2 := length % 2, h % 2;
    var f := h / 2;
    b4, q := f % 2, f / 2;
    Quarter(length, f, 2 * b2 + b1);
    Eighth(length, q, 4 * b4 + 2 * b2 + b1);
  }

  /** The cells behind the eight-byte words. */
  method DoTail(mem: array<byte>, p: Pen, d: nat, length: nat, bpp: nat, dest0: nat, ghost was: seq<byte>)
    requires ValidPen(p) && bpp in {8, 16, 32} && length % (bpp / 8) == 0
    requires dest0 == d + length / 8 * 8 && DoneTo(was, mem[..], p, d, length, dest0)
    modifies mem
    ensures DoneTo(was, mem[..], p, d, length, d + length)
  {
    hide DoneTo;
    ghost var q, b4, b2, b1 := LengthBits(length);
    ghost var e := dest0;
    var dest := dest0;
    if length / 4 % 2 == 1 {
      NextCell(mem, p, d, length, dest, 4, was);
      e := e + 4;
      if bpp <= 16 {
        dest := dest + 4;
      }
    }
    if bpp <= 16 && length / 2 % 2 == 1 {
      NextCell(mem, p, d, length, dest, 2, was);
      e := e + 2;
      if bpp <= 8 {
        dest := dest + 2;
      }
    }
    if bpp <= 8 && length % 2 == 1 {
      NextCell(mem, p, d, length, dest, 1, was);
      e := e + 1;
    }
  }

  /** `do_invrect<bpp>` and `do_fillrect<bpp>`: every byte of the row once, and no other. */
  method DoRow(mem: array<byte>, p: Pen, d: nat, length: nat, bpp: nat)
    requires ValidPen(p) && bpp in {8, 16, 32} && d + length <= mem.Length && length % (bpp / 8) == 0
    modifies mem
    ensures mem[..] == RowDone(old(mem[..]), p, d, length)
  {
    hide DoneTo, WordsDone, RowDone;
    ghost var was := mem[..];
    var dest := d;
    NothingDone(was, p, d, length);
    if length >= 8 {
      dest := Words(mem, p, d, length);
      WordsAreDone(was, mem[..], p, d, length);
    }
    DoTail(mem, p, d, length, bpp, dest, was);
    RowIsDone(was, mem[..], p, d, length);
  }
}
