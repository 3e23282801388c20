/** `NQD_bitblt`: rows moved one after the other within one memory, and when that
    amounts to moving them all at once. */
module Blit {
  import opened Bytes
  import opened QuickDraw

  /** h rows of w bytes to be moved from s to d; the strides are negative from the bottom up. */
  datatype Move = Move(s: int, from: int, d: int, to: int, w: nat, h: nat)

  /** Source and destination have the same stride, as within one bitmap. */
  predicate Parallel(v: Move) { v.from == v.to }

  function From(v: Move): Rows { Rows(v.s, v.from, v.w, v.h) }

  function To(v: Move): Rows { Rows(v.d, v.to, v.w, v.h) }

  function Later(v: Move): Move
    requires v.h > 0
  {
    Move(v.s + v.from, v.from, v.d + v.to, v.to, v.w, v.h - 1)
  }

  predicate Within(v: Move, n: nat) { Inside(From(v), n) && Inside(To(v), n) }

  /** memmove */
  function RowMoved(m: seq<byte>, s: nat, d: nat, w: nat): (m': seq<byte>)
    requires s + w <= |m| && d + w <= |m|
    ensures |m'| == |m|
  {
    seq(|m|, a requires 0 <= a < |m| => if d <= a < d + w then m[s + a - d] else m[a])
  }

  /** The rows moved one after the other. */
  function Moved(m: seq<byte>, v: Move): (m': seq<byte>)
    requires Within(v, |m|)
    ensures |m'| == |m|
    decreases v.h
  {
    if v.h == 0 then m else Moved(RowMoved(m, v.s, v.d, v.w), Later(v))
  }

  /** The byte that belongs at a if all rows were moved at once: a byte of the source
      where a lies in a destination row, its own otherwise. */
  function Snapshot(m: seq<byte>, v: Move, a: nat): byte
    requires Within(v, |m|) && a < |m|
    decreases v.h
  {
    if v.h == 0 then m[a] else if v.d <= a < v.d + v.w then m[v.s + a - v.d] else Snapshot(m, Later(v), a)
  }

  /** The first row of a move, and the rest. */
  lemma FirstOf(v: Move, n: nat)
    requires Within(v, n) && v.h > 0
    ensures 0 <= v.s && v.s + v.w <= n && 0 <= v.d && v.d + v.w <= n && Within(Later(v), n)
    ensures From(Later(v)) == Rest(From(v)) && To(Later(v)) == Rest(To(v))
  {
  }

  lemma MovedFrom(m: seq<byte>, v: Move)
    requires Within(v, |m|) && v.h > 0
    ensures 0 <= v.s && 0 <= v.d && Within(Later(v), |m|)
    ensures v.s + v.w <= |m| && v.d + v.w <= |m| && Moved(m, v) == Moved(RowMoved(m, v.s, v.d, v.w), Later(v))
  {
    hide RowMoved;
  }

  lemma SnapshotFrom(m: seq<byte>, v: Move, a: nat)
    requires Within(v, |m|) && v.h > 0 && a < |m|
    ensures 0 <= v.s && v.s + v.w <= |m| && Within(Later(v), |m|)
    ensures Snapshot(m, v, a) == if v.d <= a < v.d + v.w then m[v.s + a - v.d] else Snapshot(m, Later(v), a)
  {
  }

  /** No source row still to be read lies under the row written first; delta is the
      distance from that source row up to the destination row. */
  predicate Clear(delta: int, stride: int, w: nat, h: nat)
    decreases h
  {
    h > 1 ==> (delta - stride >= w || stride - delta >= w) && Clear(delta - stride, stride, w, h - 1)
  }

  lemma {:induction false} ClearFewer(delta: int, stride: int, w: nat, h: nat)
    requires Clear(delta, stride, w, h) && h > 0
    ensures Clear(delta, stride, w, h - 1)
    decreases h
  {
    if h > 1 { ClearFewer(delta - stride, stride, w, h - 1); }
  }

  /** m1 is m with other bytes between lo and hi only, where no row of r lies. */
  ghost predicate SameOutside(m: seq<byte>, m1: seq<byte>, lo: int, hi: int) {
    |m| == |m1| && forall a :: 0 <= a < |m| && !(lo <= a < hi) ==> m1[a] == m[a]
  }

  /** The rows of v, read from a memory that differs only in the row at d. */
  lemma {:induction false} SnapshotSame(m: seq<byte>, m1: seq<byte>, v: Move, d: int, delta: int, a: nat)
    requires Within(v, |m|) && |m1| == |m| && a < |m| && Parallel(v)
    requires SameOutside(m, m1, d, d + v.w)
    requires delta == d - v.s + v.to && Clear(delta, v.to, v.w, v.h + 1)
    ensures Snapshot(m1, v, a) == Snapshot(m, v, a) || (Cover(To(v), a) == 0 && Snapshot(m1, v, a) == m1[a])
    ensures Cover(To(v), a) == 0 ==> Snapshot(m, v, a) == m[a] && Snapshot(m1, v, a) == m1[a]
    decreases v.h
  {
    if v.h > 0 {
      assert Later(v).s == v.s + v.to;
      SnapshotSame(m, m1, Later(v), d, delta - v.to, a);
      assert To(Later(v)) == Rest(To(v));
    }
  }

  lemma NothingMoved(m: seq<byte>, v: Move, a: nat)
    requires Within(v, |m|) && v.h == 0 && a < |m|
    ensures Moved(m, v) == m && Snapshot(m, v, a) == m[a]
  {
  }

  /** Rows apart and clear: moving row after row moves them all at once. */
  lemma {:induction false} MovedIsSnapshot(m: seq<byte>, v: Move, a: nat)
    requires Within(v, |m|) && a < |m| && Apart(To(v)) && Parallel(v)
    requires Clear(v.d - v.s, v.to, v.w, v.h)
    ensures Moved(m, v)[a] == Snapshot(m, v, a)
    decreases v.h
  {
    hide Within, Moved, Snapshot, Clear;
    if v.h == 0 {
      NothingMoved(m, v, a);
    } else {
      MovedFrom(m, v);
      SnapshotFrom(m, v, a);
      FirstOf(v, |m|);
      var m1 := RowMoved(m, v.s, v.d, v.w);
      ClearFewer(v.d - v.s, v.to, v.w, v.h);
      MovedIsSnapshot(m1, Later(v), a);
      SnapshotSame(m, m1, Later(v), v.d, v.d - v.s, a);
      assert To(Later(v)) == Rest(To(v));
      if v.d <= a < v.d + v.w {
        NotCoveredBehind(Rest(To(v)), a);
      }
    }
  }

  // ---------------------------------------------------------------- when it is not

  lemma {:induction false} SnapshotRow(m: seq<byte>, v: Move, k: nat, off: nat)
    requires Within(v, |m|) && Apart(To(v)) && k < v.h && off < v.w
    ensures 0 <= RowStart(From(v), k) && RowStart(From(v), k) + v.w <= |m|
    ensures 0 <= RowStart(To(v), k) && RowStart(To(v), k) + v.w <= |m|
    ensures Snapshot(m, v, RowStart(To(v), k) + off) == m[RowStart(From(v), k) + off]
    decreases v.h
  {
    hide RowStart, Inside, Snapshot, Cover;
    InsideRow(From(v), |m|, k);
    InsideRow(To(v), |m|, k);
    FirstOf(v, |m|);
    FirstRow(To(v));
    FirstRow(From(v));
    var a := RowStart(To(v), k) + off;
    SnapshotFrom(m, v, a);
    hide Within;
    if k > 0 {
      SnapshotRow(m, Later(v), k - 1, off);
      RowStartRest(To(v), k - 1);
      RowStartRest(From(v), k - 1);
      RowBehind(To(v), k, a);
    }
  }

  /** An address of a row behind the first is not in the first. */
  lemma RowBehind(r: Rows, k: nat, a: int)
    requires Apart(r) && 0 < k < r.h && RowStart(r, k) <= a < RowStart(r, k) + r.w
    ensures !(r.d <= a < r.d + r.w)
  {
    hide RowStart;
    RowStartRest(r, k - 1);
    CoverMeans(Rest(r), a);
    CoveredOnce(r, a);
  }

  /** A source row, not yet read, that overlaps the row written first. */
  lemma {:induction false} Blocked(v: Move) returns (k: nat)
    requires Parallel(v) && !Clear(v.d - v.s, v.to, v.w, v.h)
    ensures 1 <= k < v.h && v.d - RowStart(From(v), k) < v.w && RowStart(From(v), k) - v.d < v.w
    decreases v.h
  {
    if v.d - v.s - v.from < v.w && v.s + v.from - v.d < v.w {
      k := 1;
    } else {
      k := Blocked(v.(s := v.s + v.from, h := v.h - 1));
      RowStartRest(From(v), k);
      k := k + 1;
    }
  }

  lemma {:induction false} ZeroStaysZero(m: seq<byte>, v: Move, a: nat)
    requires Within(v, |m|) && a < |m| && forall x :: 0 <= x < |m| ==> m[x] == 0
    ensures Moved(m, v)[a] == 0
    decreases v.h
  {
    if v.h > 0 { ZeroStaysZero(RowMoved(m, v.s, v.d, v.w), Later(v), a); }
  }

  lemma Erased(m: seq<byte>, s: nat, d: nat, w: nat, x: nat)
    requires s + w <= |m| && d + w <= |m| && d <= x < d + w && !(s <= x < s + w)
    requires forall a :: 0 <= a < |m| ==> m[a] == if a == x then 1 else 0
    ensures forall a :: 0 <= a < |m| ==> RowMoved(m, s, d, w)[a] == 0
  {
  }

  /** Where the rows are not clear, some memory comes out wrong: the one with a single
      byte set, in the overlap. */
  lemma SomeMemoryDiffers(v: Move, n: nat) returns (m: seq<byte>, y: nat)
    requires Within(v, n) && Apart(To(v)) && Parallel(v) && !Clear(v.d - v.s, v.to, v.w, v.h)
    ensures |m| == n && y < n && Moved(m, v)[y] != Snapshot(m, v, y)
  {
    hide Snapshot, Moved, RowStart, Clear, Inside, Cover;
    var k := Blocked(v);
    InsideRow(From(v), n, k);
    InsideRow(To(v), n, k);
    FirstOf(v, n);
    hide Within;
    RowStartRest(From(v), k - 1);
    var sk := RowStart(From(v), k);
    var x := if v.d < sk then sk else v.d;
    y := RowStart(To(v), k) + x - sk;
    m := seq(n, a => if a == x then 1 else 0);
    SnapshotRow(m, v, k, x - sk);
    RowBehind(From(v), k, x);
    MovedFrom(m, v);
    Erased(m, v.s, v.d, v.w, x);
    ZeroStaysZero(RowMoved(m, v.s, v.d, v.w), Later(v), y);
  }

  /** Moving row after row moves them all at once, for every memory of n bytes, if and
      only if no source row lies under a destination row written before it is read. */
  lemma BlitExactly(v: Move, n: nat)
    requires Within(v, n) && Apart(To(v)) && Parallel(v)
    ensures (forall m: seq<byte>, a: nat :: |m| == n && a < n ==> Moved(m, v)[a] == Snapshot(m, v, a))
      <==> Clear(v.d - v.s, v.to, v.w, v.h)
  {
    if Clear(v.d - v.s, v.to, v.w, v.h) {
      forall m: seq<byte>, a: nat | |m| == n && a < n
        ensures Moved(m, v)[a] == Snapshot(m, v, a)
      {
        MovedIsSnapshot(m, v, a);
      }
    } else {
      var m, y := SomeMemoryDiffers(v, n);
    }
  }

  /** Towards lower addresses from the top, or towards higher ones from the bottom,
      the rows are always clear. */
  lemma {:induction false} AlwaysClear(delta: int, stride: int, w: nat, h: nat)
    requires (stride >= w && delta <= 0) || (-stride >= w && delta >= 0)
    ensures Clear(delta, stride, w, h)
    decreases h
  {
    if h > 1 { AlwaysClear(delta - stride, stride, w, h - 1); }
  }

  /** The blits the two branches are made for: whatever the overlap, the destination
      ends as the source was. */
  lemma SafeDirection(m: seq<byte>, v: Move, a: nat)
    requires Within(v, |m|) && a < |m| && Parallel(v)
    requires (v.to >= v.w && v.d <= v.s) || (-v.to >= v.w && v.d >= v.s)
    ensures Moved(m, v)[a] == Snapshot(m, v, a)
  {
    AlwaysClear(v.d - v.s, v.to, v.w, v.h);
    MovedIsSnapshot(m, v, a);
  }

  /** Bytes outside the destination rows keep their value, whatever overlaps. */
  lemma {:induction false} OthersKept(m: seq<byte>, v: Move, a: nat)
    requires Within(v, |m|) && a < |m| && Cover(To(v), a) == 0
    ensures Moved(m, v)[a] == m[a]
    decreases v.h
  {
    if v.h > 0 {
      assert To(Later(v)) == Rest(To(v));
      OthersKept(RowMoved(m, v.s, v.d, v.w), Later(v), a);
    }
  }

  // ---------------------------------------------------------------- between bitmaps

  /** No destination row shares a byte with a source row. */
  ghost predicate Separate(v: Move) { forall a: int :: Cover(From(v), a) > 0 ==> Cover(To(v), a) == 0 }

  /** What is to be moved is read from the source rows alone. */
  lemma {:induction false} SnapshotReads(m: seq<byte>, m1: seq<byte>, v: Move, a: nat)
    requires Within(v, |m|) && |m1| == |m| && a < |m|
    requires forall x :: 0 <= x < |m| && Cover(From(v), x) > 0 ==> m[x] == m1[x]
    ensures Snapshot(m, v, a) == Snapshot(m1, v, a) || Cover(To(v), a) == 0
    ensures Cover(To(v), a) == 0 ==> Snapshot(m, v, a) == m[a] && Snapshot(m1, v, a) == m1[a]
    decreases v.h
  {
    if v.h > 0 {
      assert From(Later(v)) == Rest(From(v)) && To(Later(v)) == Rest(To(v));
      SnapshotReads(m, m1, Later(v), a);
    }
  }

  lemma SeparateLater(v: Move)
    requires Separate(v) && v.h > 0
    ensures Separate(Later(v))
  {
    assert From(Later(v)) == Rest(From(v)) && To(Later(v)) == Rest(To(v));
    forall a: int | Cover(From(Later(v)), a) > 0
      ensures Cover(To(Later(v)), a) == 0
    {
      assert Cover(From(v), a) > 0 && Cover(To(v), a) == 0;
    }
  }

  lemma {:induction false} SeparateIsSnapshot(m: seq<byte>, v: Move, a: nat)
    requires Within(v, |m|) && a < |m| && Apart(To(v)) && Separate(v)
    ensures Moved(m, v)[a] == Snapshot(m, v, a)
    decreases v.h
  {
    hide Within, Moved, Snapshot, Separate, Cover;
    if v.h == 0 {
      NothingMoved(m, v, a);
    } else {
      MovedFrom(m, v);
      SnapshotFrom(m, v, a);
      FirstOf(v, |m|);
      SeparateLater(v);
      var m1 := RowMoved(m, v.s, v.d, v.w);
      SeparateIsSnapshot(m1, Later(v), a);
      forall x | 0 <= x < |m| && Cover(From(Later(v)), x) > 0
        ensures m[x] == m1[x]
      {
        NotUnderFirst(v, x);
      }
      SnapshotReads(m, m1, Later(v), a);
      if v.d <= a < v.d + v.w {
        NotCoveredBehind(Rest(To(v)), a);
      }
    }
  }

  lemma NotUnderFirst(v: Move, x: int)
    requires v.h > 0 && Separate(v) && Cover(From(Later(v)), x) > 0
    ensures !(v.d <= x < v.d + v.w)
  {
    assert From(Later(v)) == Rest(From(v));
    assert Cover(From(v), x) > 0;
  }

  // ---------------------------------------------------------------- the operation

  /** The move a blit makes: rectangle and size of `dst`, pixel size of `src`. From the
      top down for a positive source stride; otherwise from the bottom up, with both
      strides negated. */
  function MoveOf(src: Accel, dst: Accel): Move
    requires BytesPerPixel(src.pixelSize).Some? && RowWidth(dst.(pixelSize := src.pixelSize)) >= 0
  {
    var to := dst.(pixelSize := src.pixelSize);
    var h := if Height(dst) < 0 then 0 else Height(dst);
    if src.rowBytes > 0 then
      Move(Corner(src), src.rowBytes, Corner(to), dst.rowBytes, RowWidth(to), h)
    else
      Move(Corner(src.(rowBytes := -src.rowBytes)) + (Height(dst) - 1) * -src.rowBytes, src.rowBytes,
           Corner(to.(rowBytes := -dst.rowBytes)) + (Height(dst) - 1) * -dst.rowBytes, dst.rowBytes, RowWidth(to), h)
  }

  /** memmove on the memory. */
  method MemMove(mem: array<byte>, d: nat, s: nat, w: nat)
    requires s + w <= mem.Length && d + w <= mem.Length
    modifies mem
    ensures mem[..] == RowMoved(old(mem[..]), s, d, w)
  {
    forall i | 0 <= i < w {
      mem[d + i] := mem[s + i];
    }
  }

  /** `NQD_bitblt` */
  method Bitblt(mem: array<byte>, src: Accel, dst: Accel)
    requires BytesPerPixel(src.pixelSize).Some? && RowWidth(dst.(pixelSize := src.pixelSize)) >= 0
    requires Within(MoveOf(src, dst), mem.Length)
    modifies mem
    ensures mem[..] == Moved(old(mem[..]), MoveOf(src, dst))
  {
    hide MoveOf, RowMoved, RowWidth, BytesPerPixel;
    var v := MoveOf(src, dst);
    var s, d, i := v.s, v.d, 0;
    while i < v.h
      invariant i <= v.h && Within(Move(s, v.from, d, v.to, v.w, v.h - i), mem.Length)
      invariant Moved(mem[..], Move(s, v.from, d, v.to, v.w, v.h - i)) == Moved(old(mem[..]), v)
    {
      MemMove(mem, d, s, v.w);
      s, d, i := s + v.from, d + v.to, i + 1;
    }
  }

  /** A scroll down by one row, of two rows of four pixels in a bitmap four bytes wide. */
  const SCROLL_FROM := Accel(0, 4, 8, Rect(0, 0, 2, 4), Rect(0, 0, 4, 4))
  const SCROLL_TO := Accel(0, 4, 8, Rect(1, 0, 3, 4), Rect(0, 0, 4, 4))

  /** A scroll down by one row with positive strides is not clear. */
  lemma DownIsBlocked(v: Move, n: nat) returns (m: seq<byte>, y: nat)
    requires Within(v, n) && Parallel(v) && v.to >= v.w > 0 && v.d == v.s + v.from && v.h >= 2
    ensures !Clear(v.d - v.s, v.to, v.w, v.h)
    ensures |m| == n && y < n && Moved(m, v)[y] != Snapshot(m, v, y)
  {
    hide Within, Snapshot, Moved;
    m, y := SomeMemoryDiffers(v, n);
  }

  lemma TwoRowsInside(r: Rows, n: nat)
    requires r.h == 2 && 0 <= r.d && r.d + r.w <= n && 0 <= r.d + r.stride && r.d + r.stride + r.w <= n
    ensures Inside(r, n)
  {
    assert Rest(Rest(r)).h == 0;
  }

  lemma SmallAccel(a: Accel)
    requires a.pixelSize == 8 && a.rowBytes == 4 && a.bounds.top == a.bounds.left == a.rect.left == 0
    requires 0 <= a.rect.top <= a.rect.bottom < 100 && 0 <= a.rect.right < 100
    ensures Corner(a) == a.baseAddr + 4 * a.rect.top && RowWidth(a) == a.rect.right
    ensures Height(a) == a.rect.bottom - a.rect.top
  {
    hide Int16;
    SmallInt16(0);
    SmallInt16(a.rect.top);
    SmallInt16(a.rect.right);
    SmallInt16(a.rect.bottom - a.rect.top);
  }

  lemma ScrollMove()
    ensures MoveOf(SCROLL_FROM, SCROLL_TO) == Move(0, 4, 4, 4, 4, 2)
  {
    hide Corner, RowWidth, Height;
    SmallAccel(SCROLL_FROM);
    SmallAccel(SCROLL_TO);
    assert SCROLL_TO.(pixelSize := 8) == SCROLL_TO;
  }

  /** Positive strides take it the wrong way: some memory of three rows ends other than it
      should. */
  lemma ScrollSmears() returns (m: seq<byte>, y: nat)
    ensures var v := MoveOf(SCROLL_FROM, SCROLL_TO); v.to > 0 && !Clear(v.d - v.s, v.to, v.w, v.h)
    ensures var v := MoveOf(SCROLL_FROM, SCROLL_TO);
      |m| == 12 && y < 12 && Within(v, 12) && Moved(m, v)[y] != Snapshot(m, v, y)
  {
    hide Moved, Snapshot, Clear, Inside, MoveOf;
    var v := MoveOf(SCROLL_FROM, SCROLL_TO);
    ScrollMove();
    TwoRowsInside(From(v), 12);
    TwoRowsInside(To(v), 12);
    m, y := DownIsBlocked(v, 12);
  }
}
