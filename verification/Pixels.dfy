/** The QuickDraw operations seen from the bitmap: which pixels they change, and to what. */
module Pixels {
  import opened Bytes
  import opened Kernels
  import opened QuickDraw
  import opened Blit

  /** Where pixel (x, y) of a bitmap starts that holds the rectangle `bounds`: rows of
      `stride` bytes, `bpp` bytes a pixel. */
  function Place(baseAddr: nat, stride: int, bounds: Rect, bpp: nat, x: int, y: int): int {
    baseAddr + (y - bounds.top) * stride + (x - bounds.left) * bpp
  }

  predicate InRect(r: Rect, x: int, y: int) { r.left <= x < r.right && r.top <= y < r.bottom }

  /** The pixel lies in a row of the bitmap. */
  predicate InRow(bounds: Rect, stride: int, bpp: nat, x: int) {
    bounds.left <= x && (x + 1 - bounds.left) * bpp <= stride
  }

  /** The bytes of a pixel at the depths there are. */
  predicate Depth(pixelSize: nat, bpp: nat) {
    (pixelSize == 8 && bpp == 1) || (pixelSize in {15, 16} && bpp == 2) || (pixelSize in {24, 32} && bpp == 4)
  }

  /** A rectangle within its bitmap, of a size that 16 bits can express. */
  predicate Ordinary(rect: Rect, bounds: Rect, stride: int, bpp: nat) {
    && bounds.left <= rect.left <= rect.right && bounds.top <= rect.top <= rect.bottom
    && rect.right - bounds.left < 0x8000 && rect.bottom - bounds.top < 0x8000
    && (rect.right - rect.left) * bpp < 0x8000 && 0 < stride && (rect.right - bounds.left) * bpp <= stride
  }

  lemma Multiplied(a: int, b: int, c: int)
    ensures (a + b) * c == a * c + b * c && (a - b) * c == a * c - b * c
  {
  }

  lemma AtMost(a: int, b: int, c: int)
    requires a <= b && c >= 0
    ensures a * c <= b * c
  {
  }

  /** The rectangle of an operation, in bytes. */
  lemma Measured(a: Accel, stride: int, bpp: nat)
    requires Depth(a.pixelSize, bpp) && Ordinary(a.rect, a.bounds, stride, bpp)
    ensures BytesPerPixel(a.pixelSize) == Some(bpp)
    ensures RowWidth(a) == (a.rect.right - a.rect.left) * bpp >= 0 && Height(a) == a.rect.bottom - a.rect.top
    ensures a.rowBytes == stride ==> Corner(a) == Place(a.baseAddr, stride, a.bounds, bpp, a.rect.left, a.rect.top)
  {
    AtMost(0, a.rect.right - a.rect.left, bpp);
    SmallInt16(a.rect.right - a.rect.left);
    SmallInt16((a.rect.right - a.rect.left) * bpp);
    SmallInt16(a.rect.bottom - a.rect.top);
    SmallInt16(a.rect.top - a.bounds.top);
    SmallInt16(a.rect.left - a.bounds.left);
    hide Int16;
  }

  /** Row i of the rectangle, in either order. */
  ghost predicate RowsAre(r: Rows, baseAddr: nat, stride: int, bounds: Rect, rect: Rect, bpp: nat, down: bool)
    requires r.h == rect.bottom - rect.top
  {
    r.w == (rect.right - rect.left) * bpp &&
    forall i :: 0 <= i < r.h ==>
      RowStart(r, i)
      == Place(baseAddr, stride, bounds, bpp, rect.left, if down then rect.top + i else rect.bottom - 1 - i)
  }

  lemma Apart1(n: int, stride: int, u: int)
    requires stride > 0 && 0 <= u < stride && 0 <= n * stride + u < stride
    ensures n == 0
  {
    if n >= 1 { AtMost(1, n, stride); }
    if n <= -1 { AtMost(n, -1, stride); }
  }

  /** A byte of pixel (x, y) lies in the row for y0 exactly if y is y0 and x is in the
      rectangle. */
  lemma ByteInRow(baseAddr: nat, stride: int, bounds: Rect, rect: Rect, bpp: nat, x: int, y: int, b: nat, y0: int)
    requires bpp > 0 && Ordinary(rect, bounds, stride, bpp) && InRow(bounds, stride, bpp, x) && b < bpp
    ensures var q := Place(baseAddr, stride, bounds, bpp, x, y) + b;
      var s := Place(baseAddr, stride, bounds, bpp, rect.left, y0);
      s <= q < s + (rect.right - rect.left) * bpp <==> y == y0 && rect.left <= x < rect.right
  {
    var l, u, v := x - bounds.left, (x - bounds.left) * bpp + b, (rect.left - bounds.left) * bpp;
    var w := (rect.right - rect.left) * bpp;
    var q := Place(baseAddr, stride, bounds, bpp, x, y) + b;
    var s := Place(baseAddr, stride, bounds, bpp, rect.left, y0);
    Multiplied(y - bounds.top, y0 - bounds.top, stride);
    assert q - s == (y - y0) * stride + u - v;
    Multiplied(rect.left - bounds.left, rect.right - rect.left, bpp);
    assert v + w == (rect.right - bounds.left) * bpp <= stride;
    AtMost(0, rect.left - bounds.left, bpp);
    AtMost(0, l, bpp);
    Multiplied(l, 1, bpp);
    assert 0 <= u < stride && 0 <= v;
    if s <= q < s + w {
      Apart1(y - y0, stride, u);
    }
    InColumns(x, rect, bounds, bpp, b);
  }

  lemma InColumns(x: int, rect: Rect, bounds: Rect, bpp: nat, b: nat)
    requires b < bpp
    ensures var u, v := (x - bounds.left) * bpp + b, (rect.left - bounds.left) * bpp;
      v <= u < v + (rect.right - rect.left) * bpp <==> rect.left <= x < rect.right
  {
    var k, n := x - rect.left, rect.right - rect.left;
    Multiplied(x - bounds.left, rect.left - bounds.left, bpp);
    assert (x - bounds.left) * bpp - (rect.left - bounds.left) * bpp == k * bpp;
    if k < 0 { AtMost(k, -1, bpp); } else { AtMost(0, k, bpp); }
    if k < n {
      AtMost(k + 1, n, bpp);
      Multiplied(k, 1, bpp);
    } else {
      AtMost(n, k, bpp);
    }
  }

  /** The rows cover the pixels of the rectangle and no others. */
  lemma CoversRect(r: Rows, baseAddr: nat, stride: int, bounds: Rect, rect: Rect, bpp: nat, down: bool,
                   x: int, y: int, b: nat)
    requires bpp > 0 && Ordinary(rect, bounds, stride, bpp) && r.h == rect.bottom - rect.top
    requires RowsAre(r, baseAddr, stride, bounds, rect, bpp, down)
    requires InRow(bounds, stride, bpp, x) && b < bpp
    ensures Cover(r, Place(baseAddr, stride, bounds, bpp, x, y) + b) > 0 <==> InRect(rect, x, y)
  {
    hide Ordinary, Place, InRow, RowStart;
    var q := Place(baseAddr, stride, bounds, bpp, x, y) + b;
    CoverMeans(r, q);
    forall i | 0 <= i < r.h
      ensures RowStart(r, i) <= q < RowStart(r, i) + r.w
        <==> y == (if down then rect.top + i else rect.bottom - 1 - i) && rect.left <= x < rect.right
    {
      ByteInRow(baseAddr, stride, bounds, rect, bpp, x, y, b, if down then rect.top + i else rect.bottom - 1 - i);
    }
    if InRect(rect, x, y) {
      var i := if down then y - rect.top else rect.bottom - 1 - y;
      assert RowStart(r, i) <= q < RowStart(r, i) + r.w;
    }
  }

  // ---------------------------------------------------------------- inversion and filling

  lemma RowsTopDown(a: Accel, stride: int, bpp: nat)
    requires Depth(a.pixelSize, bpp) && Ordinary(a.rect, a.bounds, stride, bpp) && a.rowBytes == stride
    ensures BytesPerPixel(a.pixelSize) == Some(bpp) && RowWidth(a) >= 0
    ensures RowsOf(a).h == a.rect.bottom - a.rect.top && RowsOf(a).stride == stride && Apart(RowsOf(a))
    ensures RowsAre(RowsOf(a), a.baseAddr, stride, a.bounds, a.rect, bpp, true)
  {
    Measured(a, stride, bpp);
    hide Corner, RowWidth, Height;
    forall i | 0 <= i < RowsOf(a).h
      ensures RowStart(RowsOf(a), i) == Place(a.baseAddr, stride, a.bounds, bpp, a.rect.left, a.rect.top + i)
    {
      Multiplied(a.rect.top - a.bounds.top, i, stride);
    }
    Multiplied(a.rect.left - a.bounds.left, a.rect.right - a.rect.left, bpp);
    AtMost(0, a.rect.left - a.bounds.left, bpp);
  }

  /** Inversion complements every byte of the pixels of the rectangle and no byte of any other
      pixel of the bitmap. */
  lemma InvertsRect(m: seq<byte>, a: Accel, bpp: nat, x: int, y: int, b: nat)
    requires Depth(a.pixelSize, bpp) && Ordinary(a.rect, a.bounds, a.rowBytes, bpp) && Drawable(a, |m|)
    requires InRow(a.bounds, a.rowBytes, bpp, x) && b < bpp
    requires 0 <= Place(a.baseAddr, a.rowBytes, a.bounds, bpp, x, y) + b < |m|
    ensures var q := Place(a.baseAddr, a.rowBytes, a.bounds, bpp, x, y) + b;
      Drawn(m, Invert, RowsOf(a))[q] == if InRect(a.rect, x, y) then 255 - m[q] else m[q]
  {
    hide *;
    RowsTopDown(a, a.rowBytes, bpp);
    DrawableRows(a, |m|);
    DepthBytes(a.pixelSize, bpp);
    CoversRect(RowsOf(a), a.baseAddr, a.rowBytes, a.bounds, a.rect, bpp, true, x, y, b);
    InvertExactly(m, RowsOf(a), Place(a.baseAddr, a.rowBytes, a.bounds, bpp, x, y) + b);
  }

  lemma DrawableRows(a: Accel, n: nat)
    requires Drawable(a, n)
    ensures Inside(RowsOf(a), n)
  {
  }

  lemma DepthBytes(pixelSize: nat, bpp: nat)
    requires Depth(pixelSize, bpp)
    ensures bpp in {1, 2, 4}
  {
  }

  /** Filling leaves every other pixel of the bitmap alone; and with a pen that fits, the
      pixels of the rectangle are the pen. */
  lemma FillsRect(m: seq<byte>, a: Accel, bpp: nat, color: seq<byte>, little: bool, x: int, y: int, b: nat)
    requires |color| == 4
    requires Depth(a.pixelSize, bpp) && Ordinary(a.rect, a.bounds, a.rowBytes, bpp) && Drawable(a, |m|)
    requires InRow(a.bounds, a.rowBytes, bpp, x) && b < bpp
    requires 0 <= Place(a.baseAddr, a.rowBytes, a.bounds, bpp, x, y) + b < |m|
    ensures var q := Place(a.baseAddr, a.rowBytes, a.bounds, bpp, x, y);
      var m' := Drawn(m, FillPen(color, little, bpp), RowsOf(a));
      if !InRect(a.rect, x, y) then m'[q + b] == m[q + b]
      else (PenFits(color, little, bpp, RowWidth(a)) ==> IsPen(m', q, color, bpp))
  {
    hide *;
    RowsTopDown(a, a.rowBytes, bpp);
    DrawableRows(a, |m|);
    DepthBytes(a.pixelSize, bpp);
    var r, p, q := RowsOf(a), FillPen(color, little, bpp), Place(a.baseAddr, a.rowBytes, a.bounds, bpp, x, y);
    CoversRect(r, a.baseAddr, a.rowBytes, a.bounds, a.rect, bpp, true, x, y, b);
    FillPenFills(color, little, bpp);
    FillExactly(m, p, r, q + b);
    if InRect(a.rect, x, y) && PenFits(color, little, bpp, RowWidth(a)) {
      FilledPixel(m, a, bpp, color, little, x, y);
    }
  }

  lemma FilledPixel(m: seq<byte>, a: Accel, bpp: nat, color: seq<byte>, little: bool, x: int, y: int)
    requires |color| == 4
    requires Depth(a.pixelSize, bpp) && Ordinary(a.rect, a.bounds, a.rowBytes, bpp) && Drawable(a, |m|)
    requires InRect(a.rect, x, y) && PenFits(color, little, bpp, RowWidth(a))
    ensures bpp <= 4 && IsPen(Drawn(m, FillPen(color, little, bpp), RowsOf(a)),
                              Place(a.baseAddr, a.rowBytes, a.bounds, bpp, x, y), color, bpp)
  {
    hide *;
    RowsTopDown(a, a.rowBytes, bpp);
    DrawableRows(a, |m|);
    DepthBytes(a.pixelSize, bpp);
    PixelOfRow(a, bpp, x, y);
    FillSetsPen(m, color, little, bpp, RowsOf(a));
    APixel(Drawn(m, FillPen(color, little, bpp), RowsOf(a)), RowsOf(a), color, bpp, y - a.rect.top, x - a.rect.left);
  }

  lemma FillPenFills(color: seq<byte>, little: bool, bpp: nat)
    requires |color| == 4
    ensures FillPen(color, little, bpp).Fill?
  {
  }

  lemma APixel(m: seq<byte>, r: Rows, color: seq<byte>, bpp: nat, i: nat, j: nat)
    requires |color| == 4 && bpp <= 4 && AllPen(m, r, color, bpp) && i < r.h && bpp * j + bpp <= r.w
    ensures IsPen(m, PixelStart(r, i, j, bpp), color, bpp)
  {
  }

  /** A pixel of the rectangle by its row and column there. */
  lemma PixelOfRow(a: Accel, bpp: nat, x: int, y: int)
    requires Depth(a.pixelSize, bpp) && Ordinary(a.rect, a.bounds, a.rowBytes, bpp) && InRect(a.rect, x, y)
    ensures BytesPerPixel(a.pixelSize) == Some(bpp) && RowWidth(a) >= 0
    ensures var r := RowsOf(a); var i, j := y - a.rect.top, x - a.rect.left;
      0 <= i < r.h && 0 <= j && bpp * j + bpp <= r.w == RowWidth(a) && r.w > 0 && r.w % bpp == 0 &&
      PixelStart(r, i, j, bpp) == Place(a.baseAddr, a.rowBytes, a.bounds, bpp, x, y)
  {
    RowsTopDown(a, a.rowBytes, bpp);
    Measured(a, a.rowBytes, bpp);
    WholePixels(a);
    Multiplied(x - a.rect.left, 1, bpp);
    AtMost(x - a.rect.left + 1, a.rect.right - a.rect.left, bpp);
    AtMost(0, x - a.rect.left, bpp);
    Multiplied(a.rect.left - a.bounds.left, x - a.rect.left, bpp);
    hide RowStart, RowWidth, Height, Corner;
    var r := RowsOf(a);
    assert RowStart(r, y - a.rect.top) == Place(a.baseAddr, a.rowBytes, a.bounds, bpp, a.rect.left, y);
  }

  // ---------------------------------------------------------------- blitting

  /** The rows from a corner on: downwards, or upwards from the last one. */
  lemma RowsFrom(r: Rows, baseAddr: nat, stride: int, bounds: Rect, rect: Rect, bpp: nat, down: bool)
    requires r.h == rect.bottom - rect.top && r.w == (rect.right - rect.left) * bpp
    requires r.stride == if down then stride else -stride
    requires var c := Place(baseAddr, stride, bounds, bpp, rect.left, rect.top);
      r.d == if down then c else c + (rect.bottom - rect.top - 1) * stride
    ensures RowsAre(r, baseAddr, stride, bounds, rect, bpp, down)
  {
    forall i | 0 <= i < r.h
      ensures RowStart(r, i)
        == Place(baseAddr, stride, bounds, bpp, rect.left, if down then rect.top + i else rect.bottom - 1 - i)
    {
      var y := rect.top - bounds.top;
      if down {
        Multiplied(y, i, stride);
      } else {
        Multiplied(y, r.h - 1, stride);
        Multiplied(y + r.h - 1, i, stride);
        assert i * -stride == -(i * stride);
        assert y + r.h - 1 - i == rect.bottom - 1 - i - bounds.top;
      }
    }
  }

  /** The rectangle of the source: as large as that of the destination. */
  function SourceRect(src: Accel, dst: Accel): Rect {
    var s, d := src.rect, dst.rect;
    Rect(s.top, s.left, s.top + (d.bottom - d.top), s.left + (d.right - d.left))
  }

  /** The distance between the rows of a bitmap: its row bytes, negated where the source's
      are not positive. */
  function Stride(a: Accel, src: Accel): int { if src.rowBytes > 0 then a.rowBytes else -a.rowBytes }

  /** A blit between two bitmaps of one depth, rectangles within both. */
  ghost predicate OrdinaryBlit(src: Accel, dst: Accel, bpp: nat) {
    Depth(src.pixelSize, bpp) && Ordinary(dst.rect, dst.bounds, Stride(dst, src), bpp) &&
    Ordinary(SourceRect(src, dst), src.bounds, Stride(src, src), bpp)
  }

  lemma CornerIs(a: Accel, rect: Rect, stride: int, bpp: nat)
    requires Depth(a.pixelSize, bpp) && Ordinary(rect, a.bounds, stride, bpp) && a.rowBytes == stride
    requires a.rect.left == rect.left && a.rect.top == rect.top
    ensures BytesPerPixel(a.pixelSize) == Some(bpp)
    ensures Corner(a) == Place(a.baseAddr, stride, a.bounds, bpp, rect.left, rect.top)
  {
    SmallInt16(rect.top - a.bounds.top);
    SmallInt16(rect.left - a.bounds.left);
    hide Int16;
  }

  /** In either direction the move is that of the two rectangles, row for row. */
  lemma BlitRows(src: Accel, dst: Accel, bpp: nat)
    requires OrdinaryBlit(src, dst, bpp)
    ensures BytesPerPixel(src.pixelSize) == Some(bpp) && RowWidth(dst.(pixelSize := src.pixelSize)) >= 0
    ensures var v, down := MoveOf(src, dst), src.rowBytes > 0;
      v.h == dst.rect.bottom - dst.rect.top && v.w == (dst.rect.right - dst.rect.left) * bpp &&
      v.to == dst.rowBytes && v.from == src.rowBytes &&
      RowsAre(To(v), dst.baseAddr, Stride(dst, src), dst.bounds, dst.rect, bpp, down) &&
      RowsAre(From(v), src.baseAddr, Stride(src, src), src.bounds, SourceRect(src, dst), bpp, down)
  {
    var to, down := dst.(pixelSize := src.pixelSize), src.rowBytes > 0;
    Measured(to, Stride(dst, src), bpp);
    Heights(dst, src);
    CornerIs(to.(rowBytes := Stride(dst, src)), dst.rect, Stride(dst, src), bpp);
    CornerIs(src.(rowBytes := Stride(src, src)), SourceRect(src, dst), Stride(src, src), bpp);
    hide Corner, RowWidth, Height, Place, Ordinary, RowsAre;
    var v := MoveOf(src, dst);
    if down {
      assert to.(rowBytes := Stride(dst, src)) == to && src.(rowBytes := Stride(src, src)) == src;
    }
    RowsFrom(To(v), dst.baseAddr, Stride(dst, src), dst.bounds, dst.rect, bpp, down);
    RowsFrom(From(v), src.baseAddr, Stride(src, src), src.bounds, SourceRect(src, dst), bpp, down);
  }

  lemma Heights(dst: Accel, src: Accel)
    ensures Height(dst) == Height(dst.(pixelSize := src.pixelSize))
  {
  }

  /** The rows are moved as if all at once: their bitmaps do not share a byte; or both have
      the same stride and no row is overwritten before it is read. */
  ghost predicate AtOnce(v: Move) { Separate(v) || (Parallel(v) && Clear(v.d - v.s, v.to, v.w, v.h)) }

  lemma BlitApart(src: Accel, dst: Accel, bpp: nat)
    requires OrdinaryBlit(src, dst, bpp)
    ensures BytesPerPixel(src.pixelSize) == Some(bpp) && RowWidth(dst.(pixelSize := src.pixelSize)) >= 0
    ensures Apart(To(MoveOf(src, dst)))
  {
    BlitRows(src, dst, bpp);
    Multiplied(dst.rect.left - dst.bounds.left, dst.rect.right - dst.rect.left, bpp);
    AtMost(0, dst.rect.left - dst.bounds.left, bpp);
    hide MoveOf, RowsAre;
  }

  /** A blit, in either direction: every byte of a pixel (x, y) of the destination rectangle
      becomes the same byte of the pixel that stood at the same place of the source rectangle. */
  lemma BlitsPixel(m: seq<byte>, src: Accel, dst: Accel, bpp: nat, x: int, y: int, b: nat)
    requires OrdinaryBlit(src, dst, bpp) && InRect(dst.rect, x, y) && b < bpp
    ensures BytesPerPixel(src.pixelSize) == Some(bpp) && RowWidth(dst.(pixelSize := src.pixelSize)) >= 0
    ensures Within(MoveOf(src, dst), |m|) && AtOnce(MoveOf(src, dst)) ==>
      var to := Place(dst.baseAddr, Stride(dst, src), dst.bounds, bpp, x, y) + b;
      var from := Place(src.baseAddr, Stride(src, src), src.bounds, bpp,
                        src.rect.left + (x - dst.rect.left), src.rect.top + (y - dst.rect.top)) + b;
      0 <= to < |m| && 0 <= from < |m| && Moved(m, MoveOf(src, dst))[to] == m[from]
  {
    hide *;
    BlitRows(src, dst, bpp);
    BlitApart(src, dst, bpp);
    var v, rect, size := MoveOf(src, dst), dst.rect, SourceRect(src, dst);
    var k := if src.rowBytes > 0 then y - rect.top else rect.bottom - 1 - y;
    Column(rect, bpp, x, y, b);
    SizeIs(src, dst);
    SameRows(v);
    if Within(v, |m|) && AtOnce(v) {
      PixelInRow(To(v), dst.baseAddr, Stride(dst, src), dst.bounds, rect, bpp, src.rowBytes > 0, x, y, b);
      PixelInRow(From(v), src.baseAddr, Stride(src, src), src.bounds, size, bpp, src.rowBytes > 0,
                 size.left + (x - rect.left), size.top + (y - rect.top), b);
      MovedByte(m, v, k, (x - rect.left) * bpp + b);
    }
  }

  lemma Column(rect: Rect, bpp: nat, x: int, y: int, b: nat)
    requires InRect(rect, x, y) && b < bpp
    ensures rect.left <= x < rect.right && rect.top <= y < rect.bottom
    ensures 0 <= (x - rect.left) * bpp + b < (rect.right - rect.left) * bpp
  {
    InColumn(x - rect.left, rect.right - rect.left, bpp, b);
  }

  lemma SizeIs(src: Accel, dst: Accel)
    ensures var size, rect := SourceRect(src, dst), dst.rect;
      size.left == src.rect.left && size.top == src.rect.top && size.bottom - size.top == rect.bottom - rect.top &&
      size.right - size.left == rect.right - rect.left
  {
  }

  lemma SameRows(v: Move)
    ensures To(v).h == From(v).h == v.h
  {
  }

  lemma PixelInRow(r: Rows, baseAddr: nat, stride: int, bounds: Rect, rect: Rect, bpp: nat, down: bool,
                   x: int, y: int, b: nat)
    requires r.h == rect.bottom - rect.top && RowsAre(r, baseAddr, stride, bounds, rect, bpp, down)
    requires rect.top <= y < rect.bottom
    ensures RowStart(r, if down then y - rect.top else rect.bottom - 1 - y) + ((x - rect.left) * bpp + b)
      == Place(baseAddr, stride, bounds, bpp, x, y) + b
  {
    hide Place, RowStart;
    PlaceRight(baseAddr, stride, bounds, bpp, rect.left, x, y);
  }

  lemma MovedByte(m: seq<byte>, v: Move, k: nat, off: nat)
    requires Within(v, |m|) && Apart(To(v)) && AtOnce(v) && k < v.h && off < v.w
    ensures var to, from := RowStart(To(v), k) + off, RowStart(From(v), k) + off;
      0 <= to < |m| && 0 <= from < |m| && Moved(m, v)[to] == m[from]
  {
    SnapshotRow(m, v, k, off);
    AtOnceMoves(m, v, RowStart(To(v), k) + off);
    hide *;
  }

  lemma AtOnceMoves(m: seq<byte>, v: Move, a: nat)
    requires Within(v, |m|) && a < |m| && Apart(To(v)) && AtOnce(v)
    ensures Moved(m, v)[a] == Snapshot(m, v, a)
  {
    hide Within, Moved, Snapshot, Clear, Separate;
    if Separate(v) {
      SeparateIsSnapshot(m, v, a);
    } else {
      MovedIsSnapshot(m, v, a);
    }
  }

  lemma InColumn(j: int, n: int, bpp: nat, b: nat)
    requires 0 <= j < n && b < bpp
    ensures 0 <= j * bpp + b < n * bpp
  {
    AtMost(0, j, bpp);
    AtMost(j + 1, n, bpp);
    Multiplied(j, 1, bpp);
  }

  lemma PlaceRight(baseAddr: nat, stride: int, bounds: Rect, bpp: nat, left: int, x: int, y: int)
    ensures Place(baseAddr, stride, bounds, bpp, x, y)
      == Place(baseAddr, stride, bounds, bpp, left, y) + (x - left) * bpp
  {
    Multiplied(left - bounds.left, x - left, bpp);
  }

  /** The other pixels of the destination bitmap stay as they are, whatever overlaps. */
  lemma BlitKeepsOthers(m: seq<byte>, src: Accel, dst: Accel, bpp: nat, x: int, y: int, b: nat)
    requires OrdinaryBlit(src, dst, bpp) && !InRect(dst.rect, x, y) && b < bpp
    requires InRow(dst.bounds, Stride(dst, src), bpp, x)
    ensures BytesPerPixel(src.pixelSize) == Some(bpp) && RowWidth(dst.(pixelSize := src.pixelSize)) >= 0
    ensures var q := Place(dst.baseAddr, Stride(dst, src), dst.bounds, bpp, x, y) + b;
      Within(MoveOf(src, dst), |m|) && 0 <= q < |m| ==> Moved(m, MoveOf(src, dst))[q] == m[q]
  {
    BlitRows(src, dst, bpp);
    hide MoveOf, Ordinary, Place, RowsAre, Moved, Within, InRow, InRect;
    var v, q := MoveOf(src, dst), Place(dst.baseAddr, Stride(dst, src), dst.bounds, bpp, x, y) + b;
    CoversRect(To(v), dst.baseAddr, Stride(dst, src), dst.bounds, dst.rect, bpp, src.rowBytes > 0, x, y, b);
    if Within(v, |m|) && 0 <= q < |m| {
      OthersKept(m, v, q);
    }
  }
}
