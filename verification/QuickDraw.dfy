/** The QuickDraw rectangle operations over a flat byte memory: inversion, filling and
    blitting, row by row. */
module QuickDraw {
  import opened Bytes
  import opened Kernels

  // ---------------------------------------------------------------- rectangles of rows

  /** h rows of w bytes, the first at d and each one `stride` bytes after the one before. */
  datatype Rows = Rows(d: int, stride: int, w: nat, h: nat)

  function Rest(r: Rows): Rows
    requires r.h > 0
  {
    Rows(r.d + r.stride, r.stride, r.w, r.h - 1)
  }

  /** All rows lie in a memory of n bytes. */
  predicate Inside(r: Rows, n: nat)
    decreases r.h
  {
    r.h > 0 ==> 0 <= r.d && r.d + r.w <= n && Inside(Rest(r), n)
  }

  /** The number of rows that cover address a. */
  function Cover(r: Rows, a: int): nat
    decreases r.h
  {
    if r.h == 0 then 0 else (if r.d <= a < r.d + r.w then 1 else 0) + Cover(Rest(r), a)
  }

  /** Where row i starts; a row covers the addresses from there on. */
  function RowStart(r: Rows, i: nat): int { r.d + i * r.stride }

  lemma FirstRow(r: Rows)
    ensures RowStart(r, 0) == r.d
  {
  }

  lemma RowStartRest(r: Rows, i: nat)
    requires r.h > 0
    ensures RowStart(Rest(r), i) == RowStart(r, i + 1)
  {
  }

  /** An address is covered when it lies in one of the rows. */
  lemma {:induction false} CoverMeans(r: Rows, a: int)
    ensures Cover(r, a) > 0 <==> exists i :: 0 <= i < r.h && RowStart(r, i) <= a < RowStart(r, i) + r.w
    decreases r.h
  {
    if r.h > 0 {
      CoverMeans(Rest(r), a);
      assert RowStart(r, 0) == r.d;
      forall i | 0 <= i < r.h - 1
        ensures RowStart(Rest(r), i) == RowStart(r, i + 1)
      {
        RowStartRest(r, i);
      }
      if i :| 0 <= i < r.h && RowStart(r, i) <= a < RowStart(r, i) + r.w {
        assert i > 0 ==> RowStart(Rest(r), i - 1) == RowStart(r, i);
      }
    }
  }

  lemma {:induction false} InsideRow(r: Rows, n: nat, i: nat)
    requires Inside(r, n) && i < r.h
    ensures 0 <= RowStart(r, i) && RowStart(r, i) + r.w <= n
    decreases r.h
  {
    if i > 0 {
      InsideRow(Rest(r), n, i - 1);
      RowStartRest(r, i - 1);
    } else {
      assert RowStart(r, 0) == r.d;
    }
  }

  /** Rows at least a row's width apart, in either direction. */
  predicate Apart(r: Rows) { r.stride >= r.w || -r.stride >= r.w }

  lemma {:induction false} NotCoveredBehind(r: Rows, a: int)
    requires (r.stride >= r.w && a < r.d) || (-r.stride >= r.w && a >= r.d + r.w)
    ensures Cover(r, a) == 0
    decreases r.h
  {
    if r.h > 0 { NotCoveredBehind(Rest(r), a); }
  }

  lemma {:induction false} CoveredOnce(r: Rows, a: int)
    requires Apart(r)
    ensures Cover(r, a) <= 1
    decreases r.h
  {
    if r.h > 0 {
      if r.d <= a < r.d + r.w { NotCoveredBehind(Rest(r), a); } else { CoveredOnce(Rest(r), a); }
    }
  }

  // ---------------------------------------------------------------- pens

  /** The rectangle, rewritten row after row. */
  function Drawn(m: seq<byte>, p: Pen, r: Rows): (m': seq<byte>)
    requires ValidPen(p) && Inside(r, |m|)
    ensures |m'| == |m|
    decreases r.h
  {
    if r.h == 0 then m else Drawn(RowDone(m, p, r.d, r.w), p, Rest(r))
  }

  lemma RowDoneAt(m: seq<byte>, p: Pen, d: int, w: nat, a: nat)
    requires ValidPen(p) && 0 <= d && d + w <= |m| && a < |m|
    ensures RowDone(m, p, d, w)[a] == if d <= a < d + w then RowByte(p, w, a - d, m[a]) else m[a]
  {
    hide RowByte;
  }

  lemma RowByteMeans(p: Pen, w: nat, k: nat, was: byte)
    requires ValidPen(p) && k < w
    ensures RowByte(p, w, k, was) == if p.Invert? then 255 - was else RowByte(p, w, k, 0)
  {
  }

  /** Inversion complements a byte once for every row over it. */
  lemma {:induction false} InvertParity(m: seq<byte>, r: Rows, a: nat)
    requires Inside(r, |m|) && a < |m|
    ensures Drawn(m, Invert, r)[a] == if Cover(r, a) % 2 == 1 then 255 - m[a] else m[a]
    decreases r.h
  {
    hide RowDone, RowByte;
    if r.h > 0 {
      RowDoneAt(m, Invert, r.d, r.w, a);
      if r.d <= a < r.d + r.w { RowByteMeans(Invert, r.w, a - r.d, m[a]); }
      InvertParity(RowDone(m, Invert, r.d, r.w), Rest(r), a);
    }
  }

  /** With rows apart, inversion complements exactly the rectangle. */
  lemma InvertExactly(m: seq<byte>, r: Rows, a: nat)
    requires Inside(r, |m|) && a < |m| && Apart(r)
    ensures Drawn(m, Invert, r)[a] == if Cover(r, a) > 0 then 255 - m[a] else m[a]
  {
    CoveredOnce(r, a);
    InvertParity(m, r, a);
  }

  /** Inverting a rectangle twice changes nothing, however its rows lie. */
  lemma InvertTwice(m: seq<byte>, r: Rows)
    requires Inside(r, |m|)
    ensures Drawn(Drawn(m, Invert, r), Invert, r) == m
  {
    var m' := Drawn(m, Invert, r);
    forall a | 0 <= a < |m|
      ensures Drawn(m', Invert, r)[a] == m[a]
    {
      InvertParity(m, r, a);
      InvertParity(m', r, a);
    }
  }

  /** The byte a fill leaves at a: the pen at its place in the row over it. */
  lemma {:induction false} FillExactly(m: seq<byte>, p: Pen, r: Rows, a: nat)
    requires ValidPen(p) && p.Fill? && Inside(r, |m|) && a < |m| && Apart(r)
    ensures Cover(r, a) == 0 ==> Drawn(m, p, r)[a] == m[a]
    ensures forall i :: 0 <= i < r.h && RowStart(r, i) <= a < RowStart(r, i) + r.w ==>
      Drawn(m, p, r)[a] == RowByte(p, r.w, a - RowStart(r, i), 0)
    decreases r.h
  {
    hide RowDone, RowByte, RowStart;
    if r.h > 0 {
      var m1 := RowDone(m, p, r.d, r.w);
      FillExactly(m1, p, Rest(r), a);
      RowDoneAt(m, p, r.d, r.w, a);
      FirstRow(r);
      if r.d <= a < r.d + r.w {
        RowByteMeans(p, r.w, a - r.d, m[a]);
        NotCoveredBehind(Rest(r), a);
        CoverMeans(Rest(r), a);
      }
      forall i | 0 <= i < r.h && RowStart(r, i) <= a < RowStart(r, i) + r.w
        ensures Drawn(m, p, r)[a] == RowByte(p, r.w, a - RowStart(r, i), 0)
      {
        if i > 0 { RowStartRest(r, i - 1); }
      }
    }
  }

  /** Byte k of row i of a filled rectangle. */
  lemma FilledRow(m: seq<byte>, p: Pen, r: Rows, i: nat, k: nat)
    requires ValidPen(p) && p.Fill? && Inside(r, |m|) && Apart(r) && i < r.h && k < r.w
    ensures 0 <= RowStart(r, i) && RowStart(r, i) + r.w <= |m|
    ensures Drawn(m, p, r)[RowStart(r, i) + k] == RowByte(p, r.w, k, 0)
  {
    hide RowByte, RowStart;
    InsideRow(r, |m|, i);
    FillExactly(m, p, r, RowStart(r, i) + k);
  }

  /** The low-order byte of a colour, as memset takes it. */
  function LowByte(color: seq<byte>, little: bool): byte
    requires |color| == 4
  {
    if little then color[0] else color[3]
  }

  /** What a fill leaves at each pixel size: 8-bit rows are filled with one byte. */
  function FillPen(color: seq<byte>, little: bool, bpp: nat): (p: Pen)
    requires |color| == 4
    ensures ValidPen(p)
  {
    if bpp == 1 then Fill(seq(4, _ => LowByte(color, little)), little) else Fill(color, little)
  }

  /** Where pixel j of row i starts. */
  function PixelStart(r: Rows, i: nat, j: nat, bpp: nat): int { RowStart(r, i) + bpp * j }

  /** The pixel at q is the pen, its low-order bytes, most significant first. */
  predicate IsPen(m: seq<byte>, q: int, color: seq<byte>, bpp: nat)
    requires |color| == 4 && bpp <= 4
  {
    0 <= q && q + bpp <= |m| && m[q..q + bpp] == color[4 - bpp..]
  }

  /** Every pixel of the rectangle is the pen. */
  ghost predicate AllPen(m: seq<byte>, r: Rows, color: seq<byte>, bpp: nat)
    requires |color| == 4 && bpp <= 4
  {
    forall i, j :: 0 <= i < r.h && 0 <= j && bpp * j + bpp <= r.w ==> IsPen(m, PixelStart(r, i, j, bpp), color, bpp)
  }

  /** The pens and hosts for which a fill is right: at 32 bits all; at 16 bits those with
      equal halves, and for rows of one pixel also big-endian hosts; at 8 bits big-endian
      hosts, and pens with equal outer bytes. */
  predicate PenFits(color: seq<byte>, little: bool, bpp: nat, w: nat)
    requires |color| == 4
  {
    if bpp == 4 then true
    else if bpp == 2 then (color[0] == color[2] && color[1] == color[3]) || (w == 2 && !little)
    else !little || color[0] == color[3]
  }

  /** The bytes of a row that a fill leaves are the pen's. */
  ghost predicate RowIsPen(p: Pen, w: nat, color: seq<byte>, bpp: nat)
    requires ValidPen(p) && |color| == 4 && 0 < bpp <= 4
  {
    forall j :: 0 <= j && bpp * j + bpp <= w ==> PixelIsPen(p, w, j, color, bpp)
  }

  predicate PixelIsPen(p: Pen, w: nat, j: nat, color: seq<byte>, bpp: nat)
    requires ValidPen(p) && |color| == 4 && 0 < bpp <= 4 && bpp * j + bpp <= w
  {
    PixelBytes(p, w, j, bpp) == color[4 - bpp..]
  }

  /** The bytes of pixel j of a row. */
  function PixelBytes(p: Pen, w: nat, j: nat, bpp: nat): (s: seq<int>)
    requires ValidPen(p) && bpp * j + bpp <= w
    ensures |s| == bpp
  {
    RowBytes(p, w, bpp * j, bpp)
  }

  /** n bytes of a row, from byte k on. */
  function RowBytes(p: Pen, w: nat, k: nat, n: nat): (s: seq<int>)
    requires ValidPen(p) && k + n <= w
    ensures |s| == n
  {
    seq(n, b requires 0 <= b < n => RowByte(p, w, k + b, 0))
  }

  /** A 32-bit row gives every pixel the pen. */
  lemma Fill32(color: seq<byte>, little: bool, w: nat)
    requires |color| == 4
    ensures RowIsPen(Fill(color, little), w, color, 4)
  {
    hide RowByte;
    var p := Fill(color, little);
    forall j | 0 <= j && 4 * j + 4 <= w
      ensures PixelIsPen(p, w, j, color, 4)
    {
      forall b | 0 <= b < 4
        ensures PixelBytes(p, w, j, 4)[b] == color[b]
      {
        WideCell(p, w, j, b, 0);
      }
    }
  }

  /** Pixel j of a 16-bit row: four bytes of the pen alternate, but for a last pixel alone. */
  lemma Pixel16(color: seq<byte>, little: bool, w: nat, j: nat)
    requires |color| == 4 && w % 2 == 0 && 2 * j + 2 <= w
    ensures PixelIsPen(Fill(color, little), w, j, color, 2) <==>
      if 4 * (j / 2) + 4 <= w then j % 2 == 1 || (color[0] == color[2] && color[1] == color[3])
      else !little || (color[0] == color[2] && color[1] == color[3])
  {
    hide RowByte;
    var p, t, i := Fill(color, little), j / 2, j % 2;
    assert 2 * j == 4 * t + 2 * i;
    if 4 * t + 4 <= w {
      WideCell(p, w, t, 2 * i, 0);
      WideCell(p, w, t, 2 * i + 1, 0);
    } else {
      assert w == 4 * t + 2;
      HalfCell(p, w, t, 2, 0, 0);
      HalfCell(p, w, t, 2, 1, 0);
    }
    assert PixelBytes(p, w, j, 2) == [RowByte(p, w, 2 * j, 0), RowByte(p, w, 2 * j + 1, 0)];
    assert color[2..] == [color[2], color[3]];
  }

  lemma Fill16(color: seq<byte>, little: bool, w: nat)
    requires |color| == 4 && w % 2 == 0 && w > 0
    ensures RowIsPen(Fill(color, little), w, color, 2) <==> PenFits(color, little, 2, w)
  {
    hide PixelIsPen;
    forall j | 0 <= j && 2 * j + 2 <= w
      ensures PixelIsPen(Fill(color, little), w, j, color, 2) <==>
        if 4 * (j / 2) + 4 <= w then j % 2 == 1 || (color[0] == color[2] && color[1] == color[3])
        else !little || (color[0] == color[2] && color[1] == color[3])
    {
      Pixel16(color, little, w, j);
    }
    Pixel16(color, little, w, 0);
  }

  lemma Fill8(color: seq<byte>, little: bool, w: nat)
    requires |color| == 4 && w > 0
    ensures RowIsPen(FillPen(color, little, 1), w, color, 1) <==> PenFits(color, little, 1, w)
  {
    var p := FillPen(color, little, 1);
    forall j | 0 <= j && 1 * j + 1 <= w
      ensures PixelIsPen(p, w, j, color, 1) <==> LowByte(color, little) == color[3]
    {
      assert RowByte(p, w, 1 * j + 0, 0) == LowByte(color, little);
      assert PixelBytes(p, w, j, 1) == [LowByte(color, little)];
      assert color[3..] == [color[3]];
    }
    hide PixelIsPen;
    assert PixelIsPen(p, w, 0, color, 1) <==> LowByte(color, little) == color[3];
  }

  /** What the rows say holds of the rectangle. */
  lemma AllRows(m: seq<byte>, color: seq<byte>, little: bool, bpp: nat, r: Rows)
    requires |color| == 4 && bpp in {1, 2, 4} && Inside(r, |m|) && Apart(r) && r.h > 0
    ensures var p := FillPen(color, little, bpp);
      AllPen(Drawn(m, p, r), r, color, bpp) <==> RowIsPen(p, r.w, color, bpp)
  {
    var p := FillPen(color, little, bpp);
    hide RowByte, Inside, Apart, RowStart, FillPen;
    forall i, j | 0 <= i < r.h && 0 <= j && bpp * j + bpp <= r.w
      ensures IsPen(Drawn(m, p, r), PixelStart(r, i, j, bpp), color, bpp) <==> PixelIsPen(p, r.w, j, color, bpp)
    {
      OnePixel(m, p, color, bpp, r, i, j);
    }
    hide IsPen, PixelIsPen, PixelStart;
    if AllPen(Drawn(m, p, r), r, color, bpp) {
      forall j | 0 <= j && bpp * j + bpp <= r.w
        ensures PixelIsPen(p, r.w, j, color, bpp)
      {
        assert IsPen(Drawn(m, p, r), PixelStart(r, 0, j, bpp), color, bpp);
      }
    }
  }

  lemma FilledBytes(m: seq<byte>, p: Pen, r: Rows, i: nat, k: nat, n: nat)
    requires ValidPen(p) && p.Fill? && Inside(r, |m|) && Apart(r) && i < r.h && k + n <= r.w && n > 0
    ensures 0 <= RowStart(r, i) && RowStart(r, i) + r.w <= |m|
    ensures Drawn(m, p, r)[RowStart(r, i) + k..RowStart(r, i) + k + n] == RowBytes(p, r.w, k, n)
  {
    hide RowByte, Inside, Apart, RowStart;
    FilledRow(m, p, r, i, k);
    forall b | 0 <= b < n
      ensures Drawn(m, p, r)[RowStart(r, i) + k..RowStart(r, i) + k + n][b] == RowBytes(p, r.w, k, n)[b]
    {
      FilledRow(m, p, r, i, k + b);
    }
  }

  lemma OnePixel(m: seq<byte>, p: Pen, color: seq<byte>, bpp: nat, r: Rows, i: nat, j: nat)
    requires |color| == 4 && bpp in {1, 2, 4} && ValidPen(p) && p.Fill? && Inside(r, |m|) && Apart(r)
    requires i < r.h && bpp * j + bpp <= r.w
    ensures IsPen(Drawn(m, p, r), PixelStart(r, i, j, bpp), color, bpp) <==> PixelIsPen(p, r.w, j, color, bpp)
  {
    hide Inside, Apart, RowStart, RowBytes;
    FilledBytes(m, p, r, i, bpp * j, bpp);
  }

  /** A fill sets every pixel of a rectangle with rows apart to the pen if and only if the
      pen fits the host and the pixel size. */
  lemma FillSetsPen(m: seq<byte>, color: seq<byte>, little: bool, bpp: nat, r: Rows)
    requires |color| == 4 && bpp in {1, 2, 4} && Inside(r, |m|) && Apart(r)
    requires r.h > 0 && r.w > 0 && r.w % bpp == 0
    ensures AllPen(Drawn(m, FillPen(color, little, bpp), r), r, color, bpp) <==> PenFits(color, little, bpp, r.w)
  {
    AllRows(m, color, little, bpp, r);
    hide AllPen, RowIsPen;
    if bpp == 4 {
      Fill32(color, little, r.w);
    } else if bpp == 2 {
      Fill16(color, little, r.w);
    } else {
      Fill8(color, little, r.w);
    }
  }

  /** On a little-endian host an 8-bit fill with pen 7 leaves 0 everywhere. */
  lemma PenSeven(m: seq<byte>, r: Rows, a: nat)
    requires Inside(r, |m|) && a < |m| && Apart(r) && Cover(r, a) > 0
    ensures Drawn(m, FillPen([0, 0, 0, 7], true, 1), r)[a] == 0
  {
    var p := FillPen([0, 0, 0, 7], true, 1);
    CoverMeans(r, a);
    var i :| 0 <= i < r.h && RowStart(r, i) <= a < RowStart(r, i) + r.w;
    FillExactly(m, p, r, a);
    assert RowByte(p, r.w, a - RowStart(r, i), 0) == 0;
  }

  // ---------------------------------------------------------------- the operations

  datatype Rect = Rect(top: int, left: int, bottom: int, right: int)

  /** The parameters of an operation: a bitmap and a rectangle in it. */
  datatype Accel = Accel(baseAddr: nat, rowBytes: int, pixelSize: nat, rect: Rect, bounds: Rect)

  /** A C int16. */
  function Int16(x: int): (y: int)
    ensures -0x8000 <= y < 0x8000
  {
    (x + 0x8000) % 0x1_0000 - 0x8000
  }

  lemma SmallInt16(x: int)
    requires -0x8000 <= x < 0x8000
    ensures Int16(x) == x
  {
  }

  /** `bytes_per_pixel`; None where the program aborts. */
  function BytesPerPixel(depth: nat): Option<nat> {
    if depth == 8 then Some(1)
    else if depth == 15 || depth == 16 then Some(2)
    else if depth == 24 || depth == 32 then Some(4)
    else None
  }

  function RowWidth(a: Accel): int
    requires BytesPerPixel(a.pixelSize).Some?
  {
    Int16(Int16(a.rect.right - a.rect.left) * BytesPerPixel(a.pixelSize).value)
  }

  function Height(a: Accel): int { Int16(a.rect.bottom - a.rect.top) }

  /** The address of the pixel in the top left corner of the rectangle. */
  function Corner(a: Accel): int
    requires BytesPerPixel(a.pixelSize).Some?
  {
    a.baseAddr + Int16(a.rect.top - a.bounds.top) * a.rowBytes
      + Int16(a.rect.left - a.bounds.left) * BytesPerPixel(a.pixelSize).value
  }

  /** The rectangle's rows; none if the rectangle is upside down. */
  function RowsOf(a: Accel): Rows
    requires BytesPerPixel(a.pixelSize).Some? && RowWidth(a) >= 0
  {
    Rows(Corner(a), a.rowBytes, RowWidth(a), if Height(a) < 0 then 0 else Height(a))
  }

  predicate Drawable(a: Accel, n: nat) {
    BytesPerPixel(a.pixelSize).Some? && RowWidth(a) >= 0 && Inside(RowsOf(a), n)
  }

  /** A row is a whole number of pixels, even where its width was cut to 16 bits. */
  lemma WholePixels(a: Accel)
    requires BytesPerPixel(a.pixelSize).Some?
    ensures RowWidth(a) % BytesPerPixel(a.pixelSize).value == 0
  {
    var bpp, x := BytesPerPixel(a.pixelSize).value, Int16(a.rect.right - a.rect.left);
    if bpp == 4 {
      assert (4 * x + 0x8000) % 4 == 0;
    } else if bpp == 2 {
      assert (2 * x + 0x8000) % 2 == 0;
    }
  }

  /** The row loop of the operations with a pen. */
  method DrawRows(mem: array<byte>, p: Pen, r: Rows, bpp: nat)
    requires ValidPen(p) && Inside(r, mem.Length) && bpp in {1, 2, 4} && r.w % bpp == 0
    modifies mem
    ensures mem[..] == Drawn(old(mem[..]), p, r)
  {
    hide RowDone;
    var dest, i := r.d, 0;
    while i < r.h
      invariant i <= r.h && Inside(Rows(dest, r.stride, r.w, r.h - i), mem.Length)
      invariant Drawn(mem[..], p, Rows(dest, r.stride, r.w, r.h - i)) == Drawn(old(mem[..]), p, r)
    {
      DoRow(mem, p, dest, r.w, 8 * bpp);
      dest := dest + r.stride;
      i := i + 1;
    }
  }

  /** `NQD_invrect` */
  method Invrect(mem: array<byte>, a: Accel)
    requires Drawable(a, mem.Length)
    modifies mem
    ensures mem[..] == Drawn(old(mem[..]), Invert, RowsOf(a))
  {
    var bpp := BytesPerPixel(a.pixelSize).value;
    WholePixels(a);
    DrawRows(mem, Invert, RowsOf(a), bpp);
  }

  /** `NQD_fillrect` with the bytes of the pen in memory order, most significant first. */
  method Fillrect(mem: array<byte>, a: Accel, color: seq<byte>, little: bool)
    requires Drawable(a, mem.Length) && |color| == 4
    modifies mem
    ensures mem[..] == Drawn(old(mem[..]), FillPen(color, little, BytesPerPixel(a.pixelSize).value), RowsOf(a))
  {
    var bpp := BytesPerPixel(a.pixelSize).value;
    if bpp == 1 {
      SetRows(mem, LowByte(color, little), RowsOf(a), little);
    } else {
      WholePixels(a);
      DrawRows(mem, Fill(color, little), RowsOf(a), bpp);
    }
  }

  /** The row loop over memset. */
  method SetRows(mem: array<byte>, v: byte, r: Rows, ghost little: bool)
    requires Inside(r, mem.Length)
    modifies mem
    ensures mem[..] == Drawn(old(mem[..]), Fill(seq(4, _ => v), little), r)
  {
    ghost var p := Fill(seq(4, _ => v), little);
    var dest, i := r.d, 0;
    while i < r.h
      invariant i <= r.h && Inside(Rows(dest, r.stride, r.w, r.h - i), mem.Length)
      invariant Drawn(mem[..], p, Rows(dest, r.stride, r.w, r.h - i)) == Drawn(old(mem[..]), p, r)
    {
      ghost var m := mem[..];
      forall k | 0 <= k < r.w {
        mem[dest + k] := v;
      }
      assert mem[..] == RowDone(m, p, dest, r.w);
      dest := dest + r.stride;
      i := i + 1;
    }
  }
}
