/** The PICT writer (`ConvertRGBAToPICT`): the whole document, and a reader that
    gets the pixels back. */
module Pict {
  import opened Bytes
  import opened PackBits
  import opened PackBitsLimits

  const INITIAL_SIZE: nat := 134

  function Word(x: nat): (s: seq<byte>)
    ensures |s| == 2
  {
    [x / 0x100 % 0x100, x % 0x100]
  }

  function Rect(w: nat, h: nat): (s: seq<byte>)
    ensures |s| == 8
  {
    [0, 0, 0, 0] + Word(h) + Word(w)
  }

  function Region(w: nat, h: nat): (s: seq<byte>)
    ensures |s| == 10
  {
    [0, 0x0a] + Rect(w, h)
  }

  /** The picture frame, the version opcodes and the header opcode. */
  function Opening(w: nat, h: nat): (s: seq<byte>)
    ensures |s| == 38
  {
    Rect(w, h) + [0x00, 0x11, 0x02, 0xff, 0x0c, 0x00, 0xff, 0xff, 0xff, 0xff] +
    ([0, 0, 0, 0, 0, 0, 0, 0] + Word(w) + [0, 0] + Word(h) + [0, 0, 0, 0, 0, 0])
  }

  /** DefHilite and the clip region. */
  function Clip(w: nat, h: nat): (s: seq<byte>)
    ensures |s| == 14
  {
    [0x00, 0x1e, 0x00, 0x01] + Region(w, h)
  }

  /** Version, packing, resolution and pixel layout of a pixmap. */
  const LAYOUT: seq<byte> := [0, 0, 0, 4, 0, 0, 0, 0, 0, 0x48, 0, 0, 0, 0x48, 0, 0, 0, 0x10, 0, 0x20, 0, 4, 0, 8]

  /** DirectBitsRgn up to the pixel data: row bytes with the pixmap flag, bounds,
      packing, resolution, pixel layout, rectangles, mode and mask. */
  function PixMap(w: nat, h: nat): (s: seq<byte>)
    ensures |s| == 80
  {
    [0x00, 0x9b, 0, 0, 0, 0, 4 * w / 0x100 % 0x80 + 0x80, 4 * w % 0x100] + Rect(w, h) + LAYOUT +
    [0, 0, 0, 0, 0, 0, 0, 0, 0, 0, 0, 0] + Rect(w, h) + Rect(w, h) + ([0, 0] + Region(w, h))
  }

  /** Everything between the size and the pixel rows. */
  function Header(w: nat, h: nat): (s: seq<byte>)
    ensures |s| == INITIAL_SIZE - 2
  {
    Opening(w, h) + Clip(w, h) + PixMap(w, h)
  }

  // ---------------------------------------------------------------- rows

  /** An image: h rows of w pixels, four bytes each in the order R, G, B, A. */
  datatype Image = Image(w: nat, h: nat, rows: seq<seq<byte>>)

  /** The rows have the length of the image, of which 16 bits hold the bytes. */
  ghost predicate ValidImage(m: Image) {
    |m.rows| == m.h && (forall i :: 0 <= i < m.h ==> |m.rows[i]| == 4 * m.w) && 4 * m.w < WORD16
  }

  /** The size the row encoder asks for is one that its cursor can count. */
  ghost predicate Countable(m: Image) { ValidImage(m) && MaxSize(4 * m.w) < WORD16 }

  /** One channel of a row. */
  function Channel(row: seq<byte>, w: nat, offset: nat): (s: seq<byte>)
    requires |row| == 4 * w && offset < 4
    ensures |s| == w
  {
    seq(w, j requires 0 <= j < w => row[4 * j + offset])
  }

  /** A row by planes: alpha, red, green, blue. */
  function Planar(row: seq<byte>, w: nat): (s: seq<byte>)
    requires |row| == 4 * w
    ensures |s| == 4 * w
  {
    Channel(row, w, 3) + Channel(row, w, 0) + Channel(row, w, 1) + Channel(row, w, 2)
  }

  /** The inverse of Planar. */
  function Interleaved(planes: seq<byte>, w: nat): (s: seq<byte>)
    requires |planes| == 4 * w
    ensures |s| == 4 * w
  {
    seq(4 * w, k requires 0 <= k < 4 * w =>
      if k % 4 == 3 then planes[k / 4] else if k % 4 == 0 then planes[w + k / 4]
      else if k % 4 == 1 then planes[2 * w + k / 4] else planes[3 * w + k / 4])
  }

  lemma InterleavedPlanar(row: seq<byte>, w: nat)
    requires |row| == 4 * w
    ensures Interleaved(Planar(row, w), w) == row
  {
    var planes := Planar(row, w);
    forall k | 0 <= k < 4 * w
      ensures Interleaved(planes, w)[k] == row[k]
    {
      var j := k / 4;
      assert planes[j] == row[4 * j + 3] && planes[w + j] == row[4 * j];
      assert planes[2 * w + j] == row[4 * j + 1] && planes[3 * w + j] == row[4 * j + 2];
    }
  }

  function RowCode(row: seq<byte>, w: nat): seq<byte>
    requires |row| == 4 * w
  {
    EncodedRow(Planar(row, w), MaxSize(4 * w))
  }

  function RowCodes(w: nat, rows: seq<seq<byte>>): seq<byte>
    requires forall i :: 0 <= i < |rows| ==> |rows[i]| == 4 * w
  {
    if rows == [] then [] else RowCode(rows[0], w) + RowCodes(w, rows[1..])
  }

  /** The document behind the size field. */
  function Document(m: Image): seq<byte>
    requires Countable(m)
  {
    Header(m.w, m.h) + RowCodes(m.w, m.rows) + [0x00, 0xff]
  }

  /** The size field: two bytes, 0xffff for anything that does not fit. */
  function SizeField(total: nat): (s: seq<byte>) { if total > 0xffff then [0xff, 0xff] else Word(total) }

  /** The size the writer answers a query with. */
  function Bound(w: nat, h: nat): nat { INITIAL_SIZE + h * MaxSize(4 * w) + 2 }

  lemma OneMore(n: nat, size: nat)
    requires n > 0
    ensures n * size == size + (n - 1) * size
  {
  }

  // ---------------------------------------------------------------- what the writer writes

  /** What the row encoder can leave behind for a row: its length in any case, its bytes
      unless the cursor has wrapped. */
  ghost predicate IsCode(row: seq<byte>, w: nat, code: seq<byte>)
    requires |row| == 4 * w
  {
    |code| == Reported(Planar(row, w)) && (!Wraps(Planar(row, w), MaxSize(4 * w)) ==> code == RowCode(row, w))
  }

  ghost predicate AreCodes(w: nat, rows: seq<seq<byte>>, codes: seq<seq<byte>>)
    requires forall i :: 0 <= i < |rows| ==> |rows[i]| == 4 * w
  {
    |codes| == |rows| && forall i :: 0 <= i < |rows| ==> IsCode(rows[i], w, codes[i])
  }

  function Join(codes: seq<seq<byte>>): seq<byte> {
    if codes == [] then [] else codes[0] + Join(codes[1..])
  }

  lemma {:induction false} JoinLast(codes: seq<seq<byte>>, code: seq<byte>)
    ensures Join(codes + [code]) == Join(codes) + code
  {
    if codes == [] {
      assert [code][1..] == [];
    } else {
      assert (codes + [code])[1..] == codes[1..] + [code];
      JoinLast(codes[1..], code);
    }
  }

  /** The length of the rows' codes. */
  function CodesLength(w: nat, rows: seq<seq<byte>>): nat
    requires forall i :: 0 <= i < |rows| ==> |rows[i]| == 4 * w
  {
    if rows == [] then 0 else Reported(Planar(rows[0], w)) + CodesLength(w, rows[1..])
  }

  /** The length of the document. */
  function DocumentLength(m: Image): nat
    requires ValidImage(m)
  {
    INITIAL_SIZE + CodesLength(m.w, m.rows) + 2
  }

  lemma {:induction false} CodesBound(w: nat, rows: seq<seq<byte>>)
    requires (forall i :: 0 <= i < |rows| ==> |rows[i]| == 4 * w) && 4 * w < WORD16
    ensures CodesLength(w, rows) <= |rows| * MaxSize(4 * w)
  {
    hide MaxSize, Planar;
    if rows != [] {
      CodeBound(Planar(rows[0], w));
      CodesBound(w, rows[1..]);
      OneMore(|rows|, MaxSize(4 * w));
    }
  }

  lemma CodeBound(planes: seq<byte>)
    ensures Reported(planes) <= MaxSize(|planes|)
  {
    hide Chosen, Size, CountBytes, MaxSize;
    if MaxSize(|planes|) < WORD16 {
      MaxSizeSuffices(planes);
    }
  }

  /** A buffer of the queried size always holds the document, however wide the image. */
  lemma BoundSuffices(m: Image)
    requires ValidImage(m)
    ensures DocumentLength(m) <= Bound(m.w, m.h)
  {
    CodesBound(m.w, m.rows);
  }

  /** The rows of a countable image have one code each. */
  lemma {:induction false} CodesAreRowCodes(w: nat, rows: seq<seq<byte>>, codes: seq<seq<byte>>)
    requires (forall i :: 0 <= i < |rows| ==> |rows[i]| == 4 * w) && MaxSize(4 * w) < WORD16
    requires AreCodes(w, rows, codes)
    ensures Join(codes) == RowCodes(w, rows)
  {
    hide Planar, RowCode, MaxSize, Wraps;
    if rows != [] {
      MaxSizeSuffices(Planar(rows[0], w));
      assert IsCode(rows[0], w, codes[0]);
      forall i | 0 <= i < |rows| - 1
        ensures IsCode(rows[1..][i], w, codes[1..][i])
      {
        assert IsCode(rows[i + 1], w, codes[i + 1]);
      }
      CodesAreRowCodes(w, rows[1..], codes[1..]);
    }
  }

  // ---------------------------------------------------------------- reading back

  /** h rows from s, and what follows them. */
  function ReadRows(s: seq<byte>, w: nat, h: nat): Option<(seq<seq<byte>>, seq<byte>)>
    decreases h
  {
    if h == 0 then Some(([], s))
    else
      var k := if 4 * w > 250 then 2 else 1;
      if |s| < k then None
      else
        var n := if k == 2 then s[0] as int * 0x100 + s[1] as int else s[0] as int;
        if |s| < k + n then None
        else match Unpack(s[k..k + n])
          case None => None
          case Some(planes) =>
            if |planes| != 4 * w then None
            else match ReadRows(s[k + n..], w, h - 1)
              case None => None
              case Some((rows, rest)) => Some(([Interleaved(planes, w)] + rows, rest))
  }

  function Big16(s: seq<byte>): nat
    requires |s| == 2
  {
    s[0] as int * 0x100 + s[1] as int
  }

  /** Bytes a to b hold x. */
  predicate Holds(s: seq<byte>, a: nat, b: nat, x: seq<byte>) { a <= b <= |s| && s[a..b] == x }

  /** The header opcode at p, of version 2 with a frame in whole pixels. */
  predicate IsHeader(s: seq<byte>, p: nat, frame: seq<byte>)
    requires |frame| == 8
  {
    Holds(s, p, p + 6, [0x0c, 0x00, 0xff, 0xff, 0xff, 0xff]) &&
    Holds(s, p + 6, p + 14, frame[2..4] + [0, 0] + frame[0..2] + [0, 0]) &&
    Holds(s, p + 14, p + 22, frame[6..8] + [0, 0] + frame[4..6] + [0, 0]) && p + 26 <= |s|
  }

  /** A rectangular region. */
  predicate IsRegion(s: seq<byte>, p: nat, rect: seq<byte>) {
    Holds(s, p, p + 2, [0, 10]) && Holds(s, p + 2, p + 10, rect)
  }

  /** DirectBitsRgn at p: a pixmap over the frame, packed by components, with 32 bits a pixel
      in four components of eight, copied one to one at 72 dpi. */
  predicate IsPixMap(s: seq<byte>, p: nat, frame: seq<byte>, rowBytes: nat) {
    Holds(s, p, p + 2, [0x00, 0x9b]) && p + 80 <= |s| &&
    Big16(s[p + 6..p + 8]) == 0x8000 + rowBytes % 0x8000 && Holds(s, p + 8, p + 16, frame) &&
    Holds(s, p + 16, p + 20, [0, 0, 0, 4]) && Holds(s, p + 24, p + 32, [0, 72, 0, 0, 0, 72, 0, 0]) &&
    Holds(s, p + 32, p + 40, [0, 16, 0, 32, 0, 4, 0, 8]) && Holds(s, p + 52, p + 60, frame) &&
    Holds(s, p + 60, p + 68, frame) && Holds(s, p + 68, p + 70, [0, 0]) && IsRegion(s, p + 70, frame)
  }

  /** The rows, and the opcode that ends the picture. */
  function ReadPixels(s: seq<byte>, w: nat, h: nat): Option<Image> {
    match ReadRows(s, w, h)
    case None => None
    case Some((rows, rest)) => if rest == [0x00, 0xff] then Some(Image(w, h, rows)) else None
  }

  /** Reads a PICT from the opcode at p on. */
  function ReadOpcodes(s: seq<byte>, p: nat, frame: seq<byte>): Option<Image>
    requires |frame| == 8
    decreases |s| - p
  {
    var h, w := Big16(frame[4..6]) - Big16(frame[0..2]), Big16(frame[6..8]) - Big16(frame[2..4]);
    if h < 0 || w < 0 then None
    else if IsHeader(s, p, frame) then ReadOpcodes(s, p + 26, frame)
    else if Holds(s, p, p + 2, [0x00, 0x1e]) then ReadOpcodes(s, p + 2, frame)
    else if Holds(s, p, p + 2, [0x00, 0x01]) && IsRegion(s, p + 2, frame) then ReadOpcodes(s, p + 12, frame)
    else if IsPixMap(s, p, frame, 4 * w) then ReadPixels(s[p + 80..], w, h)
    else None
  }

  /** Reads a version 2 PICT: size, frame, version, opcodes. */
  function ReadPict(s: seq<byte>): Option<Image> {
    if Holds(s, 10, 14, [0x00, 0x11, 0x02, 0xff]) then ReadOpcodes(s, 14, s[2..10]) else None
  }

  lemma CountReads(n: nat, size: nat, s: seq<byte>)
    requires size < WORD16 && (n <= 250 ==> size < 0x100)
    ensures var t, k := Count(n, size) + s, CountBytes(n);
      (if k == 2 then t[0] as int * 0x100 + t[1] as int else t[0] as int) == size && t[k..] == s
  {
    var count := Count(n, size);
    assert (count + s)[|count|..] == s;
    TwoDigits(size);
  }

  lemma TwoDigits(size: nat)
    requires size < WORD16
    ensures size / 0x100 < 0x100 && size / 0x100 * 0x100 + size % 0x100 == size
  {
  }

  lemma ReadRow(row: seq<byte>, w: nat, h: nat, s: seq<byte>)
    requires |row| == 4 * w && MaxSize(4 * w) < WORD16 && h > 0
    ensures ReadRows(RowCode(row, w) + s, w, h) == match ReadRows(s, w, h - 1)
      case None => None
      case Some((rows, rest)) => Some(([row] + rows, rest))
  {
    hide Chosen, Body, Size, Count, Unpack, Planar, Interleaved;
    var planes, cap, k := Planar(row, w), MaxSize(4 * w), CountBytes(4 * w);
    var body := Body(Chosen(planes, cap));
    var t := RowCode(row, w) + s;
    MaxSizeSuffices(planes);
    assert t == Count(4 * w, |body|) + (body + s);
    CountReads(4 * w, |body|, body + s);
    assert t[k..][..|body|] == body && t[k..][|body|..] == s;
    assert t[k..k + |body|] == body && t[k + |body|..] == s;
    ChosenDecodes(planes, cap);
    InterleavedPlanar(row, w);
  }

  lemma {:induction false} ReadRowCodes(w: nat, rows: seq<seq<byte>>, s: seq<byte>)
    requires forall i :: 0 <= i < |rows| ==> |rows[i]| == 4 * w
    requires MaxSize(4 * w) < WORD16
    ensures ReadRows(RowCodes(w, rows) + s, w, |rows|) == Some((rows, s))
  {
    hide RowCode;
    if rows == [] {
      assert RowCodes(w, rows) + s == s;
    } else {
      var rest := RowCodes(w, rows[1..]);
      assert RowCodes(w, rows) + s == RowCode(rows[0], w) + (rest + s);
      ReadRow(rows[0], w, |rows|, rest + s);
      ReadRowCodes(w, rows[1..], s);
      assert [rows[0]] + rows[1..] == rows;
    }
  }

  lemma Inner(s: seq<byte>, p: nat, x: seq<byte>, a: nat, b: nat)
    requires Holds(s, p, p + |x|, x) && a <= b <= |x|
    ensures Holds(s, p + a, p + b, x[a..b])
  {
    forall i | 0 <= i < b - a
      ensures s[p + a..p + b][i] == x[a..b][i]
    {
      assert s[p + a + i] == s[p..p + |x|][a + i];
    }
  }

  lemma FrameOf(w: nat, h: nat)
    requires w < WORD16 && h < WORD16
    ensures var f := Rect(w, h);
      f[0..2] == [0, 0] && f[2..4] == [0, 0] && f[4..6] == Word(h) && f[6..8] == Word(w) &&
      Big16(f[4..6]) == h && Big16(f[6..8]) == w
  {
    TwoDigits(w);
    TwoDigits(h);
  }

  /** The opcodes that come one after the other. */
  lemma ReadHeader(s: seq<byte>, w: nat, h: nat)
    requires w < WORD16 && h < WORD16 && Holds(s, 2, 40, Opening(w, h))
    ensures ReadPict(s) == ReadOpcodes(s, 40, Rect(w, h))
  {
    hide ReadOpcodes, Rect, Word, Holds;
    var x, f := Opening(w, h), Rect(w, h);
    FrameOf(w, h);
    Slices(s, 2, x);
    Inner(s, 2, x, 0, 8);
    Inner(s, 2, x, 8, 12);
    Inner(s, 2, x, 12, 18);
    Inner(s, 2, x, 18, 26);
    Inner(s, 2, x, 26, 34);
    assert x[0..8] == f && x[8..12] == [0x00, 0x11, 0x02, 0xff];
    assert x[12..18] == [0x0c, 0x00, 0xff, 0xff, 0xff, 0xff];
    assert x[18..26] == f[2..4] + [0, 0] + f[0..2] + [0, 0];
    assert x[26..34] == f[6..8] + [0, 0] + f[4..6] + [0, 0];
    Slices(s, 2, f);
    OpcodesFrom(s, 14, f, w, h);
  }

  lemma Slices(s: seq<byte>, p: nat, x: seq<byte>)
    requires Holds(s, p, p + |x|, x)
    ensures p + |x| <= |s| && s[p..p + |x|] == x
  {
  }

  lemma OpcodesFrom(s: seq<byte>, p: nat, f: seq<byte>, w: nat, h: nat)
    requires w < WORD16 && h < WORD16 && f == Rect(w, h) && IsHeader(s, p, f)
    ensures ReadOpcodes(s, p, f) == ReadOpcodes(s, p + 26, f)
  {
    hide IsHeader, IsPixMap, Holds, ReadPixels, Word;
    FrameOf(w, h);
  }

  lemma OpcodeIs(s: seq<byte>, p: nat, op: seq<byte>, other: seq<byte>)
    requires |op| == |other| == 2 && Holds(s, p, p + 2, op) && op != other
    ensures !Holds(s, p, p + 2, other)
  {
  }

  lemma HeaderStarts(s: seq<byte>, p: nat, f: seq<byte>)
    requires |f| == 8
    ensures IsHeader(s, p, f) ==> s[p] == 0x0c
  {
    assert p + 6 <= |s| ==> s[p..p + 6][0] == s[p];
  }

  lemma NotHeader(s: seq<byte>, p: nat, op: seq<byte>, f: seq<byte>)
    requires |f| == 8 && |op| == 2 && Holds(s, p, p + 2, op) && op[0] == 0
    ensures !IsHeader(s, p, f)
  {
    HeaderStarts(s, p, f);
    assert s[p] == s[p..p + 2][0];
    hide IsHeader;
  }

  lemma ReadClip(s: seq<byte>, w: nat, h: nat)
    requires w < WORD16 && h < WORD16 && Holds(s, 40, 54, Clip(w, h))
    ensures ReadOpcodes(s, 40, Rect(w, h)) == ReadOpcodes(s, 54, Rect(w, h))
  {
    var x, f := Clip(w, h), Rect(w, h);
    hide Holds, IsHeader, IsPixMap, ReadPixels, Rect, Word;
    FrameOf(w, h);
    Inner(s, 40, x, 0, 2);
    Inner(s, 40, x, 2, 4);
    Inner(s, 40, x, 4, 6);
    Inner(s, 40, x, 6, 14);
    assert x[0..2] == [0x00, 0x1e] && x[2..4] == [0x00, 0x01] && x[4..6] == [0, 10] && x[6..14] == f;
    NotHeader(s, 40, [0x00, 0x1e], f);
    NotHeader(s, 42, [0x00, 0x01], f);
    OpcodeIs(s, 42, [0x00, 0x01], [0x00, 0x1e]);
    assert ReadOpcodes(s, 40, f) == ReadOpcodes(s, 42, f) == ReadOpcodes(s, 54, f);
  }

  lemma ReadPixMap(s: seq<byte>, w: nat, h: nat)
    requires w < WORD16 && h < WORD16 && Holds(s, 54, 134, PixMap(w, h))
    ensures |s| >= 134 && ReadOpcodes(s, 54, Rect(w, h)) == ReadPixels(s[134..], w, h)
  {
    var x, f := PixMap(w, h), Rect(w, h);
    hide Holds, IsHeader, ReadPixels, Rect, Word;
    FrameOf(w, h);
    assert IsPixMap(s, 54, f, 4 * w) by { PixMapHeld(s, w, h); }
    hide IsPixMap;
    Inner(s, 54, x, 0, 2);
    assert x[0..2] == [0x00, 0x9b];
    NotHeader(s, 54, [0x00, 0x9b], f);
    OpcodeIs(s, 54, [0x00, 0x9b], [0x00, 0x1e]);
    OpcodeIs(s, 54, [0x00, 0x9b], [0x00, 0x01]);
  }

  lemma Pieces(a: seq<byte>, f: seq<byte>, l: seq<byte>, c: seq<byte>, end: seq<byte>)
    requires |a| == |f| == 8 && |l| == 24 && |c| == 12 && |end| == 12
    ensures var x := a + f + l + c + f + f + end;
      x[0..2] == a[..2] && x[6..8] == a[6..8] && x[8..16] == f && x[16..40] == l && x[52..60] == f &&
      x[60..68] == f && x[68..80] == end
  {
  }

  lemma PixMapParts(w: nat, h: nat)
    ensures var x, f := PixMap(w, h), Rect(w, h);
      x[0..2] == [0x00, 0x9b] && x[8..16] == f && x[16..40] == LAYOUT && x[52..60] == f && x[60..68] == f &&
      x[68..70] == [0, 0] && x[70..72] == [0, 10] && x[72..80] == f
  {
    var f := Rect(w, h);
    var a: seq<byte> := [0x00, 0x9b, 0, 0, 0, 0, 4 * w / 0x100 % 0x80 + 0x80, 4 * w % 0x100];
    var c: seq<byte> := [0, 0, 0, 0, 0, 0, 0, 0, 0, 0, 0, 0];
    var end: seq<byte> := [0, 0] + Region(w, h);
    var x := PixMap(w, h);
    LayoutParts();
    hide Rect, LAYOUT;
    Pieces(a, f, LAYOUT, c, end);
    assert x == a + f + LAYOUT + c + f + f + end;
    assert end == [0, 0, 0, 0x0a] + f;
    assert x[68..70] == x[68..80][0..2] && x[70..72] == x[68..80][2..4] && x[72..80] == x[68..80][4..12];
  }

  lemma LayoutParts()
    ensures |LAYOUT| == 24
    ensures LAYOUT[0..4] == [0, 0, 0, 4] && LAYOUT[8..16] == [0, 72, 0, 0, 0, 72, 0, 0]
    ensures LAYOUT[16..24] == [0, 16, 0, 32, 0, 4, 0, 8]
  {
  }

  lemma PixMapHeld(s: seq<byte>, w: nat, h: nat)
    requires w < WORD16 && h < WORD16 && Holds(s, 54, 134, PixMap(w, h))
    ensures IsPixMap(s, 54, Rect(w, h), 4 * w)
  {
    var x := PixMap(w, h);
    PixMapParts(w, h);
    Slices(s, 54, x);
    assert s[60] == s[54..134][6] == x[6] && s[61] == s[54..134][7] == x[7];
    RowBytesField(4 * w);
    assert Big16(s[60..62]) == 0x8000 + 4 * w % 0x8000;
    hide Holds, Rect, Word, PixMap, LAYOUT;
    Inner(s, 54, x, 0, 2);
    Inner(s, 54, x, 8, 16);
    Inner(s, 54, x, 16, 40);
    Inner(s, 70, LAYOUT, 0, 4);
    Inner(s, 70, LAYOUT, 8, 16);
    Inner(s, 70, LAYOUT, 16, 24);
    LayoutParts();
    Inner(s, 54, x, 52, 60);
    Inner(s, 54, x, 60, 68);
    Inner(s, 54, x, 68, 70);
    Inner(s, 54, x, 70, 72);
    Inner(s, 54, x, 72, 80);
  }

  lemma RowBytesField(n: nat)
    ensures (n / 0x100 % 0x80 + 0x80) * 0x100 + n % 0x100 == 0x8000 + n % 0x8000
  {
    var q := n / 0x100;
    QuotientIs(n, 0x8000, q / 0x80, q % 0x80 * 0x100 + n % 0x100);
  }

  /** Reading a document gives back the image, whichever rows were compressed. */
  lemma ReadsBack(m: Image, size: seq<byte>)
    requires Countable(m) && m.h < WORD16 && |size| == 2
    ensures ReadPict(size + Document(m)) == Some(m)
  {
    hide ReadRows, RowCodes, Clip, PixMap, Opening, MaxSize, ReadPict, ReadOpcodes;
    var s, end := size + Document(m), [0x00, 0xff];
    assert s[2..40] == Opening(m.w, m.h) && s[40..54] == Clip(m.w, m.h) && s[54..134] == PixMap(m.w, m.h);
    ReadHeader(s, m.w, m.h);
    ReadClip(s, m.w, m.h);
    ReadPixMap(s, m.w, m.h);
    assert s[INITIAL_SIZE..] == RowCodes(m.w, m.rows) + end;
    ReadRowCodes(m.w, m.rows, end);
  }

  // ---------------------------------------------------------------- the writer

  lemma RowsLeft(h: nat, n: nat)
    requires h > 0
    ensures h * n == n + (h - 1) * n && (h - 1) * n >= 0
  {
  }

  /** h rows of n bytes from the front of px. */
  function Cut(px: seq<byte>, n: nat, h: nat): (rows: seq<seq<byte>>)
    requires h * n <= |px|
    ensures |rows| == h && forall i :: 0 <= i < h ==> |rows[i]| == n
    decreases h
  {
    if h == 0 then []
    else
      RowsLeft(h, n);
      [px[..n]] + Cut(px[n..], n, h - 1)
  }

  /** Row i of the image is bytes i * n to i * n + n of the pixels. */
  lemma {:induction false} CutRow(px: seq<byte>, n: nat, h: nat, i: nat)
    requires h * n <= |px| && i < h
    ensures 0 <= i * n && i * n + n <= |px| && Cut(px, n, h)[i] == px[i * n..i * n + n]
    decreases h
  {
    RowsLeft(h, n);
    if i > 0 {
      CutRow(px[n..], n, h - 1, i - 1);
      RowsLeft(i, n);
      assert px[n..][(i - 1) * n..(i - 1) * n + n] == px[i * n..i * n + n];
    }
  }

  function ImageOf(px: seq<byte>, w: nat, h: nat): (m: Image)
    requires h * (4 * w) <= |px|
  {
    Image(w, h, Cut(px, 4 * w, h))
  }

  /** The document is written up to the cursor; the size field is not. */
  ghost predicate Filled(buf: seq<byte>, cursor: nat, done: seq<byte>) {
    cursor == 2 + |done| <= |buf| && buf[2..cursor] == done
  }

  method Append(buf: array<byte>, cursor: nat, data: seq<byte>, cap: nat, ghost done: seq<byte>) returns (cursor': nat)
    requires Filled(buf[..], cursor, done) && cursor + |data| <= cap <= buf.Length
    modifies buf
    ensures cursor' == cursor + |data| && Filled(buf[..], cursor', done + data)
    ensures forall i :: cap <= i < buf.Length ==> buf[i] == old(buf[i])
  {
    forall i | 0 <= i < |data| {
      buf[cursor + i] := data[i];
    }
    cursor' := cursor + |data|;
    assert buf[2..cursor'] == buf[2..cursor] + buf[cursor..cursor'];
  }

  lemma PlanarAt(t: seq<byte>, w: nat, j: nat)
    requires |t| == 4 * w && j < w
    ensures Planar(t, w)[j] == t[4 * j + 3] && Planar(t, w)[w + j] == t[4 * j]
    ensures Planar(t, w)[2 * w + j] == t[4 * j + 1] && Planar(t, w)[3 * w + j] == t[4 * j + 2]
  {
  }

  /** The loop over the pixels of a row. */
  method SplitRow(px: array<byte>, base: nat, w: nat, row: array<byte>)
    requires base + 4 * w <= px.Length && row.Length == 4 * w && row != px
    modifies row
    ensures row[..] == Planar(px[base..base + 4 * w], w)
  {
    hide Planar;
    ghost var t := px[base..base + 4 * w];
    ghost var planes := Planar(t, w);
    var j := 0;
    while j < w
      invariant j <= w
      invariant forall k :: 0 <= k < j ==> row[k] == planes[k]
      invariant forall k :: w <= k < w + j ==> row[k] == planes[k]
      invariant forall k :: 2 * w <= k < 2 * w + j ==> row[k] == planes[k]
      invariant forall k :: 3 * w <= k < 3 * w + j ==> row[k] == planes[k]
    {
      PlanarAt(t, w, j);
      row[j] := px[base + 4 * j + 3];
      row[w + j] := px[base + 4 * j];
      row[2 * w + j] := px[base + 4 * j + 1];
      row[3 * w + j] := px[base + 4 * j + 2];
      j := j + 1;
    }
  }

  lemma IsCodeOf(row: seq<byte>, w: nat, out: seq<byte>, r: int)
    requires |row| == 4 * w < WORD16 && |out| == MaxSize(4 * w)
    requires Compressed(Planar(row, w), out, MaxSize(4 * w), r)
    ensures 0 <= r <= |out| && IsCode(row, w, out[..r])
  {
    hide Chosen, Packed, OutOfRoom, Planar, Size, EncodedRow, CountBytes, MaxSize;
    CodeBound(Planar(row, w));
  }

  /** One row, compressed into a buffer of the queried size, which never fails. */
  method CodeRow(px: array<byte>, base: nat, w: nat) returns (code: seq<byte>)
    requires base + 4 * w <= px.Length && 4 * w < WORD16
    ensures IsCode(px[base..base + 4 * w], w, code)
  {
    hide Compressed, IsCode, Planar, MaxSize;
    var cmpBufSize := CompressUsingRLE(null, 4 * w, null, 0);
    MaxSizePositive(4 * w);
    var row, cmpBuf := new byte[4 * w], new byte[cmpBufSize];
    SplitRow(px, base, w, row);
    assert row[..4 * w] == row[..];
    var cmpLength := CompressUsingRLE(row, 4 * w, cmpBuf, cmpBufSize);
    IsCodeOf(px[base..base + 4 * w], w, cmpBuf[..], cmpLength);
    code := cmpBuf[..cmpLength];
    assert code == cmpBuf[..][..cmpLength];
  }

  lemma MaxSizePositive(n: nat)
    ensures MaxSize(n) > 0
  {
  }

  /** `ConvertRGBAToPICT`: the size a buffer should have, or the document in the
      first bufSize bytes of buf and its length, or -1 if it does not fit. */
  method ConvertRGBAToPICT(buf: array?<byte>, bufSize: nat, px: array<byte>, w: nat, h: nat) returns (r: int)
    requires h < WORD16 && 4 * w < WORD16 && h * (4 * w) <= px.Length
    requires buf != null ==> bufSize <= buf.Length && buf != px
    modifies buf
    ensures buf == null || bufSize == 0 ==> r == Bound(w, h)
    ensures buf == null || bufSize == 0 ==>
      r == 136 + h * ((if 4 * w > 250 then 2 else 1) + 4 * w + (4 * w + 126) / 127)
    ensures buf != null && bufSize > 0 ==> Converted(ImageOf(px[..], w, h), buf[..], bufSize, r)
    ensures buf != null && bufSize > 0 && r != -1 ==>
      2 <= r <= buf.Length && buf[0] as int * 256 + buf[1] as int == if r > 65535 then 65535 else r
    ensures buf != null ==> forall i :: bufSize <= i < buf.Length ==> buf[i] == old(buf[i])
  {
    if buf == null || bufSize == 0 {
      return Bound(w, h);
    }
    hide DocumentLength, AreCodes, Cut;
    if bufSize < INITIAL_SIZE {
      TooSmall(ImageOf(px[..], w, h), buf[..], bufSize);
      return -1;
    }
    r := WriteDocument(buf, bufSize, px, w, h);
    if r != -1 {
      SizeInFront(ImageOf(px[..], w, h), buf[..], bufSize, r);
    }
  }

  lemma SizeInFront(m: Image, buf: seq<byte>, cap: nat, r: int)
    requires ValidImage(m) && Converted(m, buf, cap, r) && r != -1
    ensures 2 <= r <= |buf| && buf[0] as int * 256 + buf[1] as int == if r > 65535 then 65535 else r
  {
    hide AreCodes, CodesLength, Header, Join;
    var codes :| AreCodes(m.w, m.rows, codes) && IsDocument(m, codes, buf[..r]);
    assert |buf[..r]| == r && buf[..r][0] == buf[0] && buf[..r][1] == buf[1];
    if r <= 65535 { TwoDigits(r); }
  }

  /** The document is in the buffer and r is its length; or it does not fit and r is -1. */
  ghost predicate Converted(m: Image, buf: seq<byte>, cap: nat, r: int)
    requires ValidImage(m)
  {
    (r == -1 <==> cap < DocumentLength(m)) &&
    (r != -1 ==> r == DocumentLength(m) <= |buf| &&
                 exists codes :: AreCodes(m.w, m.rows, codes) && IsDocument(m, codes, buf[..r]))
  }

  ghost predicate IsDocument(m: Image, codes: seq<seq<byte>>, s: seq<byte>) {
    s == SizeField(|s|) + (Header(m.w, m.h) + Join(codes) + [0x00, 0xff])
  }

  /** A conversion into a buffer of the size from the query never fails. If the size the
      row encoder asks for is one it can count, what is left there reads back as the image. */
  lemma QueriedSizeSuffices(m: Image, buf: seq<byte>, cap: nat, r: int)
    requires ValidImage(m) && m.h < WORD16 && Converted(m, buf, cap, r) && cap >= Bound(m.w, m.h)
    ensures 0 <= r <= |buf| && r <= cap
    ensures Countable(m) ==> ReadPict(buf[..r]) == Some(m)
  {
    hide ReadPict, Bound, SizeField, MaxSize, DocumentLength, Join, RowCodes;
    BoundSuffices(m);
    if Countable(m) {
      var codes :| AreCodes(m.w, m.rows, codes) && IsDocument(m, codes, buf[..r]);
      CodesAreRowCodes(m.w, m.rows, codes);
      SizeFieldLength(r);
      ReadsBack(m, SizeField(r));
    }
  }

  lemma SizeFieldLength(total: nat)
    ensures |SizeField(total)| == 2
  {
  }

  lemma TooSmall(m: Image, buf: seq<byte>, cap: nat)
    requires ValidImage(m) && cap < INITIAL_SIZE + 2
    ensures Converted(m, buf, cap, -1)
  {
  }

  method WriteDocument(buf: array<byte>, cap: nat, px: array<byte>, w: nat, h: nat) returns (r: int)
    requires 4 * w < WORD16 && h * (4 * w) <= px.Length
    requires INITIAL_SIZE <= cap <= buf.Length && buf != px
    modifies buf
    ensures Converted(ImageOf(px[..], w, h), buf[..], cap, r)
    ensures forall i :: cap <= i < buf.Length ==> buf[i] == old(buf[i])
  {
    hide IsCode, AreCodes, CodesLength, Opening, Clip, PixMap, Filled, Cut, Converted, Join;
    ghost var text, m := px[..], ImageOf(px[..], w, h);
    FilledNothing(buf[..]);
    var cursor := Append(buf, 2, Opening(w, h), cap, []);
    cursor := Append(buf, cursor, Clip(w, h), cap, [] + Opening(w, h));
    cursor := Append(buf, cursor, PixMap(w, h), cap, [] + Opening(w, h) + Clip(w, h));
    ghost var head, codes := Header(w, h), [];
    assert [] + Opening(w, h) + Clip(w, h) + PixMap(w, h) == head;
    var i, base: nat := 0, 0;
    assert text[0..] == text && m.rows[0..] == m.rows;
    NoCodes(w, m.rows, head);
    while i < h
      invariant i <= h && cursor == 2 + |head + Join(codes)| && base + (h - i) * (4 * w) <= px.Length
      invariant base <= px.Length && Cut(text[base..], 4 * w, h - i) == m.rows[i..]
      invariant AreCodes(w, m.rows[..i], codes)
      invariant cursor + CodesLength(w, m.rows[i..]) == INITIAL_SIZE + CodesLength(w, m.rows)
      invariant Filled(buf[..], cursor, head + Join(codes))
      invariant forall i :: cap <= i < buf.Length ==> buf[i] == old(buf[i])
    {
      RowsLeft(h - i, 4 * w);
      var code := CodeRow(px, base, w);
      RowsNext(text[base..], w, h - i);
      assert text[base..][..4 * w] == px[base..base + 4 * w];
      assert text[base..][4 * w..] == text[base + 4 * w..];
      CodeNext(w, m.rows, i, codes, code);
      if cursor + |code| > cap {
        NoRoom(m, buf[..], cap, cursor + |code|);
        return -1;
      }
      cursor := Append(buf, cursor, code, cap, head + Join(codes));
      assert head + Join(codes) + code == head + Join(codes + [code]);
      codes, i, base := codes + [code], i + 1, base + 4 * w;
    }
    assert m.rows[..i] == m.rows;
    LastCode(w, m.rows, i);
    if cursor + 2 > cap {
      NoRoom(m, buf[..], cap, cursor);
      return -1;
    }
    r := Finish(buf, cursor, cap, head + Join(codes));
    Done(m, buf[..], cap, r, codes);
  }

  lemma NoCodes(w: nat, rows: seq<seq<byte>>, head: seq<byte>)
    requires forall i :: 0 <= i < |rows| ==> |rows[i]| == 4 * w
    ensures AreCodes(w, rows[..0], []) && head + Join([]) == head
  {
  }

  lemma LastCode(w: nat, rows: seq<seq<byte>>, i: nat)
    requires i == |rows|
    ensures CodesLength(w, rows[i..]) == 0
  {
  }

  lemma CodeNext(w: nat, rows: seq<seq<byte>>, i: nat, codes: seq<seq<byte>>, code: seq<byte>)
    requires (forall i :: 0 <= i < |rows| ==> |rows[i]| == 4 * w) && i < |rows|
    requires AreCodes(w, rows[..i], codes) && IsCode(rows[i], w, code)
    ensures AreCodes(w, rows[..i + 1], codes + [code]) && Join(codes + [code]) == Join(codes) + code
    ensures CodesLength(w, rows[i..]) == |code| + CodesLength(w, rows[i + 1..])
  {
    hide Planar, RowCode, Wraps, Reported;
    JoinLast(codes, code);
    assert rows[..i + 1] == rows[..i] + [rows[i]];
    assert rows[i..][0] == rows[i] && rows[i..][1..] == rows[i + 1..];
    forall k | 0 <= k <= i
      ensures IsCode(rows[..i + 1][k], w, (codes + [code])[k])
    {
      if k < i { assert IsCode(rows[..i][k], w, codes[k]); }
    }
  }

  lemma NoRoom(m: Image, buf: seq<byte>, cap: nat, cursor: nat)
    requires ValidImage(m) && cursor <= INITIAL_SIZE + CodesLength(m.w, m.rows) && cap < cursor + 2
    ensures Converted(m, buf, cap, -1)
  {
  }

  lemma Done(m: Image, buf: seq<byte>, cap: nat, r: nat, codes: seq<seq<byte>>)
    requires ValidImage(m) && r == INITIAL_SIZE + CodesLength(m.w, m.rows) + 2 <= cap && r <= |buf|
    requires AreCodes(m.w, m.rows, codes)
    requires buf[..r] == SizeField(r) + (Header(m.w, m.h) + Join(codes) + [0x00, 0xff])
    ensures Converted(m, buf, cap, r)
  {
    hide AreCodes, CodesLength, Header, Join;
    assert |buf[..r]| == r;
    assert IsDocument(m, codes, buf[..r]);
  }

  lemma RowsNext(px: seq<byte>, w: nat, h: nat)
    requires 0 < h && h * (4 * w) <= |px|
    ensures 4 * w <= |px| && (h - 1) * (4 * w) <= |px| - 4 * w
    ensures Cut(px, 4 * w, h)[0] == px[..4 * w] && Cut(px, 4 * w, h)[1..] == Cut(px[4 * w..], 4 * w, h - 1)
  {
    RowsLeft(h, 4 * w);
  }

  /** The end opcode, and the size at last. */
  method Finish(buf: array<byte>, cursor: nat, cap: nat, ghost done: seq<byte>) returns (r: nat)
    requires Filled(buf[..], cursor, done) && cursor + 2 <= cap <= buf.Length
    modifies buf
    ensures r == cursor + 2 && buf[..r] == SizeField(r) + (done + [0x00, 0xff])
    ensures forall i :: cap <= i < buf.Length ==> buf[i] == old(buf[i])
  {
    r := Append(buf, cursor, [0x00, 0xff], cap, done);
    ghost var body := done + [0x00, 0xff];
    assert body == buf[2..r];
    buf[0], buf[1] := SizeField(r)[0], SizeField(r)[1];
    assert buf[..r] == [buf[0], buf[1]] + buf[2..r];
    assert buf[2..r] == body;
  }

  lemma FilledNothing(buf: seq<byte>)
    requires |buf| >= 2
    ensures Filled(buf, 2, [])
  {
  }
}
