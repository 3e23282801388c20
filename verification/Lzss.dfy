/** The LZSS decoder for compressed ROM images (`decode_lzss`), refined to plain
    sliding-window LZ77. */
module Lzss {
  import opened Bytes

  const RING: int := 0x1000     // size of the ring dictionary
  const START: int := 0xfee     // ring position of the first output byte

  // ---------------------------------------------------------------- LZ77

  /** A sliding-window token: a literal byte, or `length` bytes copied from
      `distance` bytes back. */
  datatype Lz = Lit(value: byte) | Match(distance: nat, length: nat)

  /** Appends n bytes to h, each one equal to the byte d positions before it. */
  function CopyBack(h: seq<byte>, d: nat, n: nat): (r: seq<byte>)
    requires 1 <= d <= |h|
    ensures |r| == |h| + n
    decreases n
  {
    if n == 0 then h else CopyBack(h + [h[|h| - d]], d, n - 1)
  }

  function TokenLength(t: Lz): nat { if t.Lit? then 1 else t.length }

  /** Every copy starts inside the history, given k bytes of it at the start. */
  predicate Reaches(k: nat, ts: List<Lz>)
    decreases ts
  {
    ts.Cons? ==> (ts.head.Match? ==> 1 <= ts.head.distance <= k) && Reaches(k + TokenLength(ts.head), ts.tail)
  }

  function ExpandOne(h: seq<byte>, t: Lz): (r: seq<byte>)
    requires t.Match? ==> 1 <= t.distance <= |h|
    ensures |r| == |h| + TokenLength(t)
  {
    match t
    case Lit(b) => h + [b]
    case Match(d, n) => CopyBack(h, d, n)
  }

  /** The expansion of a token list after the history h. */
  function Expand(h: seq<byte>, ts: List<Lz>): (r: seq<byte>)
    requires Reaches(|h|, ts)
    ensures |h| <= |r|
    decreases ts
  {
    if ts.Nil? then h else Expand(ExpandOne(h, ts.head), ts.tail)
  }

  /** The tokens the file format can hold. */
  predicate Encodable(ts: List<Lz>) {
    ts.Cons? ==>
      (ts.head.Match? ==> 1 <= ts.head.distance <= RING && 3 <= ts.head.length <= 18) && Encodable(ts.tail)
  }

  /** A copy keeps the history and repeats what lies d bytes back, also when it
      is longer than d. */
  lemma {:induction false} CopyBackRepeats(h: seq<byte>, d: nat, n: nat)
    requires 1 <= d <= |h|
    ensures CopyBack(h, d, n)[..|h|] == h
    ensures forall i :: |h| <= i < |h| + n ==> CopyBack(h, d, n)[i] == CopyBack(h, d, n)[i - d]
    decreases n
  {
    if n > 0 {
      var h' := h + [h[|h| - d]];
      CopyBackRepeats(h', d, n - 1);
      assert CopyBack(h, d, n)[..|h|] == CopyBack(h', d, n - 1)[..|h'|][..|h|] == h;
      assert CopyBack(h, d, n)[|h|] == CopyBack(h', d, n - 1)[..|h'|][|h|] == h[|h| - d];
      assert CopyBack(h, d, n)[|h| - d] == CopyBack(h, d, n)[..|h|][|h| - d];
    }
  }

  /** What lies before the bytes a token list can reach does not matter. */
  lemma {:induction false} ExpandPrefix(w: seq<byte>, h: seq<byte>, ts: List<Lz>)
    requires Reaches(|h|, ts)
    ensures Reaches(|w + h|, ts) && Expand(w + h, ts) == w + Expand(h, ts)
    decreases ts
  {
    if ts.Cons? {
      if ts.head.Match? { CopyBackPrefix(w, h, ts.head.distance, ts.head.length); }
      assert ExpandOne(w + h, ts.head) == w + ExpandOne(h, ts.head);
      ExpandPrefix(w, ExpandOne(h, ts.head), ts.tail);
    }
  }

  lemma {:induction false} CopyBackPrefix(w: seq<byte>, h: seq<byte>, d: nat, n: nat)
    requires 1 <= d <= |h|
    ensures CopyBack(w + h, d, n) == w + CopyBack(h, d, n)
    decreases n
  {
    if n > 0 {
      var b := h[|h| - d];
      assert w + h + [b] == w + (h + [b]);
      CopyBackPrefix(w, h + [b], d, n - 1);
    }
  }

  // ---------------------------------------------------------------- the file format

  /** The distance back to ring position idx when the history holds hlen bytes. */
  function Distance(hlen: nat, idx: nat): (d: nat)
    ensures 1 <= d <= RING
  {
    (START + hlen - idx - 1) % RING + 1
  }

  function RingIdx(lo: byte, hi: byte): (i: nat)
    ensures i < RING
  {
    lo as int + hi as int / 16 * 0x100
  }

  function RingCount(hi: byte): nat { hi as int % 16 + 3 }

  /** The tokens read from src with the flag register at `mask`, the history
      holding hlen bytes; a token cut short by the end of the data is dropped. */
  function Parse(hlen: nat, mask: nat, src: seq<byte>): List<Lz>
    decreases |src|, mask < 0x100
  {
    if src == [] then Nil
    else if mask < 0x100 then Parse(hlen, src[0] as int + 0xff00, src[1..])
    else if mask % 2 == 1 then Cons(Lit(src[0]), Parse(hlen + 1, mask / 2, src[1..]))
    else if |src| == 1 then Nil
    else
      var n := RingCount(src[1]);
      Cons(Match(Distance(hlen, RingIdx(src[0], src[1])), n), Parse(hlen + n, mask / 2, src[2..]))
  }

  lemma {:induction false} ParseReaches(hlen: nat, mask: nat, src: seq<byte>)
    requires hlen >= RING
    ensures Reaches(hlen, Parse(hlen, mask, src))
    decreases |src|, mask < 0x100
  {
    if src != [] {
      if mask < 0x100 {
        ParseReaches(hlen, src[0] as int + 0xff00, src[1..]);
      } else if mask % 2 == 1 {
        ParseReaches(hlen + 1, mask / 2, src[1..]);
      } else if |src| > 1 {
        ParseReaches(hlen + RingCount(src[1]), mask / 2, src[2..]);
      }
    }
  }

  /** Everything a decoder makes of src with the flag register at `mask`, after
      at least RING bytes of history. */
  function Decoded(h: seq<byte>, mask: nat, src: seq<byte>): (r: seq<byte>)
    requires |h| >= RING
    ensures |h| <= |r|
  {
    ParseReaches(|h|, mask, src);
    Expand(h, Parse(|h|, mask, src))
  }

  // ---------------------------------------------------------------- writing the format

  /** The flag bits of the next r tokens, the first one in the least significant bit. */
  function Flags(ts: List<Lz>, r: nat): (f: nat)
    ensures f < Pow2(r)
    decreases r
  {
    if r == 0 || ts.Nil? then 0 else (if ts.head.Lit? then 1 else 0) + 2 * Flags(ts.tail, r - 1)
  }

  lemma Pow2Of8()
    ensures Pow2(8) == 0x100
  {
    assert Pow2(4) == 2 * Pow2(3) == 4 * Pow2(2) == 8 * Pow2(1) == 16;
    assert Pow2(8) == 2 * Pow2(7) == 4 * Pow2(6) == 8 * Pow2(5) == 16 * Pow2(4);
  }

  /** One token after k bytes of output: a byte, or 12 bits of ring position and
      4 bits of length - 3. */
  function Payload(k: nat, t: Lz): seq<byte>
    requires t.Match? ==> 3 <= t.length <= 18
  {
    match t
    case Lit(b) => [b]
    case Match(d, n) =>
      var idx := (START + k - d) % RING;
      [idx % 0x100, idx / 0x100 * 16 + n - 3]
  }

  /** A file: one flag byte before every eight tokens. r tokens of the current
      group are still to come. */
  function Serialise(k: nat, ts: List<Lz>, r: nat): seq<byte>
    requires Encodable(ts)
    decreases ts, r == 0
  {
    if ts.Nil? then []
    else if r == 0 then
      Pow2Of8();
      [Flags(ts, 8)] + Serialise(k, ts, 8)
    else
      Payload(k, ts.head) + Serialise(k + TokenLength(ts.head), ts.tail, r - 1)
  }

  lemma SerialiseNext(k: nat, ts: List<Lz>, r: nat)
    requires Encodable(ts) && ts.Cons? && r > 0
    ensures Serialise(k, ts, r) == Payload(k, ts.head) + Serialise(k + TokenLength(ts.head), ts.tail, r - 1)
  {
    hide Payload, Flags;
  }

  lemma SerialiseGroup(k: nat, ts: List<Lz>, zero: nat, eight: nat)
    requires Encodable(ts) && ts.Cons? && zero == 0 && eight == 8
    ensures Flags(ts, eight) < 0x100 && Serialise(k, ts, zero) == [Flags(ts, eight)] + Serialise(k, ts, eight)
  {
    hide Payload, Flags;
    Pow2Of8();
  }

  lemma PayloadBits(k: nat, d: nat, n: nat)
    requires 1 <= d <= RING && 3 <= n <= 18
    ensures var p := Payload(k, Match(d, n));
      p == [p[0], p[1]] && RingCount(p[1]) == n && Distance(RING + k, RingIdx(p[0], p[1])) == d
  {
    var idx := (START + k - d) % RING;
    Nibbles(idx / 0x100, n - 3);
    RingRoundTrip(k, d);
  }

  lemma Nibbles(a: nat, b: nat)
    requires b < 16
    ensures (a * 16 + b) / 16 == a && (a * 16 + b) % 16 == b
  {
  }

  lemma RingRoundTrip(k: nat, d: nat)
    requires 1 <= d <= RING
    ensures Distance(RING + k, (START + k - d) % RING) == d
  {
  }

  /** Reading back one token. */
  lemma ParseOne(k: nat, t: Lz, mask: nat, rest: seq<byte>)
    requires mask >= 0x100 && mask % 2 == if t.Lit? then 1 else 0
    requires t.Match? ==> 1 <= t.distance <= RING && 3 <= t.length <= 18
    ensures Parse(RING + k, mask, Payload(k, t) + rest)
         == Cons(t, Parse(RING + k + TokenLength(t), mask / 2, rest))
  {
    var src := Payload(k, t) + rest;
    match t {
      case Lit(b) =>
        assert src[1..] == rest;
      case Match(d, n) =>
        PayloadBits(k, d, n);
        assert src[2..] == rest;
    }
  }

  lemma MaskStep(ts: List<Lz>, r: nat, mask: nat)
    requires ts.Cons? && r > 0 && mask == Flags(ts, r) + Pow2(r) * 0xff
    ensures mask >= 0x100 && mask % 2 == if ts.head.Lit? then 1 else 0
    ensures mask / 2 == Flags(ts.tail, r - 1) + Pow2(r - 1) * 0xff
  {
    var b, f, p := if ts.head.Lit? then 1 else 0, Flags(ts.tail, r - 1), Pow2(r - 1);
    assert mask == b + 2 * (f + p * 0xff);
  }

  lemma ParseFlags(k: nat, ts: List<Lz>, mask: nat)
    requires Encodable(ts) && ts.Cons? && mask < 0x100
    ensures Parse(RING + k, mask, Serialise(k, ts, 0)) == Parse(RING + k, Flags(ts, 8) + 0xff00, Serialise(k, ts, 8))
  {
    hide Flags, Serialise;
    SerialiseGroup(k, ts, 0, 8);
    assert Serialise(k, ts, 0)[1..] == Serialise(k, ts, 8);
  }

  lemma NothingWritten(k: nat, r: nat)
    ensures Serialise(k, Nil, r) == []
  {
  }

  lemma PowerOne(r: nat)
    requires r == 0
    ensures Pow2(r) == 1 && forall ts :: Flags(ts, r) == 0
  {
  }

  /** Reading back a file from the middle of a group. */
  lemma {:induction false} ParseSerialise(k: nat, ts: List<Lz>, r: nat, mask: nat)
    requires Encodable(ts) && mask == Flags(ts, r) + Pow2(r) * 0xff
    ensures Parse(RING + k, mask, Serialise(k, ts, r)) == ts
    decreases ts, r == 0
  {
    hide Payload, TokenLength, Serialise, Flags, Pow2;
    if ts.Nil? {
      NothingWritten(k, r);
    } else {
      if r == 0 {
        Pow2Of8();
        PowerOne(r);
        ParseFlags(k, ts, mask);
        ParseSerialise(k, ts, 8, Flags(ts, 8) + 0xff00);
      } else {
        var k' := k + TokenLength(ts.head);
        MaskStep(ts, r, mask);
        SerialiseNext(k, ts, r);
        ParseOne(k, ts.head, mask, Serialise(k', ts.tail, r - 1));
        ParseSerialise(k', ts.tail, r - 1, mask / 2);
      }
    }
  }

  /** The format means LZ77: decoding the file of a token list gives exactly the
      list's expansion, whatever the dictionary held before. */
  lemma DecodesToExpansion(window: seq<byte>, ts: List<Lz>)
    requires |window| == RING && Encodable(ts) && Reaches(0, ts)
    ensures Decoded(window, 0, Serialise(0, ts, 0)) == window + Expand([], ts)
  {
    ParseSerialise(0, ts, 0, 0xff);
    var src := Serialise(0, ts, 0);
    assert Parse(RING, 0, src) == Parse(RING, 0xff, src);
    assert window + [] == window;
    ExpandPrefix(window, [], ts);
  }

  /** What a decoder left behind for the file of a token list is the list's expansion. */
  lemma OutputIsExpansion(stale: seq<byte>, out: seq<byte>, ts: List<Lz>)
    requires |stale| == RING && Encodable(ts) && Reaches(0, ts)
    requires stale + out == Decoded(stale, 0, Serialise(0, ts, 0))
    ensures out == Expand([], ts)
  {
    DecodesToExpansion(stale, ts);
    assert out == (stale + out)[RING..];
    assert Expand([], ts) == (stale + Expand([], ts))[RING..];
  }

  // ---------------------------------------------------------------- the bytes of the format

  lemma {:induction false} ExpandKeeps(h: seq<byte>, ts: List<Lz>)
    requires Reaches(|h|, ts)
    ensures Expand(h, ts)[..|h|] == h
    decreases ts
  {
    if ts.Cons? {
      var h' := ExpandOne(h, ts.head);
      if ts.head.Match? { CopyBackRepeats(h, ts.head.distance, ts.head.length); }
      assert h'[..|h|] == h;
      ExpandKeeps(h', ts.tail);
      assert Expand(h, ts)[..|h|] == Expand(h', ts.tail)[..|h'|][..|h|];
    }
  }

  lemma SlotDistance(k: nat, j: int, idx: nat)
    requires k - 0x1000 <= j < k && idx < 0x1000 && (0xfee + j) % 0x1000 == idx
    ensures Distance(0x1000 + k, idx) == k - j
  {
  }

  /** A copy token lo, hi after k bytes of output: its first byte is byte j, the last one
      before k whose place in the ring, from 0xfee on, is the one that the token names;
      j is negative in what the dictionary held before. The next hi % 16 + 2 bytes follow
      on from there, and decoding goes on behind the token. */
  lemma CopyToken(window: seq<byte>, out: seq<byte>, mask: nat, lo: byte, hi: byte, rest: seq<byte>, j: int)
    requires |window| == 0x1000 && mask >= 0x100 && mask % 2 == 0
    requires |out| - 0x1000 <= j < |out| && (0xfee + j) % 0x1000 == lo + hi / 16 * 0x100
    ensures var r := Decoded(window + out, mask, [lo, hi] + rest); var k, n := |out|, hi % 16 + 3;
      |r| >= 0x1000 + k + n && r[..0x1000 + k] == window + out &&
      (forall x :: 0x1000 + k <= x < 0x1000 + k + n ==> r[x] == r[x - k + j]) &&
      r == Decoded(r[..0x1000 + k + n], mask / 2, rest)
  {
    hide *;
    var h, src, n := window + out, [lo, hi] + rest, hi % 16 + 3;
    var d := |out| - j;
    TokenFields(lo, hi);
    SlotDistance(|out|, j, RingIdx(lo, hi));
    DecodedCopy(h, mask, src, d, n);
    assert src[2..] == rest;
    var h' := CopyBack(h, d, n);
    CopyBackRepeats(h, d, n);
    DecodedKeeps(h', mask / 2, rest);
    var r := Decoded(h', mask / 2, rest);
    assert r[..|h|] == r[..|h'|][..|h|];
    forall x | |h| <= x < |h| + n
      ensures r[x] == r[x - d]
    {
      assert r[x] == r[..|h'|][x] && r[x - d] == r[..|h'|][x - d];
    }
  }

  lemma TokenFields(lo: byte, hi: byte)
    ensures RingIdx(lo, hi) == lo as int + hi as int / 16 * 0x100 && RingCount(hi) == hi as int % 16 + 3
    ensures RING == 0x1000
  {
  }

  lemma DecodedKeeps(h: seq<byte>, mask: nat, src: seq<byte>)
    requires |h| >= RING
    ensures Decoded(h, mask, src)[..|h|] == h
  {
    ParseReaches(|h|, mask, src);
    ExpandKeeps(h, Parse(|h|, mask, src));
  }

  /** A literal, then three bytes from slot 0xfee, the place of the first byte of output:
      four times the literal, whatever the dictionary held. */
  lemma FirstByteRepeated(window: seq<byte>)
    requires |window| == 0x1000
    ensures Decoded(window, 0, [0x01, 0x41, 0xee, 0xf0]) == window + [0x41, 0x41, 0x41, 0x41]
  {
    hide Decoded;
    var src: seq<byte> := [0x01, 0x41, 0xee, 0xf0];
    var h: seq<byte> := window + [0x41];
    DecodedFlags(window, 0, src);
    assert src[1..] == [0x41, 0xee, 0xf0] && src[1..][1..] == [0xee, 0xf0] + [];
    DecodedLiteral(window, 0xff01, src[1..]);
    CopyToken(window, [0x41], 0x7f80, 0xee, 0xf0, [], 0);
    var r := Decoded(h, 0x7f80, [0xee, 0xf0] + []);
    DecodedEnd(r[..0x1004], 0x3fc0, []);
    assert r[0x1000] == r[..0x1001][0x1000] == 0x41;
    assert r[0x1001] == r[0x1000] && r[0x1002] == r[0x1001] && r[0x1003] == r[0x1002];
    assert r == r[..0x1001] + r[0x1001..];
  }

  lemma {:induction false} FlagOf(ts: List<Lz>, r: nat, i: nat)
    requires i < r && i < Length(ts)
    ensures Flags(ts, r) / Pow2(i) % 2 == if Nth(ts, i).Lit? then 1 else 0
    decreases i
  {
    if i > 0 {
      FlagOf(ts.tail, r - 1, i - 1);
      Halved(Flags(ts, r), Pow2(i - 1));
    }
  }

  function Length(ts: List<Lz>): nat { if ts.Nil? then 0 else 1 + Length(ts.tail) }

  function Nth(ts: List<Lz>, i: nat): Lz
    requires i < Length(ts)
  {
    if i == 0 then ts.head else Nth(ts.tail, i - 1)
  }

  /** The first byte of a group says of each of its eight tokens whether it is a literal, the
      first token in the lowest bit; a copy names the ring slot, from 0xfee on, of the byte
      it starts from, and its length less 3. */
  lemma WrittenBytes(k: nat, ts: List<Lz>, i: nat)
    requires Encodable(ts) && ts.Cons? && i < 8 && i < Length(ts)
    ensures var s := Serialise(k, ts, 0); s != [] && (s[0] / Pow2(i) % 2 == 1 <==> Nth(ts, i).Lit?)
    ensures ts.head.Match? ==>
      var s := Serialise(k, ts, 0);
      |s| >= 3 && s[1] as int + s[2] as int / 16 * 0x100 == (0xfee + k - ts.head.distance) % 0x1000 &&
      s[2] % 16 + 3 == ts.head.length
  {
    hide Flags, Payload, Nth, Length, Pow2;
    FlagOf(ts, 8, i);
    GroupStarts(k, ts);
    if ts.head.Match? {
      SlotBytes(k, ts.head.distance, ts.head.length);
    }
  }

  lemma GroupStarts(k: nat, ts: List<Lz>)
    requires Encodable(ts) && ts.Cons?
    ensures Flags(ts, 8) < 0x100 && Payload(k, ts.head) != []
    ensures var s, p := Serialise(k, ts, 0), Payload(k, ts.head); s[..1] == [Flags(ts, 8)] && p <= s[1..]
  {
    hide Flags, Payload, Serialise;
    Pow2Of8();
    SerialiseGroup(k, ts, 0, 8);
    SerialiseNext(k, ts, 8);
    assert Payload(k, ts.head) != [] by { PayloadSize(k, ts.head); }
  }

  lemma PayloadSize(k: nat, t: Lz)
    requires t.Match? ==> 3 <= t.length <= 18
    ensures Payload(k, t) != []
  {
  }

  lemma SlotBytes(k: nat, d: nat, n: nat)
    requires 1 <= d <= RING && 3 <= n <= 18
    ensures var p := Payload(k, Match(d, n));
      p == [p[0], p[1]] && p[0] as int + p[1] as int / 16 * 0x100 == (0xfee + k - d) % 0x1000 && p[1] % 16 + 3 == n
  {
    Nibbles((START + k - d) % RING / 0x100, n - 3);
  }

  // ---------------------------------------------------------------- the decoder

  /** The ring slot of history byte j (the window fills positions 0 to RING - 1). */
  function Slot(j: nat): (s: nat)
    ensures s < RING
  {
    (START + j) % RING
  }

  /** The ring holds the last RING bytes of the history. */
  ghost predicate RingHolds(dict: seq<byte>, h: seq<byte>) {
    |dict| == RING <= |h| &&
    forall j :: |h| - RING <= j < |h| ==> dict[Slot(j)] == h[j]
  }

  /** Storing the next byte keeps the ring up to date. */
  lemma RingPush(dict: seq<byte>, h: seq<byte>, b: byte)
    requires RingHolds(dict, h)
    ensures RingHolds(dict[Slot(|h|) := b], h + [b])
  {
    var dict', h' := dict[Slot(|h|) := b], h + [b];
    forall j | |h'| - RING <= j < |h'|
      ensures dict'[Slot(j)] == h'[j]
    {
      if j < |h| {
        assert Slot(j) != Slot(|h|);
      }
    }
  }

  /** The byte a copy reads lies Distance(|h|, idx) back. */
  lemma RingRead(dict: seq<byte>, h: seq<byte>, idx: nat)
    requires RingHolds(dict, h) && idx < RING
    ensures dict[idx] == h[|h| - Distance(|h|, idx)]
    ensures Distance(|h| + 1, (idx + 1) % RING) == Distance(|h|, idx)
  {
    var j := |h| - Distance(|h|, idx);
    assert Slot(j) == idx;
  }

  lemma DecodedLiteral(h: seq<byte>, mask: nat, src: seq<byte>)
    requires |h| >= RING && src != [] && mask >= 0x100 && mask % 2 == 1
    ensures Decoded(h, mask, src) == Decoded(h + [src[0]], mask / 2, src[1..])
  {
    ParseReaches(|h|, mask, src);
  }

  lemma DecodedCopy(h: seq<byte>, mask: nat, src: seq<byte>, d: nat, n: nat)
    requires |h| >= RING && |src| >= 2 && mask >= 0x100 && mask % 2 == 0
    requires d == Distance(|h|, RingIdx(src[0], src[1])) && n == RingCount(src[1])
    ensures Decoded(h, mask, src) == Decoded(CopyBack(h, d, n), mask / 2, src[2..])
  {
    ParseReaches(|h|, mask, src);
    assert Parse(|h|, mask, src) == Cons(Match(d, n), Parse(|h| + n, mask / 2, src[2..]));
  }

  lemma DecodedFlags(h: seq<byte>, mask: nat, src: seq<byte>)
    requires |h| >= RING && src != [] && mask < 0x100
    ensures Decoded(h, mask, src) == Decoded(h, src[0] as int + 0xff00, src[1..])
  {
  }

  lemma DecodedEnd(h: seq<byte>, mask: nat, src: seq<byte>)
    requires |h| >= RING && (src == [] || (|src| == 1 && mask >= 0x100 && mask % 2 == 0))
    ensures Decoded(h, mask, src) == h
  {
  }

  lemma RingInit(dict: seq<byte>, stale: seq<byte>)
    requires |dict| == |stale| == RING && forall j :: 0 <= j < RING ==> stale[j] == dict[Slot(j)]
    ensures RingHolds(dict, stale)
  {
  }

  function Prefix(src: seq<byte>, size: int): seq<byte>
    requires size <= |src|
  {
    src[..if size < 0 then 0 else size]
  }

  /** One byte to the dictionary and to the output. */
  method Emit(dict: array<byte>, dest: array<byte>, n: nat, c: byte, ghost stale: seq<byte>)
    requires dict != dest && n < dest.Length && |stale| == RING
    requires RingHolds(dict[..], stale + dest[..n])
    modifies dict, dest
    ensures RingHolds(dict[..], stale + dest[..n + 1])
    ensures stale + dest[..n + 1] == old(stale + dest[..n]) + [c]
    ensures forall i :: n < i < dest.Length ==> dest[i] == old(dest[i])
  {
    RingPush(dict[..], stale + dest[..n], c);
    ghost var ring := dict[..][Slot(RING + n) := c];
    dict[Slot(RING + n)] := c;
    assert dict[..] == ring;
    dest[n] := c;
    assert stale + dest[..n + 1] == old(stale + dest[..n]) + [c];
  }

  /** The inner loop: cnt0 bytes from ring position idx0 to the output. */
  method CopyFromRing(dict: array<byte>, dest: array<byte>, n0: nat, idx0: nat, cnt0: nat, ghost stale: seq<byte>)
      returns (n: nat)
    requires dict != dest && n0 + cnt0 <= dest.Length && idx0 < RING && |stale| == RING
    requires RingHolds(dict[..], stale + dest[..n0])
    modifies dict, dest
    ensures n == n0 + cnt0 && forall i :: n <= i < dest.Length ==> dest[i] == old(dest[i])
    ensures RingHolds(dict[..], stale + dest[..n])
    ensures stale + dest[..n] == CopyBack(old(stale + dest[..n0]), Distance(RING + n0, idx0), cnt0)
  {
    var idx: nat, cnt := idx0, cnt0;
    n := n0;
    ghost var h, d := stale + dest[..n0], Distance(RING + n0, idx0);
    while cnt > 0
      invariant 0 <= cnt <= cnt0 && n == n0 + cnt0 - cnt && idx < RING
      invariant forall i :: n <= i < dest.Length ==> dest[i] == old(dest[i])
      invariant RingHolds(dict[..], stale + dest[..n])
      invariant d == Distance(RING + n, idx)
      invariant CopyBack(stale + dest[..n], d, cnt) == CopyBack(h, d, cnt0)
    {
      RingRead(dict[..], stale + dest[..n], idx);
      Emit(dict, dest, n, dict[idx], stale);
      idx, n, cnt := (idx + 1) % RING, n + 1, cnt - 1;
    }
  }

  /** Decodes `size` bytes of src into dest. `stale` is what the uninitialised
      dictionary happened to hold, in ring order. */
  method DecodeLzss(src: array<byte>, dest: array<byte>, size: int) returns (n: nat, ghost stale: seq<byte>)
    requires size <= src.Length && src != dest
    requires forall w: seq<byte> :: |w| == RING ==> |Decoded(w, 0, Prefix(src[..], size))| <= RING + dest.Length
    modifies dest
    ensures |stale| == RING && n <= dest.Length
    ensures stale + dest[..n] == Decoded(stale, 0, Prefix(src[..], size))
    ensures forall i :: n <= i < dest.Length ==> dest[i] == old(dest[i])
  {
    hide Decoded, RingHolds, CopyBack, RingIdx, Distance;
    var dict := new byte[RING];
    ghost var init := dict[..];
    stale := seq(RING, j requires 0 <= j < RING => init[Slot(j)]);
    ghost var text := Prefix(src[..], size);
    ghost var goal := Decoded(stale, 0, text);
    var runMask: nat, left, p := 0, size, 0;
    n := 0;
    assert stale + dest[..0] == stale && text[0..] == text;
    RingInit(dict[..], stale);
    while true
      invariant 0 <= p <= |text| && text == src[..|text|]
      invariant left == |text| - p || (p == |text| && left < 0)
      invariant n <= dest.Length && forall i :: n <= i < dest.Length ==> dest[i] == old(dest[i])
      invariant RingHolds(dict[..], stale + dest[..n])
      invariant goal == Decoded(stale + dest[..n], runMask, text[p..]) && |goal| <= RING + dest.Length
      decreases left, runMask < 0x100
    {
      ghost var h := stale + dest[..n];
      if runMask < 0x100 {
        left := left - 1;
        if left < 0 {
          DecodedEnd(h, runMask, text[p..]);
          break;
        }
        DecodedFlags(h, runMask, text[p..]);
        runMask, p := src[p] as int + 0xff00, p + 1;
      }
      ghost var mask, rest := runMask, text[p..];
      var bit := runMask % 2 == 1;
      runMask := runMask / 2;
      if bit {
        left := left - 1;
        if left < 0 {
          DecodedEnd(h, mask, rest);
          break;
        }
        DecodedLiteral(h, mask, rest);
        Emit(dict, dest, n, src[p], stale);
        n, p := n + 1, p + 1;
      } else {
        left := left - 1;
        if left < 0 {
          DecodedEnd(h, mask, rest);
          break;
        }
        var lo := src[p];
        p := p + 1;
        left := left - 1;
        if left < 0 {
          DecodedEnd(h, mask, rest);
          break;
        }
        var hi := src[p];
        p := p + 1;
        var idx, cnt := RingIdx(lo, hi), RingCount(hi);
        DecodedCopy(h, mask, rest, Distance(|h|, idx), cnt);
        n := CopyFromRing(dict, dest, n, idx, cnt, stale);
      }
    }
  }
}
