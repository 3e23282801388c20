/** The row compressor of the PICT writer (`CompressUsingRLE`) against the PackBits
    scheme, section 9 of TIFF Revision 6.0. */
module PackBits {
  import opened Bytes

  const WORD16: int := 0x1_0000

  // ---------------------------------------------------------------- the scheme

  /** PackBits decoding; None when a packet is cut short. */
  function Unpack(s: seq<byte>): Option<seq<byte>> {
    if s == [] then Some([])
    else if s[0] == 128 then Unpack(s[1..])
    else if s[0] < 128 then
      var n := s[0] as int + 2;
      if |s| < n then None else Prepend(s[1..n], Unpack(s[n..]))
    else if |s| < 2 then None
    else Prepend(seq(257 - s[0] as int, _ => s[1]), Unpack(s[2..]))
  }

  function Prepend(a: seq<byte>, b: Option<seq<byte>>): Option<seq<byte>> {
    if b.None? then None else Some(a + b.value)
  }

  datatype Packet = Run(value: byte, count: nat) | Literals(data: seq<byte>)

  predicate ValidPacket(p: Packet) {
    if p.Run? then 2 <= p.count <= 128 else 1 <= |p.data| <= 128
  }

  predicate ValidPackets(ps: List<Packet>) {
    ps.Cons? ==> ValidPacket(ps.head) && ValidPackets(ps.tail)
  }

  /** The number of row bytes a packet stands for. */
  function PacketLength(p: Packet): nat { if p.Run? then p.count else |p.data| }

  function PacketData(p: Packet): (s: seq<byte>)
    ensures |s| == PacketLength(p)
  {
    if p.Run? then seq(p.count, _ => p.value) else p.data
  }

  function PacketBytes(p: Packet): (s: seq<byte>)
    requires ValidPacket(p)
    ensures |s| == PacketSize(p)
  {
    if p.Run? then [257 - p.count, p.value] else [|p.data| - 1] + p.data
  }

  function PacketSize(p: Packet): nat { if p.Run? then 2 else 1 + |p.data| }

  function Data(ps: List<Packet>): seq<byte> {
    if ps.Nil? then [] else PacketData(ps.head) + Data(ps.tail)
  }

  function Body(ps: List<Packet>): (s: seq<byte>)
    requires ValidPackets(ps)
    ensures |s| == Size(ps)
  {
    if ps.Nil? then [] else PacketBytes(ps.head) + Body(ps.tail)
  }

  function Size(ps: List<Packet>): nat {
    if ps.Nil? then 0 else PacketSize(ps.head) + Size(ps.tail)
  }

  lemma UnpackPacket(p: Packet, s: seq<byte>)
    requires ValidPacket(p)
    ensures Unpack(PacketBytes(p) + s) == Prepend(PacketData(p), Unpack(s))
  {
    var t := PacketBytes(p) + s;
    if p.Run? {
      assert t[2..] == s;
    } else {
      assert t[1..|p.data| + 1] == p.data && t[|p.data| + 1..] == s;
    }
  }

  /** A decoder gets back the bytes of any list of packets. */
  lemma {:induction false} UnpackBody(ps: List<Packet>)
    requires ValidPackets(ps)
    ensures Unpack(Body(ps)) == Some(Data(ps))
  {
    if ps.Cons? {
      UnpackPacket(ps.head, Body(ps.tail));
      UnpackBody(ps.tail);
    }
  }

  /** No packet stream expands to more than 64 times its length. */
  lemma {:induction false} UnpackBound(s: seq<byte>)
    requires Unpack(s).Some?
    ensures |Unpack(s).value| <= 64 * |s|
    decreases |s|
  {
    if s != [] {
      UnpackBound(s[if s[0] == 128 then 1 else if s[0] < 128 then s[0] as int + 2 else 2..]);
    }
  }

  // ---------------------------------------------------------------- the packets chosen

  /** How often row[c] is repeated right after itself, at most 127 times, m of them seen. */
  function Matches(row: seq<byte>, c: nat, m: nat): (r: nat)
    requires c + m < |row| && m <= 127
    requires forall k :: c <= k <= c + m ==> row[k] == row[c]
    ensures m <= r <= 127 && c + r < |row|
    ensures forall k :: c <= k <= c + r ==> row[k] == row[c]
    ensures r < 127 && c + r + 1 < |row| ==> row[c + r + 1] != row[c]
    decreases 127 - m
  {
    if c + m + 1 < |row| && m < 127 && row[c + m + 1] == row[c] then Matches(row, c, m + 1) else m
  }

  predicate StartsRun(row: seq<byte>, c: nat)
    requires c < |row|
  {
    c + 1 < |row| && row[c + 1] == row[c]
  }

  /** The literals after row[c], l of them seen: up to the next pair of equal
      bytes, the last byte but one, or 127. */
  function Spread(row: seq<byte>, c: nat, l: nat): (r: nat)
    requires c + l < |row| && l <= 127
    ensures l <= r <= 127 && c + r < |row| && (r > l ==> c + r + 1 < |row|)
    ensures forall k :: c + l < k <= c + r ==> !StartsRun(row, k)
    ensures r < 127 && c + r + 2 < |row| ==> StartsRun(row, c + r + 1)
    decreases 127 - l
  {
    if c + l + 2 < |row| && l < 127 && row[c + l + 1] != row[c + l + 2] then Spread(row, c, l + 1) else l
  }

  function PacketAt(row: seq<byte>, c: nat): (p: Packet)
    requires c < |row|
    ensures ValidPacket(p) && c + PacketLength(p) <= |row|
  {
    if StartsRun(row, c) then Run(row[c], Matches(row, c, 1) + 1)
    else Literals(row[c..c + Spread(row, c, 0) + 1])
  }

  /** The packets of the compressed form, from byte c on. */
  function Packed(row: seq<byte>, c: nat): (ps: List<Packet>)
    requires c <= |row|
    ensures ValidPackets(ps)
    decreases |row| - c
  {
    if c == |row| then Nil
    else Cons(PacketAt(row, c), Packed(row, c + PacketLength(PacketAt(row, c))))
  }

  /** The packets of the fallback: literals, 128 at a time. */
  function Raw(row: seq<byte>, c: nat): (ps: List<Packet>)
    requires c <= |row|
    ensures ValidPackets(ps)
    decreases |row| - c
  {
    if c == |row| then Nil
    else
      var n := if |row| - c > 128 then 128 else |row| - c;
      Cons(Literals(row[c..c + n]), Raw(row, c + n))
  }

  lemma PacketAtData(row: seq<byte>, c: nat)
    requires c < |row|
    ensures PacketData(PacketAt(row, c)) == row[c..c + PacketLength(PacketAt(row, c))]
  {
    hide Matches, Spread;
  }

  lemma {:induction false} PackedData(row: seq<byte>, c: nat)
    requires c <= |row|
    ensures Data(Packed(row, c)) == row[c..]
    decreases |row| - c
  {
    hide PacketAt;
    if c < |row| {
      PacketAtData(row, c);
      PackedData(row, c + PacketLength(PacketAt(row, c)));
    }
  }

  lemma {:induction false} RawData(row: seq<byte>, c: nat)
    requires c <= |row|
    ensures Data(Raw(row, c)) == row[c..]
    ensures 128 * (Size(Raw(row, c)) - (|row| - c)) <= |row| - c + 127
    decreases |row| - c
  {
    if c < |row| {
      RawData(row, c + if |row| - c > 128 then 128 else |row| - c);
    }
  }

  // ---------------------------------------------------------------- sizes

  function CountBytes(n: nat): (k: nat)
    ensures 1 <= k <= 2
  {
    if n > 250 then 2 else 1
  }

  /** The buffer size that is always enough. */
  function MaxSize(n: nat): nat { CountBytes(n) + n + (n + 126) / 127 }

  /** Some packet does not fit into `cap` bytes, the 16-bit cursor standing at
      pos modulo 65536. */
  predicate OutOfRoom(ps: List<Packet>, pos: nat, cap: nat) {
    ps.Cons? && (pos % WORD16 + PacketSize(ps.head) > cap || OutOfRoom(ps.tail, pos + PacketSize(ps.head), cap))
  }

  /** The packets written for a row. */
  function Chosen(row: seq<byte>, cap: nat): (ps: List<Packet>)
    ensures ValidPackets(ps)
  {
    if OutOfRoom(Packed(row, 0), CountBytes(|row|), cap) then Raw(row, 0) else Packed(row, 0)
  }

  /** Whether the packets written for a row reach past what the 16-bit cursor can count. */
  predicate Wraps(row: seq<byte>, cap: nat) {
    CountBytes(|row|) + Size(Chosen(row, cap)) >= WORD16
  }

  /** Whichever packets are written, a decoder gets back the row. */
  lemma ChosenDecodes(row: seq<byte>, cap: nat)
    ensures Unpack(Body(Chosen(row, cap))) == Some(row)
  {
    PackedData(row, 0);
    RawData(row, 0);
    UnpackBody(Chosen(row, cap));
  }

  lemma {:induction false} InRoom(ps: List<Packet>, pos: nat, cap: nat)
    requires cap < WORD16 && pos <= cap
    ensures OutOfRoom(ps, pos, cap) <==> pos + Size(ps) > cap
  {
    if ps.Cons? && pos + PacketSize(ps.head) <= cap {
      InRoom(ps.tail, pos + PacketSize(ps.head), cap);
    }
  }

  lemma RawFits(row: seq<byte>)
    ensures CountBytes(|row|) + Size(Raw(row, 0)) <= MaxSize(|row|)
  {
    RawData(row, 0);
    var n, d := |row|, Size(Raw(row, 0)) - |row|;
    assert d <= (n + 127) / 128 <= (n + 126) / 127;
  }

  /** In a buffer of the maximal size, itself below 65536, every row fits and its
      length fits the count: at most 252 in a single byte. */
  lemma MaxSizeSuffices(row: seq<byte>)
    requires MaxSize(|row|) < WORD16
    ensures CountBytes(|row|) + Size(Chosen(row, MaxSize(|row|))) <= MaxSize(|row|)
    ensures !Wraps(row, MaxSize(|row|))
    ensures |row| <= 250 ==> Size(Chosen(row, MaxSize(|row|))) <= 252
  {
    InRoom(Packed(row, 0), CountBytes(|row|), MaxSize(|row|));
    RawFits(row);
  }

  // ---------------------------------------------------------------- the compressor

  function Count(n: nat, size: nat): (s: seq<byte>)
    ensures |s| == CountBytes(n)
  {
    if n > 250 then [size / 0x100 % 0x100, size % 0x100] else [size % 0x100]
  }

  /** The count, one or two bytes, and the packets. */
  function EncodedRow(row: seq<byte>, cap: nat): (s: seq<byte>) {
    Count(|row|, Size(Chosen(row, cap))) + Body(Chosen(row, cap))
  }

  /** What a call leaves behind: r is the length, or -1. */
  ghost predicate Compressed(row: seq<byte>, out: seq<byte>, cap: nat, r: int) {
    (r == -1 <==> OutOfRoom(Packed(row, 0), CountBytes(|row|), cap) && cap < MaxSize(|row|)) &&
    (r != -1 ==> r == (CountBytes(|row|) + Size(Chosen(row, cap))) % WORD16) &&
    (r != -1 && !Wraps(row, cap) ==> r <= |out| && out[..r] == EncodedRow(row, cap))
  }

  /** The packets `ps` have been written behind the count, up to the 16-bit cursor
      `cmp`; nothing is said of the contents once the cursor has wrapped. */
  ghost predicate Written(out: seq<byte>, k: nat, cmp: nat, done: seq<byte>) {
    cmp == (k + |done|) % WORD16 && k <= 2 &&
    (done != [] && k + |done| < WORD16 ==> cmp <= |out| && out[k..cmp] == done)
  }

  lemma MatchesStep(row: seq<byte>, c: nat, m: nat)
    requires c + m < |row| && m <= 127 && forall k :: c <= k <= c + m ==> row[k] == row[c]
    ensures if c + m + 1 < |row| && m < 127 && row[c + m + 1] == row[c]
      then Matches(row, c, m) == Matches(row, c, m + 1) else Matches(row, c, m) == m
  {
  }

  lemma SpreadStep(row: seq<byte>, c: nat, l: nat)
    requires c + l < |row| && l <= 127
    ensures if c + l + 2 < |row| && l < 127 && row[c + l + 1] != row[c + l + 2]
      then Spread(row, c, l) == Spread(row, c, l + 1) else Spread(row, c, l) == l
  {
  }

  /** The inner loop over equal bytes; the cursor ends behind the run. */
  method CountMatches(row: array<byte>, n: nat, c: nat) returns (matches: nat, cursor: nat)
    requires c < n <= row.Length && StartsRun(row[..n], c)
    ensures matches == Matches(row[..n], c, 1) && cursor == c + 1 + matches
  {
    hide Matches;
    ghost var text := row[..n];
    matches, cursor := 1, c + 2;
    while cursor < n && matches < 127 && row[cursor] == row[c]
      invariant 1 <= matches <= 127 && cursor == c + 1 + matches <= n
      invariant forall k :: c <= k <= c + matches ==> text[k] == text[c]
      invariant Matches(text, c, matches) == Matches(text, c, 1)
    {
      assert text[cursor] == row[cursor] && text[c] == row[c];
      MatchesStep(text, c, matches);
      matches, cursor := matches + 1, cursor + 1;
    }
    assert cursor < n ==> text[cursor] == row[cursor] && text[c] == row[c];
    MatchesStep(text, c, matches);
  }

  /** The inner loop over differing bytes. */
  method CountLiterals(row: array<byte>, n: nat, c: nat) returns (literals: nat)
    requires c < n <= row.Length
    ensures literals == Spread(row[..n], c, 0)
  {
    hide StartsRun, Spread;
    ghost var text := row[..n];
    literals := 0;
    var cursor := c + 1;
    var nextByte := if cursor < n then row[cursor] else 0;
    while cursor + literals + 1 < n && literals < 127 && nextByte != row[cursor + literals + 1]
      invariant literals <= 127 && c + literals < n
      invariant cursor + literals < n ==> nextByte == text[cursor + literals]
      invariant Spread(text, c, literals) == Spread(text, c, 0)
    {
      assert text[c + literals + 2] == row[cursor + literals + 1];
      SpreadStep(text, c, literals);
      nextByte := row[cursor + literals + 1];
      literals := literals + 1;
    }
    assert cursor + literals + 1 < n ==> text[c + literals + 2] == row[cursor + literals + 1];
    SpreadStep(text, c, literals);
  }

  lemma CursorStep(n: nat, d: nat)
    ensures (n % WORD16 + d) % WORD16 == (n + d) % WORD16
    ensures n + d < WORD16 ==> n % WORD16 == n
  {
  }

  method PutRun(out: array<byte>, cmp: nat, matches: nat, value: byte, cap: nat) returns (cmp': nat)
    requires cmp < WORD16 && 1 <= matches <= 127 && cmp + 2 <= cap <= out.Length
    modifies out
    ensures cmp' == (cmp + 2) % WORD16
    ensures cmp + 2 < WORD16 ==> out[..][..cmp'] == old(out[..])[..cmp] + PacketBytes(Run(value, matches + 1))
    ensures forall i :: cap <= i < out.Length ==> out[i] == old(out[i])
  {
    out[cmp] := 0x100 - matches;
    cmp' := (cmp + 1) % WORD16;
    out[cmp'] := value;
    cmp' := (cmp' + 1) % WORD16;
  }

  method PutLiterals(out: array<byte>, cmp: nat, row: array<byte>, c: nat, literals: nat, cap: nat) returns (cmp': nat)
    requires cmp < WORD16 && literals <= 127 && c + literals < row.Length && row != out
    requires cmp + 2 + literals <= cap <= out.Length
    modifies out
    ensures cmp' == (cmp + 2 + literals) % WORD16
    ensures cmp + 2 + literals < WORD16 ==>
      out[..][..cmp'] == old(out[..])[..cmp] + PacketBytes(Literals(row[c..c + literals + 1]))
    ensures forall i :: cap <= i < out.Length ==> out[i] == old(out[i])
  {
    hide Put, PacketBytes;
    ghost var was, data := out[..], row[c..c + literals + 1];
    PutNothing(was, cmp);
    ghost var done: seq<byte> := [];
    cmp', done := PutByte(out, cmp, literals, cap, was, cmp, done);
    cmp', done := PutByte(out, cmp', row[c], cap, was, cmp, done);
    var i := 0;
    while i < literals
      invariant i <= literals && |done| == 2 + i && done == [literals] + data[..i + 1]
      invariant cmp' < WORD16 && cmp' <= cmp + |done| && Put(was, out[..], cmp, cmp', done)
      invariant forall j :: cap <= j < out.Length ==> out[j] == was[j]
    {
      assert data[..i + 2] == data[..i + 1] + [row[c + 1 + i]];
      cmp', done := PutByte(out, cmp', row[c + 1 + i], cap, was, cmp, done);
      i := i + 1;
    }
    assert row[c..c + literals + 1] == data == data[..i + 1];
    PutPacket(was, out[..], cmp, cmp', data, done);
  }

  /** The bytes `done` have been put behind the first cmp, the cursor being at cmp' now. */
  ghost predicate Put(was: seq<byte>, out: seq<byte>, cmp: nat, cmp': nat, done: seq<byte>) {
    |out| == |was| && cmp' == (cmp + |done|) % WORD16 &&
    (cmp + |done| < WORD16 ==> cmp' <= |out| && out[..cmp'] == was[..cmp] + done)
  }

  lemma PutNothing(was: seq<byte>, cmp: nat)
    requires cmp < WORD16 && cmp <= |was|
    ensures Put(was, was, cmp, cmp, [])
  {
  }

  lemma PutPacket(was: seq<byte>, out: seq<byte>, cmp: nat, cmp': nat, data: seq<byte>, done: seq<byte>)
    requires 1 <= |data| <= 128 && done == [|data| - 1] + data && Put(was, out, cmp, cmp', done)
    ensures cmp' == (cmp + 1 + |data|) % WORD16
    ensures cmp + 1 + |data| < WORD16 ==>
      cmp' <= |out| && cmp <= |was| && out[..cmp'] == was[..cmp] + PacketBytes(Literals(data))
  {
  }

  /** One byte to the output. */
  method PutByte(out: array<byte>, at: nat, b: byte, cap: nat,
                 ghost was: seq<byte>, ghost cmp: nat, ghost done: seq<byte>)
      returns (at': nat, ghost done': seq<byte>)
    requires at < WORD16 && at < cap <= out.Length && Put(was, out[..], cmp, at, done) && at <= cmp + |done|
    modifies out
    ensures at' < WORD16 && done' == done + [b] && Put(was, out[..], cmp, at', done') && at' <= cmp + |done'|
    ensures forall j :: cap <= j < out.Length ==> out[j] == old(out[j])
  {
    CursorStep(cmp + |done|, 1);
    done' := done + [b];
    ghost var before := out[..];
    out[at] := b;
    assert out[..at + 1] == before[..at] + [b];
    at' := (at + 1) % WORD16;
  }

  lemma PutTogether(was: seq<byte>, out: seq<byte>, cmp: nat, data: seq<byte>)
    requires 1 <= |data| <= 128 && cmp + 1 + |data| <= |out| == |was|
    requires out[cmp] == |data| - 1 && forall j :: cmp < j <= cmp + |data| ==> out[j] == data[j - cmp - 1]
    requires forall j :: 0 <= j < cmp ==> out[j] == was[j]
    ensures out[..cmp + 1 + |data|] == was[..cmp] + PacketBytes(Literals(data))
  {
  }

  /** The cursor has moved over packet p, which stands in the buffer unless the cursor wrapped. */
  ghost predicate Advanced(was: seq<byte>, out: seq<byte>, cmp: nat, cmp': nat, p: Packet)
    requires ValidPacket(p)
  {
    |was| == |out| && cmp' == (cmp + PacketSize(p)) % WORD16 &&
    (cmp + PacketSize(p) < WORD16 ==> cmp' <= |out| && out[..cmp'] == was[..cmp] + PacketBytes(p))
  }

  lemma WrittenNothing(out: seq<byte>, k: nat)
    requires k <= 2
    ensures Written(out, k, k, [])
  {
  }

  lemma SliceStep(out: seq<byte>, out': seq<byte>, k: nat, cmp: nat, cmp': nat, done: seq<byte>, more: seq<byte>)
    requires k <= cmp <= cmp' <= |out| == |out'| && (done != [] ==> out[k..cmp] == done) && cmp == k + |done|
    requires cmp' == cmp + |more| && out'[..cmp'] == out[..cmp] + more
    ensures out'[k..cmp'] == done + more
  {
    assert out'[k..cmp'] == out'[..cmp'][k..];
    assert out[..cmp][k..] == out[k..cmp];
  }

  lemma WrittenStep(out: seq<byte>, out': seq<byte>, k: nat, cmp: nat, cmp': nat, done: seq<byte>, p: Packet)
    requires ValidPacket(p) && Written(out, k, cmp, done) && Advanced(out, out', cmp, cmp', p)
    ensures Written(out', k, cmp', done + PacketBytes(p))
    ensures cmp' == (k + |done + PacketBytes(p)|) % WORD16
  {
    hide PacketBytes;
    CursorStep(k + |done|, PacketSize(p));
    if k + |done| + PacketSize(p) < WORD16 {
      SliceStep(out, out', k, cmp, cmp', done, PacketBytes(p));
    }
  }

  /** The packets `done` cover row[..c], and what is left decides whether there is room. */
  ghost predicate Stage(row: seq<byte>, c: nat, done: seq<byte>, cap: nat)
    requires c <= |row|
  {
    done + Body(Packed(row, c)) == Body(Packed(row, 0)) &&
    OutOfRoom(Packed(row, 0), CountBytes(|row|), cap) == OutOfRoom(Packed(row, c), CountBytes(|row|) + |done|, cap)
  }

  lemma StageStep(row: seq<byte>, c: nat, done: seq<byte>, cap: nat, p: Packet)
    requires c < |row| && Stage(row, c, done, cap) && p == PacketAt(row, c)
    ensures (CountBytes(|row|) + |done|) % WORD16 + PacketSize(p) > cap ==>
      OutOfRoom(Packed(row, 0), CountBytes(|row|), cap)
    ensures (CountBytes(|row|) + |done|) % WORD16 + PacketSize(p) <= cap ==>
      Stage(row, c + PacketLength(p), done + PacketBytes(p), cap)
  {
    hide OutOfRoom, Body, Packed, PacketAt, PacketBytes, CountBytes;
    var rest := Packed(row, c + PacketLength(p));
    PackedFrom(row, c);
    RoomCons(p, rest, CountBytes(|row|) + |done|, cap);
    BodyCons(p, rest, done);
  }

  lemma PackedFrom(row: seq<byte>, c: nat)
    requires c < |row|
    ensures Packed(row, c) == Cons(PacketAt(row, c), Packed(row, c + PacketLength(PacketAt(row, c))))
  {
  }

  lemma RoomCons(p: Packet, rest: List<Packet>, pos: nat, cap: nat)
    ensures OutOfRoom(Cons(p, rest), pos, cap)
      <==> pos % WORD16 + PacketSize(p) > cap || OutOfRoom(rest, pos + PacketSize(p), cap)
  {
  }

  lemma BodyCons(p: Packet, rest: List<Packet>, done: seq<byte>)
    requires ValidPacket(p) && ValidPackets(rest)
    ensures done + Body(Cons(p, rest)) == done + PacketBytes(p) + Body(rest)
  {
    assert Body(Cons(p, rest)) == PacketBytes(p) + Body(rest);
  }

  lemma StageEnd(row: seq<byte>, done: seq<byte>, cap: nat)
    requires Stage(row, |row|, done, cap)
    ensures !OutOfRoom(Packed(row, 0), CountBytes(|row|), cap) && done == Body(Packed(row, 0))
  {
    assert done + [] == done;
  }

  lemma StageStart(row: seq<byte>, cap: nat)
    ensures Stage(row, 0, [], cap)
  {
    assert [] + Body(Packed(row, 0)) == Body(Packed(row, 0));
  }

  lemma IsAdvanced(was: seq<byte>, out: seq<byte>, cmp: nat, cmp': nat, p: Packet)
    requires ValidPacket(p) && |was| == |out| && cmp <= |was| && cmp' == (cmp + PacketSize(p)) % WORD16
    requires cmp + PacketSize(p) < WORD16 ==> cmp' <= |out| && out[..cmp'] == was[..cmp] + PacketBytes(p)
    ensures Advanced(was, out, cmp, cmp', p)
  {
  }

  /** One turn of the compressing loop: the packet at row[c], unless it does not fit. */
  method WritePacket(row: array<byte>, n: nat, out: array<byte>, cap: nat, cmp: nat, c: nat)
      returns (cmp': nat, cursor: nat, full: bool)
    requires c < n <= row.Length && cmp < WORD16 && row != out && cap <= out.Length
    modifies out
    ensures full <==> cmp + PacketSize(PacketAt(row[..n], c)) > cap
    ensures full ==> out[..] == old(out[..])
    ensures !full ==> Advanced(old(out[..]), out[..], cmp, cmp', PacketAt(row[..n], c))
    ensures !full ==> cursor == c + PacketLength(PacketAt(row[..n], c))
    ensures forall i :: cap <= i < out.Length ==> out[i] == old(out[i])
  {
    hide PacketBytes, Matches, Spread, Advanced;
    cmp', cursor, full := cmp, c + 1, false;
    if cursor < n && row[cursor] == row[c] {
      var matches;
      matches, cursor := CountMatches(row, n, c);
      if cmp + 2 > cap {
        return cmp, cursor, true;
      }
      cmp' := PutRun(out, cmp, matches, row[c], cap);
      IsAdvanced(old(out[..]), out[..], cmp, cmp', Run(row[c], matches + 1));
    } else {
      var literals := CountLiterals(row, n, c);
      if cmp + 2 + literals > cap {
        return cmp, cursor, true;
      }
      assert row[c..c + literals + 1] == row[..n][c..c + literals + 1];
      cmp' := PutLiterals(out, cmp, row, c, literals, cap);
      IsAdvanced(old(out[..]), out[..], cmp, cmp', Literals(row[c..c + literals + 1]));
      cursor := cursor + literals;
    }
  }

  /** The compressing loop. */
  method WritePacked(row: array<byte>, n: nat, out: array<byte>, cap: nat) returns (cmpCursor: nat, outOfRoom: bool)
    requires n <= row.Length && row != out && cap <= out.Length
    modifies out
    ensures outOfRoom <==> OutOfRoom(Packed(row[..n], 0), CountBytes(n), cap)
    ensures !outOfRoom ==> Written(out[..], CountBytes(n), cmpCursor, Body(Packed(row[..n], 0)))
    ensures forall i :: cap <= i < out.Length ==> out[i] == old(out[i])
  {
    hide Stage, Packed, PacketAt, OutOfRoom, Body, Written, PacketBytes, Advanced;
    ghost var text, k := row[..n], CountBytes(n);
    ghost var done: seq<byte> := [];
    cmpCursor, outOfRoom := CountBytes(n), false;
    var cursor := 0;
    StageStart(text, cap);
    WrittenNothing(out[..], k);
    while cursor < n
      invariant cursor <= n && cmpCursor == (k + |done|) % WORD16
      invariant Written(out[..], k, cmpCursor, done)
      invariant Stage(text, cursor, done, cap)
      invariant forall i :: cap <= i < out.Length ==> out[i] == old(out[i])
    {
      ghost var p, was, cmp := PacketAt(text, cursor), out[..], cmpCursor;
      StageStep(text, cursor, done, cap, p);
      cmpCursor, cursor, outOfRoom := WritePacket(row, n, out, cap, cmpCursor, cursor);
      if outOfRoom {
        return;
      }
      WrittenStep(was, out[..], k, cmp, cmpCursor, done, p);
      done := done + PacketBytes(p);
    }
    StageEnd(text, done, cap);
  }

  /** The fallback: the row as literals. The buffer holds the maximal size. */
  method WriteRaw(row: array<byte>, n: nat, out: array<byte>, cap: nat) returns (cmpCursor: nat)
    requires n <= row.Length && row != out && MaxSize(n) <= cap <= out.Length
    modifies out
    ensures Written(out[..], CountBytes(n), cmpCursor, Body(Raw(row[..n], 0)))
    ensures forall i :: cap <= i < out.Length ==> out[i] == old(out[i])
  {
    hide Raw, Body, Written, PacketBytes, Advanced, MaxSize, Size, PacketSize, PacketLength, CountBytes;
    ghost var text, k := row[..n], CountBytes(n);
    ghost var done: seq<byte> := [];
    cmpCursor := CountBytes(n);
    var cursor := 0;
    WrittenNothing(out[..], k);
    while cursor < n
      invariant cursor <= n && cmpCursor == (k + |done|) % WORD16
      invariant Written(out[..], k, cmpCursor, done)
      invariant done + Body(Raw(text, cursor)) == Body(Raw(text, 0))
      invariant forall i :: cap <= i < out.Length ==> out[i] == old(out[i])
    {
      var bytesToCopy := if n - cursor > 128 then 128 else n - cursor;
      ghost var p, was, cmp := Literals(row[cursor..cursor + bytesToCopy]), out[..], cmpCursor;
      assert row[cursor..cursor + bytesToCopy] == text[cursor..cursor + bytesToCopy];
      RawStep(text, cursor, done, p);
      RawRoom(text, done, bytesToCopy, cap);
      cmpCursor := CopyRaw(out, cmpCursor, row, cursor, bytesToCopy);
      cursor := cursor + bytesToCopy;
      WrittenStep(was, out[..], k, cmp, cmpCursor, done, p);
      done := done + PacketBytes(p);
    }
    RawEnd(text, done);
  }

  lemma RawStep(row: seq<byte>, c: nat, done: seq<byte>, p: Packet)
    requires c < |row| && p == Literals(row[c..if |row| - c > 128 then c + 128 else |row|])
    requires done + Body(Raw(row, c)) == Body(Raw(row, 0))
    ensures done + PacketBytes(p) + Body(Raw(row, c + PacketLength(p))) == Body(Raw(row, 0))
    ensures |done| + 1 + |p.data| <= Size(Raw(row, 0)) && PacketLength(p) == |p.data|
  {
    hide Body, PacketBytes;
    var rest := Raw(row, c + PacketLength(p));
    assert Raw(row, c) == Cons(p, rest);
    BodyCons(p, rest, done);
  }

  lemma RawRoom(row: seq<byte>, done: seq<byte>, len: nat, cap: nat)
    requires |done| + 1 + len <= Size(Raw(row, 0)) && MaxSize(|row|) <= cap
    ensures (CountBytes(|row|) + |done|) % WORD16 + 1 + len <= cap
  {
    hide MaxSize, Raw, Size, CountBytes;
    RawFits(row);
    Modulo(CountBytes(|row|) + |done|);
  }

  lemma Modulo(n: nat)
    ensures n % WORD16 <= n
  {
  }

  lemma RawEnd(row: seq<byte>, done: seq<byte>)
    requires done + Body(Raw(row, |row|)) == Body(Raw(row, 0))
    ensures done == Body(Raw(row, 0))
  {
    assert done + [] == done;
  }

  /** A count byte and a block copy, which does not wrap. */
  method CopyRaw(out: array<byte>, cmp: nat, row: array<byte>, c: nat, len: nat) returns (cmp': nat)
    requires cmp < WORD16 && 1 <= len <= 128 && c + len <= row.Length && row != out
    requires cmp + 1 + len <= out.Length
    modifies out
    ensures cmp' == (cmp + 1 + len) % WORD16
    ensures Advanced(old(out[..]), out[..], cmp, cmp', Literals(row[c..c + len]))
    ensures forall i :: cmp + 1 + len <= i < out.Length ==> out[i] == old(out[i])
  {
    hide PacketBytes;
    ghost var data := row[c..c + len];
    out[cmp] := len - 1;
    var to := (cmp + 1) % WORD16;
    forall i | 0 <= i < len {
      out[to + i] := row[c + i];
    }
    cmp' := (to + len) % WORD16;
    assert row[c..c + len] == data;
    if cmp + 1 + len < WORD16 {
      PutTogether(old(out[..]), out[..], cmp, data);
    }
  }

  /** The count in front: (cmp - k) in k bytes. */
  method WriteCount(out: array<byte>, n: nat, cmp: nat)
    requires CountBytes(n) <= out.Length && cmp < WORD16
    modifies out
    ensures out[..CountBytes(n)] == Count(n, (cmp - CountBytes(n)) % WORD16)
    ensures forall i :: CountBytes(n) <= i < out.Length ==> out[i] == old(out[i])
  {
    var cmpLength := (cmp - CountBytes(n)) % WORD16;
    if n > 250 {
      out[0] := cmpLength / 0x100;
      out[1] := cmpLength % 0x100;
    } else {
      out[0] := cmpLength % 0x100;
    }
  }

  lemma CountThenBody(packed: seq<byte>, out: seq<byte>, k: nat, cmp: nat, count: seq<byte>, body: seq<byte>)
    requires k <= |packed| == |out| && cmp == k + |body| <= |out|
    requires out[..k] == count && forall i :: k <= i < |out| ==> out[i] == packed[i]
    requires packed[k..cmp] == body
    ensures out[..cmp] == count + body
  {
    assert out[..cmp] == out[..k] + out[k..cmp];
    assert out[k..cmp] == packed[k..cmp];
  }

  lemma CompressedIntro(row: seq<byte>, packed: seq<byte>, out: seq<byte>, cap: nat, cmp: nat)
    requires |packed| == |out| && CountBytes(|row|) <= |out|
    requires Written(packed, CountBytes(|row|), cmp, Body(Chosen(row, cap)))
    requires OutOfRoom(Packed(row, 0), CountBytes(|row|), cap) ==> MaxSize(|row|) <= cap
    requires out[..CountBytes(|row|)] == Count(|row|, (cmp - CountBytes(|row|)) % WORD16)
    requires forall i :: CountBytes(|row|) <= i < |out| ==> out[i] == packed[i]
    ensures Compressed(row, out, cap, cmp)
  {
    hide Chosen, Packed, OutOfRoom, Body, Size, Count;
    if !Wraps(row, cap) {
      CountThenBody(packed, out, CountBytes(|row|), cmp, Count(|row|, Size(Chosen(row, cap))), Body(Chosen(row, cap)));
    }
  }

  /** `CompressUsingRLE` proper: compresses row[..n] into the first bufSize bytes
      of outBuf and returns the length, -1 without enough room. Both cursors are
      16 bits wide. */
  method CompressRow(row: array<byte>, n: nat, outBuf: array<byte>, bufSize: nat) returns (r: int)
    requires n < WORD16 && n <= row.Length && 0 < bufSize <= outBuf.Length && row != outBuf
    modifies outBuf
    ensures Compressed(row[..n], outBuf[..], bufSize, r)
    ensures forall i :: bufSize <= i < outBuf.Length ==> outBuf[i] == old(outBuf[i])
  {
    hide Packed, Raw, OutOfRoom, Body, Size, Written, Compressed, MaxSize, Count, CountBytes;
    ghost var text := row[..n];
    assert |text| == n;
    var cmpCursor, outOfRoom := WritePacked(row, n, outBuf, bufSize);
    if outOfRoom {
      if bufSize < MaxSize(n) {
        NoRoom(text, outBuf[..], bufSize);
        return -1;
      }
      cmpCursor := WriteRaw(row, n, outBuf, bufSize);
    }
    ghost var packed := outBuf[..];
    RoomForCount(text, bufSize);
    WrittenCursor(packed, CountBytes(n), cmpCursor, Body(Chosen(text, bufSize)));
    WriteCount(outBuf, n, cmpCursor);
    CompressedIntro(text, packed, outBuf[..], bufSize, cmpCursor);
    r := cmpCursor;
  }

  lemma WrittenCursor(out: seq<byte>, k: nat, cmp: nat, done: seq<byte>)
    requires Written(out, k, cmp, done)
    ensures cmp < WORD16
  {
  }

  lemma NoRoom(row: seq<byte>, out: seq<byte>, cap: nat)
    requires OutOfRoom(Packed(row, 0), CountBytes(|row|), cap) && cap < MaxSize(|row|)
    ensures Compressed(row, out, cap, -1)
  {
  }

  lemma RoomForCount(row: seq<byte>, cap: nat)
    requires cap > 0 && (OutOfRoom(Packed(row, 0), CountBytes(|row|), cap) ==> MaxSize(|row|) <= cap)
    ensures CountBytes(|row|) <= cap
  {
  }

  /** `CompressUsingRLE`: with a buffer missing, the size that is always enough. */
  method CompressUsingRLE(row: array?<byte>, n: nat, outBuf: array?<byte>, bufSize: nat) returns (r: int)
    requires n < WORD16 && (row != null ==> n <= row.Length) && (outBuf != null ==> bufSize <= outBuf.Length)
    requires row == null || row != outBuf
    modifies outBuf
    ensures row == null || outBuf == null || bufSize == 0 ==>
      r == MaxSize(n) && r == n + (n + 126) / 127 + if n > 250 then 2 else 1
    ensures outBuf != null && (row == null || bufSize == 0) ==> outBuf[..] == old(outBuf[..])
    ensures row != null && outBuf != null && bufSize > 0 ==> Compressed(row[..n], outBuf[..], bufSize, r)
    ensures row != null && outBuf != null && bufSize > 0 && r != -1 && !Wraps(row[..n], bufSize) ==>
      if n > 250 then 2 <= r <= bufSize && outBuf[0] as int * 256 + outBuf[1] as int == r - 2
      else 1 <= r <= bufSize && outBuf[0] == (r - 1) % 256
    ensures outBuf != null ==> forall i :: bufSize <= i < outBuf.Length ==> outBuf[i] == old(outBuf[i])
  {
    if row == null || outBuf == null || bufSize == 0 {
      return MaxSize(n);
    }
    r := CompressRow(row, n, outBuf, bufSize);
    if r != -1 && !Wraps(row[..n], bufSize) {
      CountInFront(row[..n], outBuf[..], bufSize, r);
    }
  }

  lemma ChosenRoom(row: seq<byte>, cap: nat)
    requires cap > 0 && !Wraps(row, cap)
    requires OutOfRoom(Packed(row, 0), CountBytes(|row|), cap) ==> MaxSize(|row|) <= cap
    ensures CountBytes(|row|) + Size(Chosen(row, cap)) <= cap
  {
    hide Packed, Raw, OutOfRoom, MaxSize;
    RoomForCount(row, cap);
    RawFits(row);
    if cap < WORD16 {
      InRoom(Packed(row, 0), CountBytes(|row|), cap);
    }
  }

  /** The bytes in front of the packets are their length: two bytes for rows of more than 250
      bytes, and for others the low byte of it. */
  lemma CountInFront(row: seq<byte>, out: seq<byte>, cap: nat, r: int)
    requires |row| < WORD16 && cap > 0 && Compressed(row, out, cap, r) && r != -1 && !Wraps(row, cap)
    ensures 1 <= r <= |out| && r <= cap
    ensures if |row| > 250 then 2 <= r && out[0] as int * 256 + out[1] as int == r - 2 else out[0] == (r - 1) % 256
  {
    hide Packed, OutOfRoom, Chosen, Size, MaxSize;
    ChosenRoom(row, cap);
    var size := Size(Chosen(row, cap));
    assert r == CountBytes(|row|) + size;
    assert out[0] == out[..r][0] == Count(|row|, size)[0];
    if |row| > 250 {
      assert out[1] == out[..r][1] == Count(|row|, size)[1];
    }
  }
}
