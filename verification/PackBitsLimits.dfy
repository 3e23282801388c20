/** Which rows the 16-bit cursor of the encoder loses: those whose packets it cannot
    count, and so the rows of certain lengths. */
module PackBitsLimits {
  import opened Bytes
  import opened PackBits

  // ---------------------------------------------------------------- the encoder is near the optimum

  /** How often a byte differs from the one before it. */
  function Breaks(s: seq<byte>): nat {
    if |s| < 2 then 0 else (if s[0] == s[1] then 0 else 1) + Breaks(s[1..])
  }

  lemma {:induction false} BreaksLess(s: seq<byte>)
    requires s != []
    ensures Breaks(s) < |s|
  {
    if |s| >= 2 { BreaksLess(s[1..]); }
  }

  lemma {:induction false} BreaksJoin(a: seq<byte>, b: seq<byte>)
    ensures Breaks(a + b) <= Breaks(a) + 1 + Breaks(b)
  {
    if a == [] {
      assert a + b == b;
    } else if |a| == 1 {
      assert (a + b)[1..] == b;
    } else {
      assert (a + b)[1..] == a[1..] + b;
      BreaksJoin(a[1..], b);
    }
  }

  lemma {:induction false} BreaksEqual(n: nat, b: byte)
    ensures Breaks(seq(n, _ => b)) == 0
  {
    if n >= 2 {
      assert seq(n, _ => b)[1..] == seq(n - 1, _ => b);
      BreaksEqual(n - 1, b);
    }
  }

  /** No PackBits data holds as many breaks as it has bytes. */
  lemma {:induction false} UnpackBreaks(s: seq<byte>)
    requires Unpack(s).Some? && Unpack(s).value != []
    ensures Breaks(Unpack(s).value) < |s|
    decreases |s|
  {
    if s[0] == 128 {
      UnpackBreaks(s[1..]);
    } else {
      var n := if s[0] < 128 then s[0] as int + 2 else 2;
      var a := if s[0] < 128 then s[1..n] else seq(257 - s[0] as int, _ => s[1]);
      var b := Unpack(s[n..]).value;
      BreaksLess(a);
      BreaksJoin(a, b);
      if s[0] > 128 { BreaksEqual(257 - s[0] as int, s[1]); }
      if b == [] {
        assert a + b == a;
      } else {
        UnpackBreaks(s[n..]);
      }
    }
  }

  /** Breaks behind n equal bytes. */
  lemma {:induction false} BreaksAfterRun(row: seq<byte>, c: nat, n: nat)
    requires 1 <= n && c + n <= |row| && forall k :: c <= k < c + n ==> row[k] == row[c]
    ensures Breaks(row[c..]) == Breaks(row[c + n - 1..])
    decreases n
  {
    if n > 1 {
      assert row[c..][1..] == row[c + 1..] && row[c + 1] == row[c];
      BreaksAfterRun(row, c + 1, n - 1);
    }
  }

  /** Breaks behind n bytes that all differ from the next. */
  lemma {:induction false} BreaksAfterLiterals(row: seq<byte>, c: nat, n: nat)
    requires c + n < |row| && forall k :: c <= k < c + n ==> !StartsRun(row, k)
    ensures Breaks(row[c..]) == n + Breaks(row[c + n..])
    decreases n
  {
    if n > 0 {
      assert row[c..][1..] == row[c + 1..] && !StartsRun(row, c);
      BreaksAfterLiterals(row, c + 1, n - 1);
    }
  }

  /** Packet p at c costs two bytes a break, or two for 128 equal bytes. */
  predicate Cheap(row: seq<byte>, c: nat, p: Packet)
    requires c + PacketLength(p) <= |row|
  {
    var b, b' := Breaks(row[c..]), Breaks(row[c + PacketLength(p)..]);
    if c + PacketLength(p) == |row| then PacketSize(p) <= 2 * (b + 1)
    else (PacketSize(p) + 2 * b' <= 2 * b || (PacketSize(p) == 2 && PacketLength(p) == 128 && b == b'))
  }

  lemma RunIsCheap(row: seq<byte>, c: nat, n: nat)
    requires 2 <= n <= 128 && c + n <= |row| && forall k :: c <= k < c + n ==> row[k] == row[c]
    requires n < 128 && c + n < |row| ==> row[c + n] != row[c]
    ensures Cheap(row, c, Run(row[c], n))
  {
    BreaksAfterRun(row, c, n);
    if c + n < |row| {
      assert row[c + n - 1..][1..] == row[c + n..] && row[c + n - 1] == row[c];
    }
  }

  lemma LiteralsAreCheap(row: seq<byte>, c: nat, n: nat)
    requires 1 <= n && c + n <= |row| && forall k :: c <= k < c + n ==> !StartsRun(row, k)
    ensures Cheap(row, c, Literals(row[c..c + n]))
  {
    hide Breaks;
    BreaksAfterLiterals(row, c, if c + n < |row| then n else n - 1);
  }

  lemma PacketCost(row: seq<byte>, c: nat)
    requires c < |row|
    ensures Cheap(row, c, PacketAt(row, c))
  {
    hide Cheap, Matches, Spread;
    if StartsRun(row, c) {
      RunIsCheap(row, c, Matches(row, c, 1) + 1);
    } else {
      LiteralsAreCheap(row, c, Spread(row, c, 0) + 1);
    }
  }

  /** The compressed form, measured by breaks. */
  lemma {:induction false} PackedCost(row: seq<byte>, c: nat)
    requires c < |row|
    ensures 64 * Size(Packed(row, c)) <= 128 * (Breaks(row[c..]) + 1) + |row| - c
    decreases |row| - c
  {
    hide PacketAt, Breaks;
    PacketCost(row, c);
    var p := PacketAt(row, c);
    PackedFrom(row, c);
    if c + PacketLength(p) < |row| {
      PackedCost(row, c + PacketLength(p));
    }
  }

  /** The compressed form is at most three times as long as any other PackBits form. */
  lemma NearOptimal(row: seq<byte>, s: seq<byte>)
    requires row != [] && Unpack(s) == Some(row)
    ensures Size(Packed(row, 0)) <= 3 * |s|
  {
    UnpackBreaks(s);
    UnpackBound(s);
    PackedCost(row, 0);
    assert row[0..] == row;
  }

  /** Where a packet ends. */
  lemma PacketEnd(row: seq<byte>, c: nat)
    requires c < |row|
    ensures var p := PacketAt(row, c); var c' := c + PacketLength(p);
      if StartsRun(row, c) then PacketSize(p) == 2 && PacketLength(p) >= 2
      else (PacketSize(p) == 1 + PacketLength(p) &&
            (PacketLength(p) == 128 || c' + 1 >= |row| || StartsRun(row, c')))
  {
    hide Matches, Spread;
  }

  /** It is never longer than four thirds of the row and two bytes. */
  lemma {:induction false} PackedThirds(row: seq<byte>, c: nat)
    requires c <= |row|
    ensures 3 * Size(Packed(row, c)) <= 4 * (|row| - c) + (if c < |row| && StartsRun(row, c) then 2 else 4)
    decreases |row| - c
  {
    hide PacketAt, StartsRun;
    if c < |row| {
      PacketEnd(row, c);
      PackedFrom(row, c);
      var c' := c + PacketLength(PacketAt(row, c));
      if c' + 1 == |row| {
        LastByte(row, c');
      } else {
        PackedThirds(row, c');
      }
    }
  }

  lemma LastByte(row: seq<byte>, c: nat)
    requires c + 1 == |row|
    ensures Size(Packed(row, c)) == 2
  {
    PackedFrom(row, c);
    assert PacketAt(row, c) == Literals(row[c..c + 1]);
  }

  // ---------------------------------------------------------------- the rows that are lost

  /** The length that is reported for a row in a buffer of the queried size. */
  function Reported(row: seq<byte>): nat {
    (CountBytes(|row|) + Size(Chosen(row, MaxSize(|row|)))) % WORD16
  }

  lemma TooShort(row: seq<byte>, total: nat, s: seq<byte>)
    requires |row| < WORD16 <= total + CountBytes(|row|)
    requires CountBytes(|row|) + |s| == (CountBytes(|row|) + total) % WORD16
    requires 3 * total <= 4 * |row| + 4 || total <= MaxSize(|row|)
    ensures CountBytes(|row|) + |s| == CountBytes(|row|) + total - WORD16 && total > 3 * |s| && |row| > 0
    ensures total <= MaxSize(|row|) ==> |row| > 64 * |s|
  {
  }

  /** Where the cursor wraps, what is reported is too short for any PackBits decoder to
      yield the row, whatever bytes stand in the buffer. */
  lemma WrappedRowIsLost(row: seq<byte>, s: seq<byte>)
    requires |row| < WORD16 && Wraps(row, MaxSize(|row|)) && CountBytes(|row|) + |s| == Reported(row)
    ensures Unpack(s) != Some(row)
  {
    hide Packed, Raw, OutOfRoom, Unpack, CountBytes, MaxSize, Breaks;
    var total := Size(Chosen(row, MaxSize(|row|)));
    PackedThirds(row, 0);
    RawFits(row);
    TooShort(row, total, s);
    if Unpack(s) == Some(row) {
      if total == Size(Packed(row, 0)) {
        NearOptimal(row, s);
      } else {
        UnpackBound(s);
      }
    }
  }

  /** What a caller finds: behind the count, up to the reported length, a PackBits decoder
      gets the row. */
  ghost predicate Recovered(row: seq<byte>, out: seq<byte>, r: int) {
    var k := if |row| > 250 then 2 else 1;
    k <= r <= |out| && Unpack(out[k..r]) == Some(row)
  }

  /** A row reads back from a buffer of the queried size if and only if its packets do not
      wrap the cursor. */
  lemma RecoveredExactly(row: seq<byte>, out: seq<byte>, r: int)
    requires |row| < WORD16 && Compressed(row, out, MaxSize(|row|), r)
    ensures Recovered(row, out, r) <==> !Wraps(row, MaxSize(|row|))
  {
    hide Chosen, MaxSize, Size, Body, Unpack, Count;
    var k, cap := CountBytes(|row|), MaxSize(|row|);
    if Wraps(row, cap) {
      if Recovered(row, out, r) {
        WrappedRowIsLost(row, out[k..r]);
      }
    } else {
      ChosenDecodes(row, cap);
      assert out[k..r] == out[..r][k..] == Body(Chosen(row, cap));
    }
  }

  // ---------------------------------------------------------------- the lengths that lose rows

  /** x, y, y, x, y, y and so on: two packets for every three bytes. */
  function Triples(n: nat): (row: seq<byte>)
    ensures |row| == n
  {
    seq(n, k => if k % 3 == 0 then 0 else 1)
  }

  lemma TripleStarts(n: nat, c: nat)
    requires c < n
    ensures StartsRun(Triples(n), c) <==> c % 3 == 1 && c + 1 < n
  {
    assert c + 1 < n ==> (c + 1) % 3 == if c % 3 == 2 then 0 else c % 3 + 1;
  }

  lemma TriplePacket(n: nat, c: nat)
    requires c < n && c % 3 != 2
    ensures var p := PacketAt(Triples(n), c);
      PacketSize(p) == 2 && PacketLength(p) == if c % 3 == 1 && c + 1 < n then 2 else 1
  {
    hide Triples, Matches;
    TripleStarts(n, c);
    var row := Triples(n);
    if c % 3 == 1 && c + 1 < n {
      if c + 2 < n { TripleEnds(n, c); }
    } else if c + 1 < n {
      TripleStarts(n, c + 1);
      assert Spread(row, c, 0) == 0;
    }
  }

  lemma TripleEnds(n: nat, c: nat)
    requires c % 3 == 1 && c + 2 < n
    ensures Triples(n)[c] == Triples(n)[c + 1] == 1 && Triples(n)[c + 2] == 0
  {
    assert (c + 1) % 3 == 2 && (c + 2) % 3 == 0;
  }

  /** Every packet of the row is two bytes long, so the cursor comes by the end of its range
      without a remainder, and the buffer is never found too small. */
  lemma {:induction false} TriplesPacked(n: nat, c: nat, pos: nat, cap: nat)
    requires c <= n && (c == n || c % 3 != 2) && pos % 2 == 0 && cap >= WORD16
    ensures 3 * Size(Packed(Triples(n), c)) >= 4 * (n - c) - (if c % 3 == 1 then 2 else 0)
    ensures !OutOfRoom(Packed(Triples(n), c), pos, cap)
    decreases n - c
  {
    hide Triples, PacketAt;
    if c < n {
      TriplePacket(n, c);
      PackedFrom(Triples(n), c);
      var c' := c + PacketLength(PacketAt(Triples(n), c));
      assert c' == n || c' % 3 == if c % 3 == 0 then 1 else 0;
      TriplesPacked(n, c', pos + 2, cap);
    }
  }

  /** From 65022 bytes on the row of triples wraps the cursor. */
  lemma TriplesWrap(n: nat)
    requires n < WORD16 <= MaxSize(n)
    ensures Chosen(Triples(n), MaxSize(n)) == Packed(Triples(n), 0) && Wraps(Triples(n), MaxSize(n))
    ensures !OutOfRoom(Packed(Triples(n), 0), CountBytes(n), MaxSize(n))
  {
    hide Triples, OutOfRoom, Packed, Size;
    TriplesPacked(n, 0, CountBytes(n), MaxSize(n));
  }

  /** A row of n bytes always reads back from a buffer of the queried size, whatever the
      row, if and only if that size is below 65536. */
  lemma LengthsExactly(n: nat)
    requires n < WORD16
    ensures (forall row, out, r :: |row| == n && Compressed(row, out, MaxSize(n), r) ==> Recovered(row, out, r))
      <==> MaxSize(n) < WORD16
  {
    hide Recovered, Compressed, Triples, Wraps, MaxSize, Chosen, Packed, OutOfRoom;
    if MaxSize(n) < WORD16 {
      forall row, out, r | |row| == n && Compressed(row, out, MaxSize(n), r)
        ensures Recovered(row, out, r)
      {
        MaxSizeSuffices(row);
        RecoveredExactly(row, out, r);
      }
    } else {
      var row, out := Triples(n), seq(MaxSize(n), _ => 0);
      TriplesWrap(n);
      SomeOutcome(row, out);
      RecoveredExactly(row, out, Reported(row));
    }
  }

  lemma SomeOutcome(row: seq<byte>, out: seq<byte>)
    requires Wraps(row, MaxSize(|row|)) && !OutOfRoom(Packed(row, 0), CountBytes(|row|), MaxSize(|row|))
    ensures Compressed(row, out, MaxSize(|row|), Reported(row))
  {
  }

  /** The queried size is below 65536 for rows of up to 65021 bytes. */
  lemma LongestSafeRow(n: nat)
    ensures MaxSize(n) < WORD16 <==> n <= 65021
  {
  }

  // ---------------------------------------------------------------- the single count byte

  /** 63 triples, one byte, and then equal ones. */
  function LongPacked(n: nat): (row: seq<byte>)
    ensures |row| == n
  {
    seq(n, k => if k % 3 == 0 && k <= 189 then 0 else 1)
  }

  lemma LongPackedAt(n: nat, c: nat)
    requires 191 <= n && c < n
    ensures LongPacked(n)[c] == if c % 3 == 0 && c <= 189 then 0 else 1
    ensures StartsRun(LongPacked(n), c) <==> c + 1 < n && (c > 189 || c % 3 == 1)
  {
    assert (c + 1) % 3 == if c % 3 == 2 then 0 else c % 3 + 1;
  }

  lemma LongPacket(n: nat, c: nat)
    requires 191 <= n <= 250 && c <= 189 && c % 3 != 2
    ensures var p := PacketAt(LongPacked(n), c);
      PacketSize(p) == 2 && PacketLength(p) == if c % 3 == 1 then 2 else 1
  {
    hide LongPacked, Matches;
    LongPackedAt(n, c);
    LongPackedAt(n, c + 1);
    if c % 3 == 1 {
      LongPackedAt(n, c + 2);
    } else {
      assert Spread(LongPacked(n), c, 0) == 0;
    }
  }

  /** The run at the end. */
  lemma LastPacket(n: nat)
    requires 192 <= n <= 250
    ensures var p := PacketAt(LongPacked(n), 190); PacketSize(p) == 2 && PacketLength(p) == n - 190
  {
    hide LongPacked, Matches;
    var row := LongPacked(n);
    LongPackedAt(n, 190);
    var r := Matches(row, 190, 1);
    if r + 191 < n {
      LongPackedAt(n, r + 191);
    }
  }

  /** The two packets of a triple. */
  lemma TwoPackets(n: nat, i: nat)
    requires 191 <= n <= 250 && i < 63
    ensures Size(Packed(LongPacked(n), 3 * i)) == 4 + Size(Packed(LongPacked(n), 3 * i + 3))
  {
    hide LongPacked, PacketAt, Packed;
    LongPacket(n, 3 * i);
    LongPacket(n, 3 * i + 1);
    PackedFrom(LongPacked(n), 3 * i);
    PackedFrom(LongPacked(n), 3 * i + 1);
  }

  /** The bytes behind the triples: a literal, and a run or one more literal. */
  lemma LastPackets(n: nat)
    requires 191 <= n <= 250
    ensures Size(Packed(LongPacked(n), 189)) == 4
  {
    hide LongPacked, PacketAt;
    LongPacket(n, 189);
    PackedFrom(LongPacked(n), 189);
    if n == 191 {
      LastByte(LongPacked(n), 190);
    } else {
      LastPacket(n);
      PackedFrom(LongPacked(n), 190);
      assert Packed(LongPacked(n), n) == Nil;
      assert Size(Packed(LongPacked(n), 190)) == 2;
    }
  }

  lemma {:induction false} LongPackedSize(n: nat, i: nat)
    requires 191 <= n <= 250 && i <= 63
    ensures Size(Packed(LongPacked(n), 3 * i)) == 4 * (64 - i)
    decreases 63 - i
  {
    hide LongPacked, Packed;
    if i == 63 {
      LastPackets(n);
    } else {
      TwoPackets(n, i);
      LongPackedSize(n, i + 1);
    }
  }

  lemma {:induction false} RoomEnough(ps: List<Packet>, pos: nat, cap: nat)
    requires pos + Size(ps) <= cap && pos + Size(ps) < WORD16
    ensures !OutOfRoom(ps, pos, cap)
  {
    if ps.Cons? { RoomEnough(ps.tail, pos + PacketSize(ps.head), cap); }
  }

  /** The form written for a row of 191 to 250 bytes in a buffer of more than 256 may be one
      byte longer than its count can say. */
  lemma CountTooSmall(n: nat, cap: nat)
    requires 191 <= n <= 250 && cap > 256
    ensures !OutOfRoom(Packed(LongPacked(n), 0), CountBytes(n), cap) && Size(Chosen(LongPacked(n), cap)) == 256
  {
    hide LongPacked, Packed, OutOfRoom, Size;
    LongPackedSize(n, 0);
    RoomEnough(Packed(LongPacked(n), 0), 1, cap);
  }

  lemma CountFits(row: seq<byte>, cap: nat)
    requires |row| <= 190
    ensures Size(Chosen(row, cap)) < 256
  {
    hide Packed, Raw, OutOfRoom;
    PackedThirds(row, 0);
    RawFits(row);
  }

  lemma ShortRowFits(row: seq<byte>, cap: nat)
    requires |row| <= 250
    ensures !Wraps(row, cap)
  {
    hide Packed, Raw, OutOfRoom;
    PackedThirds(row, 0);
    RawFits(row);
  }

  /** For rows of up to 250 bytes the one byte in front is the length of the packets, whatever
      the row, if and only if the rows have no more than 190 bytes or the buffer no more than
      256; the queried size is never more than 253. */
  lemma CountExactly(n: nat, cap: nat)
    requires n <= 250 && cap > 0
    ensures MaxSize(n) <= 253
    ensures (forall row, out, r :: |row| == n && Compressed(row, out, cap, r) && r != -1 ==>
              1 <= r <= |out| && out[0] == r - 1)
      <==> n <= 190 || cap <= 256
  {
    hide Compressed, Wraps, LongPacked, Chosen, Packed, OutOfRoom;
    if n <= 190 || cap <= 256 {
      forall row, out, r | |row| == n && Compressed(row, out, cap, r) && r != -1
        ensures 1 <= r <= |out| && out[0] == r - 1
      {
        ShortRowFits(row, cap);
        CountInFront(row, out, cap, r);
        if n <= 190 {
          CountFits(row, cap);
          LengthIs(row, out, cap, r);
        }
      }
    } else {
      CountTooSmall(n, cap);
      var out := SomeOutput(n, cap);
      assert Compressed(LongPacked(n), out, cap, 257) && out[0] == 0;
    }
  }

  lemma LengthIs(row: seq<byte>, out: seq<byte>, cap: nat, r: int)
    requires Compressed(row, out, cap, r) && r != -1 && !Wraps(row, cap)
    ensures r == CountBytes(|row|) + Size(Chosen(row, cap))
  {
  }

  /** What the encoder leaves for the row that is too long for its count. */
  lemma SomeOutput(n: nat, cap: nat) returns (out: seq<byte>)
    requires 191 <= n <= 250 && cap > 256
    ensures Compressed(LongPacked(n), out, cap, 257) && out != [] && out[0] == 0
  {
    hide LongPacked, OutOfRoom, Packed;
    CountTooSmall(n, cap);
    out := EncodedRow(LongPacked(n), cap);
  }
}
