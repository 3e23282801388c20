/** Building the header of a packet in place, and sending it. */
module EtherTransmit {
  import opened Bytes
  import opened EtherTypes
  import opened DlpiStreams
  import opened EtherReceive

  const UNITDATA_REQ: nat := 7
  const CONTROL: octet := 0x03

  /** A message block with its data block: the bytes between `rptr` and `wptr` of a buffer
      that `ref` blocks share. A message is a list of blocks. */
  class Block {
    const data: array<octet>
    const ref: nat
    var isData: bool                  // M_DATA, not M_PROTO or M_PCPROTO
    var rptr: nat
    var wptr: nat

    /** `allocb`: an empty block with room for `size` bytes. */
    constructor (size: nat)
      ensures fresh(data) && data.Length == size && ref == 1 && isData && rptr == wptr == 0
    {
      data := new octet[size](i => 0);
      ref, isData, rptr, wptr := 1, true, 0, 0;
    }

    predicate Valid()
      reads this
    {
      rptr <= wptr <= data.Length
    }

    ghost function Bytes(): seq<octet>
      requires Valid()
      reads this, data
    {
      data[rptr..wptr]
    }
  }

  /** A message: a block that has its buffer for itself shares it with no other one. */
  ghost predicate WellFormed(mp: seq<Block>)
    reads mp
  {
    (forall b :: b in mp ==> b.Valid()) &&
    (forall i, j :: 0 <= i < |mp| && 0 <= j < |mp| && i != j ==>
       mp[i] != mp[j] && (mp[i].ref == 1 ==> mp[i].data != mp[j].data))
  }

  predicate AllData(mp: seq<Block>)
    reads mp
  {
    forall b :: b in mp ==> b.isData
  }

  /** The bytes of a message. */
  ghost function Contents(mp: seq<Block>): seq<octet>
    requires forall b :: b in mp ==> b.Valid()
    reads mp, set b | b in mp :: b.data
  {
    if mp == [] then [] else mp[0].Bytes() + Contents(mp[1..])
  }

  twostate lemma {:induction false} SameContents(mp: seq<Block>)
    requires forall b :: b in mp ==> old(b.Valid()) && b.Valid() && b.Bytes() == old(b.Bytes())
    ensures Contents(mp) == old(Contents(mp))
  {
    if mp != [] {
      SameContents(mp[1..]);
    }
  }

  lemma {:induction false} ContentsLast(mp: seq<Block>, b: Block)
    requires b.Valid() && forall c :: c in mp ==> c.Valid()
    ensures Contents(mp + [b]) == Contents(mp) + b.Bytes()
  {
    if mp == [] {
      assert mp + [b] == [b] && [b][1..] == [];
    } else {
      assert (mp + [b])[1..] == mp[1..] + [b];
      ContentsLast(mp[1..], b);
    }
  }

  /** `msgdsize` */
  method MsgDSize(mp: seq<Block>) returns (size: nat)
    requires forall b :: b in mp ==> b.Valid()
    ensures AllData(mp) ==> size == |Contents(mp)|
    ensures mp != [] && !mp[0].isData && AllData(mp[1..]) ==> size == |Contents(mp[1..])|
  {
    size := 0;
    ghost var from := if mp != [] && !mp[0].isData then 1 else 0;
    for i := 0 to |mp|
      invariant AllData(mp[from..]) ==> size == if i < from then 0 else |Contents(mp[from..i])|
    {
      assert mp[i] in mp;
      if mp[i].isData {
        size := size + (mp[i].wptr - mp[i].rptr);
      }
      if i >= from {
        assert mp[from..i + 1] == mp[from..i] + [mp[i]];
        assert mp[i] == mp[from..][i - from];
        ContentsLast(mp[from..i], mp[i]);
      }
    }
    assert mp[from..|mp|] == mp[from..];
    assert mp[0..] == mp;
  }

  // ---------------------------------------------------------------- reusing a message block

  /** The block has its buffer for itself, and that is large enough. */
  predicate InRequest(b: Block, needed: nat) { b.ref == 1 && b.data.Length >= needed }

  /** The first block has its buffer for itself, with enough room before the data. */
  predicate InFront(mp: seq<Block>, needed: nat)
    reads mp
  {
    mp != [] && mp[0].ref == 1 && mp[0].rptr >= needed
  }

  method TakeHead(mp: seq<Block>, needed: nat)
    requires mp != [] && WellFormed(mp) && AllData(mp[1..]) && mp[0].data.Length >= needed
    modifies mp[0]
    ensures WellFormed(mp) && AllData(mp) && mp[0].wptr - mp[0].rptr == needed
    ensures |Contents(mp)| >= needed && Contents(mp)[needed..] == old(Contents(mp[1..]))
  {
    var head := mp[0];
    head.isData, head.rptr, head.wptr := true, 0, needed;
    SameContents(mp[1..]);
  }

  method StepBack(mp: seq<Block>, needed: nat)
    requires mp != [] && WellFormed(mp) && AllData(mp) && mp[0].rptr >= needed
    modifies mp[0]
    ensures WellFormed(mp) && AllData(mp) && mp[0].wptr - mp[0].rptr >= needed
    ensures |Contents(mp)| >= needed && Contents(mp)[needed..] == old(Contents(mp))
  {
    hide Contents;
    FirstBlock(mp);
    ghost var was := mp[0].Bytes();
    mp[0].rptr := mp[0].rptr - needed;
    SameContents(mp[1..]);
    FirstBlock(mp);
    assert mp[0].Bytes()[needed..] == was;
  }

  method PutBefore(mp: seq<Block>, needed: nat) returns (r: seq<Block>)
    requires WellFormed(mp) && AllData(mp)
    ensures |r| == |mp| + 1 && r[1..] == mp && fresh(r[0]) && fresh(r[0].data) && r[0].ref == 1
    ensures WellFormed(r) && AllData(r) && r[0].wptr - r[0].rptr == needed
    ensures |Contents(r)| >= needed && Contents(r)[needed..] == old(Contents(mp))
  {
    var b := new Block(needed);
    b.wptr := b.wptr + needed;
    SameContents(mp);
    r := [b] + mp;
    assert r[1..] == mp;
  }

  /** Which blocks are reused: all of them, all but the request, or those behind a new one. */
  twostate predicate Reused(mp: seq<Block>, new r: seq<Block>, needed: nat, memory: bool)
    requires mp != []
  {
    if InRequest(mp[0], needed) then r == mp
    else if old(InFront(mp[1..], needed)) then r == mp[1..]
    else if memory then r != [] && fresh(r[0]) && r[1..] == mp[1..]
    else r == []
  }

  /** Room for `needed` bytes in front of the data: in the block of the request, if it has
      its buffer for itself; else before the data in the first data block; else in a new
      block. The data stays as it is. No message is left if there is no memory. */
  method ReuseMessageBlock(mp: seq<Block>, needed: nat, memory: bool) returns (r: seq<Block>)
    requires mp != [] && WellFormed(mp) && AllData(mp[1..])
    modifies mp
    ensures r == [] ==> !memory
    ensures Reused(mp, r, needed, memory)
    ensures r != [] ==> WellFormed(r) && AllData(r) && Alone(r) && needed <= r[0].wptr - r[0].rptr
    ensures r != [] ==> |Contents(r)| >= needed && Contents(r)[needed..] == old(Contents(mp[1..]))
    ensures r != [] ==> r[0].data in (set b | b in mp :: b.data) || fresh(r[0].data)
  {
    hide Contents;
    if mp[0].ref == 1 && mp[0].data.Length >= needed {
      TakeHead(mp, needed);
      return mp;
    }
    r := mp[1..];
    if r != [] && r[0].ref == 1 && r[0].rptr >= needed {
      StepBack(r, needed);
    } else if memory {
      r := PutBefore(r, needed);
    } else {
      r := [];
    }
  }

  // ---------------------------------------------------------------- writing the header

  function Splice(s: seq<octet>, at: nat, x: seq<octet>): (r: seq<octet>)
    requires at + |x| <= |s|
    ensures |r| == |s|
  {
    s[..at] + x + s[at + |x|..]
  }

  /** The first block has its buffer for itself within the message. */
  ghost predicate Alone(mp: seq<Block>) {
    mp != [] && forall j :: 0 < j < |mp| ==> mp[j].data != mp[0].data
  }

  /** Overwrites bytes of the first block. */
  method Write(mp: seq<Block>, at: nat, x: seq<octet>)
    requires WellFormed(mp) && Alone(mp) && at + |x| <= mp[0].wptr - mp[0].rptr
    modifies mp[0].data
    ensures at + |x| <= |old(Contents(mp))| && Contents(mp) == Splice(old(Contents(mp)), at, x)
  {
    FirstBlock(mp);
    ghost var was, rest := mp[0].Bytes(), Contents(mp[1..]);
    Put(mp[0], at, x);
    SameContents(mp[1..]);
    FirstBlock(mp);
    SpliceFirst(was, rest, at, x);
  }

  lemma SpliceFirst(a: seq<octet>, b: seq<octet>, at: nat, x: seq<octet>)
    requires at + |x| <= |a|
    ensures Splice(a + b, at, x) == Splice(a, at, x) + b
  {
  }

  lemma FirstBlock(mp: seq<Block>)
    requires WellFormed(mp) && mp != []
    ensures forall b :: b in mp ==> b.Valid()
    ensures mp[0].Valid() && Contents(mp) == mp[0].Bytes() + Contents(mp[1..])
    ensures forall i :: 0 <= i < mp[0].wptr - mp[0].rptr ==> mp[0].data[mp[0].rptr + i] == Contents(mp)[i]
  {
    assert mp[0] in mp;
  }

  method Put(b: Block, at: nat, x: seq<octet>)
    requires b.Valid() && at + |x| <= b.wptr - b.rptr
    modifies b.data
    ensures b.Bytes() == Splice(old(b.Bytes()), at, x)
  {
    var a, lo := b.data, b.rptr + at;
    for k := 0 to |x|
      invariant forall i :: 0 <= i < a.Length ==> a[i] == if lo <= i < lo + k then x[i - lo] else old(a[i])
    {
      a[lo + k] := x[k];
    }
    assert b.Bytes() == Splice(old(b.Bytes()), at, x);
  }

  // ---------------------------------------------------------------- the header

  /** The SAP that an address names, or the stream's own. */
  function TargetSap(own: nat, dest: seq<octet>): nat {
    if |dest| == 8 || |dest| == 13 then Word16(dest[6], dest[7]) else own
  }

  /** The SNAP that an address names, or the stream's own. */
  function TargetSnap(own: snap, dest: seq<octet>): snap {
    if |dest| >= 13 then dest[8..13] else own
  }

  function Llc(t: PacketType, own: nat, dlsap: nat, s: snap): (r: seq<octet>)
    ensures |r| == HeaderLength(t) - HEADER_LENGTH
  {
    if t == Sap then [Octet(dlsap % 0x100), Octet(own % 0x100), CONTROL]
    else if t == Snap then [Octet(dlsap % 0x100), Octet(own % 0x100), CONTROL] + s
    else []
  }

  /** The type or length that goes into the header; the fast path leaves the length open. */
  function Field(t: PacketType, dlsap: nat, fastPath: bool, size: nat): (f: nat)
    ensures f < 0x10000
  {
    if t == Dix || t == UnknownType then dlsap % 0x10000
    else if fastPath then 0
    else (size % 0x10000 + HeaderLength(t) - HEADER_LENGTH) % 0x10000
  }

  predicate IsDestination(dest: seq<octet>) { 6 <= |dest| <= 13 }

  /** The header for a destination; the source address is still to come. */
  function Header(gap: address, own: nat, s: snap, dest: seq<octet>, fastPath: bool, size: nat): seq<octet>
    requires IsDestination(dest)
  {
    var dlsap := TargetSap(own, dest);
    var t := Classify(own, dlsap);
    dest[..6] + gap + Big(Field(t, dlsap, fastPath, size)) + Llc(t, own, dlsap, TargetSnap(s, dest))
  }

  /** The header as the sequence of the assignments to its parts. */
  lemma Assembled(c: seq<octet>, dest: seq<octet>, field: seq<octet>, llc: seq<octet>)
    requires IsDestination(dest) && |field| == 2 && |c| >= 14 + |llc|
    ensures Splice(Splice(Splice(c, 12, field), 0, dest[..6]), 14, llc)
         == dest[..6] + c[6..12] + field + llc + c[14 + |llc|..]
  {
  }

  function Long(s: seq<octet>, i: nat): nat
    requires i + 4 <= |s|
  {
    Word16(s[i], s[i + 1]) * 0x10000 + Word16(s[i + 2], s[i + 3])
  }

  /** The destination address of a DL_UNITDATA_REQ, seen from its first byte to the end of
      the buffer: the length and the offset are its second and third field. */
  function Destination(r: seq<octet>): seq<octet>
    requires |r| >= 12 && Long(r, 8) + Long(r, 4) <= |r|
  {
    r[Long(r, 8)..Long(r, 8) + Long(r, 4)]
  }

  /** A request of which the destination lies within the buffer. */
  ghost predicate IsRequest(r: seq<octet>) {
    |r| >= 12 && Long(r, 8) + Long(r, 4) <= |r| && IsDestination(Destination(r))
  }

  ghost function RequestOf(b: Block): seq<octet>
    requires b.Valid()
    reads b, b.data
  {
    b.data[b.rptr..]
  }

  /** A data message with an Ethernet header in the first block. */
  ghost predicate Sendable(mp: seq<Block>)
    reads mp
  {
    WellFormed(mp) && AllData(mp) && Alone(mp) && mp[0].wptr - mp[0].rptr >= HEADER_LENGTH
  }

  /** The assignments to the parts of the header. */
  method PutHeader(r: seq<Block>, dest: seq<octet>, field: seq<octet>, llc: seq<octet>)
    requires WellFormed(r) && Alone(r) && IsDestination(dest) && |field| == 2 && 14 + |llc| <= r[0].wptr - r[0].rptr
    modifies r[0].data
    ensures |old(Contents(r))| >= 14 + |llc|
    ensures Contents(r) == dest[..6] + old(Contents(r)[6..12]) + field + llc + old(Contents(r)[14 + |llc|..])
  {
    hide Contents;
    ghost var c := Contents(r);
    Write(r, 12, field);
    Write(r, 0, dest[..6]);
    Write(r, 14, llc);
    Assembled(c, dest, field, llc);
  }

  /** The request becomes the header of a packet with the data, which stays as it is. */
  method BuildTxPacketHeader(s: Stream, mp: seq<Block>, fastPath: bool, memory: bool)
      returns (r: seq<Block>, ghost gap: address)
    requires mp != [] && WellFormed(mp) && !mp[0].isData && AllData(mp[1..])
    requires IsRequest(RequestOf(mp[0])) && s.dlsap < 0x10000
    modifies mp, set b | b in mp :: b.data
    ensures r == [] ==> !memory || old(Long(RequestOf(mp[0]), 0)) != UNITDATA_REQ
    ensures r != [] ==> old(Long(RequestOf(mp[0]), 0)) == UNITDATA_REQ && Sendable(r)
    ensures r != [] ==> r[0].data in (set b | b in mp :: b.data) || fresh(r[0].data)
    ensures var dest, payload := old(Destination(RequestOf(mp[0]))), old(Contents(mp[1..]));
      r != [] ==> Contents(r) == Header(gap, s.dlsap, s.boundSnap, dest, fastPath, |payload|) + payload
  {
    hide Contents, Classify, Octet, Word16, Llc, Field, Big, WellFormed, Alone, Reused;
    gap := [0, 0, 0, 0, 0, 0];
    FirstBlock(mp);
    var request := mp[0].data[mp[0].rptr..];
    if Long(request, 0) != UNITDATA_REQ {
      r := [];
      return;
    }
    var dest := Destination(request);
    var dlsap := s.dlsap;
    if |dest| == 8 || |dest| == 13 {
      dlsap := Word16(dest[6], dest[7]);
    }
    var size := MsgDSize(mp);
    var t := Classify(s.dlsap, dlsap);
    r := ReuseMessageBlock(mp, HeaderLength(t), memory);
    if r == [] {
      return;
    }
    FirstBlock(r);
    gap := Contents(r)[6..12];
    var snapStart := if |dest| >= 13 then dest[8..13] else s.boundSnap;
    PutHeader(r, dest, Big(Field(t, dlsap, fastPath, size)), Llc(t, s.dlsap, dlsap, snapStart));
  }

  // ---------------------------------------------------------------- transmission

  /** What transmission does to the bytes of a packet. */
  function Stamped(c: seq<octet>, hardware: address): seq<octet>
    requires |c| >= 14
  {
    Splice(if Word16(c[12], c[13]) == 0 then Splice(c, 12, Big((|c| - 14) % 0x10000)) else c, 6, hardware)
  }

  /** `ether_msgb_to_buffer`: the bytes of all blocks in a row. */
  method MessageToBuffer(mp: seq<Block>) returns (frame: seq<octet>)
    requires forall b :: b in mp ==> b.Valid()
    ensures frame == Contents(mp)
  {
    frame := [];
    for i := 0 to |mp|
      invariant frame == Contents(mp[..i])
    {
      assert mp[i] in mp;
      assert mp[..i + 1] == mp[..i] + [mp[i]];
      ContentsLast(mp[..i], mp[i]);
      frame := frame + mp[i].data[mp[i].rptr..mp[i].wptr];
    }
    assert mp[..|mp|] == mp;
  }

  method TransmitPacket(mp: seq<Block>, hardware: address) returns (frame: seq<octet>)
    requires Sendable(mp)
    modifies mp[0].data
    ensures |old(Contents(mp))| >= 14 && frame == Stamped(old(Contents(mp)), hardware)
  {
    hide Contents, Octet, Big, Word16, Splice;
    FirstBlock(mp);
    var a, at := mp[0].data, mp[0].rptr;
    if Word16(a[at + 12], a[at + 13]) == 0 {
      var size := MsgDSize(mp);
      Write(mp, 12, Big((size - 14) % 0x10000));
    }
    Write(mp, 6, hardware);
    frame := MessageToBuffer(mp);
  }

  /** The frame that a stream sends with some data. */
  function Frame(own: nat, s: snap, dest: seq<octet>, payload: seq<octet>, hardware: address): (f: seq<octet>)
    requires IsDestination(dest)
  {
    var dlsap := TargetSap(own, dest);
    var t := Classify(own, dlsap);
    var llc := Llc(t, own, dlsap, TargetSnap(s, dest));
    dest[..6] + hardware + Big(WireField(t, dlsap, |llc| + |payload|)) + (llc + payload)
  }

  /** The field on the wire: the type, or else the length. */
  function WireField(t: PacketType, dlsap: nat, length: nat): (f: nat)
    ensures f < 0x10000
  {
    (if (t == Dix || t == UnknownType) && dlsap % 0x10000 != 0 then dlsap else length) % 0x10000
  }

  lemma FieldFilled(t: PacketType, dlsap: nat, fastPath: bool, size: nat, n: nat)
    requires !fastPath ==> size == n
    ensures var f, l := Field(t, dlsap, fastPath, size), HeaderLength(t) - HEADER_LENGTH + n;
      WireField(t, dlsap, l) == if f == 0 then l % 0x10000 else f
  {
  }

  lemma FieldAt(dest: address, gap: address, field: seq<octet>, rest: seq<octet>)
    requires |field| == 2
    ensures var c := dest + gap + field + rest; c[12] == field[0] && c[13] == field[1]
  {
  }

  lemma Stamp(dest: address, gap: address, n: nat, rest: seq<octet>, hardware: address)
    requires n < 0x10000
    ensures var c := dest + gap + Big(n) + rest;
      |c| >= 14 && Stamped(c, hardware) == dest + hardware + Big(if n == 0 then |rest| % 0x10000 else n) + rest
  {
    hide Octet, Big, Splice;
    FieldAt(dest, gap, Big(n), rest);
    BigBack(n);
    Filled(dest, gap, Big(n), Big(|rest| % 0x10000), rest, hardware);
  }

  /** The frames of the normal path and of the fast path, where the length is only filled
      in on transmission, are the same. */
  lemma PathsAgree(gap: address, own: nat, s: snap, dest: seq<octet>, fastPath: bool, size: nat,
                   payload: seq<octet>, hardware: address)
    requires IsDestination(dest) && (!fastPath ==> size == |payload|)
    ensures var c := Header(gap, own, s, dest, fastPath, size) + payload;
      |c| >= 14 && Stamped(c, hardware) == Frame(own, s, dest, payload, hardware)
  {
    hide Classify, Big, Octet, Llc, Stamped, Field, WireField;
    var dlsap := TargetSap(own, dest);
    var t := Classify(own, dlsap);
    var llc := Llc(t, own, dlsap, TargetSnap(s, dest));
    var field := Field(t, dlsap, fastPath, size);
    Stamp(dest[..6], gap, field, llc + payload, hardware);
    FieldFilled(t, dlsap, fastPath, size, |payload|);
    assert Header(gap, own, s, dest, fastPath, size) + payload == dest[..6] + gap + Big(field) + (llc + payload);
  }

  lemma Filled(dest: address, gap: address, field: seq<octet>, length: seq<octet>, rest: seq<octet>, hardware: address)
    requires |field| == |length| == 2
    ensures var c := dest + gap + field + rest;
      Splice(c, 6, hardware) == dest + hardware + field + rest &&
      Splice(Splice(c, 12, length), 6, hardware) == dest + hardware + length + rest
  {
  }

  /** The length in the header of 802.2, SNAP and IPX frames is the number of bytes behind
      the Ethernet header, as section 3.2.6 of IEEE 802.3 has it, up to what 16 bits hold. */
  lemma LengthField(own: nat, s: snap, dest: seq<octet>, payload: seq<octet>, hardware: address)
    requires IsDestination(dest) && Classify(own, TargetSap(own, dest)) in {Sap, Snap, Ipx}
    ensures var f := Frame(own, s, dest, payload, hardware); |f| >= 14 && Word16(f[12], f[13]) == (|f| - 14) % 0x10000
    ensures var f := Frame(own, s, dest, payload, hardware); Word16(f[12], f[13]) == |f| - 14 <==> |f| - 14 < 0x10000
  {
    hide Octet, Classify, Big, Llc, WireField, Word16;
    var dlsap := TargetSap(own, dest);
    var t := Classify(own, dlsap);
    var llc := Llc(t, own, dlsap, TargetSnap(s, dest));
    var field := Big(WireField(t, dlsap, |llc| + |payload|));
    FieldAt(dest[..6], hardware, field, llc + payload);
    BigBack(WireField(t, dlsap, |llc| + |payload|));
    LengthOnWire(t, dlsap, |llc| + |payload|);
  }

  lemma LengthOnWire(t: PacketType, dlsap: nat, n: nat)
    requires t in {Sap, Snap, Ipx}
    ensures WireField(t, dlsap, n) == n % 0x10000
  {
  }

  /** What becomes of a DL_UNITDATA_REQ: a frame goes out; or the destination comes back in
      an error indication; or, for want of memory, nothing. */
  datatype Result = Transmitted(frame: seq<octet>) | ErrorIndication(dest: seq<octet>) | Dropped

  /** DL_UNITDATA_REQ: a bound stream sends the frame, another one reports the error. */
  method UnitData(s: Stream, mp: seq<Block>, hardware: address, memory: bool) returns (r: Result)
    requires mp != [] && WellFormed(mp) && !mp[0].isData && AllData(mp[1..])
    requires IsRequest(RequestOf(mp[0])) && Long(RequestOf(mp[0]), 0) == UNITDATA_REQ && s.dlsap < 0x10000
    modifies mp, set b | b in mp :: b.data
    ensures r == Dropped ==> !memory
    ensures var dest, payload := old(Destination(RequestOf(mp[0]))), old(Contents(mp[1..]));
      r != Dropped ==> r == if s.state != Idle then ErrorIndication(dest)
                            else Transmitted(Frame(s.dlsap, s.boundSnap, dest, payload, hardware))
  {
    hide Header, Frame, Stamped, Contents, Word16;
    assert mp[0] in mp;
    ghost var dest, payload := Destination(RequestOf(mp[0])), Contents(mp[1..]);
    if s.state != Idle {
      if !memory {
        return Dropped;
      }
      return ErrorIndication(Destination(mp[0].data[mp[0].rptr..]));
    }
    var out, gap := BuildTxPacketHeader(s, mp, false, memory);
    if out == [] {
      return Dropped;
    }
    PathsAgree(gap, s.dlsap, s.boundSnap, dest, false, |payload|, payload, hardware);
    var frame := TransmitPacket(out, hardware);
    r := Transmitted(frame);
  }

  // ---------------------------------------------------------------- sending and hearing

  /** How long the length field may get before a receiver takes it for a type. */
  predicate IsLength(n: nat) { n % 0x10000 < MIN_DIX_SAP }

  lemma FrameField(own: nat, s: snap, dest: address, payload: seq<octet>, hardware: address)
    requires own < 0x10000
    ensures var f, t := Frame(own, s, dest, payload, hardware), Classify(own, own);
      |f| == HeaderLength(t) + |payload| && Word16(f[12], f[13]) == WireField(t, own, |f| - 14)
  {
    hide Octet, Classify, Big, Llc, WireField;
    var t := Classify(own, own);
    var llc := Llc(t, own, own, s);
    var field := Big(WireField(t, own, |llc| + |payload|));
    FieldAt(dest, hardware, field, llc + payload);
    BigBack(WireField(t, own, |llc| + |payload|));
  }

  lemma FrameLlc(own: nat, s: snap, dest: address, payload: seq<octet>, hardware: address)
    ensures var f, llc := Frame(own, s, dest, payload, hardware), Llc(Classify(own, own), own, own, s);
      |f| >= 14 && f[14..] == llc + payload
  {
    hide Octet, Classify, Big, Llc, WireField;
  }

  /** The 802.2 bytes of a frame with a length. */
  lemma LlcFields(own: nat, s: snap, f: packet, payload: seq<octet>)
    requires own <= 0xff && own != IPX_SAP
    requires f[14..] == Llc(Classify(own, own), own, own, s) + payload
    ensures f[14] as nat == own && f[15] as nat == own
    ensures Classify(own, own) == Snap ==> SnapOf(f) == s
  {
    OctetBack(own);
    hide Octet;
    assert f[14] == f[14..][0] && f[15] == f[14..][1];
    if Classify(own, own) == Snap {
      assert f[17..22] == f[14..][3..8];
    }
  }

  lemma HeardDix(c: Binding, f: packet)
    requires Inv(c) && c.state == Idle && c.dlsap >= MIN_DIX_SAP
    requires Proto(f) == WireField(Classify(c.dlsap, c.dlsap), c.dlsap, |f| - 14)
    ensures Matches(c, f)
  {
    hide Distinct, TypeOfAddress, Half, IsGroup, Word16;
  }

  lemma HeardSap(c: Binding, f: packet)
    requires Inv(c) && c.state == Idle && c.dlsap <= 0xff && c.dlsap != IPX_SAP && !c.acceptAll
    requires Proto(f) == WireField(Classify(c.dlsap, c.dlsap), c.dlsap, |f| - 14)
    requires f[14] as nat == c.dlsap && (c.snapStream ==> SnapOf(f) == c.snap)
    ensures Matches(c, f) <==> IsLength(|f| - 14)
  {
    hide Distinct, TypeOfAddress, Half, IsGroup, Word16;
  }

  lemma HeardIpx(c: Binding, f: packet)
    requires Inv(c) && c.state == Idle && c.dlsap == IPX_SAP && !c.acceptAll
    requires Proto(f) == WireField(Classify(c.dlsap, c.dlsap), c.dlsap, |f| - 14)
    ensures Matches(c, f) <==> IsLength(|f| - 14) && f[14] as nat == IPX_SAP
  {
    hide Distinct, TypeOfAddress, Half, IsGroup, Word16;
  }

  /** What one stream sends to a station, a stream there with the same binding hears: always
      for a classic Ethernet type; in 802.2 and SNAP exactly when the length stays below the
      types; and for IPX when, besides, the data begins with the byte 0xff. */
  lemma SentIsHeard(b: Binding, c: Binding, dest: address, payload: seq<octet>, hardware: address)
    requires Inv(b) && Inv(c) && b.state == c.state == Idle && c.dlsap == b.dlsap
    requires c.snapStream == b.snapStream && c.snap == b.snap && !c.acceptAll
    requires |Frame(b.dlsap, b.snap, dest, payload, hardware)| >= 22
    ensures var f := Frame(b.dlsap, b.snap, dest, payload, hardware);
      Matches(c, f) <==> b.dlsap >= MIN_DIX_SAP ||
                         (IsLength(|f| - 14) && (b.dlsap == IPX_SAP ==> f[14] as nat == IPX_SAP))
  {
    var f: packet := Frame(b.dlsap, b.snap, dest, payload, hardware);
    hide Frame, Llc, Word16, WireField, IsLength, Matches, SnapOf;
    FrameField(b.dlsap, b.snap, dest, payload, hardware);
    FrameLlc(b.dlsap, b.snap, dest, payload, hardware);
    if b.dlsap >= MIN_DIX_SAP {
      HeardDix(c, f);
    } else if b.dlsap == IPX_SAP {
      HeardIpx(c, f);
    } else {
      LlcFields(b.dlsap, b.snap, f, payload);
      HeardSap(c, f);
    }
  }
}
