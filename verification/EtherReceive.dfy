/** Handing a received packet to the streams that want it. */
module EtherReceive {
  import opened Bytes
  import opened EtherTypes
  import opened DlpiStreams

  /** A received packet, at least as long as the longest header. */
  type packet = p: seq<octet> | |p| >= 22 witness seq(22, i => 0)

  function DestAddress(p: packet): address { p[..6] }

  function SourceAddress(p: packet): address { p[6..12] }

  function SnapOf(p: packet): snap { p[17..22] }

  function Proto(p: packet): nat { Word16(p[12], p[13]) }

  function DestSap(p: packet): nat { if Proto(p) >= MIN_DIX_SAP then Proto(p) else p[14] as nat }

  function SourceSap(p: packet): nat { if Proto(p) >= MIN_DIX_SAP then Proto(p) else p[15] as nat }

  function TypeOf(p: packet): PacketType { Classify(SourceSap(p), DestSap(p)) }

  // ---------------------------------------------------------------- which streams want it

  ghost predicate Matches(b: Binding, p: packet) {
    b.state != Unbound &&
    ((b.acceptAll && DestSap(p) <= 0xff) ||
     (DestSap(p) == b.dlsap && (b.snapStream ==> SnapOf(p) == b.snap)) ||
     (DestSap(p) != b.dlsap && (TypeOf(p) == Sap || TypeOf(p) == Snap) && IsGroup(p[14]) && Half(p[14]) in b.groups))
  }

  ghost predicate Wants(b: Binding, p: packet) {
    Matches(b, p) &&
    !(TypeOfAddress(DestAddress(p)) == Multicast && b.acceptMulticasts && DestAddress(p) !in b.multicast)
  }

  /** In a reachable binding the filter is off exactly while no address is registered. */
  lemma MulticastFilter(b: Binding, p: packet)
    requires Inv(b) && TypeOfAddress(DestAddress(p)) == Multicast
    ensures Wants(b, p) <==> Matches(b, p) && (b.multicast == [] || DestAddress(p) in b.multicast)
  {
  }

  /** A classic Ethernet packet goes to the streams bound to its type and to no other. */
  lemma DixExactly(b: Binding, p: packet)
    requires Inv(b) && Proto(p) >= MIN_DIX_SAP
    ensures Matches(b, p) <==> b.state == Idle && b.dlsap == Proto(p)
  {
    hide TypeOfAddress, Half, Distinct;
  }

  /** Streams with different SNAP bindings never share a SNAP packet. */
  lemma SnapStreamsApart(b: Binding, c: Binding, p: packet)
    requires Inv(b) && Inv(c) && b.snapStream && c.snapStream && !b.acceptAll && !c.acceptAll
    requires DestSap(p) == SNAP_SAP && Wants(b, p) && Wants(c, p)
    ensures b.snap == c.snap
  {
    hide TypeOfAddress, Distinct;
  }

  /** From its bind in the 802.2 range to the unbind, whatever is requested in between, a
      stream gets every 802.2 packet for the global SAP that is not for a multicast address
      it has filtered out; unless the packet looks like IPX. */
  lemma {:induction false} GlobalSapHeard(b: Binding, run: seq<(Request, bool)>, p: packet)
    requires HearsGlobal(b)
    requires forall i :: 0 <= i < |run| ==> run[i].0 != UnbindReq
    requires Proto(p) < MIN_DIX_SAP && p[14] == GLOBAL && p[15] != GLOBAL
    ensures Matches(After(b, run), p)
  {
    GlobalSapStays(b, run);
    NotIpx(p[15]);
    hide After, TypeOfAddress, Half;
  }

  lemma NotIpx(x: octet)
    requires x != GLOBAL
    ensures x as nat != IPX_SAP
  {
  }

  // ---------------------------------------------------------------- delivery

  function HeaderLength(t: PacketType): nat {
    match t
    case Sap => HEADER_LENGTH + BASIC_HEADER_LENGTH
    case Snap => HEADER_LENGTH + BASIC_HEADER_LENGTH + SNAP_LENGTH
    case _ => HEADER_LENGTH
  }

  /** What a stream's queue gets for a message with the packet; nothing if the indication
      cannot be allocated. The headers are hidden outside raw mode, and on the fast path
      packets for one station come without the indication. */
  function Delivered(fastPath: bool, rawMode: bool, m: Message, p: packet, t: PacketType, a: AddressType, memory: bool)
    : seq<Message>
  {
    var start := if rawMode then m.start else m.start + HeaderLength(t);
    if fastPath && a == Standard then [m.(start := start)]
    else if !memory then []
    else
      var s := if t == Snap then SnapOf(p) else [];
      var dest, source := SapAddress(DestAddress(p), p[14], s), SapAddress(SourceAddress(p), p[15], s);
      [Message(m.id, start, Some(Indication(dest, source, a)))]
  }

  method HandleReceivedPacket(s: Stream, m: Message, data: seq<octet>, t: PacketType, a: AddressType, memory: bool)
    returns (queued: bool)
    requires m.start + 22 <= |data| && m.indication == None
    modifies s`rdq
    ensures s.rdq == old(s.rdq) + Delivered(s.fastPath, s.rawMode, m, data[m.start..], t, a, memory)
    ensures queued <==> Delivered(s.fastPath, s.rawMode, m, data[m.start..], t, a, memory) != []
  {
    var header := HEADER_LENGTH;
    if t == Sap {
      header := HEADER_LENGTH + BASIC_HEADER_LENGTH;
    } else if t == Snap {
      header := HEADER_LENGTH + BASIC_HEADER_LENGTH + SNAP_LENGTH;
    }
    var start := m.start;
    if s.fastPath && a == Standard {
      if !s.rawMode {
        start := start + header;
      }
      s.rdq := s.rdq + [m.(start := start)];
      return true;
    }
    if !memory {
      return false;
    }
    var p: packet := data[m.start..];
    var dest := SapAddress(p[0..6], p[14], []);
    var source := SapAddress(p[6..12], p[15], []);
    if t == Snap {
      dest := dest.(snap := p[17..22]);
      source := source.(snap := p[17..22]);
    }
    if !s.rawMode {
      start := start + header;
    }
    s.rdq := s.rdq + [Message(m.id, start, Some(Indication(dest, source, a)))];
    queued := true;
  }

  // ---------------------------------------------------------------- one message each

  /** How many of the first n streams want the packet. */
  function Count(w: seq<bool>, n: nat): nat
    requires n <= |w|
  {
    if n == 0 then 0 else Count(w, n - 1) + (if w[n - 1] then 1 else 0)
  }

  lemma {:induction false} CountGrows(w: seq<bool>, m: nat, n: nat)
    requires m <= n <= |w|
    ensures Count(w, m) <= Count(w, n)
    ensures m < n && w[m] ==> Count(w, m) < Count(w, n)
    decreases n
  {
    if m < n {
      CountGrows(w, m, n - 1);
    }
  }

  /** The message of the i-th stream: the original, number 0, for the last of those that
      want the packet, and duplicates 1, 2 and so on for those before it. */
  function Number(w: seq<bool>, i: nat): nat
    requires i < |w|
  {
    if Count(w, i + 1) == Count(w, |w|) then 0 else Count(w, i) + 1
  }

  /** No two streams get the same message. */
  lemma NumbersDistinct(w: seq<bool>, i: nat, j: nat)
    requires i < j < |w| && w[i] && w[j]
    ensures Number(w, i) != Number(w, j)
  {
    CountGrows(w, i, j);
    CountGrows(w, i + 1, j);
    CountGrows(w, j, |w|);
    CountGrows(w, j + 1, |w|);
  }

  /** The original goes to the last stream that wants the packet. */
  lemma OriginalToLast(w: seq<bool>, i: nat)
    requires i < |w| && w[i]
    ensures Number(w, i) == 0 <==> forall j :: i < j < |w| ==> !w[j]
  {
    if forall j :: i < j < |w| ==> !w[j] {
      NoneBehind(w, i + 1, |w|);
    } else {
      var j :| i < j < |w| && w[j];
      CountGrows(w, i + 1, j);
      CountGrows(w, j, |w|);
    }
  }

  lemma {:induction false} NoneBehind(w: seq<bool>, m: nat, n: nat)
    requires m <= n <= |w| && forall j :: m <= j < n ==> !w[j]
    ensures Count(w, m) == Count(w, n)
    decreases n
  {
    if m < n { NoneBehind(w, m, n - 1); }
  }

  lemma {:induction false} Taker(w: seq<bool>, c: nat, n: nat) returns (i: nat)
    requires n <= |w| && c < Count(w, n)
    ensures i < n && w[i] && Count(w, i) == c
  {
    if Count(w, n - 1) > c {
      i := Taker(w, c, n - 1);
    } else {
      i := n - 1;
    }
  }

  /** Of the packet and its duplicates each goes to some stream, if any wants it. */
  lemma NumbersAllTaken(w: seq<bool>, k: nat) returns (i: nat)
    requires k < Count(w, |w|)
    ensures i < |w| && w[i] && Number(w, i) == k
  {
    if k == 0 {
      i := Taker(w, Count(w, |w|) - 1, |w|);
    } else {
      i := Taker(w, k - 1, |w|);
    }
  }

  lemma OrZero(x: bv8, y: bv8)
    ensures x | y == 0 <==> x == 0 && y == 0
  {
  }

  lemma XorZero(x: bv8, y: bv8)
    ensures x ^ y == 0 <==> x == y
  {
  }

  /** The comparison of SNAPs, which collects the differing bits. */
  method SameSnap(x: snap, y: snap) returns (same: bool)
    ensures same <==> x == y
  {
    var sum, k := x[0] ^ y[0], 1;
    XorZero(x[0], y[0]);
    while k < 5
      invariant 1 <= k <= 5 && (sum == 0 <==> x[..k] == y[..k])
    {
      OrZero(sum, x[k] ^ y[k]);
      XorZero(x[k], y[k]);
      assert x[..k + 1] == x[..k] + [x[k]] && y[..k + 1] == y[..k] + [y[k]];
      sum := sum | (x[k] ^ y[k]);
      k := k + 1;
    }
    assert x[..5] == x && y[..5] == y;
    same := sum == 0;
  }

  /** The tests that a packet undergoes for one stream. */
  method Wanted(s: Stream, p: packet) returns (wanted: bool)
    requires s.groupSap.Length == 4
    ensures wanted <==> Wants(s.Bound(), p)
  {
    hide Halves, Half, TypeOfAddress, Classify;
    if s.state == Unbound {
      return false;
    }
    if !(s.acceptAll && DestSap(p) <= 0xff) {
      if DestSap(p) == s.dlsap {
        if s.snapStream {
          var same := SameSnap(SnapOf(p), s.boundSnap);
          if !same {
            return false;
          }
        }
      } else {
        if !((TypeOf(p) == Sap || TypeOf(p) == Snap) && p[14] & 1 != 0) {
          return false;
        }
        var isSet := s.TestGroupSAP(p[14]);
        if !isSet {
          return false;
        }
      }
    }
    if TypeOfAddress(DestAddress(p)) == Multicast && s.acceptMulticasts {
      wanted := s.IsMulticastRegistered(DestAddress(p));
      return;
    }
    wanted := true;
  }

  ghost function Opinions(streams: seq<Stream>, p: packet): (w: seq<bool>)
    requires forall s :: s in streams ==> s.groupSap.Length == 4
    reads streams, set s | s in streams :: s.groupSap
    ensures |w| == |streams|
    ensures forall i :: 0 <= i < |streams| ==> w[i] == Wants(streams[i].Bound(), p)
  {
    if streams == [] then []
    else
      var n := |streams| - 1;
      Opinions(streams[..n], p) + [Wants(streams[n].Bound(), p)]
  }

  /** How a stream passes packets on, and whether its indication can be allocated. */
  datatype Mode = Mode(fastPath: bool, rawMode: bool, memory: bool)

  ghost function Modes(streams: seq<Stream>, memory: seq<bool>): (modes: seq<Mode>)
    requires |memory| == |streams|
    reads streams
    ensures |modes| == |streams|
    ensures forall i :: 0 <= i < |streams| ==> modes[i] == Mode(streams[i].fastPath, streams[i].rawMode, memory[i])
  {
    if streams == [] then []
    else
      var n := |streams| - 1;
      Modes(streams[..n], memory[..n]) + [Mode(streams[n].fastPath, streams[n].rawMode, memory[n])]
  }

  function Share(p: packet, mode: Mode, number: nat): seq<Message> {
    Delivered(mode.fastPath, mode.rawMode, Message(number, 0, None), p, TypeOf(p), TypeOfAddress(DestAddress(p)),
              mode.memory)
  }

  /** The distribution: every stream that wants the packet gets its message, the others
      nothing; the messages that reach no queue are freed. */
  ghost predicate Distributed(p: packet, w: seq<bool>, modes: seq<Mode>, got: seq<seq<Message>>, freed: set<nat>)
    requires |modes| == |got| == |w|
  {
    && (forall i :: 0 <= i < |w| ==> got[i] == if w[i] then Share(p, modes[i], Number(w, i)) else [])
    && (forall i :: 0 <= i < |w| && w[i] ==> (Number(w, i) in freed <==> got[i] == []))
    && (Count(w, |w|) == 0 ==> freed == {0})
    && (forall k :: k in freed && k > 0 ==> k < Count(w, |w|))
  }

  /** The state after n streams: all that want the packet are served, but the one found
      last, for which the loop keeps the original. */
  ghost predicate Dealt(p: packet, w: seq<bool>, modes: seq<Mode>, n: nat, found: int, got: seq<seq<Message>>,
                        freed: set<nat>, duplicates: nat)
    requires |modes| == |got| == |w| && n <= |w|
  {
    && -1 <= found < n
    && Count(w, n) == (if found == -1 then 0 else duplicates + 1)
    && (if found == -1 then duplicates == 0 else w[found] && duplicates == Count(w, found))
    && (forall i :: 0 <= i < n && i != found ==> got[i] == if w[i] then Share(p, modes[i], Count(w, i) + 1) else [])
    && (forall i :: 0 <= i < |w| && (i >= n || i == found) ==> got[i] == [])
    && (forall i :: 0 <= i < n && i != found && w[i] ==>
          Count(w, i) < duplicates && (Count(w, i) + 1 in freed <==> got[i] == []))
    && (forall k :: k in freed ==> 0 < k <= duplicates)
  }

  lemma DealNext(p: packet, w: seq<bool>, modes: seq<Mode>, n: nat, found: int, got: seq<seq<Message>>,
                 freed: set<nat>, duplicates: nat)
    requires |modes| == |got| == |w| && n < |w| && w[n] && found >= 0
    requires Dealt(p, w, modes, n, found, got, freed, duplicates)
    ensures var s := Share(p, modes[found], duplicates + 1);
      Dealt(p, w, modes, n + 1, n, got[found := s], if s == [] then freed + {duplicates + 1} else freed, duplicates + 1)
  {
    hide Share;
    assert Count(w, n + 1) == Count(w, n) + 1;
  }

  lemma DealOther(p: packet, w: seq<bool>, modes: seq<Mode>, n: nat, found: int, got: seq<seq<Message>>,
                  freed: set<nat>, duplicates: nat)
    requires |modes| == |got| == |w| && n < |w| && (w[n] ==> found == -1)
    requires Dealt(p, w, modes, n, found, got, freed, duplicates)
    ensures Dealt(p, w, modes, n + 1, if w[n] then n else found, got, freed, duplicates)
  {
    hide Share;
    assert Count(w, n + 1) == Count(w, n) + (if w[n] then 1 else 0);
    forall i | 0 <= i < n && w[n]
      ensures !w[i]
    {
      CountGrows(w, i, n);
    }
  }

  /** The number of a stream before the last that wants the packet, and of that last. */
  lemma NumberBefore(w: seq<bool>, i: nat, found: nat)
    requires i < |w| && found < |w| && w[found] && Count(w, |w|) == Count(w, found) + 1 && w[i]
    ensures Number(w, i) == if i == found then 0 else Count(w, i) + 1
    ensures i <= found
  {
    CountGrows(w, found + 1, |w|);
    if i < found {
      CountGrows(w, i + 1, found);
    } else if i > found {
      CountGrows(w, found + 1, i);
      CountGrows(w, i, |w|);
    }
  }

  lemma DealLast(p: packet, w: seq<bool>, modes: seq<Mode>, found: nat, got: seq<seq<Message>>,
                 freed: set<nat>, duplicates: nat)
    requires |modes| == |got| == |w|
    requires Dealt(p, w, modes, |w|, found, got, freed, duplicates)
    ensures var s := Share(p, modes[found], 0);
      Distributed(p, w, modes, got[found := s], if s == [] then freed + {0} else freed)
  {
    hide Share, Number;
    forall i | 0 <= i < |w| && w[i]
      ensures Number(w, i) == if i == found then 0 else Count(w, i) + 1
    {
      NumberBefore(w, i, found);
    }
  }

  lemma DealNone(p: packet, w: seq<bool>, modes: seq<Mode>, got: seq<seq<Message>>, freed: set<nat>, duplicates: nat)
    requires |modes| == |got| == |w|
    requires Dealt(p, w, modes, |w|, -1, got, freed, duplicates)
    ensures Distributed(p, w, modes, got, {0})
  {
    hide Share, Number;
    forall i | 0 <= i < |w|
      ensures !w[i]
    {
      CountGrows(w, i, |w|);
    }
  }

  /** The packet and each duplicate of it is in the queue of exactly one stream, or freed. */
  lemma EachMessageOnce(p: packet, w: seq<bool>, modes: seq<Mode>, got: seq<seq<Message>>, freed: set<nat>, k: nat)
      returns (i: nat)
    requires |modes| == |got| == |w| && Distributed(p, w, modes, got, freed) && k < Count(w, |w|)
    ensures i < |w| && (if k in freed then got[i] == [] else |got[i]| == 1 && got[i][0].id == k)
    ensures forall j :: 0 <= j < |w| && j != i && got[j] != [] ==> |got[j]| == 1 && got[j][0].id != k
  {
    hide TypeOf, TypeOfAddress, Number;
    i := NumbersAllTaken(w, k);
    forall j | 0 <= j < |w| && j != i && w[j]
      ensures Number(w, j) != k
    {
      if i < j {
        NumbersDistinct(w, i, j);
      } else {
        NumbersDistinct(w, j, i);
      }
    }
  }

  /** When no allocation fails, every stream that wants the packet gets exactly one message,
      and nothing is freed but a packet that nobody wants. */
  lemma NothingLost(p: packet, w: seq<bool>, modes: seq<Mode>, got: seq<seq<Message>>, freed: set<nat>)
    requires |modes| == |got| == |w| && Distributed(p, w, modes, got, freed)
    requires forall i :: 0 <= i < |w| ==> modes[i].memory
    ensures forall i :: 0 <= i < |w| ==> |got[i]| == if w[i] then 1 else 0
    ensures freed == if Count(w, |w|) == 0 then {0} else {}
  {
    hide TypeOf, TypeOfAddress, Number;
    if Count(w, |w|) > 0 {
      forall k: nat
        ensures k !in freed
      {
        if k < Count(w, |w|) {
          var i := NumbersAllTaken(w, k);
        }
      }
    }
  }

  /** `ether_packet_received` for the list of streams; `memory` says for each whether its
      indication can be allocated. */
  method PacketReceived(streams: seq<Stream>, p: packet, memory: seq<bool>)
    returns (freed: set<nat>, duplicates: nat, ghost got: seq<seq<Message>>)
    requires forall i, j :: 0 <= i < j < |streams| ==> streams[i] != streams[j]
    requires forall s :: s in streams ==> s.groupSap.Length == 4
    requires |memory| == |streams|
    modifies streams`rdq
    ensures |got| == |streams|
    ensures forall i :: 0 <= i < |streams| ==> streams[i].rdq == old(streams[i].rdq) + got[i]
    ensures Distributed(p, old(Opinions(streams, p)), old(Modes(streams, memory)), got, freed)
    ensures var c := Count(old(Opinions(streams, p)), |streams|); duplicates == if c == 0 then 0 else c - 1
  {
    hide *;
    ghost var w, modes := Opinions(streams, p), Modes(streams, memory);
    var found: int := -1;
    freed, duplicates, got := {}, 0, seq(|streams|, i => []);
    Undealt(p, w, modes, got);
    for n := 0 to |streams|
      invariant -1 <= found < n && |got| == |streams|
      invariant Dealt(p, w, modes, n, found, got, freed, duplicates)
      invariant forall i :: 0 <= i < |streams| ==> streams[i].rdq == old(streams[i].rdq) + got[i]
    {
      var wanted := Wanted(streams[n], p);
      assert wanted == w[n];
      if wanted && found >= 0 {
        DealNext(p, w, modes, n, found, got, freed, duplicates);
        Spare(p, w, modes, n, found, got, freed, duplicates);
        duplicates := duplicates + 1;
        var queued := Pass(streams[found], duplicates, p, memory[found]);
        got := got[found := Share(p, modes[found], duplicates)];
        if !queued {
          freed := freed + {duplicates};
        }
      } else {
        DealOther(p, w, modes, n, found, got, freed, duplicates);
      }
      if wanted {
        found := n;
      }
    }
    Total(p, w, modes, found, got, freed, duplicates);
    if found >= 0 {
      DealLast(p, w, modes, found, got, freed, duplicates);
      Spare(p, w, modes, |streams|, found, got, freed, duplicates);
      var queued := Pass(streams[found], 0, p, memory[found]);
      got := got[found := Share(p, modes[found], 0)];
      if !queued {
        freed := freed + {0};
      }
    } else {
      DealNone(p, w, modes, got, freed, duplicates);
      freed := {0};
    }
  }

  lemma Undealt(p: packet, w: seq<bool>, modes: seq<Mode>, got: seq<seq<Message>>)
    requires |modes| == |got| == |w|
    requires forall i :: 0 <= i < |w| ==> got[i] == []
    ensures Dealt(p, w, modes, 0, -1, got, {}, 0)
  {
  }

  lemma Spare(p: packet, w: seq<bool>, modes: seq<Mode>, n: nat, found: int, got: seq<seq<Message>>,
              freed: set<nat>, duplicates: nat)
    requires |modes| == |got| == |w| && n <= |w| && found >= 0
    requires Dealt(p, w, modes, n, found, got, freed, duplicates)
    ensures found < |w| && got[found] == []
  {
  }

  lemma Total(p: packet, w: seq<bool>, modes: seq<Mode>, found: int, got: seq<seq<Message>>,
              freed: set<nat>, duplicates: nat)
    requires |modes| == |got| == |w|
    requires Dealt(p, w, modes, |w|, found, got, freed, duplicates)
    ensures duplicates == if Count(w, |w|) == 0 then 0 else Count(w, |w|) - 1
  {
  }

  /** Hands message `number` with the packet to a stream. */
  method Pass(s: Stream, number: nat, p: packet, memory: bool) returns (queued: bool)
    modifies s`rdq
    ensures s.rdq == old(s.rdq) + Share(p, Mode(s.fastPath, s.rawMode, memory), number)
    ensures queued <==> Share(p, Mode(s.fastPath, s.rawMode, memory), number) != []
  {
    hide Delivered, TypeOf, TypeOfAddress;
    assert p[0..] == p;
    queued := HandleReceivedPacket(s, Message(number, 0, None), p, TypeOf(p), TypeOfAddress(DestAddress(p)), memory);
  }
}
