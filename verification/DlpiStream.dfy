/** The DLPI streams: what a stream is bound to, and the requests that change it. */
module DlpiStreams {
  import opened Bytes
  import opened EtherTypes

  const CONNECTIONLESS: nat := 2      // DL_CLDLS
  const PEER_BIND: nat := 1
  const HIERARCHICAL_BIND: nat := 2
  const GLOBAL: bv8 := 0xff

  datatype State = Unbound | Idle

  datatype Error = BadAddr | OutState | SysErr | Unsupported | TooMany

  datatype Reply = Ack | ErrorAck(error: Error)

  /** The requests. A subsequent bind points at bytes of the message: the first five are
      given, together with the length that the request claims. */
  datatype Request =
    | BindReq(dlsap: word32, serviceMode: nat, maxConind: nat)
    | UnbindReq
    | SubsBindReq(bindClass: nat, sap: snap, length: int)
    | SubsUnbindReq(sap: snap, length: int)
    | EnableMultiReq(addr: address)
    | DisableMultiReq(addr: address)

  /** What a stream is bound to, the group SAPs as a set of halves. */
  datatype Binding = Binding(state: State, dlsap: nat, snapStream: bool, acceptMulticasts: bool, acceptAll: bool,
                             groups: iset<bv8>, snap: snap, multicast: seq<address>)

  // ---------------------------------------------------------------- the requests

  predicate CanBind(sap: word32) {
    !(sap <= MAX_8022_SAP && sap % 2 == 1) && Classify(sap % 0x10000, sap % 0x10000) != UnknownType
  }

  function WithoutFirst(list: seq<address>, addr: address): (r: seq<address>) {
    if list == [] then [] else if list[0] == addr then list[1..] else [list[0]] + WithoutFirst(list[1..], addr)
  }

  predicate IsGroup(sap: octet) { sap & 1 != 0 }

  /** DL_BIND_REQ */
  ghost function HandleBind(b: Binding, sap: word32, serviceMode: nat, maxConind: nat, memory: bool): (Binding, Reply) {
    if b.state != Unbound then (b, ErrorAck(OutState))
    else if serviceMode != CONNECTIONLESS || maxConind != 0 then (b, ErrorAck(Unsupported))
    else if !CanBind(sap) then (b, ErrorAck(BadAddr))
    else if !memory then (b, ErrorAck(SysErr))
    else
      (b.(state := Idle, dlsap := sap % 0x10000, snapStream := false,
          groups := if sap <= MAX_8022_SAP then iset{Half(GLOBAL)} else iset{}), Ack)
  }

  /** What DL_SUBS_BIND_REQ does before it needs memory for the acknowledgement. */
  ghost function Enter(b: Binding, bindClass: nat, sap: snap, length: int): (Binding, Reply) {
    if bindClass == PEER_BIND then
      if b.dlsap > MAX_8022_SAP then (b, ErrorAck(Unsupported))
      else if IsGroup(sap[1]) && length == 2 then (b.(groups := b.groups + iset{Half(sap[1])}), Ack)
      else if sap[0] == 0 && sap[1] == 0 then (b.(acceptAll := true), Ack)
      else (b, ErrorAck(BadAddr))
    else if bindClass == HIERARCHICAL_BIND then
      if b.dlsap != SNAP_SAP then (b, ErrorAck(BadAddr))
      else if b.snapStream then (b, ErrorAck(TooMany))
      else (b.(snap := sap, snapStream := true), Ack)
    else (b, ErrorAck(Unsupported))
  }

  ghost function HandleSubsBind(b: Binding, bindClass: nat, sap: snap, length: int, memory: bool): (Binding, Reply) {
    if b.state != Idle then (b, ErrorAck(OutState))
    else
      var e := Enter(b, bindClass, sap, length);
      if e.1 == Ack && !memory then (e.0, ErrorAck(SysErr)) else e
  }

  ghost function HandleSubsUnbind(b: Binding, sap: snap, length: int): (Binding, Reply) {
    if b.state != Idle then (b, ErrorAck(OutState))
    else if length == 1 then
      if !IsGroup(sap[0]) || sap[0] == GLOBAL then (b, ErrorAck(BadAddr))
      else if b.dlsap > MAX_8022_SAP then (b, ErrorAck(Unsupported))
      else (b.(groups := b.groups - iset{Half(sap[0])}, snapStream := false), Ack)
    else if length == SNAP_LENGTH && b.dlsap != SNAP_SAP then (b, ErrorAck(Unsupported))
    else if length == SNAP_LENGTH && (!b.snapStream || b.snap != sap) then (b, ErrorAck(BadAddr))
    else (b.(snapStream := false), Ack)
  }

  ghost function HandleEnable(b: Binding, addr: address): (Binding, Reply) {
    if TypeOfAddress(addr) != Multicast || addr in b.multicast then (b, ErrorAck(BadAddr))
    else (b.(multicast := [addr] + b.multicast, acceptMulticasts := true), Ack)
  }

  ghost function HandleDisable(b: Binding, addr: address): (Binding, Reply) {
    if TypeOfAddress(addr) != Multicast || addr !in b.multicast then (b, ErrorAck(BadAddr))
    else
      var list := WithoutFirst(b.multicast, addr);
      (b.(multicast := list, acceptMulticasts := b.acceptMulticasts && list != []), Ack)
  }

  /** A request on a stream; `memory` says whether the acknowledgement can be allocated. */
  ghost function Handle(b: Binding, r: Request, memory: bool): (Binding, Reply) {
    match r
    case BindReq(sap, mode, ind) => HandleBind(b, sap, mode, ind, memory)
    case UnbindReq =>
      if b.state != Idle then (b, ErrorAck(OutState)) else (b.(state := Unbound, dlsap := 0), Ack)
    case SubsBindReq(c, sap, length) => HandleSubsBind(b, c, sap, length, memory)
    case SubsUnbindReq(sap, length) => HandleSubsUnbind(b, sap, length)
    case EnableMultiReq(addr) => HandleEnable(b, addr)
    case DisableMultiReq(addr) => HandleDisable(b, addr)
  }

  // ---------------------------------------------------------------- what every run keeps

  predicate Distinct(list: seq<address>) {
    forall i, j :: 0 <= i < j < |list| ==> list[i] != list[j]
  }

  ghost predicate Inv(b: Binding) {
    && b.dlsap < 0x10000
    && (b.state == Idle && b.snapStream ==> b.dlsap == SNAP_SAP)
    && (b.state == Idle && b.dlsap > MAX_8022_SAP ==> b.groups == iset{})
    && (b.state == Idle ==> Classify(b.dlsap, b.dlsap) != UnknownType)
    && Distinct(b.multicast)
    && (b.acceptMulticasts <==> b.multicast != [])
    && (forall a :: a in b.multicast ==> TypeOfAddress(a) == Multicast)
  }

  /** `ether_open`, which leaves the group SAPs and the SNAP as they are in memory. */
  ghost predicate Opened(b: Binding) {
    b.state == Unbound && b.dlsap == 0 && !b.snapStream && !b.acceptMulticasts && !b.acceptAll && b.multicast == []
  }

  /** Removing keeps the other addresses, in their order, and the list without duplicates. */
  lemma {:induction false} RemovedMeans(list: seq<address>, addr: address)
    requires Distinct(list)
    ensures Distinct(WithoutFirst(list, addr))
    ensures forall a: address :: a in WithoutFirst(list, addr) <==> a in list && a != addr
  {
    if list != [] {
      assert list == [list[0]] + list[1..];
      assert forall a: address :: a in list <==> a == list[0] || a in list[1..];
      if list[0] == addr {
        assert addr !in list[1..];
      } else {
        RemovedMeans(list[1..], addr);
        assert list[0] !in list[1..];
      }
    }
  }

  lemma HandleKeeps(b: Binding, r: Request, memory: bool)
    requires Inv(b)
    ensures Inv(Handle(b, r, memory).0)
  {
    hide Half, IsGroup, TypeOfAddress, WithoutFirst;
    if r.DisableMultiReq? {
      RemovedMeans(b.multicast, r.addr);
    }
  }

  /** The stream after a run of requests. */
  ghost function After(b: Binding, run: seq<(Request, bool)>): Binding {
    if run == [] then b else Handle(After(b, run[..|run| - 1]), run[|run| - 1].0, run[|run| - 1].1).0
  }

  lemma {:induction false} RunsKeepInv(b: Binding, run: seq<(Request, bool)>)
    requires Opened(b)
    ensures Inv(After(b, run))
  {
    if run != [] {
      RunsKeepInv(b, run[..|run| - 1]);
      HandleKeeps(After(b, run[..|run| - 1]), run[|run| - 1].0, run[|run| - 1].1);
    }
  }

  /** A request that is refused changes nothing, but for a subsequent bind that cannot be
      acknowledged: the stream is then bound just as if it had been. */
  lemma RefusedChangesNothing(b: Binding, r: Request, memory: bool)
    requires Handle(b, r, memory).1 != Ack
    ensures Handle(b, r, memory).0 == b || (r.SubsBindReq? && Handle(b, r, memory).1 == ErrorAck(SysErr))
    ensures r.SubsBindReq? && Handle(b, r, memory).1 == ErrorAck(SysErr) ==>
      Handle(b, r, true) == (Handle(b, r, memory).0, Ack)
  {
    hide Half, IsGroup, TypeOfAddress, WithoutFirst, CanBind;
  }

  /** Nothing of what the map held before a bind survives it, as `ether_open` needs. */
  lemma BindForgets(b: Binding, c: Binding, sap: word32, memory: bool)
    requires Opened(b) && Opened(c) && b.snap == c.snap
    requires HandleBind(b, sap, CONNECTIONLESS, 0, memory).1 == Ack
    ensures HandleBind(b, sap, CONNECTIONLESS, 0, memory) == HandleBind(c, sap, CONNECTIONLESS, 0, memory)
  {
  }

  /** A stream gets bound to a group SAP exactly when the request hides it below a high
      half that is not zero: the test looks at all 32 bits, the stream keeps 16. */
  lemma BoundToGroupSap(b: Binding, sap: word32, mode: nat, ind: nat, memory: bool)
    requires HandleBind(b, sap, mode, ind, memory).1 == Ack
    ensures var d := HandleBind(b, sap, mode, ind, memory).0.dlsap;
      d <= MAX_8022_SAP && d % 2 == 1 <==> sap >= 0x10000 && sap % 0x10000 <= MAX_8022_SAP && sap % 2 == 1
  {
  }

  /** Once a stream takes all 802.2 packets it does so for ever, over unbinding too. */
  lemma {:induction false} AcceptAllStays(b: Binding, run: seq<(Request, bool)>)
    requires b.acceptAll
    ensures After(b, run).acceptAll
  {
    hide Half, IsGroup, TypeOfAddress, WithoutFirst, CanBind, Classify;
    if run != [] {
      AcceptAllStays(b, run[..|run| - 1]);
    }
  }

  lemma OtherHalf(sap: octet)
    requires IsGroup(sap) && sap != GLOBAL
    ensures Half(sap) != Half(GLOBAL)
  {
  }

  /** Bound in the 802.2 range with the global SAP. */
  ghost predicate HearsGlobal(b: Binding) {
    b.state == Idle && b.dlsap <= MAX_8022_SAP && Half(GLOBAL) in b.groups
  }

  /** From a bind in the 802.2 range to the unbind the stream has the global SAP. */
  lemma {:induction false} GlobalSapStays(b: Binding, run: seq<(Request, bool)>)
    requires HearsGlobal(b)
    requires forall i :: 0 <= i < |run| ==> run[i].0 != UnbindReq
    ensures HearsGlobal(After(b, run))
  {
    if run != [] {
      GlobalSapStays(b, run[..|run| - 1]);
      GlobalSapStep(After(b, run[..|run| - 1]), run[|run| - 1].0, run[|run| - 1].1);
    }
  }

  lemma GlobalSapStep(b: Binding, r: Request, memory: bool)
    requires HearsGlobal(b) && r != UnbindReq
    ensures HearsGlobal(Handle(b, r, memory).0)
  {
    hide Half, IsGroup, TypeOfAddress, WithoutFirst, CanBind, Classify;
    if r.SubsUnbindReq? && IsGroup(r.sap[0]) && r.sap[0] != GLOBAL {
      OtherHalf(r.sap[0]);
    }
  }

  /** Entering a group SAP and removing it again gives the old binding back exactly when
      the SAP was new and there is no SNAP binding, which the removal would drop; the
      global SAP cannot be removed. */
  lemma GroupRoundTrip(b: Binding, there: snap, back: snap)
    requires b.state == Idle && b.dlsap <= MAX_8022_SAP && IsGroup(there[1]) && back[0] == there[1]
    ensures var c := HandleSubsUnbind(HandleSubsBind(b, PEER_BIND, there, 2, true).0, back, 1).0;
      c == b <==> if there[1] == GLOBAL then Half(GLOBAL) in b.groups else Half(there[1]) !in b.groups && !b.snapStream
  {
    hide Half, IsGroup;
    var bit := Half(there[1]);
    var c := HandleSubsBind(b, PEER_BIND, there, 2, true).0;
    assert c == b.(groups := b.groups + iset{bit});
    var d := HandleSubsUnbind(c, back, 1).0;
    if there[1] == GLOBAL {
      assert d == c;
      assert c.groups == b.groups <==> bit in b.groups;
    } else {
      assert d == c.(groups := c.groups - iset{bit}, snapStream := false);
      assert bit !in d.groups;
      if bit !in b.groups {
        assert d.groups == b.groups;
      }
    }
  }

  // ---------------------------------------------------------------- the stream

  /** A block of the received packet, seen from `start` on; duplicates have numbers of
      their own. */
  datatype Message = Message(id: nat, start: nat, indication: Option<Indication>)

  datatype Indication = Indication(dest: SapAddress, source: SapAddress, group: AddressType)

  /** An address, a SAP and, for SNAP packets, a SNAP. */
  datatype SapAddress = SapAddress(hardware: address, sap: octet, snap: seq<octet>)

  class Stream {
    var state: State
    var dlsap: nat
    var snapStream: bool              // the flags
    var acceptMulticasts: bool
    var acceptAll: bool
    var fastPath: bool
    var rawMode: bool
    const groupSap: array<bv32>
    var boundSnap: snap
    var multicast: seq<address>       // the list, its head first
    var rdq: seq<Message>

    /** A stream as `ether_open` leaves it, with the memory it happens to get. */
    constructor (groupSap: array<bv32>, boundSnap: snap)
      requires groupSap.Length == 4
      ensures Valid() && Opened(Bound()) && rdq == [] && !fastPath && !rawMode
      ensures this.groupSap == groupSap && this.boundSnap == boundSnap
    {
      state, dlsap, multicast, rdq := Unbound, 0, [], [];
      snapStream, acceptMulticasts, acceptAll, fastPath, rawMode := false, false, false, false, false;
      this.groupSap, this.boundSnap := groupSap, boundSnap;
    }

    ghost function Bound(): Binding
      requires groupSap.Length == 4
      reads this`state, this`dlsap, this`snapStream, this`acceptMulticasts, this`acceptAll
      reads this`boundSnap, this`multicast, groupSap
    {
      Binding(state, dlsap, snapStream, acceptMulticasts, acceptAll, Halves(groupSap[..]), boundSnap, multicast)
    }

    ghost predicate Valid()
      reads this`state, this`dlsap, this`snapStream, this`acceptMulticasts, this`acceptAll
      reads this`boundSnap, this`multicast, groupSap
    {
      groupSap.Length == 4 && Inv(Bound())
    }

    method SetGroupSAP(sap: bv8)
      requires groupSap.Length == 4
      modifies groupSap
      ensures Halves(groupSap[..]) == old(Halves(groupSap[..])) + iset{Half(sap)}
    {
      hide Halves, Half, Or, MapWord, Place, Bit;
      SetMeans(groupSap[..], sap);
      groupSap[MapWord(sap)] := Or(groupSap[MapWord(sap)], Bit(Place(sap)));
      assert groupSap[..] == SetSap(old(groupSap[..]), sap);
    }

    method ClearGroupSAP(sap: bv8)
      requires groupSap.Length == 4
      modifies groupSap
      ensures Halves(groupSap[..]) == old(Halves(groupSap[..])) - iset{Half(sap)}
    {
      hide Halves, Half, AndNot, MapWord, Place, Bit;
      ClearMeans(groupSap[..], sap);
      groupSap[MapWord(sap)] := AndNot(groupSap[MapWord(sap)], Bit(Place(sap)));
      assert groupSap[..] == ClearSap(old(groupSap[..]), sap);
    }

    method ClearAllGroupSAPs()
      requires groupSap.Length == 4
      modifies groupSap
      ensures Halves(groupSap[..]) == iset{}
    {
      hide Halves;
      for i := 0 to 4
        invariant forall k :: 0 <= k < i ==> groupSap[k] == 0
      {
        groupSap[i] := 0;
      }
      assert groupSap[..] == [0, 0, 0, 0];
      EmptyMeans(groupSap[..]);
    }

    method TestGroupSAP(sap: bv8) returns (set_: bool)
      requires groupSap.Length == 4
      ensures set_ <==> Half(sap) in Halves(groupSap[..])
    {
      hide Halves, Half, And, MapWord, Place, Bit;
      TestMeans(groupSap[..], sap);
      set_ := And(groupSap[MapWord(sap)], Bit(Place(sap))) != 0;
    }

    method IsMulticastRegistered(addr: address) returns (found: bool)
      ensures found <==> addr in multicast
    {
      var n := 0;
      while n < |multicast|
        invariant n <= |multicast| && addr !in multicast[..n]
      {
        if multicast[n] == addr {
          return true;
        }
        n := n + 1;
      }
      found := false;
    }

    method AddMulticast(addr: address)
      modifies this`multicast
      ensures multicast == [addr] + old(multicast)
    {
      multicast := [addr] + multicast;
    }

    method RemoveMulticast(addr: address)
      modifies this`multicast
      ensures multicast == WithoutFirst(old(multicast), addr)
    {
      var p := 0;
      while p < |multicast| && multicast[p] != addr
        invariant p <= |multicast| && addr !in multicast[..p]
      {
        p := p + 1;
      }
      Unlinked(multicast, addr, p);
      if p < |multicast| {
        multicast := multicast[..p] + multicast[p + 1..];
      }
    }

    method Bind(sap: word32, serviceMode: nat, maxConind: nat, memory: bool) returns (reply: Reply)
      requires Valid()
      modifies this`state, this`dlsap, this`snapStream, groupSap
      ensures Valid() && (Bound(), reply) == Handle(old(Bound()), BindReq(sap, serviceMode, maxConind), memory)
    {
      hide Halves, Half, Inv, Opened;
      HandleKeeps(Bound(), BindReq(sap, serviceMode, maxConind), memory);
      if state != Unbound {
        return ErrorAck(OutState);
      }
      if serviceMode != CONNECTIONLESS || maxConind != 0 {
        return ErrorAck(Unsupported);
      }
      if sap <= MAX_8022_SAP && sap % 2 == 1 {
        return ErrorAck(BadAddr);
      }
      if Classify(sap % 0x10000, sap % 0x10000) == UnknownType {
        return ErrorAck(BadAddr);
      }
      if !memory {
        return ErrorAck(SysErr);
      }
      ClearAllGroupSAPs();
      if sap <= MAX_8022_SAP {
        SetGroupSAP(GLOBAL);
        assert iset{} + iset{Half(GLOBAL)} == iset{Half(GLOBAL)};
      }
      state, dlsap, snapStream := Idle, sap % 0x10000, false;
      reply := Ack;
    }

    method Unbind() returns (reply: Reply)
      requires Valid()
      modifies this`state, this`dlsap
      ensures Valid() && (Bound(), reply) == Handle(old(Bound()), UnbindReq, true)
    {
      hide Halves, Half, Inv;
      HandleKeeps(Bound(), UnbindReq, true);
      if state != Idle {
        return ErrorAck(OutState);
      }
      state, dlsap := Unbound, 0;
      reply := Ack;
    }

    method SubsBind(bindClass: nat, sap: snap, length: int, memory: bool) returns (reply: Reply)
      requires Valid()
      modifies this`acceptAll, this`snapStream, this`boundSnap, groupSap
      ensures Valid() && (Bound(), reply) == Handle(old(Bound()), SubsBindReq(bindClass, sap, length), memory)
    {
      hide Halves, Half, Inv;
      HandleKeeps(Bound(), SubsBindReq(bindClass, sap, length), memory);
      if state != Idle {
        return ErrorAck(OutState);
      }
      if bindClass == PEER_BIND {
        if dlsap > MAX_8022_SAP {
          return ErrorAck(Unsupported);
        } else if sap[1] & 1 != 0 && length == 2 {
          SetGroupSAP(sap[1]);
        } else if sap[0] == 0 && sap[1] == 0 {
          acceptAll := true;
        } else {
          return ErrorAck(BadAddr);
        }
      } else if bindClass == HIERARCHICAL_BIND {
        if dlsap != SNAP_SAP {
          return ErrorAck(BadAddr);
        } else if snapStream {
          return ErrorAck(TooMany);
        }
        boundSnap, snapStream := sap, true;
      } else {
        return ErrorAck(Unsupported);
      }
      reply := if memory then Ack else ErrorAck(SysErr);
    }

    method SubsUnbind(sap: snap, length: int) returns (reply: Reply)
      requires Valid()
      modifies this`snapStream, groupSap
      ensures Valid() && (Bound(), reply) == Handle(old(Bound()), SubsUnbindReq(sap, length), true)
    {
      hide Halves, Half, Inv;
      HandleKeeps(Bound(), SubsUnbindReq(sap, length), true);
      if state != Idle {
        return ErrorAck(OutState);
      }
      if length == 1 {
        if sap[0] & 1 == 0 || sap[0] == GLOBAL {
          return ErrorAck(BadAddr);
        } else if dlsap > MAX_8022_SAP {
          return ErrorAck(Unsupported);
        }
        ClearGroupSAP(sap[0]);
      } else if length == SNAP_LENGTH {
        if dlsap != SNAP_SAP {
          return ErrorAck(Unsupported);
        } else if !snapStream || boundSnap != sap {
          return ErrorAck(BadAddr);
        }
      }
      snapStream := false;
      reply := Ack;
    }

    method EnableMulti(addr: address) returns (reply: Reply)
      requires Valid()
      modifies this`multicast, this`acceptMulticasts
      ensures Valid() && (Bound(), reply) == Handle(old(Bound()), EnableMultiReq(addr), true)
    {
      hide Halves, Inv, TypeOfAddress;
      HandleKeeps(Bound(), EnableMultiReq(addr), true);
      if TypeOfAddress(addr) != Multicast {
        return ErrorAck(BadAddr);
      }
      var known := IsMulticastRegistered(addr);
      if known {
        return ErrorAck(BadAddr);
      }
      AddMulticast(addr);
      acceptMulticasts := true;
      reply := Ack;
    }

    method DisableMulti(addr: address) returns (reply: Reply)
      requires Valid()
      modifies this`multicast, this`acceptMulticasts
      ensures Valid() && (Bound(), reply) == Handle(old(Bound()), DisableMultiReq(addr), true)
    {
      hide Halves, Inv, TypeOfAddress;
      HandleKeeps(Bound(), DisableMultiReq(addr), true);
      if TypeOfAddress(addr) != Multicast {
        return ErrorAck(BadAddr);
      }
      var known := IsMulticastRegistered(addr);
      if !known {
        return ErrorAck(BadAddr);
      }
      RemoveMulticast(addr);
      if multicast == [] {
        acceptMulticasts := false;
      }
      reply := Ack;
    }
  }

  lemma {:induction false} Unlinked(list: seq<address>, addr: address, p: nat)
    requires p <= |list| && addr !in list[..p] && (p < |list| ==> list[p] == addr)
    ensures WithoutFirst(list, addr) == if p < |list| then list[..p] + list[p + 1..] else list
  {
    if p > 0 {
      assert list[0] == list[..p][0] && list[1..][..p - 1] == list[..p][1..];
      Unlinked(list[1..], addr, p - 1);
      if p < |list| {
        assert [list[0]] + (list[1..][..p - 1] + list[1..][p..]) == list[..p] + list[p + 1..];
      }
    }
  }
}
