/** From the sender to the receiver: the bytes of a frame, which stream hears it, and what
    that stream is given. */
module EtherDelivery {
  import opened Bytes
  import opened EtherTypes
  import opened DlpiStreams
  import opened EtherReceive
  import opened EtherTransmit

  // ---------------------------------------------------------------- what a destination names

  /** An address alone leaves the sender's SAP and SNAP; one with two bytes behind it names a
      SAP, and one with seven a SAP and a SNAP. */
  lemma Targets(own: nat, s: snap, to: address, sap: nat, sn: snap)
    requires sap < 0x10000
    ensures TargetSap(own, to) == own && TargetSnap(s, to) == s
    ensures TargetSap(own, to + Big(sap)) == sap && TargetSnap(s, to + Big(sap)) == s
    ensures TargetSap(own, to + Big(sap) + sn) == sap && TargetSnap(s, to + Big(sap) + sn) == sn
    ensures IsDestination(to) && IsDestination(to + Big(sap)) && IsDestination(to + Big(sap) + sn)
  {
    hide Octet, Word16;
    BigBack(sap);
  }

  /** Sixteen bits stand in a packet with the high byte first. */
  lemma InOrder(hi: octet, lo: octet)
    ensures Word16(hi, lo) == hi as nat * 256 + lo as nat
  {
  }

  /** A DL_UNITDATA_REQ: the primitive 7, length and offset of the destination, a priority of
      eight bytes, and the destination. */
  lemma RequestRead(dest: seq<octet>, priority: seq<octet>)
    requires IsDestination(dest) && |priority| == 8
    ensures var r := [0, 0, 0, 7, 0, 0, 0, Octet(|dest|), 0, 0, 0, 20] + priority + dest;
      IsRequest(r) && Destination(r) == dest && Long(r, 0) == UNITDATA_REQ
  {
    OctetBack(|dest|);
    hide Octet;
    var head: seq<octet> := [0, 0, 0, 7, 0, 0, 0, Octet(|dest|), 0, 0, 0, 20];
    var r := head + priority + dest;
    assert Long(r, 0) == 7 && Long(r, 4) == |dest| && Long(r, 8) == 20;
    assert r[20..20 + |dest|] == dest;
  }

  // ---------------------------------------------------------------- the bytes of a frame

  lemma Addresses(own: nat, s: snap, dest: seq<octet>, payload: seq<octet>, hardware: address)
    requires IsDestination(dest)
    ensures var f := Frame(own, s, dest, payload, hardware);
      |f| >= 14 && f[..6] == dest[..6] && f[6..12] == hardware
  {
    hide Classify, Big, Llc, WireField, TargetSap, TargetSnap;
  }

  lemma Behind(own: nat, s: snap, dest: seq<octet>, payload: seq<octet>, hardware: address)
    requires IsDestination(dest)
    ensures var f := Frame(own, s, dest, payload, hardware);
      var t := Classify(own, TargetSap(own, dest));
      var llc := Llc(t, own, TargetSap(own, dest), TargetSnap(s, dest));
      |f| >= 14 && f[14..] == llc + payload && Word16(f[12], f[13]) == WireField(t, TargetSap(own, dest), |f| - 14)
  {
    hide Octet, Classify, Big, Llc, WireField, TargetSap, TargetSnap, Word16;
    var target := TargetSap(own, dest);
    var t := Classify(own, target);
    var llc := Llc(t, own, target, TargetSnap(s, dest));
    var field := Big(WireField(t, target, |llc| + |payload|));
    FieldAt(dest[..6], hardware, field, llc + payload);
    BigBack(WireField(t, target, |llc| + |payload|));
  }

  /** The frame of a stream with an Ethernet type: the type, and the data behind 14 bytes. */
  lemma TypeFrame(own: nat, s: snap, dest: seq<octet>, payload: seq<octet>, hardware: address)
    requires IsDestination(dest) && 1501 <= own && 0 < TargetSap(own, dest) < 0x10000
    ensures var f := Frame(own, s, dest, payload, hardware);
      |f| >= 14 && Word16(f[12], f[13]) == TargetSap(own, dest) && f[14..] == payload
  {
    hide *;
    Behind(own, s, dest, payload, hardware);
    TypeField(own, TargetSap(own, dest), TargetSnap(s, dest), |Frame(own, s, dest, payload, hardware)| - 14);
    assert [] + payload == payload;
  }

  lemma TypeField(own: nat, target: nat, s: snap, n: nat)
    requires own >= 1501 && 0 < target < 0x10000
    ensures var t := Classify(own, target); Llc(t, own, target, s) == [] && WireField(t, target, n) == target
  {
    hide Octet;
  }

  /** The frame of an 802.2 stream: the length, the SAP of the destination, the sender's, the
      control byte 3; then for SNAP the five bytes of the SNAP; and the data. */
  lemma SapFrame(own: nat, s: snap, dest: seq<octet>, payload: seq<octet>, hardware: address)
    requires IsDestination(dest) && own <= 0xff && TargetSap(own, dest) <= 0xff
    requires !(own == 0xff && TargetSap(own, dest) == 0xff)
    ensures var f := Frame(own, s, dest, payload, hardware);
      |f| >= 17 && Word16(f[12], f[13]) == (|f| - 14) % 0x10000 &&
      f[14] as nat == TargetSap(own, dest) && f[15] as nat == own && f[16] == 3 &&
      (own != 0xaa ==> f[17..] == payload) &&
      (own == 0xaa ==> |f| >= 22 && f[17..22] == TargetSnap(s, dest) && f[22..] == payload)
  {
    var f, target := Frame(own, s, dest, payload, hardware), TargetSap(own, dest);
    Behind(own, s, dest, payload, hardware);
    hide Frame, TargetSap, TargetSnap, Word16;
    OctetBack(own);
    OctetBack(target);
    hide Octet;
    var llc := Llc(Classify(own, target), own, target, TargetSnap(s, dest));
    assert f[14] == f[14..][0] && f[15] == f[14..][1] && f[16] == f[14..][2];
    if own == 0xaa {
      assert f[17..22] == f[14..][3..8] && f[22..] == f[14..][8..];
    } else {
      assert f[17..] == f[14..][3..];
    }
  }

  /** An IPX frame: the length, and the data behind 14 bytes. */
  lemma IpxFrame(s: snap, dest: seq<octet>, payload: seq<octet>, hardware: address)
    requires IsDestination(dest) && TargetSap(0xff, dest) == 0xff
    ensures var f := Frame(0xff, s, dest, payload, hardware);
      |f| >= 14 && Word16(f[12], f[13]) == (|f| - 14) % 0x10000 && f[14..] == payload
  {
    Behind(0xff, s, dest, payload, hardware);
    hide Frame, TargetSap, TargetSnap, Word16;
    assert [] + payload == payload;
  }

  // ---------------------------------------------------------------- who hears it

  /** The sender and a stream bound to what the destination names are of one kind: both have
      Ethernet types, or both are in the 802.2 range. */
  ghost predicate SameKind(own: nat, target: nat) {
    (own <= 0xff && target <= 0xff) || (1501 <= own < 0x10000 && 1501 <= target < 0x10000)
  }

  /** A stream bound to the SAP, and the SNAP if it has one, that the destination names. */
  ghost predicate BoundTo(c: Binding, own: nat, s: snap, dest: seq<octet>)
    requires IsDestination(dest)
  {
    Inv(c) && c.state == Idle && !c.acceptAll && c.dlsap == TargetSap(own, dest) &&
    (c.snapStream ==> own == 0xaa && c.snap == TargetSnap(s, dest))
  }

  /** The frame is heard by a stream bound to the SAP that its destination names: always with
      Ethernet types; in the 802.2 range exactly when its length stays below the types; and
      for IPX when, besides, its data begins with the byte 0xff. */
  lemma NamedIsHeard(own: nat, s: snap, dest: seq<octet>, payload: seq<octet>, hardware: address, c: Binding)
    requires IsDestination(dest) && SameKind(own, TargetSap(own, dest)) && BoundTo(c, own, s, dest)
    requires |Frame(own, s, dest, payload, hardware)| >= 22
    ensures var f := Frame(own, s, dest, payload, hardware);
      Matches(c, f) <==> (own >= 1501 ||
        ((|f| - 14) % 0x10000 < 1501 && (own == 0xff && TargetSap(own, dest) == 0xff ==> f[14] == 0xff)))
  {
    hide *;
    var f, target := Frame(own, s, dest, payload, hardware), TargetSap(own, dest);
    Sides(own, s, dest, c);
    ProtoIs(f);
    if own >= 1501 {
      TypeFrame(own, s, dest, payload, hardware);
      HearsType(c, f, target);
    } else if own == 0xff && target == 0xff {
      IpxFrame(s, dest, payload, hardware);
      Top(f[14]);
      HearsIpx(c, f);
    } else {
      SapFrame(own, s, dest, payload, hardware);
      HearsSap(c, f, target);
    }
  }

  lemma ProtoIs(p: packet)
    ensures Proto(p) == Word16(p[12], p[13])
  {
  }

  lemma Sides(own: nat, s: snap, dest: seq<octet>, c: Binding)
    requires IsDestination(dest) && SameKind(own, TargetSap(own, dest)) && BoundTo(c, own, s, dest)
    ensures var target := TargetSap(own, dest);
      if own >= 1501 then 1501 <= target < 0x10000 else own <= 0xff && target <= 0xff
    ensures Inv(c) && c.state == Idle && !c.acceptAll && c.dlsap == TargetSap(own, dest)
    ensures c.snapStream ==> own == 0xaa && c.snap == TargetSnap(s, dest)
  {
  }

  lemma HearsType(c: Binding, f: packet, target: nat)
    requires c.state == Idle && c.dlsap == target >= 1501 && Inv(c) && Proto(f) == target
    ensures Matches(c, f)
  {
    hide Word16, Distinct, Half, IsGroup, TypeOfAddress;
  }

  lemma HearsSap(c: Binding, f: packet, target: nat)
    requires Inv(c) && c.state == Idle && !c.acceptAll && c.dlsap == target <= 0xff
    requires Proto(f) == (|f| - 14) % 0x10000 && f[14] as nat == target
    requires c.snapStream ==> f[17..22] == c.snap
    ensures Matches(c, f) <==> (|f| - 14) % 0x10000 < 1501
  {
    hide Word16, Distinct, Half, IsGroup, TypeOfAddress;
  }

  lemma HearsIpx(c: Binding, f: packet)
    requires Inv(c) && c.state == Idle && !c.acceptAll && c.dlsap == 0xff && Proto(f) == (|f| - 14) % 0x10000
    ensures Matches(c, f) <==> (|f| - 14) % 0x10000 < 1501 && f[14] as nat == 0xff
  {
    hide Word16, Distinct, Half, IsGroup, TypeOfAddress;
  }

  lemma Top(x: octet)
    ensures x as nat == 0xff <==> x == 0xff
  {
  }

  // ---------------------------------------------------------------- what it is given

  /** The message that a stream is given, read off the bytes of the packet. */
  ghost predicate Given(p: packet, mode: Mode, m: Message) {
    && m.start == (if mode.rawMode then 0 else if TypeOf(p) == Sap then 17 else if TypeOf(p) == Snap then 22 else 14)
    && (m.indication.None? <==> mode.fastPath && p[0] & 1 == 0)
    && (m.indication.Some? ==>
          var a := m.indication.value;
          a.dest.hardware == p[..6] && a.source.hardware == p[6..12] && a.dest.sap == p[14] && a.source.sap == p[15] &&
          a.dest.snap == a.source.snap == (if TypeOf(p) == Snap then p[17..22] else []) &&
          (a.group == Standard <==> p[0] & 1 == 0) &&
          (a.group == Broadcast <==> p[..6] == [0xff, 0xff, 0xff, 0xff, 0xff, 0xff]))
  }

  lemma Kinds(a: address)
    ensures TypeOfAddress(a) == Standard <==> a[0] & 1 == 0
    ensures TypeOfAddress(a) == Broadcast <==> a == [0xff, 0xff, 0xff, 0xff, 0xff, 0xff]
  {
  }

  /** With memory every stream that wants a packet gets one message, and this is it. */
  lemma EveryTakerIsGiven(p: packet, w: seq<bool>, modes: seq<Mode>, got: seq<seq<Message>>, freed: set<nat>, i: nat)
    requires |modes| == |got| == |w| && Distributed(p, w, modes, got, freed)
    requires i < |w| && w[i] && modes[i].memory
    ensures |got[i]| == 1 && Given(p, modes[i], got[i][0])
  {
    hide TypeOf, TypeOfAddress, Number;
    Kinds(DestAddress(p));
    assert p[..6][0] == p[0];
    assert got[i] == Share(p, modes[i], Number(w, i));
  }

  /** The packet type at the receiver is the sender's, but for IPX without the second 0xff. */
  lemma ReceivedType(own: nat, s: snap, dest: seq<octet>, payload: seq<octet>, hardware: address, c: Binding)
    requires IsDestination(dest) && SameKind(own, TargetSap(own, dest)) && BoundTo(c, own, s, dest)
    requires |Frame(own, s, dest, payload, hardware)| >= 22 && Matches(c, Frame(own, s, dest, payload, hardware))
    ensures var f := Frame(own, s, dest, payload, hardware);
      if own >= 1501 then TypeOf(f) == Dix
      else if own == 0xff && TargetSap(own, dest) == 0xff then
        TypeOf(f) == if f[15] == 0xff then Ipx else if f[15] == 0xaa then Snap else Sap
      else TypeOf(f) == if own == 0xaa then Snap else Sap
  {
    NamedIsHeard(own, s, dest, payload, hardware, c);
    hide Frame, TargetSap, TargetSnap, Word16, Matches, BoundTo;
    var f := Frame(own, s, dest, payload, hardware);
    if own >= 1501 {
      TypeFrame(own, s, dest, payload, hardware);
    } else if own == 0xff && TargetSap(own, dest) == 0xff {
      IpxFrame(s, dest, payload, hardware);
      Top(f[15]);
      Second(f[15]);
    } else {
      SapFrame(own, s, dest, payload, hardware);
    }
  }

  lemma Second(x: octet)
    ensures x as nat == 0xaa <==> x == 0xaa
  {
  }

  /** From one station to another: the stream that hears the frame gets one message; its
      indication, if it has one, names the destination and the sender, with their SAPs in the
      802.2 range; in raw mode the message is the whole frame, and otherwise exactly the data
      that was sent, unless that was IPX data without a second byte 0xff. */
  lemma Arrives(own: nat, s: snap, dest: seq<octet>, payload: seq<octet>, hardware: address, c: Binding,
                w: seq<bool>, modes: seq<Mode>, got: seq<seq<Message>>, freed: set<nat>, i: nat)
    requires IsDestination(dest) && SameKind(own, TargetSap(own, dest)) && BoundTo(c, own, s, dest)
    requires |Frame(own, s, dest, payload, hardware)| >= 22 && Wants(c, Frame(own, s, dest, payload, hardware))
    requires |modes| == |got| == |w| && i < |w| && w[i] && modes[i].memory
    requires Distributed(Frame(own, s, dest, payload, hardware), w, modes, got, freed)
    ensures |got[i]| == 1
    ensures got[i][0].indication.None? <==> modes[i].fastPath && dest[0] & 1 == 0
    ensures var a := got[i][0].indication;
      a.Some? ==> a.value.dest.hardware == dest[..6] && a.value.source.hardware == hardware
    ensures var a := got[i][0].indication;
      a.Some? && own <= 0xff && !(own == 0xff && TargetSap(own, dest) == 0xff) ==>
        a.value.dest.sap as nat == TargetSap(own, dest) && a.value.source.sap as nat == own &&
        a.value.dest.snap == a.value.source.snap == if own == 0xaa then TargetSnap(s, dest) else []
    ensures var f, start := Frame(own, s, dest, payload, hardware), got[i][0].start;
      start <= |f| && (modes[i].rawMode ==> f[start..] == f) &&
      (!modes[i].rawMode ==>
        (f[start..] == payload <==> (own == 0xff && TargetSap(own, dest) == 0xff ==> f[15] == 0xff)))
  {
    hide *;
    var f := Frame(own, s, dest, payload, hardware);
    EveryTakerIsGiven(f, w, modes, got, freed, i);
    NamesStations(own, s, dest, payload, hardware, c, modes[i], got[i][0]);
    BringsData(own, s, dest, payload, hardware, c, modes[i], got[i][0]);
  }

  lemma NamesStations(own: nat, s: snap, dest: seq<octet>, payload: seq<octet>, hardware: address, c: Binding,
                      mode: Mode, m: Message)
    requires IsDestination(dest) && SameKind(own, TargetSap(own, dest)) && BoundTo(c, own, s, dest)
    requires |Frame(own, s, dest, payload, hardware)| >= 22 && Wants(c, Frame(own, s, dest, payload, hardware))
    requires Given(Frame(own, s, dest, payload, hardware), mode, m)
    ensures m.indication.None? <==> mode.fastPath && dest[0] & 1 == 0
    ensures var a := m.indication;
      a.Some? ==> a.value.dest.hardware == dest[..6] && a.value.source.hardware == hardware
    ensures var a := m.indication;
      a.Some? && own <= 0xff && !(own == 0xff && TargetSap(own, dest) == 0xff) ==>
        a.value.dest.sap as nat == TargetSap(own, dest) && a.value.source.sap as nat == own &&
        a.value.dest.snap == a.value.source.snap == if own == 0xaa then TargetSnap(s, dest) else []
  {
    var f := Frame(own, s, dest, payload, hardware);
    ReceivedType(own, s, dest, payload, hardware, c);
    hide Frame, TargetSap, TargetSnap, Word16, Matches, BoundTo, TypeOf, TypeOfAddress;
    Addresses(own, s, dest, payload, hardware);
    assert f[0] == f[..6][0] == dest[..6][0] == dest[0];
    if own <= 0xff && !(own == 0xff && TargetSap(own, dest) == 0xff) {
      SapFrame(own, s, dest, payload, hardware);
    }
  }

  lemma BringsData(own: nat, s: snap, dest: seq<octet>, payload: seq<octet>, hardware: address, c: Binding,
                   mode: Mode, m: Message)
    requires IsDestination(dest) && SameKind(own, TargetSap(own, dest)) && BoundTo(c, own, s, dest)
    requires |Frame(own, s, dest, payload, hardware)| >= 22 && Wants(c, Frame(own, s, dest, payload, hardware))
    requires Given(Frame(own, s, dest, payload, hardware), mode, m)
    ensures var f, start := Frame(own, s, dest, payload, hardware), m.start;
      start <= |f| && (mode.rawMode ==> f[start..] == f) &&
      (!mode.rawMode ==>
        (f[start..] == payload <==> (own == 0xff && TargetSap(own, dest) == 0xff ==> f[15] == 0xff)))
  {
    var f := Frame(own, s, dest, payload, hardware);
    ReceivedType(own, s, dest, payload, hardware, c);
    hide Frame, TargetSap, TargetSnap, Word16, Matches, BoundTo, TypeOf, TypeOfAddress;
    if own >= 1501 {
      TypeFrame(own, s, dest, payload, hardware);
    } else if own == 0xff && TargetSap(own, dest) == 0xff {
      IpxFrame(s, dest, payload, hardware);
    } else {
      SapFrame(own, s, dest, payload, hardware);
    }
  }
}
