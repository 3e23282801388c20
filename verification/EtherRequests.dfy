/** Who hears which packet once a request has been acknowledged. */
module EtherRequests {
  import opened Bytes
  import opened EtherTypes
  import opened DlpiStreams
  import opened EtherReceive

  lemma AllOnes(x: octet)
    ensures x as nat == 0xff <==> x == 0xff
  {
  }

  lemma GlobalHalf(x: octet)
    ensures x & 1 != 0 && Half(x) == Half(0xff) <==> x == 0xff
  {
  }

  /** DL_BIND_REQ for an Ethernet type: the stream hears the packets of the type. */
  lemma AfterTypeBind(b: Binding, sap: word32, p: packet)
    requires b.state == Unbound && 1501 <= sap < 0x10000
    ensures var (c, reply) := Handle(b, BindReq(sap, 2, 0), true);
      reply == Ack && (Matches(c, p) <==> Proto(p) == sap || (b.acceptAll && Proto(p) < 1501))
    ensures Proto(p) == p[12] as nat * 256 + p[13] as nat
  {
    TypeBytes(p);
    TypeCanBeBound(sap);
    hide Half, IsGroup, Word16, CanBind, Classify;
  }

  lemma TypeBytes(p: packet)
    ensures Proto(p) == p[12] as nat * 256 + p[13] as nat
  {
  }

  lemma TypeCanBeBound(sap: word32)
    requires 1501 <= sap < 0x10000
    ensures CanBind(sap) && sap % 0x10000 == sap
  {
  }

  /** DL_BIND_REQ for an even SAP of the 802.2 range: the stream hears the 802.2 packets for
      the SAP, and those for the global SAP 0xff that are not IPX. */
  lemma AfterSapBind(b: Binding, sap: word32, p: packet)
    requires b.state == Unbound && sap <= 0xfe && sap % 2 == 0
    ensures var (c, reply) := Handle(b, BindReq(sap, 2, 0), true);
      reply == Ack &&
      (Matches(c, p) <==>
        Proto(p) < 1501 && (b.acceptAll || p[14] as nat == sap || (p[14] == 0xff && p[15] != 0xff)))
  {
    AllOnes(p[14]);
    AllOnes(p[15]);
    GlobalHalf(p[14]);
    hide Half, Word16;
  }

  /** DL_SUBS_BIND_REQ as a peer with a group SAP of two bytes: besides, the stream hears the
      802.2 packets for that SAP and its group that are not for its own one. */
  lemma AfterGroupBind(b: Binding, sap: snap, p: packet)
    requires Inv(b) && b.state == Idle && b.dlsap <= 0xfe && sap[1] & 1 == 1
    ensures var (c, reply) := Handle(b, SubsBindReq(1, sap, 2), true);
      reply == Ack &&
      (Matches(c, p) <==> (Matches(b, p) ||
        (Proto(p) < 1501 && p[14] & 1 == 1 && p[14] >> 1 == sap[1] >> 1 && p[14] as nat != b.dlsap &&
         !(p[14] == 0xff && p[15] == 0xff))))
  {
    AllOnes(p[14]);
    AllOnes(p[15]);
    Odd(sap[1]);
    Odd(p[14]);
    assert Half(p[14]) == p[14] >> 1 && Half(sap[1]) == sap[1] >> 1;
    hide Word16, Half, Distinct, TypeOfAddress;
  }

  lemma Odd(x: octet)
    ensures x & 1 == 1 <==> IsGroup(x)
  {
  }

  /** DL_SUBS_BIND_REQ as a peer with the SAP 0: the stream hears all 802.2 packets. */
  lemma AfterAcceptAll(b: Binding, sap: snap, length: int, p: packet)
    requires b.state == Idle && b.dlsap <= 0xfe && sap[0] == 0 && sap[1] == 0
    ensures var (c, reply) := Handle(b, SubsBindReq(1, sap, length), true);
      reply == Ack && (Matches(c, p) <==> Matches(b, p) || Proto(p) < 1501)
  {
    Even(sap[1]);
    hide Half, IsGroup, Word16;
  }

  lemma Even(x: octet)
    requires x == 0
    ensures !IsGroup(x)
  {
  }

  /** DL_SUBS_BIND_REQ below the SNAP SAP 0xaa: of the packets for that SAP the stream hears
      only those with its SNAP, unless it takes all. */
  lemma AfterSnapBind(b: Binding, sap: snap, length: int, p: packet)
    requires b.state == Idle && b.dlsap == 0xaa && !b.snapStream
    ensures var (c, reply) := Handle(b, SubsBindReq(2, sap, length), true);
      reply == Ack &&
      (Matches(c, p) <==>
        Matches(b, p) && (Proto(p) < 1501 && p[14] as nat == 0xaa && !b.acceptAll ==> p[17..22] == sap))
  {
    hide Half, IsGroup, Word16;
  }

  /** DL_ENABMULTI_REQ: of the packets for multicast addresses the stream wants those for its
      registered ones and for the new one, even if it took all of them before. */
  lemma AfterEnable(b: Binding, addr: address, p: packet)
    requires Inv(b) && TypeOfAddress(addr) == Multicast && addr !in b.multicast
    ensures var (c, reply) := Handle(b, EnableMultiReq(addr), true);
      reply == Ack &&
      (Wants(c, p) <==>
        Matches(b, p) && (TypeOfAddress(p[..6]) == Multicast ==> p[..6] == addr || p[..6] in b.multicast))
  {
    hide Half, IsGroup, Word16, TypeOfAddress, Classify;
  }

  /** DL_DISABMULTI_REQ: no longer those for the address; but once no address is left, those
      for all of them. */
  lemma AfterDisable(b: Binding, addr: address, p: packet)
    requires Inv(b) && TypeOfAddress(addr) == Multicast && addr in b.multicast
    ensures var (c, reply) := Handle(b, DisableMultiReq(addr), true);
      reply == Ack &&
      (Wants(c, p) <==>
        Matches(b, p) &&
        (TypeOfAddress(p[..6]) == Multicast ==>
          (p[..6] != addr && p[..6] in b.multicast) || (forall a :: a in b.multicast ==> a == addr)))
  {
    RemovedMeans(b.multicast, addr);
    hide Half, IsGroup, Word16, TypeOfAddress, Classify, WithoutFirst, Distinct;
    var list := WithoutFirst(b.multicast, addr);
    if list != [] {
      assert list[0] in b.multicast && list[0] != addr;
    }
  }

  /** DL_SUBS_UNBIND_REQ of the SNAP: the stream hears all packets for the SNAP SAP again. */
  lemma AfterSnapUnbind(b: Binding, p: packet)
    requires b.state == Idle && b.dlsap == 0xaa && b.snapStream
    ensures var (c, reply) := Handle(b, SubsUnbindReq(b.snap, 5), true);
      reply == Ack && (Matches(c, p) <==> Matches(b, p) || (Proto(p) < 1501 && p[14] as nat == 0xaa))
  {
    hide Half, IsGroup, Word16;
  }

  /** When a request is granted: the stream is in the state for it, and the request names
      something that can be bound, or that is bound. */
  lemma GrantedExactly(b: Binding, r: Request, memory: bool)
    requires Inv(b)
    ensures Handle(b, r, memory).1 == Ack <==> match r
      case BindReq(sap, mode, ind) =>
        b.state == Unbound && mode == 2 && ind == 0 && memory &&
        (sap <= 0xfe ==> sap % 2 == 0) && (sap % 0x10000 <= 0xff || sap % 0x10000 >= 1501)
      case UnbindReq => b.state == Idle
      case SubsBindReq(c, sap, length) =>
        b.state == Idle && memory &&
        ((c == 1 && b.dlsap <= 0xfe && ((sap[1] & 1 == 1 && length == 2) || sap[..2] == [0, 0])) ||
         (c == 2 && b.dlsap == 0xaa && !b.snapStream))
      case SubsUnbindReq(sap, length) =>
        b.state == Idle &&
        (if length == 1 then b.dlsap <= 0xfe && sap[0] & 1 == 1 && sap[0] != 0xff
         else length == 5 ==> b.dlsap == 0xaa && b.snapStream && b.snap == sap)
      case EnableMultiReq(addr) => TypeOfAddress(addr) == Multicast && addr !in b.multicast
      case DisableMultiReq(addr) => TypeOfAddress(addr) == Multicast && addr in b.multicast
    ensures r.BindReq? && b.state == Idle ==> Handle(b, r, memory) == (b, ErrorAck(OutState))
    ensures (r.UnbindReq? || r.SubsBindReq? || r.SubsUnbindReq?) && b.state == Unbound ==>
      Handle(b, r, memory) == (b, ErrorAck(OutState))
  {
    match r {
      case SubsBindReq(c, sap, length) =>
        Odd(sap[1]);
        hide IsGroup, Half;
        assert sap[..2] == [sap[0], sap[1]];
      case SubsUnbindReq(sap, length) =>
        Odd(sap[0]);
      case _ =>
    }
  }
}
