/** Constants, addresses and packet types of the Ethernet stream module. */
module EtherTypes {
  import opened Bytes

  const MIN_DIX_SAP: nat := 1501
  const SNAP_SAP: nat := 0xaa
  const MAX_8022_SAP: nat := 0xfe
  const GLOBAL_SAP: nat := 0xff
  const IPX_SAP: nat := 0xff

  const ADDRESS_LENGTH: nat := 6
  const HEADER_LENGTH: nat := 14
  const BASIC_HEADER_LENGTH: nat := 3
  const SNAP_LENGTH: nat := 5

  /** A byte of a packet, of which the program masks and compares the bits. */
  type octet = bv8

  type address = a: seq<octet> | |a| == ADDRESS_LENGTH witness [0, 0, 0, 0, 0, 0]
  type snap = s: seq<octet> | |s| == SNAP_LENGTH witness [0, 0, 0, 0, 0]

  datatype PacketType = Dix | Sap | Snap | Ipx | UnknownType

  /** `classify_packet_type`; SNAP before plain 802.2, IPX before both. */
  function Classify(primary: nat, secondary: nat): PacketType {
    if primary >= MIN_DIX_SAP then Dix
    else if primary == IPX_SAP && secondary == IPX_SAP then Ipx
    else if primary == SNAP_SAP then Snap
    else if primary <= GLOBAL_SAP then Sap
    else UnknownType
  }

  datatype AddressType = Standard | Multicast | Broadcast

  /** `get_address_type` */
  function TypeOfAddress(a: address): AddressType {
    if a[0] & 1 == 0 then Standard
    else if a == [0xff, 0xff, 0xff, 0xff, 0xff, 0xff] then Broadcast
    else Multicast
  }

  // ---------------------------------------------------------------- numbers in packets

  function Octet(n: nat): octet
    requires n < 0x100
  {
    n as bv8
  }

  lemma NextOctet(x: octet)
    requires x != 255
    ensures (x + 1) as int == x as int + 1
  {
  }

  lemma BelowTop(x: octet)
    requires x as int < 255
    ensures x != 255
  {
  }

  lemma {:induction false} SomeOctet(n: nat) returns (x: octet)
    requires n < 0x100
    ensures x as int == n
  {
    if n == 0 {
      x := 0;
    } else {
      var y := SomeOctet(n - 1);
      BelowTop(y);
      NextOctet(y);
      x := y + 1;
    }
  }

  lemma SameOctet(x: octet)
    ensures x as int as bv8 == x
  {
  }

  /** A number below 256 survives being stored in a byte. */
  lemma OctetBack(n: nat)
    requires n < 0x100
    ensures Octet(n) as int == n
  {
    var x := SomeOctet(n);
    SameOctet(x);
  }

  /** The two bytes of a 16-bit field, the high one first. */
  function Big(n: nat): (s: seq<octet>)
    requires n < 0x10000
    ensures |s| == 2
  {
    [Octet(n / 0x100), Octet(n % 0x100)]
  }

  function Word16(hi: octet, lo: octet): nat { hi as nat * 0x100 + lo as nat }

  lemma BigBack(n: nat)
    requires n < 0x10000
    ensures Word16(Big(n)[0], Big(n)[1]) == n
  {
    OctetBack(n / 0x100);
    OctetBack(n % 0x100);
    hide Octet;
  }

  // ---------------------------------------------------------------- the group SAP map

  /** The word of a SAP in the map (its top two bits), and its bit in the word. */
  function MapWord(sap: bv8): (i: nat)
    ensures i < 4
  {
    if sap >> 6 == 0 then 0 else if sap >> 6 == 1 then 1 else if sap >> 6 == 2 then 2 else 3
  }

  /** The position of a SAP's bit in its word. */
  function Place(sap: bv8): bv32 { ((sap >> 1) & 0x1f) as bv32 }

  function Bit(i: bv32): bv32 { if i < 32 then (1 as bv32) << i else 0 }

  function And(w: bv32, p: bv32): bv32 { w & p }

  function AndNot(w: bv32, p: bv32): bv32 { w & !p }

  function Or(w: bv32, p: bv32): bv32 { w | p }

  predicate Has(w: bv32, sap: bv8) { And(w, Bit(Place(sap))) != 0 }

  function With(w: bv32, sap: bv8): bv32 { Or(w, Bit(Place(sap))) }

  function Without(w: bv32, sap: bv8): bv32 { AndNot(w, Bit(Place(sap))) }

  lemma BitsApart(i: bv32, j: bv32)
    requires i < 32 && j < 32
    ensures Bit(i) != 0
    ensures i != j ==> And(Bit(i), Bit(j)) == 0
  {
  }

  lemma ClearApart(w: bv32, p: bv32, q: bv32)
    requires p & q == 0
    ensures w & !p & q == w & q
  {
  }

  lemma SetApart(w: bv32, p: bv32, q: bv32)
    requires p & q == 0
    ensures (w | p) & q == w & q
  {
  }

  lemma Apart(w: bv32, p: bv32, q: bv32)
    requires And(p, q) == 0
    ensures And(AndNot(w, p), q) == And(w, q)
    ensures And(Or(w, p), q) == And(w, q)
  {
    ClearApart(w, p, q);
    SetApart(w, p, q);
  }

  lemma Same(w: bv32, p: bv32)
    ensures And(AndNot(w, p), p) == 0
    ensures And(Or(w, p), p) == p
  {
  }

  lemma PlaceBound(sap: bv8)
    ensures Place(sap) < 32
  {
  }

  lemma BitLemma(w: bv32, a: bv8, b: bv8)
    ensures Has(With(w, a), b) <==> Has(w, b) || Place(a) == Place(b)
    ensures Has(Without(w, a), b) <==> Has(w, b) && Place(a) != Place(b)
  {
    hide Place, Bit, And, AndNot, Or;
    PlaceBound(a);
    PlaceBound(b);
    BitsApart(Place(a), Place(b));
    Same(w, Bit(Place(a)));
    if Place(a) != Place(b) {
      Apart(w, Bit(Place(a)), Bit(Place(b)));
    }
  }

  /** A SAP and its group twin have one half, and so one place in the map. */
  function Half(sap: bv8): bv8 { sap >> 1 }

  lemma SamePlace(a: bv8, b: bv8)
    ensures MapWord(a) == MapWord(b) && Place(a) == Place(b) <==> Half(a) == Half(b)
  {
  }

  predicate IsSet(words: seq<bv32>, sap: bv8)
    requires |words| == 4
  {
    Has(words[MapWord(sap)], sap)
  }

  function SetSap(words: seq<bv32>, sap: bv8): (r: seq<bv32>)
    requires |words| == 4
    ensures |r| == 4
  {
    words[MapWord(sap) := With(words[MapWord(sap)], sap)]
  }

  function ClearSap(words: seq<bv32>, sap: bv8): (r: seq<bv32>)
    requires |words| == 4
    ensures |r| == 4
  {
    words[MapWord(sap) := Without(words[MapWord(sap)], sap)]
  }

  /** The map as a set of halves. */
  ghost function Halves(words: seq<bv32>): iset<bv8>
    requires |words| == 4
  {
    iset sap: bv8 | IsSet(words, sap) :: Half(sap)
  }

  /** Testing the map is testing the set, for either SAP of a pair. */
  lemma TestMeans(words: seq<bv32>, sap: bv8)
    requires |words| == 4
    ensures IsSet(words, sap) <==> Half(sap) in Halves(words)
  {
    hide And, Bit, Place, MapWord, Half;
    if Half(sap) in Halves(words) {
      var b: bv8 :| IsSet(words, b) && Half(b) == Half(sap);
      SamePlace(sap, b);
    }
  }

  lemma SetOne(words: seq<bv32>, sap: bv8, b: bv8)
    requires |words| == 4
    ensures IsSet(SetSap(words, sap), b) <==> IsSet(words, b) || Half(b) == Half(sap)
  {
    hide Has, With, Place, MapWord, Half;
    SamePlace(sap, b);
    BitLemma(words[MapWord(sap)], sap, b);
  }

  lemma ClearOne(words: seq<bv32>, sap: bv8, b: bv8)
    requires |words| == 4
    ensures IsSet(ClearSap(words, sap), b) <==> IsSet(words, b) && Half(b) != Half(sap)
  {
    hide Has, Without, Place, MapWord, Half;
    SamePlace(sap, b);
    BitLemma(words[MapWord(sap)], sap, b);
  }

  lemma SetMeans(words: seq<bv32>, sap: bv8)
    requires |words| == 4
    ensures Halves(SetSap(words, sap)) == Halves(words) + iset{Half(sap)}
  {
    hide IsSet, SetSap, Half;
    forall b: bv8
      ensures IsSet(SetSap(words, sap), b) <==> IsSet(words, b) || Half(b) == Half(sap)
    {
      SetOne(words, sap, b);
    }
    assert IsSet(SetSap(words, sap), sap);
  }

  lemma ClearMeans(words: seq<bv32>, sap: bv8)
    requires |words| == 4
    ensures Halves(ClearSap(words, sap)) == Halves(words) - iset{Half(sap)}
  {
    hide IsSet, ClearSap, Half;
    forall b: bv8
      ensures IsSet(ClearSap(words, sap), b) <==> IsSet(words, b) && Half(b) != Half(sap)
    {
      ClearOne(words, sap, b);
    }
  }

  lemma EmptyMeans(words: seq<bv32>)
    requires words == [0, 0, 0, 0]
    ensures Halves(words) == iset{}
  {
    hide Place, MapWord;
  }
}
