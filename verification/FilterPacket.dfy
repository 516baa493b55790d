/**
  What a filter rule says about a packet, field by field.

  A packet is a record of named fields and a frame is those fields written out in header order; no offset
  into a frame is mentioned.  The compiled form of a rule matches a frame exactly if the rule selects the
  packet that the frame was written from.
 */
module FilterPacket {
  import opened Words
  import opened FilterRule

  // ---------------------------------------------------------------------------------------------
  // Packets
  // ---------------------------------------------------------------------------------------------

  /** What follows the IP header: two ports, an ICMP message or anything else. */
  datatype Payload =
    | Ports(source: bv16, destination: bv16, rest: seq<bv8>)
    | Message(kind: bv8, rest: seq<bv8>)
    | Other(rest: seq<bv8>)

  /** The addresses of an ARP packet, if they are Ethernet and IPv4 addresses. */
  datatype ArpAddresses =
    | Pairs(senderMac: seq<bv8>, sender: bv32, targetMac: seq<bv8>, target: bv32, rest: seq<bv8>)
    | Unknown(rest: seq<bv8>)

  datatype Body =
    | Ipv4(version: bv4, headerWords: bv4, service: bv8, totalLength: bv16, id: bv16, fragment: bv16, ttl: bv8,
           protocol: bv8, checksum: bv16, source: bv32, destination: bv32, options: seq<bv8>, payload: Payload)
    | ArpPacket(hardware: bv16, protocolType: bv16, hardwareLength: bv8, protocolLength: bv8, operation: bv16,
                addresses: ArpAddresses)
    | Unparsed(rest: seq<bv8>)

  datatype Packet =
    Packet(destinationMac: seq<bv8>, sourceMac: seq<bv8>, tag: Option<bv16>, etherType: bv16, body: Body)

  /** The fields fit together: type numbers announce what follows, and an IP header without options is five
      words long. */
  predicate WellFormed(k: Packet) {
    && |k.destinationMac| == |k.sourceMac| == 6
    && (k.tag.None? ==> k.etherType != 0x8100)
    && (k.etherType == 0x0800 <==> k.body.Ipv4?)
    && (k.etherType == 0x0806 <==> k.body.ArpPacket?)
    && (k.body.Ipv4? ==>
          && (k.body.headerWords == 5 ==> k.body.options == [])
          && (k.body.protocol == 6 || k.body.protocol == 17 <==> k.body.payload.Ports?)
          && (k.body.protocol == 1 <==> k.body.payload.Message?))
    && (k.body.ArpPacket? ==>
          && (k.body.hardwareLength == 6 && k.body.protocolLength == 4 <==> k.body.addresses.Pairs?)
          && (k.body.addresses.Pairs? ==> |k.body.addresses.senderMac| == |k.body.addresses.targetMac| == 6))
  }

  // ---------------------------------------------------------------------------------------------
  // Frames
  // ---------------------------------------------------------------------------------------------

  /** Numbers are written high byte first. */
  function Two(w: bv16): (b: seq<bv8>)
    ensures |b| == 2
  {
    [(w >> 8) as bv8, (w & 0xFF) as bv8]
  }

  function Four(a: bv32): (b: seq<bv8>)
    ensures |b| == 4
  {
    [(a >> 24) as bv8, ((a >> 16) & 0xFF) as bv8, ((a >> 8) & 0xFF) as bv8, (a & 0xFF) as bv8]
  }

  function Nibbles(high: bv4, low: bv4): bv8 {
    ((high as bv8) << 4) | (low as bv8)
  }

  function PayloadBytes(p: Payload): seq<bv8> {
    match p
    case Ports(source, destination, rest) => Two(source) + Two(destination) + rest
    case Message(kind, rest) => [kind] + rest
    case Other(rest) => rest
  }

  function AddressesBytes(a: ArpAddresses): seq<bv8> {
    match a
    case Pairs(senderMac, sender, targetMac, target, rest) => senderMac + Four(sender) + targetMac + Four(target) + rest
    case Unknown(rest) => rest
  }

  function BodyBytes(b: Body): seq<bv8> {
    match b
    case Ipv4(version, words, service, total, id, fragment, ttl, protocol, checksum, source, destination, options,
              payload) =>
      [Nibbles(version, words), service] + Two(total) + Two(id) + Two(fragment) + [ttl, protocol] + Two(checksum)
      + Four(source) + Four(destination) + options + PayloadBytes(payload)
    case ArpPacket(hardware, kind, hardwareLength, protocolLength, operation, addresses) =>
      Two(hardware) + Two(kind) + [hardwareLength, protocolLength] + Two(operation) + AddressesBytes(addresses)
    case Unparsed(rest) => rest
  }

  function TagBytes(tag: Option<bv16>): seq<bv8> {
    if tag.None? then [] else [0x81, 0x00] + Two(tag.value)
  }

  function EthernetBytes(k: Packet): seq<bv8> {
    k.destinationMac + k.sourceMac + TagBytes(k.tag) + Two(k.etherType)
  }

  /** The packet as a frame. */
  function Serialize(k: Packet): seq<bv8> {
    EthernetBytes(k) + BodyBytes(k.body)
  }

  // ---------------------------------------------------------------------------------------------
  // Which packets a rule selects
  // ---------------------------------------------------------------------------------------------

  /** A word whose `n` highest bits are set. */
  ghost function Leading(n: nat): bv32 {
    if n == 0 then 0 else 0x8000_0000 | (Leading(n - 1) >> 1)
  }

  ghost predicate InNetwork(x: bv32, address: bv32, bits: nat) {
    Masked32(x, Leading(bits)) == Masked32(address, Leading(bits))
  }

  ghost predicate SelectsVlan(v: VlanTag, k: Packet) {
    match v
    case NoVlan => true
    case AnyTag => k.tag.Some?
    case Tag(tci) => k.tag == Some(tci)
  }

  /** A rule with a protocol is about untagged packets, unless it has a VLAN tag; then it is about tagged
      ones.  Only IGMP packets may have IP options. */
  ghost predicate SelectsProtocol(v: VlanTag, p: Protocol, k: Packet) {
    || p.AnyProtocol?
    || (&& (k.tag.Some? <==> !v.NoVlan?)
        && (if p.Arp? then
              k.body.ArpPacket? && k.body.hardware == 1 && k.body.protocolType == 0x0800 && k.body.addresses.Pairs?
            else
              && k.body.Ipv4? && k.body.version == 4
              && (k.body.headerWords == 5 || p.Igmp?)
              && (p.Tcp? ==> k.body.protocol == 6)
              && (p.Udp? ==> k.body.protocol == 17)
              && (p.Icmp? ==> k.body.protocol == 1)
              && (p.Igmp? ==> k.body.protocol == 2)))
  }

  ghost predicate SelectsClause(c: Clause, k: Packet) {
    match c
    case PortIs(d, port) =>
      k.body.Ipv4? && k.body.payload.Ports?
      && port == if d.Src? then k.body.payload.source else k.body.payload.destination
    case AddressIn(d, address, bits) =>
      || (k.body.Ipv4? && InNetwork(if d.Src? then k.body.source else k.body.destination, address, bits))
      || (k.body.ArpPacket? && k.body.addresses.Pairs? && d.Src? && InNetwork(k.body.addresses.sender, address, bits))
    case TypeIs(code) =>
      k.body.Ipv4? && k.body.payload.Message? && code == k.body.payload.kind
  }

  /** The last of several ICMP types is the one that counts. */
  ghost predicate Selects(r: Rule, k: Packet) {
    && SelectsVlan(r.vlan, k)
    && SelectsProtocol(r.vlan, r.protocol, k)
    && forall i :: 0 <= i < |r.clauses| && Counts(r.clauses, i) ==> SelectsClause(r.clauses[i], k)
  }

  /** No address in the rule has bits below its prefix. */
  ghost predicate NoHostBits(r: Rule) {
    forall i :: 0 <= i < |r.clauses| && r.clauses[i].AddressIn? ==>
      Masked32(r.clauses[i].address, Leading(r.clauses[i].bits)) == r.clauses[i].address
  }

  // ---------------------------------------------------------------------------------------------
  // Netmasks
  // ---------------------------------------------------------------------------------------------

  lemma Netmasks1To8()
    ensures forall n {:trigger Leading(n)} :: 1 <= n <= 8 ==> Netmask(n) == Leading(n)
    ensures Leading(8) == 0xFF00_0000
  {
    assert Netmask(1) == 0x8000_0000 == Leading(1);
    assert Netmask(2) == 0xC000_0000 == Leading(2);
    assert Netmask(3) == 0xE000_0000 == Leading(3);
    assert Netmask(4) == 0xF000_0000 == Leading(4);
    assert Netmask(5) == 0xF800_0000 == Leading(5);
    assert Netmask(6) == 0xFC00_0000 == Leading(6);
    assert Netmask(7) == 0xFE00_0000 == Leading(7);
    assert Netmask(8) == 0xFF00_0000 == Leading(8);
  }

  lemma Netmasks9To16()
    requires Leading(8) == 0xFF00_0000
    ensures forall n {:trigger Leading(n)} :: 9 <= n <= 16 ==> Netmask(n) == Leading(n)
    ensures Leading(16) == 0xFFFF_0000
  {
    assert Netmask(9) == 0xFF80_0000 == Leading(9);
    assert Netmask(10) == 0xFFC0_0000 == Leading(10);
    assert Netmask(11) == 0xFFE0_0000 == Leading(11);
    assert Netmask(12) == 0xFFF0_0000 == Leading(12);
    assert Netmask(13) == 0xFFF8_0000 == Leading(13);
    assert Netmask(14) == 0xFFFC_0000 == Leading(14);
    assert Netmask(15) == 0xFFFE_0000 == Leading(15);
    assert Netmask(16) == 0xFFFF_0000 == Leading(16);
  }

  lemma Netmasks17To24()
    requires Leading(16) == 0xFFFF_0000
    ensures forall n {:trigger Leading(n)} :: 17 <= n <= 24 ==> Netmask(n) == Leading(n)
    ensures Leading(24) == 0xFFFF_FF00
  {
    assert Netmask(17) == 0xFFFF_8000 == Leading(17);
    assert Netmask(18) == 0xFFFF_C000 == Leading(18);
    assert Netmask(19) == 0xFFFF_E000 == Leading(19);
    assert Netmask(20) == 0xFFFF_F000 == Leading(20);
    assert Netmask(21) == 0xFFFF_F800 == Leading(21);
    assert Netmask(22) == 0xFFFF_FC00 == Leading(22);
    assert Netmask(23) == 0xFFFF_FE00 == Leading(23);
    assert Netmask(24) == 0xFFFF_FF00 == Leading(24);
  }

  lemma Netmasks25To32()
    requires Leading(24) == 0xFFFF_FF00
    ensures forall n {:trigger Leading(n)} :: 25 <= n <= 32 ==> Netmask(n) == Leading(n)
    ensures Leading(32) == 0xFFFF_FFFF
  {
    assert Netmask(25) == 0xFFFF_FF80 == Leading(25);
    assert Netmask(26) == 0xFFFF_FFC0 == Leading(26);
    assert Netmask(27) == 0xFFFF_FFE0 == Leading(27);
    assert Netmask(28) == 0xFFFF_FFF0 == Leading(28);
    assert Netmask(29) == 0xFFFF_FFF8 == Leading(29);
    assert Netmask(30) == 0xFFFF_FFFC == Leading(30);
    assert Netmask(31) == 0xFFFF_FFFE == Leading(31);
    assert Netmask(32) == 0xFFFF_FFFF == Leading(32);
  }

  /** The netmask of a prefix length has exactly that many leading ones. */
  lemma NetmaskLeads(bits: PrefixLength)
    ensures Netmask(bits) == Leading(bits)
  {
    hide Netmask, Leading;
    Netmasks1To8();
    Netmasks9To16();
    Netmasks17To24();
    Netmasks25To32();
  }

  /** Two addresses agree under the netmask exactly if they begin with the same bits. */
  lemma NetworkIsPrefix(x: bv32, a: bv32, bits: PrefixLength)
    requires Masked32(a, Netmask(bits)) == a
    ensures InNetwork(x, a, bits) <==> SamePrefix(x, a, bits)
  {
    hide Netmask, Leading, Masked32, SamePrefix;
    NetmaskLeads(bits);
    PrefixMeaning(x, a, bits);
  }

  // ---------------------------------------------------------------------------------------------
  // Where the fields end up
  // ---------------------------------------------------------------------------------------------

  lemma TwoJoined(w: bv16)
    ensures Join16(Two(w)[0], Two(w)[1]) == w
  {
  }

  lemma TagJoined()
    ensures Join16(0x81, 0x00) == 0x8100
  {
  }

  lemma FourJoined(a: bv32)
    ensures Join32(Four(a)[0], Four(a)[1], Four(a)[2], Four(a)[3]) == a
  {
  }

  /** A number that was written at an offset is read there. */
  lemma ReadsTwo(f: seq<bv8>, at: nat, w: bv16)
    requires at + 2 <= |f| && f[at..at + 2] == Two(w)
    ensures U16(f, at) == w
  {
    hide Two, Join16;
    TwoJoined(w);
    assert f[at] == f[at..at + 2][0] && f[at + 1] == f[at..at + 2][1];
  }

  lemma ReadsFour(f: seq<bv8>, at: nat, a: bv32)
    requires at + 4 <= |f| && f[at..at + 4] == Four(a)
    ensures U32(f, at) == a
  {
    hide Four, Join32;
    FourJoined(a);
    var b := f[at..at + 4];
    assert f[at] == b[0] && f[at + 1] == b[1] && f[at + 2] == b[2] && f[at + 3] == b[3];
  }

  /** Where the Ethernet header of a packet ends. */
  function HeaderLength(k: Packet): nat {
    if k.tag.Some? then 18 else 14
  }

  lemma EthernetFields(k: Packet)
    requires WellFormed(k) && |Serialize(k)| >= 44
    ensures var f, e := Serialize(k), HeaderLength(k);
            && (k.tag.Some? ==> U16(f, 12) == 0x8100 && U16(f, 14) == k.tag.value)
            && U16(f, e - 2) == k.etherType
            && f[e..] == BodyBytes(k.body)
  {
    hide Two, BodyBytes, Join16;
    var f, e := Serialize(k), HeaderLength(k);
    var macs := k.destinationMac + k.sourceMac;
    assert f == macs + TagBytes(k.tag) + Two(k.etherType) + BodyBytes(k.body);
    assert f[e - 2..e] == Two(k.etherType);
    ReadsTwo(f, e - 2, k.etherType);
    if k.tag.Some? {
      assert f[12..16] == TagBytes(k.tag);
      assert f[12] == TagBytes(k.tag)[0] && f[13] == TagBytes(k.tag)[1];
      TagJoined();
      assert f[14..16] == f[12..16][2..] == Two(k.tag.value);
      ReadsTwo(f, 14, k.tag.value);
    }
  }

  lemma IpFields(b: Body)
    requires b.Ipv4?
    ensures var f := BodyBytes(b);
            && |f| >= 20
            && f[0] == Nibbles(b.version, b.headerWords) && f[9] == b.protocol
            && U32(f, 12) == b.source && U32(f, 16) == b.destination
            && (b.options == [] ==> f[20..] == PayloadBytes(b.payload))
  {
    hide Two, Four, Nibbles, U32, PayloadBytes;
    var f := BodyBytes(b);
    var start := [Nibbles(b.version, b.headerWords), b.service] + Two(b.totalLength) + Two(b.id) + Two(b.fragment);
    assert |start| == 8 && start[0] == Nibbles(b.version, b.headerWords);
    var head := start + [b.ttl, b.protocol] + Two(b.checksum);
    assert |head| == 12 && head[9] == b.protocol && head[0] == start[0];
    var tail := b.options + PayloadBytes(b.payload);
    assert f == head + Four(b.source) + Four(b.destination) + tail;
    assert f[12..16] == Four(b.source) && f[16..20] == Four(b.destination);
    ReadsFour(f, 12, b.source);
    ReadsFour(f, 16, b.destination);
    assert f[20..] == tail;
  }

  lemma ArpFields(b: Body)
    requires b.ArpPacket?
    ensures var f := BodyBytes(b);
            && |f| >= 8
            && U16(f, 0) == b.hardware && U16(f, 2) == b.protocolType
            && f[4] == b.hardwareLength && f[5] == b.protocolLength
            && f[8..] == AddressesBytes(b.addresses)
  {
    hide Two, U16, AddressesBytes;
    var f := BodyBytes(b);
    var head := Two(b.hardware) + Two(b.protocolType) + [b.hardwareLength, b.protocolLength] + Two(b.operation);
    assert |head| == 8 && head[..2] == Two(b.hardware) && head[2..4] == Two(b.protocolType);
    assert head[4] == b.hardwareLength && head[5] == b.protocolLength;
    assert f == head + AddressesBytes(b.addresses);
    assert f[0..2] == head[..2] && f[2..4] == head[2..4];
    ReadsTwo(f, 0, b.hardware);
    ReadsTwo(f, 2, b.protocolType);
  }

  lemma PayloadFields(p: Payload)
    ensures var f := PayloadBytes(p);
            && (p.Ports? ==> |f| >= 4 && U16(f, 0) == p.source && U16(f, 2) == p.destination)
            && (p.Message? ==> |f| >= 1 && f[0] == p.kind)
  {
    hide Two, U16;
    if p.Ports? {
      var f := PayloadBytes(p);
      assert f[0..2] == Two(p.source) && f[2..4] == Two(p.destination);
      ReadsTwo(f, 0, p.source);
      ReadsTwo(f, 2, p.destination);
    }
  }

  lemma SenderField(a: ArpAddresses)
    requires a.Pairs? && |a.senderMac| == 6
    ensures |AddressesBytes(a)| >= 10 && U32(AddressesBytes(a), 6) == a.sender
  {
    hide Four, U32;
    var f := AddressesBytes(a);
    var rest := a.targetMac + Four(a.target) + a.rest;
    assert f == a.senderMac + Four(a.sender) + rest;
    assert f[6..10] == Four(a.sender);
    ReadsFour(f, 6, a.sender);
  }

  /** Reading behind a header. */
  lemma ReadsBehind(f: seq<bv8>, e: nat, b: seq<bv8>, j: nat)
    requires e <= |f| && f[e..] == b
    ensures j < |b| ==> e + j < |f| && f[e + j] == b[j]
    ensures j + 2 <= |b| ==> e + j + 2 <= |f| && U16(f, e + j) == U16(b, j)
    ensures j + 4 <= |b| ==> e + j + 4 <= |f| && U32(f, e + j) == U32(b, j)
  {
    hide Join16, Join32;
    assert forall i {:trigger b[i]} :: 0 <= i < |b| ==> f[e + i] == b[i];
  }

  lemma NibblesRead(high: bv4, low: bv4)
    ensures HighNibble(Nibbles(high, low)) == 4 <==> high == 4
    ensures LowNibble(Nibbles(high, low)) == 5 <==> low == 5
  {
  }

  // ---------------------------------------------------------------------------------------------
  // Selecting packets is matching frames
  // ---------------------------------------------------------------------------------------------

  lemma VlanSelected(v: VlanTag, k: Packet)
    requires WellFormed(k) && |Serialize(k)| >= FILTER_SIZE
    ensures MeansVlan(v, Serialize(k)) <==> SelectsVlan(v, k)
  {
    hide U16, Serialize, BodyBytes;
    EthernetFields(k);
  }

  lemma ProtocolSelected(v: VlanTag, p: Protocol, k: Packet)
    requires WellFormed(k) && |Serialize(k)| >= FILTER_SIZE && SelectsVlan(v, k)
    ensures MeansProtocol(v, p, Serialize(k)) <==> SelectsProtocol(v, p, k)
  {
    hide U16, U32, Serialize, BodyBytes, PayloadBytes, AddressesBytes, HighNibble, LowNibble, Nibbles;
    EthernetFields(k);
    if k.tag.Some? <==> !v.NoVlan? {
      var f, e, b := Serialize(k), HeaderLength(k), BodyBytes(k.body);
      if k.body.Ipv4? {
        IpFields(k.body);
        ReadsBehind(f, e, b, 0);
        ReadsBehind(f, e, b, 9);
        NibblesRead(k.body.version, k.body.headerWords);
      } else if k.body.ArpPacket? {
        ArpFields(k.body);
        ReadsBehind(f, e, b, 0);
        ReadsBehind(f, e, b, 2);
        ReadsBehind(f, e, b, 4);
        ReadsBehind(f, e, b, 5);
      }
    }
  }

  /** Where the fields that clauses are about lie in the frame of a packet that the protocol selects. */
  lemma ClauseFields(v: VlanTag, p: Protocol, k: Packet)
    requires WellFormed(k) && |Serialize(k)| >= FILTER_SIZE && SelectsProtocol(v, p, k) && !p.AnyProtocol?
    ensures var f, e := Serialize(k), EthEnd(v);
            && (k.body.Ipv4? ==> U32(f, e + 12) == k.body.source && U32(f, e + 16) == k.body.destination)
            && (k.body.ArpPacket? ==> k.body.addresses.Pairs? && U32(f, e + 14) == k.body.addresses.sender)
            && (k.body.Ipv4? && k.body.headerWords == 5 && k.body.payload.Ports? ==>
                  U16(f, e + 20) == k.body.payload.source && U16(f, e + 22) == k.body.payload.destination)
            && (k.body.Ipv4? && k.body.headerWords == 5 && k.body.payload.Message? ==> f[e + 20] == k.body.payload.kind)
  {
    hide U16, U32, Serialize, BodyBytes, PayloadBytes, AddressesBytes, Nibbles;
    EthernetFields(k);
    var f, e, b := Serialize(k), HeaderLength(k), BodyBytes(k.body);
    if k.body.Ipv4? {
      IpFields(k.body);
      ReadsBehind(f, e, b, 12);
      ReadsBehind(f, e, b, 16);
      if k.body.headerWords == 5 {
        PayloadFields(k.body.payload);
        ReadsBehind(b, 20, PayloadBytes(k.body.payload), 0);
        ReadsBehind(b, 20, PayloadBytes(k.body.payload), 2);
        ReadsBehind(f, e, b, 20);
        ReadsBehind(f, e, b, 22);
      }
    } else {
      ArpFields(k.body);
      SenderField(k.body.addresses);
      ReadsBehind(b, 8, AddressesBytes(k.body.addresses), 6);
      ReadsBehind(f, e, b, 14);
    }
  }

  lemma AddressSelected(v: VlanTag, p: Protocol, c: Clause, k: Packet)
    requires WellFormed(k) && |Serialize(k)| >= FILTER_SIZE && SelectsProtocol(v, p, k)
    requires c.AddressIn? && Applicable(p, c) && CanonicalClause(c)
    ensures MeansClause(v, p, c, Serialize(k)) <==> SelectsClause(c, k)
  {
    ClauseFields(v, p, k);
    hide U16, U32, Serialize, Netmask, Masked32, SamePrefix, InNetwork, WellFormed;
    var x := U32(Serialize(k), FieldAt(v, p, FieldOf(c)));
    NetworkIsPrefix(x, c.address, c.bits);
    assert p.Arp? <==> k.body.ArpPacket?;
  }

  lemma ClauseSelected(v: VlanTag, p: Protocol, c: Clause, k: Packet)
    requires WellFormed(k) && |Serialize(k)| >= FILTER_SIZE && SelectsProtocol(v, p, k)
    requires Applicable(p, c) && CanonicalClause(c)
    ensures MeansClause(v, p, c, Serialize(k)) <==> SelectsClause(c, k)
  {
    if c.AddressIn? {
      hide MeansClause, SelectsClause, CanonicalClause, Applicable, WellFormed, SelectsProtocol, Serialize;
      AddressSelected(v, p, c, k);
    } else {
      hide U16, U32, Serialize;
      ClauseFields(v, p, k);
    }
  }

  lemma CanonicalMeansNoHostBits(r: Rule)
    requires Accepted(r)
    ensures Canonical(r) <==> NoHostBits(r)
  {
    hide Netmask, Leading, Masked32, Accepted;
    forall i | 0 <= i < |r.clauses| && r.clauses[i].AddressIn?
      ensures Netmask(r.clauses[i].bits) == Leading(r.clauses[i].bits)
    {
      NetmaskLeads(r.clauses[i].bits);
    }
  }

  /** From names to bytes: for every rule that the parser accepts and every packet, the compiled rule matches
      the packet's frame if and only if the rule selects the packet by its fields and no address in the rule
      has host bits. */
  lemma MatchesIffSelects(r: Rule, k: Packet)
    requires Accepted(r) && WellFormed(k) && |Serialize(k)| >= 44
    ensures Matches(r, Serialize(k)) <==> Selects(r, k) && NoHostBits(r)
  {
    hide Matches, Serialize, MeansVlan, SelectsVlan, MeansProtocol, SelectsProtocol, MeansClause, SelectsClause;
    hide Applicable, NoHostBits, WellFormed, CanonicalClause, Counts;
    CompilationPreservesMeaning(r, Serialize(k));
    CanonicalMeansNoHostBits(r);
    VlanSelected(r.vlan, k);
    if Canonical(r) && SelectsVlan(r.vlan, k) {
      ProtocolSelected(r.vlan, r.protocol, k);
      if SelectsProtocol(r.vlan, r.protocol, k) {
        forall i | 0 <= i < |r.clauses|
          ensures Applicable(r.protocol, r.clauses[i])
          ensures MeansClause(r.vlan, r.protocol, r.clauses[i], Serialize(k)) <==> SelectsClause(r.clauses[i], k)
        {
          assert Applicable(r.protocol, r.clauses[i]) && CanonicalClause(r.clauses[i]);
          ClauseSelected(r.vlan, r.protocol, r.clauses[i], k);
        }
      }
    }
  }

  // ---------------------------------------------------------------------------------------------
  // Which clauses a protocol allows
  // ---------------------------------------------------------------------------------------------

  /** The packet has the field that the clause is about. */
  predicate HasField(k: Packet, c: Clause) {
    match c
    case PortIs(_, _) => k.body.Ipv4? && k.body.payload.Ports?
    case AddressIn(_, _, _) => k.body.Ipv4? || (k.body.ArpPacket? && k.body.addresses.Pairs?)
    case TypeIs(_) => k.body.Ipv4? && k.body.payload.Message?
  }

  function IpSample(protocol: bv8, payload: Payload): Packet {
    Packet(seq(6, _ => 0), seq(6, _ => 0), None, 0x0800, Ipv4(4, 5, 0, 0, 0, 0, 0, protocol, 0, 0, 0, [], payload))
  }

  /** Some packet of the protocol. */
  function Sample(p: Protocol): Packet {
    match p
    case AnyProtocol => Packet(seq(6, _ => 0), seq(6, _ => 0), None, 0, Unparsed([]))
    case Tcp => IpSample(6, Ports(0, 0, []))
    case Udp => IpSample(17, Ports(0, 0, []))
    case Icmp => IpSample(1, Message(0, []))
    case Igmp => IpSample(2, Other([]))
    case Ip => IpSample(2, Other([]))
    case Arp =>
      Packet(seq(6, _ => 0), seq(6, _ => 0), None, 0x0806,
             ArpPacket(1, 0x0800, 6, 4, 0, Pairs(seq(6, _ => 0), 0, seq(6, _ => 0), 0, [])))
  }

  lemma SampleSelected(p: Protocol)
    ensures WellFormed(Sample(p)) && SelectsProtocol(NoVlan, p, Sample(p))
  {
  }

  /** A clause can be given for a protocol if and only if every packet of the protocol has the field, except
      that the target address of ARP cannot be asked for. */
  lemma ApplicableIffPresent(p: Protocol, c: Clause)
    ensures Applicable(p, c)
            <==> && !(p.Arp? && c.AddressIn? && c.dir.Dst?)
                 && forall k :: WellFormed(k) && SelectsProtocol(NoVlan, p, k) ==> HasField(k, c)
  {
    hide WellFormed;
    SampleSelected(p);
    if Applicable(p, c) {
      forall k | WellFormed(k) && SelectsProtocol(NoVlan, p, k)
        ensures HasField(k, c)
      {
        if k.body.Ipv4? {
          AnnouncedPayload(k);
        }
      }
    } else {
      assert HasField(Sample(p), c) ==> p.Arp? && c.AddressIn? && c.dir.Dst?;
    }
  }

  lemma AnnouncedPayload(k: Packet)
    requires WellFormed(k) && k.body.Ipv4?
    ensures k.body.protocol == 6 || k.body.protocol == 17 ==> k.body.payload.Ports?
    ensures k.body.protocol == 1 ==> k.body.payload.Message?
  {
  }
}
