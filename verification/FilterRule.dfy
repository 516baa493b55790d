/**
  Firewall filters: what a rule means for a frame, and the pattern and mask it is compiled to.

  A compiled filter matches a frame when masking the first 44 bytes of the frame yields the pattern.
 */
module FilterRule {
  import opened Words

  const FILTER_SIZE := 44

  // ---------------------------------------------------------------------------------------------
  // Rules
  // ---------------------------------------------------------------------------------------------

  datatype Protocol = AnyProtocol | Tcp | Udp | Icmp | Igmp | Arp | Ip

  datatype Direction = Src | Dst

  type PrefixLength = n: nat | 1 <= n <= 32 witness 1

  /** A clause about a port, an address with a prefix length, or an ICMP type. */
  datatype Clause =
    | PortIs(dir: Direction, port: bv16)
    | AddressIn(dir: Direction, address: bv32, bits: PrefixLength)
    | TypeIs(code: bv8)

  /** `vlan` is absent, present with any tag, or present with a given tag. */
  datatype VlanTag = NoVlan | AnyTag | Tag(tci: bv16)

  datatype Rule = Rule(drop: bool, vlan: VlanTag, protocol: Protocol, clauses: seq<Clause>)

  /** The place in a frame that a clause is about.  At most one clause may be given for each, except that
      the last of several ICMP types counts. */
  datatype Field = PortField(dir: Direction) | AddressField(dir: Direction) | TypeField

  function FieldOf(c: Clause): Field {
    match c
    case PortIs(d, _) => PortField(d)
    case AddressIn(d, _, _) => AddressField(d)
    case TypeIs(_) => TypeField
  }

  predicate OverIp(p: Protocol) {
    !p.AnyProtocol? && !p.Arp?
  }

  /** The protocols that a clause can be given for. */
  predicate Applicable(p: Protocol, c: Clause) {
    match c
    case PortIs(_, _) => p.Tcp? || p.Udp?
    case AddressIn(d, _, _) => OverIp(p) || (p.Arp? && d.Src?)
    case TypeIs(_) => p.Icmp?
  }

  predicate AllApplicable(p: Protocol, clauses: seq<Clause>) {
    forall k :: 0 <= k < |clauses| ==> Applicable(p, clauses[k])
  }

  /** No clause before index `n` is about the field. */
  predicate Unset(clauses: seq<Clause>, n: nat, field: Field)
    requires n <= |clauses|
  {
    forall i :: 0 <= i < n ==> FieldOf(clauses[i]) != field
  }

  /** The rules that the parser accepts. */
  ghost predicate Accepted(r: Rule) {
    && AllApplicable(r.protocol, r.clauses)
    && forall i :: 0 <= i < |r.clauses| && !r.clauses[i].TypeIs? ==> Unset(r.clauses, i, FieldOf(r.clauses[i]))
  }

  // ---------------------------------------------------------------------------------------------
  // What a rule means
  // ---------------------------------------------------------------------------------------------

  function Join16(b0: bv8, b1: bv8): bv16 { ((b0 as bv16) << 8) | (b1 as bv16) }

  function Join32(b0: bv8, b1: bv8, b2: bv8, b3: bv8): bv32 {
    ((b0 as bv32) << 24) | ((b1 as bv32) << 16) | ((b2 as bv32) << 8) | (b3 as bv32)
  }

  /** Big-endian fields of a frame. */
  function U16(f: seq<bv8>, at: nat): bv16
    requires at + 2 <= |f|
  {
    Join16(f[at], f[at + 1])
  }

  function U32(f: seq<bv8>, at: nat): bv32
    requires at + 4 <= |f|
  {
    Join32(f[at], f[at + 1], f[at + 2], f[at + 3])
  }

  /** The first `bits` bits of the two addresses are the same. */
  predicate SamePrefix(a: bv32, b: bv32, bits: PrefixLength) {
    HighPart(Difference(a, b), bits) == 0
  }

  function Difference(a: bv32, b: bv32): bv32 { a ^ b }

  function HighPart(a: bv32, bits: PrefixLength): bv32 { a >> (32 - bits) }

  const ETH_P_8021Q: bv16 := 0x8100
  const ETH_P_IP: bv16 := 0x0800
  const ETH_P_ARP: bv16 := 0x0806
  const ARPHRD_ETHER: bv16 := 1
  const ETH_ALEN: bv8 := 6
  const IN_ADDR_BYTES: bv8 := 4

  /** Where the Ethernet header ends. */
  function EthEnd(v: VlanTag): nat {
    if v.NoVlan? then 14 else 18
  }

  function ProtocolNumber(p: Protocol): Option<bv8> {
    match p
    case Tcp => Some(6)
    case Udp => Some(17)
    case Icmp => Some(1)
    case Igmp => Some(2)
    case _ => None
  }

  function HighNibble(b: bv8): bv8 { b >> 4 }

  function LowNibble(b: bv8): bv8 { b & 0xF }

  predicate MeansVlan(v: VlanTag, f: seq<bv8>)
    requires |f| >= FILTER_SIZE
  {
    match v
    case NoVlan => true
    case AnyTag => U16(f, 12) == ETH_P_8021Q
    case Tag(tci) => U16(f, 12) == ETH_P_8021Q && U16(f, 14) == tci
  }

  /** Ethernet type, IP version and header length (any length for IGMP), protocol number, and for ARP the
      hardware and protocol kinds. */
  predicate MeansProtocol(v: VlanTag, p: Protocol, f: seq<bv8>)
    requires |f| >= FILTER_SIZE
  {
    var e := EthEnd(v);
    match p
    case AnyProtocol => true
    case Arp =>
      && U16(f, e - 2) == ETH_P_ARP
      && U16(f, e) == ARPHRD_ETHER && U16(f, e + 2) == ETH_P_IP
      && f[e + 4] == ETH_ALEN && f[e + 5] == IN_ADDR_BYTES
    case _ =>
      && U16(f, e - 2) == ETH_P_IP
      && HighNibble(f[e]) == 4
      && (!p.Igmp? ==> LowNibble(f[e]) == 5)
      && (ProtocolNumber(p).Some? ==> f[e + 9] == ProtocolNumber(p).value)
  }

  /** Offsets of the fields a clause can be about. */
  function FieldAt(v: VlanTag, p: Protocol, field: Field): nat {
    var e := EthEnd(v);
    match field
    case PortField(d) => if d.Src? then e + 20 else e + 22
    case AddressField(d) => if p.Arp? then e + 14 else if d.Src? then e + 12 else e + 16
    case TypeField => e + 20
  }

  predicate MeansClause(v: VlanTag, p: Protocol, c: Clause, f: seq<bv8>)
    requires |f| >= FILTER_SIZE && Applicable(p, c)
  {
    var at := FieldAt(v, p, FieldOf(c));
    match c
    case PortIs(_, port) => U16(f, at) == port
    case AddressIn(_, address, bits) => SamePrefix(U32(f, at), address, bits)
    case TypeIs(code) => f[at] == code
  }

  /** The clause counts: it is not an ICMP type followed by another one. */
  predicate Counts(clauses: seq<Clause>, i: nat)
    requires i < |clauses|
  {
    clauses[i].TypeIs? ==> forall j :: i < j < |clauses| ==> !clauses[j].TypeIs?
  }

  /** The frame is one the rule is about. */
  ghost predicate Means(r: Rule, f: seq<bv8>)
    requires |f| >= FILTER_SIZE && Accepted(r)
  {
    && MeansVlan(r.vlan, f)
    && MeansProtocol(r.vlan, r.protocol, f)
    && forall i :: 0 <= i < |r.clauses| && Counts(r.clauses, i) ==>
         MeansClause(r.vlan, r.protocol, r.clauses[i], f)
  }

  // ---------------------------------------------------------------------------------------------
  // What a rule is compiled to
  // ---------------------------------------------------------------------------------------------

  /** A byte of the pattern and the corresponding byte of the mask. */
  datatype Cell = Cell(pattern: bv8, mask: bv8)

  const FREE := Cell(0, 0)

  function Exactly(b: bv8): Cell { Cell(b, 0xFF) }

  function Hi(w: bv16): bv8 { (w >> 8) as bv8 }

  function Lo(w: bv16): bv8 { (w & 0xFF) as bv8 }

  function Byte0(a: bv32): bv8 { (a >> 24) as bv8 }

  function Byte1(a: bv32): bv8 { ((a >> 16) & 0xFF) as bv8 }

  function Byte2(a: bv32): bv8 { ((a >> 8) & 0xFF) as bv8 }

  function Byte3(a: bv32): bv8 { (a & 0xFF) as bv8 }

  /** Byte `k` of an address or netmask in network order. */
  function AddressByte(a: bv32, k: nat): bv8
    requires k < 4
  {
    if k == 0 then Byte0(a) else if k == 1 then Byte1(a) else if k == 2 then Byte2(a) else Byte3(a)
  }

  function Masked32(x: bv32, m: bv32): bv32 { x & m }

  function Masked8(x: bv8, m: bv8): bv8 { x & m }

  function Netmask(bits: PrefixLength): bv32 {
    0xFFFF_FFFF << (32 - bits)
  }

  /** What a clause puts at offset `k` from the start of its field. */
  function ClauseCell(c: Clause, k: nat): Cell
    requires k < Width(c)
  {
    match c
    case PortIs(_, port) => Exactly(if k == 0 then Hi(port) else Lo(port))
    case AddressIn(_, address, bits) => Cell(AddressByte(address, k), AddressByte(Netmask(bits), k))
    case TypeIs(code) => Exactly(code)
  }

  function Width(c: Clause): nat {
    match c
    case PortIs(_, _) => 2
    case AddressIn(_, _, _) => 4
    case TypeIs(_) => 1
  }

  /** What the VLAN tag and the protocol put at offset `i` of the filter. */
  function HeaderCell(v: VlanTag, p: Protocol, i: nat): Cell {
    var e := EthEnd(v);
    if !v.NoVlan? && i == 12 then Exactly(Hi(ETH_P_8021Q))
    else if !v.NoVlan? && i == 13 then Exactly(Lo(ETH_P_8021Q))
    else if v.Tag? && i == 14 then Exactly(Hi(v.tci))
    else if v.Tag? && i == 15 then Exactly(Lo(v.tci))
    else if p.AnyProtocol? then FREE
    else if i == e - 2 then Exactly(Hi(if p.Arp? then ETH_P_ARP else ETH_P_IP))
    else if i == e - 1 then Exactly(Lo(if p.Arp? then ETH_P_ARP else ETH_P_IP))
    else if p.Arp? then
      if i == e then Exactly(Hi(ARPHRD_ETHER))
      else if i == e + 1 then Exactly(Lo(ARPHRD_ETHER))
      else if i == e + 2 then Exactly(Hi(ETH_P_IP))
      else if i == e + 3 then Exactly(Lo(ETH_P_IP))
      else if i == e + 4 then Exactly(ETH_ALEN)
      else if i == e + 5 then Exactly(IN_ADDR_BYTES)
      else FREE
    else if i == e then if p.Igmp? then Cell(0x40, 0xF0) else Exactly(0x45)
    else if i == e + 9 && ProtocolNumber(p).Some? then Exactly(ProtocolNumber(p).value)
    else FREE
  }

  /** Offset `i` lies in the field that the clause is about. */
  predicate Covers(v: VlanTag, p: Protocol, c: Clause, i: nat) {
    var at := FieldAt(v, p, FieldOf(c));
    at <= i < at + Width(c)
  }

  /** What the clauses put at offset `i`: the last one whose field lies there decides. */
  function ClausesCell(v: VlanTag, p: Protocol, clauses: seq<Clause>, i: nat): Option<Cell>
  {
    if clauses == [] then None
    else
      var c := clauses[|clauses| - 1];
      if Covers(v, p, c, i) then Some(ClauseCell(c, i - FieldAt(v, p, FieldOf(c))))
      else ClausesCell(v, p, clauses[..|clauses| - 1], i)
  }

  /** The compiled filter at offset `i`. */
  function Compiled(r: Rule, i: nat): Cell {
    ClausesCell(r.vlan, r.protocol, r.clauses, i).GetOr(HeaderCell(r.vlan, r.protocol, i))
  }

  /** The hardware's notion of a match, byte by byte. */
  predicate CellMatches(c: Cell, b: bv8) {
    Masked8(b, c.mask) == c.pattern
  }

  ghost predicate Matches(r: Rule, f: seq<bv8>)
    requires |f| >= FILTER_SIZE && Accepted(r)
  {
    forall i :: 0 <= i < FILTER_SIZE ==> CellMatches(Compiled(r, i), f[i])
  }

  // ---------------------------------------------------------------------------------------------
  // Compilation preserves meaning
  // ---------------------------------------------------------------------------------------------

  lemma SplitHi(b0: bv8, b1: bv8)
    ensures Hi(Join16(b0, b1)) == b0
  {
  }

  lemma SplitLo(b0: bv8, b1: bv8)
    ensures Lo(Join16(b0, b1)) == b1
  {
  }

  lemma Rejoin16(w: bv16)
    ensures Join16(Hi(w), Lo(w)) == w
  {
  }

  lemma AllOnes(x: bv8)
    ensures Masked8(x, 0xFF) == x && Masked8(x, 0) == 0
  {
  }

  lemma ExactMatch(b: bv8, x: bv8)
    ensures CellMatches(Exactly(b), x) <==> x == b
    ensures CellMatches(FREE, x)
  {
    hide Masked8;
    AllOnes(x);
  }

  lemma U16Bytes(f: seq<bv8>, at: nat, w: bv16)
    requires at + 2 <= |f|
    ensures U16(f, at) == w <==> CellMatches(Exactly(Hi(w)), f[at]) && CellMatches(Exactly(Lo(w)), f[at + 1])
  {
    hide Hi, Lo, Join16, CellMatches;
    ExactMatch(Hi(w), f[at]);
    ExactMatch(Lo(w), f[at + 1]);
    SplitHi(f[at], f[at + 1]);
    SplitLo(f[at], f[at + 1]);
    Rejoin16(w);
  }

  lemma IpByteMeans(x: bv8)
    requires Masked8(x, 0xF0) == 0x40
    ensures HighNibble(x) == 4
  {
  }

  lemma IpByteMatches(x: bv8)
    requires HighNibble(x) == 4
    ensures Masked8(x, 0xF0) == 0x40
  {
  }

  lemma FullIpByte(x: bv8)
    ensures x == 0x45 <==> HighNibble(x) == 4 && LowNibble(x) == 5
  {
  }

  lemma NibbleMatch(x: bv8)
    ensures CellMatches(Cell(0x40, 0xF0), x) <==> HighNibble(x) == 4
    ensures CellMatches(Exactly(0x45), x) <==> HighNibble(x) == 4 && LowNibble(x) == 5
  {
    hide HighNibble, LowNibble, Exactly, Masked8;
    ExactMatch(0x45, x);
    FullIpByte(x);
    if HighNibble(x) == 4 {
      IpByteMatches(x);
    } else if Masked8(x, 0xF0) == 0x40 {
      IpByteMeans(x);
    }
  }

  ghost predicate HeaderMatches(v: VlanTag, p: Protocol, f: seq<bv8>)
    requires |f| >= FILTER_SIZE
  {
    forall i :: 0 <= i < FILTER_SIZE ==> CellMatches(HeaderCell(v, p, i), f[i])
  }

  /** The bytes that the VLAN tag and the protocol put into the filter mean what they should. */
  lemma HeaderMeaning(v: VlanTag, p: Protocol, f: seq<bv8>)
    requires |f| >= FILTER_SIZE
    ensures HeaderMatches(v, p, f) <==> MeansVlan(v, f) && MeansProtocol(v, p, f)
  {
    if HeaderMatches(v, p, f) {
      HeaderToMeaning(v, p, f);
    }
    if MeansVlan(v, f) && MeansProtocol(v, p, f) {
      MeaningToHeader(v, p, f);
    }
  }

  lemma HeaderToMeaning(v: VlanTag, p: Protocol, f: seq<bv8>)
    requires |f| >= FILTER_SIZE && HeaderMatches(v, p, f)
    ensures MeansVlan(v, f) && MeansProtocol(v, p, f)
  {
    hide CellMatches, Exactly, U16, Hi, Lo, HighNibble, LowNibble;
    var e := EthEnd(v);
    assert CellMatches(HeaderCell(v, p, 12), f[12]) && CellMatches(HeaderCell(v, p, 13), f[13]);
    assert CellMatches(HeaderCell(v, p, 14), f[14]) && CellMatches(HeaderCell(v, p, 15), f[15]);
    U16Bytes(f, 12, ETH_P_8021Q);
    if v.Tag? {
      U16Bytes(f, 14, v.tci);
    }
    assert CellMatches(HeaderCell(v, p, e - 2), f[e - 2]) && CellMatches(HeaderCell(v, p, e - 1), f[e - 1]);
    assert CellMatches(HeaderCell(v, p, e), f[e]) && CellMatches(HeaderCell(v, p, e + 1), f[e + 1]);
    if p.Arp? {
      U16Bytes(f, e - 2, ETH_P_ARP);
      U16Bytes(f, e, ARPHRD_ETHER);
      U16Bytes(f, e + 2, ETH_P_IP);
      assert CellMatches(HeaderCell(v, p, e + 2), f[e + 2]) && CellMatches(HeaderCell(v, p, e + 3), f[e + 3]);
      assert CellMatches(HeaderCell(v, p, e + 4), f[e + 4]) && CellMatches(HeaderCell(v, p, e + 5), f[e + 5]);
      ExactMatch(ETH_ALEN, f[e + 4]);
      ExactMatch(IN_ADDR_BYTES, f[e + 5]);
    } else if !p.AnyProtocol? {
      U16Bytes(f, e - 2, ETH_P_IP);
      NibbleMatch(f[e]);
      assert CellMatches(HeaderCell(v, p, e + 9), f[e + 9]);
      if ProtocolNumber(p).Some? {
        ExactMatch(ProtocolNumber(p).value, f[e + 9]);
      }
    }
  }

  lemma MeaningToHeader(v: VlanTag, p: Protocol, f: seq<bv8>)
    requires |f| >= FILTER_SIZE && MeansVlan(v, f) && MeansProtocol(v, p, f)
    ensures HeaderMatches(v, p, f)
  {
    forall i | 0 <= i < FILTER_SIZE
      ensures CellMatches(HeaderCell(v, p, i), f[i])
    {
      MeaningToCell(v, p, f, i);
    }
  }

  lemma MeaningToCell(v: VlanTag, p: Protocol, f: seq<bv8>, i: nat)
    requires |f| >= FILTER_SIZE && MeansVlan(v, f) && MeansProtocol(v, p, f) && i < FILTER_SIZE
    ensures CellMatches(HeaderCell(v, p, i), f[i])
  {
    hide CellMatches, Exactly, U16, Hi, Lo, HighNibble, LowNibble;
    var e := EthEnd(v);
    ExactMatch(0, f[i]);
    U16Bytes(f, 12, ETH_P_8021Q);
    if v.Tag? {
      U16Bytes(f, 14, v.tci);
    }
    if p.Arp? {
      U16Bytes(f, e - 2, ETH_P_ARP);
      U16Bytes(f, e, ARPHRD_ETHER);
      U16Bytes(f, e + 2, ETH_P_IP);
      ExactMatch(ETH_ALEN, f[e + 4]);
      ExactMatch(IN_ADDR_BYTES, f[e + 5]);
    } else if !p.AnyProtocol? {
      U16Bytes(f, e - 2, ETH_P_IP);
      NibbleMatch(f[e]);
      if ProtocolNumber(p).Some? {
        ExactMatch(ProtocolNumber(p).value, f[e + 9]);
      }
    }
  }

  /** A clause with host bits beyond its prefix puts bits into the pattern that the mask cannot pass. */
  predicate CanonicalClause(c: Clause) {
    c.AddressIn? ==> Masked32(c.address, Netmask(c.bits)) == c.address
  }

  lemma MaskedJoin0(f0: bv8, f1: bv8, f2: bv8, f3: bv8, m: bv32)
    ensures Byte0(Masked32(Join32(f0, f1, f2, f3), m)) == Masked8(f0, Byte0(m))
  {
  }

  lemma MaskedJoin1(f0: bv8, f1: bv8, f2: bv8, f3: bv8, m: bv32)
    ensures Byte1(Masked32(Join32(f0, f1, f2, f3), m)) == Masked8(f1, Byte1(m))
  {
  }

  lemma MaskedJoin2(f0: bv8, f1: bv8, f2: bv8, f3: bv8, m: bv32)
    ensures Byte2(Masked32(Join32(f0, f1, f2, f3), m)) == Masked8(f2, Byte2(m))
  {
  }

  lemma MaskedJoin3(f0: bv8, f1: bv8, f2: bv8, f3: bv8, m: bv32)
    ensures Byte3(Masked32(Join32(f0, f1, f2, f3), m)) == Masked8(f3, Byte3(m))
  {
  }

  lemma Rejoin32(a: bv32)
    ensures Join32(Byte0(a), Byte1(a), Byte2(a), Byte3(a)) == a
  {
  }

  /** An address under a netmask, compared byte by byte. */
  lemma AddressBytes(f: seq<bv8>, at: nat, a: bv32, m: bv32)
    requires at + 4 <= |f|
    ensures Masked32(U32(f, at), m) == a
            <==> && Masked8(f[at], Byte0(m)) == Byte0(a) && Masked8(f[at + 1], Byte1(m)) == Byte1(a)
                 && Masked8(f[at + 2], Byte2(m)) == Byte2(a) && Masked8(f[at + 3], Byte3(m)) == Byte3(a)
  {
    hide Byte0, Byte1, Byte2, Byte3, Join32, Masked32, Masked8;
    MaskedJoin0(f[at], f[at + 1], f[at + 2], f[at + 3], m);
    MaskedJoin1(f[at], f[at + 1], f[at + 2], f[at + 3], m);
    MaskedJoin2(f[at], f[at + 1], f[at + 2], f[at + 3], m);
    MaskedJoin3(f[at], f[at + 1], f[at + 2], f[at + 3], m);
    Rejoin32(Masked32(U32(f, at), m));
    Rejoin32(a);
  }

  lemma DifferenceMasked(x: bv32, a: bv32, m: bv32)
    requires Masked32(x, m) == a
    ensures Masked32(Difference(x, a), m) == 0 && Masked32(a, m) == a
  {
  }

  lemma MaskedDifference(x: bv32, a: bv32, m: bv32)
    requires Masked32(Difference(x, a), m) == 0 && Masked32(a, m) == a
    ensures Masked32(x, m) == a
  {
  }

  lemma HighBitsClear(x: bv32, bits: PrefixLength)
    requires Masked32(x, Netmask(bits)) == 0
    ensures HighPart(x, bits) == 0
  {
  }

  lemma NothingAbove(x: bv32, bits: PrefixLength)
    requires HighPart(x, bits) == 0
    ensures Masked32(x, Netmask(bits)) == 0
  {
  }

  /** Comparing under the netmask is comparing prefixes, for an address without host bits. */
  lemma PrefixMeaning(x: bv32, a: bv32, bits: PrefixLength)
    ensures Masked32(x, Netmask(bits)) == a <==> SamePrefix(x, a, bits) && Masked32(a, Netmask(bits)) == a
  {
    hide Netmask, Masked32, HighPart, Difference;
    if Masked32(x, Netmask(bits)) == a {
      DifferenceMasked(x, a, Netmask(bits));
      HighBitsClear(Difference(x, a), bits);
    } else if SamePrefix(x, a, bits) && Masked32(a, Netmask(bits)) == a {
      NothingAbove(Difference(x, a), bits);
      MaskedDifference(x, a, Netmask(bits));
    }
  }

  ghost predicate ClauseMatches(v: VlanTag, p: Protocol, c: Clause, f: seq<bv8>)
    requires |f| >= FILTER_SIZE && Applicable(p, c)
  {
    forall k :: 0 <= k < Width(c) ==> CellMatches(ClauseCell(c, k), f[FieldAt(v, p, FieldOf(c)) + k])
  }

  /** The bytes that a clause puts into the filter mean what the clause says, unless they ask for host bits
      beyond the prefix. */
  lemma ClauseMeaning(v: VlanTag, p: Protocol, c: Clause, f: seq<bv8>)
    requires |f| >= FILTER_SIZE && Applicable(p, c)
    ensures ClauseMatches(v, p, c, f) <==> MeansClause(v, p, c, f) && CanonicalClause(c)
  {
    hide CellMatches, Exactly, U16, U32, Hi, Lo, AddressByte, Netmask, SamePrefix, Masked32;
    var at := FieldAt(v, p, FieldOf(c));
    match c
    case PortIs(_, port) =>
      U16Bytes(f, at, port);
      assert ClauseMatches(v, p, c, f) <==>
               CellMatches(ClauseCell(c, 0), f[at + 0]) && CellMatches(ClauseCell(c, 1), f[at + 1]);
    case TypeIs(code) =>
      ExactMatch(code, f[at]);
      assert ClauseMatches(v, p, c, f) <==> CellMatches(ClauseCell(c, 0), f[at + 0]);
    case AddressIn(_, address, bits) =>
      AddressMeaning(v, p, c, f);
  }

  lemma FieldInside(v: VlanTag, p: Protocol, c: Clause)
    requires Applicable(p, c)
    ensures FieldAt(v, p, FieldOf(c)) + Width(c) <= FILTER_SIZE
  {
  }

  lemma FourCells(v: VlanTag, p: Protocol, c: Clause, f: seq<bv8>)
    requires |f| >= FILTER_SIZE && Applicable(p, c) && c.AddressIn?
    ensures FieldAt(v, p, FieldOf(c)) + 4 <= FILTER_SIZE
    ensures var at := FieldAt(v, p, FieldOf(c));
            ClauseMatches(v, p, c, f) <==>
              && CellMatches(ClauseCell(c, 0), f[at]) && CellMatches(ClauseCell(c, 1), f[at + 1])
              && CellMatches(ClauseCell(c, 2), f[at + 2]) && CellMatches(ClauseCell(c, 3), f[at + 3])
  {
    FieldInside(v, p, c);
    hide FieldAt, ClauseCell, CellMatches;
    var at := FieldAt(v, p, FieldOf(c));
    if ClauseMatches(v, p, c, f) {
      assert CellMatches(ClauseCell(c, 0), f[at + 0]) && CellMatches(ClauseCell(c, 1), f[at + 1]);
      assert CellMatches(ClauseCell(c, 2), f[at + 2]) && CellMatches(ClauseCell(c, 3), f[at + 3]);
    } else {
      var k :| 0 <= k < 4 && !CellMatches(ClauseCell(c, k), f[at + k]);
      assert k == 0 || k == 1 || k == 2 || k == 3;
    }
  }

  lemma AddressMeaning(v: VlanTag, p: Protocol, c: Clause, f: seq<bv8>)
    requires |f| >= FILTER_SIZE && Applicable(p, c) && c.AddressIn?
    ensures ClauseMatches(v, p, c, f) <==> MeansClause(v, p, c, f) && CanonicalClause(c)
  {
    hide U32, Byte0, Byte1, Byte2, Byte3, Masked8, Masked32, Netmask, SamePrefix, FieldAt, ClauseMatches;
    var at := FieldAt(v, p, FieldOf(c));
    FieldInside(v, p, c);
    AddressBytes(f, at, c.address, Netmask(c.bits));
    PrefixMeaning(U32(f, at), c.address, c.bits);
    FourCells(v, p, c, f);
  }

  /** Clauses about different fields do not touch the same byte, none touches a byte that the VLAN tag or
      the protocol decides, and all stay inside the filter. */
  lemma FieldsAreSeparate(v: VlanTag, p: Protocol, c: Clause, d: Clause, i: nat)
    requires Applicable(p, c) && Applicable(p, d) && Covers(v, p, c, i)
    ensures i < FILTER_SIZE && HeaderCell(v, p, i) == FREE
    ensures Covers(v, p, d, i) <==> FieldOf(d) == FieldOf(c)
  {
  }

  lemma HeaderStaysInside(v: VlanTag, p: Protocol, i: nat)
    requires HeaderCell(v, p, i) != FREE
    ensures i < FILTER_SIZE
  {
  }

  lemma {:induction false} LastCover(v: VlanTag, p: Protocol, clauses: seq<Clause>, i: nat) returns (j: nat)
    requires AllApplicable(p, clauses)
    ensures ClausesCell(v, p, clauses, i).None? <==> forall k :: 0 <= k < |clauses| ==> !Covers(v, p, clauses[k], i)
    ensures ClausesCell(v, p, clauses, i).Some? ==>
              && j < |clauses| && Covers(v, p, clauses[j], i)
              && Applicable(p, clauses[j])
              && ClausesCell(v, p, clauses, i).value == ClauseCell(clauses[j], i - FieldAt(v, p, FieldOf(clauses[j])))
              && forall k :: j < k < |clauses| ==> !Covers(v, p, clauses[k], i)
    decreases |clauses|
  {
    hide ClauseCell, HeaderCell, Covers, Applicable;
    j := 0;
    if clauses != [] {
      var n := |clauses| - 1;
      assert Applicable(p, clauses[n]);
      if Covers(v, p, clauses[n], i) {
        j := n;
      } else {
        j := LastCover(v, p, clauses[..n], i);
        assert forall k :: 0 <= k < n ==> clauses[..n][k] == clauses[k];
      }
    }
  }

  /** Two counting clauses of an accepted rule that touch the same byte are the same clause. */
  lemma OneClausePerByte(r: Rule, i: nat, j: nat, k: nat)
    requires Accepted(r) && j < |r.clauses| && k < |r.clauses|
    requires Covers(r.vlan, r.protocol, r.clauses[j], i) && Covers(r.vlan, r.protocol, r.clauses[k], i)
    requires Counts(r.clauses, j) && Counts(r.clauses, k)
    ensures j == k
  {
    assert Applicable(r.protocol, r.clauses[j]) && Applicable(r.protocol, r.clauses[k]);
    FieldsAreSeparate(r.vlan, r.protocol, r.clauses[j], r.clauses[k], i);
  }

  ghost predicate Canonical(r: Rule)
    requires Accepted(r)
  {
    forall k :: 0 <= k < |r.clauses| ==> CanonicalClause(r.clauses[k])
  }

  lemma CellOfCounted(r: Rule, j: nat, i: nat)
    requires Accepted(r) && j < |r.clauses| && Counts(r.clauses, j) && Covers(r.vlan, r.protocol, r.clauses[j], i)
    ensures Applicable(r.protocol, r.clauses[j])
    ensures Compiled(r, i) == ClauseCell(r.clauses[j], i - FieldAt(r.vlan, r.protocol, FieldOf(r.clauses[j])))
  {
    hide ClauseCell, HeaderCell, Covers, Applicable;
    assert Applicable(r.protocol, r.clauses[j]);
    var k := LastCover(r.vlan, r.protocol, r.clauses, i);
    LastCoverCounts(r, k, i);
    OneClausePerByte(r, i, j, k);
  }

  lemma LastCoverCounts(r: Rule, j: nat, i: nat)
    requires Accepted(r) && j < |r.clauses| && Covers(r.vlan, r.protocol, r.clauses[j], i)
    requires forall k :: j < k < |r.clauses| ==> !Covers(r.vlan, r.protocol, r.clauses[k], i)
    ensures Counts(r.clauses, j)
  {
  }

  lemma CellOfHeader(r: Rule, i: nat)
    requires Accepted(r) && i < FILTER_SIZE
    ensures Compiled(r, i) == HeaderCell(r.vlan, r.protocol, i) || HeaderCell(r.vlan, r.protocol, i) == FREE
    ensures Compiled(r, i) == HeaderCell(r.vlan, r.protocol, i)
            || exists j :: 0 <= j < |r.clauses| && Counts(r.clauses, j) && Covers(r.vlan, r.protocol, r.clauses[j], i)
  {
    hide ClauseCell, HeaderCell, Covers, Applicable;
    var j := LastCover(r.vlan, r.protocol, r.clauses, i);
    if ClausesCell(r.vlan, r.protocol, r.clauses, i).Some? {
      FieldsAreSeparate(r.vlan, r.protocol, r.clauses[j], r.clauses[j], i);
      LastCoverCounts(r, j, i);
    }
  }

  /** The compiled filter matches byte by byte exactly when the header bytes and the bytes of every counting
      clause match. */
  lemma MatchesSplits(r: Rule, f: seq<bv8>)
    requires |f| >= FILTER_SIZE && Accepted(r)
    ensures Matches(r, f) <==>
              && HeaderMatches(r.vlan, r.protocol, f)
              && forall j :: 0 <= j < |r.clauses| && Counts(r.clauses, j) ==>
                   Applicable(r.protocol, r.clauses[j]) && ClauseMatches(r.vlan, r.protocol, r.clauses[j], f)
  {
    hide ClauseCell, HeaderCell, Applicable, Compiled, Counts, CellMatches;
    if Matches(r, f) {
      forall i | 0 <= i < FILTER_SIZE
        ensures CellMatches(HeaderCell(r.vlan, r.protocol, i), f[i])
      {
        CellOfHeader(r, i);
        ExactMatch(0, f[i]);
      }
      forall j | 0 <= j < |r.clauses| && Counts(r.clauses, j)
        ensures Applicable(r.protocol, r.clauses[j]) && ClauseMatches(r.vlan, r.protocol, r.clauses[j], f)
      {
        assert Applicable(r.protocol, r.clauses[j]);
        MatchesClause(r, f, j);
      }
    } else {
      var i :| 0 <= i < FILTER_SIZE && !CellMatches(Compiled(r, i), f[i]);
      CellOfHeader(r, i);
      if Compiled(r, i) != HeaderCell(r.vlan, r.protocol, i) {
        var j :| 0 <= j < |r.clauses| && Counts(r.clauses, j) && Covers(r.vlan, r.protocol, r.clauses[j], i);
        CellOfCounted(r, j, i);
        var at := FieldAt(r.vlan, r.protocol, FieldOf(r.clauses[j]));
        assert !CellMatches(ClauseCell(r.clauses[j], i - at), f[at + (i - at)]);
      }
    }
  }

  lemma MatchesClause(r: Rule, f: seq<bv8>, j: nat)
    requires |f| >= FILTER_SIZE && Accepted(r) && Matches(r, f) && j < |r.clauses| && Counts(r.clauses, j)
    ensures Applicable(r.protocol, r.clauses[j]) && ClauseMatches(r.vlan, r.protocol, r.clauses[j], f)
  {
    hide ClauseCell, HeaderCell, Applicable, Compiled, Counts, CellMatches;
    var c := r.clauses[j];
    assert Applicable(r.protocol, c);
    var at := FieldAt(r.vlan, r.protocol, FieldOf(c));
    forall k | 0 <= k < Width(c)
      ensures CellMatches(ClauseCell(c, k), f[at + k])
    {
      FieldsAreSeparate(r.vlan, r.protocol, c, c, at + k);
      CellOfCounted(r, j, at + k);
      assert CellMatches(Compiled(r, at + k), f[at + k]);
    }
  }

  /** Compilation preserves meaning: for every rule the parser accepts and every frame, the frame masked
      yields the pattern exactly when the frame is one the rule is about and no address in the rule has
      host bits beyond its prefix.  A rule with such an address matches nothing. */
  lemma CompilationPreservesMeaning(r: Rule, f: seq<bv8>)
    requires |f| >= FILTER_SIZE && Accepted(r)
    ensures Matches(r, f) <==> Means(r, f) && Canonical(r)
  {
    hide ClauseMatches, MeansClause, Applicable, Matches, MeansVlan, MeansProtocol, HeaderMatches, CanonicalClause, Netmask;
    MatchesSplits(r, f);
    HeaderMeaning(r.vlan, r.protocol, f);
    forall j | 0 <= j < |r.clauses|
      ensures Applicable(r.protocol, r.clauses[j])
      ensures ClauseMatches(r.vlan, r.protocol, r.clauses[j], f)
              <==> MeansClause(r.vlan, r.protocol, r.clauses[j], f) && CanonicalClause(r.clauses[j])
      ensures !Counts(r.clauses, j) ==> CanonicalClause(r.clauses[j])
    {
      assert Applicable(r.protocol, r.clauses[j]);
      ClauseMeaning(r.vlan, r.protocol, r.clauses[j], f);
      UncountedIsCanonical(r.clauses, j);
    }
  }

  lemma UncountedIsCanonical(clauses: seq<Clause>, j: nat)
    requires j < |clauses|
    ensures !Counts(clauses, j) ==> CanonicalClause(clauses[j])
  {
  }

  lemma MemberOf(a: seq<Clause>, b: seq<Clause>, j: nat) returns (k: nat)
    requires multiset(a) == multiset(b) && j < |a|
    ensures k < |b| && b[k] == a[j]
  {
    assert a[j] in multiset(b);
    k :| 0 <= k < |b| && b[k] == a[j];
  }

  /** The order of the clauses does not matter: two accepted rules with the same clauses in different orders,
      with at most one ICMP type, are compiled to the same filter. */
  lemma OrderDoesNotMatter(r1: Rule, r2: Rule, i: nat)
    requires Accepted(r1) && Accepted(r2)
    requires r1.vlan == r2.vlan && r1.protocol == r2.protocol && multiset(r1.clauses) == multiset(r2.clauses)
    requires forall j, k :: 0 <= j < k < |r1.clauses| ==> !(r1.clauses[j].TypeIs? && r1.clauses[k].TypeIs?)
    requires forall j, k :: 0 <= j < k < |r2.clauses| ==> !(r2.clauses[j].TypeIs? && r2.clauses[k].TypeIs?)
    ensures Compiled(r1, i) == Compiled(r2, i)
  {
    hide ClauseCell, HeaderCell, Covers, Applicable;
    var j1 := LastCover(r1.vlan, r1.protocol, r1.clauses, i);
    var j2 := LastCover(r2.vlan, r2.protocol, r2.clauses, i);
    if ClausesCell(r1.vlan, r1.protocol, r1.clauses, i).Some? {
      var k := MemberOf(r1.clauses, r2.clauses, j1);
      CellOfCounted(r2, k, i);
    } else if ClausesCell(r2.vlan, r2.protocol, r2.clauses, i).Some? {
      var _ := MemberOf(r2.clauses, r1.clauses, j2);
    }
  }
}
