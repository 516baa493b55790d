/** Where a rule does not do what its words suggest: networks with host bits, VLAN tags with a priority, and
    several ICMP types. */
module FilterLimits {
  import opened Words
  import opened FilterRule

  // ---------------------------------------------------------------------------------------------
  // Host bits
  // ---------------------------------------------------------------------------------------------

  /** The pattern itself satisfies its mask. */
  predicate Clean(c: Cell) {
    CellMatches(c, c.pattern)
  }

  lemma ExactIsClean(b: bv8)
    ensures Clean(Exactly(b)) && Clean(FREE)
  {
    ExactMatch(b, b);
    ExactMatch(0, 0);
  }

  lemma NibbleIsClean()
    ensures Clean(Cell(0x40, 0xF0))
  {
  }

  lemma HeaderIsClean(v: VlanTag, p: Protocol, i: nat)
    ensures Clean(HeaderCell(v, p, i))
  {
    hide Clean, Hi, Lo;
    ExactIsClean(HeaderCell(v, p, i).pattern);
    NibbleIsClean();
  }

  lemma AddressIsClean(a: bv32, m: bv32, k: nat)
    requires Masked32(a, m) == a && k < 4
    ensures Clean(Cell(AddressByte(a, k), AddressByte(m, k)))
  {
    hide Byte0, Byte1, Byte2, Byte3, Join32, Masked32, Masked8;
    Rejoin32(a);
    MaskedJoin0(Byte0(a), Byte1(a), Byte2(a), Byte3(a), m);
    MaskedJoin1(Byte0(a), Byte1(a), Byte2(a), Byte3(a), m);
    MaskedJoin2(Byte0(a), Byte1(a), Byte2(a), Byte3(a), m);
    MaskedJoin3(Byte0(a), Byte1(a), Byte2(a), Byte3(a), m);
  }

  lemma ClauseIsClean(c: Clause, k: nat)
    requires CanonicalClause(c) && k < Width(c)
    ensures Clean(ClauseCell(c, k))
  {
    hide Clean, Hi, Lo, AddressByte, Masked32, Netmask;
    if c.AddressIn? {
      AddressIsClean(c.address, Netmask(c.bits), k);
    } else {
      ExactIsClean(ClauseCell(c, k).pattern);
    }
  }

  lemma CompiledIsClean(r: Rule, i: nat)
    requires Accepted(r) && Canonical(r) && i < FILTER_SIZE
    ensures Clean(Compiled(r, i))
  {
    hide Clean, HeaderCell, ClauseCell, CanonicalClause;
    HeaderIsClean(r.vlan, r.protocol, i);
    CellOfHeader(r, i);
    if Compiled(r, i) != HeaderCell(r.vlan, r.protocol, i) {
      var j :| 0 <= j < |r.clauses| && Counts(r.clauses, j) && Covers(r.vlan, r.protocol, r.clauses[j], i);
      CellOfCounted(r, j, i);
      ClauseIsClean(r.clauses[j], i - FieldAt(r.vlan, r.protocol, FieldOf(r.clauses[j])));
    }
  }

  /** The pattern of a rule, taken as a frame. */
  ghost function PatternFrame(r: Rule): seq<bv8> {
    seq(FILTER_SIZE, i requires 0 <= i < FILTER_SIZE => Compiled(r, i).pattern)
  }

  lemma PatternMatches(r: Rule)
    requires Accepted(r) && Canonical(r)
    ensures Matches(r, PatternFrame(r))
  {
    hide Compiled, CellMatches;
    forall i | 0 <= i < FILTER_SIZE
      ensures CellMatches(Compiled(r, i), PatternFrame(r)[i])
    {
      CompiledIsClean(r, i);
    }
  }

  /** An accepted rule can be of use if and only if none of its networks has host bits: otherwise it matches
      no frame at all. */
  lemma MatchesSomeFrameIff(r: Rule)
    requires Accepted(r)
    ensures (exists f: seq<bv8> :: |f| >= FILTER_SIZE && Matches(r, f)) <==> Canonical(r)
  {
    hide Matches, Means, Canonical;
    if Canonical(r) {
      PatternMatches(r);
    }
    forall f: seq<bv8> | |f| >= FILTER_SIZE && Matches(r, f)
      ensures Canonical(r)
    {
      CompilationPreservesMeaning(r, f);
    }
  }

  // ---------------------------------------------------------------------------------------------
  // VLAN tags
  // ---------------------------------------------------------------------------------------------

  /** The VLAN identifier of a tag, and the priority and drop bits above it. */
  function VlanId(tag: bv16): bv16 { tag & 0xFFF }

  function AboveId(tag: bv16): bv16 { tag >> 12 }

  /** The frame belongs to the VLAN, whatever its priority. */
  predicate InVlan(id: bv16, f: seq<bv8>)
    requires |f| >= FILTER_SIZE
  {
    U16(f, 12) == ETH_P_8021Q && VlanId(U16(f, 14)) == id
  }

  predicate IsId(tag: bv16) { tag < 4096 }

  lemma IdHasNothingAbove(tag: bv16)
    requires IsId(tag)
    ensures AboveId(tag) == 0
  {
  }

  lemma NothingAboveIsId(tag: bv16)
    requires AboveId(tag) == 0
    ensures VlanId(tag) == tag
  {
  }

  lemma IdIsSmall(tag: bv16)
    ensures IsId(VlanId(tag))
  {
  }

  /** For an identifier `n`, `vlan n` treats a frame as a test of its VLAN identifier would if and only if the
      frame has no tag, its tag carries nothing above the identifier, or it is of another VLAN. */
  lemma VlanAgreesIff(n: bv16, f: seq<bv8>)
    requires |f| >= FILTER_SIZE && IsId(n)
    ensures (MeansVlan(Tag(n), f) <==> InVlan(n, f))
            <==> U16(f, 12) != ETH_P_8021Q || AboveId(U16(f, 14)) == 0 || VlanId(U16(f, 14)) != n
  {
    hide VlanId, AboveId, IsId, U16;
    var tag := U16(f, 14);
    IdHasNothingAbove(n);
    NothingAboveIsId(n);
    if AboveId(tag) == 0 {
      NothingAboveIsId(tag);
    }
  }

  /** A number that is no identifier is accepted all the same, and selects no frame by its VLAN. */
  lemma NoSuchVlan(drop: bool, n: bv16, f: seq<bv8>)
    requires |f| >= FILTER_SIZE && !IsId(n)
    ensures Accepted(Rule(drop, Tag(n), AnyProtocol, []))
    ensures !InVlan(n, f)
  {
    hide VlanId, IsId, U16;
    IdIsSmall(U16(f, 14));
  }

  function WithPriority(id: bv16): bv16 { id | 0x1000 }

  lemma PriorityKeepsId(id: bv16)
    requires IsId(id)
    ensures VlanId(WithPriority(id)) == id
  {
  }

  lemma PriorityShows(id: bv16)
    ensures AboveId(WithPriority(id)) != 0
  {
  }

  function TaggedFrame(tag: bv16): seq<bv8> {
    seq(12, _ => 0) + [0x81, 0x00, Hi(tag), Lo(tag)] + seq(FILTER_SIZE - 16, _ => 0)
  }

  lemma TaggedFrameFields(tag: bv16)
    ensures |TaggedFrame(tag)| == FILTER_SIZE
    ensures U16(TaggedFrame(tag), 12) == ETH_P_8021Q && U16(TaggedFrame(tag), 14) == tag
  {
    hide Hi, Lo, Join16;
    Rejoin16(tag);
    TagBytes();
  }

  lemma TagBytes()
    ensures Join16(0x81, 0x00) == ETH_P_8021Q
  {
  }

  /** For every VLAN there is a frame in it that `vlan n` does not match. */
  lemma VlanMissesPriority(drop: bool, n: bv16) returns (f: seq<bv8>)
    requires IsId(n)
    ensures |f| == FILTER_SIZE && InVlan(n, f)
    ensures Accepted(Rule(drop, Tag(n), AnyProtocol, [])) && !Matches(Rule(drop, Tag(n), AnyProtocol, []), f)
  {
    hide VlanId, AboveId, IsId, WithPriority, U16, TaggedFrame, Matches;
    f := TaggedFrame(WithPriority(n));
    TaggedFrameFields(WithPriority(n));
    PriorityKeepsId(n);
    PriorityShows(n);
    VlanAgreesIff(n, f);
    CompilationPreservesMeaning(Rule(drop, Tag(n), AnyProtocol, []), f);
  }

  // ---------------------------------------------------------------------------------------------
  // Several ICMP types
  // ---------------------------------------------------------------------------------------------

  /** The frame satisfies every clause, not only those that count. */
  ghost predicate AllMean(r: Rule, f: seq<bv8>)
    requires |f| >= FILTER_SIZE && Accepted(r)
  {
    && MeansVlan(r.vlan, f) && MeansProtocol(r.vlan, r.protocol, f)
    && forall i :: 0 <= i < |r.clauses| ==> MeansClause(r.vlan, r.protocol, r.clauses[i], f)
  }

  predicate OneType(clauses: seq<Clause>) {
    forall i, j :: 0 <= i < |clauses| && 0 <= j < |clauses| && clauses[i].TypeIs? && clauses[j].TypeIs? ==>
      clauses[i].code == clauses[j].code
  }

  /** The last of the types counts. */
  lemma {:induction false} LastType(clauses: seq<Clause>, i: nat) returns (j: nat)
    requires i < |clauses| && clauses[i].TypeIs?
    ensures i <= j < |clauses| && clauses[j].TypeIs? && Counts(clauses, j)
    decreases |clauses| - i
  {
    if k: nat :| i < k < |clauses| && clauses[k].TypeIs? {
      j := LastType(clauses, k);
    } else {
      j := i;
    }
  }

  lemma CountedMeansAll(r: Rule, f: seq<bv8>)
    requires |f| >= FILTER_SIZE && Accepted(r) && OneType(r.clauses) && Means(r, f)
    ensures AllMean(r, f)
  {
    hide MeansVlan, MeansProtocol, FieldAt, U16, U32;
    forall i | 0 <= i < |r.clauses|
      ensures MeansClause(r.vlan, r.protocol, r.clauses[i], f)
    {
      if !Counts(r.clauses, i) {
        var j := LastType(r.clauses, i);
        assert MeansClause(r.vlan, r.protocol, r.clauses[j], f);
      }
    }
  }

  /** For a rule without host bits: the compiled filter asks for all of its clauses if and only if its ICMP
      types are all the same.  Otherwise there is a frame that it matches and one of its types rejects. */
  lemma AsksForAllIff(r: Rule)
    requires Accepted(r) && Canonical(r)
    ensures (forall f: seq<bv8> :: |f| >= FILTER_SIZE ==> (Matches(r, f) <==> AllMean(r, f))) <==> OneType(r.clauses)
  {
    hide Matches, Canonical, MeansVlan, MeansProtocol;
    forall f: seq<bv8> | |f| >= FILTER_SIZE
      ensures AllMean(r, f) ==> Matches(r, f)
      ensures OneType(r.clauses) && Matches(r, f) ==> AllMean(r, f)
    {
      CompilationPreservesMeaning(r, f);
      if OneType(r.clauses) && Means(r, f) {
        CountedMeansAll(r, f);
      }
    }
    if !OneType(r.clauses) {
      PatternMatches(r);
      var f := PatternFrame(r);
      var i, j :| 0 <= i < |r.clauses| && 0 <= j < |r.clauses| && r.clauses[i].TypeIs? && r.clauses[j].TypeIs?
                  && r.clauses[i].code != r.clauses[j].code;
      assert !AllMean(r, f);
    }
  }
}
