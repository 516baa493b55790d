/** The parser as it runs: one pass over the tokens that writes pattern and mask bytes in place. */
module FilterCompiler {
  import opened Words
  import opened FilterRule
  import opened FilterParser

  /** The bytes hold the compiled form of a rule. */
  ghost predicate Holds(r: Rule, pattern: seq<bv8>, mask: seq<bv8>) {
    && |pattern| == |mask| == FILTER_SIZE
    && forall i :: 0 <= i < FILTER_SIZE ==> Cell(pattern[i], mask[i]) == Compiled(r, i)
  }

  lemma CompiledStep(r: Rule, c: Clause, i: nat)
    ensures Compiled(WithClause(r, c), i)
            == if Covers(r.vlan, r.protocol, c, i)
               then ClauseCell(c, i - FieldAt(r.vlan, r.protocol, FieldOf(c)))
               else Compiled(r, i)
  {
    assert (r.clauses + [c])[..|r.clauses|] == r.clauses;
  }

  lemma FirstMaskByte(bits: PrefixLength)
    ensures Byte0(Netmask(bits)) != 0
  {
  }

  /** The first mask byte of a clause is never zero, so a set field can be told from an unset one. */
  lemma FirstCellIsMasked(c: Clause)
    ensures ClauseCell(c, 0).mask != 0
  {
    if c.AddressIn? {
      FirstMaskByte(c.bits);
    }
  }

  /** The driver's conflict test: the mask of a field is all zeros exactly when no clause so far is about
      that field. */
  lemma UnsetFieldIsUnmasked(r: Rule, c: Clause)
    requires Accepted(r) && Applicable(r.protocol, c)
    ensures var at := FieldAt(r.vlan, r.protocol, FieldOf(c));
            && at + Width(c) <= FILTER_SIZE
            && (IsSet(r.clauses, FieldOf(c)) ==> Compiled(r, at).mask != 0)
            && (!IsSet(r.clauses, FieldOf(c)) ==> forall i :: at <= i < at + Width(c) ==> Compiled(r, i).mask == 0)
  {
    hide ClauseCell, HeaderCell, Applicable, Netmask, Byte0, FieldAt;
    var at := FieldAt(r.vlan, r.protocol, FieldOf(c));
    FieldInside(r.vlan, r.protocol, c);
    var j := LastCover(r.vlan, r.protocol, r.clauses, at);
    if IsSet(r.clauses, FieldOf(c)) {
      var i :| 0 <= i < |r.clauses| && FieldOf(r.clauses[i]) == FieldOf(c);
      assert Covers(r.vlan, r.protocol, r.clauses[i], at) by { SomeWidth(r.clauses[i]); }
      SomeWidth(c);
      FieldsAreSeparate(r.vlan, r.protocol, c, r.clauses[j], at);
      FirstCellIsMasked(r.clauses[j]);
    } else {
      forall i | at <= i < at + Width(c)
        ensures Compiled(r, i).mask == 0
      {
        UnsetByte(r, c, i);
      }
    }
  }

  lemma SomeWidth(c: Clause)
    ensures Width(c) > 0
  {
  }

  lemma UnsetByte(r: Rule, c: Clause, i: nat)
    requires Accepted(r) && Applicable(r.protocol, c) && Covers(r.vlan, r.protocol, c, i)
    requires !IsSet(r.clauses, FieldOf(c))
    ensures Compiled(r, i).mask == 0
  {
    hide ClauseCell, HeaderCell, Applicable, Covers;
    var j := LastCover(r.vlan, r.protocol, r.clauses, i);
    FieldsAreSeparate(r.vlan, r.protocol, c, c, i);
    if ClausesCell(r.vlan, r.protocol, r.clauses, i).Some? {
      FieldsAreSeparate(r.vlan, r.protocol, c, r.clauses[j], i);
    }
  }

  /** Writes one 16-bit field that must match exactly. */
  method Write16(pattern: array<bv8>, mask: array<bv8>, at: nat, w: bv16)
    requires pattern != mask && pattern.Length == mask.Length == FILTER_SIZE && at + 2 <= FILTER_SIZE
    modifies pattern, mask
    ensures forall i :: 0 <= i < FILTER_SIZE ==>
              Cell(pattern[i], mask[i])
              == if i == at then Exactly(Hi(w)) else if i == at + 1 then Exactly(Lo(w)) else old(Cell(pattern[i], mask[i]))
  {
    hide Hi, Lo;
    pattern[at], mask[at] := Hi(w), 0xFF;
    pattern[at + 1], mask[at + 1] := Lo(w), 0xFF;
  }

  method Write8(pattern: array<bv8>, mask: array<bv8>, at: nat, b: bv8, m: bv8)
    requires pattern != mask && pattern.Length == mask.Length == FILTER_SIZE && at < FILTER_SIZE
    modifies pattern, mask
    ensures forall i :: 0 <= i < FILTER_SIZE ==>
              Cell(pattern[i], mask[i]) == if i == at then Cell(b, m) else old(Cell(pattern[i], mask[i]))
  {
    pattern[at], mask[at] := b, m;
  }

  /** Writes the bytes that the VLAN tag and the protocol decide. */
  method WriteHeader(pattern: array<bv8>, mask: array<bv8>, drop: bool, v: VlanTag, p: Protocol)
    requires pattern != mask && pattern.Length == mask.Length == FILTER_SIZE
    requires forall i :: 0 <= i < FILTER_SIZE ==> Cell(pattern[i], mask[i]) == FREE
    modifies pattern, mask
    ensures Holds(Rule(drop, v, p, []), pattern[..], mask[..])
  {
    hide Hi, Lo;
    var e := EthEnd(v);
    if !v.NoVlan? {
      Write16(pattern, mask, 12, ETH_P_8021Q);
      if v.Tag? {
        Write16(pattern, mask, 14, v.tci);
      }
    }
    if p.Arp? {
      Write16(pattern, mask, e - 2, ETH_P_ARP);
      Write16(pattern, mask, e, ARPHRD_ETHER);
      Write16(pattern, mask, e + 2, ETH_P_IP);
      Write8(pattern, mask, e + 4, ETH_ALEN, 0xFF);
      Write8(pattern, mask, e + 5, IN_ADDR_BYTES, 0xFF);
    } else if !p.AnyProtocol? {
      Write16(pattern, mask, e - 2, ETH_P_IP);
      Write8(pattern, mask, e, 0x45, 0xFF);
      if ProtocolNumber(p).Some? {
        Write8(pattern, mask, e + 9, ProtocolNumber(p).value, 0xFF);
      }
      if p.Igmp? {
        Write8(pattern, mask, e, 0x40, 0xF0);
      }
    }
  }

  /** Writes the bytes of one clause. */
  method WriteClause(pattern: array<bv8>, mask: array<bv8>, ghost r: Rule, v: VlanTag, p: Protocol, c: Clause)
    requires pattern != mask && pattern.Length == mask.Length == FILTER_SIZE
    requires r.vlan == v && r.protocol == p && Applicable(p, c) && Holds(r, pattern[..], mask[..])
    modifies pattern, mask
    ensures Holds(WithClause(r, c), pattern[..], mask[..])
  {
    hide ClauseCell, HeaderCell, Applicable, FieldAt, Compiled;
    FieldInside(v, p, c);
    var at := FieldAt(v, p, FieldOf(c));
    ghost var cells := seq(FILTER_SIZE, i requires 0 <= i < FILTER_SIZE => Compiled(r, i));
    for k := 0 to Width(c)
      invariant forall i :: 0 <= i < FILTER_SIZE ==>
                  Cell(pattern[i], mask[i]) == if at <= i < at + k then ClauseCell(c, i - at) else Compiled(r, i)
    {
      var cell := ClauseCell(c, k);
      pattern[at + k], mask[at + k] := cell.pattern, cell.mask;
    }
    forall i | 0 <= i < FILTER_SIZE
      ensures Cell(pattern[i], mask[i]) == Compiled(WithClause(r, c), i)
    {
      CompiledStep(r, c, i);
    }
  }

  /** The conflict test: some byte of the field's mask is already set. */
  method Conflicts(mask: array<bv8>, ghost r: Rule, ghost pattern: seq<bv8>, v: VlanTag, p: Protocol, c: Clause)
    returns (conflict: bool)
    requires mask.Length == FILTER_SIZE && Holds(r, pattern, mask[..])
    requires Accepted(r) && r.vlan == v && r.protocol == p && Applicable(p, c)
    ensures conflict <==> IsSet(r.clauses, FieldOf(c))
  {
    hide ClauseCell, HeaderCell, Applicable, FieldAt, Compiled, Accepted, IsSet;
    FieldInside(v, p, c);
    UnsetFieldIsUnmasked(r, c);
    SomeWidth(c);
    var at := FieldAt(v, p, FieldOf(c));
    conflict := false;
    for k := 0 to Width(c)
      invariant conflict <==> exists i :: at <= i < at + k && mask[i] != 0
    {
      if mask[at + k] != 0 {
        conflict := true;
      }
    }
    if IsSet(r.clauses, FieldOf(c)) {
      assert Cell(pattern[at], mask[..][at]).mask != 0;
    } else {
      forall i | at <= i < at + Width(c)
        ensures mask[i] == 0
      {
        assert Compiled(r, i).mask == 0;
        assert Cell(pattern[i], mask[..][i]).mask == mask[i];
      }
    }
  }

  datatype Status = Ok | Error | ShiftBy32

  /** What a call of the parser has to deliver for a given reading of its tokens. */
  ghost predicate Delivers(parsed: Parsed, status: Status, drop: bool, pattern: seq<bv8>, mask: seq<bv8>) {
    match parsed
    case Accept(r) => status == Ok && drop == r.drop && Holds(r, pattern, mask)
    case Reject => status == Error
    case Undefined => status == ShiftBy32
  }

  /** The first tokens: action, VLAN tag and protocol. */
  method ReadPrefix(toks: seq<Token>) returns (ok: bool, drop: bool, v: VlanTag, p: Protocol, n: nat)
    ensures n <= |toks|
    ensures !ok ==> Parse(toks) == Reject
    ensures ok ==> Parse(toks) == ParseClauses(Rule(drop, v, p, []), toks[n..])
    ensures ok && p.AnyProtocol? ==> n == |toks|
  {
    hide ParseClauses, Truncate16;
    ok, drop, v, p, n := false, false, NoVlan, AnyProtocol, 0;
    if |toks| == 0 {
      return;
    }
    if toks[0].word == WAllow {
      drop := false;
    } else if toks[0].word == WDrop {
      drop := true;
    } else {
      return;
    }
    n := 1;
    if n < |toks| && toks[n].word == WVlan {
      v := AnyTag;
      n := 2;
      if n < |toks| && toks[n].startsWithDigit {
        if toks[n].number.None? {
          return;
        }
        v := Tag(Truncate16(toks[n].number.value));
        n := 3;
      }
    }
    assert Parse(toks) == ParseProtocol(drop, v, toks[n..]);
    ok := true;
    if n == |toks| {
      NoClauses(Rule(drop, v, p, []));
      assert toks[n..] == [];
    } else if ProtocolOf(toks[n].word).Some? {
      p := ProtocolOf(toks[n].word).value;
      assert toks[n..][1..] == toks[n + 1..];
      n := n + 1;
    } else {
      p := Ip;
    }
  }

  lemma NoClauses(r: Rule)
    ensures ParseClauses(r, []) == Accept(r)
  {
  }

  /** One clause about a source or destination. */
  method AddressOrPort(toks: seq<Token>, n: nat, pattern: array<bv8>, mask: array<bv8>,
                       ghost r: Rule, v: VlanTag, p: Protocol)
    returns (status: Status, ghost r': Rule)
    requires pattern != mask && n < |toks| && (toks[n].word == WDst || toks[n].word == WSrc)
    requires Accepted(r) && r.vlan == v && r.protocol == p && !p.AnyProtocol? && pattern.Length == FILTER_SIZE
    requires Holds(r, pattern[..], mask[..])
    modifies pattern, mask
    ensures status.Error? ==> ParseClauses(r, toks[n..]) == Reject
    ensures status.ShiftBy32? ==> ParseClauses(r, toks[n..]) == Undefined
    ensures status.Ok? ==>
              && n + 3 <= |toks| && Accepted(r') && Holds(r', pattern[..], mask[..])
              && r'.vlan == v && r'.protocol == p && r'.drop == r.drop
              && ParseClauses(r, toks[n..]) == ParseClauses(r', toks[n + 3..])
  {
    hide Applicable, Compiled, Truncate16, Holds;
    r' := r;
    assert mask.Length == FILTER_SIZE by { HoldsLength(r, pattern[..], mask[..]); }
    if n + 3 > |toks| {
      return Error, r';
    }
    var dir := if toks[n].word == WDst then Dst else Src;
    var res := ClauseOf(p, dir, toks[n + 1].word, toks[n + 2]);
    match res {
      case Bad => return Error, r';
      case BadShift => return ShiftBy32, r';
      case Good(c) =>
        GoodClause(p, dir, toks[n + 1].word, toks[n + 2]);
        var conflict := Conflicts(mask, r, pattern[..], v, p, c);
        if conflict {
          return Error, r';
        }
        WriteClause(pattern, mask, r, v, p, c);
        WithClauseAccepted(r, c);
        assert toks[n..][3..] == toks[n + 3..];
        r' := WithClause(r, c);
        return Ok, r';
    }
  }

  lemma HoldsLength(r: Rule, pattern: seq<bv8>, mask: seq<bv8>)
    requires Holds(r, pattern, mask)
    ensures |pattern| == |mask| == FILTER_SIZE
  {
  }

  lemma GoodClause(p: Protocol, dir: Direction, kind: Word, value: Token)
    requires !p.AnyProtocol? && ClauseOf(p, dir, kind, value).Good?
    ensures Applicable(p, ClauseOf(p, dir, kind, value).clause) && !ClauseOf(p, dir, kind, value).clause.TypeIs?
  {
  }

  lemma NoClausesAccepted(r: Rule)
    requires r.clauses == []
    ensures Accepted(r)
  {
  }

  lemma TypeApplies(p: Protocol, c: Clause)
    requires p.Icmp? && c.TypeIs?
    ensures Applicable(p, c)
  {
  }

  /** How the clause at the head of the tokens is read if it is not about a source or destination. */
  lemma ClauseKinds(r: Rule, toks: seq<Token>)
    requires toks != [] && toks[0].word != WDst && toks[0].word != WSrc
    ensures toks[0].word == WType && r.protocol.Icmp? && |toks| >= 2 && toks[1].number.Some? ==>
              ParseClauses(r, toks) == ParseClauses(WithClause(r, TypeIs(Truncate8(toks[1].number.value))), toks[2..])
    ensures toks[0].word != WType || !r.protocol.Icmp? || |toks| < 2 || toks[1].number.None? ==>
              ParseClauses(r, toks) == Reject
  {
  }

  /** `exanic_parse_filter_string`, from tokens on: it accepts exactly the token sequences that read as a
      rule, and then leaves the compiled rule in the two arrays. */
  method ParseFilter(toks: seq<Token>, pattern: array<bv8>, mask: array<bv8>) returns (status: Status, drop: bool)
    requires pattern != mask && pattern.Length == mask.Length == FILTER_SIZE
    modifies pattern, mask
    ensures Delivers(Parse(toks), status, drop, pattern[..], mask[..])
  {
    hide Parse, ParseClauses, Compiled, Applicable, Truncate8, Holds, Accepted;
    forall i | 0 <= i < FILTER_SIZE {
      pattern[i] := 0;
    }
    forall i | 0 <= i < FILTER_SIZE {
      mask[i] := 0;
    }
    status := Error;
    var ok, d, v, p, n := ReadPrefix(toks);
    drop := d;
    if !ok {
      return;
    }
    WriteHeader(pattern, mask, drop, v, p);
    ghost var r := Rule(drop, v, p, []);
    NoClausesAccepted(r);
    while n < |toks|
      invariant n <= |toks| && (p.AnyProtocol? ==> n == |toks|)
      invariant Accepted(r) && r.drop == drop && r.vlan == v && r.protocol == p
      invariant Holds(r, pattern[..], mask[..])
      invariant Parse(toks) == ParseClauses(r, toks[n..])
    {
      if toks[n].word == WDst || toks[n].word == WSrc {
        status, r := AddressOrPort(toks, n, pattern, mask, r, v, p);
        if !status.Ok? {
          return;
        }
        n := n + 3;
      } else if toks[n].word == WType {
        ClauseKinds(r, toks[n..]);
        if !p.Icmp? || n + 1 >= |toks| || toks[n + 1].number.None? {
          status := Error;
          return;
        }
        var c := TypeIs(Truncate8(toks[n + 1].number.value));
        TypeApplies(p, c);
        WriteClause(pattern, mask, r, v, p, c);
        WithClauseAccepted(r, c);
        assert toks[n..][2..] == toks[n + 2..];
        r := WithClause(r, c);
        n := n + 2;
      } else {
        ClauseKinds(r, toks[n..]);
        status := Error;
        return;
      }
    }
    assert toks[n..] == [];
    NoClauses(r);
    status := Ok;
  }

  /** The test that the hardware applies to a pattern and a mask. */
  ghost predicate MaskedMatch(pattern: seq<bv8>, mask: seq<bv8>, f: seq<bv8>)
    requires |pattern| == |mask| == FILTER_SIZE <= |f|
  {
    forall i :: 0 <= i < FILTER_SIZE ==> Masked8(f[i], mask[i]) == pattern[i]
  }

  /** From tokens to frames: the bytes that the parser leaves match exactly the frames its rule means, as
      long as no address has host bits. */
  lemma ParsedFilterMeaning(toks: seq<Token>, pattern: seq<bv8>, mask: seq<bv8>, f: seq<bv8>)
    requires Parse(toks).Accept? && Holds(Parse(toks).rule, pattern, mask) && |f| >= FILTER_SIZE
    ensures Accepted(Parse(toks).rule)
    ensures MaskedMatch(pattern, mask, f) <==> Means(Parse(toks).rule, f) && Canonical(Parse(toks).rule)
  {
    hide Parse, Accepted, Means, Canonical, Compiled, Masked8;
    var r := Parse(toks).rule;
    ParsedIsAccepted(toks);
    CompilationPreservesMeaning(r, f);
    assert forall i :: 0 <= i < FILTER_SIZE ==>
             CellMatches(Compiled(r, i), f[i]) == CellMatches(Cell(pattern[i], mask[i]), f[i]);
  }
}
