/** The filter parser: from tokens to a rule, and from tokens straight to pattern and mask bytes. */
module FilterParser {
  import opened Words
  import opened FilterRule

  // ---------------------------------------------------------------------------------------------
  // Tokens
  // ---------------------------------------------------------------------------------------------

  datatype Word =
    | WAllow | WDrop | WVlan
    | WTcp | WUdp | WIcmp | WIgmp | WArp | WIp
    | WDst | WSrc | WType
    | WPort | WHost | WNet
    | OtherWord

  /** The two halves of a token that contains a slash. */
  datatype Network = Network(address: Option<bv32>, bits: Option<int>)

  /** What the C library makes of a token: the keyword it spells, whether it starts with a digit, the number
      that `strtol` reads if that uses up the whole token, the address that `inet_aton` reads, and the
      network notation. */
  datatype Token = Token(word: Word, startsWithDigit: bool, number: Option<bv64>, address: Option<bv32>,
                         network: Option<Network>)

  // ---------------------------------------------------------------------------------------------
  // From tokens to rules
  // ---------------------------------------------------------------------------------------------

  /** `Undefined` stands for a prefix length of 0, for which the netmask is computed by shifting a 32-bit
      number by 32. */
  datatype Parsed = Accept(rule: Rule) | Reject | Undefined

  function Truncate16(n: bv64): bv16 { (n & 0xFFFF) as bv16 }

  function Truncate8(n: bv64): bv8 { (n & 0xFF) as bv8 }

  function Parse(toks: seq<Token>): Parsed {
    if toks == [] then Reject
    else if toks[0].word == WAllow then ParseVlan(false, toks[1..])
    else if toks[0].word == WDrop then ParseVlan(true, toks[1..])
    else Reject
  }

  function ParseVlan(drop: bool, toks: seq<Token>): Parsed {
    if toks == [] || toks[0].word != WVlan then ParseProtocol(drop, NoVlan, toks)
    else if |toks| == 1 || !toks[1].startsWithDigit then ParseProtocol(drop, AnyTag, toks[1..])
    else if toks[1].number.None? then Reject
    else ParseProtocol(drop, Tag(Truncate16(toks[1].number.value)), toks[2..])
  }

  /** The protocol that a keyword names. */
  function ProtocolOf(w: Word): Option<Protocol> {
    match w
    case WTcp => Some(Tcp)
    case WUdp => Some(Udp)
    case WIcmp => Some(Icmp)
    case WIgmp => Some(Igmp)
    case WArp => Some(Arp)
    case WIp => Some(Ip)
    case _ => None
  }

  function ParseProtocol(drop: bool, v: VlanTag, toks: seq<Token>): Parsed {
    if toks == [] then Accept(Rule(drop, v, AnyProtocol, []))
    else
      match ProtocolOf(toks[0].word)
      case Some(p) => ParseClauses(Rule(drop, v, p, []), toks[1..])
      case None => ParseClauses(Rule(drop, v, Ip, []), toks)
  }

  datatype ClauseResult = Good(clause: Clause) | Bad | BadShift

  /** The clause that three tokens make. */
  function ClauseOf(p: Protocol, dir: Direction, kind: Word, value: Token): ClauseResult {
    if kind == WPort then
      if !(p.Tcp? || p.Udp?) || (dir.Dst? && p.Arp?) || value.number.None? then Bad
      else Good(PortIs(dir, Truncate16(value.number.value)))
    else if dir.Dst? && p.Arp? then Bad
    else if kind == WHost then
      if value.address.None? then Bad else Good(AddressIn(dir, value.address.value, 32))
    else if kind == WNet then
      if value.network.None? || value.network.value.address.None? || value.network.value.bits.None? then Bad
      else
        var bits := value.network.value.bits.value;
        if bits < 0 || bits > 32 then Bad
        else if bits == 0 then BadShift
        else Good(AddressIn(dir, value.network.value.address.value, bits))
    else Bad
  }

  predicate IsSet(clauses: seq<Clause>, field: Field) {
    exists i :: 0 <= i < |clauses| && FieldOf(clauses[i]) == field
  }

  function WithClause(r: Rule, c: Clause): Rule {
    r.(clauses := r.clauses + [c])
  }

  function ParseClauses(r: Rule, toks: seq<Token>): Parsed
    decreases |toks|
  {
    if toks == [] then Accept(r)
    else if toks[0].word == WDst || toks[0].word == WSrc then
      if |toks| < 3 then Reject
      else
        match ClauseOf(r.protocol, if toks[0].word == WDst then Dst else Src, toks[1].word, toks[2])
        case Bad => Reject
        case BadShift => Undefined
        case Good(c) =>
          if IsSet(r.clauses, FieldOf(c)) then Reject else ParseClauses(WithClause(r, c), toks[3..])
    else if toks[0].word == WType then
      if !r.protocol.Icmp? || |toks| < 2 || toks[1].number.None? then Reject
      else ParseClauses(WithClause(r, TypeIs(Truncate8(toks[1].number.value))), toks[2..])
    else Reject
  }

  // ---------------------------------------------------------------------------------------------
  // The rules that come out
  // ---------------------------------------------------------------------------------------------

  lemma WithClauseAccepted(r: Rule, c: Clause)
    requires Accepted(r) && Applicable(r.protocol, c)
    requires !c.TypeIs? ==> !IsSet(r.clauses, FieldOf(c))
    ensures Accepted(WithClause(r, c))
  {
    var r' := WithClause(r, c);
    forall i | 0 <= i < |r'.clauses| && !r'.clauses[i].TypeIs?
      ensures Unset(r'.clauses, i, FieldOf(r'.clauses[i]))
    {
      if i < |r.clauses| {
        assert Unset(r.clauses, i, FieldOf(r.clauses[i]));
      }
    }
  }

  lemma {:induction false} ClausesAccepted(r: Rule, toks: seq<Token>)
    requires Accepted(r) && !r.protocol.AnyProtocol?
    ensures ParseClauses(r, toks).Accept? ==> Accepted(ParseClauses(r, toks).rule)
    decreases |toks|
  {
    if toks == [] {
    } else if toks[0].word == WDst || toks[0].word == WSrc {
      if |toks| >= 3 {
        var res := ClauseOf(r.protocol, if toks[0].word == WDst then Dst else Src, toks[1].word, toks[2]);
        if res.Good? && !IsSet(r.clauses, FieldOf(res.clause)) {
          WithClauseAccepted(r, res.clause);
          ClausesAccepted(WithClause(r, res.clause), toks[3..]);
        }
      }
    } else if toks[0].word == WType && r.protocol.Icmp? && |toks| >= 2 && toks[1].number.Some? {
      var c := TypeIs(Truncate8(toks[1].number.value));
      WithClauseAccepted(r, c);
      ClausesAccepted(WithClause(r, c), toks[2..]);
    }
  }

  /** Every rule that the parser lets through is one for which compilation preserves meaning. */
  lemma ParsedIsAccepted(toks: seq<Token>)
    ensures Parse(toks).Accept? ==> Accepted(Parse(toks).rule)
  {
    if toks != [] {
      var rest := toks[1..];
      VlanAccepted(toks[0].word == WDrop, rest);
    }
  }

  lemma VlanAccepted(drop: bool, toks: seq<Token>)
    ensures ParseVlan(drop, toks).Accept? ==> Accepted(ParseVlan(drop, toks).rule)
  {
    ProtocolAccepted(drop, NoVlan, toks);
    if |toks| > 0 {
      ProtocolAccepted(drop, AnyTag, toks[1..]);
    }
    if |toks| > 1 && toks[1].number.Some? {
      ProtocolAccepted(drop, Tag(Truncate16(toks[1].number.value)), toks[2..]);
    }
  }

  lemma ProtocolAccepted(drop: bool, v: VlanTag, toks: seq<Token>)
    ensures ParseProtocol(drop, v, toks).Accept? ==> Accepted(ParseProtocol(drop, v, toks).rule)
  {
    if toks != [] {
      match ProtocolOf(toks[0].word)
      case Some(p) => ClausesAccepted(Rule(drop, v, p, []), toks[1..]);
      case None => ClausesAccepted(Rule(drop, v, Ip, []), toks);
    }
  }

  // ---------------------------------------------------------------------------------------------
  // Every rule can be written down
  // ---------------------------------------------------------------------------------------------

  function Keyword(w: Word): Token { Token(w, false, None, None, None) }

  function Number(n: bv64): Token { Token(OtherWord, true, Some(n), None, None) }

  function Widen16(w: bv16): bv64 { w as bv64 }

  function Widen8(b: bv8): bv64 { b as bv64 }

  function ProtocolWord(p: Protocol): Word
    requires !p.AnyProtocol?
  {
    match p
    case Tcp => WTcp
    case Udp => WUdp
    case Icmp => WIcmp
    case Igmp => WIgmp
    case Arp => WArp
    case Ip => WIp
  }

  function RenderClause(c: Clause): seq<Token> {
    match c
    case PortIs(d, port) =>
      [Keyword(if d.Dst? then WDst else WSrc), Keyword(WPort), Number(Widen16(port))]
    case AddressIn(d, address, bits) =>
      [Keyword(if d.Dst? then WDst else WSrc), Keyword(WNet),
       Token(OtherWord, true, None, None, Some(Network(Some(address), Some(bits))))]
    case TypeIs(code) =>
      [Keyword(WType), Number(Widen8(code))]
  }

  function RenderClauses(clauses: seq<Clause>): seq<Token> {
    if clauses == [] then [] else RenderClause(clauses[0]) + RenderClauses(clauses[1..])
  }

  /** A rule as the tokens of a filter string. */
  function Render(r: Rule): seq<Token> {
    [Keyword(if r.drop then WDrop else WAllow)]
    + (match r.vlan
       case NoVlan => []
       case AnyTag => [Keyword(WVlan)]
       case Tag(tci) => [Keyword(WVlan), Number(Widen16(tci))])
    + (if r.protocol.AnyProtocol? then [] else [Keyword(ProtocolWord(r.protocol))])
    + RenderClauses(r.clauses)
  }

  lemma TruncateBack(p: bv16, c: bv8)
    ensures Truncate16(Widen16(p)) == p && Truncate8(Widen8(c)) == c
  {
  }

  /** A clause, written down, is read back as one more clause. */
  lemma ReadBack(r: Rule, c: Clause, rest: seq<Token>)
    requires Applicable(r.protocol, c) && (!c.TypeIs? ==> !IsSet(r.clauses, FieldOf(c)))
    ensures ParseClauses(r, RenderClause(c) + rest) == ParseClauses(WithClause(r, c), rest)
  {
    hide Truncate16, Truncate8, Widen16, Widen8, IsSet, WithClause;
    var toks := RenderClause(c) + rest;
    match c
    case TypeIs(code) =>
      TruncateBack(0, code);
      assert toks[2..] == rest;
    case PortIs(_, port) =>
      TruncateBack(port, 0);
      assert toks[3..] == rest;
    case AddressIn(_, _, _) =>
      assert toks[3..] == rest;
  }

  /** The clauses from index `n` on, written down, are read back. */
  lemma {:induction false} RenderedClauses(r: Rule, n: nat)
    requires Accepted(r) && n <= |r.clauses|
    ensures ParseClauses(r.(clauses := r.clauses[..n]), RenderClauses(r.clauses[n..])) == Accept(r)
    decreases |r.clauses| - n
  {
    hide RenderClause;
    var r0 := r.(clauses := r.clauses[..n]);
    if n == |r.clauses| {
      assert r.clauses[..n] == r.clauses;
    } else {
      hide ParseClauses;
      var c := r.clauses[n];
      assert Applicable(r.protocol, c);
      assert !c.TypeIs? ==> Unset(r.clauses, n, FieldOf(c));
      assert r.clauses[n..][1..] == r.clauses[n + 1..];
      assert r.clauses[..n] + [c] == r.clauses[..n + 1];
      RenderedClauses(r, n + 1);
      ReadBack(r0, c, RenderClauses(r.clauses[n + 1..]));
    }
  }

  /** Round trip: every acceptable rule can be written as tokens that the parser reads back as that rule. */
  lemma RenderedIsParsed(r: Rule)
    requires Accepted(r) && (r.protocol.AnyProtocol? ==> r.clauses == [])
    ensures Parse(Render(r)) == Accept(r)
  {
    hide RenderClauses, ParseClauses, ParseProtocol, Truncate16, Truncate8, Widen16, Widen8, Accepted;
    var rest := (if r.protocol.AnyProtocol? then [] else [Keyword(ProtocolWord(r.protocol))]) + RenderClauses(r.clauses);
    var toks := Render(r)[1..];
    ParsedProtocol(r);
    NotVlan(r);
    match r.vlan
    case NoVlan =>
      assert toks == rest;
    case AnyTag =>
      assert toks == [Keyword(WVlan)] + rest;
      assert toks[1..] == rest;
    case Tag(tci) =>
      assert toks == [Keyword(WVlan), Number(Widen16(tci))] + rest;
      assert toks[2..] == rest;
      TruncateBack(tci, 0);
  }

  /** What follows the VLAN tag is neither another one nor a number. */
  lemma NotVlan(r: Rule)
    requires r.protocol.AnyProtocol? ==> r.clauses == []
    ensures var rest := (if r.protocol.AnyProtocol? then [] else [Keyword(ProtocolWord(r.protocol))])
                        + RenderClauses(r.clauses);
            rest == [] || (rest[0].word != WVlan && !rest[0].startsWithDigit)
  {
  }

  lemma KeywordRead(drop: bool, v: VlanTag, p: Protocol, rest: seq<Token>)
    requires !p.AnyProtocol?
    ensures ParseProtocol(drop, v, [Keyword(ProtocolWord(p))] + rest) == ParseClauses(Rule(drop, v, p, []), rest)
  {
    hide ParseClauses;
    var toks := [Keyword(ProtocolWord(p))] + rest;
    assert toks[1..] == rest;
    assert ProtocolOf(toks[0].word) == Some(p);
  }

  lemma NothingRead(drop: bool, v: VlanTag)
    ensures ParseProtocol(drop, v, [] + RenderClauses([])) == Accept(Rule(drop, v, AnyProtocol, []))
  {
    hide ParseClauses;
    assert [] + RenderClauses([]) == [];
  }

  lemma ParsedProtocol(r: Rule)
    requires Accepted(r) && (r.protocol.AnyProtocol? ==> r.clauses == [])
    ensures ParseProtocol(r.drop, r.vlan, (if r.protocol.AnyProtocol? then [] else [Keyword(ProtocolWord(r.protocol))])
                                          + RenderClauses(r.clauses)) == Accept(r)
  {
    hide RenderClauses, ParseClauses, ParseProtocol, Accepted, ProtocolWord, Keyword;
    if r.protocol.AnyProtocol? {
      NothingRead(r.drop, r.vlan);
    } else {
      KeywordRead(r.drop, r.vlan, r.protocol, RenderClauses(r.clauses));
      RenderedClauses(r, 0);
      assert r.clauses[0..] == r.clauses && r.clauses[..0] == [];
      assert r.(clauses := r.clauses[..0]) == Rule(r.drop, r.vlan, r.protocol, []);
    }
  }
}
