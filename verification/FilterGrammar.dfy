/** The language of filter rules: which token sequences write which rule, told without a parser. */
module FilterGrammar {
  import opened Words
  import opened FilterRule
  import opened FilterParser

  function DirectionWord(d: Direction): Word {
    if d.Dst? then WDst else WSrc
  }

  function Length(c: Clause): nat {
    if c.TypeIs? then 2 else 3
  }

  /** The tokens write the clause.  Port numbers and types are cut to their width; a host is a network of
      all 32 bits. */
  predicate WritesClause(toks: seq<Token>, c: Clause)
    requires |toks| == Length(c)
  {
    match c
    case PortIs(d, port) =>
      && toks[0].word == DirectionWord(d) && toks[1].word == WPort
      && toks[2].number.Some? && Truncate16(toks[2].number.value) == port
    case AddressIn(d, address, bits) =>
      && toks[0].word == DirectionWord(d)
      && (if toks[1].word == WHost then
            toks[2].address == Some(address) && bits == 32
          else
            toks[1].word == WNet && toks[2].network == Some(Network(Some(address), Some(bits))))
    case TypeIs(code) =>
      toks[0].word == WType && toks[1].number.Some? && Truncate8(toks[1].number.value) == code
  }

  /** The tokens write the clauses, one after the other. */
  predicate WritesClauses(toks: seq<Token>, clauses: seq<Clause>)
    decreases |clauses|
  {
    if clauses == [] then
      toks == []
    else
      && Length(clauses[0]) <= |toks|
      && WritesClause(toks[..Length(clauses[0])], clauses[0])
      && WritesClauses(toks[Length(clauses[0])..], clauses[1..])
  }

  /** The keyword of a protocol. */
  predicate Names(w: Word, p: Protocol) {
    || (w == WTcp && p == Tcp) || (w == WUdp && p == Udp) || (w == WIcmp && p == Icmp)
    || (w == WIgmp && p == Igmp) || (w == WArp && p == Arp) || (w == WIp && p == Ip)
  }

  /** The tokens write protocol and clauses.  The keyword of IP may be left out in front of a clause. */
  predicate WritesProtocol(toks: seq<Token>, p: Protocol, clauses: seq<Clause>) {
    || (p.AnyProtocol? && toks == [] && clauses == [])
    || (toks != [] && Names(toks[0].word, p) && WritesClauses(toks[1..], clauses))
    || (p.Ip? && clauses != [] && WritesClauses(toks, clauses))
  }

  /** The tokens write VLAN tag, protocol and clauses.  A number after `vlan` belongs to it. */
  predicate WritesVlan(toks: seq<Token>, v: VlanTag, p: Protocol, clauses: seq<Clause>) {
    match v
    case NoVlan =>
      WritesProtocol(toks, p, clauses)
    case AnyTag =>
      && toks != [] && toks[0].word == WVlan && (|toks| > 1 ==> !toks[1].startsWithDigit)
      && WritesProtocol(toks[1..], p, clauses)
    case Tag(tci) =>
      && |toks| > 1 && toks[0].word == WVlan && toks[1].startsWithDigit
      && toks[1].number.Some? && Truncate16(toks[1].number.value) == tci
      && WritesProtocol(toks[2..], p, clauses)
  }

  /** The tokens write the rule: action, VLAN tag, protocol and clauses, each clause fitting the protocol and
      no field given twice. */
  ghost predicate Writes(toks: seq<Token>, r: Rule) {
    && Accepted(r)
    && toks != [] && toks[0].word == (if r.drop then WDrop else WAllow)
    && WritesVlan(toks[1..], r.vlan, r.protocol, r.clauses)
  }

  // ---------------------------------------------------------------------------------------------
  // What is written is read
  // ---------------------------------------------------------------------------------------------

  function With(r: Rule, clauses: seq<Clause>): Rule {
    r.(clauses := r.clauses + clauses)
  }

  /** The first of several clauses does not repeat a field. */
  lemma FirstFits(r: Rule, clauses: seq<Clause>)
    requires clauses != [] && Accepted(With(r, clauses))
    ensures Applicable(r.protocol, clauses[0])
    ensures !clauses[0].TypeIs? ==> !IsSet(r.clauses, FieldOf(clauses[0]))
    ensures With(r, clauses) == With(WithClause(r, clauses[0]), clauses[1..])
  {
    hide Applicable;
    var all := With(r, clauses).clauses;
    assert all[|r.clauses|] == clauses[0];
    if !clauses[0].TypeIs? {
      assert Unset(all, |r.clauses|, FieldOf(clauses[0]));
      assert forall i :: 0 <= i < |r.clauses| ==> all[i] == r.clauses[i];
    }
    assert r.clauses + clauses == r.clauses + [clauses[0]] + clauses[1..];
  }

  lemma ClauseRead(p: Protocol, toks: seq<Token>, c: Clause)
    requires |toks| == 3 == Length(c) && WritesClause(toks, c) && Applicable(p, c)
    ensures toks[0].word == WDst || toks[0].word == WSrc
    ensures ClauseOf(p, if toks[0].word == WDst then Dst else Src, toks[1].word, toks[2]) == Good(c)
  {
    hide Truncate16;
  }

  lemma {:induction false} ClausesRead(r: Rule, toks: seq<Token>, clauses: seq<Clause>)
    requires WritesClauses(toks, clauses) && Accepted(With(r, clauses))
    ensures ParseClauses(r, toks) == Accept(With(r, clauses))
    decreases |clauses|
  {
    hide Accepted, ClauseOf, Truncate8, WritesClause, IsSet;
    if clauses == [] {
      assert With(r, clauses) == r;
    } else {
      var c, n := clauses[0], Length(clauses[0]);
      FirstFits(r, clauses);
      ClausesRead(WithClause(r, c), toks[n..], clauses[1..]);
      if c.TypeIs? {
        TypeRead(r, toks, c);
      } else {
        ClauseRead(r.protocol, toks[..n], c);
        AddressOrPortRead(r, toks, c);
      }
    }
  }

  lemma TypeRead(r: Rule, toks: seq<Token>, c: Clause)
    requires c.TypeIs? && Length(c) <= |toks| && WritesClause(toks[..Length(c)], c) && Applicable(r.protocol, c)
    ensures ParseClauses(r, toks) == ParseClauses(WithClause(r, c), toks[2..])
  {
    hide Truncate8;
    assert toks[..2][0] == toks[0] && toks[..2][1] == toks[1];
  }

  lemma AddressOrPortRead(r: Rule, toks: seq<Token>, c: Clause)
    requires |toks| >= 3 && (toks[0].word == WDst || toks[0].word == WSrc) && !IsSet(r.clauses, FieldOf(c))
    requires ClauseOf(r.protocol, if toks[0].word == WDst then Dst else Src, toks[1].word, toks[2]) == Good(c)
    ensures ParseClauses(r, toks) == ParseClauses(WithClause(r, c), toks[3..])
  {
    hide ClauseOf, IsSet;
  }

  /** Clauses never begin with a keyword that has another place. */
  lemma ClausesStart(toks: seq<Token>, clauses: seq<Clause>)
    requires WritesClauses(toks, clauses)
    ensures toks == [] <==> clauses == []
    ensures toks != [] ==> toks[0].word == WDst || toks[0].word == WSrc || toks[0].word == WType
  {
  }

  lemma ProtocolRead(drop: bool, v: VlanTag, toks: seq<Token>, p: Protocol, clauses: seq<Clause>)
    requires WritesProtocol(toks, p, clauses) && Accepted(Rule(drop, v, p, clauses))
    ensures ParseProtocol(drop, v, toks) == Accept(Rule(drop, v, p, clauses))
    ensures toks == [] || toks[0].word != WVlan
  {
    hide Accepted, WritesClauses, ParseClauses;
    var r0 := Rule(drop, v, p, []);
    assert With(r0, clauses) == Rule(drop, v, p, clauses);
    if p.AnyProtocol? {
    } else if toks != [] && Names(toks[0].word, p) && WritesClauses(toks[1..], clauses) {
      ClausesRead(r0, toks[1..], clauses);
    } else {
      ClausesStart(toks, clauses);
      ClausesRead(r0, toks, clauses);
    }
  }

  lemma WrittenIsRead(toks: seq<Token>, r: Rule)
    requires Writes(toks, r)
    ensures Parse(toks) == Accept(r)
  {
    hide Accepted, WritesProtocol, ParseProtocol, Truncate16;
    var rest := toks[1..];
    match r.vlan
    case NoVlan => ProtocolRead(r.drop, r.vlan, rest, r.protocol, r.clauses);
    case AnyTag => ProtocolRead(r.drop, r.vlan, rest[1..], r.protocol, r.clauses);
    case Tag(_) => ProtocolRead(r.drop, r.vlan, rest[2..], r.protocol, r.clauses);
  }

  // ---------------------------------------------------------------------------------------------
  // What is read was written
  // ---------------------------------------------------------------------------------------------

  lemma ClauseWritten(p: Protocol, toks: seq<Token>, c: Clause)
    requires |toks| >= 3 && (toks[0].word == WDst || toks[0].word == WSrc)
    requires ClauseOf(p, if toks[0].word == WDst then Dst else Src, toks[1].word, toks[2]) == Good(c)
    ensures Length(c) == 3 && WritesClause(toks[..3], c)
  {
    hide Truncate16;
  }

  lemma ClausesCons(toks: seq<Token>, c: Clause, clauses: seq<Clause>)
    requires Length(c) <= |toks| && WritesClause(toks[..Length(c)], c) && WritesClauses(toks[Length(c)..], clauses)
    ensures WritesClauses(toks, [c] + clauses)
  {
    hide WritesClause;
    assert ([c] + clauses)[1..] == clauses;
  }

  lemma {:induction false} ClausesWritten(r: Rule, toks: seq<Token>) returns (clauses: seq<Clause>)
    requires ParseClauses(r, toks).Accept?
    ensures ParseClauses(r, toks).rule == With(r, clauses) && WritesClauses(toks, clauses)
    decreases |toks|
  {
    hide ClauseOf, Truncate8, WritesClause, IsSet;
    if toks == [] {
      clauses := [];
      assert With(r, []) == r;
    } else {
      var c, n := FirstWritten(r, toks);
      var rest := ClausesWritten(WithClause(r, c), toks[n..]);
      clauses := [c] + rest;
      ClausesCons(toks, c, rest);
      assert r.clauses + [c] + rest == r.clauses + ([c] + rest);
    }
  }

  lemma FirstWritten(r: Rule, toks: seq<Token>) returns (c: Clause, n: nat)
    requires toks != [] && ParseClauses(r, toks).Accept?
    ensures n == Length(c) <= |toks| && WritesClause(toks[..n], c)
    ensures ParseClauses(r, toks) == ParseClauses(WithClause(r, c), toks[n..])
  {
    hide ClauseOf, Truncate8, IsSet;
    if toks[0].word == WType {
      c, n := TypeIs(Truncate8(toks[1].number.value)), 2;
    } else {
      var res := ClauseOf(r.protocol, if toks[0].word == WDst then Dst else Src, toks[1].word, toks[2]);
      c, n := res.clause, 3;
      hide WritesClause;
      ClauseWritten(r.protocol, toks, c);
    }
  }

  lemma ProtocolWritten(drop: bool, v: VlanTag, toks: seq<Token>)
    requires ParseProtocol(drop, v, toks).Accept?
    ensures var r := ParseProtocol(drop, v, toks).rule;
            r.drop == drop && r.vlan == v && WritesProtocol(toks, r.protocol, r.clauses)
  {
    hide ParseClauses, WritesClauses;
    if toks != [] {
      match ProtocolOf(toks[0].word)
      case Some(p) =>
        var clauses := ClausesWritten(Rule(drop, v, p, []), toks[1..]);
        assert [] + clauses == clauses;
      case None =>
        var clauses := ClausesWritten(Rule(drop, v, Ip, []), toks);
        assert [] + clauses == clauses;
        ClausesStart(toks, clauses);
    }
  }

  lemma ReadWasWritten(toks: seq<Token>)
    requires Parse(toks).Accept?
    ensures Writes(toks, Parse(toks).rule)
  {
    hide Accepted, WritesProtocol, ParseProtocol, Truncate16;
    ParsedIsAccepted(toks);
    var drop, rest := toks[0].word == WDrop, toks[1..];
    if rest == [] || rest[0].word != WVlan {
      ProtocolWritten(drop, NoVlan, rest);
    } else if |rest| == 1 || !rest[1].startsWithDigit {
      ProtocolWritten(drop, AnyTag, rest[1..]);
    } else {
      ProtocolWritten(drop, Tag(Truncate16(rest[1].number.value)), rest[2..]);
    }
  }

  /** The parser accepts a token sequence as a rule if and only if the sequence writes that rule, in whatever
      way: with or without the keyword `ip`, a host or a network, numbers of any size. */
  lemma ParsesIffWritten(toks: seq<Token>, r: Rule)
    ensures Parse(toks) == Accept(r) <==> Writes(toks, r)
  {
    hide Parse, Writes;
    if Writes(toks, r) {
      WrittenIsRead(toks, r);
    }
    if Parse(toks) == Accept(r) {
      ReadWasWritten(toks);
    }
  }

  /** No token sequence writes two rules. */
  lemma WritingIsUnambiguous(toks: seq<Token>, r1: Rule, r2: Rule)
    requires Writes(toks, r1) && Writes(toks, r2)
    ensures r1 == r2
  {
    hide Parse, Writes;
    ParsesIffWritten(toks, r1);
    ParsesIffWritten(toks, r2);
  }

  /** Numbers are cut to the width of the field: to their remainder. */
  lemma NumbersWrap(w: bv16, b: bv8, high: bv64)
    ensures Truncate16((high << 16) | Widen16(w)) == w
    ensures Truncate8((high << 8) | Widen8(b)) == b
  {
  }

  // ---------------------------------------------------------------------------------------------
  // Prefix length zero
  // ---------------------------------------------------------------------------------------------

  /** Three tokens ask for a network with prefix length 0, of a kind that the protocol allows. */
  predicate ZeroNetwork(p: Protocol, toks: seq<Token>)
    requires |toks| == 3
  {
    && ((toks[0].word == WDst && !p.Arp?) || toks[0].word == WSrc)
    && toks[1].word == WNet
    && toks[2].network.Some? && toks[2].network.value.address.Some? && toks[2].network.value.bits == Some(0)
  }

  /** The first `n` tokens write a rule, and three more that follow them ask for prefix length 0; what comes
      after them does not matter, nor does a network given before.  (The token after `vlan` must not look
      like a number.) */
  ghost predicate ShiftsAt(toks: seq<Token>, n: nat) {
    && n + 3 <= |toks|
    && (exists r :: Writes(toks[..n], r) && ZeroNetwork(r.protocol, toks[n..n + 3]))
    && (n == 2 && toks[1].word == WVlan ==> !toks[2].startsWithDigit)
  }

  /** Positions after the first `m` tokens. */
  lemma Behind(toks: seq<Token>, m: nat, n: nat)
    requires m <= n <= |toks|
    ensures toks[..n][m..] == toks[m..][..n - m] && toks[m..][n - m..] == toks[n..]
    ensures n + 3 <= |toks| ==> toks[m..][n - m..n - m + 3] == toks[n..n + 3]
  {
    assert toks == toks[..m] + toks[m..n] + toks[n..];
    assert toks[m..] == toks[m..n] + toks[n..];
    if n + 3 <= |toks| {
      assert toks[n..] == toks[n..n + 3] + toks[n + 3..];
    }
  }

  lemma ZeroIsShift(r: Rule, toks: seq<Token>)
    requires |toks| >= 3 && (toks[0].word == WDst || toks[0].word == WSrc)
    ensures ClauseOf(r.protocol, if toks[0].word == WDst then Dst else Src, toks[1].word, toks[2]) == BadShift
            <==> ZeroNetwork(r.protocol, toks[..3])
  {
  }

  /** The parser goes on after a prefix that it accepts. */
  lemma {:induction false} Resumes(r: Rule, toks: seq<Token>, n: nat)
    requires n <= |toks| && ParseClauses(r, toks[..n]).Accept?
    ensures ParseClauses(r, toks) == ParseClauses(ParseClauses(r, toks[..n]).rule, toks[n..])
    decreases n
  {
    hide Truncate8, IsSet, WritesClause;
    if n == 0 {
      assert toks[0..] == toks && toks[..0] == [];
    } else {
      var c, m := FirstWritten(r, toks[..n]);
      FirstAgain(r, toks, n, c, m);
      Behind(toks, m, n);
      Resumes(WithClause(r, c), toks[m..], n - m);
    }
  }

  lemma FirstAgain(r: Rule, toks: seq<Token>, n: nat, c: Clause, m: nat)
    requires 0 < n <= |toks| && ParseClauses(r, toks[..n]).Accept?
    requires m == Length(c) <= n && WritesClause(toks[..n][..m], c)
    requires ParseClauses(r, toks[..n]) == ParseClauses(WithClause(r, c), toks[..n][m..])
    ensures ParseClauses(r, toks) == ParseClauses(WithClause(r, c), toks[m..])
  {
    hide Truncate8, IsSet;
    assert toks[..n][0] == toks[0];
  }

  lemma ProtocolStays(r: Rule, toks: seq<Token>)
    requires ParseClauses(r, toks).Accept?
    ensures ParseClauses(r, toks).rule.protocol == r.protocol
  {
    var _ := ClausesWritten(r, toks);
  }

  lemma ClausesShift(r: Rule, toks: seq<Token>, n: nat)
    requires n + 3 <= |toks| && ParseClauses(r, toks[..n]).Accept? && ZeroNetwork(r.protocol, toks[n..n + 3])
    ensures ParseClauses(r, toks) == Undefined
  {
    ProtocolStays(r, toks[..n]);
    Resumes(r, toks, n);
    assert toks[n..][..3] == toks[n..n + 3];
    assert toks[n..n + 3][0] == toks[n];
    ZeroIsShift(ParseClauses(r, toks[..n]).rule, toks[n..]);
  }

  lemma {:induction false} ClausesShifted(r: Rule, toks: seq<Token>) returns (n: nat)
    requires ParseClauses(r, toks) == Undefined
    ensures n + 3 <= |toks| && ParseClauses(r, toks[..n]).Accept? && ZeroNetwork(r.protocol, toks[n..n + 3])
    decreases |toks|
  {
    hide ClauseOf, Truncate8, IsSet, ZeroNetwork;
    if toks[0].word == WType {
      n := ClausesShifted(WithClause(r, TypeIs(Truncate8(toks[1].number.value))), toks[2..]);
      n := n + 2;
      Behind(toks, 2, n);
    } else {
      ZeroIsShift(r, toks);
      n := 0;
      var res := ClauseOf(r.protocol, if toks[0].word == WDst then Dst else Src, toks[1].word, toks[2]);
      if res.BadShift? {
        assert toks[0..3] == toks[..3];
      } else {
        n := ClausesShifted(WithClause(r, res.clause), toks[3..]);
        n := n + 3;
        Behind(toks, 3, n);
      }
    }
  }

  lemma ProtocolShift(drop: bool, v: VlanTag, toks: seq<Token>, n: nat)
    requires n + 3 <= |toks| && ParseProtocol(drop, v, toks[..n]).Accept?
    requires ZeroNetwork(ParseProtocol(drop, v, toks[..n]).rule.protocol, toks[n..n + 3])
    ensures ParseProtocol(drop, v, toks) == Undefined
  {
    hide ParseClauses, ZeroNetwork;
    ZeroStart(ParseProtocol(drop, v, toks[..n]).rule.protocol, toks, n);
    assert n > 0 ==> toks[..n][0] == toks[0];
    match ProtocolOf(toks[0].word)
    case Some(p) =>
      Behind(toks, 1, n);
      ProtocolStays(Rule(drop, v, p, []), toks[1..][..n - 1]);
      ClausesShift(Rule(drop, v, p, []), toks[1..], n - 1);
    case None =>
      if n == 0 {
        NothingYet(Rule(drop, v, Ip, []));
        assert toks[..0] == [];
        AnyOrIp(toks[n..n + 3]);
      } else {
        ProtocolStays(Rule(drop, v, Ip, []), toks[..n]);
      }
      ClausesShift(Rule(drop, v, Ip, []), toks, n);
  }

  lemma AnyOrIp(toks: seq<Token>)
    requires |toks| == 3
    ensures ZeroNetwork(AnyProtocol, toks) <==> ZeroNetwork(Ip, toks)
  {
  }

  lemma NothingYet(r: Rule)
    ensures ParseClauses(r, []) == Accept(r)
  {
  }

  lemma ProtocolShifted(drop: bool, v: VlanTag, toks: seq<Token>) returns (n: nat)
    requires ParseProtocol(drop, v, toks) == Undefined
    ensures n + 3 <= |toks| && ParseProtocol(drop, v, toks[..n]).Accept?
    ensures ZeroNetwork(ParseProtocol(drop, v, toks[..n]).rule.protocol, toks[n..n + 3])
  {
    hide ParseClauses;
    match ProtocolOf(toks[0].word)
    case Some(p) =>
      n := ClausesShifted(Rule(drop, v, p, []), toks[1..]);
      n := n + 1;
      Behind(toks, 1, n);
      ProtocolStays(Rule(drop, v, p, []), toks[1..][..n - 1]);
    case None =>
      n := ClausesShifted(Rule(drop, v, Ip, []), toks);
      ProtocolStays(Rule(drop, v, Ip, []), toks[..n]);
  }

  lemma ZeroStart(p: Protocol, toks: seq<Token>, n: nat)
    requires n + 3 <= |toks| && ZeroNetwork(p, toks[n..n + 3])
    ensures toks[n].word == WDst || toks[n].word == WSrc
  {
    assert toks[n..n + 3][0] == toks[n];
  }

  lemma VlanShift(drop: bool, toks: seq<Token>, n: nat)
    requires n + 3 <= |toks| && ParseVlan(drop, toks[..n]).Accept?
    requires ZeroNetwork(ParseVlan(drop, toks[..n]).rule.protocol, toks[n..n + 3])
    requires n == 1 && toks[0].word == WVlan ==> !toks[1].startsWithDigit
    ensures ParseVlan(drop, toks) == Undefined
  {
    hide ParseProtocol, Truncate16, ZeroNetwork;
    ZeroStart(ParseVlan(drop, toks[..n]).rule.protocol, toks, n);
    assert n > 0 ==> toks[..n][0] == toks[0];
    assert n > 1 ==> toks[..n][1] == toks[1];
    if toks[0].word != WVlan {
      assert ParseVlan(drop, toks[..n]) == ParseProtocol(drop, NoVlan, toks[..n]);
      ProtocolShift(drop, NoVlan, toks, n);
    } else if !toks[1].startsWithDigit {
      Behind(toks, 1, n);
      assert ParseVlan(drop, toks[..n]) == ParseProtocol(drop, AnyTag, toks[..n][1..]);
      ProtocolShift(drop, AnyTag, toks[1..], n - 1);
    } else {
      Behind(toks, 2, n);
      ProtocolShift(drop, Tag(Truncate16(toks[1].number.value)), toks[2..], n - 2);
    }
  }

  lemma VlanShifted(drop: bool, toks: seq<Token>) returns (n: nat)
    requires ParseVlan(drop, toks) == Undefined
    ensures n + 3 <= |toks| && ParseVlan(drop, toks[..n]).Accept?
    ensures ZeroNetwork(ParseVlan(drop, toks[..n]).rule.protocol, toks[n..n + 3])
    ensures n == 1 && toks[0].word == WVlan ==> !toks[1].startsWithDigit
  {
    hide ParseProtocol, Truncate16, ZeroNetwork;
    NoShift(drop, NoVlan);
    NoShift(drop, AnyTag);
    if toks == [] || toks[0].word != WVlan {
      n := ProtocolShifted(drop, NoVlan, toks);
    } else if |toks| == 1 || !toks[1].startsWithDigit {
      n := ProtocolShifted(drop, AnyTag, toks[1..]);
      n := n + 1;
      Behind(toks, 1, n);
    } else {
      n := ProtocolShifted(drop, Tag(Truncate16(toks[1].number.value)), toks[2..]);
      n := n + 2;
      Behind(toks, 2, n);
    }
  }

  lemma NoShift(drop: bool, v: VlanTag)
    ensures ParseProtocol(drop, v, []).Accept?
  {
  }

  lemma ReadAfterAction(toks: seq<Token>, n: nat)
    requires n <= |toks| && Parse(toks[..n]).Accept?
    ensures n > 0 && (toks[0].word == WAllow || toks[0].word == WDrop)
    ensures ParseVlan(toks[0].word == WDrop, toks[..n][1..]) == Parse(toks[..n])
    ensures ParseVlan(toks[0].word == WDrop, toks[1..]) == Parse(toks)
  {
    hide ParseVlan;
    assert n > 0;
    assert toks[..n][0] == toks[0];
  }

  lemma ShiftIsUndefined(toks: seq<Token>, n: nat)
    requires n + 3 <= |toks| && Parse(toks[..n]).Accept?
    requires ZeroNetwork(Parse(toks[..n]).rule.protocol, toks[n..n + 3])
    requires n == 2 && toks[1].word == WVlan ==> !toks[2].startsWithDigit
    ensures Parse(toks) == Undefined
  {
    hide Parse, ParseVlan, ZeroNetwork;
    ReadAfterAction(toks, n);
    Behind(toks, 1, n);
    VlanShift(toks[0].word == WDrop, toks[1..], n - 1);
  }

  lemma UndefinedShifts(toks: seq<Token>) returns (n: nat)
    requires Parse(toks) == Undefined
    ensures ShiftsAt(toks, n)
  {
    hide ParseVlan, Writes, ZeroNetwork;
    n := VlanShifted(toks[0].word == WDrop, toks[1..]);
    n := n + 1;
    Behind(toks, 1, n);
    assert toks[..n][0] == toks[0];
    ParsesIffWritten(toks[..n], Parse(toks[..n]).rule);
  }

  /** The parser shifts by 32 exactly if the tokens up to some point write a rule and go on with a network of
      prefix length 0.  With the grammar of accepted rules this leaves nothing open: whatever neither writes
      a rule nor is like this is rejected. */
  lemma UndefinedIffShifts(toks: seq<Token>)
    ensures Parse(toks) == Undefined <==> exists n: nat :: ShiftsAt(toks, n)
    ensures Parse(toks) == Reject <==> (forall r :: !Writes(toks, r)) && (forall n: nat :: !ShiftsAt(toks, n))
  {
    hide Parse, Writes, ZeroNetwork;
    if Parse(toks) == Undefined {
      var n := UndefinedShifts(toks);
    }
    forall n: nat | ShiftsAt(toks, n)
      ensures Parse(toks) == Undefined
    {
      var r :| Writes(toks[..n], r) && ZeroNetwork(r.protocol, toks[n..n + 3]);
      ParsesIffWritten(toks[..n], r);
      ShiftIsUndefined(toks, n);
    }
    forall r
      ensures Parse(toks) == Accept(r) <==> Writes(toks, r)
    {
      ParsesIffWritten(toks, r);
    }
  }
}
