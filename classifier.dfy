/**
 * The in-memory iptables simulation: a Table holds ordered Chains, a Chain
 * holds ordered Rules, and a packet is classified by an ordered first-match
 * search with DROP as the fallback at both levels.
 */
module Classifier {

  import opened Wrappers
  import opened Ipv4

  datatype TableType = Filter | Nat | Mangle

  datatype ChainType = Input | Forward | Output

  /**
   * The verdict of a rule. The source's TargetType is a string type; its three
   * named constants are Accept, Drop and Reject, and Unset is the empty string
   * (the zero value of a Target whose Type was never given).
   */
  datatype TargetType = Accept | Drop | Reject | Unset

  datatype Target = Target(kind: TargetType)

  /** A network with an arbitrary mask, as Go's net.IPNet holds one. */
  datatype IPNet = IPNet(ip: Addr, mask: Addr)

  /** A None source or destination network matches any address; an empty protocol any protocol. */
  datatype Rule = Rule(src: Option<IPNet>, dst: Option<IPNet>, protocol: string, action: Target)

  datatype Chain = Chain(name: ChainType, rules: seq<Rule>)

  datatype Table = Table(name: TableType, chains: seq<Chain>)

  datatype Packet = Packet(src: Addr, dst: Addr, protocol: string)

  /** net.IPNet.Contains for IPv4: both the network address and the candidate are masked. */
  predicate Contains(n: IPNet, a: Addr)
  {
    n.ip & n.mask == a & n.mask
  }

  /** The network ip/k, with the mask net.CIDRMask(k, 32). */
  function CidrNet(ip: Addr, k: PrefixLen): IPNet
  {
    IPNet(ip, CidrMask(k))
  }

  /** An optional network constraint admits an address when it is absent or contains it. */
  predicate Admits(constraint: Option<IPNet>, a: Addr)
  {
    constraint.None? || Contains(constraint.value, a)
  }

  /** Rule.Matches: each constraint that is present rejects a packet it does not admit. */
  predicate Matches(r: Rule, p: Packet)
  {
    if r.src.Some? && !Contains(r.src.value, p.src) then false
    else if r.dst.Some? && !Contains(r.dst.value, p.dst) then false
    else if r.protocol != "" && r.protocol != p.protocol then false
    else true
  }

  /** The rules from the first one that matches p; what the chain's loop returns from. */
  function FirstMatchingAction(rules: seq<Rule>, p: Packet): (t: TargetType)
    decreases |rules|
  {
    if |rules| == 0 then Drop
    else if Matches(rules[0], p) then rules[0].action.kind
    else FirstMatchingAction(rules[1..], p)
  }

  /**
   * Chain.ProcessPacketThroughChain: the action of the first matching rule,
   * DROP when none matches. So the result is DROP or some rule's action.
   */
  function ProcessPacketThroughChain(c: Chain, p: Packet): (t: TargetType)
    ensures t == Drop || exists i :: IsFirstMatch(c.rules, p, i) && t == c.rules[i].action.kind
  {
    FirstMatchOutcome(c.rules, p);
    FirstMatchingAction(c.rules, p)
  }

  /**
   * The table's loop over chains: the first chain result that is not the
   * empty string, DROP when there is none. The result is never empty.
   */
  function FirstDecision(chains: seq<Chain>, p: Packet): (t: TargetType)
    ensures t != Unset
    decreases |chains|
  {
    if |chains| == 0 then Drop
    else
      var action := ProcessPacketThroughChain(chains[0], p);
      if action != Unset then action else FirstDecision(chains[1..], p)
  }

  /**
   * Table.ProcessPacketThroughTable: never the empty target; DROP or the
   * result of the first chain whose result is not empty.
   */
  function ProcessPacketThroughTable(t: Table, p: Packet): (r: TargetType)
    ensures r != Unset
    ensures r == Drop || exists i :: IsFirstDecision(t.chains, p, i) && r == ProcessPacketThroughChain(t.chains[i], p)
  {
    FirstDecisionOutcome(t.chains, p);
    FirstDecision(t.chains, p)
  }

  // ---------------------------------------------------------------------
  // Rule matching
  // ---------------------------------------------------------------------

  /** Matches is the conjunction of the three constraints, in both directions. */
  lemma MatchesIffAllConstraints(r: Rule, p: Packet)
    ensures Matches(r, p) <==>
      Admits(r.src, p.src) && Admits(r.dst, p.dst) && (r.protocol == "" || r.protocol == p.protocol)
  {
  }

  /** A rule without constraints matches every packet. */
  lemma CatchAllMatches(action: Target, p: Packet)
    ensures Matches(Rule(None, None, "", action), p)
  {
  }

  /** A /k network built by CidrNet contains exactly the addresses sharing its k leading bits. */
  lemma CidrNetContains(ip: Addr, k: PrefixLen, a: Addr)
    ensures Contains(CidrNet(ip, k), a) ==> LeadingBitsAgree(ip, a, k)
    ensures LeadingBitsAgree(ip, a, k) ==> Contains(CidrNet(ip, k), a)
  {
    SamePrefixLeadingBits(ip, a, k);
    LeadingBitsSamePrefix(ip, a, k);
  }

  // ---------------------------------------------------------------------
  // Chain: first match wins
  // ---------------------------------------------------------------------

  /** Rule i is the first rule of the sequence that matches p. */
  ghost predicate IsFirstMatch(rules: seq<Rule>, p: Packet, i: int)
  {
    0 <= i < |rules| && Matches(rules[i], p) && forall j :: 0 <= j < i ==> !Matches(rules[j], p)
  }

  /** The chain returns the action of its first matching rule. */
  lemma {:induction false} ChainReturnsFirstMatch(c: Chain, p: Packet, i: int)
    requires IsFirstMatch(c.rules, p, i)
    ensures ProcessPacketThroughChain(c, p) == c.rules[i].action.kind
  {
    FirstMatchReturnsAction(c.rules, p, i);
  }

  lemma {:induction false} FirstMatchReturnsAction(rules: seq<Rule>, p: Packet, i: int)
    requires IsFirstMatch(rules, p, i)
    ensures FirstMatchingAction(rules, p) == rules[i].action.kind
    decreases i
  {
    if i > 0 {
      assert !Matches(rules[0], p);
      assert IsFirstMatch(rules[1..], p, i - 1) by {
        forall j | 0 <= j < i - 1 ensures !Matches(rules[1..][j], p) {
          assert rules[1..][j] == rules[j + 1];
        }
      }
      FirstMatchReturnsAction(rules[1..], p, i - 1);
    }
  }

  /** A chain in which no rule matches, the empty chain included, returns DROP, not the empty string. */
  lemma {:induction false} ChainWithoutMatchDrops(c: Chain, p: Packet)
    requires forall i :: 0 <= i < |c.rules| ==> !Matches(c.rules[i], p)
    ensures ProcessPacketThroughChain(c, p) == Drop
  {
    NoMatchDrops(c.rules, p);
  }

  lemma {:induction false} NoMatchDrops(rules: seq<Rule>, p: Packet)
    requires forall i :: 0 <= i < |rules| ==> !Matches(rules[i], p)
    ensures FirstMatchingAction(rules, p) == Drop
    decreases |rules|
  {
    if |rules| > 0 {
      assert !Matches(rules[0], p);
      forall i | 0 <= i < |rules[1..]| ensures !Matches(rules[1..][i], p) {
        assert rules[1..][i] == rules[i + 1];
      }
      NoMatchDrops(rules[1..], p);
    }
  }

  /** When some rule matches, there is a first one. */
  lemma {:induction false} FirstMatchExists(rules: seq<Rule>, p: Packet, k: int)
    requires 0 <= k < |rules| && Matches(rules[k], p)
    ensures exists i :: IsFirstMatch(rules, p, i)
    decreases k
  {
    if forall j :: 0 <= j < k ==> !Matches(rules[j], p) {
      assert IsFirstMatch(rules, p, k);
    } else {
      var j :| 0 <= j < k && Matches(rules[j], p);
      FirstMatchExists(rules, p, j);
    }
  }

  /**
   * Rules after a matching rule cannot affect the chain's result: a chain
   * whose prefix already holds a match behaves as that prefix alone.
   */
  lemma {:induction false} LaterRulesIrrelevant(prefix: seq<Rule>, suffix: seq<Rule>, p: Packet, k: int)
    requires 0 <= k < |prefix| && Matches(prefix[k], p)
    ensures FirstMatchingAction(prefix + suffix, p) == FirstMatchingAction(prefix, p)
  {
    FirstMatchExists(prefix, p, k);
    var i :| IsFirstMatch(prefix, p, i);
    FirstMatchReturnsAction(prefix, p, i);
    assert IsFirstMatch(prefix + suffix, p, i) by {
      forall j | 0 <= j <= i ensures (prefix + suffix)[j] == prefix[j] { }
    }
    FirstMatchReturnsAction(prefix + suffix, p, i);
  }

  /** The rule search yields DROP or the action of the first matching rule. */
  lemma FirstMatchOutcome(rules: seq<Rule>, p: Packet)
    ensures FirstMatchingAction(rules, p) == Drop
      || exists i :: IsFirstMatch(rules, p, i) && FirstMatchingAction(rules, p) == rules[i].action.kind
  {
    if forall k :: 0 <= k < |rules| ==> !Matches(rules[k], p) {
      NoMatchDrops(rules, p);
    } else {
      var k :| 0 <= k < |rules| && Matches(rules[k], p);
      FirstMatchExists(rules, p, k);
      var i :| IsFirstMatch(rules, p, i);
      FirstMatchReturnsAction(rules, p, i);
    }
  }

  /** Every rule of the chain names a non-empty target. */
  ghost predicate ActionsSet(c: Chain)
  {
    forall i :: 0 <= i < |c.rules| ==> c.rules[i].action.kind != Unset
  }

  /** A chain whose rules all name a target never yields the empty string. */
  lemma ChainDecidesWhenActionsSet(c: Chain, p: Packet)
    requires ActionsSet(c)
    ensures ProcessPacketThroughChain(c, p) != Unset
  {
  }

  // ---------------------------------------------------------------------
  // Table: first non-empty chain result, DROP otherwise
  // ---------------------------------------------------------------------

  /** A table with no chains drops every packet. */
  lemma EmptyTableDrops(name: TableType, p: Packet)
    ensures ProcessPacketThroughTable(Table(name, []), p) == Drop
  {
  }

  /** Chain i is the first chain whose result is not the empty string. */
  ghost predicate IsFirstDecision(chains: seq<Chain>, p: Packet, i: int)
  {
    && 0 <= i < |chains|
    && ProcessPacketThroughChain(chains[i], p) != Unset
    && forall j :: 0 <= j < i ==> ProcessPacketThroughChain(chains[j], p) == Unset
  }

  /** The table returns the result of the first chain whose result is not the empty string. */
  lemma {:induction false} TableReturnsFirstDecision(chains: seq<Chain>, p: Packet, i: int)
    requires IsFirstDecision(chains, p, i)
    ensures FirstDecision(chains, p) == ProcessPacketThroughChain(chains[i], p)
    decreases i
  {
    if i > 0 {
      assert ProcessPacketThroughChain(chains[0], p) == Unset;
      assert IsFirstDecision(chains[1..], p, i - 1) by {
        forall j | 0 <= j < i - 1
          ensures ProcessPacketThroughChain(chains[1..][j], p) == Unset
        {
          assert chains[1..][j] == chains[j + 1];
        }
      }
      TableReturnsFirstDecision(chains[1..], p, i - 1);
    }
  }

  /** When every chain yields the empty string, the table drops the packet. */
  lemma {:induction false} TableWithoutDecisionDrops(chains: seq<Chain>, p: Packet)
    requires forall i :: 0 <= i < |chains| ==> ProcessPacketThroughChain(chains[i], p) == Unset
    ensures FirstDecision(chains, p) == Drop
    decreases |chains|
  {
    if |chains| > 0 {
      forall i | 0 <= i < |chains[1..]| ensures ProcessPacketThroughChain(chains[1..][i], p) == Unset {
        assert chains[1..][i] == chains[i + 1];
      }
      TableWithoutDecisionDrops(chains[1..], p);
    }
  }

  /** When some chain decides, there is a first one that does. */
  lemma {:induction false} FirstDecisionExists(chains: seq<Chain>, p: Packet, k: int)
    requires 0 <= k < |chains| && ProcessPacketThroughChain(chains[k], p) != Unset
    ensures exists i :: IsFirstDecision(chains, p, i)
    decreases k
  {
    if forall j :: 0 <= j < k ==> ProcessPacketThroughChain(chains[j], p) == Unset {
      assert IsFirstDecision(chains, p, k);
    } else {
      var j :| 0 <= j < k && ProcessPacketThroughChain(chains[j], p) != Unset;
      FirstDecisionExists(chains, p, j);
    }
  }

  /** The table's loop yields DROP or the result of the first deciding chain. */
  lemma FirstDecisionOutcome(chains: seq<Chain>, p: Packet)
    ensures FirstDecision(chains, p) == Drop
      || exists i :: IsFirstDecision(chains, p, i) && FirstDecision(chains, p) == ProcessPacketThroughChain(chains[i], p)
  {
    if forall k :: 0 <= k < |chains| ==> ProcessPacketThroughChain(chains[k], p) == Unset {
      TableWithoutDecisionDrops(chains, p);
    } else {
      var k :| 0 <= k < |chains| && ProcessPacketThroughChain(chains[k], p) != Unset;
      FirstDecisionExists(chains, p, k);
      var i :| IsFirstDecision(chains, p, i);
      TableReturnsFirstDecision(chains, p, i);
    }
  }

  /**
   * With only non-empty rule actions, the first chain always decides (it
   * returns DROP when nothing in it matches), so later chains never matter.
   */
  lemma FirstChainDecides(t: Table, p: Packet)
    requires |t.chains| > 0 && ActionsSet(t.chains[0])
    ensures ProcessPacketThroughTable(t, p) == ProcessPacketThroughChain(t.chains[0], p)
  {
    ChainDecidesWhenActionsSet(t.chains[0], p);
  }

  /** A chain yielding the empty string falls through to the rest of the table. */
  lemma FallThroughOnUnset(chains: seq<Chain>, p: Packet)
    requires |chains| > 0 && ProcessPacketThroughChain(chains[0], p) == Unset
    ensures FirstDecision(chains, p) == FirstDecision(chains[1..], p)
  {
  }

  // ---------------------------------------------------------------------
  // The two scenarios of the program's main
  // ---------------------------------------------------------------------

  const Case1Table := Table(Filter, [Chain(Input, [Rule(None, None, "tcp", Target(Accept))])])

  const Case1Packet := Packet(FromOctets(192, 168, 1, 100), FromOctets(192, 168, 1, 200), "tcp")

  /** The table of the second case: a chain with a /24 source and destination rule prepended. */
  const Case2Table := Table(Filter,
    [Chain(Input, [Rule(Some(CidrNet(FromOctets(192, 168, 2, 100), 24)),
                        Some(CidrNet(FromOctets(192, 178, 2, 200), 24)),
                        "tcp", Target(Accept))])]
    + Case1Table.chains)

  /** The tcp catch-all rule accepts the packet. */
  lemma Case1Accepts()
    ensures ProcessPacketThroughTable(Case1Table, Case1Packet) == Accept
  {
  }

  /** 192.168.2.100/24 contains every 192.168.2.x and not 192.168.1.100. */
  lemma Case2SourceNetwork(x: bv8)
    ensures Contains(CidrNet(FromOctets(192, 168, 2, 100), 24), FromOctets(192, 168, 2, x))
    ensures !Contains(CidrNet(FromOctets(192, 168, 2, 100), 24), Case1Packet.src)
  {
    CidrMaskValues();
  }

  /**
   * As coded, the prepended chain matches nothing and so returns DROP, which
   * is not the empty string: the accepting chain behind it is never reached.
   */
  lemma Case2Drops()
    ensures ProcessPacketThroughTable(Case2Table, Case1Packet) == Drop
  {
    Case2SourceNetwork(0);
    assert !Matches(Case2Table.chains[0].rules[0], Case1Packet);
  }
}
