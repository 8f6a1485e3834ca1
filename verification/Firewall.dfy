/** The rule compiler of
    core/modules/run-virt/data/opt/openslx/vmchooser/scripts/set-firewall.py:
    ordered rules become a chain pair, each rule appended only when absent. */
module Firewall {
  import opened Bits
  import opened Cidr

  // ----- Rules, packets and what a rule list means -----

  datatype Direction = In | Out
  datatype Action = Accept | Drop | Reject
  datatype Protocol = Tcp | Udp | OtherProto

  /** `*`, or an address with its prefix length; 4 bytes for IPv4, 16 for IPv6. */
  datatype Dest = Any | Net(address: Bytes, prefix: nat)

  /** Port 0 stands for every port and protocol. */
  datatype Rule = Rule(direction: Direction, dest: Dest, port: nat, action: Action)

  /** `peer` is the destination of an outgoing packet, the source of an incoming one. */
  datatype Packet = Packet(peer: Bytes, proto: Protocol, port: nat, loopback: bool)

  datatype Verdict = Accepted | Dropped | Refused(tcpReset: bool)

  ghost predicate DestHas(dest: Dest, peer: Bytes) {
    match dest
    case Any => true
    case Net(address, prefix) => |peer| == |address| && SamePrefix(peer, address, prefix)
  }

  ghost predicate RuleHits(rule: Rule, direction: Direction, p: Packet) {
    && rule.direction == direction
    && DestHas(rule.dest, p.peer)
    && (rule.port != 0 ==> p.proto != OtherProto && p.port == rule.port)
  }

  function RuleVerdict(action: Action, p: Packet): Verdict {
    match action
    case Accept => Accepted
    case Drop => Dropped
    case Reject => Refused(p.proto == Tcp)
  }

  /** The first hit among the wildcard rules, or among the specific ones. */
  ghost function FirstHit(rules: seq<Rule>, wildcard: bool, direction: Direction, p: Packet): Option<Verdict> {
    if rules == [] then None
    else if rules[0].dest.Any? == wildcard && RuleHits(rules[0], direction, p) then Some(RuleVerdict(rules[0].action, p))
    else FirstHit(rules[1..], wildcard, direction, p)
  }

  /** What the rule list means: specific rules first, in order, then wildcards. */
  ghost function Meaning(rules: seq<Rule>, direction: Direction, p: Packet): Option<Verdict> {
    match FirstHit(rules, false, direction, p)
    case Some(v) => Some(v)
    case None => FirstHit(rules, true, direction, p)
  }

  // ----- Chains -----

  datatype Target = Jump(action: Action, tcpReset: bool) | ToSub

  /** One iptables entry: `-i lo`/`-o lo`, address, `-p`, `--dport`, `-j`. */
  datatype Entry = Entry(loopback: bool, dest: Dest, proto: Option<Protocol>, dport: Option<nat>, target: Target)

  /** The runvirt chain of one tool and direction, and its -sub chain. */
  datatype ChainPair = ChainPair(main: seq<Entry>, sub: seq<Entry>)

  /** setup_chains: let loopback through, then ask the sub chain. */
  const INITIAL := ChainPair([Entry(true, Any, None, None, Jump(Accept, false)), Entry(false, Any, None, None, ToSub)], [])

  ghost predicate EntryHits(e: Entry, p: Packet) {
    && (e.loopback ==> p.loopback)
    && DestHas(e.dest, p.peer)
    && (e.proto.Some? ==> p.proto == e.proto.value)
    && (e.dport.Some? ==> p.proto != OtherProto && p.port == e.dport.value)
  }

  function EntryVerdict(action: Action, tcpReset: bool): Verdict {
    match action
    case Accept => Accepted
    case Drop => Dropped
    case Reject => Refused(tcpReset)
  }

  ghost function Walk(chain: seq<Entry>, sub: Option<Verdict>, p: Packet): Option<Verdict> {
    if chain == [] then None
    else if !EntryHits(chain[0], p) then Walk(chain[1..], sub, p)
    else match chain[0].target
      case Jump(action, tcpReset) => Some(EntryVerdict(action, tcpReset))
      case ToSub => if sub.Some? then sub else Walk(chain[1..], sub, p)
  }

  /** The verdict of a chain pair; None when the packet returns to the caller. */
  ghost function PairVerdict(pair: ChainPair, p: Packet): Option<Verdict> {
    Walk(pair.main, Walk(pair.sub, None, p), p)
  }

  // ----- Appending with -C before -A -----

  function Append(chain: seq<Entry>, e: Entry): seq<Entry> {
    if e in chain then chain else chain + [e]
  }

  ghost function OrElse(a: Option<Verdict>, b: Option<Verdict>): Option<Verdict> {
    if a.Some? then a else b
  }

  predicate Plain(chain: seq<Entry>) {
    forall i :: 0 <= i < |chain| ==> chain[i].target.Jump?
  }

  lemma {:induction false} WalkConcat(a: seq<Entry>, b: seq<Entry>, sub: Option<Verdict>, p: Packet)
    ensures Walk(a + b, sub, p) == OrElse(Walk(a, sub, p), Walk(b, sub, p))
    decreases |a|
  {
    if a == [] {
      assert a + b == b;
    } else {
      assert (a + b)[1..] == a[1..] + b;
      WalkConcat(a[1..], b, sub, p);
    }
  }

  lemma {:induction false} WalkMember(chain: seq<Entry>, e: Entry, sub: Option<Verdict>, p: Packet)
    requires e in chain && e.target.Jump? && EntryHits(e, p)
    ensures Walk(chain, sub, p).Some?
    decreases |chain|
  {
    if chain[0] != e {
      assert e in chain[1..];
      WalkMember(chain[1..], e, sub, p);
    }
  }

  /** Leaving out an entry that is already there never changes a verdict. */
  lemma AppendWalk(chain: seq<Entry>, e: Entry, sub: Option<Verdict>, p: Packet)
    requires e.target.Jump?
    ensures Walk(Append(chain, e), sub, p) == OrElse(Walk(chain, sub, p), Walk([e], sub, p))
  {
    if e in chain {
      if EntryHits(e, p) {
        WalkMember(chain, e, sub, p);
      }
    } else {
      WalkConcat(chain, [e], sub, p);
    }
  }

  // ----- apply_iptables -----

  /** The entries one rule turns into, in the order they are appended. */
  function Entries(r: Rule): seq<Entry> {
    if r.port == 0 then
      (if r.action == Reject then [Entry(false, r.dest, Some(Tcp), None, Jump(Reject, true))] else [])
      + [Entry(false, r.dest, None, None, Jump(r.action, false))]
    else
      [Entry(false, r.dest, Some(Tcp), Some(r.port), Jump(r.action, r.action == Reject)),
       Entry(false, r.dest, Some(Udp), Some(r.port), Jump(r.action, false))]
  }

  function AppendAll(chain: seq<Entry>, es: seq<Entry>): seq<Entry>
    decreases |es|
  {
    if es == [] then chain else AppendAll(Append(chain, es[0]), es[1..])
  }

  function Applied(pair: ChainPair, r: Rule): ChainPair {
    if r.dest.Any? then pair.(main := AppendAll(pair.main, Entries(r)))
    else pair.(sub := AppendAll(pair.sub, Entries(r)))
  }

  lemma {:induction false} AppendAllWalk(chain: seq<Entry>, es: seq<Entry>, sub: Option<Verdict>, p: Packet)
    requires Plain(es)
    ensures Walk(AppendAll(chain, es), sub, p) == OrElse(Walk(chain, sub, p), Walk(es, sub, p))
    decreases |es|
  {
    if es != [] {
      AppendAllWalk(Append(chain, es[0]), es[1..], sub, p);
      AppendWalk(chain, es[0], sub, p);
      assert [es[0]] + es[1..] == es;
      WalkConcat([es[0]], es[1..], sub, p);
    }
  }

  /** Splitting a rule into tcp, udp and reset entries keeps its meaning. */
  lemma EntriesMeanRule(r: Rule, sub: Option<Verdict>, p: Packet)
    ensures Plain(Entries(r))
    ensures Walk(Entries(r), sub, p) == if RuleHits(r, r.direction, p) then Some(RuleVerdict(r.action, p)) else None
  {
    var es := Entries(r);
    if |es| == 1 {
      WalkOne(es[0], sub, p);
      assert es == [es[0]];
    } else {
      assert es == [es[0]] + [es[1]];
      WalkConcat([es[0]], [es[1]], sub, p);
      WalkOne(es[0], sub, p);
      WalkOne(es[1], sub, p);
    }
  }

  lemma WalkOne(e: Entry, sub: Option<Verdict>, p: Packet)
    requires e.target.Jump?
    ensures Walk([e], sub, p) == if EntryHits(e, p) then Some(EntryVerdict(e.target.action, e.target.tcpReset)) else None
  {
    assert [e][1..] == [];
  }

  // ----- Which chains apply_iptables names -----

  const PREFIX := "runvirt-"
  const SUFFIXES: seq<string> := ["INPUT", "OUTPUT", "INPUT-sub", "OUTPUT-sub"]

  /** setup_chains creates a chain of this name. */
  predicate Created(chain: string) {
    exists i :: 0 <= i < |SUFFIXES| && chain == PREFIX + SUFFIXES[i]
  }

  /** The chain apply_iptables appends to. */
  function ChainName(direction: string, wildcard: bool): string {
    PREFIX + if wildcard then direction else direction + "-sub"
  }

  lemma CreatedSuffix(suffix: string)
    ensures Created(PREFIX + suffix) <==> suffix in SUFFIXES
  {
    assert (PREFIX + suffix)[|PREFIX|..] == suffix;
    forall i | 0 <= i < |SUFFIXES|
      ensures PREFIX + suffix == PREFIX + SUFFIXES[i] <==> suffix == SUFFIXES[i]
    {
      assert (PREFIX + SUFFIXES[i])[|PREFIX|..] == SUFFIXES[i];
    }
  }

  /** apply_iptables finds its chain exactly for the directions INPUT and OUTPUT
      (or their -sub forms, for wildcard rules); so not for IN and OUT. */
  lemma ChainExists(direction: string, wildcard: bool)
    ensures Created(ChainName(direction, wildcard)) <==>
            direction in ["INPUT", "OUTPUT"] || (wildcard && direction in ["INPUT-sub", "OUTPUT-sub"])
  {
    var suffix := if wildcard then direction else direction + "-sub";
    CreatedSuffix(suffix);
    if !wildcard {
      assert suffix[..|suffix| - 4] == direction && suffix[|suffix| - 4] == '-';
      assert "INPUT-sub"[..5] == "INPUT" && "OUTPUT-sub"[..6] == "OUTPUT";
      assert "INPUT" + "-sub" == "INPUT-sub" && "OUTPUT" + "-sub" == "OUTPUT-sub";
    }
  }

  // ----- process_rules -----

  datatype Tool = Iptables | Ip6tables

  function AddressBytes(tool: Tool): nat {
    if tool == Iptables then 4 else 16
  }

  /** get_ip_version finds a version. */
  predicate IsAddress(dest: Dest) {
    dest.Any? || |dest.address| == 4 || |dest.address| == 16
  }

  predicate Relevant(r: Rule, tool: Tool, direction: Direction) {
    r.direction == direction && (r.dest.Any? || |r.dest.address| == AddressBytes(tool))
  }

  function Compiled(pair: ChainPair, rules: seq<Rule>, tool: Tool, direction: Direction): ChainPair
    decreases |rules|
  {
    if rules == [] then pair
    else Compiled(if Relevant(rules[0], tool, direction) then Applied(pair, rules[0]) else pair, rules[1..], tool, direction)
  }

  lemma {:induction false} CompiledConcat(pair: ChainPair, rules: seq<Rule>, r: Rule, tool: Tool, direction: Direction)
    ensures Compiled(pair, rules + [r], tool, direction) ==
            var before := Compiled(pair, rules, tool, direction);
            if Relevant(r, tool, direction) then Applied(before, r) else before
    decreases |rules|
  {
    if rules == [] {
      assert rules + [r] == [r] && [r][1..] == [];
    } else {
      assert (rules + [r])[1..] == rules[1..] + [r];
      CompiledConcat(if Relevant(rules[0], tool, direction) then Applied(pair, rules[0]) else pair, rules[1..], r, tool, direction);
    }
  }

  lemma {:induction false} CompiledSplit(pair: ChainPair, a: seq<Rule>, b: seq<Rule>, tool: Tool, direction: Direction)
    ensures Compiled(pair, a + b, tool, direction) == Compiled(Compiled(pair, a, tool, direction), b, tool, direction)
    decreases |a|
  {
    if a == [] {
      assert a + b == b;
    } else {
      assert (a + b)[1..] == a[1..] + b;
      CompiledSplit(if Relevant(a[0], tool, direction) then Applied(pair, a[0]) else pair, a[1..], b, tool, direction);
    }
  }

  /** Each chain answers as before, or else with the first hit among its own kind of rules. */
  lemma {:induction false} CompiledWalk(pair: ChainPair, rules: seq<Rule>, tool: Tool, direction: Direction,
                                        sub: Option<Verdict>, p: Packet)
    requires |p.peer| == AddressBytes(tool)
    ensures var after := Compiled(pair, rules, tool, direction);
            && Walk(after.sub, sub, p) == OrElse(Walk(pair.sub, sub, p), FirstHit(rules, false, direction, p))
            && Walk(after.main, sub, p) == OrElse(Walk(pair.main, sub, p), FirstHit(rules, true, direction, p))
    decreases |rules|
  {
    if rules != [] {
      var r := rules[0];
      if Relevant(r, tool, direction) {
        CompiledWalk(Applied(pair, r), rules[1..], tool, direction, sub, p);
        EntriesMeanRule(r, sub, p);
        AppendAllWalk(pair.main, Entries(r), sub, p);
        AppendAllWalk(pair.sub, Entries(r), sub, p);
      } else {
        CompiledWalk(pair, rules[1..], tool, direction, sub, p);
      }
    }
  }

  /** The compiled pair gives every packet the verdict the rule list means. */
  lemma CompiledMeaning(rules: seq<Rule>, tool: Tool, direction: Direction, p: Packet)
    requires |p.peer| == AddressBytes(tool)
    ensures PairVerdict(Compiled(INITIAL, rules, tool, direction), p) ==
            if p.loopback then Some(Accepted) else Meaning(rules, direction, p)
  {
    var after := Compiled(INITIAL, rules, tool, direction);
    CompiledWalk(INITIAL, rules, tool, direction, None, p);
    var sub := Walk(after.sub, None, p);
    CompiledWalk(INITIAL, rules, tool, direction, sub, p);
    assert INITIAL.main == [INITIAL.main[0]] + [INITIAL.main[1]];
    WalkConcat([INITIAL.main[0]], [INITIAL.main[1]], sub, p);
    WalkOne(INITIAL.main[0], sub, p);
    assert [INITIAL.main[1]][1..] == [];
  }

  function Dedup(rules: seq<Rule>): seq<Rule> {
    if rules == [] then []
    else
      var front, r := Dedup(rules[..|rules| - 1]), rules[|rules| - 1];
      if r in front then front else front + [r]
  }

  ghost function OneHit(r: Rule, wildcard: bool, direction: Direction, p: Packet): Option<Verdict> {
    if r.dest.Any? == wildcard && RuleHits(r, direction, p) then Some(RuleVerdict(r.action, p)) else None
  }

  lemma {:induction false} FirstHitConcat(a: seq<Rule>, b: seq<Rule>, wildcard: bool, direction: Direction, p: Packet)
    ensures FirstHit(a + b, wildcard, direction, p) == OrElse(FirstHit(a, wildcard, direction, p), FirstHit(b, wildcard, direction, p))
    decreases |a|
  {
    if a == [] {
      assert a + b == b;
    } else {
      assert (a + b)[1..] == a[1..] + b;
      FirstHitConcat(a[1..], b, wildcard, direction, p);
    }
  }

  lemma {:induction false} FirstHitMember(rules: seq<Rule>, r: Rule, wildcard: bool, direction: Direction, p: Packet)
    requires r in rules && OneHit(r, wildcard, direction, p).Some?
    ensures FirstHit(rules, wildcard, direction, p).Some?
    decreases |rules|
  {
    if rules[0] != r {
      assert r in rules[1..];
      FirstHitMember(rules[1..], r, wildcard, direction, p);
    }
  }

  /** Dropping repeated rules keeps the first hit. */
  lemma {:induction false} DedupFirstHit(rules: seq<Rule>, wildcard: bool, direction: Direction, p: Packet)
    ensures FirstHit(Dedup(rules), wildcard, direction, p) == FirstHit(rules, wildcard, direction, p)
    decreases |rules|
  {
    if rules != [] {
      var front, r := rules[..|rules| - 1], rules[|rules| - 1];
      DedupFirstHit(front, wildcard, direction, p);
      assert front + [r] == rules && [r][1..] == [];
      FirstHitConcat(front, [r], wildcard, direction, p);
      if r in Dedup(front) {
        if OneHit(r, wildcard, direction, p).Some? {
          FirstHitMember(Dedup(front), r, wildcard, direction, p);
        }
      } else {
        FirstHitConcat(Dedup(front), [r], wildcard, direction, p);
      }
    }
  }

  /** From the gathered rules to the verdict of the chains, duplicates and all. */
  lemma FirewallVerdict(autoRules: seq<Rule>, remoteRules: seq<Rule>, tool: Tool, direction: Direction, p: Packet)
    requires |p.peer| == AddressBytes(tool)
    ensures PairVerdict(Compiled(INITIAL, Dedup(autoRules) + remoteRules, tool, direction), p) ==
            if p.loopback then Some(Accepted) else Meaning(autoRules + remoteRules, direction, p)
  {
    CompiledMeaning(Dedup(autoRules) + remoteRules, tool, direction, p);
    forall wildcard: bool
      ensures FirstHit(Dedup(autoRules) + remoteRules, wildcard, direction, p) ==
              FirstHit(autoRules + remoteRules, wildcard, direction, p)
    {
      FirstHitConcat(Dedup(autoRules), remoteRules, wildcard, direction, p);
      FirstHitConcat(autoRules, remoteRules, wildcard, direction, p);
      DedupFirstHit(autoRules, wildcard, direction, p);
    }
  }

  // ----- The deciding rule, spelled out -----

  /** Direction, network, and for a rule with a port the port of a tcp or udp packet. */
  ghost predicate Concerns(r: Rule, direction: Direction, p: Packet) {
    && r.direction == direction
    && (r.dest.Net? ==>
          && |p.peer| == |r.dest.address|
          && var bits := 8 * |p.peer|; var low := Pow2(if r.dest.prefix < bits then bits - r.dest.prefix else 0);
             Value(p.peer) / low == Value(r.dest.address) / low)
    && (r.port == 0 || (p.port == r.port && (p.proto == Tcp || p.proto == Udp)))
  }

  lemma ConcernsIsHit(r: Rule, direction: Direction, p: Packet)
    ensures Concerns(r, direction, p) <==> RuleHits(r, direction, p)
  {
  }

  lemma {:induction false} FirstHitAt(rules: seq<Rule>, wildcard: bool, direction: Direction, p: Packet, k: nat)
    requires k <= |rules| && forall i :: 0 <= i < k ==> rules[i].dest.Any? != wildcard || !Concerns(rules[i], direction, p)
    requires k < |rules| ==> rules[k].dest.Any? == wildcard && Concerns(rules[k], direction, p)
    ensures FirstHit(rules, wildcard, direction, p) == if k < |rules| then Some(RuleVerdict(rules[k].action, p)) else None
    decreases |rules|
  {
    if rules != [] {
      ConcernsIsHit(rules[0], direction, p);
      if k > 0 {
        FirstHitAt(rules[1..], wildcard, direction, p, k - 1);
      }
    }
  }

  /** The compiled chains answer with the first specific rule that concerns the packet, at
      position k, else with the first such wildcard rule, at position w; tcp is refused
      with a reset. */
  lemma DecidingRule(rules: seq<Rule>, tool: Tool, direction: Direction, p: Packet, k: nat, w: nat)
    requires |p.peer| == AddressBytes(tool) && !p.loopback && k <= |rules| && w <= |rules|
    requires forall i :: 0 <= i < k ==> rules[i].dest.Any? || !Concerns(rules[i], direction, p)
    requires k < |rules| ==> !rules[k].dest.Any? && Concerns(rules[k], direction, p)
    requires forall i :: 0 <= i < w ==> !rules[i].dest.Any? || !Concerns(rules[i], direction, p)
    requires w < |rules| ==> rules[w].dest.Any? && Concerns(rules[w], direction, p)
    ensures var d := if k < |rules| then k else w;
            var verdict := PairVerdict(Compiled(INITIAL, rules, tool, direction), p);
            if d == |rules| then verdict == None
            else match rules[d].action
              case Accept => verdict == Some(Accepted)
              case Drop => verdict == Some(Dropped)
              case Reject => verdict == Some(Refused(p.proto == Tcp))
  {
    CompiledMeaning(rules, tool, direction, p);
    FirstHitAt(rules, false, direction, p, k);
    FirstHitAt(rules, true, direction, p, w);
  }

  /** Whether DNS is blocked by default: decided by the first wildcard rule. */
  function BlockAll(rules: seq<Rule>): Option<bool> {
    if rules == [] then None
    else
      var front, r := BlockAll(rules[..|rules| - 1]), rules[|rules| - 1];
      if front.None? && r.dest.Any? then Some(r.action != Accept) else front
  }

  /** Without hostname rules there is nothing to resolve, so the DNS servers are
      allowed for good. */
  function DnsRule(server: Bytes): Rule {
    Rule(Out, Net(server, 8 * |server|), 53, Accept)
  }

  function DnsRules(servers: seq<Bytes>): (r: seq<Rule>)
    ensures |r| == |servers|
  {
    seq(|servers|, i requires 0 <= i < |servers| => DnsRule(servers[i]))
  }

  lemma {:induction false} DnsRulesAccept(rules: seq<Rule>, server: Bytes, p: Packet, k: nat)
    requires k < |rules| && rules[k] == DnsRule(server)
    requires p.peer == server && p.proto != OtherProto && p.port == 53
    requires forall i :: 0 <= i < |rules| ==> exists ip :: rules[i] == DnsRule(ip)
    ensures FirstHit(rules, false, Out, p) == Some(Accepted)
    decreases |rules|
  {
    var ip :| rules[0] == DnsRule(ip);
    if k > 0 && !RuleHits(rules[0], Out, p) {
      DnsRulesAccept(rules[1..], server, p, k - 1);
    }
  }

  /** A packet to port 53 of a configured DNS server that no specific rule mentions is let through. */
  lemma DnsServerAllowed(rules: seq<Rule>, servers: seq<Bytes>, p: Packet)
    requires p.peer in servers && (p.proto == Tcp || p.proto == Udp) && p.port == 53
    requires FirstHit(rules, false, Out, p) == None
    ensures Meaning(rules + DnsRules(servers), Out, p) == Some(Accepted)
  {
    var k :| 0 <= k < |servers| && servers[k] == p.peer;
    var dns := DnsRules(servers);
    assert forall i :: 0 <= i < |dns| ==> dns[i] == DnsRule(servers[i]);
    DnsRulesAccept(dns, p.peer, p, k);
    FirstHitConcat(rules, dns, false, Out, p);
  }

  /** block_all is what the first wildcard rule says, if there is one. */
  lemma {:induction false} BlockAllIsFirst(rules: seq<Rule>, k: nat)
    requires k <= |rules| && forall i :: 0 <= i < k ==> rules[i].dest != Any
    requires k < |rules| ==> rules[k].dest == Any
    ensures BlockAll(rules) == if k == |rules| then None else Some(rules[k].action == Drop || rules[k].action == Reject)
    decreases |rules|
  {
    if rules != [] {
      BlockAllIsFirst(rules[..|rules| - 1], if k == |rules| then k - 1 else k);
    }
  }

  /** Chains of one tool and direction. */
  datatype Key = Key(tool: Tool, direction: Direction)

  ghost predicate HasAllChains(chains: map<Key, ChainPair>) {
    forall k: Key :: k in chains
  }

  lemma OneOfFour(k: Key)
    ensures k in {Key(Iptables, In), Key(Iptables, Out), Key(Ip6tables, In), Key(Ip6tables, Out)}
  {
    match k {
      case Key(Iptables, In) =>
      case Key(Iptables, Out) =>
      case Key(Ip6tables, In) =>
      case Key(Ip6tables, Out) =>
    }
  }

  /** `chains` are the pairs apply_iptables appends to, laid out as setup_chains
      lays out its own; see ChainExists for when they are the same. */
  class FirewallManager {
    var autoRules: seq<Rule>
    var remoteRules: seq<Rule>
    var chains: map<Key, ChainPair>
    var blockAll: Option<bool>
    const dnsConfigured: bool
    const dnsServers: seq<Bytes>

    /** The rules that a DNS configuration adds at the end. */
    function Extra(): seq<Rule> {
      if dnsConfigured then DnsRules(dnsServers) else []
    }

    /** Every pair is freshly laid out and the rules are gathered. */
    constructor (autoRules: seq<Rule>, remoteRules: seq<Rule>, dnsConfigured: bool, dnsServers: seq<Bytes>)
      ensures HasAllChains(chains) && blockAll == None && this.dnsConfigured == dnsConfigured && this.dnsServers == dnsServers
      ensures this.autoRules == autoRules && this.remoteRules == remoteRules
      ensures forall k: Key :: chains[k] == INITIAL
    {
      this.autoRules, this.remoteRules := autoRules, remoteRules;
      this.dnsConfigured, this.dnsServers := dnsConfigured, dnsServers;
      chains := map[Key(Iptables, In) := INITIAL, Key(Iptables, Out) := INITIAL,
                    Key(Ip6tables, In) := INITIAL, Key(Ip6tables, Out) := INITIAL];
      blockAll := None;
      new;
      forall k: Key
        ensures k in chains && chains[k] == INITIAL
      {
        OneOfFour(k);
      }
    }

    /** One `-C` and, when that fails, `-A`. */
    method CheckAppend(key: Key, inSub: bool, e: Entry)
      requires HasAllChains(chains)
      modifies this`chains
      ensures HasAllChains(chains)
      ensures var before := old(chains)[key];
              chains == old(chains)[key :=
                if inSub then before.(sub := Append(before.sub, e)) else before.(main := Append(before.main, e))]
    {
      var pair := chains[key];
      if inSub {
        if e !in pair.sub {
          pair := pair.(sub := pair.sub + [e]);
        }
      } else {
        if e !in pair.main {
          pair := pair.(main := pair.main + [e]);
        }
      }
      chains := chains[key := pair];
    }

    method ApplyIptables(tool: Tool, r: Rule)
      requires HasAllChains(chains)
      modifies this`chains
      ensures HasAllChains(chains)
      ensures chains == old(chains)[Key(tool, r.direction) := Applied(old(chains)[Key(tool, r.direction)], r)]
    {
      var key := Key(tool, r.direction);
      var inSub := r.dest != Any;
      ghost var pair := chains[key];
      ghost var chain := if inSub then pair.sub else pair.main;
      AppendSteps(chain, Entries(r));
      if r.port == 0 {
        if r.action == Reject {
          CheckAppend(key, inSub, Entry(false, r.dest, Some(Tcp), None, Jump(Reject, true)));
        }
        CheckAppend(key, inSub, Entry(false, r.dest, None, None, Jump(r.action, false)));
      } else {
        CheckAppend(key, inSub, Entry(false, r.dest, Some(Tcp), Some(r.port), Jump(r.action, r.action == Reject)));
        CheckAppend(key, inSub, Entry(false, r.dest, Some(Udp), Some(r.port), Jump(r.action, false)));
      }
    }

    /** The body of the loop over all rules. */
    method ProcessRule(r: Rule)
      requires HasAllChains(chains) && IsAddress(r.dest)
      modifies this`chains, this`blockAll
      ensures HasAllChains(chains)
      ensures forall k: Key :: chains[k] ==
                if Relevant(r, k.tool, k.direction) then Applied(old(chains)[k], r) else old(chains)[k]
      ensures blockAll == if dnsConfigured && old(blockAll).None? && r.dest.Any? then Some(r.action != Accept) else old(blockAll)
    {
      if r.dest == Any && dnsConfigured {
        if blockAll == None {
          blockAll := Some(r.action != Accept);
        }
      }
      if r.dest == Any || |r.dest.address| == 4 {
        ApplyIptables(Iptables, r);
      }
      if r.dest == Any || |r.dest.address| == 16 {
        ApplyIptables(Ip6tables, r);
      }
      forall k: Key
        ensures chains[k] == if Relevant(r, k.tool, k.direction) then Applied(old(chains)[k], r) else old(chains)[k]
      {
        OneOfFour(k);
      }
    }

    /** Automatic rules without repetitions, then the downloaded ones. */
    method GatherRules() returns (allRules: seq<Rule>)
      ensures allRules == Dedup(autoRules) + remoteRules
      ensures forall r :: r in allRules ==> r in autoRules + remoteRules
    {
      allRules := [];
      var seen: set<Rule> := {};
      for i := 0 to |autoRules|
        invariant allRules == Dedup(autoRules[..i])
        invariant seen == set r | r in allRules
        invariant forall r :: r in allRules ==> r in autoRules
      {
        assert autoRules[..i + 1][..i] == autoRules[..i];
        var r := autoRules[i];
        if r !in seen {
          allRules := allRules + [r];
          seen := seen + {r};
        }
      }
      assert autoRules[..|autoRules|] == autoRules;
      allRules := allRules + remoteRules;
    }

    /** The loop over all rules. */
    method ApplyRules(allRules: seq<Rule>)
      requires HasAllChains(chains)
      requires forall r :: r in allRules ==> IsAddress(r.dest)
      modifies this`chains, this`blockAll
      ensures HasAllChains(chains)
      ensures forall k: Key :: chains[k] == Compiled(old(chains)[k], allRules, k.tool, k.direction)
      ensures dnsConfigured && old(blockAll) == None ==> blockAll == BlockAll(allRules)
      ensures !dnsConfigured ==> blockAll == old(blockAll)
    {
      for i := 0 to |allRules|
        invariant HasAllChains(chains)
        invariant forall k: Key :: chains[k] == Compiled(old(chains)[k], allRules[..i], k.tool, k.direction)
        invariant dnsConfigured && old(blockAll) == None ==> blockAll == BlockAll(allRules[..i])
        invariant !dnsConfigured ==> blockAll == old(blockAll)
      {
        var r := allRules[i];
        assert r in allRules;
        assert allRules[..i + 1] == allRules[..i] + [r] && allRules[..i + 1][..i] == allRules[..i];
        forall k: Key
          ensures Compiled(old(chains)[k], allRules[..i + 1], k.tool, k.direction) ==
                  if Relevant(r, k.tool, k.direction) then Applied(chains[k], r) else chains[k]
        {
          CompiledConcat(old(chains)[k], allRules[..i], r, k.tool, k.direction);
        }
        ProcessRule(r);
      }
      assert allRules[..|allRules|] == allRules;
    }

    /** The rules that let the DNS servers through. */
    method AllowDns()
      requires HasAllChains(chains)
      requires forall ip :: ip in dnsServers ==> |ip| == 4 || |ip| == 16
      modifies this`chains
      ensures HasAllChains(chains)
      ensures forall k: Key :: chains[k] == Compiled(old(chains)[k], DnsRules(dnsServers), k.tool, k.direction)
    {
      ghost var rules := DnsRules(dnsServers);
      for i := 0 to |dnsServers|
        invariant HasAllChains(chains)
        invariant forall k: Key :: chains[k] == Compiled(old(chains)[k], rules[..i], k.tool, k.direction)
      {
        var ip := dnsServers[i];
        assert ip in dnsServers;
        assert rules[..i + 1] == rules[..i] + [DnsRule(ip)];
        forall k: Key
          ensures Compiled(old(chains)[k], rules[..i + 1], k.tool, k.direction) ==
                  if Relevant(DnsRule(ip), k.tool, k.direction) then Applied(chains[k], DnsRule(ip)) else chains[k]
        {
          CompiledConcat(old(chains)[k], rules[..i], DnsRule(ip), k.tool, k.direction);
        }
        ApplyIptables(if |ip| == 4 then Iptables else Ip6tables, DnsRule(ip));
      }
      assert rules[..|dnsServers|] == rules;
    }

    method ProcessRules()
      requires HasAllChains(chains)
      requires forall r :: r in autoRules + remoteRules ==> IsAddress(r.dest)
      requires forall ip :: ip in dnsServers ==> |ip| == 4 || |ip| == 16
      modifies this`chains, this`blockAll
      ensures HasAllChains(chains)
      ensures forall k: Key ::
                chains[k] == Compiled(old(chains)[k], Dedup(autoRules) + (remoteRules + Extra()), k.tool, k.direction)
      ensures dnsConfigured && old(blockAll) == None ==> blockAll == BlockAll(Dedup(autoRules) + remoteRules)
      ensures !dnsConfigured ==> blockAll == old(blockAll)
      ensures (forall k: Key :: old(chains)[k] == INITIAL) ==>
                forall k: Key, p: Packet :: |p.peer| == AddressBytes(k.tool) ==>
                  PairVerdict(chains[k], p) ==
                    if p.loopback then Some(Accepted) else Meaning(autoRules + (remoteRules + Extra()), k.direction, p)
      ensures (forall k: Key :: old(chains)[k] == INITIAL) && dnsConfigured ==>
                forall tool: Tool, p: Packet ::
                  && |p.peer| == AddressBytes(tool) && p.peer in dnsServers && p.port == 53 && (p.proto == Tcp || p.proto == Udp)
                  && FirstHit(autoRules + remoteRules, false, Out, p) == None ==>
                  PairVerdict(chains[Key(tool, Out)], p) == Some(Accepted)
    {
      var allRules := GatherRules();
      ApplyRules(allRules);
      if dnsConfigured {
        AllowDns();
      }
      assert allRules + Extra() == Dedup(autoRules) + (remoteRules + Extra());
      forall k: Key
        ensures chains[k] == Compiled(old(chains)[k], allRules + Extra(), k.tool, k.direction)
      {
        CompiledSplit(old(chains)[k], allRules, Extra(), k.tool, k.direction);
      }
      forall k: Key, p: Packet | old(chains)[k] == INITIAL && |p.peer| == AddressBytes(k.tool)
        ensures PairVerdict(chains[k], p) ==
                  if p.loopback then Some(Accepted) else Meaning(autoRules + (remoteRules + Extra()), k.direction, p)
      {
        FirewallVerdict(autoRules, remoteRules + Extra(), k.tool, k.direction, p);
      }
      assert autoRules + (remoteRules + Extra()) == (autoRules + remoteRules) + Extra();
      forall p: Packet | dnsConfigured && p.peer in dnsServers && p.port == 53 && (p.proto == Tcp || p.proto == Udp)
                         && FirstHit(autoRules + remoteRules, false, Out, p) == None
        ensures Meaning(autoRules + (remoteRules + Extra()), Out, p) == Some(Accepted)
      {
        DnsServerAllowed(autoRules + remoteRules, dnsServers, p);
      }
    }
  }

  lemma AppendSteps(chain: seq<Entry>, es: seq<Entry>)
    requires 1 <= |es| <= 2
    ensures AppendAll(chain, es) ==
            if |es| == 1 then Append(chain, es[0]) else Append(Append(chain, es[0]), es[1])
  {
    if |es| == 1 {
      assert es[1..] == [];
    } else {
      assert es[1..][0] == es[1] && es[1..][1..] == [];
      assert AppendAll(Append(chain, es[0]), es[1..]) == AppendAll(Append(Append(chain, es[0]), es[1]), []);
    }
  }
}
