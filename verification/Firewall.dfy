/**
 * The firewall script generator and the INPUT chain it edits.
 *
 * A configuration is compiled to a list of iptables commands; running them edits
 * a first-match chain in place. Rules of other services (and packet matching that
 * depends on kernel counters) enter as parameters.
 */
module Firewall {
  import opened Prelude
  import opened PortText
  import opened Ipv4

  // ---------------------------------------------------------------- packets and rules

  datatype Proto = Tcp | Udp | Icmp | Vrrp | OtherProto

  /** A packet with the kernel's bookkeeping about it: connection state and the two rate counters. */
  datatype Packet = Packet(
    iface: string, proto: Proto, src: Addr, dst: Addr, dport: nat,
    established: bool, isNew: bool, invalid: bool,
    sshOverRate: bool, icmpWithinLimit: bool)

  datatype Verdict = Accept | Drop

  datatype Match =
    | InIface(pattern: string)
    | Established
    | Invalid
    | ProtoIs(proto: Proto)
    | ToNet(net: string)
    | FromNet(net: string)
    | ToPort(proto: Proto, port: nat)
    | SshRecord
    | SshOverRate
    | IcmpLimited
    | PortRuleMatch(proto: Proto, ports: PortRange, source: string, comment: string)

  /** A rule this tool writes, or one of another service. A rule without a target only has side effects. */
  datatype Rule =
    | Own(m: Match, target: Option<Verdict>)
    | Foreign(id: nat)

  /** What the machine adds: the effect of foreign rules, and how iptables resolves a network name. */
  datatype Host = Host(foreign: (nat, Packet) -> Option<Verdict>, net: string -> Option<Cidr>)

  /** The four literal networks of the generator resolve to what they say. */
  ghost predicate StandardNets(h: Host) {
    && h.net("10.0.0.0/8") == Some(NET10)
    && h.net("172.16.0.0/12") == Some(NET172)
    && h.net("192.168.0.0/16") == Some(NET192)
    && h.net("100.64.0.0/10") == Some(NET100)
  }

  predicate InNet(h: Host, net: string, a: Addr) {
    match h.net(net)
    case Some(c) => c.Contains(a)
    case None => false
  }

  /** A trailing `+` in an interface pattern is a wildcard. */
  predicate IfaceMatches(pattern: string, iface: string) {
    if pattern != [] && pattern[|pattern| - 1] == '+' then pattern[..|pattern| - 1] <= iface else pattern == iface
  }

  predicate Matches(h: Host, m: Match, p: Packet) {
    match m
    case InIface(pattern) => IfaceMatches(pattern, p.iface)
    case Established => p.established
    case Invalid => p.invalid
    case ProtoIs(proto) => p.proto == proto
    case ToNet(net) => InNet(h, net, p.dst)
    case FromNet(net) => InNet(h, net, p.src)
    case ToPort(proto, port) => p.proto == proto && p.dport == port
    case SshRecord => p.proto == Tcp && p.dport == 22 && p.isNew
    case SshOverRate => p.proto == Tcp && p.dport == 22 && p.isNew && p.sshOverRate
    case IcmpLimited => p.proto == Icmp && p.icmpWithinLimit
    case PortRuleMatch(proto, ports, source, _) =>
      p.proto == proto && ports.Contains(p.dport) && (source == "" || InNet(h, source, p.src))
  }

  /** What one rule decides about a packet; None sends it on to the next rule. */
  function Effect(h: Host, r: Rule, p: Packet): Option<Verdict> {
    match r
    case Own(m, target) => if Matches(h, m, p) then target else None
    case Foreign(id) => h.foreign(id, p)
  }

  function FirstMatch(h: Host, rules: seq<Rule>, p: Packet): Option<Verdict> {
    if rules == [] then None
    else
      var e := Effect(h, rules[0], p);
      if e.Some? then e else FirstMatch(h, rules[1..], p)
  }

  function OrElse(a: Option<Verdict>, b: Option<Verdict>): Option<Verdict> { if a.Some? then a else b }

  datatype Chain = Chain(rules: seq<Rule>, policy: Verdict)

  function ChainVerdict(h: Host, c: Chain, p: Packet): Verdict {
    var e := FirstMatch(h, c.rules, p);
    if e.Some? then e.value else c.policy
  }

  // ---------------------------------------------------------------- commands

  /**
   * `iptables -C r || iptables -I r`, `iptables -C r || iptables -A r`,
   * `iptables -P`, and the unchecked `iptables -A` of a port rule, whose port,
   * source and action are still the text iptables will read.
   */
  datatype Command =
    | EnsureTop(rule: Rule)
    | EnsureLast(rule: Rule)
    | SetPolicy(policy: Verdict)
    | AppendPort(proto: Proto, portArg: string, source: string, action: string, comment: string)

  /** The actions the configuration documents. */
  function ParseAction(s: string): Option<Verdict> {
    if s == "ACCEPT" then Some(Accept) else if s == "DROP" then Some(Drop) else None
  }

  /** The rule an append command adds, unless iptables refuses its text. */
  function PortRuleOf(h: Host, c: Command): Option<Rule>
    requires c.AppendPort?
  {
    var ports := ParsePortArg(c.portArg);
    var action := ParseAction(c.action);
    if ports.Some? && action.Some? && (c.source == "" || h.net(c.source).Some?) then
      Some(Own(PortRuleMatch(c.proto, ports.value, c.source, c.comment), action))
    else None
  }

  predicate Accepted(h: Host, c: Command) {
    c.AppendPort? ==> PortRuleOf(h, c).Some?
  }

  function Apply(h: Host, st: Chain, c: Command): Chain
    requires Accepted(h, c)
  {
    match c
    case EnsureTop(r) => if r in st.rules then st else st.(rules := [r] + st.rules)
    case EnsureLast(r) => if r in st.rules then st else st.(rules := st.rules + [r])
    case SetPolicy(v) => st.(policy := v)
    case AppendPort(_, _, _, _, _) => st.(rules := st.rules + [PortRuleOf(h, c).value])
  }

  predicate AllAccepted(h: Host, cmds: seq<Command>) { forall c :: c in cmds ==> Accepted(h, c) }

  function ApplyAll(h: Host, st: Chain, cmds: seq<Command>): Chain
    requires AllAccepted(h, cmds)
    decreases cmds
  {
    if cmds == [] then st
    else
      assert forall c :: c in cmds[1..] ==> c in cmds;
      ApplyAll(h, Apply(h, st, cmds[0]), cmds[1..])
  }

  /** `set -e`: the script runs up to the first command iptables refuses. */
  function Executed(h: Host, cmds: seq<Command>): (pre: seq<Command>)
    ensures AllAccepted(h, pre)
    ensures pre <= cmds
    ensures |pre| < |cmds| ==> !Accepted(h, cmds[|pre|])
  {
    if cmds == [] || !Accepted(h, cmds[0]) then [] else [cmds[0]] + Executed(h, cmds[1..])
  }

  function RunScript(h: Host, st: Chain, cmds: seq<Command>): Chain { ApplyAll(h, st, Executed(h, cmds)) }

  // ---------------------------------------------------------------- the generator

  datatype PortItem = FloatItem(f: real) | IntItem(i: int) | TextItem(s: string) | OtherItem

  datatype PortRule = PortRule(
    enabled: bool, protocol: seq<string>, rangeList: seq<PortItem>,
    sources: seq<string>, action: string, comment: string)

  datatype Profile = Profile(enabled: bool, name: string)

  datatype Config = Config(profiles: seq<Profile>, ports: seq<PortRule>)

  function GetAction(r: PortRule): string { if r.action == "" then "ACCEPT" else r.action }

  function GetSources(r: PortRule): seq<string> { if r.sources == [] then ["0.0.0.0/0"] else r.sources }

  const ACCEPTING: Option<Verdict> := Some(Accept)

  /** The safety block, in script order. */
  const SAFETY: seq<Rule> := [
    Own(InIface("lo"), ACCEPTING),
    Own(Established, ACCEPTING),
    Own(ProtoIs(Vrrp), ACCEPTING),
    Own(ToNet("224.0.0.18/32"), ACCEPTING),
    Own(InIface("wt0"), ACCEPTING),
    Own(InIface("wt+"), ACCEPTING),
    Own(InIface("tailscale0"), ACCEPTING),
    Own(InIface("wg0"), ACCEPTING),
    Own(InIface("wg+"), ACCEPTING),
    Own(ToPort(Udp, 51820), ACCEPTING),
    Own(ToPort(Udp, 41641), ACCEPTING),
    Own(InIface("docker0"), ACCEPTING),
    Own(InIface("docker_gwbridge"), ACCEPTING),
    Own(ToPort(Tcp, 2377), ACCEPTING),
    Own(ToPort(Tcp, 7946), ACCEPTING),
    Own(ToPort(Udp, 7946), ACCEPTING),
    Own(ToPort(Udp, 4789), ACCEPTING)]

  function InsertEach(rules: seq<Rule>): seq<Command> {
    if rules == [] then [] else [EnsureTop(rules[0])] + InsertEach(rules[1..])
  }

  const BLOCK_ALL_PUBLIC := "BlockAllPublic"
  const ALLOW_ALL_PRIVATE := "AllowAllPrivate"
  const HARDEN := "Harden"

  /** Commands of a predefined profile; an unknown name has none. */
  function ProfileScript(name: string): seq<Command> {
    if name == BLOCK_ALL_PUBLIC then [SetPolicy(Drop)]
    else if name == ALLOW_ALL_PRIVATE then EnsureEach(PRIVATE_RULES)
    else if name == HARDEN then EnsureEach(HARDEN_RULES)
    else []
  }

  const PRIVATE_RULES: seq<Rule> := [
    Own(FromNet("10.0.0.0/8"), ACCEPTING),
    Own(FromNet("172.16.0.0/12"), ACCEPTING),
    Own(FromNet("192.168.0.0/16"), ACCEPTING),
    Own(FromNet("100.64.0.0/10"), ACCEPTING)]

  const HARDEN_RULES: seq<Rule> := [
    Own(SshRecord, None),
    Own(SshOverRate, Some(Drop)),
    Own(IcmpLimited, ACCEPTING),
    Own(Invalid, Some(Drop))]

  function EnsureEach(rules: seq<Rule>): seq<Command> {
    if rules == [] then [] else [EnsureLast(rules[0])] + EnsureEach(rules[1..])
  }

  function ProfileCommands(p: Profile): seq<Command> { if p.enabled then ProfileScript(p.name) else [] }

  function ExpandSource(src: string): seq<string> {
    if src == "private" then ["10.0.0.0/8", "172.16.0.0/12", "192.168.0.0/16"]
    else if src == "cgnat" then ["100.64.0.0/10"]
    else if src == "any" || src == "" then ["0.0.0.0/0"]
    else [src]
  }

  /** Truncates toward zero, as the conversion from float to int does. */
  function Truncate(f: real): int { if f < 0.0 then -(-f).Floor else f.Floor }

  function ItemText(item: PortItem): Option<string> {
    match item
    case FloatItem(f) => Some(FormatInt(Truncate(f)))
    case IntItem(i) => Some(FormatInt(i))
    case TextItem(s) => Some(s)
    case OtherItem => None
  }

  function ParseProto(s: string): Option<Proto> {
    var l := ToLower(s);
    if l == "tcp" then Some(Tcp) else if l == "udp" then Some(Udp) else None
  }

  function ProtoName(p: Proto): string { if p == Tcp then "TCP" else "UDP" }

  function SourceArg(source: string): string {
    if source == "0.0.0.0/0" || source == "any" || source == "" then "" else source
  }

  function CommentFor(r: PortRule, proto: Proto, portStr: string): string {
    if r.comment == "" then "Custom " + ProtoName(proto) + " port " + portStr else r.comment
  }

  function OneCommand(r: PortRule, proto: Proto, portStr: string, source: string): Command {
    AppendPort(proto, DashToColon(portStr), SourceArg(source), GetAction(r), CommentFor(r, proto, portStr))
  }

  // The three nested loops of the port rule generator, innermost first.

  function PerSource(r: PortRule, proto: Proto, portStr: string): string -> seq<Command> {
    source => [OneCommand(r, proto, portStr, source)]
  }

  function ProtoCommands(r: PortRule, portStr: string, protoText: string): seq<Command> {
    match ParseProto(protoText)
    case Some(proto) => FlatMap(PerSource(r, proto, portStr), FlatMap(ExpandSource, GetSources(r)))
    case None => []
  }

  function PerProto(r: PortRule, portStr: string): string -> seq<Command> {
    protoText => ProtoCommands(r, portStr, protoText)
  }

  function ItemCommands(r: PortRule, item: PortItem): seq<Command> {
    match ItemText(item)
    case Some(portStr) => FlatMap(PerProto(r, portStr), r.protocol)
    case None => []
  }

  function PerItem(r: PortRule): PortItem -> seq<Command> { item => ItemCommands(r, item) }

  function PortRuleCommands(r: PortRule): seq<Command> {
    if r.enabled then FlatMap(PerItem(r), r.rangeList) else []
  }

  function TailCommands(cfg: Config): seq<Command> {
    FlatMap(ProfileCommands, cfg.profiles) + FlatMap(PortRuleCommands, cfg.ports)
  }

  /** A script with the given rules as its safety block. */
  function ScriptWith(safety: seq<Rule>, cfg: Config): seq<Command> { InsertEach(safety) + TailCommands(cfg) }

  function Script(cfg: Config): seq<Command> { ScriptWith(SAFETY, cfg) }

  method ExpandSources(sources: seq<string>) returns (expanded: seq<string>)
    ensures expanded == FlatMap(ExpandSource, sources)
    ensures "private" !in expanded && "cgnat" !in expanded && "any" !in expanded && "" !in expanded
  {
    expanded := [];
    for i := 0 to |sources|
      invariant expanded == FlatMap(ExpandSource, sources[..i])
    {
      var src := sources[i];
      FlatMapSnoc(ExpandSource, sources, i);
      if src == "private" {
        expanded := expanded + ["10.0.0.0/8", "172.16.0.0/12", "192.168.0.0/16"];
      } else if src == "cgnat" {
        expanded := expanded + ["100.64.0.0/10"];
      } else if src == "any" || src == "" {
        expanded := expanded + ["0.0.0.0/0"];
      } else {
        expanded := expanded + [src];
      }
    }
    assert sources[..|sources|] == sources;
    forall s | s in ["private", "cgnat", "any", ""] ensures s !in expanded {
      FlatMapMembers(ExpandSource, sources, s);
    }
    assert forall s :: s in ["private", "cgnat", "any", ""] ==> s !in expanded;
    var names := ["private", "cgnat", "any", ""];
    assert names[0] in names && names[1] in names && names[2] in names && names[3] in names;
  }

  /** The innermost loop: one append per expanded source. */
  method SourceScript(r: PortRule, proto: Proto, portStr: string, expanded: seq<string>)
    returns (commands: seq<Command>)
    ensures commands == FlatMap(PerSource(r, proto, portStr), expanded)
  {
    commands := [];
    for k := 0 to |expanded|
      invariant commands == FlatMap(PerSource(r, proto, portStr), expanded[..k])
    {
      FlatMapSnoc(PerSource(r, proto, portStr), expanded, k);
      commands := commands + [OneCommand(r, proto, portStr, expanded[k])];
    }
    assert expanded[..|expanded|] == expanded;
  }

  /** The middle loop: protocols other than tcp and udp are skipped. */
  method ItemScript(r: PortRule, portStr: string, expanded: seq<string>) returns (commands: seq<Command>)
    requires expanded == FlatMap(ExpandSource, GetSources(r))
    ensures commands == FlatMap(PerProto(r, portStr), r.protocol)
  {
    commands := [];
    for j := 0 to |r.protocol|
      invariant commands == FlatMap(PerProto(r, portStr), r.protocol[..j])
    {
      FlatMapSnoc(PerProto(r, portStr), r.protocol, j);
      var proto := ParseProto(r.protocol[j]);
      if proto.None? { continue; }
      var more := SourceScript(r, proto.value, portStr, expanded);
      commands := commands + more;
    }
    assert r.protocol[..|r.protocol|] == r.protocol;
  }

  method GetPortRuleScript(r: PortRule) returns (commands: seq<Command>)
    ensures commands == FlatMap(PerItem(r), r.rangeList)
  {
    commands := [];
    var expanded := ExpandSources(GetSources(r));
    for i := 0 to |r.rangeList|
      invariant commands == FlatMap(PerItem(r), r.rangeList[..i])
    {
      FlatMapSnoc(PerItem(r), r.rangeList, i);
      var text := ItemText(r.rangeList[i]);
      if text.None? { continue; }
      var more := ItemScript(r, text.value, expanded);
      commands := commands + more;
    }
    assert r.rangeList[..|r.rangeList|] == r.rangeList;
  }

  method ProfileSection(profiles: seq<Profile>) returns (script: seq<Command>)
    ensures script == FlatMap(ProfileCommands, profiles)
  {
    script := [];
    for i := 0 to |profiles|
      invariant script == FlatMap(ProfileCommands, profiles[..i])
    {
      FlatMapSnoc(ProfileCommands, profiles, i);
      if !profiles[i].enabled { continue; }
      script := script + ProfileScript(profiles[i].name);
    }
    assert profiles[..|profiles|] == profiles;
  }

  method PortSection(ports: seq<PortRule>) returns (script: seq<Command>)
    ensures script == FlatMap(PortRuleCommands, ports)
  {
    script := [];
    for i := 0 to |ports|
      invariant script == FlatMap(PortRuleCommands, ports[..i])
    {
      FlatMapSnoc(PortRuleCommands, ports, i);
      if !ports[i].enabled { continue; }
      var commands := GetPortRuleScript(ports[i]);
      script := script + commands;
    }
    assert ports[..|ports|] == ports;
  }

  /** Safety block, then the enabled profiles in order, then the enabled port rules. */
  method ConfigureFirewall(cfg: Config) returns (script: seq<Command>)
    ensures script == Script(cfg)
  {
    var profiles := ProfileSection(cfg.profiles);
    var ports := PortSection(cfg.ports);
    script := InsertEach(SAFETY) + (profiles + ports);
  }

  /** Running a script whose first command is accepted. */
  lemma RunStep(h: Host, st: Chain, script: seq<Command>, rest: seq<Command>)
    requires script != [] && script[1..] == rest && Accepted(h, script[0])
    ensures RunScript(h, st, script) == RunScript(h, Apply(h, st, script[0]), rest)
  {
    assert Executed(h, script)[1..] == Executed(h, rest);
  }

  /** The live INPUT chain, edited in place by the script. */
  class InputChain {
    var rules: seq<Rule>
    var policy: Verdict

    ghost function State(): Chain
      reads this
    {
      Chain(rules, policy)
    }

    constructor (rules: seq<Rule>, policy: Verdict)
      ensures State() == Chain(rules, policy)
    {
      this.rules, this.policy := rules, policy;
    }

    method Run(h: Host, script: seq<Command>) returns (ok: bool)
      modifies this
      ensures State() == RunScript(h, old(State()), script)
      ensures ok == AllAccepted(h, script)
    {
      ghost var start := State();
      var i := 0;
      while i < |script|
        invariant 0 <= i <= |script|
        invariant RunScript(h, start, script) == RunScript(h, State(), script[i..])
        invariant AllAccepted(h, script[..i])
      {
        var c := script[i];
        if !Accepted(h, c) {
          assert c in script;
          return false;
        }
        RunStep(h, State(), script[i..], script[i + 1..]);
        match c {
          case EnsureTop(r) => if r !in rules { rules := [r] + rules; }
          case EnsureLast(r) => if r !in rules { rules := rules + [r]; }
          case SetPolicy(v) => policy := v;
          case AppendPort(_, _, _, _, _) => rules := rules + [PortRuleOf(h, c).value];
        }
        i := i + 1;
      }
      assert script[..i] == script;
      ok := true;
    }
  }
}
