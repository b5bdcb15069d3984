/**
 * What a run of the firewall script means for packets: compiler correctness,
 * re-runs, and safety over any history of runs.
 */
module FirewallMeaning {
  import opened Prelude
  import opened PortText
  import opened Ipv4
  import opened Firewall

  // ---------------------------------------------------------------- the meaning of a configuration

  predicate NumberOpens(i: int, port: nat) {
    if i < 0 then -i <= MAX_PORT && port <= -i else port == i && i <= MAX_PORT
  }

  /** A fractional number opens what is left of it without its fraction. */
  predicate FractionOpens(f: real, port: nat) {
    if f <= -1.0 then -f < 65536.0 && port as real <= -f
    else if f < 1.0 then port == 0
    else port <= MAX_PORT && port as real <= f < port as real + 1.0
  }

  predicate ItemOpens(item: PortItem, port: nat) {
    match item
    case FloatItem(f) => FractionOpens(f, port)
    case IntItem(i) => NumberOpens(i, port)
    case TextItem(s) => TextOpens(s, port)
    case OtherItem => false
  }

  /** A configured text that names the protocol, in letters of either case. */
  predicate NamesProto(t: string, proto: Proto) {
    (proto == Tcp && SameLetters(t, "tcp")) || (proto == Udp && SameLetters(t, "udp"))
  }

  predicate SourceCovers(h: Host, src: string, a: Addr) {
    if src == "private" then InRfc1918(a)
    else if src == "cgnat" then InCgnat(a)
    else src == "any" || src == "" || src == "0.0.0.0/0" || InNet(h, src, a)
  }

  /** The packet is among the protocols, ports and sources of the rule. */
  predicate RuleCovers(h: Host, r: PortRule, p: Packet) {
    && r.enabled
    && (exists item :: item in r.rangeList && ItemOpens(item, p.dport))
    && (exists t :: t in r.protocol && NamesProto(t, p.proto))
    && (r.sources == [] || exists src :: src in r.sources && SourceCovers(h, src, p.src))
  }

  /** A rule accepts what it covers, unless it says to drop it. */
  function RuleAction(r: PortRule): Verdict { if r.action == "DROP" then Drop else Accept }

  /** The action of the first port rule that covers the packet. */
  function PortDecision(h: Host, ports: seq<PortRule>, p: Packet): Option<Verdict> {
    if ports == [] then None
    else if RuleCovers(h, ports[0], p) then Some(RuleAction(ports[0]))
    else PortDecision(h, ports[1..], p)
  }

  function ProfileDecision(profile: Profile, p: Packet): Option<Verdict> {
    if !profile.enabled then None
    else if profile.name == ALLOW_ALL_PRIVATE && (InRfc1918(p.src) || InCgnat(p.src)) then Some(Accept)
    else if profile.name == HARDEN && p.proto == Tcp && p.dport == 22 && p.isNew && p.sshOverRate then Some(Drop)
    else if profile.name == HARDEN && p.proto == Icmp && p.icmpWithinLimit then Some(Accept)
    else if profile.name == HARDEN && p.invalid then Some(Drop)
    else None
  }

  function ProfilesDecision(profiles: seq<Profile>, p: Packet): Option<Verdict> {
    if profiles == [] then None
    else OrElse(ProfileDecision(profiles[0], p), ProfilesDecision(profiles[1..], p))
  }

  predicate BlocksPublic(cfg: Config) { Profile(true, BLOCK_ALL_PUBLIC) in cfg.profiles }

  /** A packet that one of the given rules matches. */
  predicate AnyMatches(h: Host, rules: seq<Rule>, p: Packet) {
    exists r :: r in rules && r.Own? && Matches(h, r.m, p)
  }

  /** A rule of `tops` that the chain does not hold yet, and that matches the packet. */
  predicate MissingMatches(h: Host, tops: seq<Rule>, rules: seq<Rule>, p: Packet) {
    exists r :: r in tops && r !in rules && r.Own? && Matches(h, r.m, p)
  }

  predicate AllAccepting(rules: seq<Rule>) { forall r :: r in rules ==> r.Own? && r.target == Some(Accept) }

  function AcceptIf(b: bool): Option<Verdict> { if b then Some(Accept) else None }

  /** What the machine must answer for a packet after one complete run on the chain `before`. */
  function Specified(h: Host, safety: seq<Rule>, before: Chain, cfg: Config, p: Packet): Verdict {
    var decided :=
      OrElse(AcceptIf(MissingMatches(h, safety, before.rules, p)),
        OrElse(FirstMatch(h, before.rules, p),
          OrElse(ProfilesDecision(cfg.profiles, p), PortDecision(h, cfg.ports, p))));
    if decided.Some? then decided.value
    else if BlocksPublic(cfg) then Drop
    else before.policy
  }

  // ---------------------------------------------------------------- first match

  lemma {:induction false} FirstMatchConcat(h: Host, xs: seq<Rule>, ys: seq<Rule>, p: Packet)
    ensures FirstMatch(h, xs + ys, p) == OrElse(FirstMatch(h, xs, p), FirstMatch(h, ys, p))
  {
    if xs == [] {
      assert xs + ys == ys;
    } else {
      FirstMatchConcat(h, xs[1..], ys, p);
      assert (xs + ys)[1..] == xs[1..] + ys;
    }
  }

  /** A rule that decides is already accounted for by any chain that holds it. */
  lemma {:induction false} HeldRuleDecides(h: Host, xs: seq<Rule>, r: Rule, p: Packet)
    requires r in xs
    ensures Effect(h, r, p).Some? ==> FirstMatch(h, xs, p).Some?
  {
    if r != xs[0] { HeldRuleDecides(h, xs[1..], r, p); }
  }

  lemma {:induction false} UniformFirstMatch(h: Host, xs: seq<Rule>, action: Option<Verdict>, p: Packet)
    requires action.Some?
    requires forall r :: r in xs ==> r.Own? && r.target == action
    ensures FirstMatch(h, xs, p) == if AnyMatches(h, xs, p) then action else None
  {
    if xs != [] {
      UniformFirstMatch(h, xs[1..], action, p);
      assert xs[0] in xs;
      if !Matches(h, xs[0].m, p) && AnyMatches(h, xs, p) {
        var r :| r in xs && r.Own? && Matches(h, r.m, p);
        assert r in xs[1..];
      }
    }
  }

  // ---------------------------------------------------------------- running commands

  lemma {:induction false} ApplyAllConcat(h: Host, st: Chain, a: seq<Command>, b: seq<Command>)
    requires AllAccepted(h, a) && AllAccepted(h, b)
    ensures AllAccepted(h, a + b)
    ensures ApplyAll(h, st, a + b) == ApplyAll(h, ApplyAll(h, st, a), b)
    decreases a
  {
    if a == [] {
      assert a + b == b;
    } else {
      assert AllAccepted(h, a[1..]);
      ApplyAllConcat(h, Apply(h, st, a[0]), a[1..], b);
      assert (a + b)[1..] == a[1..] + b;
    }
  }

  lemma {:induction false} ExecutedAll(h: Host, cmds: seq<Command>)
    requires AllAccepted(h, cmds)
    ensures Executed(h, cmds) == cmds
  {
    if cmds != [] {
      assert cmds[0] in cmds;
      assert AllAccepted(h, cmds[1..]);
      ExecutedAll(h, cmds[1..]);
    }
  }

  lemma {:induction false} ExecutedConcat(h: Host, a: seq<Command>, b: seq<Command>)
    requires AllAccepted(h, a)
    ensures Executed(h, a + b) == a + Executed(h, b)
  {
    if a == [] {
      assert a + b == b;
      assert a + Executed(h, b) == Executed(h, b);
    } else {
      assert a[0] in a;
      ExecutedConcat(h, a[1..], b);
      ExecutedFirst(h, a, b);
      assert a == [a[0]] + a[1..];
    }
  }

  lemma ExecutedFirst(h: Host, a: seq<Command>, b: seq<Command>)
    requires a != [] && Accepted(h, a[0])
    ensures Executed(h, a + b) == [a[0]] + Executed(h, a[1..] + b)
  {
    var all := a + b;
    assert all[0] == a[0] && all[1..] == a[1..] + b;
  }

  /** The rules a list of tail commands puts on the chain, duplicates included. */
  function TailRules(h: Host, cmds: seq<Command>): seq<Rule>
    requires AllAccepted(h, cmds)
    decreases cmds
  {
    if cmds == [] then []
    else
      assert cmds[0] in cmds && AllAccepted(h, cmds[1..]);
      (match cmds[0]
       case EnsureTop(r) => []
       case EnsureLast(r) => [r]
       case SetPolicy(_) => []
       case AppendPort(_, _, _, _, _) => [PortRuleOf(h, cmds[0]).value]) + TailRules(h, cmds[1..])
  }

  predicate IsTail(cmds: seq<Command>) {
    forall c :: c in cmds ==> !c.EnsureTop? && (c.SetPolicy? ==> c.policy == Drop)
  }

  lemma {:induction false} TailRulesConcat(h: Host, a: seq<Command>, b: seq<Command>)
    requires AllAccepted(h, a) && AllAccepted(h, b)
    ensures AllAccepted(h, a + b)
    ensures TailRules(h, a + b) == TailRules(h, a) + TailRules(h, b)
    decreases a
  {
    if a == [] {
      assert a + b == b;
    } else {
      assert a[0] in a && AllAccepted(h, a[1..]);
      TailRulesConcat(h, a[1..], b);
      assert (a + b)[1..] == a[1..] + b;
    }
  }

  lemma OnceAccepted(h: Host, c: Command)
    requires Accepted(h, c)
    ensures AllAccepted(h, [c])
    ensures TailRules(h, [c]) == match c
      case EnsureTop(_) => []
      case EnsureLast(r) => [r]
      case SetPolicy(_) => []
      case AppendPort(_, _, _, _, _) => [PortRuleOf(h, c).value]
  {
    assert [c][1..] == [];
  }

  /** Tail commands never reorder or remove: the verdict is the old one, then that of the added rules. */
  lemma {:induction false} TailRun(h: Host, st: Chain, cmds: seq<Command>, p: Packet)
    requires AllAccepted(h, cmds) && IsTail(cmds)
    ensures var after := ApplyAll(h, st, cmds);
      && st.rules <= after.rules
      && FirstMatch(h, after.rules, p) == OrElse(FirstMatch(h, st.rules, p), FirstMatch(h, TailRules(h, cmds), p))
      && (forall r :: r in after.rules <==> r in st.rules || r in TailRules(h, cmds))
      && after.policy == if SetPolicy(Drop) in cmds then Drop else st.policy
    decreases cmds
  {
    if cmds != [] {
      var c := cmds[0];
      assert c in cmds && AllAccepted(h, cmds[1..]) && IsTail(cmds[1..]);
      var mid := Apply(h, st, c);
      TailRun(h, mid, cmds[1..], p);
      OnceAccepted(h, c);
      TailRulesConcat(h, [c], cmds[1..]);
      assert [c] + cmds[1..] == cmds;
      FirstMatchConcat(h, TailRules(h, [c]), TailRules(h, cmds[1..]), p);
      ghost var one := TailRules(h, [c]);
      assert FirstMatch(h, mid.rules, p) == OrElse(FirstMatch(h, st.rules, p), FirstMatch(h, one, p)) by {
        if one != [] {
          assert one[1..] == [];
          assert one == [one[0]];
          if mid.rules == st.rules {
            HeldRuleDecides(h, st.rules, one[0], p);
          } else {
            FirstMatchConcat(h, st.rules, one, p);
          }
        }
      }
    }
  }

  lemma {:induction false} InsertsAccepted(h: Host, tops: seq<Rule>)
    ensures AllAccepted(h, InsertEach(tops))
    ensures forall c :: c in InsertEach(tops) ==> c.EnsureTop?
  {
    if tops != [] { InsertsAccepted(h, tops[1..]); }
  }

  /** Inserting rules on top keeps the chain below them, and adds exactly the missing ones. */
  lemma {:induction false} TopRunShape(h: Host, st: Chain, tops: seq<Rule>)
    requires AllAccepted(h, InsertEach(tops))
    ensures var after := ApplyAll(h, st, InsertEach(tops));
      && after.policy == st.policy
      && EndsWith(after.rules, st.rules)
      && (forall r :: r in after.rules <==> r in st.rules || r in tops)
    decreases tops
  {
    if tops != [] {
      var mid := Apply(h, st, EnsureTop(tops[0]));
      InsertsAccepted(h, tops[1..]);
      assert InsertEach(tops)[1..] == InsertEach(tops[1..]);
      TopRunShape(h, mid, tops[1..]);
      assert forall r :: r in tops <==> r == tops[0] || r in tops[1..];
      assert EndsWith(mid.rules, st.rules);
      EndsWithTransitive(ApplyAll(h, st, InsertEach(tops)).rules, mid.rules, st.rules);
    }
  }

  predicate EndsWith(long: seq<Rule>, tail: seq<Rule>) {
    |long| >= |tail| && long[|long| - |tail|..] == tail
  }

  lemma EndsWithTransitive(a: seq<Rule>, b: seq<Rule>, c: seq<Rule>)
    requires EndsWith(a, b) && EndsWith(b, c)
    ensures EndsWith(a, c)
  {
    assert a[|a| - |c|..] == a[|a| - |b|..][|b| - |c|..];
  }

  /** With accepting rules on top, a packet is accepted as soon as a rule that was missing matches it. */
  lemma {:induction false} TopRunVerdict(h: Host, st: Chain, tops: seq<Rule>, p: Packet)
    requires AllAccepted(h, InsertEach(tops))
    requires AllAccepting(tops)
    ensures FirstMatch(h, ApplyAll(h, st, InsertEach(tops)).rules, p)
         == OrElse(AcceptIf(MissingMatches(h, tops, st.rules, p)), FirstMatch(h, st.rules, p))
    decreases tops
  {
    if tops != [] {
      var t := tops[0];
      var mid := Apply(h, st, EnsureTop(t));
      InsertsAccepted(h, tops[1..]);
      assert InsertEach(tops)[1..] == InsertEach(tops[1..]);
      TopRunVerdict(h, mid, tops[1..], p);
      assert t in tops;
      if t !in st.rules {
        assert mid.rules[1..] == st.rules;
      }
      if MissingMatches(h, tops[1..], mid.rules, p) {
        var r :| r in tops[1..] && r !in mid.rules && r.Own? && Matches(h, r.m, p);
        assert r in tops && r !in st.rules;
      } else if MissingMatches(h, tops, st.rules, p) {
        var r :| r in tops && r !in st.rules && r.Own? && Matches(h, r.m, p);
        assert r == t;
      }
    }
  }

  // ---------------------------------------------------------------- the parts of the script

  lemma {:induction false} ProfilesAreTail(h: Host, profiles: seq<Profile>)
    ensures var cmds := FlatMap(ProfileCommands, profiles);
      && AllAccepted(h, cmds) && IsTail(cmds)
      && (SetPolicy(Drop) in cmds <==> Profile(true, BLOCK_ALL_PUBLIC) in profiles)
  {
    if profiles != [] {
      ProfilesAreTail(h, profiles[1..]);
      EnsuredRules(h, PRIVATE_RULES);
      EnsuredRules(h, HARDEN_RULES);
      assert forall q :: q in profiles <==> q == profiles[0] || q in profiles[1..];
    }
  }

  lemma PortsAreTail(ports: seq<PortRule>)
    ensures var cmds := FlatMap(PortRuleCommands, ports);
      IsTail(cmds) && SetPolicy(Drop) !in cmds && forall c :: c in cmds ==> c.AppendPort?
  {
    forall c | c in FlatMap(PortRuleCommands, ports) ensures c.AppendPort? {
      FlatMapMembers(PortRuleCommands, ports, c);
      var r :| r in ports && c in PortRuleCommands(r);
      var _, _, _, _ := PortCommandOrigin(r, c);
    }
  }

  /** Every append command comes from one item, one protocol and one expanded source of its rule. */
  lemma PortCommandOrigin(r: PortRule, c: Command)
    returns (item: PortItem, t: string, src: string, net: string)
    requires c in PortRuleCommands(r)
    ensures r.enabled && item in r.rangeList && t in r.protocol && src in GetSources(r) && net in ExpandSource(src)
    ensures ItemText(item).Some? && ParseProto(t).Some?
    ensures c == OneCommand(r, ParseProto(t).value, ItemText(item).value, net)
  {
    FlatMapMembers(PerItem(r), r.rangeList, c);
    item :| item in r.rangeList && c in PerItem(r)(item);
    var portStr := ItemText(item).value;
    FlatMapMembers(PerProto(r, portStr), r.protocol, c);
    t :| t in r.protocol && c in PerProto(r, portStr)(t);
    var proto := ParseProto(t).value;
    FlatMapMembers(PerSource(r, proto, portStr), FlatMap(ExpandSource, GetSources(r)), c);
    net :| net in FlatMap(ExpandSource, GetSources(r)) && c in PerSource(r, proto, portStr)(net);
    FlatMapMembers(ExpandSource, GetSources(r), net);
    src :| src in GetSources(r) && net in ExpandSource(src);
  }

  lemma PortCommandPresent(r: PortRule, item: PortItem, t: string, src: string, net: string)
    requires r.enabled && item in r.rangeList && t in r.protocol && src in GetSources(r) && net in ExpandSource(src)
    requires ItemText(item).Some? && ParseProto(t).Some?
    ensures OneCommand(r, ParseProto(t).value, ItemText(item).value, net) in PortRuleCommands(r)
  {
    var portStr, proto := ItemText(item).value, ParseProto(t).value;
    var c := OneCommand(r, proto, portStr, net);
    FlatMapMembers(ExpandSource, GetSources(r), net);
    assert c in PerSource(r, proto, portStr)(net);
    FlatMapMembers(PerSource(r, proto, portStr), FlatMap(ExpandSource, GetSources(r)), c);
    assert c in PerProto(r, portStr)(t);
    FlatMapMembers(PerProto(r, portStr), r.protocol, c);
    assert c in PerItem(r)(item);
    FlatMapMembers(PerItem(r), r.rangeList, c);
  }

  /** The comment of a rule that has none: protocol and port text, as configured. */
  predicate DefaultComment(c: Command, text: string)
    requires c.AppendPort?
  {
    && c.portArg == DashToColon(text)
    && c.comment == (if c.proto == Tcp then "Custom TCP port " else "Custom UDP port ") + text
  }

  /** Every generated rule carries the configured comment, or else the default one. */
  lemma CommandsCarryComments(r: PortRule, c: Command)
    requires c in PortRuleCommands(r)
    ensures c.AppendPort?
    ensures if r.comment != "" then c.comment == r.comment else exists text :: DefaultComment(c, text)
  {
    var item, t, src, net := PortCommandOrigin(r, c);
    var text := ItemText(item).value;
    assert "Custom " + "TCP" + " port " == "Custom TCP port " && "Custom " + "UDP" + " port " == "Custom UDP port ";
    assert r.comment == "" ==> DefaultComment(c, text);
  }

  lemma ItemOpensIsParsed(item: PortItem, port: nat)
    ensures ItemOpens(item, port) <==>
      && ItemText(item).Some?
      && var arg := ParsePortArg(DashToColon(ItemText(item).value));
         arg.Some? && arg.value.Contains(port)
  {
    match item {
      case FloatItem(f) =>
        FractionOpensTruncated(f, port);
        NumberIsRead(Truncate(f));
      case IntItem(i) => NumberIsRead(i);
      case TextItem(s) => TextOpensItself(s, port);
      case OtherItem =>
    }
  }

  lemma NumberIsRead(i: int)
    ensures ParsePortArg(DashToColon(FormatInt(i))) ==
      if i < 0 then (if -i <= MAX_PORT then Some(PortRange(0, -i)) else None)
      else if i <= MAX_PORT then Some(PortRange(i, i)) else None
  {
    if i >= 0 { NumberOpensItself(i); } else { NegativeOpensFromZero(-i); }
  }

  lemma FractionOpensTruncated(f: real, port: nat)
    ensures FractionOpens(f, port) <==> NumberOpens(Truncate(f), port)
  {
  }

  lemma NamesProtoIsParsed(t: string, proto: Proto)
    ensures NamesProto(t, proto) <==> ParseProto(t) == Some(proto)
  {
    LowerMeansSameLetters(t, "tcp");
    LowerMeansSameLetters(t, "udp");
  }

  lemma SourcesWithDefault(h: Host, r: PortRule, a: Addr)
    ensures (r.sources == [] || exists src :: src in r.sources && SourceCovers(h, src, a))
       <==> exists src :: src in GetSources(r) && SourceCovers(h, src, a)
  {
    if r.sources == [] {
      assert "0.0.0.0/0" in GetSources(r) && SourceCovers(h, "0.0.0.0/0", a);
    }
  }

  /** One expanded source, as iptables reads it. */
  predicate NetCovers(h: Host, net: string, a: Addr) { SourceArg(net) == "" || InNet(h, SourceArg(net), a) }

  lemma SourceCoversIsExpanded(h: Host, src: string, a: Addr)
    requires StandardNets(h)
    ensures SourceCovers(h, src, a) <==> exists net :: net in ExpandSource(src) && NetCovers(h, net, a)
  {
    var nets := ExpandSource(src);
    if src == "private" {
      assert nets[0] in nets && nets[1] in nets && nets[2] in nets;
      assert NetCovers(h, nets[0], a) <==> NET10.Contains(a);
      assert NetCovers(h, nets[1], a) <==> NET172.Contains(a);
      assert NetCovers(h, nets[2], a) <==> NET192.Contains(a);
    } else {
      assert nets[0] in nets;
      assert src == "cgnat" ==> (NetCovers(h, nets[0], a) <==> NET100.Contains(a));
    }
  }

  /** The packet is matched by the rule an accepted append command adds. */
  predicate CommandMatches(h: Host, c: Command, p: Packet) {
    c.AppendPort? && PortRuleOf(h, c).Some? && Matches(h, PortRuleOf(h, c).value.m, p)
  }

  lemma OneCommandMatches(h: Host, r: PortRule, item: PortItem, proto: Proto, net: string, p: Packet)
    requires ItemText(item).Some?
    requires Accepted(h, OneCommand(r, proto, ItemText(item).value, net))
    ensures CommandMatches(h, OneCommand(r, proto, ItemText(item).value, net), p)
       <==> ItemOpens(item, p.dport) && p.proto == proto && NetCovers(h, net, p.src)
  {
    ItemOpensIsParsed(item, p.dport);
  }

  /** The rules generated for one port rule match a packet exactly when the configured rule covers it. */
  lemma PortRuleCompiles(h: Host, r: PortRule, p: Packet)
    requires StandardNets(h) && AllAccepted(h, PortRuleCommands(r))
    ensures RuleCovers(h, r, p) <==> exists c :: c in PortRuleCommands(r) && CommandMatches(h, c, p)
  {
    if c :| c in PortRuleCommands(r) && CommandMatches(h, c, p) {
      var item, t, src, net := PortCommandOrigin(r, c);
      OneCommandMatches(h, r, item, ParseProto(t).value, net, p);
      NamesProtoIsParsed(t, p.proto);
      SourceCoversIsExpanded(h, src, p.src);
      SourcesWithDefault(h, r, p.src);
    }
    if RuleCovers(h, r, p) {
      var item :| item in r.rangeList && ItemOpens(item, p.dport);
      var t :| t in r.protocol && NamesProto(t, p.proto);
      NamesProtoIsParsed(t, p.proto);
      SourcesWithDefault(h, r, p.src);
      var src :| src in GetSources(r) && SourceCovers(h, src, p.src);
      SourceCoversIsExpanded(h, src, p.src);
      var net :| net in ExpandSource(src) && NetCovers(h, net, p.src);
      ItemOpensIsParsed(item, p.dport);
      PortCommandPresent(r, item, t, src, net);
      OneCommandMatches(h, r, item, p.proto, net, p);
    }
  }

  lemma {:induction false} AppendedRules(h: Host, cmds: seq<Command>)
    requires AllAccepted(h, cmds) && forall c :: c in cmds ==> c.AppendPort?
    ensures |TailRules(h, cmds)| == |cmds|
    ensures forall i :: 0 <= i < |cmds| ==> PortRuleOf(h, cmds[i]) == Some(TailRules(h, cmds)[i])
    decreases cmds
  {
    if cmds != [] {
      assert AllAccepted(h, cmds[1..]) && cmds[0] in cmds;
      AppendedRules(h, cmds[1..]);
    }
  }

  /** First match over all generated port rules is the action of the first covering rule. */
  lemma {:induction false} PortsCompile(h: Host, ports: seq<PortRule>, p: Packet)
    requires StandardNets(h) && AllAccepted(h, FlatMap(PortRuleCommands, ports))
    ensures FirstMatch(h, TailRules(h, FlatMap(PortRuleCommands, ports)), p) == PortDecision(h, ports, p)
    decreases ports
  {
    if ports != [] {
      var r, mine, rest := ports[0], PortRuleCommands(ports[0]), FlatMap(PortRuleCommands, ports[1..]);
      assert FlatMap(PortRuleCommands, ports) == mine + rest;
      assert AllAccepted(h, mine) && AllAccepted(h, rest) by {
        assert forall c :: c in mine || c in rest ==> c in mine + rest;
      }
      PortsCompile(h, ports[1..], p);
      TailRulesConcat(h, mine, rest);
      FirstMatchConcat(h, TailRules(h, mine), TailRules(h, rest), p);
      OnePortRuleDecides(h, r, p);
    }
  }

  /** The rules of append commands match a packet when one of the commands does. */
  lemma AppendedMatch(h: Host, cmds: seq<Command>, p: Packet)
    requires AllAccepted(h, cmds) && forall c :: c in cmds ==> c.AppendPort?
    ensures AnyMatches(h, TailRules(h, cmds), p) <==> exists c :: c in cmds && CommandMatches(h, c, p)
  {
    AppendedRules(h, cmds);
    var rules := TailRules(h, cmds);
    if x :| x in rules && x.Own? && Matches(h, x.m, p) {
      var i :| 0 <= i < |rules| && rules[i] == x;
      assert cmds[i] in cmds && CommandMatches(h, cmds[i], p);
    }
    if c :| c in cmds && CommandMatches(h, c, p) {
      var i :| 0 <= i < |cmds| && cmds[i] == c;
      assert rules[i] in rules && Matches(h, rules[i].m, p);
    }
  }

  lemma AppendedTargets(h: Host, cmds: seq<Command>, action: string)
    requires AllAccepted(h, cmds) && forall c :: c in cmds ==> c.AppendPort? && c.action == action
    ensures forall r :: r in TailRules(h, cmds) ==> r.Own? && r.target == ParseAction(action)
    ensures cmds != [] ==> ParseAction(action).Some?
  {
    AppendedRules(h, cmds);
    forall i | 0 <= i < |cmds| ensures Accepted(h, cmds[i]) && cmds[i].action == action {
      assert cmds[i] in cmds;
    }
  }

  lemma OnePortRuleDecides(h: Host, r: PortRule, p: Packet)
    requires StandardNets(h) && AllAccepted(h, PortRuleCommands(r))
    ensures FirstMatch(h, TailRules(h, PortRuleCommands(r)), p)
         == if RuleCovers(h, r, p) then Some(RuleAction(r)) else None
  {
    var mine := PortRuleCommands(r);
    PortRuleCompiles(h, r, p);
    forall c | c in mine ensures c.AppendPort? && c.action == GetAction(r) {
      var _, _, _, _ := PortCommandOrigin(r, c);
    }
    AppendedMatch(h, mine, p);
    AppendedTargets(h, mine, GetAction(r));
    if mine != [] {
      UniformFirstMatch(h, TailRules(h, mine), ParseAction(GetAction(r)), p);
    }
  }

  lemma {:induction false} EnsuredRules(h: Host, rules: seq<Rule>)
    ensures AllAccepted(h, EnsureEach(rules)) && IsTail(EnsureEach(rules))
    ensures SetPolicy(Drop) !in EnsureEach(rules)
    ensures TailRules(h, EnsureEach(rules)) == rules
  {
    EnsuredAccepted(h, rules);
    if rules != [] {
      EnsuredRules(h, rules[1..]);
      assert EnsureEach(rules)[1..] == EnsureEach(rules[1..]);
    }
  }

  lemma {:induction false} EnsuredAccepted(h: Host, rules: seq<Rule>)
    ensures forall c :: c in EnsureEach(rules) ==> c.EnsureLast?
  {
    if rules != [] { EnsuredAccepted(h, rules[1..]); }
  }

  lemma FourRules(h: Host, rules: seq<Rule>, p: Packet)
    requires |rules| == 4
    ensures FirstMatch(h, rules, p)
      == OrElse(Effect(h, rules[0], p), OrElse(Effect(h, rules[1], p),
                OrElse(Effect(h, rules[2], p), Effect(h, rules[3], p))))
  {
    assert FirstMatch(h, rules[1..][1..], p)
        == OrElse(Effect(h, rules[2], p), FirstMatch(h, rules[1..][1..][1..], p));
    assert FirstMatch(h, rules[1..][1..][1..], p) == Effect(h, rules[3], p);
  }

  lemma PrivateRulesDecide(h: Host, rules: seq<Rule>, p: Packet)
    requires StandardNets(h) && rules == PRIVATE_RULES
    ensures FirstMatch(h, rules, p) == if InRfc1918(p.src) || InCgnat(p.src) then Some(Accept) else None
  {
    FourRules(h, rules, p);
  }

  lemma HardenRulesDecide(h: Host, rules: seq<Rule>, p: Packet)
    requires rules == HARDEN_RULES
    ensures FirstMatch(h, rules, p) ==
      if p.proto == Tcp && p.dport == 22 && p.isNew && p.sshOverRate then Some(Drop)
      else if p.proto == Icmp && p.icmpWithinLimit then Some(Accept)
      else if p.invalid then Some(Drop)
      else None
  {
    FourRules(h, rules, p);
  }

  /**
   * The hardening profile counts new SSH connections before it judges them: the
   * recording rule, which decides nothing, comes right before the dropping one.
   */
  lemma HardenRecords(h: Host, st: Chain, p: Packet)
    requires Own(SshRecord, None) !in st.rules && Own(SshOverRate, Some(Drop)) !in st.rules
    ensures AllAccepted(h, ProfileScript("Harden"))
    ensures st.rules + [Own(SshRecord, None), Own(SshOverRate, Some(Drop))]
         <= ApplyAll(h, st, ProfileScript("Harden")).rules
  {
    EnsuredRules(h, HARDEN_RULES);
    FirstTwoEnsured(h, st, HARDEN_RULES, p);
  }

  lemma FirstTwoEnsured(h: Host, st: Chain, rules: seq<Rule>, p: Packet)
    requires |rules| >= 2 && rules[0] != rules[1] && rules[0] !in st.rules && rules[1] !in st.rules
    requires AllAccepted(h, EnsureEach(rules))
    ensures st.rules + [rules[0], rules[1]] <= ApplyAll(h, st, EnsureEach(rules)).rules
  {
    var rest := rules[1..][1..];
    var one := Apply(h, st, EnsureLast(rules[0]));
    var two := Apply(h, one, EnsureLast(rules[1]));
    assert EnsureEach(rules)[1..] == EnsureEach(rules[1..]) && EnsureEach(rules[1..])[1..] == EnsureEach(rest);
    EnsuredRules(h, rules[1..]);
    EnsuredRules(h, rest);
    TailRun(h, two, EnsureEach(rest), p);
    assert ApplyAll(h, st, EnsureEach(rules)) == ApplyAll(h, one, EnsureEach(rules[1..]));
    assert ApplyAll(h, one, EnsureEach(rules[1..])) == ApplyAll(h, two, EnsureEach(rest));
    assert two.rules == st.rules + [rules[0], rules[1]];
  }

  /** The rule list a profile writes. */
  function ProfileRules(name: string): seq<Rule> {
    if name == ALLOW_ALL_PRIVATE then PRIVATE_RULES else if name == HARDEN then HARDEN_RULES else []
  }

  lemma ProfileScriptShape(name: string)
    ensures ProfileScript(name) ==
      if name == BLOCK_ALL_PUBLIC then [SetPolicy(Drop)] else EnsureEach(ProfileRules(name))
  {
  }

  lemma OneProfileDecides(h: Host, profile: Profile, p: Packet)
    requires StandardNets(h) && AllAccepted(h, ProfileCommands(profile))
    ensures FirstMatch(h, TailRules(h, ProfileCommands(profile)), p) == ProfileDecision(profile, p)
  {
    var name := profile.name;
    ProfileScriptShape(name);
    if !profile.enabled {
    } else if name == BLOCK_ALL_PUBLIC {
      OnceAccepted(h, SetPolicy(Drop));
    } else {
      var rules := ProfileRules(name);
      EnsuredRules(h, rules);
      if name == ALLOW_ALL_PRIVATE {
        PrivateRulesDecide(h, rules, p);
      } else if name == HARDEN {
        HardenRulesDecide(h, rules, p);
      }
    }
  }

  lemma {:induction false} ProfilesCompile(h: Host, profiles: seq<Profile>, p: Packet)
    requires StandardNets(h) && AllAccepted(h, FlatMap(ProfileCommands, profiles))
    ensures FirstMatch(h, TailRules(h, FlatMap(ProfileCommands, profiles)), p) == ProfilesDecision(profiles, p)
    decreases profiles
  {
    if profiles != [] {
      var mine, rest := ProfileCommands(profiles[0]), FlatMap(ProfileCommands, profiles[1..]);
      assert FlatMap(ProfileCommands, profiles) == mine + rest;
      assert AllAccepted(h, mine) && AllAccepted(h, rest) by {
        assert forall c :: c in mine || c in rest ==> c in mine + rest;
      }
      ProfilesCompile(h, profiles[1..], p);
      TailRulesConcat(h, mine, rest);
      FirstMatchConcat(h, TailRules(h, mine), TailRules(h, rest), p);
      OneProfileDecides(h, profiles[0], p);
    }
  }

  // ---------------------------------------------------------------- one run

  lemma TailCommandsAreTail(h: Host, cfg: Config)
    ensures IsTail(TailCommands(cfg)) && IsTail(Executed(h, TailCommands(cfg)))
    ensures SetPolicy(Drop) in Executed(h, TailCommands(cfg)) <==> BlocksPublic(cfg)
  {
    ProfilesAreTail(h, cfg.profiles);
    PortsAreTail(cfg.ports);
    ExecutedConcat(h, FlatMap(ProfileCommands, cfg.profiles), FlatMap(PortRuleCommands, cfg.ports));
    var ports := Executed(h, FlatMap(PortRuleCommands, cfg.ports));
    assert forall c :: c in ports ==> c in FlatMap(PortRuleCommands, cfg.ports);
  }

  lemma RunSplits(h: Host, st: Chain, tops: seq<Rule>, cfg: Config)
    ensures AllAccepted(h, InsertEach(tops))
    ensures RunScript(h, st, ScriptWith(tops, cfg))
         == ApplyAll(h, ApplyAll(h, st, InsertEach(tops)), Executed(h, TailCommands(cfg)))
  {
    InsertsAccepted(h, tops);
    ExecutedConcat(h, InsertEach(tops), TailCommands(cfg));
    ApplyAllConcat(h, st, InsertEach(tops), Executed(h, TailCommands(cfg)));
  }

  /** The rules the executed part of a configuration puts at the end, duplicates included. */
  function WrittenRules(h: Host, cfg: Config): seq<Rule> { TailRules(h, Executed(h, TailCommands(cfg))) }

  /** The verdict a run leaves for one packet, and the policy. */
  lemma RunDecides(h: Host, st: Chain, tops: seq<Rule>, cfg: Config, p: Packet)
    requires AllAccepting(tops)
    ensures var after := RunScript(h, st, ScriptWith(tops, cfg));
      && FirstMatch(h, after.rules, p) ==
         OrElse(AcceptIf(MissingMatches(h, tops, st.rules, p)),
           OrElse(FirstMatch(h, st.rules, p), FirstMatch(h, WrittenRules(h, cfg), p)))
      && after.policy == if BlocksPublic(cfg) then Drop else st.policy
  {
    RunSplits(h, st, tops, cfg);
    TailCommandsAreTail(h, cfg);
    TopRunShape(h, st, tops);
    TopRunVerdict(h, st, tops, p);
    TailRun(h, ApplyAll(h, st, InsertEach(tops)), Executed(h, TailCommands(cfg)), p);
  }

  const ANY_PACKET := Packet("", OtherProto, 0, 0, 0, false, false, false, false, false)

  /** The rules a run leaves: the old chain as one block, with new rules only around it. */
  lemma RunKeepsOrder(h: Host, st: Chain, tops: seq<Rule>, cfg: Config) returns (top: seq<Rule>, bottom: seq<Rule>)
    ensures var after := RunScript(h, st, ScriptWith(tops, cfg));
      && after.rules == top + st.rules + bottom
      && forall r :: r in after.rules <==> r in st.rules || r in tops || r in WrittenRules(h, cfg)
  {
    RunSplits(h, st, tops, cfg);
    TailCommandsAreTail(h, cfg);
    TopRunShape(h, st, tops);
    var mid, after := ApplyAll(h, st, InsertEach(tops)), RunScript(h, st, ScriptWith(tops, cfg));
    TailRun(h, mid, Executed(h, TailCommands(cfg)), ANY_PACKET);
    top, bottom := mid.rules[..|mid.rules| - |st.rules|], after.rules[|mid.rules|..];
    assert mid.rules == top + st.rules;
    assert after.rules == mid.rules + bottom;
  }

  /**
   * Compiler correctness, on every chain: a packet is accepted if a missing safety
   * rule matches it; else the old chain decides; else the enabled profiles in
   * order; else the first enabled port rule that covers it; else the policy.
   */
  lemma CompilerCorrect(h: Host, safety: seq<Rule>, st: Chain, cfg: Config, p: Packet)
    requires StandardNets(h) && AllAccepting(safety)
    requires AllAccepted(h, TailCommands(cfg))
    ensures ChainVerdict(h, RunScript(h, st, ScriptWith(safety, cfg)), p) == Specified(h, safety, st, cfg, p)
  {
    RunDecides(h, st, safety, cfg, p);
    WrittenRulesDecide(h, cfg, p);
  }

  lemma WrittenRulesDecide(h: Host, cfg: Config, p: Packet)
    requires StandardNets(h) && AllAccepted(h, TailCommands(cfg))
    ensures FirstMatch(h, WrittenRules(h, cfg), p)
         == OrElse(ProfilesDecision(cfg.profiles, p), PortDecision(h, cfg.ports, p))
  {
    var a, b := FlatMap(ProfileCommands, cfg.profiles), FlatMap(PortRuleCommands, cfg.ports);
    ExecutedAll(h, a + b);
    assert AllAccepted(h, a) && AllAccepted(h, b) by {
      assert forall c :: c in a || c in b ==> c in a + b;
    }
    TailRulesConcat(h, a, b);
    FirstMatchConcat(h, TailRules(h, a), TailRules(h, b), p);
    ProfilesCompile(h, cfg.profiles, p);
    PortsCompile(h, cfg.ports, p);
  }

  lemma SafetyRulesAccept()
    ensures AllAccepting(SAFETY)
  {
  }

  /** The script as generated, on a chain with none of its safety rules. */
  lemma CompilerCorrectOnForeignChain(h: Host, st: Chain, cfg: Config, p: Packet)
    requires StandardNets(h)
    requires AllAccepted(h, TailCommands(cfg))
    requires forall r :: r in SAFETY ==> r !in st.rules
    ensures ChainVerdict(h, RunScript(h, st, Script(cfg)), p) ==
      var decided := OrElse(AcceptIf(AnyMatches(h, SAFETY, p)),
        OrElse(FirstMatch(h, st.rules, p),
          OrElse(ProfilesDecision(cfg.profiles, p), PortDecision(h, cfg.ports, p))));
      if decided.Some? then decided.value else if BlocksPublic(cfg) then Drop else st.policy
  {
    SafetyRulesAccept();
    CompilerCorrect(h, SAFETY, st, cfg, p);
    NothingHeld(h, SAFETY, st.rules, p);
  }

  lemma NothingHeld(h: Host, tops: seq<Rule>, rules: seq<Rule>, p: Packet)
    requires forall r :: r in tops ==> r !in rules
    ensures MissingMatches(h, tops, rules, p) == AnyMatches(h, tops, p)
  {
    if AnyMatches(h, tops, p) {
      var r :| r in tops && r.Own? && Matches(h, r.m, p);
      assert r !in rules;
    }
  }

  // ---------------------------------------------------------------- histories of runs

  /** Runs with arbitrary, differing configurations, complete or cut short by a refused command. */
  function RunAll(h: Host, safety: seq<Rule>, st: Chain, cfgs: seq<Config>): Chain
    decreases cfgs
  {
    if cfgs == [] then st else RunAll(h, safety, RunScript(h, st, ScriptWith(safety, cfgs[0])), cfgs[1..])
  }

  predicate Holds(rules: seq<Rule>, wanted: seq<Rule>) { forall r :: r in wanted ==> r in rules }

  lemma HeldSafetyDecides(h: Host, safety: seq<Rule>, rules: seq<Rule>, p: Packet)
    requires AllAccepting(safety)
    requires AnyMatches(h, safety, p) && !MissingMatches(h, safety, rules, p)
    ensures FirstMatch(h, rules, p).Some?
  {
    var r :| r in safety && r.Own? && Matches(h, r.m, p);
    HeldRuleDecides(h, rules, r, p);
  }

  /** Once every safety rule is on the chain, no later run changes a verdict the chain has reached. */
  lemma {:induction false} DecisionsAreFinal(h: Host, safety: seq<Rule>, st: Chain, cfgs: seq<Config>, p: Packet)
    requires AllAccepting(safety) && Holds(st.rules, safety)
    requires FirstMatch(h, st.rules, p).Some?
    ensures FirstMatch(h, RunAll(h, safety, st, cfgs).rules, p) == FirstMatch(h, st.rules, p)
    decreases cfgs
  {
    if cfgs != [] {
      RunDecides(h, st, safety, cfgs[0], p);
      var _, _ := RunKeepsOrder(h, st, safety, cfgs[0]);
      DecisionsAreFinal(h, safety, RunScript(h, st, ScriptWith(safety, cfgs[0])), cfgs[1..], p);
    }
  }

  /**
   * Safety over all histories, exactly: after any number of runs a packet matched
   * by a safety rule is accepted if and only if a matching safety rule was missing
   * from the initial chain, or that chain accepted the packet already. The run does
   * not move a safety rule that sits below a rule dropping the packet.
   */
  lemma SafetyHolds(h: Host, safety: seq<Rule>, st: Chain, cfgs: seq<Config>, p: Packet)
    requires AllAccepting(safety)
    requires cfgs != [] && AnyMatches(h, safety, p)
    ensures ChainVerdict(h, RunAll(h, safety, st, cfgs), p) == Accept
       <==> MissingMatches(h, safety, st.rules, p) || FirstMatch(h, st.rules, p) == Some(Accept)
  {
    RunDecides(h, st, safety, cfgs[0], p);
    var _, _ := RunKeepsOrder(h, st, safety, cfgs[0]);
    if !MissingMatches(h, safety, st.rules, p) { HeldSafetyDecides(h, safety, st.rules, p); }
    DecisionsAreFinal(h, safety, RunScript(h, st, ScriptWith(safety, cfgs[0])), cfgs[1..], p);
  }

  /** From a chain without the safety rules, every history accepts every packet they match. */
  lemma SafetyFromForeignChain(h: Host, st: Chain, cfgs: seq<Config>, p: Packet)
    requires forall r :: r in SAFETY ==> r !in st.rules
    requires cfgs != [] && AnyMatches(h, SAFETY, p)
    ensures ChainVerdict(h, RunAll(h, SAFETY, st, cfgs), p) == Accept
  {
    SafetyRulesAccept();
    NothingHeld(h, SAFETY, st.rules, p);
    SafetyHolds(h, SAFETY, st, cfgs, p);
  }

  const VRRP_GROUP: Addr := Quad(224, 0, 0, 18)

  /** The traffic the safety rules are for, said about packets. */
  predicate Protected(p: Packet) {
    || p.established
    || p.iface in {"lo", "tailscale0", "docker0", "docker_gwbridge"} || "wt" <= p.iface || "wg" <= p.iface
    || p.proto == Vrrp || p.dst == VRRP_GROUP
    || (p.proto == Udp && p.dport in {51820, 41641, 7946, 4789})
    || (p.proto == Tcp && p.dport in {2377, 7946})
  }

  lemma SafetyRuleProtects(h: Host, i: nat, p: Packet)
    requires i < |SAFETY| && h.net("224.0.0.18/32") == Some(Cidr(VRRP_GROUP, 32))
    requires Matches(h, SAFETY[i].m, p)
    ensures Protected(p)
  {
    assert Pow2(0) == 1;
  }

  /** Which safety rule lets a protected packet in. */
  function SafetyIndex(p: Packet): nat
    requires Protected(p)
  {
    if p.iface == "lo" then 0 else if p.established then 1 else if p.proto == Vrrp then 2
    else if p.dst == VRRP_GROUP then 3 else if "wt" <= p.iface then 5 else if p.iface == "tailscale0" then 6
    else if "wg" <= p.iface then 8 else if p.iface == "docker0" then 11 else if p.iface == "docker_gwbridge" then 12
    else if p.proto == Udp then
      (if p.dport == 51820 then 9 else if p.dport == 41641 then 10 else if p.dport == 7946 then 15 else 16)
    else if p.dport == 2377 then 13 else 14
  }

  lemma ProtectedRuleMatches(h: Host, p: Packet)
    requires Protected(p) && h.net("224.0.0.18/32") == Some(Cidr(VRRP_GROUP, 32))
    ensures SafetyIndex(p) < |SAFETY| && Matches(h, SAFETY[SafetyIndex(p)].m, p)
  {
    assert Pow2(0) == 1;
  }

  lemma SafetyOnlyProtects(h: Host, p: Packet)
    requires h.net("224.0.0.18/32") == Some(Cidr(VRRP_GROUP, 32)) && AnyMatches(h, SAFETY, p)
    ensures Protected(p)
  {
    var i := MatchingIndex(h, SAFETY, p);
    SafetyRuleProtects(h, i, p);
  }

  lemma MatchingIndex(h: Host, rules: seq<Rule>, p: Packet) returns (i: nat)
    requires AnyMatches(h, rules, p)
    ensures i < |rules| && rules[i].Own? && Matches(h, rules[i].m, p)
  {
    var r :| r in rules && r.Own? && Matches(h, r.m, p);
    i :| i < |rules| && rules[i] == r;
  }

  lemma ProtectsAll(h: Host, p: Packet)
    requires h.net("224.0.0.18/32") == Some(Cidr(VRRP_GROUP, 32)) && Protected(p)
    ensures AnyMatches(h, SAFETY, p)
  {
    ProtectedRuleMatches(h, p);
    AnyAt(h, SAFETY, SafetyIndex(p), p);
  }

  lemma AnyAt(h: Host, rules: seq<Rule>, i: nat, p: Packet)
    requires i < |rules| && rules[i].Own? && Matches(h, rules[i].m, p)
    ensures AnyMatches(h, rules, p)
  {
    assert rules[i] in rules;
  }

  /** The safety rules match exactly the protected packets. */
  lemma SafetyIsProtected(h: Host, p: Packet)
    requires h.net("224.0.0.18/32") == Some(Cidr(VRRP_GROUP, 32))
    ensures AnyMatches(h, SAFETY, p) <==> Protected(p)
  {
    if AnyMatches(h, SAFETY, p) { SafetyOnlyProtects(h, p); }
    if Protected(p) { ProtectsAll(h, p); }
  }

  /** From a chain without the safety rules, every history of runs keeps protected traffic accepted. */
  lemma ProtectedStaysAccepted(h: Host, st: Chain, cfgs: seq<Config>, p: Packet)
    requires h.net("224.0.0.18/32") == Some(Cidr(VRRP_GROUP, 32))
    requires forall r :: r in SAFETY ==> r !in st.rules
    requires cfgs != [] && Protected(p)
    ensures ChainVerdict(h, RunAll(h, SAFETY, st, cfgs), p) == Accept
  {
    SafetyIsProtected(h, p);
    SafetyFromForeignChain(h, st, cfgs, p);
  }

  /** A safety rule that stands alone for a packet, below a rule dropping it, stays there over every history. */
  lemma HeldBelowDrop(h: Host, safety: seq<Rule>, id: nat, own: Rule, cfgs: seq<Config>, p: Packet)
    requires AllAccepting(safety) && own in safety && Matches(h, own.m, p) && cfgs != []
    requires forall r :: r in safety && r != own ==> !Matches(h, r.m, p)
    requires h.foreign(id, p) == Some(Drop)
    ensures AnyMatches(h, safety, p)
    ensures ChainVerdict(h, RunAll(h, safety, Chain([Foreign(id), own], Accept), cfgs), p) == Drop
  {
    var st := Chain([Foreign(id), own], Accept);
    assert st.rules[1] == own && own in st.rules;
    assert Effect(h, st.rules[0], p) == Some(Drop);
    assert !MissingMatches(h, safety, st.rules, p);
    SafetyHolds(h, safety, st, cfgs, p);
  }

  lemma OnlyLoopback(h: Host, i: nat, p: Packet)
    requires 0 < i < |SAFETY| && h.net("224.0.0.18/32") == Some(Cidr(VRRP_GROUP, 32))
    requires p.iface == "lo" && !p.established && p.proto == Tcp && p.dport == 22 && p.dst != VRRP_GROUP
    ensures !Matches(h, SAFETY[i].m, p)
  {
    assert Pow2(0) == 1;
    assert p.iface[0] == 'l';
  }

  /**
   * Why the condition is needed, on the script's own safety block: when its loopback
   * rule already stands below a rule dropping an SSH packet, no history of runs
   * accepts that packet on the loopback interface.
   */
  lemma SafetyRuleBelowDrop(h: Host, id: nat, cfgs: seq<Config>, p: Packet)
    requires h.net("224.0.0.18/32") == Some(Cidr(VRRP_GROUP, 32)) && cfgs != []
    requires p.iface == "lo" && !p.established && p.proto == Tcp && p.dport == 22 && p.dst != VRRP_GROUP
    requires h.foreign(id, p) == Some(Drop)
    ensures AnyMatches(h, SAFETY, p)
    ensures ChainVerdict(h, RunAll(h, SAFETY, Chain([Foreign(id), SAFETY[0]], Accept), cfgs), p) == Drop
  {
    SafetyRulesAccept();
    forall r | r in SAFETY && r != SAFETY[0] ensures !Matches(h, r.m, p) {
      var i :| 0 <= i < |SAFETY| && SAFETY[i] == r;
      OnlyLoopback(h, i, p);
    }
    LoopbackFirst(h, p);
    HeldBelowDrop(h, SAFETY, id, SAFETY[0], cfgs, p);
  }

  lemma LoopbackFirst(h: Host, p: Packet)
    requires p.iface == "lo"
    ensures SAFETY[0] in SAFETY && SAFETY[0].Own? && Matches(h, SAFETY[0].m, p)
  {
  }

  /** The same script, `n` times. */
  function RunTimes(h: Host, safety: seq<Rule>, st: Chain, cfg: Config, n: nat): Chain
    decreases n
  {
    if n == 0 then st else RunTimes(h, safety, RunScript(h, st, ScriptWith(safety, cfg)), cfg, n - 1)
  }

  /** The number of port rules an executed configuration appends unchecked. */
  function AppendCount(cmds: seq<Command>): nat {
    if cmds == [] then 0 else (if cmds[0].AppendPort? then 1 else 0) + AppendCount(cmds[1..])
  }

  function Appended(h: Host, cfg: Config): nat { AppendCount(Executed(h, TailCommands(cfg))) }

  /** Tail commands whose rules are all on the chain grow it by the unchecked appends only. */
  lemma {:induction false} SettledTail(h: Host, st: Chain, cmds: seq<Command>)
    requires AllAccepted(h, cmds) && IsTail(cmds)
    requires Holds(st.rules, TailRules(h, cmds))
    ensures |ApplyAll(h, st, cmds).rules| == |st.rules| + AppendCount(cmds)
    ensures st.rules <= ApplyAll(h, st, cmds).rules
    decreases cmds
  {
    if cmds != [] {
      var c, rest := cmds[0], cmds[1..];
      assert c in cmds && AllAccepted(h, rest) && IsTail(rest);
      OnceAccepted(h, c);
      TailRulesConcat(h, [c], rest);
      assert [c] + rest == cmds;
      SettledTail(h, Apply(h, st, c), rest);
    }
  }

  lemma {:induction false} HeldInserts(h: Host, st: Chain, tops: seq<Rule>)
    requires Holds(st.rules, tops)
    ensures AllAccepted(h, InsertEach(tops)) && ApplyAll(h, st, InsertEach(tops)) == st
    decreases tops
  {
    InsertsAccepted(h, tops);
    if tops != [] {
      HeldInserts(h, st, tops[1..]);
      assert InsertEach(tops)[1..] == InsertEach(tops[1..]);
    }
  }

  /** A chain on which this configuration has already left everything it writes. */
  predicate Settled(h: Host, safety: seq<Rule>, st: Chain, cfg: Config) {
    Holds(st.rules, safety) && Holds(st.rules, WrittenRules(h, cfg)) && (BlocksPublic(cfg) ==> st.policy == Drop)
  }

  lemma RunSettles(h: Host, safety: seq<Rule>, st: Chain, cfg: Config)
    requires AllAccepting(safety)
    ensures Settled(h, safety, RunScript(h, st, ScriptWith(safety, cfg)), cfg)
  {
    RunDecides(h, st, safety, cfg, ANY_PACKET);
    var _, _ := RunKeepsOrder(h, st, safety, cfg);
  }

  lemma {:induction false} HeldRulesAddNothing(h: Host, rules: seq<Rule>, more: seq<Rule>, p: Packet)
    requires Holds(rules, more)
    ensures OrElse(FirstMatch(h, rules, p), FirstMatch(h, more, p)) == FirstMatch(h, rules, p)
  {
    if more != [] {
      assert more[0] in more;
      HeldRuleDecides(h, rules, more[0], p);
      HeldRulesAddNothing(h, rules, more[1..], p);
    }
  }

  /** One more run of the same script on a settled chain: same verdict, known growth, order kept. */
  lemma RerunOnce(h: Host, safety: seq<Rule>, st: Chain, cfg: Config, p: Packet)
    requires AllAccepting(safety) && Settled(h, safety, st, cfg)
    ensures var after := RunScript(h, st, ScriptWith(safety, cfg));
      && Settled(h, safety, after, cfg)
      && GrownBy(st, after, Appended(h, cfg))
      && ChainVerdict(h, after, p) == ChainVerdict(h, st, p)
  {
    RunSettles(h, safety, st, cfg);
    RunDecides(h, st, safety, cfg, p);
    assert !MissingMatches(h, safety, st.rules, p);
    HeldRulesAddNothing(h, st.rules, WrittenRules(h, cfg), p);
    RunSplits(h, st, safety, cfg);
    HeldInserts(h, st, safety);
    TailCommandsAreTail(h, cfg);
    SettledTail(h, st, Executed(h, TailCommands(cfg)));
  }

  /** The old chain is a prefix of the new one, which has `k` more rules. */
  predicate GrownBy(a: Chain, b: Chain, k: int) { a.rules <= b.rules && |b.rules| == |a.rules| + k }

  lemma GrownTwice(a: Chain, b: Chain, c: Chain, k: nat, n: nat)
    requires n > 0 && GrownBy(a, b, k) && GrownBy(b, c, (n - 1) * k)
    ensures GrownBy(a, c, n * k)
  {
    assert k + (n - 1) * k == n * k;
  }

  lemma {:induction false} SettledReruns(h: Host, safety: seq<Rule>, st: Chain, cfg: Config, n: nat, p: Packet)
    requires AllAccepting(safety) && Settled(h, safety, st, cfg)
    ensures GrownBy(st, RunTimes(h, safety, st, cfg, n), n * Appended(h, cfg))
    ensures ChainVerdict(h, RunTimes(h, safety, st, cfg, n), p) == ChainVerdict(h, st, p)
    decreases n
  {
    if n > 0 {
      var next := RunScript(h, st, ScriptWith(safety, cfg));
      RerunOnce(h, safety, st, cfg, p);
      SettledReruns(h, safety, next, cfg, n - 1, p);
      GrownTwice(st, next, RunTimes(h, safety, next, cfg, n - 1), Appended(h, cfg), n);
    }
  }

  /**
   * Idempotence of meaning, from any chain: after the first run, n further runs of
   * the same script leave every packet's verdict alone, keep the chain as a prefix,
   * and lengthen it by exactly n times the number of port rules it appends.
   */
  lemma RerunsKeepVerdicts(h: Host, safety: seq<Rule>, st: Chain, cfg: Config, n: nat, p: Packet)
    requires AllAccepting(safety)
    ensures var once := RunScript(h, st, ScriptWith(safety, cfg));
      var after := RunTimes(h, safety, st, cfg, n + 1);
      && GrownBy(once, after, n * Appended(h, cfg))
      && ChainVerdict(h, after, p) == ChainVerdict(h, once, p)
  {
    RunSettles(h, safety, st, cfg);
    SettledReruns(h, safety, RunScript(h, st, ScriptWith(safety, cfg)), cfg, n, p);
  }

  // ---------------------------------------------------------------- the place of BlockAllPublic

  predicate IsBlock(p: Profile) { p.enabled && p.name == BLOCK_ALL_PUBLIC }

  function WithoutBlock(profiles: seq<Profile>): seq<Profile> {
    if profiles == [] then []
    else (if IsBlock(profiles[0]) then [] else [profiles[0]]) + WithoutBlock(profiles[1..])
  }

  lemma ProfileRunsAlike(h: Host, a: Chain, b: Chain, profile: Profile)
    requires a.rules == b.rules && !IsBlock(profile)
    ensures AllAccepted(h, ProfileCommands(profile))
    ensures ApplyAll(h, a, ProfileCommands(profile)).rules == ApplyAll(h, b, ProfileCommands(profile)).rules
    ensures ApplyAll(h, a, ProfileCommands(profile)).policy == a.policy
  {
    ProfileScriptShape(profile.name);
    if profile.enabled {
      EnsuredRules(h, ProfileRules(profile.name));
      EnsureEachAlike(h, a, b, ProfileRules(profile.name));
    }
  }

  lemma {:induction false} EnsureEachAlike(h: Host, a: Chain, b: Chain, rules: seq<Rule>)
    requires a.rules == b.rules && AllAccepted(h, EnsureEach(rules))
    ensures ApplyAll(h, a, EnsureEach(rules)).rules == ApplyAll(h, b, EnsureEach(rules)).rules
    ensures ApplyAll(h, a, EnsureEach(rules)).policy == a.policy
    decreases rules
  {
    if rules != [] {
      EnsuredRules(h, rules[1..]);
      assert EnsureEach(rules)[1..] == EnsureEach(rules[1..]);
      EnsureEachAlike(h, Apply(h, a, EnsureLast(rules[0])), Apply(h, b, EnsureLast(rules[0])), rules[1..]);
    }
  }

  /** The rules a profile list leaves do not depend on where, or whether, BlockAllPublic stands in it. */
  lemma {:induction false} BlockOnlySetsPolicy(h: Host, a: Chain, b: Chain, profiles: seq<Profile>)
    requires a.rules == b.rules
    ensures AllAccepted(h, FlatMap(ProfileCommands, profiles))
    ensures AllAccepted(h, FlatMap(ProfileCommands, WithoutBlock(profiles)))
    ensures ApplyAll(h, a, FlatMap(ProfileCommands, profiles))
         == Chain(ApplyAll(h, b, FlatMap(ProfileCommands, WithoutBlock(profiles))).rules,
                  if Profile(true, BLOCK_ALL_PUBLIC) in profiles then Drop else a.policy)
    decreases profiles
  {
    ProfilesAreTail(h, profiles);
    ProfilesAreTail(h, WithoutBlock(profiles));
    if profiles != [] {
      var q, rest := profiles[0], profiles[1..];
      ProfilesAreTail(h, rest);
      ProfilesAreTail(h, WithoutBlock(rest));
      assert forall x :: x in profiles <==> x == q || x in rest;
      if IsBlock(q) {
        OnceAccepted(h, SetPolicy(Drop));
        ApplyAllConcat(h, a, [SetPolicy(Drop)], FlatMap(ProfileCommands, rest));
        BlockOnlySetsPolicy(h, a.(policy := Drop), b, rest);
        assert WithoutBlock(profiles) == WithoutBlock(rest);
        assert ApplyAll(h, a, [SetPolicy(Drop)]) == a.(policy := Drop);
      } else {
        ProfileRunsAlike(h, a, b, q);
        var mine := ProfileCommands(q);
        ApplyAllConcat(h, a, mine, FlatMap(ProfileCommands, rest));
        ApplyAllConcat(h, b, mine, FlatMap(ProfileCommands, WithoutBlock(rest)));
        BlockOnlySetsPolicy(h, ApplyAll(h, a, mine), ApplyAll(h, b, mine), rest);
        assert WithoutBlock(profiles) == [q] + WithoutBlock(rest);
        assert WithoutBlock(profiles)[1..] == WithoutBlock(rest);
      }
    }
  }

  /** Moving BlockAllPublic within the profile list changes neither the chain nor the policy. */
  lemma BlockPlaceIrrelevant(h: Host, safety: seq<Rule>, st: Chain, c1: Config, c2: Config)
    requires c1.ports == c2.ports
    requires WithoutBlock(c1.profiles) == WithoutBlock(c2.profiles)
    requires BlocksPublic(c1) == BlocksPublic(c2)
    ensures RunScript(h, st, ScriptWith(safety, c1)) == RunScript(h, st, ScriptWith(safety, c2))
  {
    RunSplits(h, st, safety, c1);
    RunSplits(h, st, safety, c2);
    var mid := ApplyAll(h, st, InsertEach(safety));
    var ports := FlatMap(PortRuleCommands, c1.ports);
    BlockOnlySetsPolicy(h, mid, mid, c1.profiles);
    BlockOnlySetsPolicy(h, mid, mid, c2.profiles);
    SectionedRun(h, mid, FlatMap(ProfileCommands, c1.profiles), ports);
    SectionedRun(h, mid, FlatMap(ProfileCommands, c2.profiles), ports);
  }

  lemma SectionedRun(h: Host, st: Chain, a: seq<Command>, b: seq<Command>)
    requires AllAccepted(h, a)
    ensures RunScript(h, st, a + b) == ApplyAll(h, ApplyAll(h, st, a), Executed(h, b))
  {
    ExecutedConcat(h, a, b);
    ApplyAllConcat(h, st, a, Executed(h, b));
  }
}
