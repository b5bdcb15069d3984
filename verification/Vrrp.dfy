/** Priorities, router identifiers, and the election they decide. */
module Vrrp {
  import opened Prelude
  import opened Ipv4

  const BASE_PRIORITY: int := 100

  /** The weight of the failing health check. */
  const UNHEALTHY_WEIGHT: int := 20

  const FALLBACK_ROUTER_ID: int := 51

  /** Per-node settings; None stands for "auto", the empty text, or a number that does not parse. */
  datatype NodeSettings = NodeSettings(host: string, priority: Option<int>, state: Option<string>)

  datatype NodeConfig = NodeConfig(host: string, priority: int, state: string)

  function ResolveNodeConfig(n: NodeSettings, index: nat): NodeConfig {
    NodeConfig(
      n.host,
      if n.priority.Some? then n.priority.value else BASE_PRIORITY - index,
      if n.state.Some? then ToUpper(n.state.value) else if index == 0 then "MASTER" else "BACKUP")
  }

  /** Nodes outside the reference subnet are dropped first; the survivors are indexed from zero. */
  method PrepareNodes(nodes: seq<NodeSettings>, sameSubnet: seq<bool>) returns (configs: seq<NodeConfig>)
    requires |sameSubnet| == |nodes|
    ensures |configs| == |Eligible(nodes, sameSubnet)|
    ensures forall i :: 0 <= i < |configs| ==> configs[i] == ResolveNodeConfig(Eligible(nodes, sameSubnet)[i], i)
  {
    var eligible := [];
    for i := 0 to |nodes|
      invariant eligible == Eligible(nodes[..i], sameSubnet[..i])
    {
      assert nodes[..i + 1][..i] == nodes[..i] && sameSubnet[..i + 1][..i] == sameSubnet[..i];
      if !sameSubnet[i] { continue; }
      eligible := eligible + [nodes[i]];
    }
    assert nodes[..|nodes|] == nodes && sameSubnet[..|nodes|] == sameSubnet;
    configs := [];
    for i := 0 to |eligible|
      invariant |configs| == i
      invariant forall j :: 0 <= j < i ==> configs[j] == ResolveNodeConfig(eligible[j], j)
    {
      configs := configs + [ResolveNodeConfig(eligible[i], i)];
    }
  }

  function Eligible(nodes: seq<NodeSettings>, sameSubnet: seq<bool>): seq<NodeSettings>
    requires |sameSubnet| == |nodes|
  {
    if nodes == [] then []
    else
      var k := |nodes| - 1;
      Eligible(nodes[..k], sameSubnet[..k]) + (if sameSubnet[k] then [nodes[k]] else [])
  }

  predicate Automatic(nodes: seq<NodeSettings>) { forall n :: n in nodes ==> n.priority.None? && n.state.None? }

  /** What a node advertises: its priority, lowered while its health check fails. */
  function Effective(c: NodeConfig, healthy: bool): int { c.priority - (if healthy then 0 else UNHEALTHY_WEIGHT) }

  /** The node that outranks all others. */
  ghost predicate Wins(configs: seq<NodeConfig>, healthy: seq<bool>, w: nat)
    requires |healthy| == |configs|
  {
    w < |configs| && forall i :: 0 <= i < |configs| && i != w ==>
      Effective(configs[i], healthy[i]) < Effective(configs[w], healthy[w])
  }

  /** The lowest-indexed healthy node, or the first node when none is healthy. */
  ghost predicate Expected(healthy: seq<bool>, w: nat) {
    w < |healthy| &&
    if exists i :: 0 <= i < |healthy| && healthy[i]
    then healthy[w] && forall i :: 0 <= i < w ==> !healthy[i]
    else w == 0
  }

  ghost predicate AutoConfigs(configs: seq<NodeConfig>) {
    forall i :: 0 <= i < |configs| ==> configs[i].priority == BASE_PRIORITY - i
  }

  /**
   * With automatic priorities, every assignment of healthy and unhealthy nodes
   * gives distinct effective priorities and elects the expected node, exactly when
   * there are at most 20 nodes, which is what the health check weighs.
   */
  lemma ElectionBound(configs: seq<NodeConfig>)
    requires AutoConfigs(configs)
    ensures |configs| <= 20 <==> forall healthy: seq<bool>, i, j ::
      |healthy| == |configs| && 0 <= i < j < |configs| ==>
        Effective(configs[i], healthy[i]) != Effective(configs[j], healthy[j])
    ensures |configs| <= 20 ==> forall healthy: seq<bool>, w: nat ::
      |healthy| == |configs| && Expected(healthy, w) ==> Wins(configs, healthy, w)
  {
    if |configs| > UNHEALTHY_WEIGHT {
      var healthy := seq(|configs|, i => i != 0);
      assert !healthy[0] && healthy[20];
      assert Effective(configs[0], healthy[0]) == 80 == Effective(configs[20], healthy[20]);
    }
  }

  lemma {:induction false} SomeoneIsExpected(healthy: seq<bool>) returns (w: nat)
    requires healthy != []
    ensures Expected(healthy, w)
  {
    w := 0;
    while w < |healthy| && !healthy[w]
      invariant w <= |healthy| && forall i :: 0 <= i < w ==> !healthy[i]
    {
      w := w + 1;
    }
    if w == |healthy| { w := 0; }
  }

  /** The election in a prepared deployment has exactly one winner, and it is the expected one. */
  lemma PreparedElection(nodes: seq<NodeSettings>, configs: seq<NodeConfig>, healthy: seq<bool>, w: nat)
    requires Automatic(nodes) && |configs| == |nodes| == |healthy| && 0 < |nodes| <= 20
    requires forall i :: 0 <= i < |configs| ==> configs[i] == ResolveNodeConfig(nodes[i], i)
    ensures Wins(configs, healthy, w) <==> Expected(healthy, w)
    ensures configs[0].state == "MASTER" && forall i :: 0 < i < |configs| ==> configs[i].state == "BACKUP"
  {
    assert AutoConfigs(configs) by {
      forall i | 0 <= i < |configs| ensures configs[i].priority == BASE_PRIORITY - i {
        assert nodes[i] in nodes;
      }
    }
    assert forall i :: 0 <= i < |configs| ==> nodes[i] in nodes;
    ElectionBound(configs);
    var e := SomeoneIsExpected(healthy);
    assert Wins(configs, healthy, e);
  }

  /** Automatic priorities stay in the range of section 5.3.4 of RFC 3768 for backup routers, up to 100 nodes. */
  lemma PriorityRange(n: NodeSettings, index: nat)
    requires n.priority.None?
    ensures 1 <= ResolveNodeConfig(n, index).priority <= 254 <==> index < 100
  {
  }

  /**
   * The configured settings are the ones used: the host is kept, a configured
   * priority replaces the automatic one, and a configured state, in upper case, the
   * one that makes the first node the master.
   */
  lemma SettingsAreUsed(n: NodeSettings, index: nat)
    ensures var c := ResolveNodeConfig(n, index);
      && c.host == n.host
      && c.priority == (match n.priority case Some(configured) => configured case None => 100 - index)
      && (n.state.Some? ==> |c.state| == |n.state.value| && forall i :: 0 <= i < |c.state| ==>
            var x, y := n.state.value[i], c.state[i];
            !('a' <= y <= 'z') && (y == x || y as int + 32 == x as int))
      && (n.state.None? ==> (c.state == "MASTER" <==> index == 0) && (c.state == "BACKUP" <==> index != 0))
  {
  }

  /** The nodes that pass the filter, in their order: `at` tells where each one stands. */
  ghost predicate InOrder(nodes: seq<NodeSettings>, pass: seq<bool>, out: seq<NodeSettings>, at: seq<nat>)
    requires |pass| == |nodes|
  {
    && |out| == |at|
    && (forall i :: 0 <= i < |at| ==> at[i] < |nodes| && pass[at[i]] && out[i] == nodes[at[i]])
    && (forall i, j :: 0 <= i < j < |at| ==> at[i] < at[j])
    && (forall k: nat :: k < |nodes| && pass[k] ==> k in at)
  }

  lemma InOrderSnoc(nodes: seq<NodeSettings>, pass: seq<bool>, k: nat, out: seq<NodeSettings>, at: seq<nat>)
    requires |pass| == |nodes| && k < |nodes| && InOrder(nodes[..k], pass[..k], out, at)
    ensures pass[k] ==> InOrder(nodes[..k + 1], pass[..k + 1], out + [nodes[k]], at + [k])
    ensures !pass[k] ==> InOrder(nodes[..k + 1], pass[..k + 1], out, at)
  {
    forall i: nat | i < k && pass[i] ensures i in at {
      assert pass[..k][i];
    }
    assert (at + [k])[|at|] == k;
  }

  lemma {:induction false} SurvivorsInOrder(nodes: seq<NodeSettings>, sameSubnet: seq<bool>) returns (at: seq<nat>)
    requires |sameSubnet| == |nodes|
    ensures InOrder(nodes, sameSubnet, Eligible(nodes, sameSubnet), at)
  {
    at := [];
    if nodes != [] {
      var k := |nodes| - 1;
      at := SurvivorsInOrder(nodes[..k], sameSubnet[..k]);
      InOrderSnoc(nodes, sameSubnet, k, Eligible(nodes[..k], sameSubnet[..k]), at);
      assert nodes[..k + 1] == nodes && sameSubnet[..k + 1] == sameSubnet;
      if sameSubnet[k] {
        at := at + [k];
      } else {
        assert Eligible(nodes, sameSubnet) == Eligible(nodes[..k], sameSubnet[..k]);
      }
    }
  }

  /** The router identifier setting: automatic, a number, or a text that is none. */
  datatype RouterSetting = AutoRouter | RouterNumber(id: int) | NoNumber

  /** The last octet of the virtual address, or the fallback. None stands for text that is no IPv4 address. */
  function AutoRouterId(vip: Option<Addr>): int {
    var id := if vip.Some? then FromUint32(vip.value).b3 else 0;
    if id == 0 then FALLBACK_ROUTER_ID else id
  }

  function RouterId(setting: RouterSetting, vip: Option<Addr>): int {
    match setting
    case AutoRouter => AutoRouterId(vip)
    case RouterNumber(id) => id
    case NoNumber => FALLBACK_ROUTER_ID
  }

  /**
   * An automatic identifier is valid: the last octet, unless there is none or it is
   * zero. A configured number is kept.
   */
  lemma RouterIdRange(setting: RouterSetting, vip: Option<Addr>)
    ensures !setting.RouterNumber? ==> 1 <= RouterId(setting, vip) <= 255
    ensures RouterId(setting, vip) ==
      if setting.RouterNumber? then setting.id
      else if setting.AutoRouter? && vip.Some? && vip.value % 256 != 0 then vip.value % 256
      else 51
  {
  }
}
