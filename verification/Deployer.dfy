/** How a configuration is split into the host lists the storage and swarm setups receive. */
module Deployer {
  import opened Prelude
  import opened Storage

  datatype Node = Node(host: Host, role: string, enabled: bool, storageEnabled: bool)

  predicate TakesStorage(n: Node) { n.enabled && n.storageEnabled }

  function StorageHosts(nodes: seq<Node>, roles: set<string>): seq<Host> {
    if nodes == [] then []
    else
      var k := |nodes| - 1;
      StorageHosts(nodes[..k], roles)
        + (if TakesStorage(nodes[k]) && nodes[k].role in roles then [nodes[k].host] else [])
  }

  function SwarmHosts(nodes: seq<Node>, roles: set<string>): seq<Host> {
    if nodes == [] then []
    else
      var k := |nodes| - 1;
      SwarmHosts(nodes[..k], roles)
        + (if nodes[k].enabled && nodes[k].role in roles then [nodes[k].host] else [])
  }

  /** Every storage host with the role configured last for it. */
  function RoleTable(nodes: seq<Node>): map<Host, string> {
    if nodes == [] then map[]
    else
      var k := |nodes| - 1;
      if TakesStorage(nodes[k]) then RoleTable(nodes[..k])[nodes[k].host := nodes[k].role] else RoleTable(nodes[..k])
  }

  /** "Both" nodes stand in both lists; the third list has every storage host once. */
  method GetStorageNodesByRole(nodes: seq<Node>) returns (managers: seq<Host>, workers: seq<Host>, unique: seq<Host>)
    ensures managers == StorageHosts(nodes, {"manager", "both"})
    ensures workers == StorageHosts(nodes, {"worker", "both"})
    ensures forall h :: h in unique <==> exists n :: n in nodes && TakesStorage(n) && n.host == h
    ensures forall i, j :: 0 <= i < j < |unique| ==> unique[i] != unique[j]
  {
    managers, workers, unique := [], [], [];
    for i := 0 to |nodes|
      invariant managers == StorageHosts(nodes[..i], {"manager", "both"})
      invariant workers == StorageHosts(nodes[..i], {"worker", "both"})
      invariant forall h :: h in unique <==> exists j :: 0 <= j < i && TakesStorage(nodes[j]) && nodes[j].host == h
      invariant forall i, j :: 0 <= i < j < |unique| ==> unique[i] != unique[j]
    {
      assert nodes[..i + 1][..i] == nodes[..i];
      var n := nodes[i];
      if !TakesStorage(n) { continue; }
      match n.role {
        case "manager" => managers := managers + [n.host];
        case "worker" => workers := workers + [n.host];
        case "both" =>
          managers := managers + [n.host];
          workers := workers + [n.host];
        case _ =>
      }
      if n.host !in unique { unique := unique + [n.host]; }
    }
    assert nodes[..|nodes|] == nodes;
  }

  /** For the swarm, "both" nodes are managers. */
  method CategorizeNodes(nodes: seq<Node>) returns (managers: seq<Host>, workers: seq<Host>)
    ensures managers == SwarmHosts(nodes, {"manager", "both"})
    ensures workers == SwarmHosts(nodes, {"worker"})
  {
    managers, workers := [], [];
    for i := 0 to |nodes|
      invariant managers == SwarmHosts(nodes[..i], {"manager", "both"})
      invariant workers == SwarmHosts(nodes[..i], {"worker"})
    {
      assert nodes[..i + 1][..i] == nodes[..i];
      if !nodes[i].enabled { continue; }
      match nodes[i].role {
        case "manager" => managers := managers + [nodes[i].host];
        case "both" => managers := managers + [nodes[i].host];
        case "worker" => workers := workers + [nodes[i].host];
        case _ =>
      }
    }
    assert nodes[..|nodes|] == nodes;
  }

  /** The hosts of the nodes that satisfy the predicate, in configuration order: `at` tells where each one stands. */
  ghost predicate InOrder(nodes: seq<Node>, chosen: Node -> bool, hosts: seq<Host>, at: seq<nat>) {
    && |hosts| == |at|
    && (forall i :: 0 <= i < |at| ==> at[i] < |nodes| && chosen(nodes[at[i]]) && hosts[i] == nodes[at[i]].host)
    && (forall i, j :: 0 <= i < j < |at| ==> at[i] < at[j])
    && (forall k: nat :: k < |nodes| && chosen(nodes[k]) ==> k in at)
  }

  /** One more node. */
  lemma InOrderSnoc(nodes: seq<Node>, k: nat, chosen: Node -> bool, hosts: seq<Host>, at: seq<nat>)
    requires k < |nodes| && InOrder(nodes[..k], chosen, hosts, at)
    ensures chosen(nodes[k]) ==> InOrder(nodes[..k + 1], chosen, hosts + [nodes[k].host], at + [k])
    ensures !chosen(nodes[k]) ==> InOrder(nodes[..k + 1], chosen, hosts, at)
  {
    var more := nodes[..k + 1];
    assert forall i :: 0 <= i < k ==> more[i] == nodes[..k][i];
    forall i: nat | i < |more| && chosen(more[i]) && i < k ensures i in at {
      assert chosen(nodes[..k][i]);
    }
    assert (at + [k])[|at|] == k;
  }

  /** The swarm lists: the enabled nodes of the roles, in configuration order, so that the first one leads. */
  lemma {:induction false} SwarmHostsInOrder(nodes: seq<Node>, roles: set<string>) returns (at: seq<nat>)
    ensures InOrder(nodes, (n: Node) => n.enabled && n.role in roles, SwarmHosts(nodes, roles), at)
  {
    at := [];
    if nodes != [] {
      var k := |nodes| - 1;
      at := SwarmHostsInOrder(nodes[..k], roles);
      InOrderSnoc(nodes, k, (n: Node) => n.enabled && n.role in roles, SwarmHosts(nodes[..k], roles), at);
      assert nodes[..k + 1] == nodes;
      if nodes[k].enabled && nodes[k].role in roles {
        at := at + [k];
      } else {
        assert SwarmHosts(nodes, roles) == SwarmHosts(nodes[..k], roles);
      }
    }
  }

  /** The storage lists: the enabled storage nodes of the roles, in configuration order. */
  lemma {:induction false} StorageHostsInOrder(nodes: seq<Node>, roles: set<string>) returns (at: seq<nat>)
    ensures InOrder(nodes, (n: Node) => n.enabled && n.storageEnabled && n.role in roles,
                    StorageHosts(nodes, roles), at)
  {
    at := [];
    if nodes != [] {
      var k := |nodes| - 1;
      at := StorageHostsInOrder(nodes[..k], roles);
      InOrderSnoc(nodes, k, (n: Node) => n.enabled && n.storageEnabled && n.role in roles,
                  StorageHosts(nodes[..k], roles), at);
      assert nodes[..k + 1] == nodes;
      if TakesStorage(nodes[k]) && nodes[k].role in roles {
        at := at + [k];
      } else {
        assert StorageHosts(nodes, roles) == StorageHosts(nodes[..k], roles);
      }
    }
  }

  predicate DistinctHosts(nodes: seq<Node>) {
    forall i, j :: 0 <= i < j < |nodes| ==> nodes[i].host != nodes[j].host
  }

  lemma {:induction false} HostsMembers(nodes: seq<Node>, roles: set<string>, h: Host)
    ensures h in StorageHosts(nodes, roles) <==>
      exists i :: 0 <= i < |nodes| && TakesStorage(nodes[i]) && nodes[i].role in roles && nodes[i].host == h
  {
    if nodes != [] {
      var k := |nodes| - 1;
      HostsMembers(nodes[..k], roles, h);
      assert forall i :: 0 <= i < k ==> nodes[..k][i] == nodes[i];
    }
  }

  /** The last storage entry of its host. */
  predicate LastEntry(nodes: seq<Node>, i: int) {
    0 <= i < |nodes| && TakesStorage(nodes[i]) &&
    forall j :: i < j < |nodes| && TakesStorage(nodes[j]) ==> nodes[j].host != nodes[i].host
  }

  /** The role table holds the role of each host's last storage entry. */
  lemma {:induction false} TableEntry(nodes: seq<Node>, i: nat)
    requires LastEntry(nodes, i)
    ensures nodes[i].host in RoleTable(nodes) && RoleTable(nodes)[nodes[i].host] == nodes[i].role
  {
    var k := |nodes| - 1;
    if i < k {
      assert LastEntry(nodes[..k], i);
      TableEntry(nodes[..k], i);
    }
  }

  lemma {:induction false} SomeLastEntry(nodes: seq<Node>, h: Host) returns (i: nat)
    requires exists j :: 0 <= j < |nodes| && TakesStorage(nodes[j]) && nodes[j].host == h
    ensures LastEntry(nodes, i) && nodes[i].host == h
  {
    var k := |nodes| - 1;
    if TakesStorage(nodes[k]) && nodes[k].host == h {
      i := k;
    } else {
      var j :| 0 <= j < |nodes| && TakesStorage(nodes[j]) && nodes[j].host == h;
      assert nodes[..k][j] == nodes[j];
      i := SomeLastEntry(nodes[..k], h);
    }
  }

  predicate Listed(role: string) { role == "manager" || role == "worker" || role == "both" }

  predicate WorkerEntry(n: Node) { TakesStorage(n) && (n.role == "worker" || n.role == "both") }

  /** A last entry says the same about disks as all entries of its host together say about mounts. */
  ghost predicate AgreesAt(nodes: seq<Node>, i: nat)
    requires i < |nodes|
  {
    DiskRole(nodes[i].role) <==> exists w :: w in nodes && WorkerEntry(w) && w.host == nodes[i].host
  }

  predicate ListedEntry(n: Node, h: Host) { TakesStorage(n) && Listed(n.role) && n.host == h }

  /** The last entries of all listed hosts do. A host listed once always agrees. */
  ghost predicate RolesAgree(nodes: seq<Node>) {
    forall i, n :: LastEntry(nodes, i) && n in nodes && ListedEntry(n, nodes[i].host) ==> AgreesAt(nodes, i)
  }

  function Lists(nodes: seq<Node>): seq<Host> {
    StorageHosts(nodes, {"manager", "both"}) + StorageHosts(nodes, {"worker", "both"})
  }

  lemma OnWorkerList(nodes: seq<Node>, h: Host)
    ensures h in StorageHosts(nodes, {"worker", "both"}) <==> exists w :: w in nodes && WorkerEntry(w) && w.host == h
  {
    HostsMembers(nodes, {"worker", "both"}, h);
    if w :| w in nodes && WorkerEntry(w) && w.host == h {
      var i :| 0 <= i < |nodes| && nodes[i] == w;
    }
  }

  lemma OnSomeList(nodes: seq<Node>, h: Host)
    ensures h in Lists(nodes) <==> exists n :: n in nodes && ListedEntry(n, h)
  {
    HostsMembers(nodes, {"manager", "both"}, h);
    HostsMembers(nodes, {"worker", "both"}, h);
    if h in Lists(nodes) {
      var j :| 0 <= j < |nodes| && TakesStorage(nodes[j]) && Listed(nodes[j].role) && nodes[j].host == h;
      assert nodes[j] in nodes && ListedEntry(nodes[j], h);
    }
    forall n | n in nodes && ListedEntry(n, h) ensures h in Lists(nodes) {
      var j :| 0 <= j < |nodes| && nodes[j] == n;
    }
  }

  /** A listed host gets disks exactly if its last storage entry has a role with disks. */
  lemma DisksByLastEntry(nodes: seq<Node>, i: nat)
    requires LastEntry(nodes, i)
    ensures GetsStorage(Some(RoleTable(nodes)), nodes[i].host) <==> DiskRole(nodes[i].role)
  {
    TableEntry(nodes, i);
  }

  /** A listed host that gets disks, and one on the worker list, which gets mounts. */
  ghost predicate GetsDisks(nodes: seq<Node>, h: Host) { h in Lists(nodes) && GetsStorage(Some(RoleTable(nodes)), h) }

  ghost predicate GetsMounts(nodes: seq<Node>, h: Host) { h in StorageHosts(nodes, {"worker", "both"}) }

  /**
   * With the lists and the role table of one configuration, the hosts that get
   * disks are those that get mounts exactly if the roles agree; pure managers then
   * get neither.
   */
  lemma DisksFollowTheWorkerList(nodes: seq<Node>)
    ensures (forall h :: GetsDisks(nodes, h) <==> GetsMounts(nodes, h)) <==> RolesAgree(nodes)
  {
    if RolesAgree(nodes) {
      forall h ensures GetsDisks(nodes, h) <==> GetsMounts(nodes, h) {
        AgreeingHost(nodes, h);
      }
    }
    if forall h :: GetsDisks(nodes, h) <==> GetsMounts(nodes, h) {
      forall i, n | LastEntry(nodes, i) && n in nodes && ListedEntry(n, nodes[i].host) ensures AgreesAt(nodes, i) {
        AgreeingEntry(nodes, i, n);
      }
    }
  }

  lemma AgreeingHost(nodes: seq<Node>, h: Host)
    requires RolesAgree(nodes)
    ensures GetsDisks(nodes, h) <==> GetsMounts(nodes, h)
  {
    OnSomeList(nodes, h);
    OnWorkerList(nodes, h);
    if h in Lists(nodes) {
      var n :| n in nodes && ListedEntry(n, h);
      var j :| 0 <= j < |nodes| && nodes[j] == n;
      var i := SomeLastEntry(nodes, h);
      DisksByLastEntry(nodes, i);
      assert AgreesAt(nodes, i);
    }
  }

  lemma AgreeingEntry(nodes: seq<Node>, i: nat, n: Node)
    requires LastEntry(nodes, i) && n in nodes && ListedEntry(n, nodes[i].host)
    requires GetsDisks(nodes, nodes[i].host) <==> GetsMounts(nodes, nodes[i].host)
    ensures AgreesAt(nodes, i)
  {
    OnSomeList(nodes, nodes[i].host);
    OnWorkerList(nodes, nodes[i].host);
    DisksByLastEntry(nodes, i);
  }

  /** A configuration that lists every host once agrees. */
  lemma DistinctHostsAgree(nodes: seq<Node>)
    requires DistinctHosts(nodes)
    ensures RolesAgree(nodes)
  {
    forall i, n | LastEntry(nodes, i) && n in nodes && ListedEntry(n, nodes[i].host) ensures AgreesAt(nodes, i) {
      RoleTexts();
      OnlyEntry(nodes, i, n);
      assert nodes[i] in nodes;
      if w :| w in nodes && WorkerEntry(w) && w.host == nodes[i].host { OnlyEntry(nodes, i, w); }
    }
  }

  lemma OnlyEntry(nodes: seq<Node>, i: nat, n: Node)
    requires DistinctHosts(nodes) && i < |nodes| && n in nodes && n.host == nodes[i].host
    ensures n == nodes[i]
  {
    var k :| 0 <= k < |nodes| && nodes[k] == n;
  }

  /** A host listed as worker and later as manager is mounted, but gets no disks. */
  lemma LaterManagerLosesDisks(h: Host)
    ensures var nodes := [Node(h, "worker", true, true), Node(h, "manager", true, true)];
      GetsMounts(nodes, h) && !GetsDisks(nodes, h)
  {
    var nodes := [Node(h, "worker", true, true), Node(h, "manager", true, true)];
    OnWorkerList(nodes, h);
    assert nodes[0] in nodes && WorkerEntry(nodes[0]);
    assert LastEntry(nodes, 1);
    DisksByLastEntry(nodes, 1);
    RoleTexts();
  }

  lemma RoleTexts()
    ensures ToLower(TrimSpace("worker")) == "worker" && ToLower(TrimSpace("both")) == "both"
    ensures ToLower(TrimSpace("manager")) == "manager"
  {
  }

  /** The whole path from a configuration to a served cluster; without storage hosts there is nothing to do. */
  method SetupStorage(m: Machines, nodes: seq<Node>, eligible: map<Host, nat>, allowLoop: bool) returns (ok: bool)
    requires m.log == []
    modifies m
    ensures ok ==>
      && (forall h :: h in Served(m.log) <==> GetsDisks(nodes, h))
      && (forall h :: GetsMounts(nodes, h) ==> Mounted(h) in m.log)
      && (forall n :: n in nodes && TakesStorage(n) && Listed(n.role) ==> n.host in m.members)
      && (RolesAgree(nodes) <==> Served(m.log) == set h | h in StorageHosts(nodes, {"worker", "both"}))
  {
    var managers, workers, unique := GetStorageNodesByRole(nodes);
    if managers + workers == [] {
      ok := true;
    } else {
      ok := SetupCluster(m, managers, workers, Some(RoleTable(nodes)), eligible, allowLoop);
    }
    if ok {
      DisksFollowTheWorkerList(nodes);
      forall n | n in nodes && TakesStorage(n) && Listed(n.role) ensures n.host in m.members {
        OnSomeList(nodes, n.host);
        assert ListedEntry(n, n.host);
      }
      assert forall h :: h in Served(m.log) <==> GetsDisks(nodes, h);
      SameHosts(nodes, Served(m.log));
    }
  }

  lemma SameHosts(nodes: seq<Node>, served: set<Host>)
    requires forall h :: h in served <==> GetsDisks(nodes, h)
    ensures served == (set h | h in StorageHosts(nodes, {"worker", "both"}))
       <==> forall h :: GetsDisks(nodes, h) <==> GetsMounts(nodes, h)
  {
    var workers := set h | h in StorageHosts(nodes, {"worker", "both"});
    assert forall h :: h in workers <==> GetsMounts(nodes, h);
    if forall h :: GetsDisks(nodes, h) <==> GetsMounts(nodes, h) {
      assert served == workers;
    }
  }
}
