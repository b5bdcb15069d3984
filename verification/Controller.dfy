/** The controller's answer to one connection, and when it says "ready". */
module Controller {
  import opened Prelude
  import opened Store

  datatype Options = Options(waitForMinimum: bool, minManagers: int, minWorkers: int)

  datatype Status = Ready | Waiting

  datatype Response = Response(status: Status, swarmRole: string, storageEnabled: bool, storageReady: bool)

  /** The four actions; an empty action text means register, any other text is refused. */
  datatype Action = Register | Deregister | StorageReady | CheckStatus

  function ParseAction(text: string): Option<Action> {
    if text == "" || text == "register" then Some(Register)
    else if text == "deregister" then Some(Deregister)
    else if text == "storage-ready" then Some(StorageReady)
    else if text == "check-status" then Some(CheckStatus)
    else None
  }

  /** The store operation of an action; a status check has none. */
  function OpOf(action: Action, reg: Registration): Option<Op> {
    match action
    case Register => Some(Add(reg))
    case Deregister => Some(Delete(KeyOf(reg)))
    case StorageReady => Some(SetStorageReady(true))
    case CheckStatus => None
  }

  predicate StorageRole(role: string) { role == "worker" || role == "manager" || role == "both" }

  /** The primary master counts as one more manager. */
  predicate MinimumReached(opts: Options, nodes: seq<Registration>) {
    CountRole(nodes, "manager") + 1 >= opts.minManagers && CountRole(nodes, "worker") >= opts.minWorkers
  }

  predicate StorageBlocks(reg: Registration, s: ClusterState) {
    reg.storageEnabled && s.storageEnabled && StorageRole(reg.role) && !s.storageReady
  }

  function Answer(opts: Options, action: Action, reg: Registration, s: ClusterState): Status {
    if StorageBlocks(reg, s) then Waiting
    else if action == Deregister || !opts.waitForMinimum || MinimumReached(opts, s.nodes) then Ready
    else Waiting
  }

  method CountRoles(nodes: seq<Registration>) returns (managers: nat, workers: nat)
    ensures managers == CountRole(nodes, "manager") && workers == CountRole(nodes, "worker")
  {
    managers, workers := 0, 0;
    for i := 0 to |nodes|
      invariant managers == CountRole(nodes[..i], "manager") && workers == CountRole(nodes[..i], "worker")
    {
      CountSnoc(nodes, i, "manager");
      CountSnoc(nodes, i, "worker");
      match nodes[i].role {
        case "manager" => managers := managers + 1;
        case "worker" => workers := workers + 1;
        case _ =>
      }
    }
    assert nodes[..|nodes|] == nodes;
  }

  lemma {:induction false} CountConcat(a: seq<Registration>, b: seq<Registration>, role: string)
    ensures CountRole(a + b, role) == CountRole(a, role) + CountRole(b, role)
  {
    if a == [] {
      assert a + b == b;
    } else {
      CountConcat(a[1..], b, role);
      assert (a + b)[1..] == a[1..] + b;
    }
  }

  lemma CountSnoc(nodes: seq<Registration>, i: nat, role: string)
    requires i < |nodes|
    ensures CountRole(nodes[..i + 1], role) == CountRole(nodes[..i], role) + (if nodes[i].role == role then 1 else 0)
  {
    assert nodes[..i + 1] == nodes[..i] + [nodes[i]];
    CountConcat(nodes[..i], [nodes[i]], role);
    assert [nodes[i]][1..] == [];
  }

  /** The action texts, with what each does to the node list and the storage flag; the rest of the state stays. */
  ghost predicate Did(text: string, reg: Registration, before: ClusterState, after: ClusterState) {
    && after == before.(nodes := after.nodes, storageReady := after.storageReady)
    && (if text == "" || text == "register" then Registered(reg, before.nodes, after.nodes)
        else if text == "deregister" then Deregistered(KeyOf(reg), before.nodes, after.nodes)
        else after.nodes == before.nodes)
    && (if text == "storage-ready" then after.storageReady else after.storageReady == before.storageReady)
  }

  /** The key now maps to the registration; all others are where and what they were. */
  ghost predicate Registered(reg: Registration, before: seq<Registration>, after: seq<Registration>) {
    && AsMap(after) == AsMap(before)[KeyOf(reg) := reg]
    && Others(after, KeyOf(reg)) == Others(before, KeyOf(reg))
    && (UniqueKeys(before) ==> UniqueKeys(after))
  }

  /** The key is gone; all others are where and what they were. Duplicates of a key go one at a time. */
  ghost predicate Deregistered(key: Key, before: seq<Registration>, after: seq<Registration>) {
    && (UniqueKeys(before) ==> AsMap(after) == AsMap(before) - {key} && UniqueKeys(after))
    && Others(after, key) == Others(before, key)
  }

  predicate KnownAction(text: string) {
    text in {"", "register", "deregister", "storage-ready", "check-status"}
  }

  /** The action saves, so that its answer depends on the save. */
  predicate SavesOn(text: string, reg: Registration, before: ClusterState) {
    || text in {"", "register", "storage-ready"}
    || (text == "deregister" && KeyOf(reg) in AsMap(before.nodes))
  }

  /** The node has to wait for storage it takes part in. */
  predicate WaitsForStorage(reg: Registration, s: ClusterState) {
    reg.storageEnabled && s.storageEnabled && reg.role in {"worker", "manager", "both"} && !s.storageReady
  }

  /** The minimum is reached, the primary master counting as one more manager. */
  predicate Enough(opts: Options, nodes: seq<Registration>) {
    CountRole(nodes, "manager") + 1 >= opts.minManagers && CountRole(nodes, "worker") >= opts.minWorkers
  }

  /** What a node is told: to wait for storage or for the minimum, of which a deregistration is free. */
  ghost predicate Told(opts: Options, text: string, reg: Registration, s: ClusterState, resp: Response) {
    && (resp.status == Ready <==>
          && !WaitsForStorage(reg, s)
          && (text == "deregister" || (opts.waitForMinimum ==> Enough(opts, s.nodes))))
    && resp.swarmRole == reg.role
    && resp.storageEnabled == (reg.storageEnabled && s.storageEnabled)
    && (resp.storageReady <==> reg.storageEnabled && s.storageEnabled && s.storageReady)
  }

  lemma RegisterDoes(reg: Registration, s: ClusterState)
    ensures var t := Update(s, Add(reg));
      t == s.(nodes := t.nodes) && Registered(reg, s.nodes, t.nodes) && Saves(s, Add(reg))
  {
    UpsertRefines(s.nodes, reg);
  }

  lemma DeregisterDoes(key: Key, s: ClusterState)
    ensures var t := Update(s, Delete(key));
      t == s.(nodes := t.nodes) && Deregistered(key, s.nodes, t.nodes)
    ensures Saves(s, Delete(key)) <==> key in AsMap(s.nodes)
  {
    RemoveKeepsOthers(s.nodes, key);
    if UniqueKeys(s.nodes) { RemoveRefines(s.nodes, key); }
    MapHolds(s.nodes, key);
  }

  /** The known actions are those parsed, and their operations do what is said of them. */
  lemma ActionsDo(text: string, reg: Registration, s: ClusterState)
    ensures ParseAction(text).Some? <==> KnownAction(text)
    ensures ParseAction(text).Some? ==>
      var op := OpOf(ParseAction(text).value, reg);
      && Did(text, reg, s, if op.Some? then Update(s, op.value) else s)
      && (op.Some? && Saves(s, op.value) <==> SavesOn(text, reg, s))
  {
    match ParseAction(text) {
      case Some(Register) => RegisterDoes(reg, s);
      case Some(Deregister) => DeregisterDoes(KeyOf(reg), s);
      case _ =>
    }
  }

  /** The answer is what is said of it. */
  lemma AnswerIsTold(opts: Options, text: string, reg: Registration, s: ClusterState)
    requires KnownAction(text)
    ensures ParseAction(text).Some?
    ensures Answer(opts, ParseAction(text).value, reg, s) == Ready <==>
      && !WaitsForStorage(reg, s)
      && (text == "deregister" || (opts.waitForMinimum ==> Enough(opts, s.nodes)))
  {
  }

  /** The response to an action, filled in field by field from the store's snapshot. */
  method FillResponse(opts: Options, action: Action, reg: Registration, state: ClusterState) returns (r: Response)
    ensures r.status == Answer(opts, action, reg, state)
    ensures r.swarmRole == reg.role
    ensures r.storageEnabled == (reg.storageEnabled && state.storageEnabled)
    ensures r.storageReady <==> reg.storageEnabled && state.storageEnabled && state.storageReady
  {
    var managers, workers := CountRoles(state.nodes);
    r := Response(Ready, reg.role, false, false);
    if action == Deregister || !opts.waitForMinimum {
      r := r.(status := Ready);
    } else {
      var totalManagers := managers + 1;
      r := r.(status := if totalManagers >= opts.minManagers && workers >= opts.minWorkers then Ready else Waiting);
    }
    if reg.storageEnabled && state.storageEnabled {
      r := r.(storageEnabled := true, storageReady := state.storageReady);
      if StorageRole(reg.role) && !state.storageReady {
        r := r.(status := Waiting);
      }
    }
  }

  /** Lets the store change, then answers from the snapshot the store returned. */
  method Serve(store: FileStore, opts: Options, action: Action, reg: Registration, io: SaveResult)
    returns (resp: Option<Response>)
    modifies store
    ensures var op := OpOf(action, reg);
      && store.Abs() == (if op.Some? then Step(old(store.Abs()), op.value, io) else old(store.Abs()))
      && (resp.Some? <==> (op.Some? && Saves(old(store.state), op.value) ==> io.Saved?))
    ensures resp.Some? ==>
      && resp.value.status == Answer(opts, action, reg, store.state)
      && resp.value.swarmRole == reg.role
      && resp.value.storageEnabled == (reg.storageEnabled && store.state.storageEnabled)
      && (resp.value.storageReady <==> reg.storageEnabled && store.state.storageEnabled && store.state.storageReady)
  {
    var state, ok := EMPTY, true;
    match action {
      case Register => state, ok := store.AddRegistration(reg, io);
      case Deregister => state, ok := store.RemoveRegistration(reg.hostname, reg.role, io);
      case StorageReady => state, ok := store.SetFields(SetStorageReady(true), io);
      case CheckStatus => state := store.state;
    }
    if !ok { return None; }
    var r := FillResponse(opts, action, reg, state);
    resp := Some(r);
  }

  /**
   * One connection: parse the action and serve it. Memory keeps the change even when
   * the save fails, and then there is no answer.
   */
  method HandleConn(store: FileStore, opts: Options, actionText: string, reg: Registration, io: SaveResult)
    returns (resp: Option<Response>)
    modifies store
    ensures !KnownAction(actionText) ==> resp.None? && store.Abs() == old(store.Abs())
    ensures KnownAction(actionText) ==>
      && Did(actionText, reg, old(store.state), store.state)
      && (resp.Some? <==> (SavesOn(actionText, reg, old(store.state)) ==> io.Saved?))
      && (resp.Some? ==> Told(opts, actionText, reg, store.state, resp.value))
    ensures ParseAction(actionText).Some? ==>
      var op := OpOf(ParseAction(actionText).value, reg);
      store.Abs() == if op.Some? then Step(old(store.Abs()), op.value, io) else old(store.Abs())
  {
    ActionsDo(actionText, reg, store.state);
    var parsed := ParseAction(actionText);
    if parsed.None? { return None; }
    resp := Serve(store, opts, parsed.value, reg, io);
    if resp.Some? { AnswerIsTold(opts, actionText, reg, store.state); }
  }

  // ---------------------------------------------------------------- readiness over message histories

  /** A message, with the fate of the save it triggers. */
  datatype Message = Message(action: Action, reg: Registration, io: SaveResult)

  function Deliver(st: StoreState, m: Message): StoreState {
    match OpOf(m.action, m.reg)
    case Some(op) => Step(st, op, m.io)
    case None => st
  }

  function DeliverAll(st: StoreState, ms: seq<Message>): StoreState
    decreases ms
  {
    if ms == [] then st else DeliverAll(Deliver(st, ms[0]), ms[1..])
  }

  /** How many registrations of a role an upsert adds. */
  lemma CountUpsertExactly(nodes: seq<Registration>, reg: Registration, role: string)
    ensures CountRole(Upsert(nodes, reg), role)
         == CountRole(nodes, role) + (if reg.role == role && IndexOf(nodes, KeyOf(reg)) == |nodes| then 1 else 0)
  {
    var i := IndexOf(nodes, KeyOf(reg));
    if i < |nodes| {
      assert nodes[i].role == reg.role;
      assert nodes[i := nodes[i]] == nodes;
      CountAround(nodes, i, nodes[i], role);
      CountAround(nodes, i, reg, role);
    } else {
      CountConcat(nodes, [reg], role);
      assert [reg][1..] == [];
    }
  }

  lemma CountAround(nodes: seq<Registration>, i: nat, r: Registration, role: string)
    requires i < |nodes|
    ensures CountRole(nodes[i := r], role)
         == CountRole(nodes[..i], role) + (if r.role == role then 1 else 0) + CountRole(nodes[i + 1..], role)
  {
    var tail := [r] + nodes[i + 1..];
    assert nodes[i := r] == nodes[..i] + tail;
    CountConcat(nodes[..i], tail, role);
    assert tail[1..] == nodes[i + 1..];
  }

  /** What a later message may not take away: the minimum counts and storage readiness. */
  ghost predicate NoLess(s: ClusterState, t: ClusterState) {
    && (forall role :: CountRole(t.nodes, role) >= CountRole(s.nodes, role))
    && (s.storageReady ==> t.storageReady)
    && t.storageEnabled == s.storageEnabled
  }

  /** What a message does to the node list. */
  lemma DeliverNodes(st: StoreState, m: Message)
    requires m.action != Deregister
    ensures Deliver(st, m).mem.nodes == if m.action == Register then Upsert(st.mem.nodes, m.reg) else st.mem.nodes
    ensures st.mem.storageReady ==> Deliver(st, m).mem.storageReady
    ensures Deliver(st, m).mem.storageEnabled == st.mem.storageEnabled
  {
  }

  lemma {:induction false} MessagesTakeNothing(st: StoreState, ms: seq<Message>)
    requires forall m :: m in ms ==> m.action != Deregister
    ensures NoLess(st.mem, DeliverAll(st, ms).mem)
    decreases ms
  {
    if ms != [] {
      var m := ms[0];
      assert m in ms;
      var next := Deliver(st, m);
      DeliverNodes(st, m);
      if m.action == Register {
        forall role ensures CountRole(next.mem.nodes, role) >= CountRole(st.mem.nodes, role) {
          CountUpsertExactly(st.mem.nodes, m.reg, role);
        }
      }
      MessagesTakeNothing(next, ms[1..]);
    }
  }

  /** The state an answer to this message would be computed from. */
  function Seen(st: StoreState, action: Action, reg: Registration): ClusterState {
    match OpOf(action, reg)
    case Some(op) => Update(st.mem, op)
    case None => st.mem
  }

  /**
   * Readiness is monotone: once the controller would answer ready, it keeps doing
   * so after any register, storage-ready and check-status messages of any nodes,
   * whether or not their saves succeed.
   */
  lemma ReadyIsMonotone(opts: Options, st: StoreState, ms: seq<Message>, action: Action, reg: Registration)
    requires action != Deregister && forall m :: m in ms ==> m.action != Deregister
    requires Answer(opts, action, reg, Seen(st, action, reg)) == Ready
    ensures Answer(opts, action, reg, Seen(DeliverAll(st, ms), action, reg)) == Ready
  {
    SeenTakesNothing(st, ms, action, reg);
    MoreIsReady(opts, action, reg, Seen(st, action, reg), Seen(DeliverAll(st, ms), action, reg));
  }

  /** With no less registered and storage no less ready, the answer stays ready. */
  lemma MoreIsReady(opts: Options, action: Action, reg: Registration, s: ClusterState, t: ClusterState)
    requires action != Deregister && NoLess(s, t) && Answer(opts, action, reg, s) == Ready
    ensures Answer(opts, action, reg, t) == Ready
  {
  }

  lemma SeenTakesNothing(st: StoreState, ms: seq<Message>, action: Action, reg: Registration)
    requires action != Deregister && forall m :: m in ms ==> m.action != Deregister
    ensures NoLess(Seen(st, action, reg), Seen(DeliverAll(st, ms), action, reg))
  {
    MessagesTakeNothing(st, ms);
    if action == Register {
      forall role
        ensures CountRole(Upsert(DeliverAll(st, ms).mem.nodes, reg), role) >= CountRole(Upsert(st.mem.nodes, reg), role)
      {
        UpsertsKeepOrder(st, ms, reg, role);
      }
    }
  }

  /** Messages commute with a pending upsert as far as the counts go. */
  lemma {:induction false} UpsertsKeepOrder(st: StoreState, ms: seq<Message>, reg: Registration, role: string)
    requires forall m :: m in ms ==> m.action != Deregister
    ensures CountRole(Upsert(DeliverAll(st, ms).mem.nodes, reg), role) >= CountRole(Upsert(st.mem.nodes, reg), role)
    decreases ms
  {
    if ms != [] {
      var m := ms[0];
      assert m in ms;
      DeliverNodes(st, m);
      UpsertsKeepOrder(Deliver(st, m), ms[1..], reg, role);
      if m.action == Register { UpsertTwice(st.mem.nodes, m.reg, reg, role); }
    }
  }

  lemma UpsertTwice(nodes: seq<Registration>, first: Registration, reg: Registration, role: string)
    ensures CountRole(Upsert(Upsert(nodes, first), reg), role) >= CountRole(Upsert(nodes, reg), role)
  {
    var after := Upsert(nodes, first);
    CountUpsertExactly(nodes, first, role);
    CountUpsertExactly(after, reg, role);
    CountUpsertExactly(nodes, reg, role);
    if KeyOf(first) != KeyOf(reg) && IndexOf(nodes, KeyOf(reg)) == |nodes| {
      assert forall r :: r in after ==> r == first || r in nodes;
      assert IndexOf(after, KeyOf(reg)) == |after|;
    }
  }

  /**
   * What a ready answer guarantees when waiting is enabled: the minimum counts
   * hold, and storage is ready for a node that takes part in it.
   */
  lemma ReadyMeansReady(opts: Options, action: Action, reg: Registration, s: ClusterState)
    requires opts.waitForMinimum && action != Deregister
    ensures Answer(opts, action, reg, s) == Ready <==>
      && MinimumReached(opts, s.nodes)
      && (reg.storageEnabled && s.storageEnabled && StorageRole(reg.role) ==> s.storageReady)
  {
  }

  /** A removal can take readiness away, so the restriction on messages is needed. */
  lemma DeregisterCanBlock(opts: Options, reg: Registration, st: StoreState, io: SaveResult)
    requires opts == Options(true, 2, 0) && st.mem == EMPTY.(nodes := [reg]) && reg.role == "manager"
    ensures Answer(opts, CheckStatus, reg, st.mem) == Ready
    ensures Answer(opts, CheckStatus, reg, Deliver(st, Message(Deregister, reg, io)).mem) == Waiting
  {
    assert [reg][1..] == [];
    assert Remove([reg], KeyOf(reg)) == [];
  }
}
