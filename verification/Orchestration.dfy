/**
 * Connection handlers interleaved with the background orchestration loop, over
 * one store that may fail to save and a process that may restart.
 */
module Orchestration {
  import opened Prelude
  import opened Store
  import opened Controller

  /**
   * Where the loop stands within one tick. Every phase after the first remembers
   * the flags of the snapshot taken at the start of the tick.
   */
  datatype Phase =
    | Idle
    | Looking(snap: ClusterState)
    | Collected(snap: ClusterState)
    | MarkingReady(snap: ClusterState)
    | SettingUp(snap: ClusterState)
    | Recording(snap: ClusterState)

  /** What became of the last successful swarm setup. */
  datatype Success = Never | Unrecorded | InMemory | Durable | Lost

  /**
   * The options, the shared memory, the state a reload would give, the loop, and two
   * histories kept for the statements. A restart keeps the options.
   */
  datatype System = System(
    opts: Options, mem: ClusterState, disk: ClusterState, phase: Phase, success: Success, setups: nat)

  /**
   * One atomic step. A flag `saved` says whether the save inside the step succeeds;
   * handlers run one store operation under the lock. The loop counts the nodes of
   * its snapshot, and then collects the storage nodes from memory.
   */
  datatype Event =
    | Handle(action: Action, reg: Registration, saved: bool)
    | Tick
    | GiveUp
    | Collect
    | MarkOrchestrated(saved: bool)
    | MarkReady(saved: bool)
    | BeginSetup
    | EndSetup(ok: bool)
    | RecordSetup(saved: bool)
    | Restart

  /** A store operation: memory changes, the disk follows if the save succeeds. */
  function Commit(sys: System, op: Op, saved: bool): System {
    var mem := Update(sys.mem, op);
    if Saves(sys.mem, op) && saved then
      sys.(mem := mem, disk := mem,
           success := if sys.success == InMemory && mem.swarmOrchestrated then Durable else sys.success)
    else sys.(mem := mem)
  }

  /** This is the store's own step, seen through what a reload would give. */
  lemma CommitIsStep(sys: System, st: StoreState, op: Op, io: SaveResult)
    requires st.mem == sys.mem && Load(st.file) == Some(sys.disk)
    ensures Step(st, op, io).mem == Commit(sys, op, io.Saved?).mem
    ensures Load(Step(st, op, io).file) == Some(Commit(sys, op, io.Saved?).disk)
  {
  }

  predicate StorageNode(n: Registration) { (n.storageEnabled || n.glusterCapable) && n.ip != "" }

  predicate HasStorageNode(nodes: seq<Registration>) { exists n :: n in nodes && StorageNode(n) }

  /** The guards at the start of a tick: waiting is enabled, and enough nodes were registered. */
  predicate Proceeds(opts: Options, snap: ClusterState) { opts.waitForMinimum && MinimumReached(opts, snap.nodes) }

  predicate StorageDue(snap: ClusterState) { snap.storageEnabled && !snap.storageOrchestrated }

  /** The guards of the swarm phase, on the snapshot. */
  predicate MaySetUp(snap: ClusterState) {
    !snap.swarmOrchestrated && !(snap.storageEnabled && !snap.storageReady)
  }

  predicate Enabled(sys: System, e: Event) {
    match e
    case Handle(_, _, _) => true
    case Tick => sys.phase.Idle?
    case GiveUp => sys.phase.Looking? && GivesUp(sys.opts, sys.phase.snap, sys.mem.nodes)
    case Collect =>
      && sys.phase.Looking? && Proceeds(sys.opts, sys.phase.snap)
      && StorageDue(sys.phase.snap) && HasStorageNode(sys.mem.nodes)
    case MarkOrchestrated(_) => sys.phase.Collected?
    case MarkReady(_) => sys.phase.MarkingReady?
    case BeginSetup =>
      && sys.phase.Looking? && Proceeds(sys.opts, sys.phase.snap)
      && !StorageDue(sys.phase.snap) && MaySetUp(sys.phase.snap)
    case EndSetup(_) => sys.phase.SettingUp?
    case RecordSetup(_) => sys.phase.Recording?
    case Restart => true
  }

  /** The loop takes up storage exactly under the conditions of the source, on the counts of its snapshot. */
  lemma CollectsExactly(sys: System)
    ensures Enabled(sys, Collect) <==>
      && sys.phase.Looking? && sys.opts.waitForMinimum
      && CountRole(sys.phase.snap.nodes, "manager") + 1 >= sys.opts.minManagers
      && CountRole(sys.phase.snap.nodes, "worker") >= sys.opts.minWorkers
      && sys.phase.snap.storageEnabled && !sys.phase.snap.storageOrchestrated
      && exists n :: n in sys.mem.nodes && n.ip != "" && (n.storageEnabled || n.glusterCapable)
  {
    if n :| n in sys.mem.nodes && n.ip != "" && (n.storageEnabled || n.glusterCapable) { assert StorageNode(n); }
  }

  /** The tick ends without a step: too few nodes, no storage node to orchestrate, or no swarm to set up. */
  predicate GivesUp(opts: Options, snap: ClusterState, nodes: seq<Registration>) {
    !Proceeds(opts, snap) || (if StorageDue(snap) then !HasStorageNode(nodes) else !MaySetUp(snap))
  }

  function Next(sys: System, e: Event): System
    requires Enabled(sys, e)
  {
    match e
    case Handle(action, reg, saved) =>
      var op := OpOf(action, reg);
      if op.Some? then Commit(sys, op.value, saved) else sys
    case Tick => sys.(phase := Looking(sys.mem))
    case GiveUp => sys.(phase := Idle)
    case Collect => sys.(phase := Collected(sys.phase.snap))
    case MarkOrchestrated(saved) =>
      Commit(sys, SetStorageOrchestrated(true), saved).(
        phase := if saved then MarkingReady(sys.phase.snap) else Idle)
    case MarkReady(saved) =>
      // the snapshot is stale, so the swarm phase of this tick looks at the old flags
      Commit(sys, SetStorageReady(true), saved).(
        phase := if saved && MaySetUp(sys.phase.snap) then SettingUp(sys.phase.snap) else Idle,
        setups := if saved && MaySetUp(sys.phase.snap) then sys.setups + 1 else sys.setups)
    case BeginSetup => sys.(phase := SettingUp(sys.phase.snap), setups := sys.setups + 1)
    case EndSetup(ok) =>
      if ok then sys.(phase := Recording(sys.phase.snap), success := Unrecorded) else sys.(phase := Idle)
    case RecordSetup(saved) =>
      Commit(sys.(success := InMemory), SetSwarmOrchestrated(true), saved).(phase := Idle)
    case Restart =>
      sys.(mem := sys.disk, phase := Idle,
           success := if sys.success == Unrecorded || sys.success == InMemory then Lost else sys.success)
  }

  ghost predicate Run(sys: System, es: seq<Event>)
    decreases es
  {
    es == [] || (Enabled(sys, es[0]) && Run(Next(sys, es[0]), es[1..]))
  }

  function Final(sys: System, es: seq<Event>): System
    requires Run(sys, es)
    decreases es
  {
    if es == [] then sys else Final(Next(sys, es[0]), es[1..])
  }

  /** A serving controller, freshly started on an initialised directory. */
  predicate Start(sys: System) {
    sys.mem == sys.disk && sys.phase.Idle? && sys.success == Never && sys.setups == 0
    && !sys.mem.swarmOrchestrated
  }

  /** A serving controller never changes whether storage is enabled, so swarm setup implies ready storage. */
  predicate Ordered(s: ClusterState) { s.swarmOrchestrated && s.storageEnabled ==> s.storageReady }

  predicate Inv(sys: System) {
    && Ordered(sys.mem) && Ordered(sys.disk)
    && sys.mem.storageEnabled == sys.disk.storageEnabled
    && (!sys.phase.Idle? ==>
          && sys.phase.snap.storageEnabled == sys.mem.storageEnabled
          && sys.phase.snap.swarmOrchestrated == sys.mem.swarmOrchestrated
          && (sys.phase.snap.storageReady ==> sys.mem.storageReady))
    && (sys.phase.SettingUp? || sys.phase.Recording? ==>
          (sys.mem.storageEnabled ==> sys.mem.storageReady) && !sys.mem.swarmOrchestrated
          && (sys.phase.SettingUp? ==> sys.success == Never || sys.success == Lost))
    && (sys.success == InMemory || sys.success == Durable <==> sys.mem.swarmOrchestrated)
    && (sys.success == Durable ==> sys.disk.swarmOrchestrated)
    && (sys.success == Unrecorded <==> sys.phase.Recording?)
    && (sys.disk.swarmOrchestrated ==> sys.success == Durable)
  }

  lemma StartHolds(sys: System)
    requires Start(sys)
    ensures Inv(sys)
  {
  }

  lemma CommitKeepsFlags(sys: System, op: Op, saved: bool)
    requires op.Add? || op.Delete? || op == SetStorageReady(true) || op == SetStorageOrchestrated(true)
    requires Inv(sys)
    ensures Inv(Commit(sys, op, saved))
    ensures var after := Commit(sys, op, saved);
      && after.mem.swarmOrchestrated == sys.mem.swarmOrchestrated
      && after.mem.storageEnabled == sys.mem.storageEnabled
      && (sys.mem.storageReady || op == SetStorageReady(true) ==> after.mem.storageReady)
      && after.phase == sys.phase && after.setups == sys.setups
      && (sys.success != InMemory ==> after.success == sys.success)
  {
  }

  lemma NextKeepsInv(sys: System, e: Event)
    requires Inv(sys) && Enabled(sys, e)
    ensures Inv(Next(sys, e))
  {
    match e {
      case Handle(action, reg, saved) =>
        if OpOf(action, reg).Some? { CommitKeepsFlags(sys, OpOf(action, reg).value, saved); }
      case MarkOrchestrated(saved) => CommitKeepsFlags(sys, SetStorageOrchestrated(true), saved);
      case MarkReady(saved) => CommitKeepsFlags(sys, SetStorageReady(true), saved);
      case _ =>
    }
  }

  lemma {:induction false} RunsKeepInv(sys: System, es: seq<Event>)
    requires Inv(sys) && Run(sys, es)
    ensures Inv(Final(sys, es))
    decreases es
  {
    if es != [] {
      NextKeepsInv(sys, es[0]);
      RunsKeepInv(Next(sys, es[0]), es[1..]);
    }
  }

  /**
   * In every interleaving of handlers and loop, with failing saves and restarts:
   * whenever the swarm is recorded as set up and storage is enabled, storage is
   * ready, in memory and on disk alike; and no setup is under way before that.
   */
  lemma SwarmImpliesStorage(sys: System, es: seq<Event>)
    requires Start(sys) && Run(sys, es)
    ensures var s := Final(sys, es);
      && (s.mem.swarmOrchestrated && s.mem.storageEnabled ==> s.mem.storageReady)
      && (s.disk.swarmOrchestrated && s.disk.storageEnabled ==> s.disk.storageReady)
      && (s.phase.SettingUp? && s.mem.storageEnabled ==> s.mem.storageReady)
  {
    StartHolds(sys);
    RunsKeepInv(sys, es);
  }

  /**
   * A setup never starts again after a success, unless the process restarted
   * before that success reached the disk. A failed save of the record alone is not
   * enough: the flag stays set in memory.
   */
  lemma SetupStartsOnce(sys: System, es: seq<Event>, e: Event)
    requires Start(sys) && Run(sys, es) && Enabled(Final(sys, es), e)
    requires Next(Final(sys, es), e).setups > Final(sys, es).setups
    ensures Final(sys, es).success == Never || Final(sys, es).success == Lost
  {
    StartHolds(sys);
    RunsKeepInv(sys, es);
  }

  // ---------------------------------------------------------------- when the loop can still finish storage

  predicate StorageMessage(e: Event) { e.Handle? && e.action == StorageReady }

  predicate NoStorageMessage(es: seq<Event>) { forall e :: e in es ==> !StorageMessage(e) }

  /** A run without storage-ready messages leads from the one state to the other. */
  ghost predicate Leads(sys: System, t: System) {
    exists es :: Run(sys, es) && NoStorageMessage(es) && Final(sys, es) == t
  }

  /** Storage can become ready without a storage-ready message. */
  ghost predicate CanBecomeReady(sys: System) {
    exists es :: Run(sys, es) && NoStorageMessage(es) && Final(sys, es).mem.storageReady
  }

  predicate Marked(s: ClusterState) { s.storageOrchestrated && !s.storageReady }

  /** A step is pending that leads to marking storage ready. */
  predicate Marking(sys: System) {
    || sys.phase.Collected? || sys.phase.MarkingReady?
    || (sys.phase.Looking? && Proceeds(sys.opts, sys.phase.snap) && StorageDue(sys.phase.snap))
  }

  /**
   * Storage not ready in memory or on disk, nothing pending that would mark it
   * ready, and no tick that would start to: it is marked as orchestrated in memory
   * and on disk, or the loop skips every tick because waiting is disabled.
   */
  predicate Blocked(sys: System) {
    && sys.mem.storageEnabled && sys.disk.storageEnabled
    && !sys.mem.storageReady && !sys.disk.storageReady && !Marking(sys)
    && (sys.opts.waitForMinimum ==> Marked(sys.mem) && Marked(sys.disk))
  }

  lemma BlockedStep(sys: System, e: Event)
    requires Blocked(sys) && Enabled(sys, e) && !StorageMessage(e)
    ensures Blocked(Next(sys, e))
  {
  }

  lemma {:induction false} BlockedStays(sys: System, es: seq<Event>)
    requires Blocked(sys) && Run(sys, es) && NoStorageMessage(es)
    ensures Blocked(Final(sys, es))
    decreases es
  {
    if es != [] {
      assert es[0] in es;
      BlockedStep(sys, es[0]);
      BlockedStays(Next(sys, es[0]), es[1..]);
    }
  }

  lemma LeadsNowhere(sys: System)
    ensures Leads(sys, sys)
  {
    assert Run(sys, []) && Final(sys, []) == sys;
  }

  /** One more step in front. */
  lemma LeadsBy(sys: System, e: Event, t: System)
    requires Enabled(sys, e) && !StorageMessage(e) && Leads(Next(sys, e), t)
    ensures Leads(sys, t)
  {
    var es :| Run(Next(sys, e), es) && NoStorageMessage(es) && Final(Next(sys, e), es) == t;
    var more := [e] + es;
    assert more[0] == e && more[1..] == es;
    assert Run(sys, more) && Final(sys, more) == t;
  }

  // ---------------------------------------------------------------- registering enough nodes

  function LongerThan(nodes: seq<Registration>): string {
    if nodes == [] then "n" else LongerThan(nodes[1..]) + nodes[0].hostname + "n"
  }

  /** A host name nobody has registered. */
  lemma {:induction false} NewName(nodes: seq<Registration>)
    ensures forall n :: n in nodes ==> |n.hostname| < |LongerThan(nodes)|
  {
    if nodes != [] { NewName(nodes[1..]); }
  }

  function NewNode(nodes: seq<Registration>, role: string): Registration {
    Registration(LongerThan(nodes), role, "10.0.0.1", true, false)
  }

  lemma NewNodeCounts(nodes: seq<Registration>, role: string)
    ensures Upsert(nodes, NewNode(nodes, role)) == nodes + [NewNode(nodes, role)]
    ensures forall r ::
      CountRole(nodes + [NewNode(nodes, role)], r) == CountRole(nodes, r) + (if r == role then 1 else 0)
    ensures HasStorageNode(nodes + [NewNode(nodes, role)])
  {
    var n := NewNode(nodes, role);
    NewName(nodes);
    assert IndexOf(nodes, KeyOf(n)) == |nodes|;
    forall r ensures CountRole(nodes + [n], r) == CountRole(nodes, r) + (if r == role then 1 else 0) {
      CountUpsertExactly(nodes, n, r);
    }
    assert (nodes + [n])[|nodes|] == n && n in nodes + [n] && StorageNode(n);
  }

  /** The same system with other nodes in memory. */
  function WithNodes(sys: System, nodes: seq<Registration>): System { sys.(mem := sys.mem.(nodes := nodes)) }

  /** Registering one new node, without its save. */
  lemma EnrollOne(sys: System, role: string, t: System)
    requires Leads(WithNodes(sys, sys.mem.nodes + [NewNode(sys.mem.nodes, role)]), t)
    ensures Leads(sys, t)
  {
    var n := NewNode(sys.mem.nodes, role);
    NewNodeCounts(sys.mem.nodes, role);
    var e := Handle(Register, n, false);
    assert Next(sys, e) == WithNodes(sys, sys.mem.nodes + [n]);
    LeadsBy(sys, e, t);
  }

  function Missing(count: int, min: int): nat { if count < min then min - count else 0 }

  /** Enough new registrations reach any minimum, with a storage node among them. */
  lemma {:induction false} Enroll(sys: System, managers: nat, workers: nat) returns (t: System)
    requires managers == Missing(CountRole(sys.mem.nodes, "manager") + 1, sys.opts.minManagers)
    requires workers == Missing(CountRole(sys.mem.nodes, "worker"), sys.opts.minWorkers)
    ensures Leads(sys, t) && t == WithNodes(sys, t.mem.nodes)
    ensures MinimumReached(sys.opts, t.mem.nodes) && HasStorageNode(t.mem.nodes)
    decreases managers + workers
  {
    var role := if managers > 0 then "manager" else "worker";
    var nodes := sys.mem.nodes + [NewNode(sys.mem.nodes, role)];
    NewNodeCounts(sys.mem.nodes, role);
    if managers > 0 {
      t := Enroll(WithNodes(sys, nodes), managers - 1, workers);
    } else if workers > 0 {
      t := Enroll(WithNodes(sys, nodes), 0, workers - 1);
    } else {
      t := WithNodes(sys, nodes);
      LeadsNowhere(t);
    }
    EnrollOne(sys, role, t);
  }

  lemma EnrollFully(sys: System) returns (t: System)
    ensures Leads(sys, t) && t == WithNodes(sys, t.mem.nodes)
    ensures MinimumReached(sys.opts, t.mem.nodes) && HasStorageNode(t.mem.nodes)
  {
    t := Enroll(sys, Missing(CountRole(sys.mem.nodes, "manager") + 1, sys.opts.minManagers),
                Missing(CountRole(sys.mem.nodes, "worker"), sys.opts.minWorkers));
  }

  lemma LeadsThenReady(sys: System, t: System)
    requires Leads(sys, t) && CanBecomeReady(t)
    ensures CanBecomeReady(sys)
  {
    var a :| Run(sys, a) && NoStorageMessage(a) && Final(sys, a) == t;
    RunThenReady(sys, a);
  }

  lemma {:induction false} RunThenReady(sys: System, es: seq<Event>)
    requires Run(sys, es) && NoStorageMessage(es) && CanBecomeReady(Final(sys, es))
    ensures CanBecomeReady(sys)
    decreases es
  {
    if es != [] {
      assert es[0] in es;
      RunThenReady(Next(sys, es[0]), es[1..]);
      ReadyBy(sys, es[0]);
    }
  }

  lemma ReadyBy(sys: System, e: Event)
    requires Enabled(sys, e) && !StorageMessage(e) && CanBecomeReady(Next(sys, e))
    ensures CanBecomeReady(sys)
  {
    var es :| Run(Next(sys, e), es) && NoStorageMessage(es) && Final(Next(sys, e), es).mem.storageReady;
    LeadsBy(sys, e, Final(Next(sys, e), es));
  }

  lemma ReadyAlready(sys: System)
    requires sys.mem.storageReady
    ensures CanBecomeReady(sys)
  {
    LeadsNowhere(sys);
  }

  // ---------------------------------------------------------------- exactly when storage can become ready

  /** A pending step finishes, once a storage node is there to collect. */
  lemma MarkingFinishes(sys: System)
    requires Marking(sys)
    ensures CanBecomeReady(sys)
    decreases if sys.phase.Looking? then 2 else if sys.phase.Collected? then 1 else 0
  {
    if sys.phase.MarkingReady? {
      ReadyAlready(Next(sys, MarkReady(true)));
      ReadyBy(sys, MarkReady(true));
    } else if sys.phase.Collected? {
      MarkingFinishes(Next(sys, MarkOrchestrated(true)));
      ReadyBy(sys, MarkOrchestrated(true));
    } else {
      var t := EnrollFully(sys);
      MarkingFinishes(Next(t, Collect));
      ReadyBy(t, Collect);
      LeadsThenReady(sys, t);
    }
  }

  /** An idle loop that has not marked storage finishes it in one tick, once enough nodes are registered. */
  lemma TickFinishes(sys: System)
    requires sys.phase.Idle? && sys.opts.waitForMinimum
    requires sys.mem.storageEnabled && !Marked(sys.mem)
    ensures CanBecomeReady(sys)
  {
    if sys.mem.storageReady {
      ReadyAlready(sys);
    } else {
      var t := EnrollFully(sys);
      MarkingFinishes(Next(t, Tick));
      ReadyBy(t, Tick);
      LeadsThenReady(sys, t);
    }
  }

  /** From any other point of a tick the loop can come back to idle without touching the storage flags. */
  lemma TickEnds(sys: System) returns (e: Event, t: System)
    requires !sys.phase.Idle? && !Marking(sys)
    ensures Enabled(sys, e) && !StorageMessage(e) && t == Next(sys, e)
    ensures !Marking(t) && t.opts == sys.opts && (t.phase.Idle? || (t.phase.SettingUp? && !sys.phase.SettingUp?))
    ensures t.mem.storageEnabled == sys.mem.storageEnabled
    ensures Marked(t.mem) == Marked(sys.mem)
  {
    e :=
      if sys.phase.SettingUp? then EndSetup(false)
      else if sys.phase.Recording? then RecordSetup(false)
      else if GivesUp(sys.opts, sys.phase.snap, sys.mem.nodes) then GiveUp
      else BeginSetup;
    t := Next(sys, e);
  }

  /** A way out of any state that is not blocked: finish the pending step, end the tick, or restart. */
  lemma WayOut(sys: System)
    requires sys.mem.storageEnabled && sys.disk.storageEnabled && !Blocked(sys)
    ensures CanBecomeReady(sys)
  {
    if sys.mem.storageReady {
      ReadyAlready(sys);
    } else if Marking(sys) {
      MarkingFinishes(sys);
    } else if sys.disk.storageReady {
      ReadyAlready(Next(sys, Restart));
      ReadyBy(sys, Restart);
    } else if !Marked(sys.disk) {
      TickFinishes(Next(sys, Restart));
      ReadyBy(sys, Restart);
    } else if sys.phase.Idle? {
      TickFinishes(sys);
    } else {
      var e, t := TickEnds(sys);
      if t.phase.Idle? {
        TickFinishes(t);
      } else {
        var f, u := TickEnds(t);
        TickFinishes(u);
        ReadyBy(t, f);
      }
      ReadyBy(sys, e);
    }
  }

  /**
   * With storage enabled, exactly: storage can still become ready without a
   * storage-ready message unless it is ready neither in memory nor on disk, no step
   * is pending that would mark it ready, and either both have it marked as
   * orchestrated or waiting is disabled.
   */
  lemma RecoversExactly(sys: System)
    requires sys.mem.storageEnabled && sys.disk.storageEnabled
    ensures CanBecomeReady(sys) <==> !Blocked(sys)
  {
    if Blocked(sys) {
      forall es | Run(sys, es) && NoStorageMessage(es) ensures !Final(sys, es).mem.storageReady {
        BlockedStays(sys, es);
      }
    } else {
      WayOut(sys);
    }
  }

  /** Between two ticks, with memory and disk in step: if storage is ready, or not yet marked and waiting enabled. */
  lemma RecoversBetweenTicks(sys: System)
    requires sys.phase.Idle? && sys.mem == sys.disk && sys.mem.storageEnabled
    ensures CanBecomeReady(sys) <==>
      sys.mem.storageReady || (sys.opts.waitForMinimum && !sys.mem.storageOrchestrated)
  {
    RecoversExactly(sys);
  }

  /** Without waiting the loop skips every tick: it marks nothing and sets up nothing, in any run. */
  lemma {:induction false} WithoutWaitingNothingHappens(sys: System, es: seq<Event>)
    requires !sys.opts.waitForMinimum && (sys.phase.Idle? || sys.phase.Looking?) && Run(sys, es)
    ensures var t := Final(sys, es);
      && t.setups == sys.setups && (t.phase.Idle? || t.phase.Looking?)
      && t.mem.storageOrchestrated in {sys.mem.storageOrchestrated, sys.disk.storageOrchestrated}
      && t.disk.storageOrchestrated in {sys.mem.storageOrchestrated, sys.disk.storageOrchestrated}
    decreases es
  {
    if es != [] { WithoutWaitingNothingHappens(Next(sys, es[0]), es[1..]); }
  }

  /** Blocked between two ticks, or with a fresh look at the blocked state: then no setup starts either. */
  predicate Stuck(sys: System) {
    && Blocked(sys)
    && (sys.phase.Idle? ||
        (sys.phase.Looking? && (sys.opts.waitForMinimum ==> sys.phase.snap.storageEnabled && Marked(sys.phase.snap))))
  }

  lemma StuckStep(sys: System, e: Event)
    requires Stuck(sys) && Enabled(sys, e) && !StorageMessage(e)
    ensures Stuck(Next(sys, e)) && Next(sys, e).setups == sys.setups
  {
    BlockedStep(sys, e);
  }

  lemma {:induction false} StuckStays(sys: System, es: seq<Event>)
    requires Stuck(sys) && Run(sys, es) && NoStorageMessage(es)
    ensures Stuck(Final(sys, es)) && Final(sys, es).setups == sys.setups
    decreases es
  {
    if es != [] {
      assert es[0] in es;
      StuckStep(sys, es[0]);
      StuckStays(Next(sys, es[0]), es[1..]);
    }
  }

  // ---------------------------------------------------------------- exactly when a swarm setup can start

  /** A run without storage-ready messages starts another setup. */
  ghost predicate CanStartSetup(sys: System) { exists t :: Leads(sys, t) && t.setups > sys.setups }

  lemma LeadsOn(sys: System, t: System, u: System)
    requires Leads(sys, t) && Leads(t, u)
    ensures Leads(sys, u)
  {
    var es :| Run(sys, es) && NoStorageMessage(es) && Final(sys, es) == t;
    RunLeadsOn(sys, es, u);
  }

  lemma {:induction false} RunLeadsOn(sys: System, es: seq<Event>, u: System)
    requires Run(sys, es) && NoStorageMessage(es) && Leads(Final(sys, es), u)
    ensures Leads(sys, u)
    decreases es
  {
    if es != [] {
      assert es[0] in es;
      RunLeadsOn(Next(sys, es[0]), es[1..], u);
      LeadsBy(sys, es[0], u);
    }
  }

  /** A tick over enough nodes, with storage ready or not enabled, begins the setup. */
  lemma TickBegins(sys: System) returns (t: System)
    requires sys.phase.Idle? && Proceeds(sys.opts, sys.mem) && MaySetUp(sys.mem) && !StorageDue(sys.mem)
    ensures Leads(sys, t) && t.setups == sys.setups + 1
  {
    var a := Next(sys, Tick);
    t := Next(a, BeginSetup);
    LeadsNowhere(t);
    LeadsBy(a, BeginSetup, t);
    LeadsBy(sys, Tick, t);
  }

  /** A tick that has storage to mark begins the setup itself, or leaves it to the next one. */
  lemma TickMarksThenBegins(sys: System) returns (t: System)
    requires sys.phase.Idle? && Proceeds(sys.opts, sys.mem) && HasStorageNode(sys.mem.nodes)
    requires StorageDue(sys.mem) && !sys.mem.swarmOrchestrated
    ensures Leads(sys, t) && t.setups == sys.setups + 1
  {
    var a := Next(sys, Tick);
    var b := Next(a, Collect);
    var c := Next(b, MarkOrchestrated(true));
    var d := Next(c, MarkReady(true));
    if MaySetUp(sys.mem) {
      t := d;
      LeadsNowhere(t);
    } else {
      t := TickBegins(d);
    }
    LeadsBy(c, MarkReady(true), t);
    LeadsBy(b, MarkOrchestrated(true), t);
    LeadsBy(a, Collect, t);
    LeadsBy(sys, Tick, t);
  }

  /** A swarm recorded as set up, in memory and on disk, and no tick that saw it otherwise. */
  predicate SwarmDone(sys: System) {
    && sys.mem.swarmOrchestrated && sys.disk.swarmOrchestrated && !sys.phase.SettingUp? && !sys.phase.Recording?
    && (!sys.phase.Idle? ==> sys.phase.snap.swarmOrchestrated)
  }

  lemma {:induction false} SwarmStaysDone(sys: System, es: seq<Event>)
    requires SwarmDone(sys) && Run(sys, es)
    ensures SwarmDone(Final(sys, es)) && Final(sys, es).setups == sys.setups
    decreases es
  {
    if es != [] { SwarmStaysDone(Next(sys, es[0]), es[1..]); }
  }

  /**
   * Between two ticks, with memory and disk in step: a setup can still start without
   * a storage-ready message exactly if waiting is enabled, the swarm is not recorded
   * as set up, and storage, when enabled, is ready or not yet marked.
   */
  lemma SetupStartsExactly(sys: System)
    requires sys.phase.Idle? && sys.mem == sys.disk
    ensures CanStartSetup(sys) <==>
      && sys.opts.waitForMinimum && !sys.mem.swarmOrchestrated
      && (sys.mem.storageEnabled ==> sys.mem.storageReady || !sys.mem.storageOrchestrated)
  {
    if !sys.opts.waitForMinimum {
      forall es | Run(sys, es) ensures Final(sys, es).setups == sys.setups { WithoutWaitingNothingHappens(sys, es); }
    } else if sys.mem.swarmOrchestrated {
      forall es | Run(sys, es) ensures Final(sys, es).setups == sys.setups { SwarmStaysDone(sys, es); }
    } else if sys.mem.storageEnabled && Marked(sys.mem) {
      forall es | Run(sys, es) && NoStorageMessage(es) ensures Final(sys, es).setups == sys.setups {
        StuckStays(sys, es);
      }
    } else {
      var enrolled := EnrollFully(sys);
      var t;
      if StorageDue(sys.mem) { t := TickMarksThenBegins(enrolled); } else { t := TickBegins(enrolled); }
      LeadsOn(sys, enrolled, t);
    }
  }

  /** The start of both ways into the blocked state: an idle loop, with storage still to be marked. */
  predicate BeforeMarking(sys: System) {
    sys.phase.Idle? && sys.mem == sys.disk
    && sys.mem.storageEnabled && !sys.mem.storageOrchestrated && !sys.mem.storageReady
  }

  /**
   * One failed save while storage is marked as orchestrated, then any saved
   * registration: from there on, across restarts, the loop never marks storage
   * ready and never sets up the swarm, until a storage-ready message arrives.
   */
  lemma FailedMarkBlocks(sys: System, reg: Registration, es: seq<Event>)
    requires BeforeMarking(sys)
    requires var before := [Tick, Collect, MarkOrchestrated(false), Handle(Register, reg, true)];
      && Run(sys, before) && Run(Final(sys, before), es)
    requires NoStorageMessage(es)
    ensures var blocked := Final(sys, [Tick, Collect, MarkOrchestrated(false), Handle(Register, reg, true)]);
      !Final(blocked, es).mem.storageReady && Final(blocked, es).setups == sys.setups
  {
    FourSteps(sys, Tick, Collect, MarkOrchestrated(false), Handle(Register, reg, true));
    StuckStays(Final(sys, [Tick, Collect, MarkOrchestrated(false), Handle(Register, reg, true)]), es);
  }

  /** A crash between the two marks does the same without any failed save. */
  lemma CrashBetweenMarksBlocks(sys: System, es: seq<Event>)
    requires BeforeMarking(sys)
    requires var before := [Tick, Collect, MarkOrchestrated(true), Restart];
      && Run(sys, before) && Run(Final(sys, before), es)
    requires NoStorageMessage(es)
    ensures var blocked := Final(sys, [Tick, Collect, MarkOrchestrated(true), Restart]);
      !Final(blocked, es).mem.storageReady && Final(blocked, es).setups == sys.setups
  {
    FourSteps(sys, Tick, Collect, MarkOrchestrated(true), Restart);
    StuckStays(Final(sys, [Tick, Collect, MarkOrchestrated(true), Restart]), es);
  }

  lemma FourSteps(sys: System, e: Event, f: Event, g: Event, h: Event)
    requires Run(sys, [e, f, g, h])
    ensures Enabled(sys, e) && Enabled(Next(sys, e), f) && Enabled(Next(Next(sys, e), f), g)
    ensures Enabled(Next(Next(Next(sys, e), f), g), h)
    ensures Final(sys, [e, f, g, h]) == Next(Next(Next(Next(sys, e), f), g), h)
  {
    FirstStep(sys, [e, f, g, h], [f, g, h]);
    FirstStep(Next(sys, e), [f, g, h], [g, h]);
    FirstStep(Next(Next(sys, e), f), [g, h], [h]);
    FirstStep(Next(Next(Next(sys, e), f), g), [h], []);
  }

  lemma FirstStep(sys: System, es: seq<Event>, rest: seq<Event>)
    requires es != [] && es[1..] == rest && Run(sys, es)
    ensures Enabled(sys, es[0]) && Run(Next(sys, es[0]), rest)
    ensures Final(sys, es) == Final(Next(sys, es[0]), rest)
  {
  }
}
