/**
 * The controller's state store: registrations and cluster flags in memory, saved
 * through a temporary file and a rename.
 */
module Store {
  import opened Prelude

  datatype Registration = Registration(
    hostname: string, role: string, ip: string, storageEnabled: bool, glusterCapable: bool)

  datatype ClusterState = ClusterState(
    nodes: seq<Registration>,
    storageEnabled: bool, storageType: string,
    storageOrchestrated: bool, storageReady: bool, swarmOrchestrated: bool,
    deployer: string)

  const EMPTY: ClusterState := ClusterState([], false, "", false, false, false, "")

  type Key = (string, string)

  function KeyOf(r: Registration): Key { (r.hostname, r.role) }

  // ---------------------------------------------------------------- the node list

  /** Position of the first registration with the key, or the length when there is none. */
  function IndexOf(nodes: seq<Registration>, key: Key): (i: nat)
    ensures i <= |nodes|
    ensures i < |nodes| ==> KeyOf(nodes[i]) == key
    ensures forall j :: 0 <= j < i ==> KeyOf(nodes[j]) != key
  {
    if nodes == [] || KeyOf(nodes[0]) == key then 0 else 1 + IndexOf(nodes[1..], key)
  }

  function Upsert(nodes: seq<Registration>, reg: Registration): seq<Registration> {
    var i := IndexOf(nodes, KeyOf(reg));
    if i < |nodes| then nodes[i := reg] else nodes + [reg]
  }

  function Remove(nodes: seq<Registration>, key: Key): seq<Registration> {
    var i := IndexOf(nodes, key);
    if i < |nodes| then nodes[..i] + nodes[i + 1..] else nodes
  }

  predicate UniqueKeys(nodes: seq<Registration>) {
    forall i, j :: 0 <= i < j < |nodes| ==> KeyOf(nodes[i]) != KeyOf(nodes[j])
  }

  /** The list seen as a finite map from key to registration. */
  function AsMap(nodes: seq<Registration>): map<Key, Registration> {
    if nodes == [] then map[] else AsMap(nodes[1..])[KeyOf(nodes[0]) := nodes[0]]
  }

  /** The registrations of all other keys, in list order. */
  function Others(nodes: seq<Registration>, key: Key): seq<Registration> {
    if nodes == [] then []
    else (if KeyOf(nodes[0]) == key then [] else [nodes[0]]) + Others(nodes[1..], key)
  }

  function CountRole(nodes: seq<Registration>, role: string): nat {
    if nodes == [] then 0 else (if nodes[0].role == role then 1 else 0) + CountRole(nodes[1..], role)
  }

  // ---------------------------------------------------------------- operations and saving

  /** The store's operations that may change state. */
  datatype Op =
    | Add(reg: Registration)
    | Delete(key: Key)
    | Reset
    | SetStorageConfig(enabled: bool, storageType: string)
    | SetStorageReady(b: bool)
    | SetStorageOrchestrated(b: bool)
    | SetSwarmOrchestrated(b: bool)
    | SetDeployer(hostname: string)

  function Update(s: ClusterState, op: Op): ClusterState {
    match op
    case Add(reg) => s.(nodes := Upsert(s.nodes, reg))
    case Delete(key) => s.(nodes := Remove(s.nodes, key))
    case Reset => EMPTY
    case SetStorageConfig(enabled, storageType) => s.(storageEnabled := enabled, storageType := storageType)
    case SetStorageReady(b) => s.(storageReady := b)
    case SetStorageOrchestrated(b) => s.(storageOrchestrated := b)
    case SetSwarmOrchestrated(b) => s.(swarmOrchestrated := b)
    case SetDeployer(hostname) => s.(deployer := hostname)
  }

  /** Deleting an unknown key returns before saving; everything else saves. */
  predicate Saves(s: ClusterState, op: Op) {
    op.Delete? ==> IndexOf(s.nodes, op.key) < |s.nodes|
  }

  /** A file: absent, empty, half written, or holding one encoded state. */
  datatype File = Absent | Blank | Torn | Holding(s: ClusterState)

  /** How far a save gets. */
  datatype SaveResult = Saved | WriteFailed(left: File) | RenameFailed

  /** What loading a state file yields; a torn file is refused. */
  function Load(f: File): Option<ClusterState> {
    match f
    case Absent => Some(EMPTY)
    case Blank => Some(EMPTY)
    case Torn => None
    case Holding(s) => Some(s)
  }

  /** The store and its two files. */
  datatype StoreState = StoreState(mem: ClusterState, file: File, tmp: File)

  function Save(st: StoreState, io: SaveResult): StoreState {
    match io
    case WriteFailed(left) => st.(tmp := left)
    case RenameFailed => st.(tmp := Holding(st.mem))
    case Saved => st.(file := Holding(st.mem), tmp := Absent)
  }

  /** One operation: memory keeps the change even when the save fails. */
  function Step(st: StoreState, op: Op, io: SaveResult): StoreState {
    var changed := st.(mem := Update(st.mem, op));
    if Saves(st.mem, op) then Save(changed, io) else changed
  }

  /**
   * What the state file holds after each file system action of a save: truncating
   * and writing the temporary file, renaming it.
   */
  function SaveFiles(st: StoreState, io: SaveResult): seq<File> {
    [st.file, st.file] + (if io.Saved? then [Holding(st.mem)] else [])
  }

  /** The same for a whole operation. */
  function OpFiles(st: StoreState, op: Op, io: SaveResult): seq<File> {
    if Saves(st.mem, op) then SaveFiles(st.(mem := Update(st.mem, op)), io) else []
  }

  /** The operation returns no error. */
  predicate Reported(st: StoreState, op: Op, io: SaveResult) { Saves(st.mem, op) ==> io.Saved? }

  class FileStore {
    var state: ClusterState
    var file: File
    var tmp: File

    /** What the state file held after each file system action so far. */
    ghost var trail: seq<File>

    ghost function Abs(): StoreState
      reads this
    {
      StoreState(state, file, tmp)
    }

    /** Opens the store on what the directory holds. */
    constructor (file: File, tmp: File)
      requires Load(file).Some?
      ensures Abs() == StoreState(Load(file).value, file, tmp) && trail == [file]
    {
      this.state := Load(file).value;
      this.file, this.tmp, this.trail := file, tmp, [file];
    }

    method SaveLocked(io: SaveResult) returns (ok: bool)
      modifies this
      ensures Abs() == Save(old(Abs()), io)
      ensures trail == old(trail) + SaveFiles(old(Abs()), io)
      ensures ok == io.Saved?
    {
      tmp := Blank;
      trail := trail + [file];
      tmp := if io.WriteFailed? then io.left else Holding(state);
      trail := trail + [file];
      if !io.Saved? { return false; }
      file, tmp := tmp, Absent;
      trail := trail + [file];
      ok := true;
    }

    method AddRegistration(reg: Registration, io: SaveResult) returns (snapshot: ClusterState, ok: bool)
      modifies this
      ensures Abs() == Step(old(Abs()), Add(reg), io)
      ensures trail == old(trail) + OpFiles(old(Abs()), Add(reg), io)
      ensures ok == io.Saved?
      ensures snapshot == if ok then state else EMPTY
    {
      var updated := false;
      for i := 0 to |state.nodes|
        invariant !updated && Abs() == old(Abs()) && trail == old(trail)
        invariant forall j :: 0 <= j < i ==> KeyOf(state.nodes[j]) != KeyOf(reg)
      {
        if state.nodes[i].hostname == reg.hostname && state.nodes[i].role == reg.role {
          state := state.(nodes := state.nodes[i := reg]);
          updated := true;
          break;
        }
      }
      if !updated {
        state := state.(nodes := state.nodes + [reg]);
      }
      ok := SaveLocked(io);
      snapshot := if ok then state else EMPTY;
    }

    method RemoveRegistration(hostname: string, role: string, io: SaveResult) returns (snapshot: ClusterState, ok: bool)
      modifies this
      ensures Abs() == Step(old(Abs()), Delete((hostname, role)), io)
      ensures trail == old(trail) + OpFiles(old(Abs()), Delete((hostname, role)), io)
      ensures ok == Reported(old(Abs()), Delete((hostname, role)), io)
      ensures snapshot == if ok then state else EMPTY
    {
      var idx := 0;
      while idx < |state.nodes| && !(state.nodes[idx].hostname == hostname && state.nodes[idx].role == role)
        invariant 0 <= idx <= IndexOf(state.nodes, (hostname, role))
      {
        idx := idx + 1;
      }
      assert idx == IndexOf(state.nodes, (hostname, role));
      if idx == |state.nodes| {
        return state, true;
      }
      state := state.(nodes := state.nodes[..idx] + state.nodes[idx + 1..]);
      ok := SaveLocked(io);
      snapshot := if ok then state else EMPTY;
    }

    /** Reset and the flag setters: assign, then save. */
    method SetFields(op: Op, io: SaveResult) returns (snapshot: ClusterState, ok: bool)
      requires !op.Add? && !op.Delete?
      modifies this
      ensures Abs() == Step(old(Abs()), op, io)
      ensures trail == old(trail) + OpFiles(old(Abs()), op, io)
      ensures ok == io.Saved?
      ensures snapshot == if ok then state else EMPTY
    {
      state := Update(state, op);
      ok := SaveLocked(io);
      snapshot := if ok then state else EMPTY;
    }
  }

  // ---------------------------------------------------------------- the list refines a map

  lemma {:induction false} MapHolds(nodes: seq<Registration>, key: Key)
    ensures key in AsMap(nodes) <==> IndexOf(nodes, key) < |nodes|
    ensures key in AsMap(nodes) ==> AsMap(nodes)[key] == nodes[IndexOf(nodes, key)]
  {
    if nodes != [] { MapHolds(nodes[1..], key); }
  }

  lemma HeadIsFresh(nodes: seq<Registration>)
    requires UniqueKeys(nodes) && nodes != []
    ensures IndexOf(nodes[1..], KeyOf(nodes[0])) == |nodes[1..]|
  {
    assert forall j :: 0 <= j < |nodes[1..]| ==> nodes[1..][j] == nodes[j + 1];
  }

  lemma {:induction false} UpsertTail(nodes: seq<Registration>, reg: Registration)
    requires nodes != [] && KeyOf(nodes[0]) != KeyOf(reg)
    ensures Upsert(nodes, reg) == [nodes[0]] + Upsert(nodes[1..], reg)
  {
  }

  lemma {:induction false} RemoveTail(nodes: seq<Registration>, key: Key)
    requires nodes != [] && KeyOf(nodes[0]) != key
    ensures Remove(nodes, key) == [nodes[0]] + Remove(nodes[1..], key)
  {
  }

  lemma {:induction false} NothingElse(nodes: seq<Registration>, key: Key)
    requires IndexOf(nodes, key) == |nodes|
    ensures Others(nodes, key) == nodes && key !in AsMap(nodes)
  {
    if nodes != [] { NothingElse(nodes[1..], key); }
  }

  /** Registering is a map update that leaves the order of everyone else alone; of duplicates the first entry counts. */
  lemma {:induction false} UpsertRefines(nodes: seq<Registration>, reg: Registration)
    ensures UniqueKeys(nodes) ==> UniqueKeys(Upsert(nodes, reg))
    ensures AsMap(Upsert(nodes, reg)) == AsMap(nodes)[KeyOf(reg) := reg]
    ensures Others(Upsert(nodes, reg), KeyOf(reg)) == Others(nodes, KeyOf(reg))
  {
    var key := KeyOf(reg);
    var after := Upsert(nodes, reg);
    if nodes == [] {
      assert after == [reg] && after[1..] == [];
    } else if KeyOf(nodes[0]) == key {
      assert after == [reg] + nodes[1..];
      assert after[1..] == nodes[1..];
    } else {
      UpsertTail(nodes, reg);
      UpsertRefines(nodes[1..], reg);
      assert after[1..] == Upsert(nodes[1..], reg);
    }
  }

  lemma {:induction false} RemoveIsOthers(nodes: seq<Registration>, key: Key)
    requires UniqueKeys(nodes)
    ensures Remove(nodes, key) == Others(nodes, key)
  {
    if nodes == [] {
    } else if KeyOf(nodes[0]) == key {
      assert Remove(nodes, key) == nodes[1..];
      HeadIsFresh(nodes);
      NothingElse(nodes[1..], key);
    } else {
      RemoveTail(nodes, key);
      RemoveIsOthers(nodes[1..], key);
    }
  }

  lemma {:induction false} OthersMap(nodes: seq<Registration>, key: Key)
    ensures AsMap(Others(nodes, key)) == AsMap(nodes) - {key}
  {
    if nodes != [] {
      OthersMap(nodes[1..], key);
      var rest := Others(nodes[1..], key);
      if KeyOf(nodes[0]) != key {
        assert Others(nodes, key)[1..] == rest;
        assert AsMap(nodes) - {key} == (AsMap(nodes[1..]) - {key})[KeyOf(nodes[0]) := nodes[0]];
      } else {
        assert Others(nodes, key) == rest;
        assert AsMap(nodes) - {key} == AsMap(nodes[1..]) - {key};
      }
    }
  }

  lemma {:induction false} OthersUnique(nodes: seq<Registration>, key: Key)
    requires UniqueKeys(nodes)
    ensures UniqueKeys(Others(nodes, key))
  {
    if nodes != [] {
      OthersUnique(nodes[1..], key);
      if KeyOf(nodes[0]) != key {
        OthersSubset(nodes[1..], key);
        UniqueCons(nodes[0], Others(nodes[1..], key), nodes);
      }
    }
  }

  /** Removing is a map deletion, and keeps exactly the others, in order. */
  lemma RemoveRefines(nodes: seq<Registration>, key: Key)
    requires UniqueKeys(nodes)
    ensures UniqueKeys(Remove(nodes, key))
    ensures AsMap(Remove(nodes, key)) == AsMap(nodes) - {key}
    ensures Remove(nodes, key) == Others(nodes, key)
  {
    RemoveIsOthers(nodes, key);
    OthersMap(nodes, key);
    OthersUnique(nodes, key);
  }

  lemma {:induction false} RemoveKeepsOthers(nodes: seq<Registration>, key: Key)
    ensures Others(Remove(nodes, key), key) == Others(nodes, key)
  {
    if nodes == [] {
    } else if KeyOf(nodes[0]) == key {
      assert Remove(nodes, key) == nodes[1..];
    } else {
      RemoveTail(nodes, key);
      RemoveKeepsOthers(nodes[1..], key);
      assert Remove(nodes, key)[1..] == Remove(nodes[1..], key);
    }
  }

  lemma {:induction false} OthersSubset(nodes: seq<Registration>, key: Key)
    ensures forall r :: r in Others(nodes, key) ==> r in nodes
  {
    if nodes != [] { OthersSubset(nodes[1..], key); }
  }

  lemma UniqueCons(head: Registration, tail: seq<Registration>, nodes: seq<Registration>)
    requires nodes != [] && nodes[0] == head && UniqueKeys(nodes) && UniqueKeys(tail)
    requires forall r :: r in tail ==> r in nodes[1..]
    ensures UniqueKeys([head] + tail)
  {
    forall j | 0 <= j < |tail| ensures KeyOf(head) != KeyOf(tail[j]) {
      assert tail[j] in nodes[1..];
      var i :| 0 <= i < |nodes[1..]| && nodes[1..][i] == tail[j];
      assert nodes[i + 1] == tail[j];
    }
  }

  /** The role count is the number of map keys with that role. */
  lemma {:induction false} CountIsCardinality(nodes: seq<Registration>, role: string)
    requires UniqueKeys(nodes)
    ensures CountRole(nodes, role) == |set k | k in AsMap(nodes) && k.1 == role|
  {
    var ks := set k | k in AsMap(nodes) && k.1 == role;
    if nodes != [] {
      CountIsCardinality(nodes[1..], role);
      var k0 := KeyOf(nodes[0]);
      var rest := set k | k in AsMap(nodes[1..]) && k.1 == role;
      assert k0 !in AsMap(nodes[1..]) by {
        HeadIsFresh(nodes);
        MapHolds(nodes[1..], k0);
      }
      assert ks == if nodes[0].role == role then rest + {k0} else rest;
    }
  }

  // ---------------------------------------------------------------- histories and crashes

  datatype Event = Event(op: Op, io: SaveResult)

  function RunStore(st: StoreState, events: seq<Event>): StoreState
    decreases events
  {
    if events == [] then st else RunStore(Step(st, events[0].op, events[0].io), events[1..])
  }

  /** Memory alone, without any file: what the callers of the store have asked for. */
  function Asked(s: ClusterState, events: seq<Event>): ClusterState
    decreases events
  {
    if events == [] then s else Asked(Update(s, events[0].op), events[1..])
  }

  /** The memory state at each completed rename, in order. */
  function Renames(s: ClusterState, events: seq<Event>): seq<ClusterState>
    decreases events
  {
    if events == [] then []
    else
      var next := Update(s, events[0].op);
      (if Saves(s, events[0].op) && events[0].io.Saved? then [next] else []) + Renames(next, events[1..])
  }

  /** The last completed rename, or what the store was opened with. */
  function LastRenamed(start: ClusterState, s: ClusterState, events: seq<Event>): ClusterState {
    var rs := Renames(s, events);
    if rs == [] then start else rs[|rs| - 1]
  }

  lemma {:induction false} FileIsLastRename(start: ClusterState, st: StoreState, events: seq<Event>)
    requires Load(st.file) == Some(start)
    ensures RunStore(st, events).mem == Asked(st.mem, events)
    ensures Load(RunStore(st, events).file) == Some(LastRenamed(start, st.mem, events))
    decreases events
  {
    if events != [] {
      var e := events[0];
      var next := Step(st, e.op, e.io);
      var saved := Saves(st.mem, e.op) && e.io.Saved?;
      var start' := if saved then next.mem else start;
      FileIsLastRename(start', next, events[1..]);
      var rs := Renames(next.mem, events[1..]);
      assert Renames(st.mem, events) == (if saved then [next.mem] else []) + rs;
    }
  }

  /**
   * Durability: after any operations, with any pattern of failed saves, and a crash
   * after any file system action of one more operation, reloading yields exactly the
   * memory state at the last completed rename. The state file is never torn.
   */
  lemma ReloadAfterCrash(start: ClusterState, st: StoreState, events: seq<Event>, op: Op, io: SaveResult, k: nat)
    requires Load(st.file) == Some(start)
    requires k <= |OpFiles(RunStore(st, events), op, io)|
    ensures var files := [RunStore(st, events).file] + OpFiles(RunStore(st, events), op, io);
      && Load(files[k]) == Some(
           if k == 3 then Update(Asked(st.mem, events), op) else LastRenamed(start, st.mem, events))
      && (k == 3 ==> Saves(Asked(st.mem, events), op) && io.Saved?)
      && Step(RunStore(st, events), op, io).file == files[|files| - 1]
  {
    FileIsLastRename(start, st, events);
  }

  predicate InSync(st: StoreState) { Load(st.file) == Some(st.mem) }

  /** The last operation of a history that reached its save completed it, or none reached one. */
  predicate LastSaveHeld(s: ClusterState, events: seq<Event>) {
    if events == [] then true
    else
      var k := |events| - 1;
      if Saves(Asked(s, events[..k]), events[k].op) then events[k].io.Saved? else LastSaveHeld(s, events[..k])
  }

  lemma {:induction false} RunSnoc(st: StoreState, events: seq<Event>, e: Event)
    ensures RunStore(st, events + [e]) == Step(RunStore(st, events), e.op, e.io)
    ensures RunStore(st, events).mem == Asked(st.mem, events)
    decreases events
  {
    if events == [] {
      assert ([] + [e])[1..] == [];
      assert events + [e] == [e];
    } else {
      assert (events + [e])[1..] == events[1..] + [e];
      RunSnoc(Step(st, events[0].op, events[0].io), events[1..], e);
    }
  }

  lemma SyncAfterSuccess(st: StoreState, op: Op, io: SaveResult)
    requires Reported(st, op, io)
    ensures InSync(Step(st, op, io)) <==> Saves(st.mem, op) || InSync(st)
  {
  }

  /** From a state in sync, file and memory agree as long as the last save was completed. */
  lemma {:induction false} LastSaveKeepsSync(st: StoreState, events: seq<Event>)
    requires InSync(st) && LastSaveHeld(st.mem, events)
    ensures InSync(RunStore(st, events))
    decreases |events|
  {
    if events != [] {
      var k := |events| - 1;
      var before, e := RunStore(st, events[..k]), events[k];
      assert events == events[..k] + [e];
      RunSnoc(st, events[..k], e);
      if !Saves(before.mem, e.op) { LastSaveKeepsSync(st, events[..k]); }
      SyncAfterSuccess(before, e.op, e.io);
    }
  }

  /**
   * File and memory after any history from a state in sync: they agree exactly if
   * memory is what it was at the last completed rename. A last save that completed
   * ensures it, and success of the last operation does exactly if that operation
   * saved or the history before it left them in agreement, since removing an unknown
   * key reports success without saving.
   */
  lemma SyncAfterHistory(st: StoreState, events: seq<Event>)
    requires InSync(st)
    ensures InSync(RunStore(st, events)) <==> LastRenamed(st.mem, st.mem, events) == Asked(st.mem, events)
    ensures LastSaveHeld(st.mem, events) ==> InSync(RunStore(st, events))
    ensures events != [] ==>
      var k := |events| - 1;
      var before := RunStore(st, events[..k]);
      Reported(before, events[k].op, events[k].io) ==>
        (InSync(RunStore(st, events)) <==> Saves(before.mem, events[k].op) || InSync(before))
  {
    FileIsLastRename(st.mem, st, events);
    if LastSaveHeld(st.mem, events) { LastSaveKeepsSync(st, events); }
    if events != [] {
      var k := |events| - 1;
      var before, e := RunStore(st, events[..k]), events[k];
      assert events == events[..k] + [e];
      RunSnoc(st, events[..k], e);
      if Reported(before, e.op, e.io) { SyncAfterSuccess(before, e.op, e.io); }
    }
  }

  /** A failed registration stays in memory, and a following no-op removal reports success over it. */
  lemma QuietRemovalHidesFailure(st: StoreState, reg: Registration, key: Key, left: File)
    requires st == StoreState(EMPTY, Absent, Absent) && KeyOf(reg) != key
    ensures var failed := Step(st, Add(reg), WriteFailed(left));
      && !Reported(st, Add(reg), WriteFailed(left))
      && Reported(failed, Delete(key), Saved)
      && Step(failed, Delete(key), Saved).mem.nodes == [reg]
      && !InSync(Step(failed, Delete(key), Saved))
  {
    var failed := Step(st, Add(reg), WriteFailed(left));
    assert failed.mem.nodes == [reg];
    assert [reg][1..] == [];
  }

  /** From an empty store, every history keeps hostname and role unique. */
  lemma {:induction false} HistoriesKeepKeysUnique(s: ClusterState, events: seq<Event>)
    requires UniqueKeys(s.nodes)
    ensures UniqueKeys(Asked(s, events).nodes)
    decreases events
  {
    if events != [] {
      var op := events[0].op;
      match op {
        case Add(reg) => UpsertRefines(s.nodes, reg);
        case Delete(key) => RemoveRefines(s.nodes, key);
        case _ =>
      }
      HistoriesKeepKeysUnique(Update(s, op), events[1..]);
    }
  }

  /** The value the last operation that assigns one gave; a reset assigns too. */
  function LastAssigned<T>(setting: Op -> Option<T>, start: T, events: seq<Event>): T {
    if events == [] then start
    else
      var k := |events| - 1;
      var a := setting(events[k].op);
      if a.Some? then a.value else LastAssigned(setting, start, events[..k])
  }

  lemma {:induction false} FieldIsLastAssigned<T>(
      field: ClusterState -> T, setting: Op -> Option<T>, s: ClusterState, events: seq<Event>)
    requires forall x, op :: field(Update(x, op)) == if setting(op).Some? then setting(op).value else field(x)
    ensures field(Asked(s, events)) == LastAssigned(setting, field(s), events)
    decreases |events|
  {
    if events != [] {
      var k := |events| - 1;
      assert events == events[..k] + [events[k]];
      AskedSnoc(s, events[..k], events[k]);
      FieldIsLastAssigned(field, setting, s, events[..k]);
    }
  }

  lemma {:induction false} AskedSnoc(s: ClusterState, events: seq<Event>, e: Event)
    ensures Asked(s, events + [e]) == Update(Asked(s, events), e.op)
    decreases events
  {
    if events == [] {
      assert [e][1..] == [] && events + [e] == [e];
    } else {
      assert (events + [e])[1..] == events[1..] + [e];
      AskedSnoc(Update(s, events[0].op), events[1..], e);
    }
  }

  // What an operation makes of each setting: a reset switches everything off and empties the texts.

  function MakesReady(op: Op): Option<bool> {
    match op case SetStorageReady(b) => Some(b) case Reset => Some(false) case _ => None
  }

  function MakesOrchestrated(op: Op): Option<bool> {
    match op case SetStorageOrchestrated(b) => Some(b) case Reset => Some(false) case _ => None
  }

  function MakesSwarm(op: Op): Option<bool> {
    match op case SetSwarmOrchestrated(b) => Some(b) case Reset => Some(false) case _ => None
  }

  function MakesStorage(op: Op): Option<(bool, string)> {
    match op
    case SetStorageConfig(enabled, storageType) => Some((enabled, storageType))
    case Reset => Some((false, ""))
    case _ => None
  }

  function MakesDeployer(op: Op): Option<string> {
    match op case SetDeployer(hostname) => Some(hostname) case Reset => Some("") case _ => None
  }

  /** Over every history each setting is what the last operation that concerns it made of it. */
  lemma HistoriesKeepFlags(s: ClusterState, events: seq<Event>)
    ensures Asked(s, events).storageReady == LastAssigned(MakesReady, s.storageReady, events)
    ensures Asked(s, events).storageOrchestrated == LastAssigned(MakesOrchestrated, s.storageOrchestrated, events)
    ensures Asked(s, events).swarmOrchestrated == LastAssigned(MakesSwarm, s.swarmOrchestrated, events)
  {
    KeepsReady(s, events);
    KeepsOrchestrated(s, events);
    KeepsSwarm(s, events);
  }

  lemma KeepsReady(s: ClusterState, events: seq<Event>)
    ensures Asked(s, events).storageReady == LastAssigned(MakesReady, s.storageReady, events)
  {
    FieldIsLastAssigned((x: ClusterState) => x.storageReady, MakesReady, s, events);
  }

  lemma KeepsOrchestrated(s: ClusterState, events: seq<Event>)
    ensures Asked(s, events).storageOrchestrated == LastAssigned(MakesOrchestrated, s.storageOrchestrated, events)
  {
    FieldIsLastAssigned((x: ClusterState) => x.storageOrchestrated, MakesOrchestrated, s, events);
  }

  lemma KeepsSwarm(s: ClusterState, events: seq<Event>)
    ensures Asked(s, events).swarmOrchestrated == LastAssigned(MakesSwarm, s.swarmOrchestrated, events)
  {
    FieldIsLastAssigned((x: ClusterState) => x.swarmOrchestrated, MakesSwarm, s, events);
  }

  /** The same of the storage configuration. */
  lemma HistoriesKeepStorage(s: ClusterState, events: seq<Event>)
    ensures (Asked(s, events).storageEnabled, Asked(s, events).storageType)
         == LastAssigned(MakesStorage, (s.storageEnabled, s.storageType), events)
  {
    FieldIsLastAssigned((x: ClusterState) => (x.storageEnabled, x.storageType), MakesStorage, s, events);
  }

  /** And of the deployer. */
  lemma HistoriesKeepDeployer(s: ClusterState, events: seq<Event>)
    ensures Asked(s, events).deployer == LastAssigned(MakesDeployer, s.deployer, events)
  {
    FieldIsLastAssigned((x: ClusterState) => x.deployer, MakesDeployer, s, events);
  }

  /** The keys a history registers or removes. */
  function Touched(events: seq<Event>): set<Key>
    decreases events
  {
    if events == [] then {}
    else
      (match events[0].op
       case Add(reg) => {KeyOf(reg)}
       case Delete(key) => {key}
       case _ => {}) + Touched(events[1..])
  }

  predicate HasReset(events: seq<Event>) { exists e :: e in events && e.op.Reset? }

  /** The registrations with none of the given keys, in list order. */
  function Without(nodes: seq<Registration>, keys: set<Key>): seq<Registration> {
    if nodes == [] then []
    else (if KeyOf(nodes[0]) in keys then [] else [nodes[0]]) + Without(nodes[1..], keys)
  }

  lemma {:induction false} UpsertWithin(nodes: seq<Registration>, reg: Registration, keys: set<Key>)
    requires KeyOf(reg) in keys
    ensures Without(Upsert(nodes, reg), keys) == Without(nodes, keys)
  {
    if nodes == [] {
      assert Upsert(nodes, reg) == [reg] && [reg][1..] == [];
    } else if KeyOf(nodes[0]) == KeyOf(reg) {
      assert Upsert(nodes, reg) == [reg] + nodes[1..];
    } else {
      UpsertTail(nodes, reg);
      UpsertWithin(nodes[1..], reg, keys);
      assert Upsert(nodes, reg)[1..] == Upsert(nodes[1..], reg);
    }
  }

  lemma {:induction false} RemoveWithin(nodes: seq<Registration>, key: Key, keys: set<Key>)
    requires key in keys
    ensures Without(Remove(nodes, key), keys) == Without(nodes, keys)
  {
    if nodes == [] {
    } else if KeyOf(nodes[0]) == key {
      assert Remove(nodes, key) == nodes[1..];
    } else {
      RemoveTail(nodes, key);
      RemoveWithin(nodes[1..], key, keys);
      assert Remove(nodes, key)[1..] == Remove(nodes[1..], key);
    }
  }

  /**
   * Over every history, the registrations it does not touch stay as they are, in
   * their order, until a reset clears them.
   */
  lemma {:induction false} HistoriesKeepOrder(s: ClusterState, events: seq<Event>, keys: set<Key>)
    requires Touched(events) <= keys
    ensures Without(Asked(s, events).nodes, keys) == if HasReset(events) then [] else Without(s.nodes, keys)
    decreases events
  {
    if events != [] {
      var e := events[0];
      match e.op {
        case Add(reg) => UpsertWithin(s.nodes, reg, keys);
        case Delete(key) => RemoveWithin(s.nodes, key, keys);
        case _ =>
      }
      HistoriesKeepOrder(Update(s, e.op), events[1..], keys);
      assert forall x :: x in events <==> x == e || x in events[1..];
    }
  }

  /** The map the callers have asked for. */
  function AskedMap(m: map<Key, Registration>, events: seq<Event>): map<Key, Registration>
    decreases events
  {
    if events == [] then m
    else
      var next := match events[0].op
        case Add(reg) => m[KeyOf(reg) := reg]
        case Delete(key) => m - {key}
        case Reset => map[]
        case _ => m;
      AskedMap(next, events[1..])
  }

  /** The in-place list refines a map with update, delete and clear, over every history. */
  lemma {:induction false} HistoriesRefineMap(s: ClusterState, events: seq<Event>)
    requires UniqueKeys(s.nodes)
    ensures AsMap(Asked(s, events).nodes) == AskedMap(AsMap(s.nodes), events)
    decreases events
  {
    if events != [] {
      var op := events[0].op;
      match op {
        case Add(reg) => UpsertRefines(s.nodes, reg);
        case Delete(key) => RemoveRefines(s.nodes, key);
        case _ =>
      }
      HistoriesRefineMap(Update(s, op), events[1..]);
    }
  }
}
