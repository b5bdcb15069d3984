/**
 * Setting up the distributed storage cluster: the phases, and the provider
 * operations they drive. Every operation may fail; every run leaves a log.
 */
module Storage {
  import opened Prelude

  type Host = string

  /** The daemons a status answer reports. */
  datatype Daemons = Daemons(up: nat, total: nat)

  /** At least one daemon, and a majority of them, is up. */
  predicate Healthy(d: Daemons) { 0 < d.up && d.total < 2 * d.up }

  /** The steps a setup needs; a refused one ends it. */
  datatype Step =
    | InstallOn(n: Host)
    | BootstrapOn(n: Host)
    | TokenFor(n: Host)
    | JoinOf(n: Host)
    | StorageOn(n: Host)
    | PoolStep
    | CredentialsStep
    | GateStep(reply: Option<Daemons>)
    | MountOn(n: Host)

  /** What happens on the machines, in order. Some events carry the cluster members at that moment. */
  datatype Event =
    | Installed(n: Host)
    | Bootstrapped(n: Host)
    | JoinCommand(n: Host, members: set<Host>)
    | AddStorage(n: Host, members: set<Host>)
    | DiskAdded(n: Host)
    | PoolCreated
    | CredentialsRead
    | GatePassed(daemons: Daemons)
    | MountTried(n: Host)
    | Mounted(n: Host)
    | Refused(step: Step)

  /** What `microceph cluster add` answers: a token, that the host is known already, or an error. */
  datatype AddReply = Token(text: string) | KnownAlready | AddFailed

  /** What the join command answers: nothing wrong, that the host is a member already, or an error. */
  datatype JoinReply = Joins | SaysMember | JoinFailed

  function MajorityOf(total: nat): nat { total / 2 + 1 }

  function Repeated(e: Event, k: nat): seq<Event> { seq(k, _ => e) }

  /** Disks to claim on a host without any: the eligible ones, or else a loop device if allowed. */
  function Fresh(eligible: nat, allowLoop: bool): nat { if eligible == 0 && allowLoop then 1 else eligible }

  /** A refusal at the end, unless the step went well. */
  function UnlessOk(ok: bool, step: Step): seq<Event> { if ok then [] else [Refused(step)] }

  /**
   * The machines behind the provider: cluster members, hosts with configured disks,
   * and the log. On reliable machines no command fails. The answers a result depends
   * on are returned beside it.
   */
  class Machines {
    const reliable: bool
    var members: set<Host>
    var withDisks: set<Host>
    var log: seq<Event>

    constructor (members: set<Host>, withDisks: set<Host>, reliable: bool)
      ensures this.members == members && this.withDisks == withDisks && log == [] && this.reliable == reliable
    {
      this.members, this.withDisks, this.log, this.reliable := members, withDisks, [], reliable;
    }

    method Note(e: Event)
      modifies this`log
      ensures log == old(log) + [e]
    {
      log := log + [e];
    }

    method NoteRefusal(ok: bool, step: Step)
      modifies this`log
      ensures log == old(log) + UnlessOk(ok, step)
    {
      if !ok { log := log + [Refused(step)]; }
    }

    /** `microceph status` succeeds only on a member; on a member it may still fail. */
    method Status(n: Host) returns (ok: bool)
      ensures ok ==> n in members
      ensures reliable && n in members ==> ok
    {
      var arrives: bool := *;
      ok := (arrives || reliable) && n in members;
    }

    /** A command that leaves an event; a failed one may have left it all the same. */
    method Effect(e: Event, step: Step) returns (ok: bool)
      modifies this`log
      ensures ok ==> log == old(log) + [e]
      ensures !ok ==> log == old(log) + [Refused(step)] || log == old(log) + [e] + [Refused(step)]
      ensures reliable ==> ok
    {
      var effect: bool, answer: bool := *, *;
      if effect || reliable { Note(e); }
      ok := (effect && answer) || reliable;
      NoteRefusal(ok, step);
    }

    /** Three attempts at most, up to the first that answers or counts as "already", then a status check. */
    method Bootstrap(n: Host) returns (ok: bool, answers: seq<bool>, status: bool)
      modifies this`log, this`members
      ensures members == old(members) || members == old(members) + {n}
      ensures status ==> n in members
      ensures |answers| <= 3 && (true !in answers ==> |answers| == 3)
      ensures forall i :: 0 <= i < |answers| - 1 ==> !answers[i]
      ensures ok <==> true in answers && status
      ensures log == old(log) + (if ok then [Bootstrapped(n)] else [Refused(BootstrapOn(n))])
      ensures reliable ==> ok
    {
      answers, status := [], false;
      while |answers| < 3 && true !in answers
        invariant |answers| <= 3 && (true !in answers ==> forall i :: 0 <= i < |answers| ==> !answers[i])
        invariant forall i :: 0 <= i < |answers| - 1 ==> !answers[i]
        invariant members == old(members) || members == old(members) + {n}
        invariant reliable && |answers| > 0 ==> true in answers && n in members
        invariant log == old(log)
        decreases 3 - |answers|
      {
        var effect: bool, answer: bool := *, *;
        if effect || reliable { members := members + {n}; }
        answers := answers + [answer || reliable];
      }
      if true in answers { status := Status(n); }
      ok := true in answers && status;
      if ok { Note(Bootstrapped(n)); } else { Note(Refused(BootstrapOn(n))); }
    }

    /** `microceph cluster add`: never a token for a member. */
    method ClusterAdd(n: Host) returns (reply: AddReply)
      ensures reply.Token? ==> n !in members && reply.text != ""
      ensures reliable ==> if n in members then reply.KnownAlready? else reply.Token?
    {
      var answers: bool, already: bool := *, *;
      if !(answers || reliable) { return AddFailed; }
      if n in members || (already && !reliable) { return KnownAlready; }
      reply := Token("token");
    }

    /** None is an error; an empty token means that joining is skipped. */
    method GenerateJoinToken(primary: Host, n: Host)
      returns (token: Option<string>, joined: bool, resolved: bool, reply: AddReply)
      modifies this`log
      ensures token == (
        if joined then Some("")
        else if !resolved || reply.AddFailed? then None
        else if reply.Token? then Some(reply.text)
        else Some(""))
      ensures joined ==> n in members
      ensures token.Some? && token.value != "" ==> n !in members
      ensures log == old(log) + UnlessOk(token.Some?, TokenFor(n))
      ensures reliable ==> token.Some? && (n in members || token.value != "")
    {
      resolved, reply := *, AddFailed;
      resolved := resolved || reliable;
      joined := Status(n);
      if joined {
        token := Some("");
      } else if !resolved {
        token := None;
      } else {
        reply := ClusterAdd(n);
        token := if reply.AddFailed? then None else if reply.Token? then Some(reply.text) else Some("");
        assert reply.Token? ==> reply.text != "";
      }
      NoteRefusal(token.Some?, TokenFor(n));
    }

    /** Skipped on a member; needs a token otherwise; an error that says "member" is truthful and counts as success. */
    method Join(n: Host, token: string) returns (ok: bool, joined: bool, reply: JoinReply, status: bool)
      requires token != "" ==> n !in members
      modifies this`log, this`members
      ensures members == old(members) || members == old(members) + {n}
      ensures joined ==> n in old(members)
      ensures ok <==> joined || (token != "" && (reply.SaysMember? || (reply.Joins? && status)))
      ensures log == old(log) + (if !joined && token != "" then [JoinCommand(n, old(members))] else [])
                              + UnlessOk(ok, JoinOf(n))
      ensures ok ==> n in members
      ensures reliable && (n in members || token != "") ==> ok
    {
      reply, status := JoinFailed, false;
      joined := Status(n);
      ok := joined;
      if !joined && token != "" {
        Note(JoinCommand(n, members));
        var effect: bool, answered: bool, says: bool := *, *, *;
        if effect || reliable { members := members + {n}; }
        reply := if answered || reliable then Joins else if says && n in members then SaysMember else JoinFailed;
        status := Status(n);
        ok := reply.SaysMember? || (reply.Joins? && status);
      }
      NoteRefusal(ok, JoinOf(n));
    }

    /**
     * Skips a host whose configured disks are reported; otherwise adds eligible
     * disks one by one, each of which may fail, and falls back to a loop device when
     * none worked, whose failure is the only error. A failed disk may be claimed all
     * the same. Reliable machines claim all there is.
     */
    method AddStorageTo(n: Host, eligible: nat, allowLoop: bool)
      returns (ok: bool, skipped: bool, answers: seq<bool>, loopAnswer: bool)
      modifies this`log, this`withDisks
      ensures skipped ==> n in old(withDisks)
      ensures !skipped ==> |answers| == eligible
      ensures ok <==> skipped || true in answers || !allowLoop || loopAnswer
      ensures exists k: nat ::
        && k <= eligible + 1
        && log == old(log) + [AddStorage(n, members)] + Repeated(DiskAdded(n), k) + UnlessOk(ok, StorageOn(n))
      ensures withDisks == old(withDisks) || withDisks == old(withDisks) + {n}
      ensures reliable ==>
        var k := if n in old(withDisks) then 0 else Fresh(eligible, allowLoop);
        ok && log == old(log) + [AddStorage(n, members)] + Repeated(DiskAdded(n), k)
      ensures reliable ==> withDisks == old(withDisks) + (if Fresh(eligible, allowLoop) == 0 then {} else {n})
    {
      Note(AddStorage(n, members));
      ghost var start, claimed: nat := log, 0;
      assert log == start + Repeated(DiskAdded(n), claimed);
      answers, loopAnswer := [], false;
      var reported: bool := *;
      skipped := (reported || reliable) && n in withDisks;
      if !skipped {
        claimed, answers := AddDisks(n, eligible, start);
        if true !in answers && allowLoop {
          var effect: bool, answer: bool := *, *;
          if effect || reliable {
            ClaimDisk(n, start, claimed);
            claimed := claimed + 1;
          }
          loopAnswer := (effect && answer) || reliable;
        }
      }
      ok := skipped || true in answers || !allowLoop || loopAnswer;
      NoteRefusal(ok, StorageOn(n));
      assert start + Repeated(DiskAdded(n), claimed) + [] == start + Repeated(DiskAdded(n), claimed);
    }

    method AddDisks(n: Host, eligible: nat, ghost start: seq<Event>) returns (ghost claimed: nat, answers: seq<bool>)
      requires log == start + Repeated(DiskAdded(n), 0)
      modifies this`log, this`withDisks
      ensures claimed <= eligible && |answers| == eligible
      ensures log == start + Repeated(DiskAdded(n), claimed)
      ensures withDisks == old(withDisks) || withDisks == old(withDisks) + {n}
      ensures reliable ==> claimed == eligible && (eligible > 0 ==> true in answers)
      ensures reliable ==> withDisks == old(withDisks) + (if eligible == 0 then {} else {n})
    {
      claimed, answers := 0, [];
      for i := 0 to eligible
        invariant claimed <= i == |answers|
        invariant log == start + Repeated(DiskAdded(n), claimed)
        invariant withDisks == old(withDisks) || withDisks == old(withDisks) + {n}
        invariant reliable ==> claimed == i && (i > 0 ==> true in answers)
        invariant reliable ==> withDisks == old(withDisks) + (if i == 0 then {} else {n})
      {
        var effect: bool, answer: bool := *, *;
        if effect || reliable {
          ClaimDisk(n, start, claimed);
          claimed := claimed + 1;
        }
        answers := answers + [(effect && answer) || reliable];
      }
    }

    method ClaimDisk(n: Host, ghost start: seq<Event>, ghost claimed: nat)
      requires log == start + Repeated(DiskAdded(n), claimed)
      modifies this`log, this`withDisks
      ensures log == start + Repeated(DiskAdded(n), claimed + 1)
      ensures withDisks == old(withDisks) + {n}
    {
      log := log + [DiskAdded(n)];
      withDisks := withDisks + {n};
      assert Repeated(DiskAdded(n), claimed + 1) == Repeated(DiskAdded(n), claimed) + [DiskAdded(n)];
    }

    /** The gate before mounting: it opens exactly when an answer arrives that reports a majority up. */
    method VerifyHealthForMount() returns (ok: bool, reply: Option<Daemons>)
      modifies this`log
      ensures ok <==> reply.Some? && Healthy(reply.value)
      ensures log == old(log) + [if ok then GatePassed(reply.value) else Refused(GateStep(reply))]
      ensures reliable ==> (ok <==> withDisks != {})
    {
      var arrives: bool, up: nat, total: nat := *, *, *;
      if reliable { up, total := |withDisks|, |withDisks|; }
      reply := if arrives || reliable then Some(Daemons(up, total)) else None;
      if reply.None? {
        ok := false;
      } else {
        var majority := MajorityOf(reply.value.total);
        ok := !(reply.value.up == 0 || reply.value.up < majority);
      }
      if ok { Note(GatePassed(reply.value)); } else { Note(Refused(GateStep(reply))); }
    }

    method Mount(n: Host) returns (ok: bool)
      modifies this`log
      ensures ok ==> log == old(log) + [MountTried(n)] + [Mounted(n)]
      ensures !ok ==> var tried := old(log) + [MountTried(n)];
        log == tried + [Refused(MountOn(n))] || log == tried + [Mounted(n)] + [Refused(MountOn(n))]
      ensures reliable ==> ok
    {
      Note(MountTried(n));
      ok := Effect(Mounted(n), MountOn(n));
    }
  }

  // ---------------------------------------------------------------- the protocol

  /** First occurrences, in order. */
  function Unique(hs: seq<Host>): seq<Host> {
    if hs == [] then []
    else
      var u, last := Unique(hs[..|hs| - 1]), hs[|hs| - 1];
      if last in u then u else u + [last]
  }

  /** Role texts that mean a host gets disks. */
  predicate DiskRole(text: string) {
    var role := ToLower(TrimSpace(text));
    role == "worker" || role == "both" || role == "all" || role == ""
  }

  /** The word between white space that means disks, in letters of either case; or nothing at all. */
  predicate DiskWord(w: string) {
    w == "" || SameLetters(w, "worker") || SameLetters(w, "both") || SameLetters(w, "all")
  }

  /** Exactly these role texts mean disks; "manager" is none of them. */
  lemma DiskRoleTexts(text: string)
    ensures DiskRole(text) <==> exists a, w, b :: text == a + w + b && AllSpace(a) && AllSpace(b) && DiskWord(w)
  {
    if DiskRole(text) {
      var a, b := TrimSplits(text);
      DiskWordLower(TrimSpace(text));
      assert text == a + TrimSpace(text) + b;
    }
    if a, w, b :| text == a + w + b && AllSpace(a) && AllSpace(b) && DiskWord(w) {
      DiskWordLower(w);
      TrimFinds(a, w, b);
    }
  }

  lemma DiskWordLower(w: string)
    ensures DiskWord(w) <==> ToLower(w) in {"", "worker", "both", "all"}
    ensures DiskWord(w) && w != "" ==> !IsSpace(w[0]) && !IsSpace(w[|w| - 1])
  {
    LowerMeansSameLetters(w, "worker");
    LowerMeansSameLetters(w, "both");
    LowerMeansSameLetters(w, "all");
  }

  /** Without a role table no host gets disks. */
  predicate GetsStorage(roles: Option<map<Host, string>>, n: Host) {
    roles.Some? && n in roles.value && DiskRole(roles.value[n])
  }

  /** Only hosts of the role table get disks. */
  lemma OnlyListedHostsGetDisks(roles: Option<map<Host, string>>, n: Host)
    ensures GetsStorage(roles, n) ==> roles.Some? && n in roles.value
    ensures roles.Some? && n in roles.value && DiskWord(roles.value[n]) ==> GetsStorage(roles, n)
  {
    if roles.Some? && n in roles.value {
      var text := roles.value[n];
      DiskWordLower(text);
      if DiskWord(text) { TrimFinds("", text, ""); assert "" + text + "" == text; }
    }
  }

  datatype Plan = Plan(
    all: seq<Host>, managers: seq<Host>, primary: Host, workers: seq<Host>, roles: Option<map<Host, string>>)

  /** The hosts on which storage was added. */
  function Served(log: seq<Event>): set<Host> { set x | x in log && x.AddStorage? :: x.n }

  predicate StorageCalled(before: seq<Event>, n: Host) { n in Served(before) }

  /** No step was refused. */
  predicate Clean(log: seq<Event>) { forall x :: x in log ==> !x.Refused? }

  /** What must have happened before an event. Nothing happens after a refusal. */
  predicate Allowed(p: Plan, before: seq<Event>, e: Event) {
    Clean(before) &&
    match e
    case Installed(_) => true
    case Bootstrapped(n) => n == p.primary && Installed(n) in before
    case JoinCommand(n, members) =>
      && n !in members && Installed(n) in before && Bootstrapped(p.primary) in before
      && (n in p.managers || forall h :: h in p.managers ==> h in members)
    case AddStorage(n, members) =>
      && (forall h :: h in p.all ==> h in members)
      && n in p.all && GetsStorage(p.roles, n) && !StorageCalled(before, n)
    case DiskAdded(n) => StorageCalled(before, n)
    case PoolCreated => Bootstrapped(p.primary) in before
    case CredentialsRead => PoolCreated in before
    case GatePassed(daemons) => Healthy(daemons) && PoolCreated in before && CredentialsRead in before
    case MountTried(n) => n in p.workers && exists x :: x in before && x.GatePassed?
    case Mounted(n) => MountTried(n) in before
    case Refused(step) =>
      match step
      case GateStep(reply) => PoolCreated in before && !(reply.Some? && Healthy(reply.value))
      case StorageOn(n) => StorageCalled(before, n)
      case MountOn(n) => MountTried(n) in before
      case _ => true
  }

  predicate Protocol(p: Plan, log: seq<Event>) {
    forall i :: 0 <= i < |log| ==> Allowed(p, log[..i], log[i])
  }

  /** The phase an event belongs to; a refusal may come in any. */
  function PhaseOf(e: Event): nat {
    match e
    case Installed(_) => 1
    case Bootstrapped(_) => 1
    case JoinCommand(_, _) => 1
    case AddStorage(_, _) => 2
    case DiskAdded(_) => 2
    case Refused(_) => 0
    case _ => 3
  }

  /**
   * A part of a run: the log grew by events of one phase, still obeys the protocol,
   * and has no refusal exactly if this part went well.
   */
  ghost predicate Grows(p: Plan, from: seq<Event>, log: seq<Event>, phase: nat, ok: bool) {
    && Protocol(p, log) && (Clean(log) <==> ok)
    && (forall x :: x in from ==> x in log)
    && (forall x :: x in log ==> x in from || PhaseOf(x) == phase || x.Refused?)
  }

  lemma Extend(p: Plan, log: seq<Event>, e: Event)
    requires Protocol(p, log) && Allowed(p, log, e)
    ensures Protocol(p, log + [e])
  {
    var more := log + [e];
    forall i | 0 <= i < |more| ensures Allowed(p, more[..i], more[i]) {
      if i < |log| { assert more[..i] == log[..i]; } else { assert more[..i] == log; }
    }
  }

  /** One more event. */
  lemma Grow(p: Plan, from: seq<Event>, log: seq<Event>, phase: nat, e: Event)
    requires Grows(p, from, log, phase, true) && Allowed(p, log, e) && (PhaseOf(e) == phase || e.Refused?)
    ensures Grows(p, from, log + [e], phase, !e.Refused?) && e in log + [e]
  {
    Extend(p, log, e);
    assert (log + [e])[|log|] == e;
    assert forall x :: x in log + [e] <==> x in log || x == e;
  }

  /** An event, and a refusal after it or instead, as a command leaves them. */
  lemma GrowByEffect(p: Plan, from: seq<Event>, log: seq<Event>, after: seq<Event>, phase: nat,
                     e: Event, step: Step, ok: bool)
    requires Grows(p, from, log, phase, true) && Allowed(p, log, e) && PhaseOf(e) == phase && !e.Refused?
    requires Allowed(p, log, Refused(step)) && Allowed(p, log + [e], Refused(step))
    requires ok ==> after == log + [e]
    requires !ok ==> after == log + [Refused(step)] || after == log + [e] + [Refused(step)]
    ensures Grows(p, from, after, phase, ok) && (ok ==> e in after)
  {
    Grow(p, from, log, phase, e);
    if !ok {
      if after == log + [Refused(step)] {
        Grow(p, from, log, phase, Refused(step));
      } else {
        Grow(p, from, log + [e], phase, Refused(step));
      }
    }
  }

  lemma GrowNot(p: Plan, log: seq<Event>, phase: nat)
    requires Protocol(p, log) && Clean(log)
    ensures Grows(p, log, log, phase, true)
  {
  }

  lemma GrowOn(p: Plan, a: seq<Event>, b: seq<Event>, c: seq<Event>, phase: nat, ok: bool)
    requires Grows(p, a, b, phase, true) && Grows(p, b, c, phase, ok)
    ensures Grows(p, a, c, phase, ok)
  {
  }

  /** The log with `k` disks claimed behind it. */
  ghost predicate DisksLog(p: Plan, from: seq<Event>, log: seq<Event>, after: seq<Event>, n: Host) {
    Grows(p, from, after, 2, true) && StorageCalled(after, n) && Served(after) == Served(log)
  }

  lemma {:induction false} GrowByDisks(p: Plan, from: seq<Event>, log: seq<Event>, n: Host, k: nat)
    requires Grows(p, from, log, 2, true) && StorageCalled(log, n)
    ensures DisksLog(p, from, log, log + Repeated(DiskAdded(n), k), n)
  {
    if k == 0 {
      assert log + Repeated(DiskAdded(n), 0) == log;
    } else {
      GrowByDisks(p, from, log, n, k - 1);
      var before := log + Repeated(DiskAdded(n), k - 1);
      assert log + Repeated(DiskAdded(n), k) == before + [DiskAdded(n)];
      OneMoreDisk(p, from, log, before, n);
    }
  }

  lemma OneMoreDisk(p: Plan, from: seq<Event>, log: seq<Event>, before: seq<Event>, n: Host)
    requires DisksLog(p, from, log, before, n)
    ensures DisksLog(p, from, log, before + [DiskAdded(n)], n)
  {
    Grow(p, from, before, 2, DiskAdded(n));
    ServedAfter(before, DiskAdded(n));
  }

  lemma ServedAfter(log: seq<Event>, e: Event)
    ensures Served(log + [e]) == Served(log) + (if e.AddStorage? then {e.n} else {})
  {
    assert (log + [e])[|log|] == e;
    assert forall x :: x in log + [e] <==> x in log || x == e;
  }

  /** Only the storage phase calls for storage. */
  lemma ServedBefore(p: Plan, a: seq<Event>, b: seq<Event>, phase: nat, ok: bool)
    requires Grows(p, a, b, phase, ok) && phase != 2
    ensures Served(b) == Served(a)
  {
  }

  // ---------------------------------------------------------------- what the protocol means for a whole log

  /** Every mount is tried behind a passed majority check, and that behind the creation of the pool. */
  predicate MountsGated(log: seq<Event>) {
    forall i :: 0 <= i < |log| && log[i].MountTried? ==> PoolThenGate(log[..i])
  }

  predicate PoolThenGate(log: seq<Event>) {
    exists j, k :: 0 <= j < k < |log| && log[j] == PoolCreated && log[k].GatePassed? && Healthy(log[k].daemons)
  }

  /** Storage is added at most once per host. */
  predicate ServedOnce(log: seq<Event>) {
    forall i, j :: 0 <= i < j < |log| && log[i].AddStorage? && log[j].AddStorage? ==> log[i].n != log[j].n
  }

  /** No storage is added, and no disk claimed, on a host whose role is manager. */
  predicate ManagersUntouched(roles: Option<map<Host, string>>, log: seq<Event>) {
    forall x :: x in log && (x.AddStorage? || x.DiskAdded?) ==>
      roles.Some? && x.n in roles.value && ToLower(TrimSpace(roles.value[x.n])) != "manager"
  }

  /** No host joins that is a member already, and none before it is installed and the primary bootstrapped. */
  predicate JoinsInOrder(primary: Host, log: seq<Event>) {
    forall i :: 0 <= i < |log| && log[i].JoinCommand? ==>
      log[i].n !in log[i].members && Installed(log[i].n) in log[..i] && Bootstrapped(primary) in log[..i]
  }

  /** No storage is added before every host of the cluster is a member. */
  predicate StorageAfterJoins(all: seq<Host>, log: seq<Event>) {
    forall x, h :: x in log && x.AddStorage? && h in all ==> h in x.members
  }

  /** The last event is the only one that may be a refusal. */
  predicate StopsAtRefusal(log: seq<Event>) { forall i :: 0 <= i < |log| - 1 ==> !log[i].Refused? }

  lemma GatedAt(p: Plan, log: seq<Event>, i: nat)
    requires Protocol(p, log) && i < |log| && log[i].MountTried?
    ensures PoolThenGate(log[..i])
  {
    assert Allowed(p, log[..i], log[i]);
    var x :| x in log[..i] && x.GatePassed?;
    var k := Place(log[..i], x);
    assert Allowed(p, log[..k], log[k]);
    var j := Place(log[..k], PoolCreated);
    GateWitness(log[..i], j, k);
  }

  lemma Place(log: seq<Event>, x: Event) returns (k: nat)
    requires x in log
    ensures k < |log| && log[k] == x
  {
    k :| 0 <= k < |log| && log[k] == x;
  }

  lemma GateWitness(log: seq<Event>, j: nat, k: nat)
    requires j < k < |log| && log[j] == PoolCreated && log[k].GatePassed? && Healthy(log[k].daemons)
    ensures PoolThenGate(log)
  {
  }

  lemma ServedByRole(p: Plan, log: seq<Event>, i: nat)
    requires Protocol(p, log) && i < |log| && (log[i].AddStorage? || log[i].DiskAdded?)
    ensures GetsStorage(p.roles, log[i].n)
  {
    assert Allowed(p, log[..i], log[i]);
    if log[i].DiskAdded? {
      var x :| x in log[..i] && x.AddStorage? && x.n == log[i].n;
      var k :| 0 <= k < i && log[..i][k] == x;
      assert Allowed(p, log[..k], log[k]);
    }
  }

  /** What holds of the log of every setup of these hosts. */
  ghost predicate Orderly(managers: seq<Host>, hosts: seq<Host>, roles: Option<map<Host, string>>, log: seq<Event>) {
    && MountsGated(log) && ServedOnce(log) && ManagersUntouched(roles, log)
    && (managers != [] ==> JoinsInOrder(managers[0], log))
    && StorageAfterJoins(hosts, log) && StopsAtRefusal(log)
  }

  lemma PlanIsOrderly(p: Plan, hosts: seq<Host>, log: seq<Event>)
    requires Protocol(p, log) && p.managers != [] && p.primary == p.managers[0]
    requires forall h :: h in hosts ==> h in p.all
    ensures Orderly(p.managers, hosts, p.roles, log)
  {
    ProtocolMeans(p, log);
  }

  /** Every log that obeys the protocol has these properties as a whole. */
  lemma ProtocolMeans(p: Plan, log: seq<Event>)
    requires Protocol(p, log)
    ensures MountsGated(log) && ServedOnce(log) && ManagersUntouched(p.roles, log)
    ensures JoinsInOrder(p.primary, log) && StorageAfterJoins(p.all, log) && StopsAtRefusal(log)
  {
    forall i | 0 <= i < |log| - 1 ensures !log[i].Refused? {
      assert Allowed(p, log[..|log| - 1], log[|log| - 1]);
      assert log[..|log| - 1][i] == log[i];
    }
    forall i | 0 <= i < |log| && log[i].MountTried? ensures PoolThenGate(log[..i]) {
      GatedAt(p, log, i);
    }
    forall i, j | 0 <= i < j < |log| && log[i].AddStorage? && log[j].AddStorage? ensures log[i].n != log[j].n {
      assert Allowed(p, log[..j], log[j]);
      assert log[i] == log[..j][i] && log[i] in log[..j];
    }
    forall x | x in log && (x.AddStorage? || x.DiskAdded?) ensures GetsStorage(p.roles, x.n) {
      var i :| 0 <= i < |log| && log[i] == x;
      ServedByRole(p, log, i);
    }
    forall i | 0 <= i < |log| && log[i].JoinCommand? ensures Allowed(p, log[..i], log[i]) {}
    forall x, h | x in log && x.AddStorage? && h in p.all ensures h in x.members {
      var i :| 0 <= i < |log| && log[i] == x;
      assert Allowed(p, log[..i], log[i]);
    }
  }

  // ---------------------------------------------------------------- the phases

  method AllNodes(managers: seq<Host>, workers: seq<Host>) returns (all: seq<Host>)
    ensures all == Unique(managers + workers)
  {
    all := [];
    for i := 0 to |managers|
      invariant all == Unique(managers[..i])
    {
      assert managers[..i + 1][..i] == managers[..i];
      if managers[i] !in all { all := all + [managers[i]]; }
    }
    var both := managers + workers;
    assert managers[..|managers|] == both[..|managers|];
    for i := 0 to |workers|
      invariant all == Unique(both[..|managers| + i])
    {
      assert both[..|managers| + i + 1][..|managers| + i] == both[..|managers| + i];
      if workers[i] !in all { all := all + [workers[i]]; }
    }
    assert both[..|both|] == both;
  }

  lemma {:induction false} UniqueIsSet(hs: seq<Host>)
    ensures forall h :: h in Unique(hs) <==> h in hs
    ensures forall i, j :: 0 <= i < j < |Unique(hs)| ==> Unique(hs)[i] != Unique(hs)[j]
  {
    if hs != [] {
      UniqueIsSet(hs[..|hs| - 1]);
      assert hs == hs[..|hs| - 1] + [hs[|hs| - 1]];
    }
  }

  method InstallHost(m: Machines, ghost p: Plan, n: Host) returns (ok: bool)
    requires Protocol(p, m.log) && Clean(m.log)
    modifies m`log
    ensures Grows(p, old(m.log), m.log, 1, ok)
    ensures ok ==> Installed(n) in m.log
    ensures m.reliable ==> ok
  {
    ghost var start := m.log;
    GrowNot(p, start, 1);
    CleanAfter(start, Installed(n));
    ok := m.Effect(Installed(n), InstallOn(n));
    GrowByEffect(p, start, start, m.log, 1, Installed(n), InstallOn(n), ok);
  }

  method InstallAndJoin(m: Machines, ghost p: Plan, primary: Host, n: Host) returns (ok: bool)
    requires primary == p.primary && Protocol(p, m.log) && Clean(m.log) && Bootstrapped(p.primary) in m.log
    requires n in p.managers || forall h :: h in p.managers ==> h in m.members
    modifies m`log, m`members
    ensures Grows(p, old(m.log), m.log, 1, ok)
    ensures old(m.members) <= m.members
    ensures ok ==> n in m.members && Installed(n) in m.log
    ensures m.reliable ==> ok
  {
    ghost var start := m.log;
    ok := InstallHost(m, p, n);
    if !ok { return; }
    ghost var installed := m.log;
    var token, _, _, _ := m.GenerateJoinToken(primary, n);
    if token.None? {
      Grow(p, start, installed, 1, Refused(TokenFor(n)));
      return false;
    }
    assert m.log == installed;
    ghost var inCluster := m.members;
    var done, joined, _, _ := m.Join(n, token.value);
    ok := done;
    JoinedLog(p, start, installed, m.log, n, inCluster, !joined && token.value != "", ok);
  }

  lemma CleanAfter(log: seq<Event>, e: Event)
    requires Clean(log) && !e.Refused?
    ensures Clean(log + [e])
  {
    assert forall x :: x in log + [e] <==> x in log || x == e;
  }

  /** What joining leaves behind installation and token. */
  lemma JoinedLog(p: Plan, start: seq<Event>, log: seq<Event>, after: seq<Event>, n: Host, members: set<Host>,
                  tried: bool, ok: bool)
    requires Grows(p, start, log, 1, true) && Installed(n) in log && Bootstrapped(p.primary) in log
    requires tried ==> n !in members && (n in p.managers || forall h :: h in p.managers ==> h in members)
    requires after == log + (if tried then [JoinCommand(n, members)] else []) + UnlessOk(ok, JoinOf(n))
    ensures Grows(p, start, after, 1, ok) && Installed(n) in after
  {
    var mid := log + (if tried then [JoinCommand(n, members)] else []);
    if tried { Grow(p, start, log, 1, JoinCommand(n, members)); } else { assert mid == log; }
    if ok { assert after == mid; } else { Grow(p, start, mid, 1, Refused(JoinOf(n))); }
  }

  /** Phases two and three: every host of the list is installed and joined, in order. */
  method JoinAll(m: Machines, ghost p: Plan, primary: Host, hs: seq<Host>) returns (ok: bool)
    requires primary == p.primary && Protocol(p, m.log) && Clean(m.log) && Bootstrapped(p.primary) in m.log
    requires (forall h :: h in hs ==> h in p.managers) || forall h :: h in p.managers ==> h in m.members
    modifies m`log, m`members
    ensures Grows(p, old(m.log), m.log, 1, ok)
    ensures old(m.members) <= m.members
    ensures ok ==> forall h :: h in hs ==> h in m.members && Installed(h) in m.log
    ensures m.reliable ==> ok
  {
    ghost var start := m.log;
    GrowNot(p, start, 1);
    for i := 0 to |hs|
      invariant Grows(p, start, m.log, 1, true)
      invariant old(m.members) <= m.members
      invariant forall j :: 0 <= j < i ==> hs[j] in m.members && Installed(hs[j]) in m.log
    {
      ghost var before := m.log;
      assert hs[i] in hs;
      ok := InstallAndJoin(m, p, primary, hs[i]);
      GrowOn(p, start, before, m.log, 1, ok);
      if !ok { return; }
    }
    ok := true;
  }

  /** The hosts of the deduplicated list that get disks. */
  method StorageNodes(all: seq<Host>, roles: Option<map<Host, string>>) returns (hs: seq<Host>)
    requires forall i, j :: 0 <= i < j < |all| ==> all[i] != all[j]
    ensures forall h :: h in hs <==> h in all && GetsStorage(roles, h)
    ensures forall i, j :: 0 <= i < j < |hs| ==> hs[i] != hs[j]
  {
    hs := [];
    for i := 0 to |all|
      invariant forall h :: h in hs <==> h in all[..i] && GetsStorage(roles, h)
      invariant forall i, j :: 0 <= i < j < |hs| ==> hs[i] != hs[j]
    {
      assert all[i] !in all[..i];
      assert all[..i + 1] == all[..i] + [all[i]];
      if GetsStorage(roles, all[i]) { hs := hs + [all[i]]; }
    }
    assert all[..|all|] == all;
  }

  /** The hosts with something to claim. */
  function Claiming(hs: seq<Host>, eligible: map<Host, nat>, allowLoop: bool): set<Host> {
    set h | h in hs && Fresh(DisksOf(eligible, h), allowLoop) > 0
  }

  function DisksOf(eligible: map<Host, nat>, h: Host): nat { if h in eligible then eligible[h] else 0 }

  method AddOneStorage(m: Machines, ghost p: Plan, n: Host, eligible: nat, allowLoop: bool) returns (ok: bool)
    requires Protocol(p, m.log) && Clean(m.log)
    requires forall h :: h in p.all ==> h in m.members
    requires n in p.all && GetsStorage(p.roles, n) && !StorageCalled(m.log, n)
    modifies m`log, m`withDisks
    ensures Grows(p, old(m.log), m.log, 2, ok) && Served(m.log) == Served(old(m.log)) + {n}
    ensures m.reliable ==> ok
    ensures m.reliable ==> m.withDisks == old(m.withDisks) + (if Fresh(eligible, allowLoop) == 0 then {} else {n})
  {
    ghost var before := m.log;
    ghost var e := AddStorage(n, m.members);
    var done, _, _, _ := m.AddStorageTo(n, eligible, allowLoop);
    ok := done;
    ghost var k: nat :|
      k <= eligible + 1 && m.log == before + [e] + Repeated(DiskAdded(n), k) + UnlessOk(ok, StorageOn(n));
    ServedLog(p, before, m.log, n, m.members, k, ok);
  }

  lemma ServedLog(p: Plan, before: seq<Event>, after: seq<Event>, n: Host, members: set<Host>, k: nat, ok: bool)
    requires Protocol(p, before) && Clean(before) && Allowed(p, before, AddStorage(n, members))
    requires after == before + [AddStorage(n, members)] + Repeated(DiskAdded(n), k) + UnlessOk(ok, StorageOn(n))
    ensures Grows(p, before, after, 2, ok) && Served(after) == Served(before) + {n}
  {
    var called := before + [AddStorage(n, members)];
    var disks := called + Repeated(DiskAdded(n), k);
    GrowNot(p, before, 2);
    Grow(p, before, before, 2, AddStorage(n, members));
    ServedAfter(before, AddStorage(n, members));
    GrowByDisks(p, before, called, n, k);
    if ok {
      assert after == disks;
    } else {
      Grow(p, before, disks, 2, Refused(StorageOn(n)));
      ServedAfter(disks, Refused(StorageOn(n)));
    }
  }

  /** Phase four. */
  method AddAllStorage(m: Machines, ghost p: Plan, hs: seq<Host>, eligible: map<Host, nat>, allowLoop: bool)
    returns (ok: bool)
    requires Protocol(p, m.log) && Clean(m.log) && Served(m.log) == {}
    requires forall h :: h in p.all ==> h in m.members
    requires forall h :: h in hs ==> h in p.all && GetsStorage(p.roles, h)
    requires forall i, j :: 0 <= i < j < |hs| ==> hs[i] != hs[j]
    modifies m`log, m`withDisks
    ensures Grows(p, old(m.log), m.log, 2, ok)
    ensures ok ==> Served(m.log) == set h | h in hs
    ensures m.reliable ==> ok && m.withDisks == old(m.withDisks) + Claiming(hs, eligible, allowLoop)
  {
    ghost var start := m.log;
    GrowNot(p, start, 2);
    for i := 0 to |hs|
      invariant Grows(p, start, m.log, 2, true) && Served(m.log) == set h | h in hs[..i]
      invariant m.reliable ==> m.withDisks == old(m.withDisks) + Claiming(hs[..i], eligible, allowLoop)
    {
      ghost var before := m.log;
      assert hs[i] in hs && hs[i] !in hs[..i];
      ok := AddOneStorage(m, p, hs[i], DisksOf(eligible, hs[i]), allowLoop);
      GrowOn(p, start, before, m.log, 2, ok);
      assert hs[..i + 1] == hs[..i] + [hs[i]];
      if !ok { return; }
    }
    assert hs[..|hs|] == hs;
    ok := true;
  }

  predicate GateOpen(log: seq<Event>) { exists x :: x in log && x.GatePassed? }

  method MountOne(m: Machines, ghost p: Plan, w: Host) returns (ok: bool)
    requires Protocol(p, m.log) && Clean(m.log) && w in p.workers && GateOpen(m.log)
    modifies m`log
    ensures Grows(p, old(m.log), m.log, 3, ok)
    ensures ok ==> Mounted(w) in m.log
    ensures m.reliable ==> ok
  {
    ghost var before := m.log;
    ghost var tried := before + [MountTried(w)];
    TryToMount(p, before, tried, w);
    ok := m.Mount(w);
    GrowByEffect(p, before, tried, m.log, 3, Mounted(w), MountOn(w), ok);
  }

  /** After a try to mount, success and refusal are in order, and a refusal after success as well. */
  lemma TryToMount(p: Plan, before: seq<Event>, tried: seq<Event>, w: Host)
    requires Protocol(p, before) && Clean(before) && w in p.workers && GateOpen(before)
    requires tried == before + [MountTried(w)]
    ensures Grows(p, before, tried, 3, true) && Allowed(p, tried, Mounted(w)) && Allowed(p, tried, Refused(MountOn(w)))
    ensures Allowed(p, tried + [Mounted(w)], Refused(MountOn(w)))
  {
    GrowNot(p, before, 3);
    Grow(p, before, before, 3, MountTried(w));
    CleanAfter(tried, Mounted(w));
    StillIn(tried, Mounted(w), MountTried(w));
  }

  lemma StillIn(log: seq<Event>, e: Event, x: Event)
    requires x in log
    ensures x in log + [e]
  {
  }

  predicate AllMounted(hs: seq<Host>, log: seq<Event>) { forall w :: w in hs ==> Mounted(w) in log }

  method MountAll(m: Machines, ghost p: Plan, workers: seq<Host>) returns (ok: bool)
    requires Protocol(p, m.log) && Clean(m.log) && p.workers == workers && GateOpen(m.log)
    modifies m`log
    ensures Grows(p, old(m.log), m.log, 3, ok)
    ensures ok ==> AllMounted(workers, m.log)
    ensures m.reliable ==> ok
  {
    ghost var start := m.log;
    GrowNot(p, start, 3);
    for i := 0 to |workers|
      invariant Grows(p, start, m.log, 3, true) && GateOpen(m.log)
      invariant AllMounted(workers[..i], m.log)
    {
      ghost var before := m.log;
      ok := MountOne(m, p, workers[i]);
      GrowOn(p, start, before, m.log, 3, ok);
      if !ok { return; }
      StaysOpen(p, before, m.log);
      StillMounted(p, workers[..i], before, m.log);
      OneMoreMounted(workers, i, m.log);
    }
    assert workers[..|workers|] == workers;
    ok := true;
  }

  lemma StillMounted(p: Plan, hs: seq<Host>, a: seq<Event>, b: seq<Event>)
    requires AllMounted(hs, a) && Grows(p, a, b, 3, true)
    ensures AllMounted(hs, b)
  {
  }

  lemma OneMoreMounted(workers: seq<Host>, i: nat, log: seq<Event>)
    requires i < |workers| && AllMounted(workers[..i], log) && Mounted(workers[i]) in log
    ensures AllMounted(workers[..i + 1], log)
  {
    assert workers[..i + 1] == workers[..i] + [workers[i]];
  }

  lemma StaysOpen(p: Plan, a: seq<Event>, b: seq<Event>)
    requires GateOpen(a) && Grows(p, a, b, 3, true)
    ensures GateOpen(b)
  {
    var x :| x in a && x.GatePassed?;
    assert x in b;
  }

  method OpenPool(m: Machines, ghost p: Plan) returns (ok: bool)
    requires Protocol(p, m.log) && Clean(m.log) && Bootstrapped(p.primary) in m.log
    modifies m`log
    ensures Grows(p, old(m.log), m.log, 3, ok)
    ensures ok ==> PoolCreated in m.log && CredentialsRead in m.log
    ensures m.reliable ==> ok
  {
    ghost var start := m.log;
    GrowNot(p, start, 3);
    CleanAfter(start, PoolCreated);
    ok := m.Effect(PoolCreated, PoolStep);
    GrowByEffect(p, start, start, m.log, 3, PoolCreated, PoolStep, ok);
    if !ok { return; }
    ghost var pooled := m.log;
    CleanAfter(pooled, CredentialsRead);
    ok := m.Effect(CredentialsRead, CredentialsStep);
    GrowByEffect(p, start, pooled, m.log, 3, CredentialsRead, CredentialsStep, ok);
  }

  /** The gate stops the run exactly if no answer arrives, or one without a majority up. */
  method OpenGate(m: Machines, ghost p: Plan) returns (ok: bool, reply: Option<Daemons>)
    requires Protocol(p, m.log) && Clean(m.log) && PoolCreated in m.log && CredentialsRead in m.log
    modifies m`log
    ensures ok <==> reply.Some? && Healthy(reply.value)
    ensures Grows(p, old(m.log), m.log, 3, ok)
    ensures ok ==> GateOpen(m.log)
    ensures m.reliable ==> (ok <==> m.withDisks != {})
  {
    ghost var start := m.log;
    GrowNot(p, start, 3);
    ok, reply := m.VerifyHealthForMount();
    if ok {
      Grow(p, start, start, 3, GatePassed(reply.value));
    } else {
      Grow(p, start, start, 3, Refused(GateStep(reply)));
    }
  }

  /** Phases five and six. */
  method PoolAndMount(m: Machines, ghost p: Plan, workers: seq<Host>) returns (ok: bool)
    requires Protocol(p, m.log) && Clean(m.log) && Bootstrapped(p.primary) in m.log && p.workers == workers
    modifies m`log
    ensures Grows(p, old(m.log), m.log, 3, ok)
    ensures ok ==> GateOpen(m.log) && AllMounted(workers, m.log)
    ensures m.reliable ==> (ok <==> m.withDisks != {})
  {
    ghost var start := m.log;
    ok := OpenPool(m, p);
    if !ok { return; }
    ghost var pooled := m.log;
    var open, _ := OpenGate(m, p);
    ok := open;
    GrowOn(p, start, pooled, m.log, 3, ok);
    if !ok { return; }
    ghost var gated := m.log;
    ok := MountAll(m, p, workers);
    GrowOn(p, start, gated, m.log, 3, ok);
    if ok { StaysOpen(p, gated, m.log); }
  }

  /** Phase one. */
  method StartPrimary(m: Machines, ghost p: Plan, primary: Host) returns (ok: bool)
    requires Protocol(p, m.log) && Clean(m.log) && primary == p.primary
    modifies m`log, m`members
    ensures Grows(p, old(m.log), m.log, 1, ok)
    ensures old(m.members) <= m.members
    ensures ok ==> Bootstrapped(p.primary) in m.log && Installed(primary) in m.log && primary in m.members
    ensures m.reliable ==> ok
  {
    ghost var start := m.log;
    ok := InstallHost(m, p, primary);
    if !ok { return; }
    ghost var installed := m.log;
    var done, _, _ := m.Bootstrap(primary);
    ok := done;
    Grow(p, start, installed, 1, if ok then Bootstrapped(primary) else Refused(BootstrapOn(primary)));
  }

  /** Phases one to three. */
  method JoinPhases(m: Machines, ghost p: Plan, primary: Host, managers: seq<Host>, workers: seq<Host>)
    returns (ok: bool)
    requires Protocol(p, m.log) && Clean(m.log) && managers != [] && primary == managers[0] == p.primary
    requires p.managers == managers
    modifies m`log, m`members
    ensures Grows(p, old(m.log), m.log, 1, ok)
    ensures old(m.members) <= m.members
    ensures ok ==> Bootstrapped(p.primary) in m.log
    ensures ok ==> forall h :: h in managers + workers ==> h in m.members && Installed(h) in m.log
    ensures m.reliable ==> ok
  {
    ghost var start := m.log;
    ok := StartPrimary(m, p, primary);
    if !ok { return; }
    ghost var started := m.log;
    assert managers == [managers[0]] + managers[1..];
    ok := JoinAll(m, p, primary, managers[1..]);
    GrowOn(p, start, started, m.log, 1, ok);
    if !ok { return; }
    ghost var joined := m.log;
    ok := JoinAll(m, p, primary, workers);
    GrowOn(p, start, joined, m.log, 1, ok);
  }

  predicate SomethingToClaim(hs: seq<Host>, roles: Option<map<Host, string>>,
                             eligible: map<Host, nat>, allowLoop: bool)
  {
    exists h :: h in hs && GetsStorage(roles, h) && Fresh(DisksOf(eligible, h), allowLoop) > 0
  }

  lemma ClaimingSome(all: seq<Host>, hs: seq<Host>, storage: seq<Host>, roles: Option<map<Host, string>>,
                     eligible: map<Host, nat>, allowLoop: bool)
    requires forall h :: h in all <==> h in hs
    requires forall h :: h in storage <==> h in all && GetsStorage(roles, h)
    ensures Claiming(storage, eligible, allowLoop) != {} <==> SomethingToClaim(hs, roles, eligible, allowLoop)
  {
    var claiming := Claiming(storage, eligible, allowLoop);
    if SomethingToClaim(hs, roles, eligible, allowLoop) {
      var h :| h in hs && GetsStorage(roles, h) && Fresh(DisksOf(eligible, h), allowLoop) > 0;
      assert h in claiming;
    }
    assert forall h :: h in claiming ==> h in hs && GetsStorage(roles, h);
  }

  /** Phase four for a whole configuration. */
  method ServeHosts(m: Machines, ghost p: Plan, all: seq<Host>, ghost hosts: seq<Host>,
                    roles: Option<map<Host, string>>, eligible: map<Host, nat>, allowLoop: bool)
    returns (ok: bool)
    requires Protocol(p, m.log) && Clean(m.log) && Served(m.log) == {}
    requires p.all == all && p.roles == roles && forall h :: h in all <==> h in hosts
    requires forall i, j :: 0 <= i < j < |all| ==> all[i] != all[j]
    requires forall h :: h in all ==> h in m.members
    modifies m`log, m`withDisks
    ensures Grows(p, old(m.log), m.log, 2, ok)
    ensures ok ==> Served(m.log) == set h | h in hosts && GetsStorage(roles, h)
    ensures m.reliable ==> ok
    ensures m.reliable ==>
      (m.withDisks != {} <==> old(m.withDisks) != {} || SomethingToClaim(hosts, roles, eligible, allowLoop))
  {
    var storageNodes := StorageNodes(all, roles);
    ClaimingSome(all, hosts, storageNodes, roles, eligible, allowLoop);
    ok := AddAllStorage(m, p, storageNodes, eligible, allowLoop);
    assert (set h | h in storageNodes) == set h | h in hosts && GetsStorage(roles, h);
  }

  /**
   * The whole setup obeys the protocol on every run, wherever it stops: joins in
   * order and of no member, storage once per host, after all joins and never on a
   * pure manager, mounts behind the pool and a passed majority check. It fails
   * exactly if a step it needs is refused, and stops there. When it succeeds, every
   * listed host is installed and a cluster member, exactly the listed hosts with a
   * storage role were served, and every worker is mounted. Without failures it
   * succeeds exactly if some disk was there before or is found on a storage host.
   */
  method SetupCluster(m: Machines, managers: seq<Host>, workers: seq<Host>, roles: Option<map<Host, string>>,
                      eligible: map<Host, nat>, allowLoop: bool)
    returns (ok: bool)
    requires m.log == []
    modifies m
    ensures managers == [] ==> !ok && m.log == []
    ensures managers != [] ==>
      && Protocol(Plan(Unique(managers + workers), managers, managers[0], workers, roles), m.log)
      && (ok <==> Clean(m.log))
    ensures Orderly(managers, managers + workers, roles, m.log)
    ensures old(m.members) <= m.members
    ensures ok ==>
      && (forall h :: h in managers + workers ==> h in m.members && Installed(h) in m.log)
      && Served(m.log) == (set h | h in managers + workers && GetsStorage(roles, h))
      && GateOpen(m.log) && AllMounted(workers, m.log)
    ensures m.reliable && managers != [] ==>
      (ok <==> old(m.withDisks) != {} || SomethingToClaim(managers + workers, roles, eligible, allowLoop))
  {
    var all := AllNodes(managers, workers);
    UniqueIsSet(managers + workers);
    if all == [] || managers == [] { return false; }
    var primary := managers[0];
    ghost var p := Plan(all, managers, primary, workers, roles);

    ok := JoinPhases(m, p, primary, managers, workers);
    ghost var joined := m.log;
    ServedBefore(p, [], joined, 1, ok);
    if ok { ok := ServeHosts(m, p, all, managers + workers, roles, eligible, allowLoop); }
    if ok {
      ghost var served := m.log;
      ok := PoolAndMount(m, p, workers);
      ServedBefore(p, served, m.log, 3, ok);
    }
    PlanIsOrderly(p, managers + workers, m.log);
  }
}
