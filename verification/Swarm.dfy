/**
 * Setting up one swarm across all hosts by remote commands that may fail, or fail
 * after having taken effect.
 */
module Swarm {
  import opened Prelude

  type Host = string

  type ClusterId = nat

  /** Where a host stands: outside every swarm, or in one with a role. */
  datatype Place = Outside | Member(cluster: ClusterId, manager: bool)

  type Places = map<Host, Place>

  function At(places: Places, h: Host): Place { if h in places then places[h] else Outside }

  predicate Contains(s: string, sub: string) {
    sub <= s || (s != "" && Contains(s[1..], sub))
  }

  /** What `docker info` prints about the local node. */
  datatype Info = Info(nodeState: string, control: bool, cluster: Option<ClusterId>)

  /** A truthful status answer. */
  function InfoOf(p: Place): Info {
    match p
    case Outside => Info("inactive", false, None)
    case Member(c, m) => Info("active", m, Some(c))
  }

  /** One line of `docker node ls`: it begins with the host name; its other columns never contain the two words. */
  datatype Line = Line(host: Host, managerStatus: string)

  predicate HasMark(s: string) { Contains(s, "Leader") || Contains(s, "Reachable") }

  /** The whole line is searched, so a host name can mark it as well. */
  predicate Marked(l: Line) { HasMark(l.host) || HasMark(l.managerStatus) }

  /** No host name contains either word. */
  predicate PlainNames(hosts: seq<Host>) { forall h :: h in hosts ==> !HasMark(h) }

  /** A line a truthful node list of cluster `c` may have: only managers have a manager status. */
  predicate TrueLine(places: Places, c: ClusterId, l: Line) {
    var p := At(places, l.host);
    p.Member? && p.cluster == c && (HasMark(l.managerStatus) ==> p.manager)
  }

  function MembersOf(places: Places, c: ClusterId): set<Host> {
    set h | h in places && places[h].Member? && places[h].cluster == c
  }

  function Listed(lines: seq<Line>): set<Host> { set l | l in lines :: l.host }

  predicate DistinctLines(lines: seq<Line>) {
    forall i, j :: 0 <= i < j < |lines| ==> lines[i].host != lines[j].host
  }

  /** A truthful node list: each member of the cluster once. */
  predicate TrueListing(places: Places, c: ClusterId, lines: seq<Line>) {
    && DistinctLines(lines)
    && (forall l :: l in lines ==> TrueLine(places, c, l))
    && Listed(lines) == MembersOf(places, c)
  }

  /** Every manager in the list is reachable. */
  predicate AllMarked(places: Places, lines: seq<Line>) {
    forall l :: l in lines && At(places, l.host).Member? && At(places, l.host).manager ==> Marked(l)
  }

  datatype Outcome = Done | AlreadyPart | Failed

  /**
   * All hosts, as the commands see them. Every command may fail, and a failed one
   * may still have taken effect, except that questions are answered, leaving works,
   * or initialising and joining work on a fleet where they do.
   */
  class Fleet {
    const answers: bool
    const leaves: bool
    const joins: bool
    var places: Places
    var nextId: ClusterId

    ghost predicate Valid()
      reads this
    {
      forall h :: h in places && places[h].Member? ==> places[h].cluster < nextId
    }

    /** No command fails at all. */
    predicate Reliable() { answers && leaves && joins }

    constructor (places: Places, nextId: ClusterId, answers: bool, leaves: bool, joins: bool)
      requires forall h :: h in places && places[h].Member? ==> places[h].cluster < nextId
      ensures Valid() && this.places == places
      ensures this.answers == answers && this.leaves == leaves && this.joins == joins
    {
      this.places, this.nextId := places, nextId;
      this.answers, this.leaves, this.joins := answers, leaves, joins;
    }

    /** Status answers that arrive are truthful. */
    method Status(h: Host) returns (info: Option<Info>)
      ensures info.Some? ==> info.value == InfoOf(At(places, h))
      ensures answers ==> info.Some?
    {
      var arrives: bool := *;
      info := if arrives || answers then Some(InfoOf(At(places, h))) else None;
    }

    method Leave(h: Host) returns (ok: bool)
      requires Valid()
      modifies this
      ensures Valid() && nextId == old(nextId)
      ensures places == old(places) || places == old(places)[h := Outside]
      ensures ok ==> At(places, h).Outside?
      ensures leaves ==> ok
    {
      var effect: bool := *;
      if effect || leaves {
        places := places[h := Outside];
        var told: bool := *;
        ok := told || leaves;
      } else {
        ok := false;
      }
    }

    /** Creates a new cluster, unless the host is in one already. */
    method Init(h: Host) returns (r: Outcome)
      requires Valid()
      modifies this
      ensures Valid() && nextId >= old(nextId)
      ensures At(old(places), h).Member? ==> places == old(places) && !r.Done?
      ensures At(old(places), h).Outside? ==>
        !r.AlreadyPart? && (places == old(places) || places == old(places)[h := Member(old(nextId), true)])
      ensures r.Done? ==> places == old(places)[h := Member(old(nextId), true)]
      ensures joins ==> !r.Failed?
    {
      if At(places, h).Member? {
        var told: bool := *;
        return if told || joins then AlreadyPart else Failed;
      }
      var effect: bool := *;
      if effect || joins {
        places, nextId := places[h := Member(nextId, true)], nextId + 1;
        var told: bool := *;
        return if told || joins then Done else Failed;
      }
      r := Failed;
    }

    /** Joins a cluster with a role's token, unless the host is in one already. */
    method Join(h: Host, c: ClusterId, manager: bool) returns (r: Outcome)
      requires Valid() && c < nextId
      modifies this
      ensures Valid() && nextId == old(nextId)
      ensures At(old(places), h).Member? ==> places == old(places) && !r.Done?
      ensures At(old(places), h).Outside? ==>
        !r.AlreadyPart? && (places == old(places) || places == old(places)[h := Member(c, manager)])
      ensures r.Done? ==> places == old(places)[h := Member(c, manager)]
      ensures joins ==> !r.Failed?
    {
      if At(places, h).Member? {
        var told: bool := *;
        return if told || joins then AlreadyPart else Failed;
      }
      var effect: bool := *;
      if effect || joins {
        places := places[h := Member(c, manager)];
        var told: bool := *;
        return if told || joins then Done else Failed;
      }
      r := Failed;
    }

    /** Only a manager can list nodes. */
    method NodeList(h: Host) returns (lines: Option<seq<Line>>)
      ensures lines.Some? ==>
        At(places, h).Member? && At(places, h).manager && TrueListing(places, At(places, h).cluster, lines.value)
      ensures answers && At(places, h).Member? && At(places, h).manager ==>
        lines.Some? && AllMarked(places, lines.value)
    {
      var arrives: bool := *;
      if !(arrives || answers) || At(places, h).Outside? || !At(places, h).manager { return None; }
      var c := places[h].cluster;
      var members := MembersOf(places, c);
      var rest := members;
      var out: seq<Line> := [];
      while rest != {}
        invariant Partial(places, c, out, rest)
        invariant answers ==> AllMarked(places, out)
        decreases rest
      {
        var x :| x in rest;
        var line := Describe(x);
        PartialStep(places, c, out, rest, line);
        out := out + [line];
        rest := rest - {x};
      }
      assert MembersOf(places, c) - {} == MembersOf(places, c);
      lines := Some(out);
    }

    /** An unreachable manager is listed without a mark. */
    method Describe(h: Host) returns (l: Line)
      ensures l.host == h && (HasMark(l.managerStatus) ==> At(places, h).Member? && At(places, h).manager)
      ensures answers && At(places, h).Member? && At(places, h).manager ==> Marked(l)
    {
      var reachable: bool := *;
      if At(places, h).Outside? || !At(places, h).manager {
        l := Line(h, "");
        Unmarked(l);
      } else {
        l := Line(h, if reachable || answers then "Reachable" else "Unreachable");
      }
    }
  }

  /** A listing under construction: the members in `rest` are still missing. */
  predicate Partial(places: Places, c: ClusterId, lines: seq<Line>, rest: set<Host>) {
    && rest <= MembersOf(places, c)
    && DistinctLines(lines)
    && (forall l :: l in lines ==> TrueLine(places, c, l))
    && Listed(lines) == MembersOf(places, c) - rest
  }

  lemma PartialStep(places: Places, c: ClusterId, lines: seq<Line>, rest: set<Host>, l: Line)
    requires Partial(places, c, lines, rest) && l.host in rest
    requires HasMark(l.managerStatus) ==> At(places, l.host).Member? && At(places, l.host).manager
    ensures Partial(places, c, lines + [l], rest - {l.host})
  {
    AppendLine(lines, l);
    assert TrueLine(places, c, l);
    assert forall x :: x in lines + [l] ==> x in lines || x == l;
    assert MembersOf(places, c) - (rest - {l.host}) == (MembersOf(places, c) - rest) + {l.host};
  }

  lemma AppendLine(lines: seq<Line>, l: Line)
    requires DistinctLines(lines) && l.host !in Listed(lines)
    ensures DistinctLines(lines + [l])
    ensures Listed(lines + [l]) == Listed(lines) + {l.host}
  {
    var more := lines + [l];
    forall i | 0 <= i < |lines| ensures lines[i].host != l.host {
      assert lines[i] in lines;
    }
    assert l in more && forall x :: x in lines ==> x in more;
  }

  lemma {:induction false} CharAbsent(s: string, sub: string)
    requires sub != "" && sub[0] !in s
    ensures !Contains(s, sub)
  {
    if s != "" { CharAbsent(s[1..], sub); }
  }

  lemma Unmarked(l: Line)
    requires 'L' !in l.managerStatus && 'R' !in l.managerStatus
    ensures !HasMark(l.managerStatus)
  {
    CharAbsent(l.managerStatus, "Leader");
    CharAbsent(l.managerStatus, "Reachable");
  }

  /** The test for "active" also succeeds on "inactive". */
  lemma ActiveTexts()
    ensures Contains("inactive", "active") && Contains("active", "active")
  {
    assert "inactive"[1..][1..] == "active";
  }

  // ---------------------------------------------------------------- the setup

  const MAX_ATTEMPTS := 5

  predicate Distinct(hosts: seq<Host>) { forall i, j :: 0 <= i < j < |hosts| ==> hosts[i] != hosts[j] }

  /** Only `h` may have moved. */
  ghost predicate OnlyMoved(before: Places, after: Places, hs: seq<Host>) {
    forall x :: x !in hs ==> At(after, x) == At(before, x)
  }

  /**
   * The primary either stayed what it was, or now manages a cluster in which no
   * other host is.
   */
  ghost predicate FreshlyLed(before: Places, after: Places, h: Host) {
    || At(after, h) == At(before, h)
    || At(after, h).Outside?
    || (At(after, h).manager && forall x :: x != h ==>
          !(At(after, x).Member? && At(after, x).cluster == At(after, h).cluster))
  }

  method InitSwarm(f: Fleet, primary: Host) returns (ok: bool, tries: nat, cancelled: bool)
    requires f.Valid()
    modifies f
    ensures f.Valid()
    ensures OnlyMoved(old(f.places), f.places, [primary])
    ensures FreshlyLed(old(f.places), f.places, primary)
    ensures ok ==> At(f.places, primary).Member?
    ensures At(old(f.places), primary).Member? && At(old(f.places), primary).manager ==> f.places == old(f.places)
    ensures f.Reliable() ==> ok && At(f.places, primary).manager
    ensures f.joins ==> ok && (At(old(f.places), primary).Outside? ==> At(f.places, primary).manager)
    ensures tries <= 5 && (!ok ==> cancelled || tries == 5)
  {
    tries, cancelled := 0, false;
    ActiveTexts();
    var info := f.Status(primary);
    if info.Some? && Contains(info.value.nodeState, "active") && info.value.control {
      return true, tries, cancelled;
    }
    if info.Some? && Contains(info.value.nodeState, "active") && !info.value.control {
      var left := f.Leave(primary);
    }
    ghost var start := f.places;
    for attempt := 1 to MAX_ATTEMPTS + 1
      invariant f.Valid()
      invariant OnlyMoved(old(f.places), f.places, [primary])
      invariant FreshlyLed(old(f.places), f.places, primary)
      invariant At(start, primary).Member? ==> f.places == start
      invariant f.joins ==> attempt == 1 && f.places == start
      invariant tries == attempt - 1 && !cancelled
    {
      var r := f.Init(primary);
      tries := tries + 1;
      if r.Done? || r.AlreadyPart? { return true, tries, cancelled; }
      cancelled := *;
      if cancelled { break; }
    }
    ok := false;
  }

  method VerifyManagerReady(f: Fleet, h: Host) returns (ok: bool, tries: nat, cancelled: bool)
    ensures ok ==> At(f.places, h).Member? && At(f.places, h).manager
    ensures f.answers && At(f.places, h).Member? && At(f.places, h).manager ==> ok
    ensures tries <= 5 && (!ok ==> cancelled || tries == 5)
  {
    tries, cancelled := 0, false;
    ActiveTexts();
    for attempt := 1 to MAX_ATTEMPTS + 1
      invariant f.answers && At(f.places, h).Member? && At(f.places, h).manager ==> attempt == 1
      invariant tries == attempt - 1 && !cancelled
    {
      var info := f.Status(h);
      tries := tries + 1;
      if info.Some? && Contains(info.value.nodeState, "active") && info.value.control {
        return true, tries, cancelled;
      }
      cancelled := *;
      if cancelled { break; }
    }
    ok := false;
  }

  /** The cluster id and the two join tokens, each retried; both tokens are of the primary's cluster. */
  method GetJoinTokens(f: Fleet, primary: Host) returns (clusterId: Option<ClusterId>)
    requires At(f.places, primary).Member?
    ensures clusterId.Some? ==> clusterId.value == At(f.places, primary).cluster
    ensures f.answers ==> clusterId.Some?
  {
    clusterId := None;
    for attempt := 1 to MAX_ATTEMPTS + 1
      invariant clusterId.None? && (f.answers ==> attempt == 1)
    {
      var info := f.Status(primary);
      if info.Some? { clusterId := info.value.cluster; break; }
    }
    var tokensArrive: bool := *;
    if !tokensArrive && !f.answers { clusterId := None; }
  }

  /** Members of `c` stay with their role, and every new one is among `hs` with the given role. */
  ghost predicate JoinedOnly(before: Places, after: Places, hs: seq<Host>, c: ClusterId, manager: bool) {
    && OnlyMoved(before, after, hs)
    && (forall x, r :: At(before, x) == Member(c, r) ==> At(after, x) == Member(c, r))
    && (forall x, r :: At(after, x) == Member(c, r) ==> At(before, x) == Member(c, r) || (x in hs && r == manager))
  }

  /** A join that counts as a success leaves the host in `c`, or in the stale swarm it could not be made to leave. */
  ghost predicate InOrStale(before: Places, after: Places, h: Host, c: ClusterId) {
    At(after, h).Member? && (At(after, h).cluster == c || At(after, h) == At(before, h))
  }

  /** Where a host stands after joining `c` without failures: a member keeps its role. */
  function Landed(p: Place, c: ClusterId, manager: bool): Place {
    if p.Member? && p.cluster == c then p else Member(c, manager)
  }

  /** The join command, retried; a host that is part of a swarm already counts as joined. */
  method RetryJoin(f: Fleet, h: Host, c: ClusterId, manager: bool) returns (ok: bool, tries: nat, cancelled: bool)
    requires f.Valid() && c < f.nextId
    modifies f
    ensures f.Valid() && f.nextId == old(f.nextId)
    ensures OnlyMoved(old(f.places), f.places, [h])
    ensures At(f.places, h) == At(old(f.places), h) ||
            (At(old(f.places), h).Outside? && At(f.places, h) == Member(c, manager))
    ensures ok ==> At(f.places, h).Member?
    ensures f.joins ==> ok
    ensures tries <= 5 && (!ok ==> cancelled || tries == 5)
  {
    tries, cancelled := 0, false;
    for attempt := 1 to MAX_ATTEMPTS + 1
      invariant f.Valid() && f.nextId == old(f.nextId)
      invariant OnlyMoved(old(f.places), f.places, [h])
      invariant At(f.places, h) == At(old(f.places), h) ||
                (At(old(f.places), h).Outside? && At(f.places, h) == Member(c, manager))
      invariant f.joins ==> attempt == 1
      invariant tries == attempt - 1 && !cancelled
    {
      var r := f.Join(h, c, manager);
      tries := tries + 1;
      if r.Done? || r.AlreadyPart? { return true, tries, cancelled; }
      cancelled := *;
      if cancelled { break; }
    }
    ok := false;
  }

  method JoinOne(f: Fleet, h: Host, c: ClusterId, manager: bool) returns (ok: bool, tries: nat, cancelled: bool)
    requires f.Valid() && c < f.nextId
    modifies f
    ensures f.Valid() && f.nextId == old(f.nextId)
    ensures JoinedOnly(old(f.places), f.places, [h], c, manager)
    ensures ok ==> InOrStale(old(f.places), f.places, h, c)
    ensures f.Reliable() ==> ok && At(f.places, h) == Landed(At(old(f.places), h), c, manager)
    ensures f.joins ==> ok && (At(old(f.places), h).Outside? ==> At(f.places, h) == Member(c, manager))
    ensures tries <= 5 && (!ok ==> cancelled || tries == 5)
  {
    tries, cancelled := 0, false;
    ActiveTexts();
    var info := f.Status(h);
    if info.Some? && Contains(info.value.nodeState, "active") {
      if info.value.cluster == Some(c) { return true, tries, cancelled; }
      var left := f.Leave(h);
    }
    ok, tries, cancelled := RetryJoin(f, h, c, manager);
  }

  lemma JoinedThenJoined(a: Places, b: Places, d: Places, hs: seq<Host>, i: nat, c: ClusterId, manager: bool)
    requires i < |hs| && JoinedOnly(a, b, hs[..i], c, manager) && JoinedOnly(b, d, [hs[i]], c, manager)
    ensures JoinedOnly(a, d, hs[..i + 1], c, manager)
  {
    assert hs[..i + 1] == hs[..i] + [hs[i]];
  }

  lemma JoinedWider(a: Places, b: Places, hs: seq<Host>, i: nat, c: ClusterId, manager: bool)
    requires i <= |hs| && JoinedOnly(a, b, hs[..i], c, manager)
    ensures JoinedOnly(a, b, hs, c, manager)
  {
    assert forall x :: x in hs[..i] ==> x in hs;
  }

  /** Hosts outside every swarm have joined. */
  ghost predicate OutsidersJoined(before: Places, after: Places, hs: seq<Host>, c: ClusterId, manager: bool) {
    forall h :: h in hs && At(before, h).Outside? ==> At(after, h) == Member(c, manager)
  }

  ghost predicate AllLanded(before: Places, after: Places, hs: seq<Host>, c: ClusterId, manager: bool) {
    forall h :: h in hs ==> At(after, h) == Landed(At(before, h), c, manager)
  }

  method JoinNodes(f: Fleet, hs: seq<Host>, c: ClusterId, manager: bool) returns (ok: bool)
    requires f.Valid() && c < f.nextId
    modifies f
    ensures f.Valid() && f.nextId == old(f.nextId)
    ensures JoinedOnly(old(f.places), f.places, hs, c, manager)
    ensures ok ==> forall h :: h in hs ==> InOrStale(old(f.places), f.places, h, c)
    ensures f.Reliable() ==> ok && AllLanded(old(f.places), f.places, hs, c, manager)
    ensures f.joins ==> ok && OutsidersJoined(old(f.places), f.places, hs, c, manager)
  {
    for i := 0 to |hs|
      invariant f.Valid() && f.nextId == old(f.nextId)
      invariant JoinedOnly(old(f.places), f.places, hs[..i], c, manager)
      invariant forall h :: h in hs[..i] ==> InOrStale(old(f.places), f.places, h, c)
      invariant f.Reliable() ==> AllLanded(old(f.places), f.places, hs[..i], c, manager)
      invariant f.joins ==> OutsidersJoined(old(f.places), f.places, hs[..i], c, manager)
    {
      ghost var before := f.places;
      var joined, _, _ := JoinOne(f, hs[i], c, manager);
      ok := joined;
      JoinedThenJoined(old(f.places), before, f.places, hs, i, c, manager);
      if !ok {
        JoinedWider(old(f.places), f.places, hs, i + 1, c, manager);
        return false;
      }
      assert hs[..i + 1] == hs[..i] + [hs[i]];
    }
    assert hs[..|hs|] == hs;
    ok := true;
  }

  function CountMarked(lines: seq<Line>): nat {
    if lines == [] then 0 else CountMarked(lines[..|lines| - 1]) + (if Marked(lines[|lines| - 1]) then 1 else 0)
  }

  /** The final check: as many marked lines as managers, as many unmarked as workers. */
  method VerifySwarm(f: Fleet, primary: Host, managers: nat, workers: nat)
    returns (ok: bool, reply: Option<seq<Line>>)
    ensures ok <==> reply.Some? && CountMarked(reply.value) == managers && |reply.value| == managers + workers
    ensures reply.Some? ==>
      At(f.places, primary).Member? && TrueListing(f.places, At(f.places, primary).cluster, reply.value)
    ensures f.answers && At(f.places, primary).Member? && At(f.places, primary).manager ==>
      reply.Some? && AllMarked(f.places, reply.value)
  {
    reply := f.NodeList(primary);
    if reply.None? { return false, reply; }
    var lines := reply.value;
    var managerCount, workerCount := 0, 0;
    for i := 0 to |lines|
      invariant managerCount == CountMarked(lines[..i]) && managerCount + workerCount == i
    {
      assert lines[..i + 1][..i] == lines[..i];
      if Marked(lines[i]) { managerCount := managerCount + 1; } else { workerCount := workerCount + 1; }
    }
    assert lines[..|lines|] == lines;
    ok := managerCount == managers && workerCount == workers;
  }

  // ---------------------------------------------------------------- what the final check establishes

  function ToSet(hs: seq<Host>): set<Host> { set h | h in hs }

  lemma {:induction false} DistinctCard(hs: seq<Host>)
    requires Distinct(hs)
    ensures |ToSet(hs)| == |hs|
  {
    if hs != [] {
      var init, last := hs[..|hs| - 1], hs[|hs| - 1];
      DistinctCard(init);
      assert hs == init + [last];
      assert ToSet(hs) == ToSet(init) + {last};
    }
  }

  lemma {:induction false} ListedCard(lines: seq<Line>)
    requires DistinctLines(lines)
    ensures |Listed(lines)| == |lines|
  {
    if lines != [] {
      var init, last := lines[..|lines| - 1], lines[|lines| - 1];
      ListedCard(init);
      assert lines == init + [last];
      assert last.host !in Listed(init);
      AppendLine(init, last);
    }
  }

  function MarkedHosts(lines: seq<Line>): set<Host> { set l | l in lines && Marked(l) :: l.host }

  lemma {:induction false} MarkedCard(lines: seq<Line>)
    requires DistinctLines(lines)
    ensures |MarkedHosts(lines)| == CountMarked(lines)
  {
    if lines != [] {
      var init, last := lines[..|lines| - 1], lines[|lines| - 1];
      MarkedCard(init);
      assert lines == init + [last];
      MarkedAppend(init, last);
      assert last.host !in MarkedHosts(init);
    }
  }

  lemma MarkedAppend(lines: seq<Line>, l: Line)
    ensures MarkedHosts(lines + [l]) == MarkedHosts(lines) + (if Marked(l) then {l.host} else {})
  {
    var more := lines + [l];
    assert more[|lines|] == l;
    forall h | h in MarkedHosts(lines) ensures h in MarkedHosts(more) {
      var x :| x in lines && Marked(x) && x.host == h;
      assert x in more;
    }
    forall h | h in MarkedHosts(more) ensures h in MarkedHosts(lines) || (Marked(l) && h == l.host) {
      var x :| x in more && Marked(x) && x.host == h;
      assert x in lines || x == l;
    }
  }

  lemma SubsetOfSameSize(a: set<Host>, b: set<Host>)
    requires a <= b && |a| == |b|
    ensures a == b
  {
    assert |b - a| == |b| - |a|;
  }

  /**
   * Counting: as many distinct members as distinct configured hosts, and no member
   * besides them, leaves no configured host out.
   */
  lemma CountCoversAll(places: Places, c: ClusterId, listing: seq<Line>, managers: seq<Host>, workers: seq<Host>)
    requires Distinct(managers + workers) && TrueListing(places, c, listing)
    requires |listing| == |managers| + |workers|
    requires MembersOf(places, c) <= ToSet(managers + workers)
    ensures MembersOf(places, c) == ToSet(managers + workers)
  {
    ListedCard(listing);
    DistinctCard(managers + workers);
    SubsetOfSameSize(Listed(listing), ToSet(managers + workers));
  }

  /** If no worker is a manager and no name is marked, the marked lines are exactly the configured managers. */
  lemma CountFixesRoles(places: Places, c: ClusterId, listing: seq<Line>, managers: seq<Host>, workers: seq<Host>)
    requires Distinct(managers + workers) && TrueListing(places, c, listing)
    requires CountMarked(listing) == |managers|
    requires MembersOf(places, c) == ToSet(managers + workers)
    requires forall w :: w in workers ==> At(places, w) != Member(c, true)
    requires PlainNames(managers + workers)
    ensures forall h :: h in managers ==> At(places, h) == Member(c, true)
    ensures forall w :: w in workers ==> At(places, w) == Member(c, false)
  {
    var marked := MarkedHosts(listing);
    MarkedCard(listing);
    assert Distinct(managers) by {
      forall i, j | 0 <= i < j < |managers| ensures managers[i] != managers[j] {
        assert (managers + workers)[i] == managers[i] && (managers + workers)[j] == managers[j];
      }
    }
    DistinctCard(managers);
    forall h | h in marked ensures h in ToSet(managers) && At(places, h) == Member(c, true) {
      var l :| l in listing && Marked(l) && l.host == h;
      assert TrueLine(places, c, l);
      assert h in MembersOf(places, c);
      assert h in managers + workers;
    }
    SubsetOfSameSize(marked, ToSet(managers));
    forall h | h in managers ensures At(places, h) == Member(c, true) {
      assert h in marked;
    }
    forall w | w in workers ensures At(places, w) == Member(c, false) {
      assert w in ToSet(managers + workers);
    }
  }

  predicate InCluster(places: Places, h: Host, c: ClusterId) { At(places, h).Member? && At(places, h).cluster == c }

  /** All of them stand in the cluster as managers, except the given ones, which are workers. */
  ghost predicate ManagersBut(places: Places, hosts: seq<Host>, c: ClusterId, wrong: set<Host>) {
    forall h :: h in hosts ==> InCluster(places, h, c) && (At(places, h).manager <==> h !in wrong)
  }

  /** All of them stand in the cluster as workers, except the given ones, which are managers. */
  ghost predicate WorkersBut(places: Places, hosts: seq<Host>, c: ClusterId, wrong: set<Host>) {
    forall w :: w in hosts ==> InCluster(places, w, c) && (At(places, w).manager <==> w in wrong)
  }

  /** A host the final check counts as a manager when all managers are reachable. */
  predicate CountedManager(places: Places, h: Host) { HasMark(h) || (At(places, h).Member? && At(places, h).manager) }

  /** Nobody outside the configuration is in a cluster with the given host. */
  ghost predicate NoStrangers(places: Places, primary: Host, hosts: seq<Host>) {
    At(places, primary).Member? ==> MembersOf(places, At(places, primary).cluster) <= ToSet(hosts)
  }

  /** All configured hosts are in one swarm with their configured roles. */
  ghost predicate Converged(places: Places, managers: seq<Host>, workers: seq<Host>) {
    managers != [] && At(places, managers[0]).Member? &&
    var c := At(places, managers[0]).cluster;
    && (forall h :: h in managers ==> At(places, h) == Member(c, true))
    && (forall w :: w in workers ==> At(places, w) == Member(c, false))
  }

  ghost predicate SamePlaces(before: Places, after: Places) { forall h :: At(before, h) == At(after, h) }

  /** The given hosts that have a role in the cluster the primary manages. */
  ghost function Placed(places: Places, primary: Host, c: ClusterId, hosts: seq<Host>, manager: bool): set<Host> {
    set h | h in hosts && At(places, primary) == Member(c, true) && At(places, h) == Member(c, manager)
  }

  /** Steps one to four, as one relation between the places before and after them. */
  ghost predicate Gathered(before: Places, after: Places, managers: seq<Host>, workers: seq<Host>, c: ClusterId)
    requires managers != []
  {
    && (forall x :: x !in managers + workers ==> At(after, x) == At(before, x))
    && At(after, managers[0]) == Member(c, true)
    && (forall x, r :: At(after, x) == Member(c, r) && x != managers[0] ==>
          || (At(before, x) == Member(c, r) && At(before, managers[0]) == Member(c, true))
          || (x in managers && r) || (x in workers && !r))
    && (forall x, r :: At(before, x) == Member(c, r) && At(before, managers[0]) == Member(c, true) ==>
          At(after, x) == Member(c, r))
  }

  ghost predicate RolesRight(places: Places, c: ClusterId, managers: seq<Host>, workers: seq<Host>) {
    && (forall h :: h in managers ==> At(places, h) == Member(c, true))
    && (forall w :: w in workers ==> At(places, w) == Member(c, false))
  }

  lemma GatherSteps(a: Places, b: Places, m: Places, z: Places, managers: seq<Host>, workers: seq<Host>, c: ClusterId)
    requires managers != [] && OnlyMoved(a, b, [managers[0]]) && FreshlyLed(a, b, managers[0])
    requires At(b, managers[0]) == Member(c, true)
    requires JoinedOnly(b, m, managers[1..], c, true) && JoinedOnly(m, z, workers, c, false)
    ensures Gathered(a, z, managers, workers, c)
  {
    assert managers == [managers[0]] + managers[1..];
    forall x, r | At(z, x) == Member(c, r) && x != managers[0]
      ensures || (At(a, x) == Member(c, r) && At(a, managers[0]) == Member(c, true))
              || (x in managers && r) || (x in workers && !r)
    {
      if At(m, x) == Member(c, r) && At(b, x) == Member(c, r) {
        assert At(a, x) == At(b, x);
      }
    }
  }

  lemma GatheredHasNoStrangers(a: Places, z: Places, managers: seq<Host>, workers: seq<Host>, c: ClusterId)
    requires managers != [] && Gathered(a, z, managers, workers, c)
    requires NoStrangers(a, managers[0], managers + workers)
    ensures MembersOf(z, c) <= ToSet(managers + workers)
  {
    forall x | x in MembersOf(z, c) ensures x in managers + workers {
      if x != managers[0] {
        var r := At(z, x).manager;
        assert At(z, x) == Member(c, r);
        if At(a, x) == Member(c, r) && At(a, managers[0]) == Member(c, true) {
          assert x in MembersOf(a, c);
        }
      }
    }
  }

  /** Members keep their roles and new ones get the right ones, so only hosts placed before can be wrong. */
  lemma RolesExactly(a: Places, z: Places, managers: seq<Host>, workers: seq<Host>, c: ClusterId)
    requires managers != [] && Gathered(a, z, managers, workers, c)
    requires Distinct(managers + workers) && MembersOf(z, c) == ToSet(managers + workers)
    ensures RolesRight(z, c, managers, workers) <==>
      Placed(a, managers[0], c, managers, false) == {} && Placed(a, managers[0], c, workers, true) == {}
  {
    var working, managing := Placed(a, managers[0], c, managers, false), Placed(a, managers[0], c, workers, true);
    if h :| h in working {
      assert At(z, h) == Member(c, false);
    } else if w :| w in managing {
      assert At(z, w) == Member(c, true);
    } else {
      forall h | h in managers + workers ensures InCluster(z, h, c) {
        assert h in MembersOf(z, c);
      }
      forall h | h in managers ensures At(z, h) == Member(c, true) {
        assert h in managers + workers && h !in working;
        if h in workers { NotInBoth(managers, workers, h); }
      }
      forall w | w in workers ensures At(z, w) == Member(c, false) {
        NotInBoth(managers, workers, w);
        assert w in managers + workers && w !in managing;
      }
    }
  }

  /** With plain names the final count makes sure of the managers. */
  lemma RolesByCount(a: Places, z: Places, managers: seq<Host>, workers: seq<Host>, c: ClusterId, listing: seq<Line>)
    requires managers != [] && Gathered(a, z, managers, workers, c)
    requires Distinct(managers + workers) && TrueListing(z, c, listing)
    requires CountMarked(listing) == |managers| && PlainNames(managers + workers)
    requires MembersOf(z, c) == ToSet(managers + workers)
    ensures RolesRight(z, c, managers, workers) <==> Placed(a, managers[0], c, workers, true) == {}
  {
    RolesExactly(a, z, managers, workers, c);
    var placed := Placed(a, managers[0], c, workers, true);
    if placed == {} {
      forall w | w in workers ensures At(z, w) != Member(c, true) {
        NotInBoth(managers, workers, w);
        assert w !in placed;
      }
      CountFixesRoles(z, c, listing, managers, workers);
    }
  }

  lemma NotInBoth(managers: seq<Host>, workers: seq<Host>, w: Host)
    requires Distinct(managers + workers) && w in workers
    ensures w !in managers
  {
    var j :| 0 <= j < |workers| && workers[j] == w;
    var all := managers + workers;
    assert all[|managers| + j] == w;
    forall i | 0 <= i < |managers| ensures managers[i] != w {
      assert all[i] == managers[i];
    }
  }

  /** Without failures only hosts that were in the cluster already can have the wrong role. */
  lemma ReliableRoles(a: Places, b: Places, m: Places, z: Places, managers: seq<Host>, workers: seq<Host>, c: ClusterId)
    requires managers != [] && Distinct(managers + workers)
    requires OnlyMoved(a, b, [managers[0]]) && FreshlyLed(a, b, managers[0]) && At(b, managers[0]) == Member(c, true)
    requires JoinedOnly(b, m, managers[1..], c, true) && AllLanded(b, m, managers[1..], c, true)
    requires JoinedOnly(m, z, workers, c, false) && AllLanded(m, z, workers, c, false)
    ensures ManagersBut(z, managers, c, Placed(a, managers[0], c, managers, false))
    ensures WorkersBut(z, workers, c, Placed(a, managers[0], c, workers, true))
  {
    var primary := managers[0];
    assert managers == [primary] + managers[1..];
    forall x, r | x != primary && At(b, x) == Member(c, r) ensures At(a, primary) == Member(c, true) {
      assert At(b, x).Member? && At(b, x).cluster == At(b, primary).cluster;
    }
    var working, managing := Placed(a, primary, c, managers, false), Placed(a, primary, c, workers, true);
    forall h | h in managers ensures InCluster(z, h, c) && (At(z, h).manager <==> h !in working) {
      if h in workers { NotInBoth(managers, workers, h); }
      if h != primary { assert At(m, h) == Landed(At(a, h), c, true); }
    }
    forall w | w in workers ensures InCluster(z, w, c) && (At(z, w).manager <==> w in managing) {
      NotInBoth(managers, workers, w);
      assert At(m, w) == At(a, w);
    }
  }

  lemma DistinctParts(managers: seq<Host>, workers: seq<Host>)
    requires Distinct(managers + workers)
    ensures Distinct(managers) && Distinct(workers) && ToSet(managers) !! ToSet(workers)
    ensures ToSet(managers + workers) == ToSet(managers) + ToSet(workers)
  {
    var all := managers + workers;
    assert forall i :: 0 <= i < |managers| ==> all[i] == managers[i];
    assert forall i :: 0 <= i < |workers| ==> all[|managers| + i] == workers[i];
    forall w | w in workers ensures w !in managers { NotInBoth(managers, workers, w); }
  }

  lemma MarkedAre(z: Places, c: ClusterId, listing: seq<Line>, right: set<Host>)
    requires TrueListing(z, c, listing) && AllMarked(z, listing) && right <= MembersOf(z, c)
    requires forall h :: h in MembersOf(z, c) ==> (CountedManager(z, h) <==> h in right)
    ensures CountMarked(listing) == |right|
  {
    MarkedCard(listing);
    forall h | h in right ensures h in MarkedHosts(listing) {
      assert h in Listed(listing);
      var l :| l in listing && l.host == h;
      assert Marked(l);
    }
    forall h | h in MarkedHosts(listing) ensures h in right {
      var l :| l in listing && Marked(l) && l.host == h;
      assert TrueLine(z, c, l) && h in Listed(listing);
    }
    assert MarkedHosts(listing) == right;
  }

  lemma Exchange(managers: set<Host>, workers: set<Host>, working: set<Host>, managing: set<Host>)
    requires managers !! workers && working <= managers && managing <= workers
    ensures |(managers - working) + managing| == |managers| - |working| + |managing|
  {
    assert |managers - working| == |managers| - |working|;
  }

  /** The configured managers the final check does not count: misplaced, and without a marking name. */
  ghost function Uncounted(places: Places, primary: Host, c: ClusterId, managers: seq<Host>): set<Host> {
    set h | h in Placed(places, primary, c, managers, false) && !HasMark(h)
  }

  /** The configured workers it counts as managers: misplaced, or with a marking name. */
  ghost function Overcounted(places: Places, primary: Host, c: ClusterId, workers: seq<Host>): set<Host> {
    Placed(places, primary, c, workers, true) + (set w | w in workers && HasMark(w))
  }

  /** Then the final count comes out right exactly if equally many hosts are miscounted on both sides. */
  lemma ReliableCount(z: Places, c: ClusterId, listing: seq<Line>, managers: seq<Host>, workers: seq<Host>,
                      uncounted: set<Host>, overcounted: set<Host>)
    requires Distinct(managers + workers) && TrueListing(z, c, listing) && AllMarked(z, listing)
    requires MembersOf(z, c) == ToSet(managers + workers)
    requires uncounted <= ToSet(managers) && overcounted <= ToSet(workers)
    requires forall h :: h in managers ==> (CountedManager(z, h) <==> h !in uncounted)
    requires forall w :: w in workers ==> (CountedManager(z, w) <==> w in overcounted)
    ensures |listing| == |managers| + |workers|
    ensures CountMarked(listing) == |managers| <==> |uncounted| == |overcounted|
  {
    DistinctParts(managers, workers);
    DistinctCard(managers);
    DistinctCard(managers + workers);
    ListedCard(listing);
    var right := (ToSet(managers) - uncounted) + overcounted;
    forall h | h in MembersOf(z, c) ensures CountedManager(z, h) <==> h in right {
      assert h in ToSet(managers) || h in ToSet(workers);
    }
    MarkedAre(z, c, listing, right);
    Exchange(ToSet(managers), ToSet(workers), uncounted, overcounted);
  }

  lemma ReliableRun(a: Places, b: Places, m: Places, z: Places, managers: seq<Host>, workers: seq<Host>,
                    c: ClusterId, listing: seq<Line>)
    requires managers != [] && Distinct(managers + workers)
    requires OnlyMoved(a, b, [managers[0]]) && FreshlyLed(a, b, managers[0]) && At(b, managers[0]) == Member(c, true)
    requires JoinedOnly(b, m, managers[1..], c, true) && AllLanded(b, m, managers[1..], c, true)
    requires JoinedOnly(m, z, workers, c, false) && AllLanded(m, z, workers, c, false)
    requires TrueListing(z, c, listing) && AllMarked(z, listing) && MembersOf(z, c) <= ToSet(managers + workers)
    ensures |listing| == |managers| + |workers|
    ensures CountMarked(listing) == |managers| <==>
      |Uncounted(a, managers[0], c, managers)| == |Overcounted(a, managers[0], c, workers)|
  {
    ReliableRoles(a, b, m, z, managers, workers, c);
    forall h | h in ToSet(managers + workers) ensures h in MembersOf(z, c) {
      assert h in managers || h in workers;
      assert At(z, h).Member? && At(z, h).cluster == c;
    }
    ReliableCount(z, c, listing, managers, workers,
                  Uncounted(a, managers[0], c, managers), Overcounted(a, managers[0], c, workers));
  }

  function ThreeHosts(m1: Host, m2: Host, w: Host): Places {
    map[m1 := Member(0, true), m2 := Member(0, false), w := Member(0, false)]
  }

  function ThreeLines(m1: Host, m2: Host, w: Host): seq<Line> {
    [Line(m1, "Leader"), Line(m2, ""), Line(w, "")]
  }

  /**
   * Why marking names matter: a worker called, say, `LeaderX` is counted as a
   * manager, so the check passes while the manager `m2` is only a worker.
   */
  lemma MarkingNameFoolsCheck(m1: Host, m2: Host, w: Host)
    requires m1 != m2 && m1 != w && m2 != w && !HasMark(m2) && HasMark(w)
    ensures var places, listing := ThreeHosts(m1, m2, w), ThreeLines(m1, m2, w);
      && TrueListing(places, 0, listing) && CountMarked(listing) == 2 && |listing| == 2 + 1
      && !RolesRight(places, 0, [m1, m2], [w])
  {
    var places, listing := ThreeHosts(m1, m2, w), ThreeLines(m1, m2, w);
    var l1, l2, l3 := listing[0], listing[1], listing[2];
    Unmarked(l2);
    Unmarked(l3);
    MarkedCount(l1, l2, l3);
    assert l1 in listing && l2 in listing && l3 in listing;
    assert forall l :: l in listing ==> TrueLine(places, 0, l);
    assert Listed(listing) == {m1, m2, w};
    assert MembersOf(places, 0) == {m1, m2, w};
    assert m2 in [m1, m2] && At(places, m2) == Member(0, false);
  }

  lemma MarkedCount(l1: Line, l2: Line, l3: Line)
    requires l1.managerStatus == "Leader" && !Marked(l2) && Marked(l3)
    ensures CountMarked([l1, l2, l3]) == 2
  {
    assert Contains("Leader", "Leader") && Marked(l1);
    assert [l1, l2, l3][..2] == [l1, l2] && [l1, l2][..1] == [l1] && [l1][..0] == [];
    assert CountMarked([l1]) == 1 && CountMarked([l1, l2]) == 1;
  }

  /** Containing a text means having it somewhere. */
  lemma {:induction false} ContainsSomewhere(s: string, sub: string)
    ensures Contains(s, sub) <==> exists i :: 0 <= i <= |s| && sub <= s[i..]
  {
    if sub <= s {
      assert s[0..] == s;
    } else if s != "" {
      ContainsSomewhere(s[1..], sub);
      if i :| 0 <= i <= |s[1..]| && sub <= s[1..][i..] { assert s[i + 1..] == s[1..][i..]; }
      if i :| 0 <= i <= |s| && sub <= s[i..] {
        assert i > 0 by { assert s[0..] == s; }
        assert s[1..][i - 1..] == s[i..];
      }
    }
  }

  /** A text is marked exactly if one of the two words stands somewhere in it. */
  lemma MarksSomewhere(s: string)
    ensures HasMark(s) <==> exists i :: 0 <= i <= |s| && ("Leader" <= s[i..] || "Reachable" <= s[i..])
  {
    ContainsSomewhere(s, "Leader");
    ContainsSomewhere(s, "Reachable");
  }

  lemma LeaderXIsMarked()
    ensures HasMark("LeaderX") && !HasMark("m2")
  {
    CharAbsent("m2", "Leader");
    CharAbsent("m2", "Reachable");
  }

  /**
   * The whole setup. Whatever fails on the way, a successful return means that
   * every configured host is in the primary's cluster, and nobody else is. The
   * roles are then right exactly if no configured host already stood in a cluster
   * of the primary with the other role; when no host name is marked, only workers
   * that managed it can be wrong. On a converged swarm nothing moves, even when
   * status answers do not arrive. Without failures the setup succeeds exactly if
   * the final check counts as many configured workers as managers as it misses
   * configured managers.
   */
  method SwarmSetup(f: Fleet, managers: seq<Host>, workers: seq<Host>, managerAddrs: nat, workerAddrs: nat)
    returns (ok: bool)
    requires f.Valid()
    modifies f
    ensures f.Valid()
    ensures managers == [] || managerAddrs != |managers| || workerAddrs != |workers| ==>
      !ok && f.places == old(f.places)
    ensures ok && Distinct(managers + workers) && NoStrangers(old(f.places), managers[0], managers + workers) ==>
      && At(f.places, managers[0]).Member?
      && var c := At(f.places, managers[0]).cluster;
      && MembersOf(f.places, c) == ToSet(managers + workers)
      && (RolesRight(f.places, c, managers, workers) <==>
            Placed(old(f.places), managers[0], c, managers, false) == {} &&
            Placed(old(f.places), managers[0], c, workers, true) == {})
      && (PlainNames(managers + workers) && Placed(old(f.places), managers[0], c, workers, true) == {} ==>
            RolesRight(f.places, c, managers, workers))
    ensures managers != [] && managerAddrs == |managers| && workerAddrs == |workers| && f.Reliable() &&
            Distinct(managers + workers) && NoStrangers(old(f.places), managers[0], managers + workers) ==>
      && At(f.places, managers[0]).Member?
      && var c := At(f.places, managers[0]).cluster;
      && (ok <==> |Uncounted(old(f.places), managers[0], c, managers)| ==
                  |Overcounted(old(f.places), managers[0], c, workers)|)
    ensures Converged(old(f.places), managers, workers) ==> SamePlaces(old(f.places), f.places)
  {
    if managers == [] || managerAddrs != |managers| || workerAddrs != |workers| { return false; }
    var primary := managers[0];
    var initialised, _, _ := InitSwarm(f, primary);
    ghost var b := f.places;
    if !initialised { return false; }
    var ready, _, _ := VerifyManagerReady(f, primary);
    if !ready { return false; }
    var id := GetJoinTokens(f, primary);
    if id.None? { return false; }
    var c := id.value;
    assert c < f.nextId;
    ok := JoinNodes(f, managers[1..], c, true);
    ghost var m := f.places;
    if !ok { return false; }
    ok := JoinNodes(f, workers, c, false);
    if !ok { return false; }
    var listing;
    ok, listing := VerifySwarm(f, primary, |managers|, |workers|);
    if Distinct(managers + workers) && NoStrangers(old(f.places), primary, managers + workers) {
      GatherSteps(old(f.places), b, m, f.places, managers, workers, c);
      GatheredHasNoStrangers(old(f.places), f.places, managers, workers, c);
      if ok {
        CountCoversAll(f.places, c, listing.value, managers, workers);
        RolesExactly(old(f.places), f.places, managers, workers, c);
        if PlainNames(managers + workers) {
          RolesByCount(old(f.places), f.places, managers, workers, c, listing.value);
        }
      }
      if f.Reliable() {
        ReliableRun(old(f.places), b, m, f.places, managers, workers, c, listing.value);
      }
    }
  }
}
