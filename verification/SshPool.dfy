/**
 * The connection pool under concurrent callers: a read-locked look, then a second
 * look and the dialing under the write lock.
 */
module SshPool {
  import opened Prelude

  type Host = string
  type Thread = nat
  type Client = nat

  /** Where one caller stands. */
  datatype Pc =
    | Idle
    | Reading(host: Host)
    | Missed(host: Host)
    | Holding(host: Host)
    | Connecting(host: Host)
    | Closing

  /** A dialed connection: which one, for which host, between which two closes. */
  datatype Entry = Entry(epoch: nat, host: Host, client: Client)

  /** How a call ended. */
  datatype Result = Got(client: Client) | NoAuth | DialFailed

  datatype Outcome = Outcome(epoch: nat, caller: Thread, host: Host, result: Result)

  /** The pool, its lock, its callers, and the histories of dialed and closed connections and of ended calls. */
  datatype Pool = Pool(
    clients: map<Host, Client>, auth: set<Host>,
    writer: Option<Thread>, readers: set<Thread>, pcs: map<Thread, Pc>,
    epoch: nat, nextClient: Client,
    established: seq<Entry>, closed: set<Client>, outcomes: seq<Outcome>)

  datatype Event =
    | StartGet(t: Thread, host: Host)
    | Look(t: Thread)
    | Lock(t: Thread)
    | LookAgain(t: Thread)
    | Dial(t: Thread, ok: bool)
    | StartClose(t: Thread)
    | EndClose(t: Thread)

  function PcOf(p: Pool, t: Thread): Pc { if t in p.pcs then p.pcs[t] else Idle }

  /** A read lock needs no writer, a write lock needs nobody. */
  predicate Enabled(p: Pool, e: Event) {
    match e
    case StartGet(t, _) => PcOf(p, t).Idle? && p.writer.None?
    case Look(t) => PcOf(p, t).Reading?
    case Lock(t) => PcOf(p, t).Missed? && p.writer.None? && p.readers == {}
    case LookAgain(t) => PcOf(p, t).Holding?
    case Dial(t, _) => PcOf(p, t).Connecting?
    case StartClose(t) => PcOf(p, t).Idle? && p.writer.None? && p.readers == {}
    case EndClose(t) => PcOf(p, t).Closing?
  }

  /** A call comes back to its caller. */
  function Return(p: Pool, t: Thread, host: Host, r: Result): Pool {
    p.(pcs := p.pcs[t := Idle], outcomes := p.outcomes + [Outcome(p.epoch, t, host, r)])
  }

  function Next(p: Pool, e: Event): Pool
    requires Enabled(p, e)
  {
    match e
    case StartGet(t, host) => p.(readers := p.readers + {t}, pcs := p.pcs[t := Reading(host)])
    case Look(t) =>
      var host, q := p.pcs[t].host, p.(readers := p.readers - {t});
      if host in p.clients then Return(q, t, host, Got(p.clients[host]))
      else q.(pcs := p.pcs[t := Missed(host)])
    case Lock(t) => p.(writer := Some(t), pcs := p.pcs[t := Holding(p.pcs[t].host)])
    case LookAgain(t) =>
      var host, q := p.pcs[t].host, p.(writer := None);
      if host in p.clients then Return(q, t, host, Got(p.clients[host]))
      else if host !in p.auth then Return(q, t, host, NoAuth)
      else p.(pcs := p.pcs[t := Connecting(host)])
    case Dial(t, ok) =>
      var host, q := p.pcs[t].host, p.(writer := None);
      if ok then
        var dialed := q.(clients := p.clients[host := p.nextClient], nextClient := p.nextClient + 1,
                         established := p.established + [Entry(p.epoch, host, p.nextClient)]);
        Return(dialed, t, host, Got(p.nextClient))
      else Return(q, t, host, DialFailed)
    case StartClose(t) => p.(writer := Some(t), pcs := p.pcs[t := Closing])
    case EndClose(t) =>
      p.(writer := None, pcs := p.pcs[t := Idle], clients := map[], epoch := p.epoch + 1,
         closed := p.closed + p.clients.Values)
  }

  ghost predicate Run(p: Pool, es: seq<Event>)
    decreases es
  {
    es == [] || (Enabled(p, es[0]) && Run(Next(p, es[0]), es[1..]))
  }

  function Final(p: Pool, es: seq<Event>): Pool
    requires Run(p, es)
    decreases es
  {
    if es == [] then p else Final(Next(p, es[0]), es[1..])
  }

  predicate Start(p: Pool) {
    && p.clients == map[] && p.writer.None? && p.readers == {} && p.pcs == map[]
    && p.established == [] && p.closed == {} && p.outcomes == []
  }

  predicate HoldsWrite(pc: Pc) { pc.Holding? || pc.Connecting? || pc.Closing? }

  /** The lock excludes what a read-write lock excludes. */
  ghost predicate LockInv(p: Pool) {
    && (forall t :: t in p.pcs ==> (HoldsWrite(p.pcs[t]) <==> p.writer == Some(t)))
    && (forall t :: t in p.readers <==> t in p.pcs && p.pcs[t].Reading?)
    && (p.writer.Some? ==> p.writer.value in p.pcs && p.readers == {})
  }

  /** The dialed connections: their order of numbers, and at most one per host between two closes. */
  ghost predicate DialedInv(p: Pool) {
    && (forall x :: x in p.established ==> x.epoch <= p.epoch && x.client < p.nextClient)
    && (forall i, j :: 0 <= i < j < |p.established| ==>
          && p.established[i].client != p.established[j].client
          && (p.established[i].epoch != p.established[j].epoch || p.established[i].host != p.established[j].host))
  }

  /** The map holds exactly the connections dialed since the last close. */
  ghost predicate MapInv(p: Pool) {
    && (forall x :: x in p.established && x.epoch == p.epoch ==> x.host in p.clients && p.clients[x.host] == x.client)
    && (forall h :: h in p.clients ==> Entry(p.epoch, h, p.clients[h]) in p.established)
    && (forall t :: t in p.pcs && p.pcs[t].Connecting? ==> p.pcs[t].host !in p.clients && p.pcs[t].host in p.auth)
  }

  /** Exactly the connections dialed before the last close are closed. */
  ghost predicate ClosedInv(p: Pool) {
    && (forall x :: x in p.established ==> (x.client in p.closed <==> x.epoch < p.epoch))
    && (forall c :: c in p.closed ==> exists x :: x in p.established && x.client == c)
  }

  /** Every answer gave a connection dialed in its time, and only hosts without authentication are turned away. */
  ghost predicate OutcomeInv(p: Pool) {
    forall o :: o in p.outcomes ==>
      && (o.result.Got? ==> Entry(o.epoch, o.host, o.result.client) in p.established)
      && (o.result.NoAuth? <==> o.host !in p.auth)
  }

  ghost predicate Inv(p: Pool) { LockInv(p) && DialedInv(p) && MapInv(p) && ClosedInv(p) && OutcomeInv(p) }

  lemma NextKeepsLock(p: Pool, e: Event)
    requires LockInv(p) && Enabled(p, e)
    ensures LockInv(Next(p, e))
  {
  }

  lemma DialKeepsDialed(p: Pool, t: Thread)
    requires Inv(p) && Enabled(p, Dial(t, true))
    ensures DialedInv(Next(p, Dial(t, true)))
  {
    var q, host := Next(p, Dial(t, true)), p.pcs[t].host;
    var x := Entry(p.epoch, host, p.nextClient);
    assert forall y :: y in q.established ==> y in p.established || y == x;
    forall i | 0 <= i < |p.established|
      ensures p.established[i].client != x.client
      ensures p.established[i].epoch != x.epoch || p.established[i].host != x.host
    {
      assert p.established[i] in p.established;
    }
  }

  lemma DialKeepsMap(p: Pool, t: Thread)
    requires Inv(p) && Enabled(p, Dial(t, true))
    ensures MapInv(Next(p, Dial(t, true)))
  {
    var q, host := Next(p, Dial(t, true)), p.pcs[t].host;
    var x := Entry(p.epoch, host, p.nextClient);
    assert q.established[|p.established|] == x && x in q.established;
    assert forall y :: y in q.established <==> y in p.established || y == x;
    forall h | h in q.clients ensures Entry(q.epoch, h, q.clients[h]) in q.established {
      if h != host { assert Entry(p.epoch, h, p.clients[h]) in p.established; }
    }
    forall u | u in q.pcs ensures !q.pcs[u].Connecting? {
      if u != t { assert p.writer == Some(t); }
    }
  }

  lemma DialKeepsClosed(p: Pool, t: Thread)
    requires Inv(p) && Enabled(p, Dial(t, true))
    ensures ClosedInv(Next(p, Dial(t, true)))
  {
    var q := Next(p, Dial(t, true));
    var x := Entry(p.epoch, p.pcs[t].host, p.nextClient);
    assert forall y :: y in q.established <==> y in p.established || y == x;
    forall c | c in q.closed ensures exists y :: y in q.established && y.client == c && c != x.client {
      var y :| y in p.established && y.client == c;
      assert y in q.established;
    }
  }

  /** Returning with a truthful result keeps the record of outcomes truthful. */
  lemma ReturnKeepsOutcomes(p: Pool, q: Pool, o: Outcome)
    requires OutcomeInv(p) && q.auth == p.auth && q.outcomes == p.outcomes + [o]
    requires forall x :: x in p.established ==> x in q.established
    requires o.result.Got? ==> Entry(o.epoch, o.host, o.result.client) in q.established
    requires o.result.NoAuth? <==> o.host !in p.auth
    ensures OutcomeInv(q)
  {
    assert forall x :: x in q.outcomes ==> x in p.outcomes || x == o;
  }

  lemma DialKeepsOutcomes(p: Pool, t: Thread, ok: bool)
    requires Inv(p) && Enabled(p, Dial(t, ok))
    ensures OutcomeInv(Next(p, Dial(t, ok)))
  {
    var q := Next(p, Dial(t, ok));
    if ok { assert q.established[|p.established|] in q.established; }
    ReturnKeepsOutcomes(p, q, q.outcomes[|p.outcomes|]);
  }

  /** Connections are dialed only with authentication, which the second look has checked. */
  lemma LookKeepsInv(p: Pool, e: Event)
    requires Inv(p) && Enabled(p, e) && (e.Look? || e.LookAgain?) && LockInv(Next(p, e))
    requires p.pcs[e.t].host in p.clients ==> p.pcs[e.t].host in p.auth
    ensures Inv(Next(p, e))
  {
    var q, host := Next(p, e), p.pcs[e.t].host;
    assert forall u :: u in q.pcs && u != e.t ==> q.pcs[u] == p.pcs[u];
    if q.outcomes != p.outcomes { ReturnKeepsOutcomes(p, q, q.outcomes[|p.outcomes|]); }
  }

  /** What the map holds was dialed, and so has authentication. */
  ghost predicate DialedWithAuth(p: Pool) { forall x :: x in p.established ==> x.host in p.auth }

  lemma CloseKeepsInv(p: Pool, t: Thread)
    requires Inv(p) && Enabled(p, EndClose(t)) && LockInv(Next(p, EndClose(t)))
    ensures Inv(Next(p, EndClose(t)))
  {
    var q := Next(p, EndClose(t));
    forall u | u in p.pcs && u != t ensures !p.pcs[u].Connecting? {
      assert p.writer == Some(t);
    }
    forall x | x in q.established ensures x.client in q.closed && x.epoch < q.epoch {
      if x.epoch == p.epoch { assert p.clients[x.host] == x.client; }
    }
    forall c | c in q.closed ensures exists x :: x in q.established && x.client == c {
      if c !in p.closed {
        var h :| h in p.clients && p.clients[h] == c;
        assert Entry(p.epoch, h, c) in p.established;
      }
    }
  }

  lemma NextKeepsInv(p: Pool, e: Event)
    requires Inv(p) && DialedWithAuth(p) && Enabled(p, e)
    ensures Inv(Next(p, e)) && DialedWithAuth(Next(p, e))
  {
    NextKeepsLock(p, e);
    match e {
      case Dial(t, ok) =>
        DialKeepsOutcomes(p, t, ok);
        if ok {
          DialKeepsDialed(p, t);
          DialKeepsMap(p, t);
          DialKeepsClosed(p, t);
        }
      case EndClose(t) => CloseKeepsInv(p, t);
      case Look(t) => LookWithAuth(p, e);
      case LookAgain(t) => LookWithAuth(p, e);
      case _ =>
    }
  }

  lemma LookWithAuth(p: Pool, e: Event)
    requires Inv(p) && DialedWithAuth(p) && Enabled(p, e) && (e.Look? || e.LookAgain?) && LockInv(Next(p, e))
    ensures Inv(Next(p, e)) && DialedWithAuth(Next(p, e))
  {
    var host := p.pcs[e.t].host;
    if host in p.clients { assert Entry(p.epoch, host, p.clients[host]) in p.established; }
    LookKeepsInv(p, e);
  }

  lemma {:induction false} RunsKeepInv(p: Pool, es: seq<Event>)
    requires Inv(p) && DialedWithAuth(p) && Run(p, es)
    ensures Inv(Final(p, es)) && DialedWithAuth(Final(p, es)) && Final(p, es).auth == p.auth
    decreases es
  {
    if es != [] {
      NextKeepsInv(p, es[0]);
      RunsKeepInv(Next(p, es[0]), es[1..]);
    }
  }

  /** A connection given and one dialed for the same host between the same closes. */
  predicate SameCall(o: Outcome, x: Entry) { o.result.Got? && o.epoch == x.epoch && o.host == x.host }

  /**
   * In every interleaving of callers and closes: between two closes at most one
   * connection per host is dialed, and every caller that was given a connection for
   * the host in that time was given exactly that one.
   */
  lemma OneConnectionPerHost(p: Pool, es: seq<Event>)
    requires Start(p) && Run(p, es)
    ensures var q := Final(p, es);
      && (forall i, j :: 0 <= i < j < |q.established| ==>
            !(q.established[i].epoch == q.established[j].epoch && q.established[i].host == q.established[j].host))
      && (forall o, x :: o in q.outcomes && x in q.established && SameCall(o, x) ==> o.result.client == x.client)
      && (forall o :: o in q.outcomes && o.result.Got? ==> Entry(o.epoch, o.host, o.result.client) in q.established)
  {
    RunsKeepInv(p, es);
    var q := Final(p, es);
    forall o, x | o in q.outcomes && x in q.established && SameCall(o, x) ensures o.result.client == x.client {
      var y := Entry(o.epoch, o.host, o.result.client);
      var i :| 0 <= i < |q.established| && q.established[i] == y;
      var j :| 0 <= j < |q.established| && q.established[j] == x;
    }
  }

  /** In every interleaving exactly the connections dialed before the last close are closed, and none is lost. */
  lemma ClosesAllAndOnlyOld(p: Pool, es: seq<Event>)
    requires Start(p) && Run(p, es)
    ensures var q := Final(p, es);
      && (forall x :: x in q.established ==> (x.client in q.closed <==> x.epoch < q.epoch))
      && (forall x :: x in q.established && x.epoch == q.epoch ==> x.host in q.clients && q.clients[x.host] == x.client)
  {
    RunsKeepInv(p, es);
  }

  /** The host a caller asks for, while it does. */
  predicate Asks(pc: Pc, host: Host) {
    (pc.Reading? || pc.Missed? || pc.Holding? || pc.Connecting?) && pc.host == host
  }

  /** How a call of `t` for the host ends with a step from `q` to `r`. */
  ghost predicate Answers(q: Pool, e: Event, r: Pool, t: Thread, host: Host) {
    && PcOf(r, t).Idle? && |r.outcomes| == |q.outcomes| + 1 && r.outcomes[..|q.outcomes|] == q.outcomes
    && var o := r.outcomes[|q.outcomes|];
    && o.epoch == q.epoch && o.caller == t && o.host == host
    && (o.result.Got? <==> host in r.clients)
    && (o.result.Got? ==> o.result.client == r.clients[host])
    && (o.result.NoAuth? <==> host !in q.auth)
    && (o.result.DialFailed? <==> e == Dial(t, false))
  }

  lemma OnlyCallerMoves(q: Pool, e: Event, t: Thread)
    requires Enabled(q, e) && PcOf(Next(q, e), t) != PcOf(q, t)
    ensures t == e.t
  {
  }

  lemma LookAnswers(q: Pool, e: Event, host: Host)
    requires Inv(q) && DialedWithAuth(q) && Enabled(q, e) && !e.Dial?
    requires Asks(PcOf(q, e.t), host) && !Asks(PcOf(Next(q, e), e.t), host)
    ensures Answers(q, e, Next(q, e), e.t, host)
  {
    if host in q.clients { assert Entry(q.epoch, host, q.clients[host]) in q.established; }
  }

  lemma DialAnswers(q: Pool, t: Thread, ok: bool, host: Host)
    requires Inv(q) && DialedWithAuth(q) && Enabled(q, Dial(t, ok)) && Asks(PcOf(q, t), host)
    ensures Answers(q, Dial(t, ok), Next(q, Dial(t, ok)), t, host)
  {
  }

  /**
   * Every call that comes back is answered, in every interleaving: with the
   * connection the pool then holds for its host, which is open; or it is turned away
   * because the host has no authentication, or because its own dialing failed. A
   * caller who finds a connection always gets it. Nothing else ends a call.
   */
  lemma EveryCallIsAnswered(p: Pool, es: seq<Event>, e: Event, t: Thread, host: Host)
    requires Start(p) && Run(p, es) && Enabled(Final(p, es), e)
    requires Asks(PcOf(Final(p, es), t), host) && !Asks(PcOf(Next(Final(p, es), e), t), host)
    ensures Answers(Final(p, es), e, Next(Final(p, es), e), t, host)
    ensures var r := Next(Final(p, es), e); host in r.clients ==> r.clients[host] !in r.closed
  {
    RunsKeepInv(p, es);
    var q := Final(p, es);
    OnlyCallerMoves(q, e, t);
    if e.Dial? { DialAnswers(q, t, e.ok, host); } else { LookAnswers(q, e, host); }
    NextKeepsInv(q, e);
    OpenWhileHeld(Next(q, e), host);
  }

  lemma OpenWhileHeld(p: Pool, host: Host)
    requires MapInv(p) && ClosedInv(p)
    ensures host in p.clients ==> p.clients[host] !in p.closed
  {
    if host in p.clients { assert Entry(p.epoch, host, p.clients[host]) in p.established; }
  }

  /** And only a call that comes back adds an outcome. */
  lemma OutcomesAreCalls(p: Pool, e: Event)
    requires LockInv(p) && Enabled(p, e) && Next(p, e).outcomes != p.outcomes
    ensures exists host :: Asks(PcOf(p, e.t), host) && PcOf(Next(p, e), e.t).Idle?
  {
    assert Asks(PcOf(p, e.t), p.pcs[e.t].host);
  }

  /** No interleaving gets stuck: while somebody is in a call or closing, somebody can take a step of it. */
  lemma SomebodyCanStep(p: Pool, es: seq<Event>, t: Thread) returns (e: Event)
    requires Start(p) && Run(p, es) && !PcOf(Final(p, es), t).Idle?
    ensures Enabled(Final(p, es), e) && !e.StartGet? && !e.StartClose?
  {
    RunsKeepInv(p, es);
    var q := Final(p, es);
    if q.writer.Some? {
      var w := q.writer.value;
      e := match q.pcs[w]
        case Connecting(_) => Dial(w, true)
        case Closing => EndClose(w)
        case _ => LookAgain(w);
    } else if u :| u in q.readers {
      e := Look(u);
    } else {
      e := Lock(t);
    }
  }
}
