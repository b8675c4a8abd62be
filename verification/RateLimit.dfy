/** The per-IP token buckets of the webhook endpoint, and the pruning of idle ones. */
module RateLimit {
  import opened Common

  const BURST: real := 20.0        // tokens, refilled at one a second
  const IDLE_LIMIT: real := 600.0  // seconds

  /** tokens were left at time last; lastSeen is the last call, allowed or not. */
  datatype Client = Client(tokens: real, last: real, lastSeen: real)

  type Clients = map<string, Client>

  function Min(x: real, y: real): real {
    if x < y then x else y
  }

  function TokensAt(c: Client, now: real): real {
    Min(BURST, c.tokens + if now < c.last then 0.0 else now - c.last)
  }

  function NewClient(now: real): Client {
    Client(BURST, now, now)
  }

  function ClientFor(clients: Clients, ip: string, now: real): Client {
    if ip in clients then clients[ip] else NewClient(now)
  }

  predicate Allows(clients: Clients, ip: string, now: real) {
    TokensAt(ClientFor(clients, ip, now), now) >= 1.0
  }

  function AfterAllow(clients: Clients, ip: string, now: real): Clients {
    var c := ClientFor(clients, ip, now);
    clients[ip := if Allows(clients, ip, now) then Client(TokensAt(c, now) - 1.0, now, now) else c.(lastSeen := now)]
  }

  function AfterCleanup(clients: Clients, now: real): Clients {
    map ip | ip in clients && !(now - clients[ip].lastSeen > IDLE_LIMIT) :: clients[ip]
  }

  class WebhookIPLimiter {
    var clients: Clients

    constructor ()
      ensures clients == map[]
    {
      clients := map[];
    }

    method Allow(ip: string, now: real) returns (ok: bool)
      modifies this
      ensures ok == Allows(old(clients), ip, now)
      ensures clients == AfterAllow(old(clients), ip, now)
      ensures ip in clients && clients[ip].lastSeen == now && forall k | k in old(clients) && k != ip ::
        k in clients && clients[k] == old(clients)[k]
    {
      if ip !in clients {
        clients := clients[ip := NewClient(now)];
      }
      var c := clients[ip].(lastSeen := now);
      var tokens := TokensAt(c, now);
      ok := tokens >= 1.0;
      if ok {
        c := c.(tokens := tokens - 1.0, last := now);
      }
      clients := clients[ip := c];
    }

    method Cleanup(now: real)
      modifies this
      ensures clients == AfterCleanup(old(clients), now)
      ensures forall ip :: ip in clients <==> ip in old(clients) && now - old(clients)[ip].lastSeen <= 600.0
    {
      ghost var before := clients;
      var rest := clients.Keys;
      while rest != {}
        invariant rest <= clients.Keys <= before.Keys
        invariant forall ip | ip in clients :: clients[ip] == before[ip]
        invariant forall ip | ip in before && ip !in rest ::
          ip in clients <==> !(now - before[ip].lastSeen > IDLE_LIMIT)
        decreases |rest|
      {
        var ip := Pick(rest);
        if now - clients[ip].lastSeen > IDLE_LIMIT {
          clients := map k | k in clients && k != ip :: clients[k];
        }
        rest := rest - {ip};
      }
    }
  }

  // ---- whole sequences of calls --------------------------------------------------

  datatype Event = Call(ip: string, at: real) | Tick(at: real)

  /** Time does not run backwards, starting from now. */
  ghost predicate Timed(events: seq<Event>, now: real) {
    && (forall e | e in events :: now <= e.at)
    && forall i, j | 0 <= i < j < |events| :: events[i].at <= events[j].at
  }

  /** pruning: whether the ticks delete idle clients. */
  function After(pruning: bool, clients: Clients, e: Event): Clients {
    match e
    case Call(ip, at) => AfterAllow(clients, ip, at)
    case Tick(at) => if pruning then AfterCleanup(clients, at) else clients
  }

  function AfterAll(pruning: bool, clients: Clients, events: seq<Event>): Clients
    decreases |events|
  {
    if events == [] then clients else AfterAll(pruning, After(pruning, clients, events[0]), events[1..])
  }

  /** The answers to the calls, in order; a tick answers nothing. */
  function Answers(pruning: bool, clients: Clients, events: seq<Event>): seq<bool>
    decreases |events|
  {
    if events == [] then []
    else
      [events[0].Call? && Allows(clients, events[0].ip, events[0].at)]
      + Answers(pruning, After(pruning, clients, events[0]), events[1..])
  }

  // ---- pruning is invisible ---------------------------------------------------------

  ghost predicate Sane(clients: Clients, now: real) {
    forall ip | ip in clients ::
      0.0 <= clients[ip].tokens <= BURST && clients[ip].last <= clients[ip].lastSeen <= now
  }

  /** The pruned limiter has forgotten only clients whose bucket is full again. */
  ghost predicate Simulates(pruned: Clients, full: Clients, now: real) {
    && Sane(full, now)
    && (forall ip | ip in pruned :: ip in full && pruned[ip] == full[ip])
    && (forall ip | ip in full && ip !in pruned :: TokensAt(full[ip], now) == BURST)
  }

  lemma SimulationStep(pruned: Clients, full: Clients, now: real, e: Event)
    requires Simulates(pruned, full, now) && now <= e.at
    ensures Simulates(After(true, pruned, e), After(false, full, e), e.at)
    ensures e.Call? ==> Allows(pruned, e.ip, e.at) == Allows(full, e.ip, e.at)
  {
  }

  lemma {:induction false} SimulationRun(pruned: Clients, full: Clients, now: real, events: seq<Event>)
    requires Simulates(pruned, full, now) && Timed(events, now)
    ensures Answers(true, pruned, events) == Answers(false, full, events)
    decreases |events|
  {
    if events != [] {
      SimulationStep(pruned, full, now, events[0]);
      assert Timed(events[1..], events[0].at);
      SimulationRun(After(true, pruned, events[0]), After(false, full, events[0]), events[0].at, events[1..]);
    }
  }

  /** On every sequence of calls and clean-ups, pruning changes no answer. */
  lemma PruningIsInvisible(events: seq<Event>, start: real)
    requires Timed(events, start)
    ensures Answers(true, map[], events) == Answers(false, map[], events)
  {
    SimulationRun(map[], map[], start, events);
  }

  // ---- how much gets through -----------------------------------------------------------

  function Admitted(ip: string, events: seq<Event>, answers: seq<bool>): nat
    requires |events| == |answers|
    decreases |events|
  {
    if events == [] then 0
    else
      (if events[0] == Call(ip, events[0].at) && answers[0] then 1 else 0) + Admitted(ip, events[1..], answers[1..])
  }

  lemma {:induction false} OneAnswerEach(pruning: bool, clients: Clients, events: seq<Event>)
    ensures |Answers(pruning, clients, events)| == |events|
    decreases |events|
  {
    if events != [] {
      OneAnswerEach(pruning, After(pruning, clients, events[0]), events[1..]);
    }
  }

  predicate Admits(clients: Clients, e: Event, ip: string) {
    e.Call? && e.ip == ip && Allows(clients, ip, e.at)
  }

  /** An admission spends a token, and tokens come one a second. */
  lemma TokensStep(clients: Clients, now: real, e: Event, ip: string)
    requires Sane(clients, now) && now <= e.at
    ensures
      var next := After(false, clients, e);
      && Sane(next, e.at)
      && (if Admits(clients, e, ip) then 1.0 else 0.0) + TokensAt(ClientFor(next, ip, e.at), e.at)
         <= TokensAt(ClientFor(clients, ip, now), now) + (e.at - now)
    ensures 0.0 <= TokensAt(ClientFor(clients, ip, now), now) <= BURST
  {
  }

  lemma {:induction false} TokensPay(clients: Clients, now: real, events: seq<Event>, ip: string, end: real)
    requires Sane(clients, now) && Timed(events, now) && now <= end
    requires forall e | e in events :: e.at <= end
    ensures |Answers(false, clients, events)| == |events|
    ensures Admitted(ip, events, Answers(false, clients, events)) as real
         <= TokensAt(ClientFor(clients, ip, now), now) + (end - now)
    decreases |events|
  {
    OneAnswerEach(false, clients, events);
    TokensStep(clients, now, Tick(now), ip);
    hide TokensAt, ClientFor, After, Sane;
    if events != [] {
      var next := After(false, clients, events[0]);
      assert Timed(events[1..], events[0].at);
      TokensStep(clients, now, events[0], ip);
      TokensPay(next, events[0].at, events[1..], ip, end);
      assert Answers(false, clients, events)[1..] == Answers(false, next, events[1..]);
    }
  }

  lemma {:induction false} AnswersSplit(pruning: bool, clients: Clients, events: seq<Event>, i: nat)
    requires i <= |events|
    ensures |Answers(pruning, clients, events)| == |events|
    ensures Answers(pruning, clients, events)[i..] == Answers(pruning, AfterAll(pruning, clients, events[..i]), events[i..])
    decreases |events|
  {
    OneAnswerEach(pruning, clients, events);
    if i > 0 {
      AnswersSplit(pruning, After(pruning, clients, events[0]), events[1..], i - 1);
      assert events[..i][1..] == events[1..][..i - 1] && events[1..][i - 1..] == events[i..];
      var tail := Answers(pruning, After(pruning, clients, events[0]), events[1..]);
      assert Answers(pruning, clients, events)[i..] == tail[i - 1..];
    } else {
      assert events[..0] == [] && events[0..] == events;
    }
  }

  lemma {:induction false} StaysSane(clients: Clients, now: real, events: seq<Event>, end: real)
    requires Sane(clients, now) && Timed(events, now) && now <= end
    requires forall e | e in events :: e.at <= end
    ensures Sane(AfterAll(false, clients, events), end)
    decreases |events|
  {
    if events != [] {
      assert Timed(events[1..], events[0].at);
      StaysSane(After(false, clients, events[0]), events[0].at, events[1..], end);
    }
  }

  lemma {:induction false} AnswersPrefix(pruning: bool, clients: Clients, events: seq<Event>, j: nat)
    requires j <= |events|
    ensures |Answers(pruning, clients, events)| == |events|
    ensures Answers(pruning, clients, events[..j]) == Answers(pruning, clients, events)[..j]
    decreases |events|
  {
    OneAnswerEach(pruning, clients, events);
    if j > 0 {
      AnswersPrefix(pruning, After(pruning, clients, events[0]), events[1..], j - 1);
      assert events[..j][1..] == events[1..][..j - 1];
    }
  }

  /** The answers within a window are those of a limiter that starts from the clients at its beginning. */
  lemma AnswersOfWindow(events: seq<Event>, i: nat, j: nat)
    requires i < j <= |events|
    ensures |Answers(false, map[], events)| == |events|
    ensures Answers(false, map[], events)[i..j] == Answers(false, AfterAll(false, map[], events[..i]), events[i..j])
  {
    hide After, AfterAll, Answers;
    AnswersSplit(false, map[], events, i);
    AnswersPrefix(false, AfterAll(false, map[], events[..i]), events[i..], j - i);
    assert events[i..][..j - i] == events[i..j];
    var answers := Answers(false, map[], events);
    assert answers[i..][..j - i] == answers[i..j];
  }

  /** What any clients seen by now admit from now to the end of the events. */
  lemma AdmittedFrom(clients: Clients, now: real, events: seq<Event>, ip: string)
    requires Sane(clients, now) && Timed(events, now) && events != []
    ensures |Answers(false, clients, events)| == |events|
    ensures Admitted(ip, events, Answers(false, clients, events)) as real <= BURST + (events[|events| - 1].at - now)
  {
    hide After, Answers, Admitted, TokensAt, ClientFor, Sane;
    TokensPay(clients, now, events, ip, events[|events| - 1].at);
    TokensStep(clients, now, Tick(now), ip);
  }

  lemma TimedWindow(events: seq<Event>, start: real, i: nat, j: nat)
    requires Timed(events, start) && i < j <= |events|
    ensures start <= events[i].at && Timed(events[..i], start) && Timed(events[i..j], events[i].at)
    ensures forall e | e in events[..i] :: e.at <= events[i].at
  {
  }

  /** Any window of T seconds of the pruned limiter admits at most 20 + T calls of an address. */
  lemma WindowBound(events: seq<Event>, start: real, i: nat, j: nat, ip: string)
    requires Timed(events, start) && i < j <= |events|
    ensures |Answers(true, map[], events)| == |events|
    ensures Admitted(ip, events[i..j], Answers(true, map[], events)[i..j]) as real
         <= BURST + (events[j - 1].at - events[i].at)
  {
    PruningIsInvisible(events, start);
    TimedWindow(events, start, i, j);
    hide After, AfterAll, Answers, Admitted, Timed, Sane;
    AnswersOfWindow(events, i, j);
    assert Sane(map[], start) by {
      EmptyIsSane(start);
    }
    StaysSane(map[], start, events[..i], events[i].at);
    AdmittedFrom(AfterAll(false, map[], events[..i]), events[i].at, events[i..j], ip);
  }

  lemma EmptyIsSane(now: real)
    ensures Sane(map[], now)
  {
  }

  // ---- how much is let through at least ----------------------------------------------------

  /** n calls of one address at one moment. */
  function Burst(ip: string, at: real, n: nat): seq<Event> {
    if n == 0 then [] else [Call(ip, at)] + Burst(ip, at, n - 1)
  }

  /** Of n calls at once the k-th is admitted exactly if at least k tokens are left before the first. */
  lemma {:induction false} BurstExactly(pruning: bool, clients: Clients, ip: string, now: real, n: nat)
    ensures |Answers(pruning, clients, Burst(ip, now, n))| == n
    ensures forall k | 0 <= k < n ::
      Answers(pruning, clients, Burst(ip, now, n))[k] <==> TokensAt(ClientFor(clients, ip, now), now) >= (k + 1) as real
    decreases n
  {
    if n > 0 {
      var next := AfterAllow(clients, ip, now);
      assert Burst(ip, now, n)[0] == Call(ip, now) && Burst(ip, now, n)[1..] == Burst(ip, now, n - 1);
      BurstExactly(pruning, next, ip, now, n - 1);
      var answers := Answers(pruning, clients, Burst(ip, now, n));
      assert answers == [Allows(clients, ip, now)] + Answers(pruning, next, Burst(ip, now, n - 1));
      assert forall k | 0 < k < n :: answers[k] == Answers(pruning, next, Burst(ip, now, n - 1))[k - 1];
    }
  }

  /**
   * A token comes back every second: a client that was left with some tokens, and calls seconds later,
   * has those seconds' worth of calls more, up to 20; one not seen before has 20.
   */
  lemma IdleClientIsAdmitted(pruning: bool, clients: Clients, ip: string, now: real, n: nat)
    requires Sane(clients, now)
    ensures
      var left := if ip in clients then clients[ip].tokens + (now - clients[ip].last) else 20.0;
      && |Answers(pruning, clients, Burst(ip, now, n))| == n
      && forall k | 0 <= k < n ::
           Answers(pruning, clients, Burst(ip, now, n))[k] <==> k < 20 && left >= (k + 1) as real
  {
    BurstExactly(pruning, clients, ip, now, n);
  }
}
