/**
 * The escalation protocol: any number of workers poll stale copies of open incidents and race on a
 * compare-and-set of escalation_step, while other clients change the incidents' status.
 */
module Escalation {
  import opened Common
  import opened EscalationPolicy
  import Queries
  import T = IncidentTable

  const BATCH_LIMIT := 200

  /** team -> policy; a policy stays as it is during a run. */
  type Policies = map<Uuid, Policy>

  predicate HasSteps(ps: Policies, team: Uuid) {
    team in ps && |ps[team].layers| > 0
  }

  /** A worker may try step on an incident of team that fired elapsed ago. */
  predicate MayTake(ps: Policies, team: Uuid, elapsed: int, step: nat) {
    HasSteps(ps, team) && Eligible(ps[team], elapsed, step)
  }

  // ---- which incidents a poll looks at ---------------------------------------

  predicate Pollable(rows: T.Rows, now: int, id: Uuid) {
    id in rows && rows[id].status.Open? && rows[id].firedAt < now - MINUTE
  }

  /** WHERE status = 'open' AND fired_at < cutoff ORDER BY fired_at LIMIT 200. */
  ghost predicate IsBatch(rows: T.Rows, now: int, batch: seq<Uuid>) {
    && |batch| <= BATCH_LIMIT
    && NoDuplicates(batch)
    && (forall id | id in batch :: Pollable(rows, now, id))
    && (forall i, j | 0 <= i < j < |batch| && batch[i] in rows && batch[j] in rows ::
          rows[batch[i]].firedAt <= rows[batch[j]].firedAt)
    && (forall id | Pollable(rows, now, id) && id !in batch ::
          |batch| == BATCH_LIMIT && forall b | b in batch :: rows[b].firedAt <= rows[id].firedAt)
  }

  /** The other pollable incidents that fired no later than id. */
  function NotAfter(rows: T.Rows, now: int, id: Uuid): set<Uuid>
    requires id in rows
  {
    set o | o in rows && o != id && Pollable(rows, now, o) && rows[o].firedAt <= rows[id].firedAt
  }

  /** Those of them that fired strictly earlier. */
  function Earlier(rows: T.Rows, now: int, id: Uuid): set<Uuid>
    requires id in rows
  {
    set o | o in rows && Pollable(rows, now, o) && rows[o].firedAt < rows[id].firedAt
  }

  function PollableIds(rows: T.Rows, now: int): set<Uuid> {
    set o | o in rows && Pollable(rows, now, o)
  }

  /** An order by firing time in which id stands first among incidents of its time, or last among them. */
  function Placing(rows: T.Rows, id: Uuid, first: bool): Uuid -> int {
    o => if o in rows then 2 * rows[o].firedAt + (if (o == id) == first then 0 else 1) else 0
  }

  lemma PlacedBatch(rows: T.Rows, now: int, id: Uuid, first: bool, batch: seq<Uuid>)
    requires Queries.IsFirst(PollableIds(rows, now), Placing(rows, id, first), BATCH_LIMIT, batch)
    ensures IsBatch(rows, now, batch)
  {
    var key := Placing(rows, id, first);
    assert forall b | b in batch :: b in PollableIds(rows, now);
    forall i, j | 0 <= i < j < |batch| && batch[i] in rows && batch[j] in rows
      ensures rows[batch[i]].firedAt <= rows[batch[j]].firedAt
    {
      assert key(batch[i]) <= key(batch[j]);
    }
    forall o | Pollable(rows, now, o) && o !in batch
      ensures |batch| == BATCH_LIMIT && forall b | b in batch :: rows[b].firedAt <= rows[o].firedAt
    {
      assert o in PollableIds(rows, now);
      forall b | b in batch ensures rows[b].firedAt <= rows[o].firedAt {
        assert key(b) <= key(o);
      }
    }
  }

  /** If an incident standing first among its time is left out, 200 fired strictly earlier. */
  lemma PlacedFirst(rows: T.Rows, now: int, id: Uuid, batch: seq<Uuid>)
    requires Pollable(rows, now, id) && id !in batch
    requires Queries.IsFirst(PollableIds(rows, now), Placing(rows, id, true), BATCH_LIMIT, batch)
    ensures |Earlier(rows, now, id)| >= BATCH_LIMIT
  {
    var key := Placing(rows, id, true);
    assert id in PollableIds(rows, now);
    forall b | b in Elements(batch) ensures b in Earlier(rows, now, id) {
      assert b in batch && b in PollableIds(rows, now) && key(b) <= key(id);
    }
    DistinctSize(batch);
    SubsetSize(Elements(batch), Earlier(rows, now, id));
  }

  /** If an incident standing last among its time is taken, fewer than 200 others fired no later. */
  lemma PlacedLast(rows: T.Rows, now: int, id: Uuid, batch: seq<Uuid>)
    requires Pollable(rows, now, id) && id in batch
    requires Queries.IsFirst(PollableIds(rows, now), Placing(rows, id, false), BATCH_LIMIT, batch)
    ensures |NotAfter(rows, now, id)| < BATCH_LIMIT
  {
    var key := Placing(rows, id, false);
    forall o | o in NotAfter(rows, now, id) ensures o in batch {
      assert o in PollableIds(rows, now) && key(o) < key(id);
    }
    DistinctSize(batch);
    SubsetSize(NotAfter(rows, now, id) + {id}, Elements(batch));
  }

  /**
   * The price of LIMIT 200.  An incident is in every batch exactly when fewer than 200 others fired no
   * later, and in none exactly when 200 fired strictly earlier; in between, ties decide.
   */
  lemma BatchExactly(rows: T.Rows, now: int, id: Uuid)
    requires Pollable(rows, now, id)
    ensures (forall batch | IsBatch(rows, now, batch) :: id in batch) <==> |NotAfter(rows, now, id)| < 200
    ensures (forall batch | IsBatch(rows, now, batch) :: id !in batch) <==> |Earlier(rows, now, id)| >= 200
  {
    forall batch | IsBatch(rows, now, batch)
      ensures |NotAfter(rows, now, id)| < BATCH_LIMIT ==> id in batch
      ensures |Earlier(rows, now, id)| >= BATCH_LIMIT ==> id !in batch
    {
      PlaceInBatch(rows, now, id, batch);
    }
    var first := Queries.FirstExists(PollableIds(rows, now), Placing(rows, id, true), BATCH_LIMIT);
    var last := Queries.FirstExists(PollableIds(rows, now), Placing(rows, id, false), BATCH_LIMIT);
    PlacedBatch(rows, now, id, true, first);
    PlacedBatch(rows, now, id, false, last);
    if id !in first {
      PlacedFirst(rows, now, id, first);
    }
    if id in last {
      PlacedLast(rows, now, id, last);
    }
  }

  lemma PlaceInBatch(rows: T.Rows, now: int, id: Uuid, batch: seq<Uuid>)
    requires Pollable(rows, now, id) && IsBatch(rows, now, batch)
    ensures id !in batch ==> |NotAfter(rows, now, id)| >= BATCH_LIMIT
    ensures id in batch ==> |Earlier(rows, now, id)| < BATCH_LIMIT
  {
    DistinctSize(batch);
    if id !in batch {
      forall b | b in Elements(batch) ensures b in NotAfter(rows, now, id) {
        assert b in batch;
      }
      SubsetSize(Elements(batch), NotAfter(rows, now, id));
    } else {
      forall o | o in Earlier(rows, now, id) + {id} ensures o in Elements(batch) {
        assert o in batch;
      }
      SubsetSize(Earlier(rows, now, id) + {id}, Elements(batch));
    }
  }

  /** n open incidents, numbered and fired one after the other. */
  function Series(n: nat): T.Rows {
    map id | id in UpTo(n) :: T.NewIncident(1, None, id)
  }

  lemma SeriesEarlier(n: nat, now: int)
    requires n > 0 && now > n + MINUTE
    ensures Pollable(Series(n), now, n) && UpTo(n - 1) <= Earlier(Series(n), now, n)
  {
    forall o: nat | o in UpTo(n - 1) ensures o in Earlier(Series(n), now, n) {
      assert o in Series(n);
    }
  }

  /** In a table of 201 open incidents the last one to fire is in no batch. */
  lemma StarvedIncident() returns (rows: T.Rows, now: int)
    ensures Pollable(rows, now, 201) && forall batch | IsBatch(rows, now, batch) :: 201 !in batch
  {
    hide IsBatch, Earlier, NotAfter, UpTo, Pollable, Series;
    rows, now := Series(201), MINUTE + 202;
    SeriesEarlier(201, now);
    assert |UpTo(200)| == 200;
    SubsetSize(UpTo(200), Earlier(rows, now, 201));
    BatchExactly(rows, now, 201);
  }

  function UpTo(n: nat): (r: set<nat>)
    ensures forall k: nat :: k in r <==> 1 <= k <= n
    ensures |r| == n
  {
    if n == 0 then {} else UpTo(n - 1) + {n}
  }

  // ---- the protocol ------------------------------------------------------------

  /** The copy of an incident row a worker holds. */
  datatype Snapshot = Snapshot(id: Uuid, team: Uuid, firedAt: int, step: nat)

  datatype Worker =
    | Working(queue: seq<Snapshot>)
    /** The next step is due and its target resolved: covered says whether anyone is on call. */
    | Deciding(taken: Snapshot, covered: bool, queue: seq<Snapshot>)
    | Sending(id: Uuid, step: nat, queue: seq<Snapshot>)

  datatype Claim = Claim(worker: nat, at: int, covered: bool)

  /** lost: the steps whose worker crashed between its claim and its notification. */
  datatype State = State(
    rows: T.Rows, workers: map<nat, Worker>, clock: int,
    claims: map<(Uuid, nat), Claim>, sent: seq<(Uuid, nat)>, lost: set<(Uuid, nat)>)

  datatype Action =
    | Tick(to: int)
    | Client(statement: T.Statement)
    | Start(w: nat)
    | Crash(w: nat)
    | Poll(w: nat, batch: seq<Uuid>)
    | Evaluate(w: nat, onCall: bool)
    | TryClaim(w: nat, fails: bool)
    | Send(w: nat)

  function Snap(rows: T.Rows, id: Uuid): Snapshot
    requires id in rows
  {
    Snapshot(id, rows[id].team, rows[id].firedAt, rows[id].escalationStep)
  }

  function Snaps(rows: T.Rows, batch: seq<Uuid>): (r: seq<Snapshot>)
    requires forall id | id in batch :: id in rows
    ensures forall x | x in r :: x.id in batch && x == Snap(rows, x.id)
  {
    if batch == [] then [] else [Snap(rows, batch[0])] + Snaps(rows, batch[1..])
  }

  ghost predicate Enabled(s: State, a: Action) {
    match a
    case Tick(to) => to >= s.clock
    case Client(statement) =>
      !statement.IncrementEscalationStep? && (statement.Create? ==> statement.now == s.clock)
    case Start(w) => w !in s.workers
    case Crash(w) => w in s.workers
    case Poll(w, batch) => w in s.workers && s.workers[w] == Working([]) && IsBatch(s.rows, s.clock, batch)
    case Evaluate(w, _) => w in s.workers && s.workers[w].Working? && s.workers[w].queue != []
    case TryClaim(w, _) => w in s.workers && s.workers[w].Deciding?
    case Send(w) => w in s.workers && s.workers[w].Sending?
  }

  function CompareAndSet(taken: Snapshot): T.Statement {
    T.IncrementEscalationStep(taken.team, taken.id, taken.step)
  }

  /** The step a worker has claimed and is about to notify. */
  function InHand(worker: Worker): set<(Uuid, nat)> {
    if worker.Sending? then {(worker.id, worker.step)} else {}
  }

  ghost function Apply(ps: Policies, s: State, a: Action): State
    requires Enabled(s, a)
  {
    match a
    case Tick(to) => s.(clock := to)
    case Client(statement) => s.(rows := T.After(s.rows, statement))
    case Start(w) => s.(workers := s.workers[w := Working([])])
    case Crash(w) => s.(workers := s.workers - {w}, lost := s.lost + InHand(s.workers[w]))
    case Poll(w, batch) =>
      s.(workers := s.workers[w := Working(Snaps(s.rows, batch))])
    case Evaluate(w, onCall) =>
      var queue := s.workers[w].queue;
      var next := if MayTake(ps, queue[0].team, s.clock - queue[0].firedAt, queue[0].step + 1)
        then Deciding(queue[0], onCall, queue[1..])
        else Working(queue[1..]);
      s.(workers := s.workers[w := next])
    case TryClaim(w, fails) =>
      var Deciding(taken, covered, queue) := s.workers[w];
      if fails || !T.CanIncrement(s.rows, taken.team, taken.id, taken.step) then
        s.(workers := s.workers[w := Working(queue)])
      else
        var next := if covered then Sending(taken.id, taken.step + 1, queue) else Working(queue);
        s.(rows := T.After(s.rows, CompareAndSet(taken)),
           workers := s.workers[w := next],
           claims := s.claims[(taken.id, taken.step + 1) := Claim(w, s.clock, covered)])
    case Send(w) =>
      var Sending(id, step, queue) := s.workers[w];
      s.(workers := s.workers[w := Working(queue)], sent := s.sent + [(id, step)])
  }

  ghost predicate Next(ps: Policies, s: State, t: State) {
    exists a :: Enabled(s, a) && t == Apply(ps, s, a)
  }

  ghost predicate Init(s: State) {
    s.rows == map[] && s.workers == map[] && s.claims == map[] && s.sent == [] && s.lost == {}
  }

  ghost predicate IsRun(ps: Policies, run: seq<State>) {
    && |run| > 0
    && Init(run[0])
    && forall i | 0 < i < |run| :: Next(ps, run[i - 1], run[i])
  }

  // ---- the invariant --------------------------------------------------------------

  ghost predicate SnapshotOk(s: State, x: Snapshot) {
    x.id in s.rows && s.rows[x.id].team == x.team && s.rows[x.id].firedAt == x.firedAt
  }

  ghost predicate ClaimOk(ps: Policies, s: State, id: Uuid, step: nat)
    requires (id, step) in s.claims
  {
    && id in s.rows
    && 1 <= step
    && s.claims[(id, step)].at <= s.clock
    && MayTake(ps, s.rows[id].team, s.claims[(id, step)].at - s.rows[id].firedAt, step)
  }

  ghost predicate WorkerOk(ps: Policies, s: State, w: nat, worker: Worker) {
    && (forall x | x in worker.queue :: SnapshotOk(s, x))
    && match worker
       case Working(_) => true
       case Deciding(taken, _, _) =>
         SnapshotOk(s, taken) && MayTake(ps, taken.team, s.clock - taken.firedAt, taken.step + 1)
       case Sending(id, step, _) =>
         && (id, step) in s.claims
         && s.claims[(id, step)].worker == w
         && s.claims[(id, step)].covered
         && (id, step) !in s.sent
  }

  /** The claimed steps of an incident are 1, 2, ..., escalation_step. */
  ghost predicate ClaimsMatchSteps(s: State) {
    forall id, step: nat :: (id, step) in s.claims <==> id in s.rows && 1 <= step <= s.rows[id].escalationStep
  }

  ghost predicate Inv(ps: Policies, s: State) {
    && T.UniqueActive(s.rows)
    && ClaimsMatchSteps(s)
    && (forall id, step: nat | (id, step) in s.claims :: ClaimOk(ps, s, id, step))
    && (forall w | w in s.workers :: WorkerOk(ps, s, w, s.workers[w]))
    && NoDuplicates(s.sent)
    && (forall x | x in s.sent :: x in s.claims && s.claims[x].covered)
  }

  lemma MayTakeLater(ps: Policies, team: Uuid, elapsed: int, later: int, step: nat)
    requires MayTake(ps, team, elapsed, step) && elapsed <= later
    ensures MayTake(ps, team, later, step)
  {
  }

  /** Clock and rows move on: what workers hold stays true. */
  lemma WorkerStaysOk(ps: Policies, s: State, t: State, w: nat, worker: Worker)
    requires WorkerOk(ps, s, w, worker)
    requires s.clock <= t.clock && s.sent == t.sent
    requires forall id | id in s.rows ::
      id in t.rows && t.rows[id].team == s.rows[id].team && t.rows[id].firedAt == s.rows[id].firedAt
    requires forall x | x in s.claims :: x in t.claims && t.claims[x] == s.claims[x]
    ensures WorkerOk(ps, t, w, worker)
  {
    if worker.Deciding? {
      MayTakeLater(ps, worker.taken.team,
        s.clock - worker.taken.firedAt, t.clock - worker.taken.firedAt, worker.taken.step + 1);
    }
  }

  lemma ClaimKeeps(ps: Policies, s: State, w: nat)
    requires Inv(ps, s) && Enabled(s, TryClaim(w, false))
    requires T.CanIncrement(s.rows, s.workers[w].taken.team, s.workers[w].taken.id, s.workers[w].taken.step)
    ensures Inv(ps, Apply(ps, s, TryClaim(w, false)))
    ensures (s.workers[w].taken.id, s.workers[w].taken.step + 1) !in s.claims
  {
    var t := Apply(ps, s, TryClaim(w, false));
    var taken := s.workers[w].taken;
    T.StatementKeepsUnique(s.rows, CompareAndSet(taken));
    T.OnlyIncrementMovesSteps(s.rows, CompareAndSet(taken));
    forall v | v in t.workers ensures WorkerOk(ps, t, v, t.workers[v]) {
      if v != w {
        WorkerStaysOk(ps, s, t, v, s.workers[v]);
      }
    }
  }

  lemma ClientKeeps(ps: Policies, s: State, statement: T.Statement)
    requires Inv(ps, s) && Enabled(s, Client(statement))
    ensures Inv(ps, Apply(ps, s, Client(statement)))
  {
    var t := Apply(ps, s, Client(statement));
    T.StatementKeepsUnique(s.rows, statement);
    T.OnlyIncrementMovesSteps(s.rows, statement);
    forall v | v in t.workers ensures WorkerOk(ps, t, v, t.workers[v]) {
      WorkerStaysOk(ps, s, t, v, s.workers[v]);
    }
  }

  lemma TickKeeps(ps: Policies, s: State, to: int)
    requires Inv(ps, s) && s.clock <= to
    ensures Inv(ps, s.(clock := to))
  {
    var t := s.(clock := to);
    forall v | v in t.workers ensures WorkerOk(ps, t, v, t.workers[v]) {
      WorkerStaysOk(ps, s, t, v, s.workers[v]);
    }
    forall id, step: nat | (id, step) in t.claims ensures ClaimOk(ps, t, id, step) {
      assert ClaimOk(ps, s, id, step);
    }
  }

  lemma SendKeeps(ps: Policies, s: State, w: nat)
    requires Inv(ps, s) && Enabled(s, Send(w))
    ensures Inv(ps, Apply(ps, s, Send(w)))
  {
    var t := Apply(ps, s, Send(w));
    assert WorkerOk(ps, s, w, s.workers[w]);
    forall id, step: nat | (id, step) in t.claims ensures ClaimOk(ps, t, id, step) {
      assert ClaimOk(ps, s, id, step);
    }
    forall v | v in t.workers ensures WorkerOk(ps, t, v, t.workers[v]) {
      assert WorkerOk(ps, s, v, s.workers[v]);
    }
  }

  lemma NextKeeps(ps: Policies, s: State, t: State)
    requires Inv(ps, s) && Next(ps, s, t)
    ensures Inv(ps, t)
  {
    hide Inv;
    var a :| Enabled(s, a) && t == Apply(ps, s, a);
    match a {
      case Tick(to) => TickKeeps(ps, s, to);
      case Client(statement) => ClientKeeps(ps, s, statement);
      case TryClaim(w, fails) =>
        if !fails && T.CanIncrement(s.rows, s.workers[w].taken.team, s.workers[w].taken.id, s.workers[w].taken.step) {
          ClaimKeeps(ps, s, w);
        } else {
          WorkerMoves(ps, s, a);
        }
      case Send(w) => SendKeeps(ps, s, w);
      case _ => WorkerMoves(ps, s, a);
    }
  }

  lemma WorkerMoves(ps: Policies, s: State, a: Action)
    requires Inv(ps, s) && Enabled(s, a)
    requires a.Start? || a.Crash? || a.Poll? || a.Evaluate? || a.TryClaim?
    requires a.TryClaim? ==>
      a.fails || !T.CanIncrement(s.rows, s.workers[a.w].taken.team, s.workers[a.w].taken.id, s.workers[a.w].taken.step)
    ensures Inv(ps, Apply(ps, s, a))
  {
    WorkersOnly(ps, s, Apply(ps, s, a));
  }

  /** Steps that change nothing but a worker's own state. */
  lemma WorkersOnly(ps: Policies, s: State, t: State)
    requires Inv(ps, s) && t == s.(workers := t.workers, lost := t.lost)
    requires forall w | w in t.workers && (w !in s.workers || s.workers[w] != t.workers[w]) ::
      WorkerOk(ps, s, w, t.workers[w])
    ensures Inv(ps, t)
  {
    forall id, step: nat | (id, step) in t.claims ensures ClaimOk(ps, t, id, step) {
      assert ClaimOk(ps, s, id, step);
    }
    forall w | w in t.workers ensures WorkerOk(ps, t, w, t.workers[w]) {
      assert WorkerOk(ps, s, w, t.workers[w]);
      WorkerStaysOk(ps, s, t, w, t.workers[w]);
    }
  }

  lemma {:induction false} InvHolds(ps: Policies, run: seq<State>, i: nat)
    requires IsRun(ps, run) && i < |run|
    ensures Inv(ps, run[i])
  {
    hide Next;
    if i > 0 {
      InvHolds(ps, run, i - 1);
      NextKeeps(ps, run[i - 1], run[i]);
    }
  }

  // ---- safety over whole runs ---------------------------------------------------------

  /** Time, steps and claims only grow; a claim once made never changes. */
  ghost predicate Grows(s: State, t: State) {
    && s.clock <= t.clock
    && (forall id | id in s.rows :: id in t.rows && s.rows[id].escalationStep <= t.rows[id].escalationStep)
    && (forall x | x in s.claims :: x in t.claims && t.claims[x] == s.claims[x])
  }

  /** A new claim moves an open row by exactly one. */
  lemma NextGrows(ps: Policies, s: State, t: State)
    requires Inv(ps, s) && Next(ps, s, t)
    ensures Grows(s, t)
    ensures forall id, step: nat | (id, step) in t.claims && (id, step) !in s.claims ::
      && id in s.rows && s.rows[id].status.Open?
      && s.rows[id].escalationStep == step - 1
      && t.rows[id].escalationStep == step
      && t.claims[(id, step)].at == s.clock
  {
    hide WorkerOk, ClaimOk, T.After, T.Execute, T.UniqueActive;
    var a :| Enabled(s, a) && t == Apply(ps, s, a);
    match a {
      case Client(statement) => T.OnlyIncrementMovesSteps(s.rows, statement);
      case TryClaim(w, fails) =>
        var taken := s.workers[w].taken;
        T.OnlyIncrementMovesSteps(s.rows, CompareAndSet(taken));
      case _ =>
    }
  }

  lemma GrowsOn(r: State, s: State, t: State)
    requires Grows(r, s) && Grows(s, t)
    ensures Grows(r, t)
  {
  }

  /**
   * escalation_step never decreases, and a step's claim, once made, is the only one there will ever
   * be: its worker, time and coverage never change.
   */
  lemma {:induction false} ClaimsAreForever(ps: Policies, run: seq<State>, i: nat, k: nat)
    requires IsRun(ps, run) && i <= k < |run|
    ensures Grows(run[i], run[k])
  {
    hide Next, Inv;
    if i < k {
      ClaimsAreForever(ps, run, i, k - 1);
      InvHolds(ps, run, k - 1);
      NextGrows(ps, run[k - 1], run[k]);
      GrowsOn(run[i], run[k - 1], run[k]);
    }
  }

  /** No step is taken early, under any policy: each was due when it was claimed, so it is due now. */
  lemma TakenStepsWereDue(ps: Policies, run: seq<State>, i: nat, id: Uuid, step: nat)
    requires IsRun(ps, run) && i < |run|
    requires id in run[i].rows && 1 <= step <= run[i].rows[id].escalationStep
    ensures
      var row := run[i].rows[id];
      HasSteps(ps, row.team) && Eligible(ps[row.team], run[i].clock - row.firedAt, step)
  {
    InvHolds(ps, run, i);
    assert ClaimOk(ps, run[i], id, step);
    MayTakeLater(ps, run[i].rows[id].team,
      run[i].claims[(id, step)].at - run[i].rows[id].firedAt, run[i].clock - run[i].rows[id].firedAt, step);
  }

  /** The steps an incident was notified for. */
  function StepsSent(sent: seq<(Uuid, nat)>, id: Uuid): seq<nat> {
    if sent == [] then []
    else StepsSent(sent[..|sent| - 1], id) + if sent[|sent| - 1].0 == id then [sent[|sent| - 1].1] else []
  }

  lemma {:induction false} StepsSentDistinct(sent: seq<(Uuid, nat)>, id: Uuid)
    requires NoDuplicates(sent)
    ensures NoDuplicates(StepsSent(sent, id))
    ensures forall step: nat :: step in StepsSent(sent, id) <==> (id, step) in sent
  {
    if sent != [] {
      StepsSentDistinct(sent[..|sent| - 1], id);
    }
  }

  /**
   * An incident is notified at most once per step, so at most escalation_step times; under a limited
   * policy that is at most N - 1 times without repeats and N * (MaxRepeats + 1) - 1 times with them.
   */
  lemma NotificationsBounded(ps: Policies, run: seq<State>, i: nat, id: Uuid)
    requires IsRun(ps, run) && i < |run| && id in run[i].rows
    ensures NoDuplicates(StepsSent(run[i].sent, id))
    ensures |StepsSent(run[i].sent, id)| <= run[i].rows[id].escalationStep
    ensures run[i].rows[id].escalationStep > 0 ==>
      && HasSteps(ps, run[i].rows[id].team)
      && var p := ps[run[i].rows[id].team];
         !Unlimited(p) ==> run[i].rows[id].escalationStep <= LastStep(p)
  {
    InvHolds(ps, run, i);
    var s := run[i];
    var step := s.rows[id].escalationStep;
    StepsSentDistinct(s.sent, id);
    DistinctSize(StepsSent(s.sent, id));
    SubsetSize(Elements(StepsSent(s.sent, id)), UpTo(step));
    if step > 0 {
      assert ClaimOk(ps, s, id, step);
      LimitExactly(ps[s.rows[id].team], step);
    }
  }

  // ---- no covered step is forgotten ---------------------------------------------------------

  ghost predicate IsSending(s: State, x: (Uuid, nat))
    requires x in s.claims
  {
    s.claims[x].worker in s.workers && x in InHand(s.workers[s.claims[x].worker])
  }

  /** A covered claim is notified, in its worker's hand, or lost in a crash: exactly one of the three. */
  ghost predicate Accounted(s: State) {
    && (forall x | x in s.claims && s.claims[x].covered :: x in s.sent || x in s.lost || IsSending(s, x))
    && (forall x | x in s.lost :: x in s.claims && s.claims[x].covered && x !in s.sent)
    && (forall w, x | w in s.workers && x in InHand(s.workers[w]) :: x !in s.lost && x !in s.sent)
  }

  lemma CrashAccounts(ps: Policies, s: State, w: nat)
    requires Inv(ps, s) && Accounted(s) && Enabled(s, Crash(w))
    ensures Accounted(Apply(ps, s, Crash(w)))
  {
    var t := Apply(ps, s, Crash(w));
    assert WorkerOk(ps, s, w, s.workers[w]);
    forall v, x | v in t.workers && x in InHand(t.workers[v]) ensures x !in t.lost {
      assert WorkerOk(ps, s, v, s.workers[v]);
    }
  }

  lemma ClaimAccounts(ps: Policies, s: State, w: nat)
    requires Inv(ps, s) && Accounted(s) && Enabled(s, TryClaim(w, false))
    requires T.CanIncrement(s.rows, s.workers[w].taken.team, s.workers[w].taken.id, s.workers[w].taken.step)
    ensures Accounted(Apply(ps, s, TryClaim(w, false)))
  {
    ClaimKeeps(ps, s, w);
    var t := Apply(ps, s, TryClaim(w, false));
    var taken := s.workers[w].taken;
    var x := (taken.id, taken.step + 1);
    assert t.claims == s.claims[x := Claim(w, s.clock, s.workers[w].covered)];
    assert x !in s.claims && t.sent == s.sent && t.lost == s.lost;
    hide Inv, ClaimsMatchSteps, T.After, Apply, Enabled;
  }

  lemma SendAccounts(ps: Policies, s: State, w: nat)
    requires Inv(ps, s) && Accounted(s) && Enabled(s, Send(w))
    ensures Accounted(Apply(ps, s, Send(w)))
  {
    var t := Apply(ps, s, Send(w));
    var x := (s.workers[w].id, s.workers[w].step);
    assert t.sent == s.sent + [x];
    assert WorkerOk(ps, s, w, s.workers[w]);
    forall v | v in t.workers && v != w ensures x !in InHand(t.workers[v]) {
      assert WorkerOk(ps, s, v, s.workers[v]);
    }
  }

  lemma AccountedKeeps(ps: Policies, s: State, t: State)
    requires Inv(ps, s) && Accounted(s) && Next(ps, s, t)
    ensures Accounted(t)
  {
    hide Inv, T.After;
    var a :| Enabled(s, a) && t == Apply(ps, s, a);
    match a {
      case Crash(w) => CrashAccounts(ps, s, w);
      case TryClaim(w, fails) =>
        if !fails && T.CanIncrement(s.rows, s.workers[w].taken.team, s.workers[w].taken.id, s.workers[w].taken.step) {
          ClaimAccounts(ps, s, w);
        }
      case Send(w) => SendAccounts(ps, s, w);
      case _ =>
    }
  }

  lemma {:induction false} AllAccounted(ps: Policies, run: seq<State>, i: nat)
    requires IsRun(ps, run) && i < |run|
    ensures Accounted(run[i])
  {
    hide Next, Inv;
    if i > 0 {
      AllAccounted(ps, run, i - 1);
      InvHolds(ps, run, i - 1);
      AccountedKeeps(ps, run[i - 1], run[i]);
    }
  }

  /** A step is lost only when the worker that has it in hand crashes. */
  lemma LostByCrash(ps: Policies, s: State, t: State, x: (Uuid, nat))
    requires Next(ps, s, t) && x in t.lost && x !in s.lost
    ensures exists w :: w in s.workers && w !in t.workers && x in InHand(s.workers[w])
  {
    var a :| Enabled(s, a) && t == Apply(ps, s, a);
    assert a.Crash? && a.w in s.workers && a.w !in t.workers && x in InHand(s.workers[a.w]);
  }

  /** When no worker has a step in hand, the covered steps not lost have been notified, each exactly once. */
  lemma CoveredStepsNotified(ps: Policies, run: seq<State>, i: nat)
    requires IsRun(ps, run) && i < |run|
    requires forall w | w in run[i].workers :: InHand(run[i].workers[w]) == {}
    ensures NoDuplicates(run[i].sent)
    ensures forall x | x in run[i].claims && run[i].claims[x].covered :: x in run[i].sent <==> x !in run[i].lost
    ensures forall x | x in run[i].sent :: x in run[i].claims && run[i].claims[x].covered
  {
    InvHolds(ps, run, i);
    AllAccounted(ps, run, i);
  }

  // ---- an acknowledged incident stops escalating --------------------------------------------

  /** A step other than the reopening of an incident. */
  ghost predicate NextWithoutReopen(ps: Policies, s: State, t: State, id: Uuid) {
    exists a :: Enabled(s, a) && t == Apply(ps, s, a) && !(a.Client? && a.statement.Reopen? && a.statement.id == id)
  }

  lemma ClosedStaysPut(ps: Policies, s: State, t: State, id: Uuid)
    requires Inv(ps, s) && NextWithoutReopen(ps, s, t, id) && id in s.rows && !s.rows[id].status.Open?
    ensures id in t.rows && !t.rows[id].status.Open? && t.rows[id].escalationStep == s.rows[id].escalationStep
  {
    hide T.After, WorkerOk, ClaimOk, T.UniqueActive;
    var a :| Enabled(s, a) && t == Apply(ps, s, a) && !(a.Client? && a.statement.Reopen? && a.statement.id == id);
    if a.Client? {
      T.OnlyReopenOpens(s.rows, a.statement, id);
      T.OnlyIncrementMovesSteps(s.rows, a.statement);
    } else if a.TryClaim? {
      var taken := s.workers[a.w].taken;
      T.OnlyReopenOpens(s.rows, CompareAndSet(taken), id);
      T.OnlyIncrementMovesSteps(s.rows, CompareAndSet(taken));
    }
  }

  /**
   * After a written acknowledgement, and until somebody reopens the incident, its step stays where it was
   * and it stays closed: no worker, however stale its copy, takes another step.
   */
  lemma {:induction false} AcknowledgedStaysPut(ps: Policies, run: seq<State>, a: nat, i: nat, team: Uuid, id: Uuid, user: Uuid, now: int)
    requires IsRun(ps, run) && 0 < a <= i < |run|
    requires run[a] == Apply(ps, run[a - 1], Client(T.Acknowledge(team, id, user, now)))
    requires T.OfTeam(run[a - 1].rows, team, id)
    requires !T.Execute(run[a - 1].rows, T.Acknowledge(team, id, user, now)).Conflict?
    requires forall k | a < k <= i :: NextWithoutReopen(ps, run[k - 1], run[k], id)
    ensures id in run[i].rows && !run[i].rows[id].status.Open?
    ensures run[i].rows[id].escalationStep == run[a - 1].rows[id].escalationStep
    decreases i
  {
    hide T.After, T.Execute, Next, Inv;
    if i == a {
      T.AcknowledgeExactly(run[a - 1].rows, team, id, user, now);
    } else {
      hide Apply;
      AcknowledgedStaysPut(ps, run, a, i - 1, team, id, user, now);
      InvHolds(ps, run, i - 1);
      ClosedStaysPut(ps, run[i - 1], run[i], id);
    }
  }
}
