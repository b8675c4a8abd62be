/**
 * Delayed notifications: any number of workers claim due rows and fire them, while acknowledgements
 * change the incident and, in a second statement that may be lost, cancel its rows.
 */
module Notifications {
  import opened Common
  import opened NotificationTable
  import T = IncidentTable

  datatype Worker =
    | Working(queue: seq<Uuid>)
    /** The status read at time read found the incident open: about to fire. */
    | Ready(id: Uuid, read: nat, queue: seq<Uuid>)
    /** Fired or given up: about to mark the row sent once more. */
    | Consuming(id: Uuid, queue: seq<Uuid>)

  datatype Claim = Claim(worker: nat, time: nat)

  datatype Firing = Firing(id: Uuid, read: nat, time: nat)

  /** time counts the steps taken, so it is the state's place in its run; clock is now(). */
  datatype State = State(
    incidents: T.Rows, rows: Rows, workers: map<nat, Worker>, clock: int, time: nat,
    claims: map<Uuid, Claim>, fired: seq<Firing>)

  datatype Action =
    | Tick(to: int)
    | Client(statement: T.Statement)
    | Queue(id: Uuid, incident: Uuid, delay: int)
    | Cancel(incident: Uuid)
    | Start(w: nat)
    | Crash(w: nat)
    | TakeDue(w: nat, ids: seq<Uuid>)
    | ReadStatus(w: nat, fails: bool, userFound: bool)
    | Fire(w: nat)
    | Mark(w: nat, fails: bool)

  ghost predicate Enabled(s: State, a: Action) {
    match a
    case Tick(to) => to >= s.clock
    case Client(_) => true
    case Queue(id, incident, delay) => id !in s.rows && incident in s.incidents && delay != 0
    case Cancel(_) => true
    case Start(w) => w !in s.workers
    case Crash(w) => w in s.workers
    case TakeDue(w, ids) => w in s.workers && s.workers[w] == Working([]) && MayClaim(s.rows, s.clock, ids)
    case ReadStatus(w, _, _) =>
      w in s.workers && s.workers[w].Working? && s.workers[w].queue != [] && s.workers[w].queue[0] in s.rows
    case Fire(w) => w in s.workers && s.workers[w].Ready?
    case Mark(w, _) => w in s.workers && s.workers[w].Consuming?
  }

  ghost function Apply(s: State, a: Action): State
    requires Enabled(s, a)
  {
    var t := s.(time := s.time + 1);
    match a
    case Tick(to) => t.(clock := to)
    case Client(statement) => t.(incidents := T.After(s.incidents, statement))
    case Queue(id, incident, delay) => t.(rows := s.rows[id := Row(incident, s.clock + delay, None, None)])
    case Cancel(incident) => t.(rows := Cancelled(s.rows, incident, s.clock))
    case Start(w) => t.(workers := s.workers[w := Working([])])
    case Crash(w) => t.(workers := s.workers - {w})
    case TakeDue(w, ids) =>
      t.(rows := Claimed(s.rows, ids, s.clock),
         workers := s.workers[w := Working(ids)],
         claims := s.claims + map id | id in ids :: Claim(w, s.time))
    case ReadStatus(w, fails, userFound) =>
      var id, queue := s.workers[w].queue[0], s.workers[w].queue[1..];
      var next := if !fails && userFound && T.IsOpen(s.incidents, s.rows[id].incident)
        then Ready(id, s.time, queue)
        else Consuming(id, queue);
      t.(workers := s.workers[w := next])
    case Fire(w) =>
      var Ready(id, read, queue) := s.workers[w];
      t.(workers := s.workers[w := Consuming(id, queue)], fired := s.fired + [Firing(id, read, s.time)])
    case Mark(w, fails) =>
      var Consuming(id, queue) := s.workers[w];
      t.(workers := s.workers[w := Working(queue)],
         rows := if fails then s.rows else MarkedSent(s.rows, id, s.clock))
  }

  ghost predicate Next(s: State, t: State) {
    exists a :: Enabled(s, a) && t == Apply(s, a)
  }

  ghost predicate Init(s: State) {
    s.incidents == map[] && s.rows == map[] && s.workers == map[] && s.time == 0 && s.claims == map[] && s.fired == []
  }

  ghost predicate IsRun(run: seq<State>) {
    && |run| > 0
    && Init(run[0])
    && forall i | 0 < i < |run| :: Next(run[i - 1], run[i])
  }

  // ---- the invariant ------------------------------------------------------------

  ghost predicate HasFired(s: State, id: Uuid) {
    exists f :: f in s.fired && f.id == id
  }

  /** A row that worker w claimed and has not fired. */
  ghost predicate Held(s: State, w: nat, id: Uuid) {
    id in s.claims && s.claims[id].worker == w && !HasFired(s, id)
  }

  ghost predicate WorkerOk(s: State, w: nat, worker: Worker) {
    && NoDuplicates(worker.queue)
    && (forall id | id in worker.queue :: Held(s, w, id))
    && match worker
       case Working(_) => true
       case Ready(id, read, queue) => Held(s, w, id) && id !in queue && s.claims[id].time < read < s.time
       case Consuming(id, queue) => id in s.claims && id !in queue
  }

  ghost predicate Inv(s: State) {
    && Exclusive(s.rows)
    && (forall id :: id in s.claims <==> id in s.rows && s.rows[id].sentAt.Some?)
    && (forall id | id in s.claims :: s.claims[id].time < s.time)
    && (forall w | w in s.workers :: WorkerOk(s, w, s.workers[w]))
    && (forall i, j | 0 <= i < j < |s.fired| :: s.fired[i].id != s.fired[j].id)
    && (forall f | f in s.fired :: f.id in s.claims && s.claims[f.id].time < f.read < f.time < s.time)
  }

  lemma {:induction false} InvHolds(run: seq<State>, i: nat)
    requires IsRun(run) && i < |run|
    ensures Inv(run[i]) && run[i].time == i
  {
    hide Next;
    if i > 0 {
      InvHolds(run, i - 1);
      NextKeeps(run[i - 1], run[i]);
    }
  }

  lemma NextKeeps(s: State, t: State)
    requires Inv(s) && Next(s, t)
    ensures Inv(t) && t.time == s.time + 1
  {
    var a :| Enabled(s, a) && t == Apply(s, a);
    TablesKeep(s, a);
    FiringsKeep(s, a);
    forall w | w in t.workers ensures WorkerOk(t, w, t.workers[w]) {
      WorkersKeep(s, a, w);
    }
  }

  lemma TablesKeep(s: State, a: Action)
    requires Inv(s) && Enabled(s, a)
    ensures
      var t := Apply(s, a);
      && Exclusive(t.rows)
      && (forall id :: id in t.claims <==> id in t.rows && t.rows[id].sentAt.Some?)
      && (forall id | id in t.claims :: t.claims[id].time < t.time)
      && (forall id | id in s.claims :: id in t.claims && t.claims[id] == s.claims[id])
  {
    if a.Mark? {
      assert WorkerOk(s, a.w, s.workers[a.w]);
    }
  }

  lemma FiringsKeep(s: State, a: Action)
    requires Inv(s) && Enabled(s, a)
    ensures
      var t := Apply(s, a);
      && (forall i, j | 0 <= i < j < |t.fired| :: t.fired[i].id != t.fired[j].id)
      && (forall f | f in t.fired :: f.id in t.claims && t.claims[f.id].time < f.read < f.time < t.time)
  {
    if a.Fire? {
      assert WorkerOk(s, a.w, s.workers[a.w]);
      forall f | f in s.fired ensures f.id != s.workers[a.w].id {
        assert HasFired(s, f.id);
      }
    }
  }

  /** A step releases the row it fires, and no other. */
  lemma HeldStays(s: State, a: Action, v: nat, id: Uuid)
    requires Inv(s) && Enabled(s, a) && Held(s, v, id)
    requires a.Fire? ==> id != s.workers[a.w].id
    ensures Held(Apply(s, a), v, id)
  {
    TablesKeep(s, a);
  }

  lemma TakeDueKeeps(s: State, a: Action)
    requires Inv(s) && Enabled(s, a) && a.TakeDue?
    ensures WorkerOk(Apply(s, a), a.w, Apply(s, a).workers[a.w])
  {
    forall id | id in a.ids ensures Held(Apply(s, a), a.w, id) {
      assert Due(s.rows, s.clock, id);
    }
  }

  lemma QueueKeeps(s: State, a: Action, w: nat, queue: seq<Uuid>)
    requires Inv(s) && Enabled(s, a)
    requires forall id | id in queue :: Held(s, w, id) && (a.Fire? ==> id != s.workers[a.w].id)
    ensures forall id | id in queue :: Held(Apply(s, a), w, id)
  {
    hide Inv, Apply, Enabled, Held;
    forall id | id in queue ensures Held(Apply(s, a), w, id) {
      HeldStays(s, a, w, id);
    }
  }

  /** A worker that does not move keeps its rows, since only their holder may fire them. */
  lemma UnmovedKeeps(s: State, a: Action, w: nat)
    requires Inv(s) && Enabled(s, a) && w in s.workers && w in Apply(s, a).workers
    requires Apply(s, a).workers[w] == s.workers[w] && !(a.Fire? && a.w == w)
    ensures WorkerOk(Apply(s, a), w, s.workers[w])
  {
    assert WorkerOk(s, w, s.workers[w]);
    if a.Fire? {
      assert WorkerOk(s, a.w, s.workers[a.w]);
    }
    TablesKeep(s, a);
    var t := Apply(s, a);
    assert t.time == s.time + 1;
    hide Apply, Enabled, Exclusive;
    QueueKeeps(s, a, w, s.workers[w].queue);
    if s.workers[w].Ready? {
      QueueKeeps(s, a, w, [s.workers[w].id]);
      assert s.workers[w].id in [s.workers[w].id];
    }
  }

  lemma MovedKeeps(s: State, a: Action)
    requires Inv(s) && Enabled(s, a) && (a.ReadStatus? || a.Fire? || a.Mark?)
    ensures WorkerOk(Apply(s, a), a.w, Apply(s, a).workers[a.w])
  {
    var worker, next := s.workers[a.w], Apply(s, a).workers[a.w];
    assert WorkerOk(s, a.w, worker);
    QueueKeeps(s, a, a.w, next.queue);
    TablesKeep(s, a);
    if a.ReadStatus? {
      assert worker.queue[0] in worker.queue;
      QueueKeeps(s, a, a.w, [worker.queue[0]]);
      assert worker.queue[0] in [worker.queue[0]];
    }
  }

  lemma WorkersKeep(s: State, a: Action, w: nat)
    requires Inv(s) && Enabled(s, a) && w in Apply(s, a).workers
    ensures WorkerOk(Apply(s, a), w, Apply(s, a).workers[w])
  {
    hide Inv, WorkerOk;
    if a.Start? && a.w == w {
      FreshWorker(Apply(s, a), w);
    } else if a.TakeDue? && a.w == w {
      TakeDueKeeps(s, a);
    } else if (a.ReadStatus? || a.Fire? || a.Mark?) && a.w == w {
      MovedKeeps(s, a);
    } else {
      UnmovedKeeps(s, a, w);
    }
  }

  lemma FreshWorker(s: State, w: nat)
    ensures WorkerOk(s, w, Working([]))
  {
  }

  // ---- safety over whole runs ---------------------------------------------------------

  /** What a step never undoes: rows keep incident, schedule and cancellation, claims and firings stay. */
  ghost predicate Grows(s: State, t: State) {
    && s.clock <= t.clock
    && (forall id | id in s.rows ::
          && id in t.rows
          && t.rows[id].incident == s.rows[id].incident
          && t.rows[id].scheduledAt == s.rows[id].scheduledAt
          && (s.rows[id].cancelledAt.Some? ==> t.rows[id].cancelledAt == s.rows[id].cancelledAt))
    && (forall id | id in s.claims :: id in t.claims && t.claims[id] == s.claims[id])
    && s.fired <= t.fired
  }

  lemma NextGrows(s: State, t: State)
    requires Inv(s) && Next(s, t)
    ensures Grows(s, t)
  {
    hide Inv, WorkerOk;
    var a :| Enabled(s, a) && t == Apply(s, a);
    hide Apply, Enabled;
    TablesKeep(s, a);
    RowsStay(s, a);
  }

  lemma RowsStay(s: State, a: Action)
    requires Enabled(s, a)
    ensures
      var t := Apply(s, a);
      && s.clock <= t.clock
      && (forall id | id in s.rows ::
            && id in t.rows
            && t.rows[id].incident == s.rows[id].incident
            && t.rows[id].scheduledAt == s.rows[id].scheduledAt
            && (s.rows[id].cancelledAt.Some? ==> t.rows[id].cancelledAt == s.rows[id].cancelledAt))
      && s.fired <= t.fired
  {
  }

  lemma NewClaimsAreDue(s: State, t: State, id: Uuid)
    requires Inv(s) && Next(s, t) && id in t.claims && id !in s.claims
    ensures Due(s.rows, s.clock, id) && t.claims[id].time == s.time
  {
  }

  /** A firing is the step of a worker whose status read found the incident open. */
  lemma NewFiringsWereReady(s: State, t: State, f: Firing) returns (w: nat)
    requires Next(s, t) && f in t.fired && f !in s.fired
    ensures f.time == s.time
    ensures w in s.workers && s.workers[w].Ready? && s.workers[w].id == f.id && s.workers[w].read == f.read
  {
    hide T.After, Claimed, MarkedSent, Cancelled, MayClaim;
    var a :| Enabled(s, a) && t == Apply(s, a);
    w := a.w;
  }

  lemma NewReadyMeansOpen(s: State, t: State, w: nat)
    requires Next(s, t) && w in t.workers && t.workers[w].Ready?
    requires !(w in s.workers && s.workers[w] == t.workers[w])
    ensures
      var ready := t.workers[w];
      ready.read == s.time && ready.id in s.rows && T.IsOpen(s.incidents, s.rows[ready.id].incident)
  {
  }

  lemma GrowsOn(r: State, s: State, t: State)
    requires Grows(r, s) && Grows(s, t)
    ensures Grows(r, t)
  {
  }

  /** Claims are for ever: a row's claimant never changes, so no second worker ever claims it. */
  lemma {:induction false} ClaimsAreForever(run: seq<State>, i: nat, k: nat)
    requires IsRun(run) && i <= k < |run|
    ensures Grows(run[i], run[k])
  {
    hide Next, Inv;
    if i < k {
      ClaimsAreForever(run, i, k - 1);
      InvHolds(run, k - 1);
      NextGrows(run[k - 1], run[k]);
      GrowsOn(run[i], run[k - 1], run[k]);
    }
  }

  /** The row was due, and still waiting, in the state in which it was claimed. */
  ghost predicate ClaimedWhenDue(run: seq<State>, id: Uuid, time: nat) {
    time < |run| && Due(run[time].rows, run[time].clock, id)
  }

  lemma {:induction false} ClaimsWereDue(run: seq<State>, i: nat, id: Uuid)
    requires IsRun(run) && i < |run| && id in run[i].claims
    ensures ClaimedWhenDue(run, id, run[i].claims[id].time)
  {
    hide Next;
    if i > 0 {
      InvHolds(run, i - 1);
      if id in run[i - 1].claims {
        NextGrows(run[i - 1], run[i]);
        ClaimsWereDue(run, i - 1, id);
      } else {
        NewClaimsAreDue(run[i - 1], run[i], id);
      }
    }
  }

  /** The incident of the row was open in the state in which a worker read its status. */
  ghost predicate ReadOpen(run: seq<State>, id: Uuid, time: nat) {
    time < |run| && id in run[time].rows && T.IsOpen(run[time].incidents, run[time].rows[id].incident)
  }

  lemma {:induction false} ReadyMeansOpen(run: seq<State>, i: nat, w: nat)
    requires IsRun(run) && i < |run| && w in run[i].workers && run[i].workers[w].Ready?
    ensures ReadOpen(run, run[i].workers[w].id, run[i].workers[w].read)
  {
    hide Next;
    if i > 0 {
      InvHolds(run, i - 1);
      if w in run[i - 1].workers && run[i - 1].workers[w] == run[i].workers[w] {
        ReadyMeansOpen(run, i - 1, w);
      } else {
        NewReadyMeansOpen(run[i - 1], run[i], w);
      }
    }
  }

  lemma {:induction false} FiringsWereOpen(run: seq<State>, i: nat, f: Firing)
    requires IsRun(run) && i < |run| && f in run[i].fired
    ensures ReadOpen(run, f.id, f.read)
  {
    hide Next, ReadOpen;
    if i > 0 {
      InvHolds(run, i - 1);
      if f in run[i - 1].fired {
        FiringsWereOpen(run, i - 1, f);
      } else {
        var w := NewFiringsWereReady(run[i - 1], run[i], f);
        ReadyMeansOpen(run, i - 1, w);
      }
    }
  }

  /**
   * A row fires at most once, after it was claimed and after its status was read, and never before
   * its scheduled time; and no row is ever both sent and cancelled.
   */
  lemma FiresOnceAndInTime(run: seq<State>, i: nat, f: Firing)
    requires IsRun(run) && i < |run| && f in run[i].fired
    ensures f.id in run[i].rows && f.id in run[i].claims
    ensures run[i].claims[f.id].time < f.read < f.time < i
    ensures run[f.time].clock >= run[i].rows[f.id].scheduledAt
    ensures forall g | g in run[i].fired && g.id == f.id :: g == f
    ensures Exclusive(run[i].rows)
  {
    InvHolds(run, i);
    var c := run[i].claims[f.id].time;
    ClaimsWereDue(run, i, f.id);
    ClaimsAreForever(run, c, f.time);
    ClaimsAreForever(run, c, i);
  }

  /**
   * An acknowledged incident stays silent: if it is not open from place a of the run on, every
   * firing for it rests on a status read before a, whether or not the cancelling statement ran.
   */
  lemma AckSilences(run: seq<State>, a: nat, i: nat, f: Firing)
    requires IsRun(run) && a <= i < |run| && f in run[i].fired && f.id in run[i].rows
    requires forall k | a <= k <= i :: !T.IsOpen(run[k].incidents, run[i].rows[f.id].incident)
    ensures f.read < a
  {
    FiringsWereOpen(run, i, f);
    FiresOnceAndInTime(run, i, f);
    ClaimsAreForever(run, f.read, i);
  }

  // ---- which waiting rows can still fire --------------------------------------------------

  /** path is a way the system may go on from s. */
  ghost predicate Continues(s: State, path: seq<State>) {
    && |path| > 0
    && path[0] == s
    && forall i | 0 < i < |path| :: Next(path[i - 1], path[i])
  }

  ghost predicate FiresOn(s: State, path: seq<State>, id: Uuid) {
    Continues(s, path) && HasFired(path[|path| - 1], id)
  }

  lemma {:induction false} ContinuationKeeps(s: State, path: seq<State>, i: nat)
    requires Inv(s) && Continues(s, path) && i < |path|
    ensures Inv(path[i]) && Grows(s, path[i])
  {
    hide Inv, Next;
    if i > 0 {
      ContinuationKeeps(s, path, i - 1);
      NextKeeps(path[i - 1], path[i]);
      NextGrows(path[i - 1], path[i]);
      GrowsOn(s, path[i - 1], path[i]);
    }
  }

  /** A cancelled row never fires again, whatever happens later. */
  lemma CancelledNeverFires(s: State, path: seq<State>, id: Uuid)
    requires Inv(s) && Continues(s, path) && id in s.rows && s.rows[id].cancelledAt.Some?
    ensures !HasFired(path[|path| - 1], id)
  {
    hide Next;
    ContinuationKeeps(s, path, |path| - 1);
  }

  /** Every waiting row's incident exists, and the index of the incidents table holds. */
  ghost predicate IncidentsOk(s: State) {
    T.UniqueActive(s.incidents) && forall id | id in s.rows :: s.rows[id].incident in s.incidents
  }

  lemma IncidentsGrow(s: State, a: Action)
    requires T.UniqueActive(s.incidents) && Enabled(s, a)
    ensures T.UniqueActive(Apply(s, a).incidents) && s.incidents.Keys <= Apply(s, a).incidents.Keys
  {
    hide T.UniqueActive, T.After, T.Execute, Claimed, MarkedSent, Cancelled;
    if a.Client? {
      T.StatementKeepsUnique(s.incidents, a.statement);
      T.OnlyIncrementMovesSteps(s.incidents, a.statement);
      assert forall id | id in s.incidents :: id in T.After(s.incidents, a.statement);
    }
  }

  lemma NewRowsNameIncidents(s: State, a: Action)
    requires Enabled(s, a)
    ensures forall id | id in Apply(s, a).rows ::
      if id in s.rows then Apply(s, a).rows[id].incident == s.rows[id].incident
      else Apply(s, a).rows[id].incident in s.incidents
  {
    hide T.After;
  }

  lemma IncidentsKeep(s: State, t: State)
    requires IncidentsOk(s) && Next(s, t)
    ensures IncidentsOk(t)
  {
    hide T.UniqueActive;
    var a :| Enabled(s, a) && t == Apply(s, a);
    hide Apply, Enabled;
    IncidentsGrow(s, a);
    NewRowsNameIncidents(s, a);
  }

  lemma {:induction false} IncidentsAreOk(run: seq<State>, i: nat)
    requires IsRun(run) && i < |run|
    ensures IncidentsOk(run[i])
  {
    hide Next;
    if i > 0 {
      IncidentsAreOk(run, i - 1);
      IncidentsKeep(run[i - 1], run[i]);
    }
  }

  lemma Extend(s: State, path: seq<State>, a: Action) returns (longer: seq<State>)
    requires Continues(s, path) && Enabled(path[|path| - 1], a)
    ensures Continues(s, longer) && longer[|longer| - 1] == Apply(path[|path| - 1], a) && |longer| == |path| + 1
  {
    hide Enabled, Apply;
    longer := path + [Apply(path[|path| - 1], a)];
  }

  /** Whatever became of its incident, a waiting row's incident can be open again, nothing else changed. */
  lemma CanOpenAgain(s: State, id: Uuid) returns (path: seq<State>)
    requires IncidentsOk(s) && id in s.rows
    ensures Continues(s, path)
    ensures
      var t := path[|path| - 1];
      && t == s.(incidents := t.incidents, time := t.time)
      && T.IsOpen(t.incidents, s.rows[id].incident)
  {
    hide T.After, T.Execute, T.UniqueActive;
    var incident := s.rows[id].incident;
    var row := s.incidents[incident];
    var key := if row.fingerprint.Some? then row.fingerprint.value else "";
    T.CanReopen(s.incidents, incident);
    path := Extend(s, [s], Client(T.ResolveByFingerprint(row.team, key, 0)));
    path := Extend(s, path, Client(T.Reopen(row.team, incident)));
  }

  /** A waiting row can be claimed by a new worker once it is due. */
  lemma CanClaim(s: State, before: seq<State>, id: Uuid) returns (path: seq<State>, w: nat)
    requires Continues(s, before)
    requires var t := before[|before| - 1]; id in t.rows && Waiting(t.rows[id])
    ensures Continues(s, path)
    ensures
      var t, u := before[|before| - 1], path[|path| - 1];
      && u.incidents == t.incidents
      && id in u.rows && u.rows[id].incident == t.rows[id].incident
      && w in u.workers && u.workers[w] == Working([id])
  {
    var t := before[|before| - 1];
    w := Above(t.workers.Keys);
    var due := if t.rows[id].scheduledAt > t.clock then t.rows[id].scheduledAt else t.clock;
    path := Extend(s, before, Tick(due));
    path := Extend(s, path, Start(w));
    path := Extend(s, path, TakeDue(w, [id]));
  }

  /** A worker whose next row belongs to an open incident can fire it. */
  lemma CanFireNext(s: State, before: seq<State>, id: Uuid, w: nat) returns (path: seq<State>)
    requires Continues(s, before)
    requires
      var t := before[|before| - 1];
      && id in t.rows && T.IsOpen(t.incidents, t.rows[id].incident)
      && w in t.workers && t.workers[w] == Working([id])
    ensures FiresOn(s, path, id)
  {
    path := Extend(s, before, ReadStatus(w, false, true));
    path := Extend(s, path, Fire(w));
    hide Apply, Enabled, Next;
    var last := path[|path| - 1];
    assert last.fired[|last.fired| - 1].id == id;
  }

  /** A row not sent yet can still fire exactly if it is not cancelled, whatever its incident's status. */
  lemma CanFireExactly(s: State, id: Uuid)
    requires Inv(s) && IncidentsOk(s) && id in s.rows && s.rows[id].sentAt.None?
    ensures (exists path :: FiresOn(s, path, id)) <==> s.rows[id].cancelledAt.None?
  {
    hide Inv, IncidentsOk, HasFired, Next;
    if s.rows[id].cancelledAt.None? {
      var before := CanOpenAgain(s, id);
      var claimed, w := CanClaim(s, before, id);
      var path := CanFireNext(s, claimed, id, w);
      assert FiresOn(s, path, id);
    } else {
      forall path ensures !FiresOn(s, path, id) {
        if FiresOn(s, path, id) {
          CancelledNeverFires(s, path, id);
        }
      }
    }
  }

  /** A claim stays from the step that makes it. */
  lemma {:induction false} ClaimedSince(run: seq<State>, i: nat, id: Uuid, k: nat)
    requires IsRun(run) && i < |run| && id in run[i].claims && run[i].claims[id].time < k <= i
    ensures id in run[k].claims
  {
    hide Next;
    if k < i {
      InvHolds(run, i - 1);
      if id in run[i - 1].claims {
        NextGrows(run[i - 1], run[i]);
        ClaimedSince(run, i - 1, id, k);
      } else {
        NewClaimsAreDue(run[i - 1], run[i], id);
      }
    }
  }

  /**
   * A row that waits at place k of a run was not cancelled there if it fires later, and it fires
   * through a state after k in which its incident is open: so a row left waiting by a resolution fires
   * only after the incident was opened again.
   */
  lemma WaitingFiresWhenOpen(run: seq<State>, k: nat, i: nat, f: Firing)
    requires IsRun(run) && k <= i < |run| && f in run[i].fired
    requires f.id in run[k].rows && run[k].rows[f.id].sentAt.None?
    ensures run[k].rows[f.id].cancelledAt.None?
    ensures k < f.read < i && ReadOpen(run, f.id, f.read)
  {
    hide Next;
    InvHolds(run, k);
    FiresOnceAndInTime(run, i, f);
    FiringsWereOpen(run, i, f);
    if run[i].claims[f.id].time < k {
      ClaimedSince(run, i, f.id, k);
      assert false;
    }
    var path := run[k..i + 1];
    assert Continues(run[k], path) && HasFired(path[|path| - 1], f.id);
    if run[k].rows[f.id].cancelledAt.Some? {
      CancelledNeverFires(run[k], path, f.id);
    }
  }

  lemma JoinedRun(run: seq<State>, path: seq<State>)
    requires IsRun(run) && Continues(run[|run| - 1], path)
    ensures IsRun(run + path[1..]) && (run + path[1..])[|run| + |path| - 2] == path[|path| - 1]
  {
    hide Next, Init;
    var n, joined := |run|, run + path[1..];
    forall i | 0 < i < |joined| ensures Next(joined[i - 1], joined[i]) {
      if i >= n {
        assert joined[i] == path[i - n + 1] && joined[i - 1] == path[i - n];
      }
    }
  }

  /** An incident, a row queued for it, and a resolution. */
  lemma ResolvedRun() returns (run: seq<State>)
    ensures IsRun(run) && |run| == 4
    ensures run[3].incidents.Keys == {1} && run[3].incidents[1].status.Resolved?
    ensures 7 in run[3].rows && run[3].rows[7].incident == 1 && Waiting(run[3].rows[7])
  {
    var s0 := State(map[], map[], map[], 0, 0, map[], []);
    assert Continues(s0, [s0]);
    run := Extend(s0, [s0], Client(T.Create(1, 1, None, 0)));
    run := Extend(s0, run, Queue(7, 1, 5));
    run := Extend(s0, run, Client(T.Resolve(1, 1, 1)));
  }

  /** Resolving does not cancel: a row queued before a resolution waits on, and fires after a reopening. */
  lemma ResolutionDoesNotCancel() returns (run: seq<State>)
    ensures IsRun(run) && |run| > 3
    ensures run[3].incidents.Keys == {1} && run[3].incidents[1].status.Resolved?
    ensures 7 in run[3].rows && run[3].rows[7].incident == 1 && Waiting(run[3].rows[7])
    ensures HasFired(run[|run| - 1], 7)
  {
    hide IsRun, Inv, IncidentsOk, HasFired, Next;
    var resolved := ResolvedRun();
    InvHolds(resolved, 3);
    IncidentsAreOk(resolved, 3);
    CanFireExactly(resolved[3], 7);
    var path :| FiresOn(resolved[3], path, 7);
    JoinedRun(resolved, path);
    run := resolved + path[1..];
  }

  // ---- which steps cancel, and which incidents stay silent ------------------------------------

  /** A step that cancels a row is a cancellation for that row's incident, and the row was waiting. */
  lemma CancelledByItsIncident(s: State, t: State, id: Uuid)
    requires Next(s, t) && id in s.rows && id in t.rows && s.rows[id].cancelledAt.None? && t.rows[id].cancelledAt.Some?
    ensures s.rows[id].sentAt.None? && t.rows[id].cancelledAt == Some(s.clock)
    ensures Enabled(s, Cancel(s.rows[id].incident)) && t == Apply(s, Cancel(s.rows[id].incident))
  {
    hide T.After;
    var a :| Enabled(s, a) && t == Apply(s, a);
    assert a.Cancel?;
    CancelledExactly(s.rows, a.incident, s.clock);
  }

  /** A step other than the reopening of an incident. */
  ghost predicate NextWithoutReopen(s: State, t: State, incident: Uuid) {
    exists a :: Enabled(s, a) && t == Apply(s, a) && !(a.Client? && a.statement.Reopen? && a.statement.id == incident)
  }

  /** From the state after a written acknowledgement to place i of the run nobody reopens the incident. */
  ghost predicate AckedUntil(run: seq<State>, a: nat, i: nat, team: Uuid, incident: Uuid, user: Uuid, now: int) {
    && IsRun(run) && 0 < a <= i < |run|
    && run[a] == Apply(run[a - 1], Client(T.Acknowledge(team, incident, user, now)))
    && T.OfTeam(run[a - 1].incidents, team, incident)
    && !T.Execute(run[a - 1].incidents, T.Acknowledge(team, incident, user, now)).Conflict?
    && forall k | a < k <= i :: NextWithoutReopen(run[k - 1], run[k], incident)
  }

  lemma StaysClosed(s: State, t: State, incident: Uuid)
    requires NextWithoutReopen(s, t, incident)
    requires incident in s.incidents && !s.incidents[incident].status.Open?
    ensures incident in t.incidents && !t.incidents[incident].status.Open?
  {
    hide T.After, Claimed, MarkedSent, Cancelled;
    var a :| Enabled(s, a) && t == Apply(s, a) && !(a.Client? && a.statement.Reopen? && a.statement.id == incident);
    if a.Client? {
      T.OnlyReopenOpens(s.incidents, a.statement, incident);
    }
  }

  lemma AckCloses(s: State, team: Uuid, incident: Uuid, user: Uuid, now: int)
    requires T.OfTeam(s.incidents, team, incident)
    requires !T.Execute(s.incidents, T.Acknowledge(team, incident, user, now)).Conflict?
    ensures
      var t := Apply(s, Client(T.Acknowledge(team, incident, user, now)));
      incident in t.incidents && t.incidents[incident].status.Acknowledged?
  {
    hide T.After, T.Execute;
    T.AcknowledgeExactly(s.incidents, team, incident, user, now);
  }

  lemma {:induction false} AckedStaysClosed(run: seq<State>, a: nat, i: nat, team: Uuid, incident: Uuid, user: Uuid, now: int)
    requires AckedUntil(run, a, i, team, incident, user, now)
    ensures incident in run[i].incidents && !run[i].incidents[incident].status.Open?
    decreases i
  {
    hide T.After, T.Execute, Next, IsRun, Apply, NextWithoutReopen;
    if i == a {
      AckCloses(run[a - 1], team, incident, user, now);
    } else {
      AckedStaysClosed(run, a, i - 1, team, incident, user, now);
      StaysClosed(run[i - 1], run[i], incident);
    }
  }

  /**
   * After a written acknowledgement, and until somebody reopens the incident, no status read leads to a
   * firing: whatever fires for it was read before.
   */
  lemma AcknowledgedStaysSilent(run: seq<State>, a: nat, i: nat, team: Uuid, incident: Uuid, user: Uuid, now: int, f: Firing)
    requires AckedUntil(run, a, i, team, incident, user, now)
    requires f in run[i].fired && f.id in run[i].rows && run[i].rows[f.id].incident == incident
    ensures f.read < a
  {
    hide Next, Apply, T.Execute;
    forall k | a <= k <= i ensures !T.IsOpen(run[k].incidents, incident) {
      AckedStaysClosed(run, a, k, team, incident, user, now);
    }
    AckSilences(run, a, i, f);
  }

  /** A row queued with a delay does not fire before the delay is over. */
  lemma DelayIsKept(run: seq<State>, k: nat, i: nat, id: Uuid, incident: Uuid, delay: int, f: Firing)
    requires IsRun(run) && 0 < k <= i < |run| && f in run[i].fired && f.id == id
    requires Enabled(run[k - 1], Queue(id, incident, delay))
    requires run[k] == Apply(run[k - 1], Queue(id, incident, delay))
    ensures id in run[i].rows && run[i].rows[id].incident == incident
    ensures f.time < |run| && run[f.time].clock >= run[k - 1].clock + delay
  {
    hide Next;
    FiresOnceAndInTime(run, i, f);
    ClaimsAreForever(run, k, i);
  }

  /** A worker goes on to fire exactly if the read succeeds, the incident is open and the user is known; else it gives up. */
  lemma ReadStatusExactly(s: State, w: nat, fails: bool, userFound: bool)
    requires Enabled(s, ReadStatus(w, fails, userFound))
    ensures
      var t := Apply(s, ReadStatus(w, fails, userFound));
      var id := s.workers[w].queue[0];
      var incident := s.rows[id].incident;
      && t.rows == s.rows && t.incidents == s.incidents && t.fired == s.fired && t.workers.Keys == s.workers.Keys
      && (if !fails && userFound && incident in s.incidents && s.incidents[incident].status.Open?
          then t.workers[w] == Ready(id, s.time, s.workers[w].queue[1..])
          else t.workers[w] == Consuming(id, s.workers[w].queue[1..]))
  {
  }

  /** After a cancellation for an incident, none of its rows not sent by then fires in any continuation. */
  lemma CancellationIsFinal(s: State, incident: Uuid, path: seq<State>, id: Uuid)
    requires Inv(s) && id in s.rows && s.rows[id].incident == incident && s.rows[id].sentAt.None?
    requires Enabled(s, Cancel(incident)) && Continues(Apply(s, Cancel(incident)), path)
    ensures !HasFired(path[|path| - 1], id)
  {
    hide Continues, HasFired, WorkerOk;
    var t := Apply(s, Cancel(incident));
    assert Next(s, t);
    NextKeeps(s, t);
    CancelledExactly(s.rows, incident, s.clock);
    assert t.rows[id].cancelledAt.Some?;
    CancelledNeverFires(t, path, id);
  }
}
