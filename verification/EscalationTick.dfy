/**
 * What the protocol does when a worker is left alone: its steps leave the table and the notifications
 * that one tick of the escalation loop promises.
 */
module EscalationTick {
  import opened Common
  import opened EscalationPolicy
  import opened Escalation
  import opened EscalationWorker
  import T = IncidentTable
  import Queries

  /** A step of a worker: time stands still, and no other client runs a statement. */
  ghost predicate WorkerStep(ps: Policies, s: State, t: State) {
    exists a: Action :: !a.Tick? && !a.Client? && Enabled(s, a) && t == Apply(ps, s, a)
  }

  ghost predicate Continues(ps: Policies, s: State, path: seq<State>) {
    && |path| > 0
    && path[0] == s
    && forall i | 0 < i < |path| :: WorkerStep(ps, path[i - 1], path[i])
  }

  function Last(path: seq<State>): State
    requires path != []
  {
    path[|path| - 1]
  }

  lemma Extend(ps: Policies, s: State, path: seq<State>, a: Action) returns (longer: seq<State>)
    requires Continues(ps, s, path) && !a.Tick? && !a.Client? && Enabled(Last(path), a)
    ensures Continues(ps, s, longer) && Last(longer) == Apply(ps, Last(path), a)
  {
    hide Enabled, Apply;
    longer := path + [Apply(ps, Last(path), a)];
  }

  // ---- one incident of a batch ------------------------------------------------------------

  /** The copy's next step is due, allowed, and still to be had. */
  predicate CanMove(ps: Policies, rows: T.Rows, now: int, taken: Snapshot) {
    && MayTake(ps, taken.team, now - taken.firedAt, taken.step + 1)
    && T.CanIncrement(rows, taken.team, taken.id, taken.step)
  }

  /** u is t after worker w dealt with the head of its queue. */
  ghost predicate DealtWithOne(ps: Policies, t: State, u: State, w: nat, onCall: bool)
    requires w in t.workers && t.workers[w].Working? && t.workers[w].queue != []
  {
    var taken := t.workers[w].queue[0];
    var next := (taken.id, taken.step + 1);
    var moved := CanMove(ps, t.rows, t.clock, taken);
    && u.clock == t.clock && u.lost == t.lost
    && u.workers == t.workers[w := Working(t.workers[w].queue[1..])]
    && u.rows == (if moved then T.After(t.rows, CompareAndSet(taken)) else t.rows)
    && u.claims == (if moved then t.claims[next := Claim(w, t.clock, onCall)] else t.claims)
    && u.sent == t.sent + (if moved && onCall then [next] else [])
  }

  lemma OneIncident(ps: Policies, s: State, path: seq<State>, w: nat, onCall: bool) returns (longer: seq<State>)
    requires Continues(ps, s, path)
    requires w in Last(path).workers && Last(path).workers[w].Working? && Last(path).workers[w].queue != []
    ensures Continues(ps, s, longer) && DealtWithOne(ps, Last(path), Last(longer), w, onCall)
  {
    hide MayTake, T.CanIncrement, T.After;
    var t := Last(path);
    var taken := t.workers[w].queue[0];
    longer := Extend(ps, s, path, Evaluate(w, onCall));
    if MayTake(ps, taken.team, t.clock - taken.firedAt, taken.step + 1) {
      longer := ClaimAndSend(ps, s, longer, t, w, onCall);
    }
  }

  lemma ClaimAndSend(ps: Policies, s: State, path: seq<State>, t: State, w: nat, onCall: bool) returns (longer: seq<State>)
    requires Continues(ps, s, path)
    requires w in t.workers && t.workers[w].Working? && t.workers[w].queue != []
    requires
      var taken := t.workers[w].queue[0];
      && MayTake(ps, taken.team, t.clock - taken.firedAt, taken.step + 1)
      && Last(path) == t.(workers := t.workers[w := Deciding(taken, onCall, t.workers[w].queue[1..])])
    ensures Continues(ps, s, longer) && DealtWithOne(ps, t, Last(longer), w, onCall)
  {
    hide MayTake, T.CanIncrement, T.After;
    var taken := t.workers[w].queue[0];
    longer := Extend(ps, s, path, TryClaim(w, false));
    if T.CanIncrement(t.rows, taken.team, taken.id, taken.step) && onCall {
      longer := Extend(ps, s, longer, Send(w));
    }
  }

  // ---- a whole batch -------------------------------------------------------------------------

  /** What is sent for the first incidents of a batch, in order. */
  function SentFor(ps: Policies, now: int, rows: T.Rows, batch: seq<Uuid>, onCall: set<Uuid>): seq<(Uuid, nat)> {
    if batch == [] then []
    else
      var init, id := batch[..|batch| - 1], batch[|batch| - 1];
      SentFor(ps, now, rows, init, onCall)
      + if id in onCall && Moves(ps, now, rows, id) then [(id, rows[id].escalationStep + 1)] else []
  }

  /** The sent list is the tick's set of called incidents, each at the step it was moved to. */
  lemma {:induction false} SentForExactly(ps: Policies, now: int, rows: T.Rows, batch: seq<Uuid>, onCall: set<Uuid>)
    ensures forall id, step: nat ::
      (id, step) in SentFor(ps, now, rows, batch, onCall)
      <==> id in Called(ps, now, rows, Elements(batch), onCall) && step == rows[id].escalationStep + 1
  {
    hide Moves;
    if batch != [] {
      var init, last := batch[..|batch| - 1], batch[|batch| - 1];
      SentForExactly(ps, now, rows, init, onCall);
      assert Elements(batch) == Elements(init) + {last};
      MovesKnown(ps, now, rows);
    }
  }

  lemma {:induction false} NobodySentFor(ps: Policies, now: int, rows: T.Rows, batch: seq<Uuid>)
    ensures SentFor(ps, now, rows, batch, {}) == []
  {
    if batch != [] {
      NobodySentFor(ps, now, rows, batch[..|batch| - 1]);
    }
  }

  lemma MovesKnown(ps: Policies, now: int, rows: T.Rows)
    ensures forall id | Moves(ps, now, rows, id) :: id in rows
  {
  }

  /** Worker w has dealt with the first k incidents of its batch. */
  ghost predicate DealtWith(ps: Policies, s: State, t: State, w: nat, batch: seq<Uuid>, onCall: set<Uuid>, k: nat)
    requires k <= |batch| && forall id | id in batch :: id in s.rows
  {
    && t.clock == s.clock && t.lost == s.lost
    && T.UniqueActive(t.rows)
    && t.rows == Polled(ps, s.clock, s.rows, Elements(batch[..k]))
    && t.sent == s.sent + SentFor(ps, s.clock, s.rows, batch[..k], onCall)
    && |Snaps(s.rows, batch)| == |batch|
    && t.workers == s.workers[w := Working(Snaps(s.rows, batch)[k..])]
  }

  /** The copy taken of an open incident not polled yet is fresh: it can move exactly if the poll moves it. */
  lemma MovedExactly(ps: Policies, now: int, rows: T.Rows, done: set<Uuid>, id: Uuid)
    requires id in rows && rows[id].status.Open? && id !in done && T.UniqueActive(Polled(ps, now, rows, done))
    ensures
      var taken := Snap(rows, id);
      var before := Polled(ps, now, rows, done);
      && (Moves(ps, now, rows, id) <==> CanMove(ps, before, now, taken))
      && Polled(ps, now, rows, done + {id})
         == (if CanMove(ps, before, now, taken) then T.After(before, CompareAndSet(taken)) else before)
      && T.UniqueActive(Polled(ps, now, rows, done + {id}))
  {
    PollOne(ps, now, rows, done, id, {});
    T.StatementKeepsUnique(Polled(ps, now, rows, done), CompareAndSet(Snap(rows, id)));
    hide T.UniqueActive, T.After;
  }

  lemma SentForMore(ps: Policies, now: int, rows: T.Rows, batch: seq<Uuid>, onCall: set<Uuid>, k: nat)
    requires k < |batch|
    ensures SentFor(ps, now, rows, batch[..k + 1], onCall)
         == SentFor(ps, now, rows, batch[..k], onCall)
            + if batch[k] in onCall && Moves(ps, now, rows, batch[k]) then [(batch[k], rows[batch[k]].escalationStep + 1)] else []
  {
    assert batch[..k + 1][..k] == batch[..k] && batch[..k + 1][k] == batch[k];
  }

  /** The k-th incident of a batch, looked at after the first k. */
  lemma BatchMoves(ps: Policies, now: int, rows: T.Rows, batch: seq<Uuid>, k: nat)
    requires k < |batch| && NoDuplicates(batch) && batch[k] in rows && rows[batch[k]].status.Open?
    requires T.UniqueActive(Polled(ps, now, rows, Elements(batch[..k])))
    ensures
      var before := Polled(ps, now, rows, Elements(batch[..k]));
      var after := Polled(ps, now, rows, Elements(batch[..k + 1]));
      var taken := Snap(rows, batch[k]);
      && (Moves(ps, now, rows, batch[k]) <==> CanMove(ps, before, now, taken))
      && after == (if CanMove(ps, before, now, taken) then T.After(before, CompareAndSet(taken)) else before)
      && T.UniqueActive(after)
  {
    hide Polled, Moves, CanMove, T.UniqueActive, T.After;
    ElementsOfPrefix(batch, k);
    assert batch[k] !in batch[..k];
    MovedExactly(ps, now, rows, Elements(batch[..k]), batch[k]);
  }

  lemma NextDealt(ps: Policies, s: State, t: State, u: State, w: nat, batch: seq<Uuid>, onCall: set<Uuid>, k: nat)
    requires k < |batch| && NoDuplicates(batch)
    requires forall id | id in batch :: id in s.rows && s.rows[id].status.Open?
    requires DealtWith(ps, s, t, w, batch, onCall, k) && Snaps(s.rows, batch)[k] == Snap(s.rows, batch[k])
    requires DealtWithOne(ps, t, u, w, batch[k] in onCall)
    ensures DealtWith(ps, s, u, w, batch, onCall, k + 1)
  {
    hide T.After, T.UniqueActive, CanMove, Polled, Moves, SentFor, Elements, Snaps, NoDuplicates, CompareAndSet;
    var id := batch[k];
    var queue := Snaps(s.rows, batch)[k..];
    assert queue[0] == Snap(s.rows, id) && queue[1..] == Snaps(s.rows, batch)[k + 1..];
    BatchMoves(ps, s.clock, s.rows, batch, k);
    SentForMore(ps, s.clock, s.rows, batch, onCall, k);
  }

  lemma PolledBatch(ps: Policies, s: State, w: nat, batch: seq<Uuid>, onCall: set<Uuid>) returns (path: seq<State>)
    requires T.UniqueActive(s.rows) && w in s.workers && s.workers[w] == Working([]) && IsBatch(s.rows, s.clock, batch)
    ensures Continues(ps, s, path) && path != []
    ensures (forall id | id in batch :: id in s.rows && s.rows[id].status.Open?)
    ensures DealtWith(ps, s, Last(path), w, batch, onCall, 0)
    ensures forall k | 0 <= k < |batch| :: Snaps(s.rows, batch)[k] == Snap(s.rows, batch[k])
  {
    hide Polled, T.UniqueActive;
    SnapsInOrder(s.rows, batch);
    PollNone(ps, s.clock, s.rows, onCall);
    path := Extend(ps, s, [s], Poll(w, batch));
    assert batch[..0] == [] && Elements(batch[..0]) == {};
    assert Snaps(s.rows, batch)[0..] == Snaps(s.rows, batch);
  }

  /**
   * A worker that polls and is then left alone leaves the rows and the notifications of one tick of the
   * escalation loop: exactly the due incidents of the batch move, and exactly the covered ones are notified.
   */
  lemma UndisturbedTick(ps: Policies, s: State, w: nat, batch: seq<Uuid>, onCall: set<Uuid>) returns (path: seq<State>)
    requires T.UniqueActive(s.rows) && w in s.workers && s.workers[w] == Working([]) && IsBatch(s.rows, s.clock, batch)
    ensures Continues(ps, s, path)
    ensures
      var t := Last(path);
      && t.clock == s.clock && t.workers == s.workers && t.lost == s.lost
      && t.rows == Polled(ps, s.clock, s.rows, Elements(batch))
      && t.sent == s.sent + SentFor(ps, s.clock, s.rows, batch, onCall)
  {
    path := PolledBatch(ps, s, w, batch, onCall);
    assert NoDuplicates(batch);
    hide Polled, T.UniqueActive, IsBatch, Continues, DealtWithOne, SentFor;
    for k := 0 to |batch|
      invariant path != [] && Continues(ps, s, path)
      invariant DealtWith(ps, s, Last(path), w, batch, onCall, k)
    {
      ghost var t := Last(path);
      path := OneIncident(ps, s, path, w, batch[k] in onCall);
      NonEmpty(ps, s, path);
      NextDealt(ps, s, t, Last(path), w, batch, onCall, k);
    }
    assert batch[..|batch|] == batch;
    assert Snaps(s.rows, batch)[|batch|..] == [];
  }

  lemma NonEmpty(ps: Policies, s: State, path: seq<State>)
    requires Continues(ps, s, path)
    ensures path != []
  {
  }

  // ---- when a next step is notified, and when it is skipped ----------------------------------

  lemma Joined(ps: Policies, s: State, p: seq<State>, q: seq<State>)
    requires Continues(ps, s, p) && Continues(ps, Last(p), q)
    ensures Continues(ps, s, p + q[1..]) && Last(p + q[1..]) == Last(q)
  {
    hide WorkerStep;
    var j := p + q[1..];
    forall i | 0 < i < |j| ensures WorkerStep(ps, j[i - 1], j[i]) {
      if i >= |p| {
        assert j[i] == q[i - |p| + 1] && j[i - 1] == q[i - |p|];
      }
    }
  }

  /** What workers on their own never change. */
  ghost predicate SameIncidents(s: State, t: State) {
    && t.clock == s.clock
    && forall id | id in s.rows ::
         id in t.rows && t.rows[id].team == s.rows[id].team && t.rows[id].firedAt == s.rows[id].firedAt
  }

  lemma StepKeepsIncidents(ps: Policies, s: State, t: State)
    requires Inv(ps, s) && WorkerStep(ps, s, t)
    ensures SameIncidents(s, t) && Next(ps, s, t)
  {
    hide T.After, WorkerOk, ClaimOk, ClaimsMatchSteps, T.UniqueActive;
    var a: Action :| !a.Tick? && !a.Client? && Enabled(s, a) && t == Apply(ps, s, a);
    if a.TryClaim? {
      T.OnlyIncrementMovesSteps(s.rows, CompareAndSet(s.workers[a.w].taken));
    }
  }

  lemma {:induction false} WorkersKeep(ps: Policies, s: State, path: seq<State>, i: nat)
    requires Inv(ps, s) && Accounted(s) && Continues(ps, s, path) && i < |path|
    ensures Inv(ps, path[i]) && Accounted(path[i]) && SameIncidents(s, path[i])
  {
    hide Inv, Accounted, Next, WorkerStep;
    if i > 0 {
      WorkersKeep(ps, s, path, i - 1);
      StepKeepsIncidents(ps, path[i - 1], path[i]);
      NextKeeps(ps, path[i - 1], path[i]);
      AccountedKeeps(ps, path[i - 1], path[i]);
    }
  }

  lemma MovesExactly(ps: Policies, now: int, rows: T.Rows, id: Uuid)
    requires id in rows
    ensures Moves(ps, now, rows, id) <==>
      MayTake(ps, rows[id].team, now - rows[id].firedAt, rows[id].escalationStep + 1)
  {
  }

  /** Somebody is on call: the step is claimed and notified. */
  ghost predicate Notifies(ps: Policies, s: State, path: seq<State>, id: Uuid, step: nat) {
    Continues(ps, s, path) && (id, step) in Last(path).sent
  }

  /** Nobody is: the step is claimed silently. */
  ghost predicate Skips(ps: Policies, s: State, path: seq<State>, id: Uuid, step: nat) {
    && Continues(ps, s, path)
    && var t := Last(path);
       (id, step) in t.claims && !t.claims[(id, step)].covered && (id, step) !in t.sent
  }

  /** A new worker polls a batch that has the incident, with everybody or nobody on call. */
  lemma NewWorkerTicks(ps: Policies, s: State, id: Uuid, onCall: set<Uuid>)
    returns (path: seq<State>, batch: seq<Uuid>, w: nat)
    requires T.UniqueActive(s.rows) && Pollable(s.rows, s.clock, id) && |Earlier(s.rows, s.clock, id)| < BATCH_LIMIT
    ensures Continues(ps, s, path) && id in batch && w !in s.workers
    ensures
      var t := Last(path);
      && t.clock == s.clock && t.lost == s.lost && t.workers == s.workers[w := Working([])]
      && t.rows == Polled(ps, s.clock, s.rows, Elements(batch))
      && t.sent == s.sent + SentFor(ps, s.clock, s.rows, batch, onCall)
  {
    hide T.UniqueActive, Pollable, Earlier, Polled, SentFor;
    BatchExactly(s.rows, s.clock, id);
    batch :| IsBatch(s.rows, s.clock, batch) && id in batch;
    hide IsBatch;
    w := Above(s.workers.Keys);
    var first := Extend(ps, s, [s], Start(w));
    var rest := UndisturbedTick(ps, Last(first), w, batch, onCall);
    Joined(ps, s, first, rest);
    path := first + rest[1..];
  }

  /** A claim is of a step within the limit, and past its threshold, at the clock it is seen at. */
  lemma ClaimedWhenDue(ps: Policies, s: State, path: seq<State>, id: Uuid, step: nat)
    requires Inv(ps, s) && Accounted(s) && Continues(ps, s, path) && id in s.rows && (id, step) in Last(path).claims
    ensures MayTake(ps, s.rows[id].team, s.clock - s.rows[id].firedAt, step)
  {
    hide Continues, Accounted, WorkerOk, MayTake;
    NonEmpty(ps, s, path);
    WorkersKeep(ps, s, path, |path| - 1);
    var t := Last(path);
    assert ClaimOk(ps, t, id, step);
    MayTakeLater(ps, t.rows[id].team, t.claims[(id, step)].at - t.rows[id].firedAt, t.clock - t.rows[id].firedAt, step);
  }

  lemma CanNotify(ps: Policies, s: State, id: Uuid, step: nat) returns (path: seq<State>)
    requires T.UniqueActive(s.rows) && Pollable(s.rows, s.clock, id) && |Earlier(s.rows, s.clock, id)| < BATCH_LIMIT
    requires step == s.rows[id].escalationStep + 1
    requires MayTake(ps, s.rows[id].team, s.clock - s.rows[id].firedAt, step)
    ensures Notifies(ps, s, path, id, step)
  {
    var batch, w;
    path, batch, w := NewWorkerTicks(ps, s, id, {id});
    hide Continues, MayTake, SentFor, Polled, Earlier, T.UniqueActive;
    SentForExactly(ps, s.clock, s.rows, batch, {id});
    MovesExactly(ps, s.clock, s.rows, id);
    assert (id, step) in SentFor(ps, s.clock, s.rows, batch, {id});
  }

  lemma CanSkip(ps: Policies, s: State, id: Uuid, step: nat) returns (path: seq<State>)
    requires Inv(ps, s) && Accounted(s)
    requires Pollable(s.rows, s.clock, id) && |Earlier(s.rows, s.clock, id)| < BATCH_LIMIT
    requires step == s.rows[id].escalationStep + 1
    requires MayTake(ps, s.rows[id].team, s.clock - s.rows[id].firedAt, step)
    ensures Skips(ps, s, path, id, step)
  {
    var batch, w;
    path, batch, w := NewWorkerTicks(ps, s, id, {});
    NonEmpty(ps, s, path);
    WorkersKeep(ps, s, path, |path| - 1);
    hide Continues, MayTake, SentFor, Earlier, WorkerOk, ClaimOk, Pollable;
    NobodySentFor(ps, s.clock, s.rows, batch);
    MovesExactly(ps, s.clock, s.rows, id);
    var t := Last(path);
    assert t.sent == s.sent;
    assert t.rows[id].escalationStep == step;
    assert (id, step) in t.claims && (id, step) !in s.claims;
    InHandClaimed(ps, s);
  }

  lemma InHandClaimed(ps: Policies, s: State)
    requires Inv(ps, s)
    ensures forall w, x | w in s.workers && x in InHand(s.workers[w]) :: x in s.claims
  {
    forall w, x | w in s.workers && x in InHand(s.workers[w]) ensures x in s.claims {
      assert WorkerOk(ps, s, w, s.workers[w]);
    }
  }

  /**
   * In every reachable state, an open incident among the first 200 is taken to its next step by the
   * workers alone exactly if that step is within the limit and its threshold has passed: with somebody on
   * call it can be notified, with nobody it can be skipped.
   */
  lemma NextStepExactly(ps: Policies, s: State, id: Uuid)
    requires Inv(ps, s) && Accounted(s)
    requires Pollable(s.rows, s.clock, id) && |Earlier(s.rows, s.clock, id)| < 200
    ensures
      var row := s.rows[id];
      var step := row.escalationStep + 1;
      var due := && row.team in ps && |ps[row.team].layers| > 0 && WithinLimit(ps[row.team], step)
                 && s.clock - row.firedAt >= Threshold(ps[row.team], step) * 60_000_000_000;
      && ((exists path :: Notifies(ps, s, path, id, step)) <==> due)
      && ((exists path :: Skips(ps, s, path, id, step)) <==> due)
  {
    var row := s.rows[id];
    var step := row.escalationStep + 1;
    var due := MayTake(ps, row.team, s.clock - row.firedAt, step);
    hide Pollable, Earlier, Continues;
    if due {
      var p := CanNotify(ps, s, id, step);
      assert Notifies(ps, s, p, id, step);
      var q := CanSkip(ps, s, id, step);
      assert Skips(ps, s, q, id, step);
    } else {
      hide Inv, Accounted, MayTake;
      forall path ensures !Notifies(ps, s, path, id, step) && !Skips(ps, s, path, id, step) {
        if Notifies(ps, s, path, id, step) || Skips(ps, s, path, id, step) {
          SentIsClaimed(ps, s, path);
          ClaimedWhenDue(ps, s, path, id, step);
        }
      }
    }
  }

  lemma SentIsClaimed(ps: Policies, s: State, path: seq<State>)
    requires Inv(ps, s) && Accounted(s) && Continues(ps, s, path)
    ensures forall x | x in Last(path).sent :: x in Last(path).claims
  {
    hide WorkerOk, ClaimOk;
    NonEmpty(ps, s, path);
    WorkersKeep(ps, s, path, |path| - 1);
  }

  /** Time alone makes an allowed next step of an open incident due, and the incident old enough to be polled. */
  lemma DueInTime(ps: Policies, s: State, id: Uuid) returns (t: State)
    requires Inv(ps, s) && Accounted(s) && id in s.rows && s.rows[id].status.Open?
    requires HasSteps(ps, s.rows[id].team) && WithinLimit(ps[s.rows[id].team], s.rows[id].escalationStep + 1)
    ensures Next(ps, s, t) && Inv(ps, t) && Accounted(t) && t.rows == s.rows && t.clock >= s.clock
    ensures Pollable(t.rows, t.clock, id)
    ensures MayTake(ps, t.rows[id].team, t.clock - t.rows[id].firedAt, t.rows[id].escalationStep + 1)
  {
    hide Inv, Accounted;
    var row := s.rows[id];
    var wait := Max(MINUTE + 1, Threshold(ps[row.team], row.escalationStep + 1) * MINUTE);
    t := Apply(ps, s, Tick(Max(s.clock, row.firedAt + wait)));
    assert Next(ps, s, t);
    NextKeeps(ps, s, t);
    AccountedKeeps(ps, s, t);
  }
}
