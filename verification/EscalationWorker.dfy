/** One worker's poll, as the procedure runs when no other client interferes. */
module EscalationWorker {
  import opened Common
  import opened EscalationPolicy
  import opened Escalation
  import opened IncidentStore
  import T = IncidentTable
  import Queries

  /** The step a poll leaves an incident at. */
  function PolledStep(ps: Policies, now: int, row: T.Incident): nat {
    if row.team in ps
    then EscalationPolicy.Poll(ps[row.team], now - row.firedAt, row.escalationStep)
    else row.escalationStep
  }

  /** The table after the incidents in ids were polled. */
  function Polled(ps: Policies, now: int, rows: T.Rows, ids: set<Uuid>): T.Rows {
    map id | id in rows ::
      if id in ids then rows[id].(escalationStep := PolledStep(ps, now, rows[id])) else rows[id]
  }

  predicate Moves(ps: Policies, now: int, rows: T.Rows, id: Uuid) {
    id in rows && PolledStep(ps, now, rows[id]) > rows[id].escalationStep
  }

  /** The incidents whose next target is called: those that move while somebody is on call. */
  function Called(ps: Policies, now: int, rows: T.Rows, ids: set<Uuid>, onCall: set<Uuid>): set<Uuid> {
    set id | id in ids && id in onCall && Moves(ps, now, rows, id)
  }

  /** GetOpenIncidentsForEscalation. */
  method SelectBatch(rows: T.Rows, now: int) returns (batch: seq<Uuid>)
    ensures IsBatch(rows, now, batch)
  {
    var pollable := set id | id in rows && Pollable(rows, now, id);
    batch := Queries.OrderByLimit(pollable, id => if id in rows then rows[id].firedAt else 0, BATCH_LIMIT);
  }

  /** Whether the layer's target was called. */
  method CheckEscalationForIncident(db: IncidentDB, ps: Policies, taken: Snapshot, now: int, onCall: bool)
    returns (called: bool)
    requires db.Valid()
    modifies db
    ensures db.Valid()
    ensures
      var moved := MayTake(ps, taken.team, now - taken.firedAt, taken.step + 1)
                   && T.CanIncrement(old(db.rows), taken.team, taken.id, taken.step);
      && called == (moved && onCall)
      && db.rows == if moved then T.After(old(db.rows), CompareAndSet(taken)) else old(db.rows)
  {
    if taken.team !in ps {
      return false;
    }
    var p := ps[taken.team];
    var numLayers := |p.layers|;
    if numLayers == 0 {
      return false;
    }
    var nextStep := taken.step + 1;
    var nextRepeat := nextStep / numLayers;
    var nextLayer := nextStep % numLayers;
    if p.maxRepeats > 0 && nextRepeat > p.maxRepeats {
      return false;
    }
    if p.repeatInterval == 0 && nextRepeat > 0 {
      return false;
    }
    var cycleDuration := p.layers[numLayers - 1];
    var thresholdMinutes := (cycleDuration + p.repeatInterval) * nextRepeat + p.layers[nextLayer];
    if now - taken.firedAt < thresholdMinutes * MINUTE {
      return false;
    }
    // With nobody on call the step is taken silently, so that it does not block later layers.
    var advanced := db.IncrementEscalationStep(taken.team, taken.id, taken.step);
    T.OnlyIncrementMovesSteps(old(db.rows), CompareAndSet(taken));
    called := advanced && onCall;
  }

  /** Works through copies of the rows, in order. */
  method PollBatch(db: IncidentDB, ps: Policies, now: int, batch: seq<Uuid>, onCall: set<Uuid>)
    returns (called: set<Uuid>)
    requires db.Valid() && NoDuplicates(batch)
    requires forall id | id in batch :: id in db.rows && db.rows[id].status.Open?
    modifies db
    ensures db.Valid()
    ensures db.rows == Polled(ps, now, old(db.rows), Elements(batch))
    ensures called == Called(ps, now, old(db.rows), Elements(batch), onCall)
  {
    hide Polled, Called, Moves, PolledStep, MayTake, T.UniqueActive, T.CanIncrement, T.After, CompareAndSet;
    ghost var before := db.rows;
    var snapshots := Snaps(db.rows, batch);
    SnapsInOrder(before, batch);
    PollNone(ps, now, before, onCall);
    called := {};
    assert Elements(batch[..0]) == {};
    for k := 0 to |batch|
      invariant db.Valid()
      invariant db.rows == Polled(ps, now, before, Elements(batch[..k]))
      invariant called == Called(ps, now, before, Elements(batch[..k]), onCall)
    {
      assert snapshots[k] == Snap(before, batch[k]) && batch[k] !in batch[..k];
      PollOne(ps, now, before, Elements(batch[..k]), batch[k], onCall);
      ElementsOfPrefix(batch, k);
      var c := CheckEscalationForIncident(db, ps, snapshots[k], now, batch[k] in onCall);
      if c {
        called := called + {batch[k]};
      }
    }
    assert batch[..|batch|] == batch;
  }

  /** One tick of the escalation loop. */
  method CheckEscalations(db: IncidentDB, ps: Policies, now: int, onCall: set<Uuid>)
    returns (batch: seq<Uuid>, called: set<Uuid>)
    requires db.Valid()
    modifies db
    ensures db.Valid()
    ensures IsBatch(old(db.rows), now, batch)
    ensures db.rows == Polled(ps, now, old(db.rows), Elements(batch))
    ensures called == Called(ps, now, old(db.rows), Elements(batch), onCall)
  {
    batch := SelectBatch(db.rows, now);
    called := PollBatch(db, ps, now, batch, onCall);
  }

  lemma PollNone(ps: Policies, now: int, before: T.Rows, onCall: set<Uuid>)
    ensures Polled(ps, now, before, {}) == before
    ensures Called(ps, now, before, {}, onCall) == {}
  {
  }

  /** Polling one more incident is one compare-and-set, or nothing. */
  lemma PollOne(ps: Policies, now: int, before: T.Rows, done: set<Uuid>, id: Uuid, onCall: set<Uuid>)
    requires id in before && id !in done && before[id].status.Open?
    requires T.UniqueActive(Polled(ps, now, before, done))
    ensures
      var rows := Polled(ps, now, before, done);
      var taken := Snap(before, id);
      var moved := MayTake(ps, taken.team, now - taken.firedAt, taken.step + 1)
                   && T.CanIncrement(rows, taken.team, taken.id, taken.step);
      && Polled(ps, now, before, done + {id}) == (if moved then T.After(rows, CompareAndSet(taken)) else rows)
      && Called(ps, now, before, done + {id}, onCall)
         == Called(ps, now, before, done, onCall) + (if moved && id in onCall then {id} else {})
  {
    T.OnlyIncrementMovesSteps(Polled(ps, now, before, done), CompareAndSet(Snap(before, id)));
  }

  lemma {:induction false} SnapsInOrder(rows: T.Rows, batch: seq<Uuid>)
    requires forall id | id in batch :: id in rows
    ensures |Snaps(rows, batch)| == |batch|
    ensures forall k | 0 <= k < |batch| :: Snaps(rows, batch)[k] == Snap(rows, batch[k])
  {
    if batch != [] {
      SnapsInOrder(rows, batch[1..]);
    }
  }

  /** tables[k + 1] is what a poll of the incidents in batches[k] makes of tables[k], all at one clock reading. */
  ghost predicate ArePolls(ps: Policies, now: int, tables: seq<T.Rows>, batches: seq<set<Uuid>>) {
    && |tables| == |batches| + 1
    && forall k | 0 <= k < |batches| :: tables[k + 1] == Polled(ps, now, tables[k], batches[k])
  }

  lemma {:induction false} PollsOfIncident(ps: Policies, now: int, tables: seq<T.Rows>, batches: seq<set<Uuid>>, id: Uuid, k: nat)
    requires ArePolls(ps, now, tables, batches) && k < |tables|
    requires id in tables[0] && tables[0][id].team in ps
    requires forall b | b in batches :: id in b
    ensures
      var row := tables[0][id];
      && id in tables[k]
      && tables[k][id] == row.(escalationStep := Polls(ps[row.team], now - row.firedAt, row.escalationStep, k))
  {
    if k > 0 {
      PollsOfIncident(ps, now, tables, batches, id, k - 1);
      assert tables[k - 1 + 1] == Polled(ps, now, tables[k - 1], batches[k - 1]);
    }
  }

  /**
   * Catch-up of a stored incident: as long as every batch has it, whoever is on call, enough polls at
   * one clock reading leave it at exactly the largest step that is due and allowed.  Batches hold only
   * incidents older than a minute.
   */
  lemma IncidentCatchesUp(ps: Policies, now: int, tables: seq<T.Rows>, batches: seq<set<Uuid>>, id: Uuid)
    returns (target: nat)
    requires ArePolls(ps, now, tables, batches) && Pollable(tables[0], now, id) && HasSteps(ps, tables[0][id].team)
    requires forall b | b in batches :: id in b
    requires
      var row := tables[0][id];
      var p := ps[row.team];
      && CatchesUp(p)
      && (row.escalationStep == 0 || Eligible(p, now - row.firedAt, row.escalationStep))
    ensures LargestEligible(ps[tables[0][id].team], now - tables[0][id].firedAt, target)
    ensures forall k | target - tables[0][id].escalationStep <= k < |tables| ::
      id in tables[k] && tables[k][id].escalationStep == target
  {
    var row := tables[0][id];
    var polls: nat;
    target, polls := CatchUp(ps[row.team], now - row.firedAt, row.escalationStep);
    forall k | polls <= k < |tables| ensures id in tables[k] && tables[k][id].escalationStep == target {
      PollsOfIncident(ps, now, tables, batches, id, k);
    }
  }
}
