/**
 * Webhook de-duplication: any number of webhook handlers, whose look-up and insert are separate
 * statements, interleaved with every other statement on the incidents table.
 */
module Dedup {
  import opened Common
  import opened IncidentTable

  datatype Stage =
    | LookingUp
    | Inserting
    | LookingAgain                  // the insert met the unique index
    | Answered(incident: Uuid)      // 202 with this incident's id
    | Refused                       // 500

  /** since: the time at which the request arrived. */
  datatype Handler = Handler(team: Uuid, fingerprint: string, since: nat, at: Stage)

  /** time counts the steps taken, so it is the state's place in its run. */
  datatype State = State(rows: Rows, handlers: map<nat, Handler>, time: nat)

  const INIT: State := State(map[], map[], 0)

  datatype Action =
    | Arrive(h: nat, team: Uuid, fingerprint: string)
    /** Handler h runs its next statement; fails when the database returns another error. */
    | Advance(h: nat, fails: bool, newId: Uuid, now: int)
    /** Any statement of any other client, webhook resolves included. */
    | Other(statement: Statement)

  ghost predicate Enabled(s: State, a: Action) {
    match a
    case Arrive(h, _, _) => h !in s.handlers
    case Advance(h, _, newId, _) => h in s.handlers && newId !in s.rows
    case Other(_) => true
  }

  ghost predicate FoundBy(rows: Rows, team: Uuid, fingerprint: string, id: Uuid) {
    id in rows && ActiveFor(rows[id], team, fingerprint)
  }

  /** The id a look-up returns: with the index in place there is at most one to return. */
  ghost function LookUp(rows: Rows, team: Uuid, fingerprint: string): Option<Uuid> {
    if exists id :: FoundBy(rows, team, fingerprint, id) then
      var id :| FoundBy(rows, team, fingerprint, id);
      Some(id)
    else None
  }

  ghost function HandlerStep(rows: Rows, h: Handler, a: Action): (Rows, Stage)
    requires a.Advance?
  {
    match h.at
    case LookingUp =>
      var found := LookUp(rows, h.team, h.fingerprint);
      // A failed look-up goes on to create: an alert is never silently dropped.
      if a.fails || found.None? then (rows, Inserting) else (rows, Answered(found.value))
    case Inserting =>
      if a.fails then (rows, Refused)
      else
        (match Execute(rows, Create(a.newId, h.team, Some(h.fingerprint), a.now))
         case Written(after, _) => (after, Answered(a.newId))
         case Conflict => (rows, LookingAgain))
    case LookingAgain =>
      var found := LookUp(rows, h.team, h.fingerprint);
      if a.fails || found.None? then (rows, Refused) else (rows, Answered(found.value))
    case Answered(_) => (rows, h.at)
    case Refused => (rows, h.at)
  }

  ghost function Apply(s: State, a: Action): State
    requires Enabled(s, a)
  {
    match a
    case Arrive(h, team, fingerprint) =>
      State(s.rows, s.handlers[h := Handler(team, fingerprint, s.time, LookingUp)], s.time + 1)
    case Advance(h, _, _, _) =>
      var (after, stage) := HandlerStep(s.rows, s.handlers[h], a);
      State(after, s.handlers[h := s.handlers[h].(at := stage)], s.time + 1)
    case Other(statement) =>
      State(After(s.rows, statement), s.handlers, s.time + 1)
  }

  ghost predicate Next(s: State, t: State) {
    exists a :: Enabled(s, a) && t == Apply(s, a)
  }

  ghost predicate IsRun(run: seq<State>) {
    && |run| > 0
    && run[0] == INIT
    && forall i | 0 < i < |run| :: Next(run[i - 1], run[i])
  }

  // ---- one active incident per fingerprint ----------------------------------------

  lemma NextKeepsUnique(s: State, t: State)
    requires UniqueActive(s.rows) && Next(s, t)
    ensures UniqueActive(t.rows) && t.time == s.time + 1
  {
    var a :| Enabled(s, a) && t == Apply(s, a);
    match a
    case Arrive(_, _, _) =>
    case Advance(h, _, newId, now) =>
      StatementKeepsUnique(s.rows, Create(newId, s.handlers[h].team, Some(s.handlers[h].fingerprint), now));
    case Other(statement) =>
      StatementKeepsUnique(s.rows, statement);
  }

  lemma {:induction false} OneActivePerFingerprint(run: seq<State>, i: nat)
    requires IsRun(run) && i < |run|
    ensures UniqueActive(run[i].rows) && run[i].time == i
  {
    if i > 0 {
      OneActivePerFingerprint(run, i - 1);
      NextKeepsUnique(run[i - 1], run[i]);
    }
  }

  // ---- every answer names an incident that was active during the call ----------------

  ghost predicate WasActive(run: seq<State>, k: int, h: Handler, id: Uuid) {
    0 <= k < |run| && FoundBy(run[k].rows, h.team, h.fingerprint, id)
  }

  /** A handler keeps its request; the step that answers it sees the incident before or after it. */
  lemma AnswerIsFresh(s: State, t: State, h: nat)
    requires Next(s, t) && h in t.handlers
    ensures
      var after := t.handlers[h];
      if h !in s.handlers then after.at == LookingUp && after.since == s.time
      else
        && after.since == s.handlers[h].since
        && after.team == s.handlers[h].team
        && after.fingerprint == s.handlers[h].fingerprint
        && (after.at.Answered? && s.handlers[h].at != after.at ==>
              || FoundBy(s.rows, after.team, after.fingerprint, after.at.incident)
              || FoundBy(t.rows, after.team, after.fingerprint, after.at.incident))
    ensures h in s.handlers && s.handlers[h].at.Answered? ==> t.handlers[h].at == s.handlers[h].at
  {
  }

  lemma {:induction false} AnswersNameActiveIncidents(run: seq<State>, i: nat, h: nat)
    requires IsRun(run) && i < |run| && h in run[i].handlers
    ensures run[i].handlers[h].since <= i
    ensures run[i].handlers[h].at.Answered? ==>
      exists k :: run[i].handlers[h].since <= k <= i
        && WasActive(run, k, run[i].handlers[h], run[i].handlers[h].at.incident)
  {
    if i > 0 {
      OneActivePerFingerprint(run, i - 1);
      AnswerIsFresh(run[i - 1], run[i], h);
      var now := run[i].handlers[h];
      if h in run[i - 1].handlers {
        AnswersNameActiveIncidents(run, i - 1, h);
        var before := run[i - 1].handlers[h];
        if now.at.Answered? {
          if before.at.Answered? {
            var k :| before.since <= k <= i - 1 && WasActive(run, k, before, before.at.incident);
            assert WasActive(run, k, now, now.at.incident);
          } else {
            assert WasActive(run, i - 1, now, now.at.incident) || WasActive(run, i, now, now.at.incident);
          }
        }
      }
    }
  }

  // ---- what a handler answers when it is left alone ----------------------------------------

  ghost function Advanced(s: State, h: nat, newId: Uuid, now: int): State
    requires h in s.handlers && newId !in s.rows
  {
    Apply(s, Advance(h, false, newId, now))
  }

  lemma LookUpExactly(rows: Rows, team: Uuid, fingerprint: string)
    requires UniqueActive(rows)
    ensures
      var found := LookUp(rows, team, fingerprint);
      && (found.Some? ==>
            && found.value in rows && rows[found.value].team == team
            && rows[found.value].fingerprint == Some(fingerprint) && !rows[found.value].status.Resolved?)
      && (forall id | id in rows && rows[id].team == team && rows[id].fingerprint == Some(fingerprint)
            && !rows[id].status.Resolved? :: found == Some(id))
  {
    forall id | id in rows && rows[id].team == team && rows[id].fingerprint == Some(fingerprint)
            && !rows[id].status.Resolved?
      ensures LookUp(rows, team, fingerprint) == Some(id)
    {
      assert FoundBy(rows, team, fingerprint, id);
      var found := LookUp(rows, team, fingerprint).value;
      assert SameIndexKey(rows[id], rows[found]);
    }
  }

  /** With an incident of its fingerprint not resolved, a new request is answered with that one, and creates nothing. */
  lemma DeduplicatesAlone(s: State, h: nat, id: Uuid, newId: Uuid, now: int)
    requires UniqueActive(s.rows) && h in s.handlers && s.handlers[h].at == LookingUp && newId !in s.rows
    requires id in s.rows && s.rows[id].team == s.handlers[h].team && !s.rows[id].status.Resolved?
    requires s.rows[id].fingerprint == Some(s.handlers[h].fingerprint)
    ensures
      var t := Advanced(s, h, newId, now);
      t.rows == s.rows && t.handlers == s.handlers[h := s.handlers[h].(at := Answered(id))]
  {
    hide LookUp;
    LookUpExactly(s.rows, s.handlers[h].team, s.handlers[h].fingerprint);
  }

  /** Without one, or when its look-up fails, it goes on to insert: an alert is never dropped for a failed look-up. */
  lemma GoesOnToInsert(s: State, h: nat, fails: bool, newId: Uuid, now: int)
    requires UniqueActive(s.rows) && h in s.handlers && s.handlers[h].at == LookingUp && newId !in s.rows
    requires fails || forall id | id in s.rows && s.rows[id].team == s.handlers[h].team
      && s.rows[id].fingerprint == Some(s.handlers[h].fingerprint) :: s.rows[id].status.Resolved?
    ensures
      var t := Apply(s, Advance(h, fails, newId, now));
      t.rows == s.rows && t.handlers == s.handlers[h := s.handlers[h].(at := Inserting)]
  {
    hide LookUp;
    LookUpExactly(s.rows, s.handlers[h].team, s.handlers[h].fingerprint);
  }

  /**
   * An insert with nothing in its way creates an open incident and answers with it; one that meets an
   * incident not resolved leaves the table, looks again, and answers with that incident.
   */
  lemma InsertsOrFindsWinner(s: State, h: nat, newId: Uuid, now: int, secondId: Uuid)
    requires UniqueActive(s.rows) && h in s.handlers && s.handlers[h].at == Inserting
    requires newId !in s.rows && secondId !in s.rows && secondId != newId
    ensures
      var me := s.handlers[h];
      var t := Advanced(s, h, newId, now);
      && (!Blocked(s.rows, newId, me.team, Some(me.fingerprint)) ==>
            && t.rows == s.rows[newId := Incident(me.team, Some(me.fingerprint), Open, now, 0, None, None, None, None)]
            && t.handlers[h].at == Answered(newId))
      && (Blocked(s.rows, newId, me.team, Some(me.fingerprint)) ==>
            && t.rows == s.rows
            && var u := Advanced(t, h, secondId, now);
               && u.rows == s.rows && u.handlers[h].at.Answered?
               && var winner := u.handlers[h].at.incident;
                  && winner in s.rows && s.rows[winner].team == me.team && !s.rows[winner].status.Resolved?
                  && s.rows[winner].fingerprint == Some(me.fingerprint))
  {
    hide LookUp, UniqueActive, Collides;
    var me := s.handlers[h];
    CreateExactly(s.rows, newId, me.team, Some(me.fingerprint), now);
    hide Execute;
    LookUpExactly(s.rows, me.team, me.fingerprint);
  }

  /** Once its fingerprint is resolved, by whatever client, a waiting request goes on to open a new incident. */
  lemma ResolutionMakesRoom(s: State, h: nat, newId: Uuid, now: int)
    requires UniqueActive(s.rows) && h in s.handlers && s.handlers[h].at == LookingUp && newId !in s.rows
    ensures
      var me := s.handlers[h];
      var t := Apply(s, Other(ResolveByFingerprint(me.team, me.fingerprint, now)));
      var u := Advanced(Advanced(t, h, newId, now), h, newId, now);
      newId in u.rows && u.rows[newId].status.Open? && u.handlers[h].at == Answered(newId)
  {
    hide LookUp, UniqueActive, Collides;
    var me := s.handlers[h];
    var st := ResolveByFingerprint(me.team, me.fingerprint, now);
    ResolveByFingerprintExactly(s.rows, me.team, me.fingerprint, now);
    StatementKeepsUnique(s.rows, st);
    var t := Apply(s, Other(st));
    GoesOnToInsert(t, h, false, newId, now);
    CreateExactly(t.rows, newId, me.team, Some(me.fingerprint), now);
    hide Execute;
    assert !Blocked(t.rows, newId, me.team, Some(me.fingerprint));
  }

  // ---- the index is needed --------------------------------------------------------------

  /**
   * Look-ups alone protect nothing: two handlers of one fingerprint can both have found nothing.
   * The first to insert wins, and the index turns the second insert into a conflict.
   */
  lemma RaceIsReachable() returns (run: seq<State>)
    ensures IsRun(run)
    ensures
      var s := run[|run| - 1];
      && s.rows == map[]
      && s.handlers.Keys == {1, 2}
      && s.handlers[1].at == Inserting && s.handlers[2].at == Inserting
      && s.handlers[1].team == s.handlers[2].team && s.handlers[1].fingerprint == s.handlers[2].fingerprint
      && var first := Apply(s, Advance(1, false, 7, 0));
         && first.handlers[1].at == Answered(7)
         && first.rows.Keys == {7}
         && !UniqueActive(first.rows[8 := NewIncident(1, Some("f"), 0)])
         && Apply(first, Advance(2, false, 8, 0)).handlers[2].at == LookingAgain
  {
    var s1 := Apply(INIT, Arrive(1, 1, "f"));
    var s2 := Apply(s1, Arrive(2, 1, "f"));
    assert forall id :: !FoundBy(s2.rows, 1, "f", id);
    var s3 := Apply(s2, Advance(1, false, 7, 0));
    var s4 := Apply(s3, Advance(2, false, 7, 0));
    run := [INIT, s1, s2, s3, s4];
    assert Next(INIT, s1) && Next(s1, s2) && Next(s2, s3) && Next(s3, s4);
    var first := Apply(s4, Advance(1, false, 7, 0));
    assert SameIndexKey(NewIncident(1, Some("f"), 0), first.rows[7]);
    var both := first.rows[8 := NewIncident(1, Some("f"), 0)];
    assert SameIndexKey(both[7], both[8]);
  }
}
