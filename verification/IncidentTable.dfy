/** The incidents table: its unique partial index, and the statements on it as functions. */
module IncidentTable {
  import opened Common

  datatype Status = Open | Acknowledged | Snoozed | Resolved

  datatype Incident = Incident(
    team: Uuid, fingerprint: Option<string>, status: Status, firedAt: int, escalationStep: nat,
    acknowledgedAt: Option<int>, resolvedAt: Option<int>, snoozedUntil: Option<int>, assignedTo: Option<Uuid>)

  type Rows = map<Uuid, Incident>

  predicate Active(i: Incident) {
    i.status.Open? || i.status.Acknowledged? || i.status.Snoozed?
  }

  predicate IsOpen(rows: Rows, id: Uuid) {
    id in rows && rows[id].status.Open?
  }

  /** The active incidents of one fingerprint. */
  predicate ActiveFor(i: Incident, team: Uuid, fingerprint: string) {
    Active(i) && i.team == team && i.fingerprint == Some(fingerprint)
  }

  predicate SameIndexKey(i: Incident, j: Incident) {
    Active(i) && Active(j) && i.fingerprint.Some? && i.team == j.team && i.fingerprint == j.fingerprint
  }

  /** What the unique partial index is there for. */
  ghost predicate UniqueActive(rows: Rows) {
    forall i, j | i in rows && j in rows && SameIndexKey(rows[i], rows[j]) :: i == j
  }

  predicate Collides(rows: Rows, id: Uuid, row: Incident) {
    exists j :: j in rows && j != id && SameIndexKey(row, rows[j])
  }

  /** The index looks up one key when one row is written; None is error 23505. */
  function Put(rows: Rows, id: Uuid, row: Incident): Option<Rows> {
    if Collides(rows, id, row) then None else Some(rows[id := row])
  }

  /** One look-up per written row is enough: it refuses exactly the writes that break uniqueness. */
  lemma PutExactly(rows: Rows, id: Uuid, row: Incident)
    requires UniqueActive(rows)
    ensures Put(rows, id, row).Some? <==> UniqueActive(rows[id := row])
  {
    var after := rows[id := row];
    if Collides(rows, id, row) {
      var j :| j in rows && j != id && SameIndexKey(row, rows[j]);
      assert SameIndexKey(after[id], after[j]);
    } else {
      forall i, j | i in after && j in after && SameIndexKey(after[i], after[j]) ensures i == j {
        assert SameIndexKey(after[j], after[i]);
      }
    }
  }

  // ---- statements -------------------------------------------------------------

  datatype Statement =
    | Create(id: Uuid, team: Uuid, fingerprint: Option<string>, now: int)
    | Acknowledge(team: Uuid, id: Uuid, user: Uuid, now: int)
    | Snooze(team: Uuid, id: Uuid, until: int)
    | Resolve(team: Uuid, id: Uuid, now: int)
    | Reopen(team: Uuid, id: Uuid)
    | ResolveByFingerprint(team: Uuid, key: string, now: int)
    | IncrementEscalationStep(team: Uuid, id: Uuid, fromStep: int)

  /** How many rows a statement wrote, and the table it leaves; Conflict is error 23505. */
  datatype Outcome = Written(rows: Rows, count: nat) | Conflict

  function WriteOne(rows: Rows, id: Uuid, row: Incident): Outcome {
    match Put(rows, id, row)
    case Some(after) => Written(after, 1)
    case None => Conflict
  }

  predicate OfTeam(rows: Rows, team: Uuid, id: Uuid) {
    id in rows && rows[id].team == team
  }

  function NewIncident(team: Uuid, fingerprint: Option<string>, now: int): Incident {
    Incident(team, fingerprint, Open, now, 0, None, None, None, None)
  }

  function MatchingActive(rows: Rows, team: Uuid, fingerprint: string): set<Uuid> {
    set id | id in rows && ActiveFor(rows[id], team, fingerprint)
  }

  /** The WHERE clause of the compare-and-set. */
  predicate CanIncrement(rows: Rows, team: Uuid, id: Uuid, fromStep: int) {
    OfTeam(rows, team, id) && rows[id].escalationStep == fromStep && rows[id].status.Open?
  }

  function Execute(rows: Rows, s: Statement): Outcome {
    match s
    case Create(id, team, fingerprint, now) =>
      if id in rows then Conflict else WriteOne(rows, id, NewIncident(team, fingerprint, now))
    case Acknowledge(team, id, user, now) =>
      if !OfTeam(rows, team, id) then Written(rows, 0)
      else WriteOne(rows, id, rows[id].(status := Acknowledged, acknowledgedAt := Some(now), assignedTo := Some(user)))
    case Snooze(team, id, until) =>
      if !OfTeam(rows, team, id) then Written(rows, 0)
      else WriteOne(rows, id, rows[id].(status := Snoozed, snoozedUntil := Some(until)))
    case Resolve(team, id, now) =>
      if !OfTeam(rows, team, id) then Written(rows, 0)
      else WriteOne(rows, id, rows[id].(status := Resolved, resolvedAt := Some(now)))
    case Reopen(team, id) =>
      if !OfTeam(rows, team, id) then Written(rows, 0)
      else WriteOne(rows, id, rows[id].(status := Open, acknowledgedAt := None, resolvedAt := None, assignedTo := None))
    case ResolveByFingerprint(team, fingerprint, now) =>
      Written(
        map id | id in rows :: if ActiveFor(rows[id], team, fingerprint)
          then rows[id].(status := Resolved, resolvedAt := Some(now))
          else rows[id],
        |MatchingActive(rows, team, fingerprint)|)
    case IncrementEscalationStep(team, id, fromStep) =>
      if !CanIncrement(rows, team, id, fromStep) then Written(rows, 0)
      else WriteOne(rows, id, rows[id].(escalationStep := rows[id].escalationStep + 1))
  }

  /** The table after a statement; an error leaves it as it was. */
  function After(rows: Rows, s: Statement): Rows {
    match Execute(rows, s)
    case Written(after, _) => after
    case Conflict => rows
  }

  /** Every statement, on any row in any status, keeps one active incident per fingerprint. */
  lemma StatementKeepsUnique(rows: Rows, s: Statement)
    requires UniqueActive(rows)
    ensures UniqueActive(After(rows, s))
  {
    match s
    case Create(id, team, fingerprint, now) =>
      PutExactly(rows, id, NewIncident(team, fingerprint, now));
    case Acknowledge(team, id, user, now) =>
      if OfTeam(rows, team, id) {
        PutExactly(rows, id, rows[id].(status := Acknowledged, acknowledgedAt := Some(now), assignedTo := Some(user)));
      }
    case Snooze(team, id, until) =>
      if OfTeam(rows, team, id) {
        PutExactly(rows, id, rows[id].(status := Snoozed, snoozedUntil := Some(until)));
      }
    case Resolve(team, id, now) =>
      if OfTeam(rows, team, id) {
        PutExactly(rows, id, rows[id].(status := Resolved, resolvedAt := Some(now)));
      }
    case Reopen(team, id) =>
      if OfTeam(rows, team, id) {
        PutExactly(rows, id,
          rows[id].(status := Open, acknowledgedAt := None, resolvedAt := None, assignedTo := None));
      }
    case ResolveByFingerprint(team, fingerprint, now) =>
      var after := After(rows, s);
      forall i, j | i in after && j in after && SameIndexKey(after[i], after[j]) ensures i == j {
        assert SameIndexKey(rows[i], rows[j]);
      }
    case IncrementEscalationStep(team, id, fromStep) =>
      if CanIncrement(rows, team, id, fromStep) {
        PutExactly(rows, id, rows[id].(escalationStep := rows[id].escalationStep + 1));
      }
  }

  /**
   * The compare-and-set never meets the index, writes one row exactly when its WHERE clause holds,
   * and every other statement leaves escalation_step and fired_at alone.
   */
  lemma OnlyIncrementMovesSteps(rows: Rows, s: Statement)
    requires UniqueActive(rows)
    ensures s.IncrementEscalationStep? ==>
      && Execute(rows, s) == Written(After(rows, s), if CanIncrement(rows, s.team, s.id, s.fromStep) then 1 else 0)
      && (CanIncrement(rows, s.team, s.id, s.fromStep) ==>
            After(rows, s) == rows[s.id := rows[s.id].(escalationStep := s.fromStep + 1)])
    ensures forall i | i in rows ::
      && i in After(rows, s)
      && After(rows, s)[i].firedAt == rows[i].firedAt
      && After(rows, s)[i].team == rows[i].team
      && (!s.IncrementEscalationStep? ==> After(rows, s)[i].escalationStep == rows[i].escalationStep)
    ensures forall i | i in After(rows, s) && i !in rows :: After(rows, s)[i].escalationStep == 0
  {
    if s.IncrementEscalationStep? && CanIncrement(rows, s.team, s.id, s.fromStep) {
      var row := rows[s.id].(escalationStep := rows[s.id].escalationStep + 1);
      forall j | j in rows && j != s.id ensures !SameIndexKey(row, rows[j]) {
        if SameIndexKey(row, rows[j]) {
          assert SameIndexKey(rows[s.id], rows[j]);
        }
      }
    }
  }

  // ---- what the statements do, row by row ----------------------------------------

  /** Another incident of the same team and fingerprint is not resolved. */
  ghost predicate Blocked(rows: Rows, id: Uuid, team: Uuid, fingerprint: Option<string>) {
    && fingerprint.Some?
    && exists j ::
         && j in rows && j != id
         && rows[j].team == team && rows[j].fingerprint == fingerprint && !rows[j].status.Resolved?
  }

  /** The index: of two incidents of one team and fingerprint, at least one is resolved. */
  lemma UniqueExactly(rows: Rows)
    ensures UniqueActive(rows) <==>
      forall i, j | i in rows && j in rows && i != j && rows[i].team == rows[j].team
                    && rows[i].fingerprint.Some? && rows[i].fingerprint == rows[j].fingerprint ::
        rows[i].status.Resolved? || rows[j].status.Resolved?
  {
    if UniqueActive(rows) {
      forall i, j | i in rows && j in rows && i != j && rows[i].team == rows[j].team
                    && rows[i].fingerprint.Some? && rows[i].fingerprint == rows[j].fingerprint
        ensures rows[i].status.Resolved? || rows[j].status.Resolved?
      {
        assert !SameIndexKey(rows[i], rows[j]);
      }
    }
  }

  lemma CollidesExactly(rows: Rows, id: Uuid, row: Incident)
    ensures Collides(rows, id, row) <==> !row.status.Resolved? && Blocked(rows, id, row.team, row.fingerprint)
  {
    if Collides(rows, id, row) {
      var j :| j in rows && j != id && SameIndexKey(row, rows[j]);
      assert !rows[j].status.Resolved?;
    }
    if !row.status.Resolved? && Blocked(rows, id, row.team, row.fingerprint) {
      var j :| j in rows && j != id
        && rows[j].team == row.team && rows[j].fingerprint == row.fingerprint && !rows[j].status.Resolved?;
      assert SameIndexKey(row, rows[j]);
    }
  }

  /** A new incident is open, at step 0, and fires now. */
  lemma CreateExactly(rows: Rows, id: Uuid, team: Uuid, fingerprint: Option<string>, now: int)
    ensures
      var s := Create(id, team, fingerprint, now);
      if id in rows || Blocked(rows, id, team, fingerprint) then
        Execute(rows, s).Conflict? && After(rows, s) == rows
      else
        && !Execute(rows, s).Conflict?
        && After(rows, s) == rows[id := Incident(team, fingerprint, Open, now, 0, None, None, None, None)]
  {
    CollidesExactly(rows, id, NewIncident(team, fingerprint, now));
  }

  /** The four updates of one row: which they refuse, and the whole row they leave; all others stay. */
  lemma AcknowledgeExactly(rows: Rows, team: Uuid, id: Uuid, user: Uuid, now: int)
    ensures
      var s := Acknowledge(team, id, user, now);
      if id !in rows || rows[id].team != team then After(rows, s) == rows && !Execute(rows, s).Conflict?
      else
        var r := rows[id];
        if Blocked(rows, id, team, r.fingerprint) then After(rows, s) == rows && Execute(rows, s).Conflict?
        else !Execute(rows, s).Conflict? && After(rows, s) == rows[id := Incident(
          team, r.fingerprint, Acknowledged, r.firedAt, r.escalationStep, Some(now), r.resolvedAt, r.snoozedUntil, Some(user))]
  {
    if OfTeam(rows, team, id) {
      CollidesExactly(rows, id, rows[id].(status := Acknowledged, acknowledgedAt := Some(now), assignedTo := Some(user)));
    }
  }

  lemma SnoozeExactly(rows: Rows, team: Uuid, id: Uuid, until: int)
    ensures
      var s := Snooze(team, id, until);
      if id !in rows || rows[id].team != team then After(rows, s) == rows && !Execute(rows, s).Conflict?
      else
        var r := rows[id];
        if Blocked(rows, id, team, r.fingerprint) then After(rows, s) == rows && Execute(rows, s).Conflict?
        else !Execute(rows, s).Conflict? && After(rows, s) == rows[id := Incident(
          team, r.fingerprint, Snoozed, r.firedAt, r.escalationStep, r.acknowledgedAt, r.resolvedAt, Some(until), r.assignedTo)]
  {
    if OfTeam(rows, team, id) {
      CollidesExactly(rows, id, rows[id].(status := Snoozed, snoozedUntil := Some(until)));
    }
  }

  lemma ResolveExactly(rows: Rows, team: Uuid, id: Uuid, now: int)
    ensures
      var s := Resolve(team, id, now);
      && !Execute(rows, s).Conflict?
      && if id !in rows || rows[id].team != team then After(rows, s) == rows
         else
           var r := rows[id];
           After(rows, s) == rows[id := Incident(
             team, r.fingerprint, Resolved, r.firedAt, r.escalationStep, r.acknowledgedAt, Some(now), r.snoozedUntil, r.assignedTo)]
  {
    if OfTeam(rows, team, id) {
      CollidesExactly(rows, id, rows[id].(status := Resolved, resolvedAt := Some(now)));
    }
  }

  lemma ReopenExactly(rows: Rows, team: Uuid, id: Uuid)
    ensures
      var s := Reopen(team, id);
      if id !in rows || rows[id].team != team then After(rows, s) == rows && !Execute(rows, s).Conflict?
      else
        var r := rows[id];
        if Blocked(rows, id, team, r.fingerprint) then After(rows, s) == rows && Execute(rows, s).Conflict?
        else !Execute(rows, s).Conflict? && After(rows, s) == rows[id := Incident(
          team, r.fingerprint, Open, r.firedAt, r.escalationStep, None, None, r.snoozedUntil, None)]
  {
    if OfTeam(rows, team, id) {
      CollidesExactly(rows, id,
        rows[id].(status := Open, acknowledgedAt := None, resolvedAt := None, assignedTo := None));
    }
  }

  /** The compare-and-set adds one to the step of an open row of the team that is at the step it was read at. */
  lemma IncrementExactly(rows: Rows, team: Uuid, id: Uuid, fromStep: int)
    requires UniqueActive(rows)
    ensures
      var s := IncrementEscalationStep(team, id, fromStep);
      if id in rows && rows[id].team == team && rows[id].status.Open? && rows[id].escalationStep == fromStep
      then Execute(rows, s) == Written(rows[id := rows[id].(escalationStep := rows[id].escalationStep + 1)], 1)
      else Execute(rows, s) == Written(rows, 0)
  {
    OnlyIncrementMovesSteps(rows, IncrementEscalationStep(team, id, fromStep));
  }

  /** Resolving by fingerprint resolves exactly the incidents of that team and fingerprint not resolved yet. */
  lemma ResolveByFingerprintExactly(rows: Rows, team: Uuid, key: string, now: int)
    ensures
      var s := ResolveByFingerprint(team, key, now);
      && !Execute(rows, s).Conflict? && After(rows, s).Keys == rows.Keys
      && forall id | id in rows :: After(rows, s)[id] ==
           if rows[id].team == team && rows[id].fingerprint == Some(key) && !rows[id].status.Resolved?
           then rows[id].(status := Resolved, resolvedAt := Some(now)) else rows[id]
  {
  }

  /** An incident that is not open is opened by its reopening only. */
  lemma OnlyReopenOpens(rows: Rows, s: Statement, id: Uuid)
    requires id in rows && !rows[id].status.Open? && !(s.Reopen? && s.id == id)
    ensures id in After(rows, s) && !After(rows, s)[id].status.Open?
  {
  }

  /** Resolving whatever is active for its fingerprint and reopening it opens any incident. */
  lemma CanReopen(rows: Rows, id: Uuid)
    requires UniqueActive(rows) && id in rows
    ensures
      var team := rows[id].team;
      var key := if rows[id].fingerprint.Some? then rows[id].fingerprint.value else "";
      var resolved := After(rows, ResolveByFingerprint(team, key, 0));
      IsOpen(After(resolved, Reopen(team, id)), id)
  {
    var team := rows[id].team;
    var key := if rows[id].fingerprint.Some? then rows[id].fingerprint.value else "";
    var resolved := After(rows, ResolveByFingerprint(team, key, 0));
    var row := resolved[id].(status := Open, acknowledgedAt := None, resolvedAt := None, assignedTo := None);
    assert forall j | j in resolved :: !SameIndexKey(row, resolved[j]);
  }
}
