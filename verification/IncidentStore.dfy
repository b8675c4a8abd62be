/** The store's methods on the incidents table, each proved against the statement it runs. */
module IncidentStore {
  import opened Common
  import opened T = IncidentTable

  const MAX_SNOOZE := 10080 // minutes: seven days

  class IncidentDB {
    var rows: Rows

    ghost predicate Valid()
      reads this
    {
      UniqueActive(rows)
    }

    constructor ()
      ensures Valid() && rows == map[]
    {
      rows := map[];
    }

    /** Writes one row through the unique index. */
    method Write(id: Uuid, row: Incident) returns (written: bool)
      requires Valid()
      modifies this
      ensures Valid()
      ensures match Put(old(rows), id, row)
              case Some(after) => written && rows == after
              case None => !written && rows == old(rows)
    {
      PutExactly(rows, id, row);
      if exists j :: j in rows && j != id && SameIndexKey(row, rows[j]) {
        return false;
      }
      rows := rows[id := row];
      written := true;
    }

    /** Err is ErrDuplicateIncident. */
    method CreateIncident(id: Uuid, team: Uuid, fingerprint: Option<string>, now: int) returns (r: Result<Uuid>)
      requires Valid()
      modifies this
      ensures Valid() && rows == After(old(rows), Create(id, team, fingerprint, now))
      ensures r.Ok? <==> id !in old(rows) && !Blocked(old(rows), id, team, fingerprint)
      ensures r == if Execute(old(rows), Create(id, team, fingerprint, now)).Conflict?
                   then Err("duplicate active incident") else Ok(id)
    {
      CreateExactly(rows, id, team, fingerprint, now);
      if id in rows {
        return Err("duplicate active incident");
      }
      var written := Write(id, NewIncident(team, fingerprint, now));
      r := if written then Ok(id) else Err("duplicate active incident");
    }

    method AcknowledgeIncident(team: Uuid, id: Uuid, user: Uuid, now: int) returns (ok: bool)
      requires Valid()
      modifies this
      ensures Valid() && rows == After(old(rows), Acknowledge(team, id, user, now))
      ensures ok == !Execute(old(rows), Acknowledge(team, id, user, now)).Conflict?
      ensures ok && OfTeam(old(rows), team, id) ==>
        && rows == old(rows)[id := rows[id]]
        && rows[id].status.Acknowledged? && rows[id].acknowledgedAt == Some(now) && rows[id].assignedTo == Some(user)
    {
      AcknowledgeExactly(rows, team, id, user, now);
      ok := true;
      if id in rows && rows[id].team == team {
        ok := Write(id,
          rows[id].(status := Acknowledged, acknowledgedAt := Some(now), assignedTo := Some(user)));
      }
    }

    /** The handler's limits on the minutes come before the update. */
    method SnoozeIncident(team: Uuid, id: Uuid, minutes: int, now: int) returns (r: Result<int>)
      requires Valid()
      modifies this
      ensures Valid()
      ensures
        var until := now + minutes * MINUTE;
        if !(1 <= minutes <= 7 * 24 * 60) then
          r == Err("minutes must be between 1 and 10080") && rows == old(rows)
        else if !OfTeam(old(rows), team, id) then
          r == Err("incident not found") && rows == old(rows)
        else
          && rows == After(old(rows), Snooze(team, id, until))
          && r == if Execute(old(rows), Snooze(team, id, until)).Conflict? then Err("failed to snooze") else Ok(until)
    {
      if minutes <= 0 || minutes > MAX_SNOOZE {
        return Err("minutes must be between 1 and 10080");
      }
      if !(id in rows && rows[id].team == team) {
        return Err("incident not found");
      }
      var until := now + minutes * MINUTE;
      var ok := Write(id, rows[id].(status := Snoozed, snoozedUntil := Some(until)));
      r := if ok then Ok(until) else Err("failed to snooze");
    }

    /** The index never stands in the way of a resolution. */
    method ResolveIncident(team: Uuid, id: Uuid, now: int) returns (r: Result<()>)
      requires Valid()
      modifies this
      ensures Valid() && rows == After(old(rows), Resolve(team, id, now))
      ensures r == if OfTeam(old(rows), team, id) then Ok(()) else Err("incident not found")
    {
      if !(id in rows && rows[id].team == team) {
        return Err("incident not found");
      }
      var _ := Write(id, rows[id].(status := Resolved, resolvedAt := Some(now)));
      r := Ok(());
    }

    method ReopenIncident(team: Uuid, id: Uuid) returns (r: Result<()>)
      requires Valid()
      modifies this
      ensures Valid() && rows == After(old(rows), Reopen(team, id))
      ensures r == if !OfTeam(old(rows), team, id) then Err("incident not found")
                   else if Execute(old(rows), Reopen(team, id)).Conflict? then Err("failed to reopen")
                   else Ok(())
    {
      if !(id in rows && rows[id].team == team) {
        return Err("incident not found");
      }
      var ok := Write(id,
        rows[id].(status := Open, acknowledgedAt := None, resolvedAt := None, assignedTo := None));
      r := if ok then Ok(()) else Err("failed to reopen");
    }

    method ResolveIncidentByFingerprint(team: Uuid, fingerprint: string, now: int)
      requires Valid()
      modifies this
      ensures Valid() && rows == After(old(rows), ResolveByFingerprint(team, fingerprint, now))
      ensures MatchingActive(rows, team, fingerprint) == {}
    {
      StatementKeepsUnique(rows, ResolveByFingerprint(team, fingerprint, now));
      rows := map id | id in rows :: if ActiveFor(rows[id], team, fingerprint)
        then rows[id].(status := Resolved, resolvedAt := Some(now))
        else rows[id];
      forall id | id in rows ensures id !in MatchingActive(rows, team, fingerprint) {
        assert !ActiveFor(rows[id], team, fingerprint);
      }
      assert MatchingActive(rows, team, fingerprint) == {};
    }

    /** True when this caller won the step. */
    method IncrementEscalationStep(team: Uuid, id: Uuid, fromStep: int) returns (advanced: bool)
      requires Valid()
      modifies this
      ensures Valid() && rows == After(old(rows), T.IncrementEscalationStep(team, id, fromStep))
      ensures advanced == CanIncrement(old(rows), team, id, fromStep)
    {
      StatementKeepsUnique(rows, T.IncrementEscalationStep(team, id, fromStep));
      OnlyIncrementMovesSteps(rows, T.IncrementEscalationStep(team, id, fromStep));
      advanced := id in rows && rows[id].team == team && rows[id].escalationStep == fromStep && rows[id].status.Open?;
      if advanced {
        rows := rows[id := rows[id].(escalationStep := rows[id].escalationStep + 1)];
      }
    }

    /** The active incident of a fingerprint; uniqueness makes ORDER BY ... LIMIT 1 irrelevant. */
    method FindOpenIncidentByFingerprint(team: Uuid, fingerprint: string) returns (r: Option<Uuid>)
      requires Valid()
      ensures MatchingActive(rows, team, fingerprint) == match r case Some(id) => {id} case None => {}
    {
      var found := MatchingActive(rows, team, fingerprint);
      if found == {} {
        return None;
      }
      var id := Pick(found);
      forall j | j in found ensures j == id {
        assert SameIndexKey(rows[j], rows[id]);
      }
      r := Some(id);
    }
  }
}
