/** The pending_notifications table: its statements, as functions and as the store's methods. */
module NotificationTable {
  import opened Common

  const CLAIM_LIMIT := 100

  datatype Row = Row(incident: Uuid, scheduledAt: int, sentAt: Option<int>, cancelledAt: Option<int>)

  type Rows = map<Uuid, Row>

  /** Neither sent nor cancelled. */
  predicate Waiting(row: Row) {
    row.sentAt.None? && row.cancelledAt.None?
  }

  predicate Due(rows: Rows, now: int, id: Uuid) {
    id in rows && Waiting(rows[id]) && rows[id].scheduledAt <= now
  }

  function Claimed(rows: Rows, ids: seq<Uuid>, now: int): Rows {
    map id | id in rows :: if id in ids then rows[id].(sentAt := Some(now)) else rows[id]
  }

  function MarkedSent(rows: Rows, id: Uuid, now: int): Rows {
    if id in rows then rows[id := rows[id].(sentAt := Some(now))] else rows
  }

  function Cancelled(rows: Rows, incident: Uuid, now: int): Rows {
    map id | id in rows ::
      if rows[id].incident == incident && Waiting(rows[id]) then rows[id].(cancelledAt := Some(now)) else rows[id]
  }

  /** No row is both sent and cancelled. */
  ghost predicate Exclusive(rows: Rows) {
    forall id | id in rows :: rows[id].sentAt.None? || rows[id].cancelledAt.None?
  }

  /** Cancelling marks exactly the rows of the incident that are neither sent nor cancelled. */
  lemma CancelledExactly(rows: Rows, incident: Uuid, now: int)
    ensures Cancelled(rows, incident, now).Keys == rows.Keys
    ensures forall id | id in rows ::
      var r := rows[id];
      Cancelled(rows, incident, now)[id]
      == if r.incident == incident && r.sentAt.None? && r.cancelledAt.None?
         then Row(incident, r.scheduledAt, None, Some(now)) else r
  {
  }

  /** Claiming marks exactly the claimed rows as sent. */
  lemma ClaimedExactly(rows: Rows, ids: seq<Uuid>, now: int)
    ensures Claimed(rows, ids, now).Keys == rows.Keys
    ensures forall id | id in rows ::
      Claimed(rows, ids, now)[id]
      == if id in ids then Row(rows[id].incident, rows[id].scheduledAt, Some(now), rows[id].cancelledAt) else rows[id]
  {
  }

  /** Marking sent touches one row. */
  lemma MarkedSentExactly(rows: Rows, id: Uuid, now: int)
    ensures MarkedSent(rows, id, now).Keys == rows.Keys
    ensures forall k | k in rows ::
      MarkedSent(rows, id, now)[k]
      == if k == id then Row(rows[k].incident, rows[k].scheduledAt, Some(now), rows[k].cancelledAt) else rows[k]
  {
  }

  /**
   * What the claiming transaction may take: due rows, earliest first, at most 100.  Rows locked by
   * another transaction are skipped, so nothing says that all due rows are taken.
   */
  ghost predicate MayClaim(rows: Rows, now: int, ids: seq<Uuid>) {
    && |ids| <= CLAIM_LIMIT
    && NoDuplicates(ids)
    && (forall id | id in ids :: Due(rows, now, id))
    && (forall i, j | 0 <= i < j < |ids| && ids[i] in rows && ids[j] in rows ::
          rows[ids[i]].scheduledAt <= rows[ids[j]].scheduledAt)
  }
}

module NotificationStore {
  import opened Common
  import opened NotificationTable
  import Queries
  import T = IncidentTable

  class NotificationDB {
    var rows: Rows

    constructor ()
      ensures rows == map[]
    {
      rows := map[];
    }

    /** id is what uuid.New() draws. */
    method QueuePendingNotification(id: Uuid, incident: Uuid, scheduledAt: int)
      requires id !in rows
      modifies this
      ensures rows == old(rows)[id := Row(incident, scheduledAt, None, None)]
    {
      rows := rows[id := Row(incident, scheduledAt, None, None)];
    }

    /** One transaction: select the due rows nobody has locked, and mark them sent. */
    method GetDuePendingNotifications(now: int, locked: set<Uuid>) returns (pending: seq<Uuid>)
      modifies this
      ensures MayClaim(old(rows), now, pending)
      ensures forall id | id in pending ::
        id in old(rows) && old(rows)[id].sentAt.None? && old(rows)[id].cancelledAt.None? && old(rows)[id].scheduledAt <= now
      ensures forall id | Due(old(rows), now, id) && id !in locked && id !in pending :: |pending| == 100
      ensures |pending| <= 100 && rows == Claimed(old(rows), pending, now)
      ensures Exclusive(old(rows)) ==> Exclusive(rows)
    {
      pending := SelectDue(rows, now, locked);
      assert forall id | id in pending :: Due(rows, now, id);
      rows := Claimed(rows, pending, now);
    }

    method MarkPendingNotificationSent(id: Uuid, now: int)
      modifies this
      ensures rows == MarkedSent(old(rows), id, now)
    {
      if id in rows {
        rows := rows[id := rows[id].(sentAt := Some(now))];
      }
    }

    method CancelPendingNotificationsForIncident(incident: Uuid, now: int)
      modifies this
      ensures rows == Cancelled(old(rows), incident, now)
      ensures forall id | id in rows && rows[id].incident == incident :: !Waiting(rows[id])
      ensures forall id | id in rows && rows[id] != old(rows)[id] ::
        old(rows)[id].incident == incident && Waiting(old(rows)[id]) && rows[id].cancelledAt == Some(now)
      ensures Exclusive(old(rows)) ==> Exclusive(rows)
    {
      rows := Cancelled(rows, incident, now);
    }

    /** One tick of the pending-notifications loop; reachable holds the rows whose user still exists. */
    method FirePendingNotifications(incidents: T.Rows, reachable: set<Uuid>, now: int, locked: set<Uuid>)
      returns (pending: seq<Uuid>, fired: seq<Uuid>)
      modifies this
      ensures MayClaim(old(rows), now, pending)
      ensures rows == Claimed(old(rows), pending, now)
      ensures NoDuplicates(fired)
      ensures forall id :: id in fired <==>
        id in pending && id in reachable && T.IsOpen(incidents, old(rows)[id].incident)
    {
      ghost var before := rows;
      pending := GetDuePendingNotifications(now, locked);
      fired := [];
      assert forall id | id in pending :: Due(before, now, id);
      for k := 0 to |pending|
        invariant forall id | id in pending :: id in before
        invariant rows == Claimed(before, pending, now)
        invariant NoDuplicates(fired)
        invariant forall id :: id in fired <==>
          id in pending[..k] && id in reachable && T.IsOpen(incidents, before[id].incident)
      {
        var id := pending[k];
        assert id !in pending[..k];
        if T.IsOpen(incidents, rows[id].incident) && id in reachable {
          fired := fired + [id];
        }
        MarkPendingNotificationSent(id, now);
      }
      assert pending[..|pending|] == pending;
    }
  }

  /** ORDER BY scheduled_at LIMIT 100 FOR UPDATE SKIP LOCKED. */
  method SelectDue(rows: Rows, now: int, locked: set<Uuid>) returns (ids: seq<Uuid>)
    ensures MayClaim(rows, now, ids)
    ensures forall id | Due(rows, now, id) && id !in locked && id !in ids :: |ids| == CLAIM_LIMIT
  {
    var due := set id | id in rows && Due(rows, now, id) && id !in locked;
    ids := Queries.OrderByLimit(due, id => if id in rows then rows[id].scheduledAt else 0, CLAIM_LIMIT);
  }
}
