/** The approvals router: the administrator's queue of undecided requests
    and the two decisions, approve and reject. Each decision checks the
    administrator gate, the body, the existence of the request and its
    status, in that order, then updates the record and appends one audit
    entry. */
module Approvals {
  import opened Wrappers
  import opened Http
  import opened Models
  import opened Store
  import opened Requests

  const DefaultApprovalReason := "Approved by admin"

  /** The statuses an administrator may still decide. */
  predicate Decidable(status: RequestStatus) {
    status == RequestStatus.Pending || status == RequestStatus.Escalated
  }

  /** The stored approval reason: the supplied one unless it is missing or
      empty, in which case the fixed default. */
  function ApprovalReason(reason: Option<string>): (r: string)
    ensures reason.Some? && reason.value != [] ==> r == reason.value
    ensures reason == None || reason == Some([]) ==> r == DefaultApprovalReason
    ensures r != []
  {
    if reason.Some? && reason.value != [] then reason.value else DefaultApprovalReason
  }

  /** `_fetch_or_404`: the stored row, or 404. */
  function FetchOr404(db: Database, requestId: Id): (r: Result<Row, HttpError>)
    reads db
    ensures r.Ok? <==> requestId in db.requests
    ensures r.Ok? ==> r.value == db.requests[requestId]
    ensures r.Err? ==> r.error == RequestNotFound
  {
    if requestId in db.requests then Ok(db.requests[requestId]) else Err(RequestNotFound)
  }

  /** `list_pending_requests`: 403 for a non-administrator, otherwise every
      PENDING or ESCALATED request, newest first. */
  function ListPendingRequests(db: Database, caller: UserProfile): (r: Result<seq<Response>, HttpError>)
    reads db
    requires db.Valid()
    ensures r.Err? <==> !IsAdmin(caller)
    ensures r.Err? ==> r.error == AdminRequired
    ensures r.Ok? ==> forall i :: 0 <= i < |r.value| ==>
              r.value[i].id in db.requests && r.value[i] == Serialize(db.requests[r.value[i].id])
              && Decidable(r.value[i].status)
    ensures r.Ok? ==> forall id :: id in db.requests && Decidable(db.requests[id].status) ==>
              Serialize(db.requests[id]) in r.value
    ensures r.Ok? ==> forall i, j :: 0 <= i < j < |r.value| ==> r.value[i].createdAt > r.value[j].createdAt
  {
    if !IsAdmin(caller) then Err(AdminRequired)
    else Ok(SelectRequests(db.requests, db.order, (row: Row) => Decidable(row.status)))
  }

  /** Under the workflow invariant no record is PENDING and the LOW ones are
      already approved, so a decidable record is an escalated MEDIUM or
      HIGH one with no decision and exactly two audit entries. */
  lemma DecidableOnlyWhenEscalated(requests: map<Id, Row>, logs: seq<LogEntry>, id: Id)
    requires WorkflowInvariant(requests, logs) && id in requests
    ensures Decidable(requests[id].status) <==> requests[id].status == RequestStatus.Escalated
    ensures Decidable(requests[id].status) ==>
              && requests[id].riskLevel != RiskLevel.Low
              && requests[id].decidedBy == None && requests[id].decisionReason == None
              && ActionsFor(logs, id) == [AuditAction.Escalated, AuditAction.Submitted]
  {
    assert RecordAgrees(requests, logs, id);
  }

  /** The administrator's queue holds exactly the escalated records, and
      none of them is LOW risk or already decided. */
  lemma PendingQueueIsEscalated(db: Database, caller: UserProfile)
    requires Invariant(db) && IsAdmin(caller)
    ensures var r := ListPendingRequests(db, caller);
            && r.Ok?
            && (forall i :: 0 <= i < |r.value| ==>
                  && r.value[i].status == RequestStatus.Escalated && r.value[i].riskLevel != RiskLevel.Low
                  && r.value[i].decidedBy == None)
            && (forall id :: id in db.requests && db.requests[id].status == RequestStatus.Escalated ==>
                  Serialize(db.requests[id]) in r.value)
  {
    var r := ListPendingRequests(db, caller);
    forall i | 0 <= i < |r.value|
      ensures r.value[i].status == RequestStatus.Escalated && r.value[i].riskLevel != RiskLevel.Low
      ensures r.value[i].decidedBy == None
    {
      DecidableOnlyWhenEscalated(db.requests, db.auditLogs, r.value[i].id);
    }
  }

  // ---- invariant preservation ----

  /** The decision a handler records: approval with any reason, or
      rejection with a reason of at least five characters. */
  predicate DecisionAllowed(action: AuditAction, u: RowUpdate) {
    || (action == AuditAction.Approved && u.status == RequestStatus.Approved)
    || (action == AuditAction.Rejected && u.status == RequestStatus.Rejected
        && RejectionReasonMinLength <= |u.decisionReason|)
  }

  /** An update keeps a record well formed: it touches neither the content
      nor the risk columns. */
  lemma UpdateKeepsWellFormed(row: Row, u: RowUpdate)
    requires WellFormedRecord(row)
    ensures WellFormedRecord(Updated(row, u))
  {
    UpdateKeepsSubmittedColumns(row, u);
  }

  /** Updating one row with the next clock reading and appending one entry
      for it, stamped with the following reading, keeps the table
      invariant. */
  lemma UpdateKeepsTables(requests: map<Id, Row>, order: seq<Id>, logs: seq<LogEntry>, clock: nat,
                          id: Id, u: RowUpdate, entry: LogEntry)
    requires TablesValid(requests, order, logs, clock) && id in requests
    requires u.updatedAt == clock
    requires entry.id == |logs| && entry.requestId == id && entry.createdAt == clock + 1
    ensures TablesValid(requests[id := Updated(requests[id], u)], order, logs + [entry], clock + 2)
  {
    var requests', logs' := requests[id := Updated(requests[id], u)], logs + [entry];
    assert forall k :: k in requests' <==> k in requests;
    assert forall k :: k in requests ==> requests'[k].createdAt == requests[k].createdAt && requests'[k].id == requests[k].id;
    assert IndexValid(requests', order) by {
      forall i, j | 0 <= i < j < |order| ensures requests'[order[i]].createdAt < requests'[order[j]].createdAt {
        assert requests[order[i]].createdAt < requests[order[j]].createdAt;
      }
    }
    assert LogValid(logs', requests') by {
      forall i | 0 <= i < |logs'| ensures logs'[i].id == i && logs'[i].requestId in requests' {
        if i < |logs| { assert logs'[i] == logs[i]; }
      }
      forall i, j | 0 <= i < j < |logs'| ensures logs'[i].createdAt < logs'[j].createdAt {
        assert logs'[i] == logs[i];
        if j < |logs| { assert logs'[j] == logs[j]; }
      }
    }
    assert BeforeClock(requests', logs', clock + 2) by {
      forall k | k in requests' ensures requests'[k].createdAt <= requests'[k].updatedAt < clock + 2 {
        assert requests[k].createdAt <= requests[k].updatedAt < clock;
      }
      forall i | 0 <= i < |logs'| ensures logs'[i].createdAt < clock + 2 {
        if i < |logs| { assert logs'[i] == logs[i]; }
      }
    }
  }

  /** A decision on a decidable record, audited by one entry naming it,
      keeps the workflow invariant. */
  lemma DecisionKeepsWorkflow(requests: map<Id, Row>, logs: seq<LogEntry>, id: Id, u: RowUpdate, entry: LogEntry)
    requires WorkflowInvariant(requests, logs) && id in requests && Decidable(requests[id].status)
    requires entry.requestId == id && DecisionAllowed(entry.action, u)
    ensures WorkflowInvariant(requests[id := Updated(requests[id], u)], logs + [entry])
  {
    var requests' := requests[id := Updated(requests[id], u)];
    DecidableOnlyWhenEscalated(requests, logs, id);
    forall k ensures RecordAgrees(requests', logs + [entry], k) {
      ActionsForAppend(logs, entry, k);
      if k == id {
        assert RecordAgrees(requests, logs, id);
        UpdateKeepsWellFormed(requests[id], u);
      } else {
        assert RecordAgrees(requests, logs, k);
      }
    }
  }

  /** A decision recorded on a decidable record keeps the table invariant,
      and the workflow invariant when it held before. */
  lemma DecisionKeepsInvariant(requests: map<Id, Row>, order: seq<Id>, logs: seq<LogEntry>, clock: nat,
                               id: Id, u: RowUpdate, entry: LogEntry,
                               requests': map<Id, Row>, logs': seq<LogEntry>)
    requires TablesValid(requests, order, logs, clock)
    requires id in requests && Decidable(requests[id].status)
    requires u.updatedAt == clock && DecisionAllowed(entry.action, u)
    requires entry.id == |logs| && entry.requestId == id && entry.createdAt == clock + 1
    requires requests' == requests[id := Updated(requests[id], u)] && logs' == logs + [entry]
    ensures TablesValid(requests', order, logs', clock + 2)
    ensures WorkflowInvariant(requests, logs) ==> WorkflowInvariant(requests', logs')
  {
    UpdateKeepsTables(requests, order, logs, clock, id, u, entry);
    if WorkflowInvariant(requests, logs) {
      DecisionKeepsWorkflow(requests, logs, id, u, entry);
    }
  }

  // ---- handlers ----

  /** The common tail of both decisions: stamps the update with `_now()`,
      writes it, then appends the audit entry and answers with the
      updated row. */
  method RecordDecision(db: Database, requestId: Id, status: RequestStatus, reason: string,
                        action: AuditAction, admin: UserProfile, details: Details)
    returns (r: Result<Response, HttpError>)
    requires requestId in db.requests
    modifies db
    ensures var u := RowUpdate(status, admin.email, reason, old(db.clock));
            && db.requests == old(db.requests)[requestId := Updated(old(db.requests)[requestId], u)]
            && db.order == old(db.order)
            && db.auditLogs == old(db.auditLogs) + [LogEntry(|old(db.auditLogs)|, requestId, action, admin.email,
                                                             AdminRole, details, old(db.clock) + 1)]
            && db.clock == old(db.clock) + 2
            && r == Ok(Serialize(Updated(old(db.requests)[requestId], u)))
  {
    var now := db.Now();
    var u := RowUpdate(status, admin.email, reason, now);
    db.UpdateRequest(requestId, u);
    var updated := db.requests[requestId];
    WriteAuditLog(db, requestId, action, admin.email, AdminRole, details);
    r := Ok(Serialize(updated));
  }

  /** `approve_request`: 403 for a non-administrator, 404 for an unknown
      id, 400 unless the request is PENDING or ESCALATED; otherwise the
      record becomes APPROVED by the administrator with the supplied or
      default reason, and one APPROVED entry is appended. A decided request
      is final: deciding it again is a 400 that changes nothing. */
  method ApproveRequest(db: Database, requestId: Id, payload: ApprovalAction, admin: UserProfile)
    returns (r: Result<Response, HttpError>)
    requires db.Valid()
    modifies db
    ensures db.Valid()
    ensures old(Invariant(db)) ==> Invariant(db)
    ensures r.Ok? ==> requestId in db.requests && !Decidable(db.requests[requestId].status)
    ensures !IsAdmin(admin) ==> r == Err(AdminRequired) && unchanged(db)
    ensures IsAdmin(admin) && requestId !in old(db.requests) ==> r == Err(RequestNotFound) && unchanged(db)
    ensures IsAdmin(admin) && requestId in old(db.requests) && !Decidable(old(db.requests)[requestId].status) ==>
              r == Err(NotApprovable) && unchanged(db)
    ensures IsAdmin(admin) && requestId in old(db.requests) && Decidable(old(db.requests)[requestId].status) ==>
              var u := RowUpdate(RequestStatus.Approved, admin.email, ApprovalReason(payload.reason), old(db.clock));
              var row := Updated(old(db.requests)[requestId], u);
              && db.requests == old(db.requests)[requestId := row]
              && db.order == old(db.order)
              && db.auditLogs == old(db.auditLogs) + [LogEntry(|old(db.auditLogs)|, requestId, AuditAction.Approved,
                                                               admin.email, AdminRole, ReasonDetails(payload.reason),
                                                               old(db.clock) + 1)]
              && db.clock == old(db.clock) + 2
              && r == Ok(Serialize(row))
  {
    if !IsAdmin(admin) {
      return Err(AdminRequired);
    }
    var fetched := FetchOr404(db, requestId);
    if fetched.Err? {
      return Err(fetched.error);
    }
    if !Decidable(fetched.value.status) {
      return Err(NotApprovable);
    }
    ghost var requests0, order0, logs0, clock0 := db.requests, db.order, db.auditLogs, db.clock;
    r := RecordDecision(db, requestId, RequestStatus.Approved, ApprovalReason(payload.reason), AuditAction.Approved,
                        admin, ReasonDetails(payload.reason));
    DecisionKeepsInvariant(requests0, order0, logs0, clock0, requestId,
                           RowUpdate(RequestStatus.Approved, admin.email, ApprovalReason(payload.reason), clock0),
                           db.auditLogs[|logs0|], db.requests, db.auditLogs);
  }

  /** `reject_request`: 403 for a non-administrator, 422 for a reason
      shorter than five characters, 404 for an unknown id, 400 unless the
      request is PENDING or ESCALATED; otherwise the record becomes
      REJECTED by the administrator with the supplied reason, and one
      REJECTED entry is appended. A decided request is final, as for
      approval. */
  method RejectRequest(db: Database, requestId: Id, reason: string, admin: UserProfile)
    returns (r: Result<Response, HttpError>)
    requires db.Valid()
    modifies db
    ensures db.Valid()
    ensures old(Invariant(db)) ==> Invariant(db)
    ensures r.Ok? ==> requestId in db.requests && !Decidable(db.requests[requestId].status)
    ensures !IsAdmin(admin) ==> r == Err(AdminRequired) && unchanged(db)
    ensures IsAdmin(admin) && ParseRejectionAction(reason).Err? ==> r == Err(Unprocessable) && unchanged(db)
    ensures IsAdmin(admin) && ParseRejectionAction(reason).Ok? && requestId !in old(db.requests) ==>
              r == Err(RequestNotFound) && unchanged(db)
    ensures IsAdmin(admin) && ParseRejectionAction(reason).Ok? && requestId in old(db.requests)
            && !Decidable(old(db.requests)[requestId].status) ==>
              r == Err(NotRejectable) && unchanged(db)
    ensures IsAdmin(admin) && ParseRejectionAction(reason).Ok? && requestId in old(db.requests)
            && Decidable(old(db.requests)[requestId].status) ==>
              var u := RowUpdate(RequestStatus.Rejected, admin.email, reason, old(db.clock));
              var row := Updated(old(db.requests)[requestId], u);
              && db.requests == old(db.requests)[requestId := row]
              && db.order == old(db.order)
              && db.auditLogs == old(db.auditLogs) + [LogEntry(|old(db.auditLogs)|, requestId, AuditAction.Rejected,
                                                               admin.email, AdminRole, ReasonDetails(Some(reason)),
                                                               old(db.clock) + 1)]
              && db.clock == old(db.clock) + 2
              && r == Ok(Serialize(row))
  {
    if !IsAdmin(admin) {
      return Err(AdminRequired);
    }
    var parsed := ParseRejectionAction(reason);
    if parsed.Err? {
      return Err(parsed.error);
    }
    var payload := parsed.value;
    var fetched := FetchOr404(db, requestId);
    if fetched.Err? {
      return Err(fetched.error);
    }
    if !Decidable(fetched.value.status) {
      return Err(NotRejectable);
    }
    ghost var requests0, order0, logs0, clock0 := db.requests, db.order, db.auditLogs, db.clock;
    r := RecordDecision(db, requestId, RequestStatus.Rejected, payload.reason, AuditAction.Rejected,
                        admin, ReasonDetails(Some(payload.reason)));
    DecisionKeepsInvariant(requests0, order0, logs0, clock0, requestId,
                           RowUpdate(RequestStatus.Rejected, admin.email, payload.reason, clock0),
                           db.auditLogs[|logs0|], db.requests, db.auditLogs);
  }
}
