/** The requests router: submission (classification, initial-status policy,
    record construction, two audit entries), the caller's own requests, and
    the owner-or-admin read of one request. Also the invariant every
    handler keeps: stored risk columns are the classifier's output and each
    record's audit trail agrees with its status. */
module Requests {
  import opened Wrappers
  import opened Http
  import opened Models
  import opened RiskEngine
  import opened Store

  const SystemActor := "system"
  const AutoApprovedReason := "Auto-approved: low risk classification"

  /** The response body for a request (`RequestResponse`). */
  datatype Response = Response(
    id: Id,
    title: string,
    description: string,
    requestType: RequestType,
    requesterId: string,
    requesterEmail: string,
    status: RequestStatus,
    riskLevel: RiskLevel,
    riskScore: int,
    riskFactors: seq<string>,
    decisionReason: Option<string>,
    decidedBy: Option<string>,
    createdAt: nat,
    updatedAt: nat)

  /** `_serialize`: a missing risk-factor list becomes the empty list;
      every other column is copied. */
  function Serialize(row: Row): (r: Response)
    ensures r.riskFactors == [] <==> row.riskFactors == None || row.riskFactors == Some([])
    ensures row.riskFactors.Some? ==> r.riskFactors == row.riskFactors.value
    ensures && r.id == row.id && r.title == row.title && r.description == row.description
            && r.requestType == row.requestType && r.requesterId == row.requesterId
            && r.requesterEmail == row.requesterEmail && r.status == row.status
            && r.riskLevel == row.riskLevel && r.riskScore == row.riskScore
            && r.decisionReason == row.decisionReason && r.decidedBy == row.decidedBy
            && r.createdAt == row.createdAt && r.updatedAt == row.updatedAt
  {
    Response(row.id, row.title, row.description, row.requestType, row.requesterId, row.requesterEmail,
             row.status, row.riskLevel, row.riskScore, row.riskFactors.GetOr([]),
             row.decisionReason, row.decidedBy, row.createdAt, row.updatedAt)
  }

  /** Serialization loses nothing but the difference between a missing and
      a present risk-factor list. */
  lemma SerializeInjective(a: Row, b: Row)
    requires a.riskFactors.Some? && b.riskFactors.Some?
    ensures Serialize(a) == Serialize(b) <==> a == b
  {
    if Serialize(a) == Serialize(b) {
      assert a.riskFactors.value == Serialize(a).riskFactors;
    }
  }

  // ---- submission ----

  datatype Decision = Decision(status: RequestStatus, action: AuditAction)

  /** The initial-status policy: LOW is approved at once (audited as
      AUTO_APPROVED); every other level is escalated. */
  function InitialDecision(level: RiskLevel): (d: Decision)
    ensures d.status == RequestStatus.Approved <==> level == Low
    ensures d.status == RequestStatus.Approved || d.status == RequestStatus.Escalated
    ensures d.action == AuditAction.AutoApproved <==> d.status == RequestStatus.Approved
    ensures d.action == AuditAction.AutoApproved || d.action == AuditAction.Escalated
  {
    if level == Low then Decision(RequestStatus.Approved, AuditAction.AutoApproved)
    else Decision(RequestStatus.Escalated, AuditAction.Escalated)
  }

  /** The row `create_request` inserts for a validated body whose
      classification is `risk`. */
  function SubmissionRecord(id: Id, payload: RequestCreate, risk: RiskAnalysis, caller: UserProfile,
                            createdAt: nat, updatedAt: nat): Row {
    var decision := InitialDecision(risk.level);
    var auto := decision.status == RequestStatus.Approved;
    Row(id, payload.title, payload.description, payload.requestType, caller.id, caller.email,
        decision.status, risk.level, risk.score, Some(risk.factors),
        if auto then Some(AutoApprovedReason) else None,
        if auto then Some(SystemActor) else None,
        createdAt, updatedAt)
  }

  /** What a new record holds: the caller as owner, the classification as
      risk columns, APPROVED by "system" with the fixed reason exactly when
      the level is LOW, otherwise ESCALATED with no decision; never
      REJECTED. */
  lemma SubmissionPolicy(id: Id, payload: RequestCreate, risk: RiskAnalysis, caller: UserProfile,
                         createdAt: nat, updatedAt: nat)
    ensures var row := SubmissionRecord(id, payload, risk, caller, createdAt, updatedAt);
            && row.id == id && row.title == payload.title && row.description == payload.description
            && row.requestType == payload.requestType
            && row.requesterId == caller.id && row.requesterEmail == caller.email
            && row.riskLevel == risk.level && row.riskScore == risk.score && row.riskFactors == Some(risk.factors)
            && (row.status == RequestStatus.Approved <==> risk.level == Low)
            && (row.status == RequestStatus.Approved || row.status == RequestStatus.Escalated)
            && (row.status == RequestStatus.Approved ==>
                  row.decidedBy == Some(SystemActor) && row.decisionReason == Some(AutoApprovedReason))
            && (row.status == RequestStatus.Escalated ==> row.decidedBy == None && row.decisionReason == None)
            && row.createdAt == createdAt && row.updatedAt == updatedAt
  {
  }

  // ---- the workflow invariant ----

  /** The actions of the audit entries for `id`, oldest first. */
  ghost function ActionsFor(logs: seq<LogEntry>, id: Id): seq<AuditAction> {
    if logs == [] then []
    else
      var last := logs[|logs| - 1];
      ActionsFor(logs[..|logs| - 1], id) + (if last.requestId == id then [last.action] else [])
  }

  lemma ActionsForAppend(logs: seq<LogEntry>, e: LogEntry, id: Id)
    ensures ActionsFor(logs + [e], id) == ActionsFor(logs, id) + (if e.requestId == id then [e.action] else [])
  {
    assert (logs + [e])[..|logs|] == logs;
  }

  lemma {:induction false} ActionsForUnreferenced(logs: seq<LogEntry>, id: Id)
    requires forall i :: 0 <= i < |logs| ==> logs[i].requestId != id
    ensures ActionsFor(logs, id) == []
  {
    if logs != [] {
      ActionsForUnreferenced(logs[..|logs| - 1], id);
    }
  }

  /** A stored record passed validation and its risk columns are the
      classifier's output for its own title and description. */
  ghost predicate WellFormedRecord(row: Row) {
    && ValidTitle(row.title) && ValidDescription(row.description)
    && var risk := ClassifyRisk(row.title, row.description);
       row.riskLevel == risk.level && row.riskScore == risk.score && row.riskFactors == Some(risk.factors)
  }

  /** The audit trail of a record agrees with its state: an auto-approved
      record has [AUTO_APPROVED, SUBMITTED]; an escalated one has
      [ESCALATED, SUBMITTED] and, once an administrator decided it, exactly
      one more entry naming the decision. */
  ghost predicate TrailAgrees(actions: seq<AuditAction>, row: Row) {
    if row.riskLevel == Low then
      && actions == [AuditAction.AutoApproved, AuditAction.Submitted]
      && row.status == RequestStatus.Approved
      && row.decidedBy == Some(SystemActor) && row.decisionReason == Some(AutoApprovedReason)
    else
      || (&& actions == [AuditAction.Escalated, AuditAction.Submitted]
          && row.status == RequestStatus.Escalated && row.decidedBy == None && row.decisionReason == None)
      || (&& actions == [AuditAction.Escalated, AuditAction.Submitted, AuditAction.Approved]
          && row.status == RequestStatus.Approved && row.decidedBy.Some? && row.decisionReason.Some?)
      || (&& actions == [AuditAction.Escalated, AuditAction.Submitted, AuditAction.Rejected]
          && row.status == RequestStatus.Rejected && row.decidedBy.Some? && row.decisionReason.Some?
          && RejectionReasonMinLength <= |row.decisionReason.value|)
  }

  /** The record stored under `id`, if there is one, is well formed and its
      audit trail agrees with it. */
  ghost predicate RecordAgrees(requests: map<Id, Row>, logs: seq<LogEntry>, id: Id) {
    id in requests ==> WellFormedRecord(requests[id]) && TrailAgrees(ActionsFor(logs, id), requests[id])
  }

  ghost predicate WorkflowInvariant(requests: map<Id, Row>, logs: seq<LogEntry>) {
    forall id {:trigger RecordAgrees(requests, logs, id)} :: RecordAgrees(requests, logs, id)
  }

  /** The invariant every handler requires and preserves. */
  ghost predicate Invariant(db: Database)
    reads db
  {
    db.Valid() && WorkflowInvariant(db.requests, db.auditLogs)
  }

  /** The base case: empty tables satisfy the workflow invariant. */
  lemma EmptyTablesKeepWorkflow()
    ensures WorkflowInvariant(map[], [])
  {
    forall id ensures RecordAgrees(map[], [], id) {
    }
  }

  /** A newly constructed `Database` satisfies the whole invariant, so every
      reachable state does: each handler keeps it. */
  lemma NewDatabaseInvariant(db: Database)
    requires db.requests == map[] && db.order == [] && db.auditLogs == [] && db.clock == 0
    ensures Invariant(db)
  {
    EmptyTablesKeepWorkflow();
  }

  /** Audit completeness: a record has two audit entries, plus one exactly
      when an administrator decided it; no record is ever PENDING. */
  lemma AuditTrailOfRecord(requests: map<Id, Row>, logs: seq<LogEntry>, id: Id)
    requires WorkflowInvariant(requests, logs) && id in requests
    ensures requests[id].status != RequestStatus.Pending
    ensures |ActionsFor(logs, id)| == 2 || |ActionsFor(logs, id)| == 3
    ensures |ActionsFor(logs, id)| == 3 <==> requests[id].riskLevel != Low && requests[id].status != RequestStatus.Escalated
    ensures requests[id].status == RequestStatus.Escalated ==> ActionsFor(logs, id) == [AuditAction.Escalated, AuditAction.Submitted]
  {
    assert RecordAgrees(requests, logs, id);
  }

  /** The two audit entries a submission appends, in the order written. */
  function SubmissionEntries(position: nat, id: Id, payload: RequestCreate, risk: RiskAnalysis, caller: UserProfile,
                             now: nat): seq<LogEntry> {
    [LogEntry(position, id, InitialDecision(risk.level).action, caller.email, caller.role,
              RiskDetails(risk.level, risk.score, risk.factors), now),
     LogEntry(position + 1, id, AuditAction.Submitted, caller.email, caller.role,
              TypeDetails(payload.requestType), now + 1)]
  }

  /** A new record, classified by the classifier, agrees with the workflow
      invariant together with its two entries. */
  lemma NewRecordAgrees(id: Id, payload: RequestCreate, caller: UserProfile, createdAt: nat, updatedAt: nat)
    requires ValidRequestCreate(payload)
    ensures var risk := ClassifyRisk(payload.title, payload.description);
            var row := SubmissionRecord(id, payload, risk, caller, createdAt, updatedAt);
            && WellFormedRecord(row)
            && TrailAgrees([InitialDecision(risk.level).action, AuditAction.Submitted], row)
  {
  }

  /** Appending entries for `id` changes the trail of no other record. */
  lemma OtherTrailsUnchanged(logs: seq<LogEntry>, entries: seq<LogEntry>, id: Id, k: Id)
    requires |entries| == 2 && entries[0].requestId == id && entries[1].requestId == id
    ensures ActionsFor(logs + entries, k) ==
            ActionsFor(logs, k) + (if k == id then [entries[0].action, entries[1].action] else [])
  {
    assert logs + entries == logs + [entries[0]] + [entries[1]];
    ActionsForAppend(logs, entries[0], k);
    ActionsForAppend(logs + [entries[0]], entries[1], k);
  }

  /** Inserting a row with a fresh id and the next two clock readings, then
      appending two entries for it stamped with the following two, keeps
      the table invariant. */
  lemma InsertKeepsTables(requests: map<Id, Row>, order: seq<Id>, logs: seq<LogEntry>, clock: nat,
                          row: Row, entries: seq<LogEntry>)
    requires TablesValid(requests, order, logs, clock)
    requires row.id !in requests && row.createdAt == clock && row.updatedAt == clock + 1
    requires |entries| == 2
    requires forall k :: 0 <= k < 2 ==>
               entries[k].id == |logs| + k && entries[k].requestId == row.id && entries[k].createdAt == clock + 2 + k
    ensures TablesValid(requests[row.id := row], order + [row.id], logs + entries, clock + 4)
  {
    var requests', order', logs' := requests[row.id := row], order + [row.id], logs + entries;
    assert IndexValid(requests', order') by {
      forall i | 0 <= i < |order'| ensures order'[i] in requests' && requests'[order'[i]].id == order'[i] {
        if i < |order| { assert order[i] in requests; }
      }
      forall i, j | 0 <= i < j < |order'| ensures requests'[order'[i]].createdAt < requests'[order'[j]].createdAt {
        assert order[i] in requests;
        if j < |order| { assert order[j] in requests; }
      }
    }
    assert LogValid(logs', requests') by {
      forall i | 0 <= i < |logs'| ensures logs'[i].id == i && logs'[i].requestId in requests' {
        if i >= |logs| { assert logs'[i] == entries[i - |logs|]; }
      }
      forall i, j | 0 <= i < j < |logs'| ensures logs'[i].createdAt < logs'[j].createdAt {
        if j >= |logs| {
          assert logs'[j] == entries[j - |logs|];
          if i >= |logs| { assert logs'[i] == entries[i - |logs|]; }
        }
      }
    }
  }

  /** Adding a well-formed record under a fresh id, with two entries for it
      whose actions agree with it, keeps the workflow invariant. */
  lemma AddRecordKeepsWorkflow(requests: map<Id, Row>, logs: seq<LogEntry>, entries: seq<LogEntry>, row: Row)
    requires WorkflowInvariant(requests, logs)
    requires forall i :: 0 <= i < |logs| ==> logs[i].requestId in requests
    requires row.id !in requests
    requires |entries| == 2 && entries[0].requestId == row.id && entries[1].requestId == row.id
    requires WellFormedRecord(row) && TrailAgrees([entries[0].action, entries[1].action], row)
    ensures WorkflowInvariant(requests[row.id := row], logs + entries)
  {
    var requests' := requests[row.id := row];
    forall i | 0 <= i < |logs| ensures logs[i].requestId != row.id {
      assert logs[i].requestId in requests;
    }
    ActionsForUnreferenced(logs, row.id);
    forall k ensures RecordAgrees(requests', logs + entries, k) {
      OtherTrailsUnchanged(logs, entries, row.id, k);
      if k != row.id {
        assert RecordAgrees(requests, logs, k);
      }
    }
  }

  /** A submission with a fresh id keeps the table invariant, and the
      workflow invariant when it held before. */
  lemma SubmissionKeepsInvariant(requests: map<Id, Row>, order: seq<Id>, logs: seq<LogEntry>, clock: nat,
                                 payload: RequestCreate, caller: UserProfile, id: Id,
                                 requests': map<Id, Row>, order': seq<Id>, logs': seq<LogEntry>)
    requires TablesValid(requests, order, logs, clock)
    requires ValidRequestCreate(payload) && id !in requests
    requires var risk := ClassifyRisk(payload.title, payload.description);
             && requests' == requests[id := SubmissionRecord(id, payload, risk, caller, clock, clock + 1)]
             && order' == order + [id]
             && logs' == logs + SubmissionEntries(|logs|, id, payload, risk, caller, clock + 2)
    ensures TablesValid(requests', order', logs', clock + 4)
    ensures WorkflowInvariant(requests, logs) ==> WorkflowInvariant(requests', logs')
  {
    var risk := ClassifyRisk(payload.title, payload.description);
    var row := SubmissionRecord(id, payload, risk, caller, clock, clock + 1);
    var entries := SubmissionEntries(|logs|, id, payload, risk, caller, clock + 2);
    InsertKeepsTables(requests, order, logs, clock, row, entries);
    if WorkflowInvariant(requests, logs) {
      NewRecordAgrees(id, payload, caller, clock, clock + 1);
      AddRecordKeepsWorkflow(requests, logs, entries, row);
    }
  }

  // ---- handlers ----

  /** `_write_audit_log`: appends one entry stamped with the clock; the
      write always succeeds in this model. */
  method WriteAuditLog(db: Database, requestId: Id, action: AuditAction, performedBy: string,
                       performedByRole: string, details: Details)
    modifies db
    ensures db.auditLogs == old(db.auditLogs) + [LogEntry(|old(db.auditLogs)|, requestId, action, performedBy,
                                                         performedByRole, details, old(db.clock))]
    ensures db.clock == old(db.clock) + 1
    ensures db.requests == old(db.requests) && db.order == old(db.order)
  {
    var now := db.Now();
    db.InsertAuditLog(LogEntry(|db.auditLogs|, requestId, action, performedBy, performedByRole, details, now));
  }

  /** `create_request`: validates the body, classifies it, then inserts the
      record under `newId` (the generated uuid) and writes its two audit
      entries. The table invariant is kept, and so is the workflow invariant
      whenever it held before. */
  method CreateRequest(db: Database, title: string, description: string, requestType: string,
                       caller: UserProfile, newId: Id)
    returns (r: Result<Response, HttpError>)
    requires db.Valid()
    modifies db
    ensures db.Valid()
    ensures old(Invariant(db)) ==> Invariant(db)
    ensures ParseRequestCreate(title, description, requestType).Err? ==> r == Err(Unprocessable) && unchanged(db)
    ensures ParseRequestCreate(title, description, requestType).Ok? && newId in old(db.requests) ==>
              && r == Err(CreateFailed)
              && db.requests == old(db.requests) && db.order == old(db.order) && db.auditLogs == old(db.auditLogs)
              && db.clock == old(db.clock) + 2
    ensures ParseRequestCreate(title, description, requestType).Ok? && newId !in old(db.requests) ==>
              var payload := ParseRequestCreate(title, description, requestType).value;
              var risk := ClassifyRisk(title, description);
              var row := SubmissionRecord(newId, payload, risk, caller, old(db.clock), old(db.clock) + 1);
              && db.requests == old(db.requests)[newId := row]
              && db.order == old(db.order) + [newId]
              && db.auditLogs == old(db.auditLogs) + SubmissionEntries(|old(db.auditLogs)|, newId, payload, risk, caller, old(db.clock) + 2)
              && db.clock == old(db.clock) + 4
              && r == Ok(Serialize(row))
  {
    var parsed := ParseRequestCreate(title, description, requestType);
    if parsed.Err? {
      return Err(parsed.error);
    }
    var payload := parsed.value;
    var risk := ClassifyRisk(payload.title, payload.description);
    ghost var requests0, order0, logs0, clock0 := db.requests, db.order, db.auditLogs, db.clock;
    r := Submit(db, payload, risk, caller, newId);
    if newId in requests0 {
      TablesValidLater(requests0, order0, logs0, clock0, db.clock);
    } else {
      SubmissionKeepsInvariant(requests0, order0, logs0, clock0, payload, caller, newId,
                               db.requests, db.order, db.auditLogs);
    }
  }

  /** The steps of `create_request` after classification: applies the
      initial-status policy, inserts the record and writes the decision
      entry followed by the SUBMITTED entry. */
  method Submit(db: Database, payload: RequestCreate, risk: RiskAnalysis, caller: UserProfile, newId: Id)
    returns (r: Result<Response, HttpError>)
    modifies db
    ensures newId in old(db.requests) ==>
              && r == Err(CreateFailed)
              && db.requests == old(db.requests) && db.order == old(db.order) && db.auditLogs == old(db.auditLogs)
              && db.clock == old(db.clock) + 2
    ensures newId !in old(db.requests) ==>
              var row := SubmissionRecord(newId, payload, risk, caller, old(db.clock), old(db.clock) + 1);
              && db.requests == old(db.requests)[newId := row]
              && db.order == old(db.order) + [newId]
              && db.auditLogs == old(db.auditLogs) + SubmissionEntries(|old(db.auditLogs)|, newId, payload, risk, caller, old(db.clock) + 2)
              && db.clock == old(db.clock) + 4
              && r == Ok(Serialize(row))
  {
    var decision := InitialDecision(risk.level);
    ghost var logs0, clock0 := db.auditLogs, db.clock;
    var createdAt := db.Now();
    var updatedAt := db.Now();
    var row := SubmissionRecord(newId, payload, risk, caller, createdAt, updatedAt);
    var ok := db.InsertRequest(row);
    if !ok {
      return Err(CreateFailed);
    }
    WriteAuditLog(db, newId, decision.action, caller.email, caller.role,
                  RiskDetails(risk.level, risk.score, risk.factors));
    WriteAuditLog(db, newId, AuditAction.Submitted, caller.email, caller.role, TypeDetails(payload.requestType));
    ghost var entries := SubmissionEntries(|logs0|, newId, payload, risk, caller, clock0 + 2);
    assert db.auditLogs == logs0 + [entries[0]] + [entries[1]];
    assert logs0 + [entries[0]] + [entries[1]] == logs0 + entries;
    r := Ok(Serialize(row));
  }

  /** Serializes each row, keeping the order. */
  function SerializeAll(rows: seq<Row>): (r: seq<Response>)
    ensures |r| == |rows|
    ensures forall i :: 0 <= i < |rows| ==> r[i] == Serialize(rows[i])
  {
    seq(|rows|, i requires 0 <= i < |rows| => Serialize(rows[i]))
  }

  /** The serialized rows kept by `keep`, newest `created_at` first. */
  function SelectRequests(requests: map<Id, Row>, order: seq<Id>, keep: Row -> bool): (r: seq<Response>)
    requires IndexValid(requests, order)
    ensures forall i :: 0 <= i < |r| ==>
              r[i].id in requests && r[i] == Serialize(requests[r[i].id]) && keep(requests[r[i].id])
    ensures forall id :: id in requests && keep(requests[id]) ==> Serialize(requests[id]) in r
    ensures forall i, j :: 0 <= i < j < |r| ==> r[i].createdAt > r[j].createdAt
  {
    var rows := NewestFirst(Rows(requests, order), keep);
    SelectedRows(requests, order, keep);
    SerializeAll(rows)
  }

  /** The rows `SelectRequests` serializes: stored rows kept by `keep`, all
      of them, strictly newest first. */
  lemma SelectedRows(requests: map<Id, Row>, order: seq<Id>, keep: Row -> bool)
    requires IndexValid(requests, order)
    ensures var rows := NewestFirst(Rows(requests, order), keep);
            && (forall row :: row in rows <==> row.id in requests && requests[row.id] == row && keep(row))
            && (forall i, j :: 0 <= i < j < |rows| ==> rows[i].createdAt > rows[j].createdAt)
  {
    var all := Rows(requests, order);
    var rows := NewestFirst(all, keep);
    RowsAreTheTable(requests, order);
    NewestFirstDescending(all, keep, (row: Row) => row.createdAt);
    assert Descending(rows, (row: Row) => row.createdAt);
  }

  /** Under the index invariant, the rows in insertion order are exactly the
      table's rows, each stored under its own id, ascending in `created_at`. */
  lemma RowsAreTheTable(requests: map<Id, Row>, order: seq<Id>)
    requires IndexValid(requests, order)
    ensures forall row :: row in Rows(requests, order) <==> row.id in requests && requests[row.id] == row
    ensures forall id :: id in requests ==> requests[id].id == id
    ensures Ascending(Rows(requests, order), (row: Row) => row.createdAt)
  {
    var rows := Rows(requests, order);
    forall id | id in requests ensures requests[id].id == id && requests[id] in rows {
      var k :| 0 <= k < |order| && order[k] == id;
      assert rows[k] == requests[id];
    }
  }

  /** `list_my_requests`: the caller's own requests, newest first. */
  function ListMyRequests(db: Database, caller: UserProfile): (r: seq<Response>)
    reads db
    requires db.Valid()
    ensures forall i :: 0 <= i < |r| ==>
              r[i].requesterId == caller.id && r[i].id in db.requests && r[i] == Serialize(db.requests[r[i].id])
    ensures forall id :: id in db.requests && db.requests[id].requesterId == caller.id ==>
              Serialize(db.requests[id]) in r
    ensures forall i, j :: 0 <= i < j < |r| ==> r[i].createdAt > r[j].createdAt
  {
    SelectRequests(db.requests, db.order, (row: Row) => row.requesterId == caller.id)
  }

  /** `get_request`: 404 for an unknown id, then 403 unless the caller is
      an administrator or the requester. */
  function GetRequest(db: Database, requestId: Id, caller: UserProfile): (r: Result<Response, HttpError>)
    reads db
    ensures requestId !in db.requests ==> r == Err(RequestNotFound)
    ensures requestId in db.requests ==>
              (r == Err(AccessDenied) <==> !IsAdmin(caller) && db.requests[requestId].requesterId != caller.id)
    ensures r.Ok? <==> requestId in db.requests && (IsAdmin(caller) || db.requests[requestId].requesterId == caller.id)
    ensures r.Ok? ==> r.value == Serialize(db.requests[requestId])
  {
    if requestId !in db.requests then Err(RequestNotFound)
    else
      var row := db.requests[requestId];
      if !IsAdmin(caller) && row.requesterId != caller.id then Err(AccessDenied)
      else Ok(Serialize(row))
  }
}
