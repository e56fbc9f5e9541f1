/** The two database tables the backend uses, `requests` and `audit_logs`,
    held by one client object, with the table operations the routers call
    (insert, update by id, read) and a clock standing for `_now()`. */
module Store {
  import opened Wrappers
  import opened Models

  type Id = string

  /** A row of the `requests` table. The nullable columns are `Option`s;
      `riskFactors` is nullable in the table although this backend always
      writes it. Timestamps are readings of the abstract clock. */
  datatype Row = Row(
    id: Id,
    title: string,
    description: string,
    requestType: RequestType,
    requesterId: string,
    requesterEmail: string,
    status: RequestStatus,
    riskLevel: RiskLevel,
    riskScore: int,
    riskFactors: Option<seq<string>>,
    decisionReason: Option<string>,
    decidedBy: Option<string>,
    createdAt: nat,
    updatedAt: nat)

  /** The `details` payload of an audit entry. */
  datatype Details =
    | RiskDetails(riskLevel: RiskLevel, riskScore: int, riskFactors: seq<string>)
    | TypeDetails(requestType: RequestType)
    | ReasonDetails(reason: Option<string>)

  /** A row of the `audit_logs` table. */
  datatype LogEntry = LogEntry(
    id: nat,
    requestId: Id,
    action: AuditAction,
    performedBy: string,
    performedByRole: string,
    details: Details,
    createdAt: nat)

  /** The columns a decision writes: `status`, `decided_by`,
      `decision_reason` and `updated_at`. */
  datatype RowUpdate = RowUpdate(status: RequestStatus, decidedBy: string, decisionReason: string, updatedAt: nat)

  /** The row after an UPDATE that sets exactly the columns of `u`. */
  function Updated(row: Row, u: RowUpdate): Row {
    row.(status := u.status, decidedBy := Some(u.decidedBy), decisionReason := Some(u.decisionReason),
         updatedAt := u.updatedAt)
  }

  /** An update never touches the identity, the content, the owner, the
      risk columns or the creation time of a row. */
  lemma UpdateKeepsSubmittedColumns(row: Row, u: RowUpdate)
    ensures var r := Updated(row, u);
            && r.id == row.id && r.title == row.title && r.description == row.description
            && r.requestType == row.requestType
            && r.requesterId == row.requesterId && r.requesterEmail == row.requesterEmail
            && r.riskLevel == row.riskLevel && r.riskScore == row.riskScore && r.riskFactors == row.riskFactors
            && r.createdAt == row.createdAt
            && r.status == u.status && r.decidedBy == Some(u.decidedBy)
            && r.decisionReason == Some(u.decisionReason) && r.updatedAt == u.updatedAt
  {
  }

  // ---- structural invariant of the tables ----

  /** `order` lists every key of the requests table once, in insertion
      order, which is also ascending `created_at` order. */
  ghost predicate IndexValid(requests: map<Id, Row>, order: seq<Id>) {
    && (forall i :: 0 <= i < |order| ==> order[i] in requests && requests[order[i]].id == order[i])
    && (forall id :: id in requests ==> id in order)
    && (forall i, j :: 0 <= i < j < |order| ==> requests[order[i]].createdAt < requests[order[j]].createdAt)
  }

  /** Every audit entry has its position as id, names an existing request,
      and entries are in ascending `created_at` order. */
  ghost predicate LogValid(logs: seq<LogEntry>, requests: map<Id, Row>) {
    && (forall i :: 0 <= i < |logs| ==> logs[i].id == i && logs[i].requestId in requests)
    && (forall i, j :: 0 <= i < j < |logs| ==> logs[i].createdAt < logs[j].createdAt)
  }

  /** Every timestamp already handed out lies before the clock. */
  ghost predicate BeforeClock(requests: map<Id, Row>, logs: seq<LogEntry>, clock: nat) {
    && (forall id :: id in requests ==> requests[id].createdAt <= requests[id].updatedAt < clock)
    && (forall i :: 0 <= i < |logs| ==> logs[i].createdAt < clock)
  }

  ghost predicate TablesValid(requests: map<Id, Row>, order: seq<Id>, logs: seq<LogEntry>, clock: nat) {
    IndexValid(requests, order) && LogValid(logs, requests) && BeforeClock(requests, logs, clock)
  }

  /** Moving the clock on keeps the table invariant. */
  lemma TablesValidLater(requests: map<Id, Row>, order: seq<Id>, logs: seq<LogEntry>, clock: nat, later: nat)
    requires TablesValid(requests, order, logs, clock) && clock <= later
    ensures TablesValid(requests, order, logs, later)
  {
  }

  /** The rows of the requests table in insertion order. */
  function Rows(requests: map<Id, Row>, order: seq<Id>): (rows: seq<Row>)
    requires forall i :: 0 <= i < |order| ==> order[i] in requests
    ensures |rows| == |order|
    ensures forall i :: 0 <= i < |order| ==> rows[i] == requests[order[i]]
  {
    seq(|order|, i requires 0 <= i < |order| => requests[order[i]])
  }

  /** The elements of `xs` that satisfy `keep`, last one first: a query
      filtered by `keep` and ordered by creation time, newest first. */
  function NewestFirst<T(!new)>(xs: seq<T>, keep: T -> bool): (r: seq<T>)
    ensures forall x :: x in r <==> x in xs && keep(x)
    ensures |r| <= |xs|
  {
    if xs == [] then []
    else
      var last, rest := xs[|xs| - 1], xs[..|xs| - 1];
      assert xs == rest + [last];
      (if keep(last) then [last] else []) + NewestFirst(rest, keep)
  }

  ghost predicate Ascending<T>(xs: seq<T>, stamp: T -> int) {
    forall i, j :: 0 <= i < j < |xs| ==> stamp(xs[i]) < stamp(xs[j])
  }

  ghost predicate Descending<T>(xs: seq<T>, stamp: T -> int) {
    forall i, j :: 0 <= i < j < |xs| ==> stamp(xs[i]) > stamp(xs[j])
  }

  /** When `stamp` increases strictly along `xs`, it decreases strictly
      along the result of `NewestFirst`. */
  lemma {:induction false} NewestFirstDescending<T(!new)>(xs: seq<T>, keep: T -> bool, stamp: T -> int)
    requires Ascending(xs, stamp)
    ensures Descending(NewestFirst(xs, keep), stamp)
  {
    if xs != [] {
      var last, rest := xs[|xs| - 1], xs[..|xs| - 1];
      assert Ascending(rest, stamp) by {
        forall i, j | 0 <= i < j < |rest| ensures stamp(rest[i]) < stamp(rest[j]) {
          assert rest[i] == xs[i] && rest[j] == xs[j];
        }
      }
      NewestFirstDescending(rest, keep, stamp);
      var tail := NewestFirst(rest, keep);
      assert NewestFirst(xs, keep) == (if keep(last) then [last] else []) + tail;
      if keep(last) {
        forall x | x in tail ensures stamp(x) < stamp(last) {
          var k :| 0 <= k < |rest| && rest[k] == x;
          assert xs[k] == x;
        }
        DescendingCons(last, tail, stamp);
      } else {
        assert NewestFirst(xs, keep) == tail;
      }
    }
  }

  lemma DescendingCons<T>(x: T, xs: seq<T>, stamp: T -> int)
    requires Descending(xs, stamp)
    requires forall y :: y in xs ==> stamp(y) < stamp(x)
    ensures Descending([x] + xs, stamp)
  {
    var r := [x] + xs;
    forall i, j | 0 <= i < j < |r| ensures stamp(r[i]) > stamp(r[j]) {
      assert r[j] == xs[j - 1];
      if i > 0 {
        assert r[i] == xs[i - 1];
      }
    }
  }

  /** The database client: the two tables, the insertion order of the
      requests table, and the clock read by `_now()`. The primitives below
      neither require nor ensure `Valid()`: each states its whole new state,
      and the handlers that call them prove the invariant is kept. */
  class Database {
    var requests: map<Id, Row>
    var order: seq<Id>
    var auditLogs: seq<LogEntry>
    var clock: nat

    ghost predicate Valid()
      reads this
    {
      TablesValid(requests, order, auditLogs, clock)
    }

    constructor ()
      ensures Valid()
      ensures requests == map[] && order == [] && auditLogs == [] && clock == 0
    {
      requests, order, auditLogs, clock := map[], [], [], 0;
    }

    /** `_now()`: reads the clock, which then moves on. */
    method Now() returns (t: nat)
      modifies this
      ensures t == old(clock) && clock == old(clock) + 1
      ensures requests == old(requests) && order == old(order) && auditLogs == old(auditLogs)
    {
      t := clock;
      clock := clock + 1;
    }

    /** INSERT into `requests`; the primary key refuses an id already taken. */
    method InsertRequest(row: Row) returns (ok: bool)
      modifies this
      ensures ok <==> row.id !in old(requests)
      ensures requests == (if ok then old(requests)[row.id := row] else old(requests))
      ensures order == (if ok then old(order) + [row.id] else old(order))
      ensures auditLogs == old(auditLogs) && clock == old(clock)
    {
      ok := row.id !in requests;
      if ok {
        requests := requests[row.id := row];
        order := order + [row.id];
      }
    }

    /** UPDATE `requests` SET the columns of `u` WHERE id = `id`. */
    method UpdateRequest(id: Id, u: RowUpdate)
      requires id in requests
      modifies this
      ensures requests == old(requests)[id := Updated(old(requests)[id], u)]
      ensures order == old(order) && auditLogs == old(auditLogs) && clock == old(clock)
    {
      requests := requests[id := Updated(requests[id], u)];
    }

    /** INSERT into `audit_logs`. */
    method InsertAuditLog(entry: LogEntry)
      modifies this
      ensures auditLogs == old(auditLogs) + [entry]
      ensures requests == old(requests) && order == old(order) && clock == old(clock)
    {
      auditLogs := auditLogs + [entry];
    }
  }
}
