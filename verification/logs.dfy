/** The audit-log router: an administrator reads the whole log, any other
    user the entries of the requests they own; both newest first. */
module Logs {
  import opened Models
  import opened Store

  /** The ids of the requests `userId` submitted. */
  function OwnedIds(requests: map<Id, Row>, userId: string): (ids: set<Id>)
    ensures forall id :: id in ids <==> id in requests && requests[id].requesterId == userId
  {
    set id | id in requests && requests[id].requesterId == userId
  }

  /** `get_logs`: for an administrator every entry; for anyone else the
      entries of their own requests, and nothing at all when they own
      none; ordered by `created_at`, newest first. */
  function GetLogs(db: Database, caller: UserProfile): (r: seq<LogEntry>)
    reads db
    requires db.Valid()
    ensures IsAdmin(caller) ==> forall e :: e in r <==> e in db.auditLogs
    ensures !IsAdmin(caller) ==> forall e :: e in r <==>
              e in db.auditLogs && e.requestId in db.requests && db.requests[e.requestId].requesterId == caller.id
    ensures forall i, j :: 0 <= i < j < |r| ==> r[i].createdAt > r[j].createdAt
  {
    LogValidAscending(db.auditLogs, db.requests);
    if IsAdmin(caller) then
      NewestFirstDescending(db.auditLogs, (e: LogEntry) => true, (e: LogEntry) => e.createdAt);
      NewestFirst(db.auditLogs, (e: LogEntry) => true)
    else
      var owned := OwnedIds(db.requests, caller.id);
      if owned == {} then []
      else
        NewestFirstDescending(db.auditLogs, (e: LogEntry) => e.requestId in owned, (e: LogEntry) => e.createdAt);
        NewestFirst(db.auditLogs, (e: LogEntry) => e.requestId in owned)
  }

  /** The log is ascending in `created_at`. */
  lemma LogValidAscending(logs: seq<LogEntry>, requests: map<Id, Row>)
    requires LogValid(logs, requests)
    ensures Ascending(logs, (e: LogEntry) => e.createdAt)
  {
  }

  /** An administrator sees every entry exactly once. */
  lemma AdminSeesWholeLog(db: Database, caller: UserProfile)
    requires db.Valid() && IsAdmin(caller)
    ensures |GetLogs(db, caller)| == |db.auditLogs|
  {
    NewestFirstKeepsAll(db.auditLogs, (e: LogEntry) => true);
  }

  /** Keeping every element keeps the length. */
  lemma {:induction false} NewestFirstKeepsAll<T(!new)>(xs: seq<T>, keep: T -> bool)
    requires forall x :: x in xs ==> keep(x)
    ensures |NewestFirst(xs, keep)| == |xs|
  {
    if xs != [] {
      var rest := xs[..|xs| - 1];
      assert forall x :: x in rest ==> x in xs;
      NewestFirstKeepsAll(rest, keep);
      assert xs[|xs| - 1] in xs;
    }
  }
}
