# Approval workflow backend: a Dafny model

This project models the server side of an approval-automation system. Users
submit requests (room bookings, access permissions, equipment checkouts, other).
A rule-based risk classifier scores each request. LOW-risk requests are
auto-approved; MEDIUM and HIGH requests are escalated to an administrator, who
approves or rejects them. Every step is recorded in an audit log.

The modules follow the backend's files:

- `models.dfy` (`Models`): the enumerations and their wire names, the user
  profile with its default role, and the field constraints on the submission
  and rejection bodies, as parsers that return a 422 error.
- `risk_engine.dfy` (`RiskEngine`): the two keyword catalogues, lower-casing,
  substring matching, scoring with the cap of 100 and the per-level floors,
  and the classifier's properties.
- `store.dfy` (`Store`): the `requests` and `audit_logs` tables, held by a
  `Database` class together with the insertion order and a clock that stands
  for `_now()`. It also holds the structural invariant of the tables and the
  "ORDER BY created_at DESC" query shape.
- `requests.dfy` (`Requests`): serialization, submission, the caller's own
  list, and the owner-or-admin read. It also holds the workflow invariant
  that every handler keeps: stored risk columns are the classifier's output,
  and each record's audit trail agrees with its status.
- `approvals.dfy` (`Approvals`): the administrator's queue and the approve and
  reject handlers.
- `logs.dfy` (`Logs`): reading the audit log.
- `wrappers.dfy` and `http.dfy` hold `Option`/`Result` and the HTTP errors the
  handlers raise.

The `Database` class owns the tables and their primitive operations (insert,
update, append to the log, read the clock). The route handlers are module-level
methods that take the `Database` and change it only through those primitives.
Each handler states its exact new state on every path: which row changed, the
exact audit entries appended, and how far the clock moved. Each handler keeps
the table invariant `Database.Valid()`, and keeps the workflow invariant
`Requests.Invariant` whenever it held before the call. Queries are functions
that read the object.

The model follows the code, which behaves as follows where a reader might
expect otherwise:

- The thresholds are HIGH from 60 and MEDIUM from 20.
- Any HIGH keyword forces HIGH. The request type does not influence the
  score.
- The administrator queue lists PENDING and ESCALATED requests, newest first.
- A decision on an already-decided request is a 400.
- The status update is a plain UPDATE by id, with no check of the current
  status at write time.
- A rejection reason only needs five characters, so whitespace counts.
- A submission writes two audit entries, the decision (AUTO_APPROVED or
  ESCALATED) first and SUBMITTED second.
- Non-administrators may read the audit entries of their own requests.

## Model

| member | source | states |
|---|---|---|
| Models.ParseRequestType | backend/app/models.py:10-14 | accepts exactly the four wire values of the request type, each mapping back to its own name |
| Models.ParseRequestStatus | backend/app/models.py:17-21 | accepts exactly the four status values, each mapping back to its own name |
| Models.NewUserProfile | backend/app/models.py:51-55 | a profile built without a role has role "user" and is not an administrator; given fields are kept |
| Models.ParseRequestCreate | backend/app/models.py:61-64 | a body is accepted iff the title has 3 to 200 characters, the description at least 10 and the type is a known value; otherwise 422 |
| Models.ParseRequestCreateRoundTrip | backend/app/models.py:61-64 | every valid body is recovered from its wire form |
| Models.ParseRejectionAction | backend/app/models.py:96-97 | a rejection body is accepted iff its reason has at least 5 characters; otherwise 422 |
| Models.ParseRejectionRoundTrip | backend/app/models.py:96-97 | every valid rejection body is recovered from its reason |
| RiskEngine.HighKeywordsDistinct | backend/app/risk_engine.py:10-15 | the HIGH catalogue lists no keyword twice |
| RiskEngine.MediumKeywordsDistinct | backend/app/risk_engine.py:17-20 | the MEDIUM catalogue lists no keyword twice |
| RiskEngine.CataloguesDisjoint | backend/app/risk_engine.py:10-20 | no keyword is in both catalogues |
| RiskEngine.HighKeywordsLowercase | backend/app/risk_engine.py:10-15 | every HIGH keyword is lower-case |
| RiskEngine.MediumKeywordsLowercase | backend/app/risk_engine.py:17-20 | every MEDIUM keyword is lower-case |
| RiskEngine.KeywordsLowercase | backend/app/risk_engine.py:10-20 | every keyword of either catalogue is lower-case |
| RiskEngine.CataloguesWellFormed | backend/app/risk_engine.py:10-20 | both catalogues are free of repetitions, disjoint and lower-case |
| RiskEngine.LowerChar | backend/app/risk_engine.py:32 | an ASCII capital becomes the lower-case letter at the same alphabet position, the Kelvin sign becomes 'k', every other character is left alone, and the result is never a capital |
| RiskEngine.ToLower | backend/app/risk_engine.py:32 | the length is kept and every character is lowered by `LowerChar`; its properties are ToLowerIsLower, ToLowerOfLower and ToLowerConcat |
| RiskEngine.Combined | backend/app/risk_engine.py:32 | the scanned text is the lowered title, one space and the lowered description |
| RiskEngine.ToLowerOfLower | backend/app/risk_engine.py:32 | lower-casing leaves lower-case text unchanged |
| RiskEngine.ToLowerIsLower | backend/app/risk_engine.py:32 | lower-cased text has no capitals, and lower-casing is idempotent |
| RiskEngine.ToLowerConcat | backend/app/risk_engine.py:32 | lower-casing commutes with concatenation |
| RiskEngine.ContainsIsSubstring | backend/app/risk_engine.py:34-35 | the scan holds exactly when the keyword occurs contiguously in the text (Python's `in` on strings) |
| RiskEngine.MatchedKeywordsSpec | backend/app/risk_engine.py:34-35 | a keyword is matched iff it is in the catalogue and occurs in the text; matches keep catalogue order and have no repetitions |
| RiskEngine.Contains | backend/app/risk_engine.py:34-35 | `kw in combined`: it holds only when the keyword fits in the text; ContainsIsSubstring states that it is exactly substring occurrence |
| RiskEngine.HighMatches | backend/app/risk_engine.py:34 | the HIGH keywords found in the combined lower-cased text; MatchedKeywordsSpec and ClassifyFactors state which ones and in what order |
| RiskEngine.MediumMatches | backend/app/risk_engine.py:35 | the MEDIUM keywords found in the combined lower-cased text; MatchedKeywordsSpec and ClassifyFactors state which ones and in what order |
| RiskEngine.MatchedKeywords | backend/app/risk_engine.py:34-35 | the list comprehension over one catalogue: at most one match per catalogue entry; MatchedKeywordsSpec states its members, order and lack of repetition |
| RiskEngine.NoMatchesIffEmpty | backend/app/risk_engine.py:34-35 | the match list is empty iff no catalogue keyword occurs in the text |
| RiskEngine.RawScore | backend/app/risk_engine.py:37 | the raw score is 20 points per HIGH match plus 10 per MEDIUM match, capped at 100, and lies in [0, 100] |
| RiskEngine.ClassifyRisk | backend/app/risk_engine.py:23-56 | `classify_risk`, without a contract of its own; specified by ClassifyScoreInRange, ClassifyHighLevel, ClassifyMediumLevel, ClassifyLowLevel, ClassifyLevelFromScore, ClassifyScoreFromMatches, ClassifyFactors and ClassifyCaseInsensitive |
| RiskEngine.ClassifyScoreInRange | backend/app/risk_engine.py:37-48 | the final score lies in [0, 100] |
| RiskEngine.ClassifyHighLevel | backend/app/risk_engine.py:40-44 | HIGH iff a HIGH keyword matched or the raw score reached 60; then the score is the raw score raised to 60 |
| RiskEngine.ClassifyMediumLevel | backend/app/risk_engine.py:45-48 | MEDIUM iff no HIGH keyword and one to five MEDIUM keywords matched; then the score is 10 per match, at least 20 and below 60 |
| RiskEngine.ClassifyLowLevel | backend/app/risk_engine.py:49-50 | LOW iff no keyword of either catalogue occurs in the text; then the score is 0 and there are no factors |
| RiskEngine.ClassifyLevelFromScore | backend/app/risk_engine.py:40-50 | the level is determined by the score: HIGH iff at least 60, MEDIUM iff 20 to 59, LOW iff below 20 |
| RiskEngine.ClassifyScoreFromMatches | backend/app/risk_engine.py:37-48 | the final score is never below the raw score and differs from it only by being raised to a level floor |
| RiskEngine.ClassifyFactors | backend/app/risk_engine.py:34-38 | the factors are the HIGH matches then the MEDIUM matches, each in catalogue order, without repetition, and exactly the catalogue keywords occurring in the text |
| RiskEngine.ClassifyMatchesIgnoringCase | backend/app/risk_engine.py:32-35 | a catalogue keyword is a factor iff it occurs in the text once both are lower-cased |
| RiskEngine.ClassifyCaseInsensitive | backend/app/risk_engine.py:32-56 | title/description pairs that agree up to case are classified identically |
| Store.Updated | backend/app/routers/approvals.py:51-56 | the row after the decision's `update_data`; UpdateKeepsSubmittedColumns states which columns it changes |
| Store.UpdateKeepsSubmittedColumns | backend/app/routers/approvals.py:51-63 | a decision update changes only status, decider, reason and update time; content, owner, risk columns and creation time are kept |
| Store.NewestFirst | backend/app/routers/requests.py:99-105 | the result holds exactly the rows that pass the filter |
| Store.NewestFirstDescending | backend/app/routers/requests.py:103 | when creation times increase along insertion order, the result is strictly newest first |
| Store.Database.Now | backend/app/routers/requests.py:19-20 | each `_now()` reading is the current clock, and the clock moves on by one |
| Store.Database.InsertRequest | backend/app/routers/requests.py:59-64 | the insert succeeds iff the id is new; then the row is stored and appended to the insertion order, otherwise nothing changes |
| Store.Database.UpdateRequest | backend/app/routers/approvals.py:57-63 | the row with that id is replaced by its update; nothing else changes |
| Store.Database.InsertAuditLog | backend/app/routers/requests.py:159-171 | exactly one entry is appended; the requests table is unchanged |
| Requests.Serialize | backend/app/routers/requests.py:140-156 | every column is copied into the response; a missing factor list becomes the empty list |
| Requests.SerializeInjective | backend/app/routers/requests.py:140-156 | rows with factor lists have equal responses iff they are equal |
| Requests.InitialDecision | backend/app/routers/requests.py:31-37 | APPROVED with AUTO_APPROVED iff the level is LOW, otherwise ESCALATED with ESCALATED |
| Requests.SubmissionRecord | backend/app/routers/requests.py:39-57 | the `request_data` row that is inserted; SubmissionPolicy states its columns |
| Requests.SubmissionEntries | backend/app/routers/requests.py:66-88 | the two audit entries a submission writes: the decision entry with the risk details, then SUBMITTED with the request type; CreateRequest states that exactly these are appended |
| Requests.SubmissionPolicy | backend/app/routers/requests.py:39-57 | a new record belongs to the caller, carries the classification, and is APPROVED by "system" with the fixed reason iff LOW, otherwise ESCALATED with no decision |
| Requests.NewRecordAgrees | backend/app/routers/requests.py:29-57 | a new record for a valid body is well formed and agrees with its two audit actions |
| Requests.ActionsForAppend | backend/app/routers/requests.py:159-171 | appending an entry extends only the trail of the request it names |
| Requests.InsertKeepsTables | backend/app/routers/requests.py:51-88 | inserting a fresh record and its two entries keeps the table invariant |
| Requests.AddRecordKeepsWorkflow | backend/app/routers/requests.py:59-88 | adding a well-formed record with agreeing entries keeps every record's trail in agreement |
| Requests.SubmissionKeepsInvariant | backend/app/routers/requests.py:23-90 | a successful submission keeps the table invariant, and the workflow invariant when it held before |
| Requests.EmptyTablesKeepWorkflow | backend/app/routers/requests.py:59-88 | empty tables satisfy the workflow invariant: the base case before any submission |
| Requests.NewDatabaseInvariant | backend/app/routers/requests.py:59-88 | a database with empty tables and clock 0, as the constructor leaves it, satisfies the whole invariant |
| Requests.AuditTrailOfRecord | backend/app/routers/requests.py:66-88 | under the invariant, no record is PENDING; every record has two audit entries, or three once an administrator decided it; an escalated one has exactly ESCALATED then SUBMITTED |
| Requests.WriteAuditLog | backend/app/routers/requests.py:159-173 | appends one entry naming the request, action, actor and role, stamped with the clock and numbered by its position |
| Requests.CreateRequest | backend/app/routers/requests.py:23-90 | 422 for an invalid body with nothing changed; 500 on an id clash, with only the two clock readings spent; otherwise exactly the classified record and its two entries are added; the table invariant is kept, and the workflow invariant when it held before |
| Requests.Submit | backend/app/routers/requests.py:31-90 | inserts the record built from the classification, then writes the decision entry and the SUBMITTED entry, in that order |
| Requests.SerializeAll | backend/app/routers/requests.py:106 | the list comprehension over the query result: one response per row, in the same order, each the row's serialization |
| Requests.SelectRequests | backend/app/routers/requests.py:99-105 | the stored rows passing the filter, all of them, serialized, strictly newest first |
| Requests.SelectedRows | backend/app/routers/requests.py:99-105 | the selected rows are exactly the stored rows that pass the filter, strictly newest first |
| Requests.ListMyRequests | backend/app/routers/requests.py:93-108 | all of the caller's requests and no others, strictly newest first |
| Requests.GetRequest | backend/app/routers/requests.py:111-135 | 404 for an unknown id, then 403 unless the caller is an administrator or the owner; otherwise the stored row |
| Models.IsAdmin | backend/app/auth.py:35 | the administrator test is the role being exactly "admin"; GetRequest, ListPendingRequests, ApproveRequest, RejectRequest and GetLogs state what it gates |
| Approvals.Decidable | backend/app/routers/approvals.py:46 | the status guard of both decisions: PENDING or ESCALATED; ApproveRequest and RejectRequest state its outcome |
| Approvals.ApprovalReason | backend/app/routers/approvals.py:54 | the supplied reason unless it is missing or empty, otherwise "Approved by admin" |
| Approvals.FetchOr404 | backend/app/routers/approvals.py:125-140 | the stored row, or 404 exactly when the id is unknown |
| Approvals.ListPendingRequests | backend/app/routers/approvals.py:18-34 | 403 for a non-administrator; otherwise every PENDING or ESCALATED request and no other, strictly newest first |
| Approvals.DecidableOnlyWhenEscalated | backend/app/routers/approvals.py:46-49 | under the invariant, a request that may be decided is ESCALATED, not LOW risk, undecided, with exactly two audit entries |
| Approvals.PendingQueueIsEscalated | backend/app/routers/approvals.py:22-32 | under the invariant, the queue holds exactly the escalated requests, none LOW risk or decided |
| Approvals.UpdateKeepsWellFormed | backend/app/routers/approvals.py:51-63 | a decision update keeps the record's risk columns those of the classifier |
| Approvals.UpdateKeepsTables | backend/app/routers/approvals.py:51-75 | updating one record and appending one entry for it keeps the table invariant |
| Approvals.DecisionKeepsWorkflow | backend/app/routers/approvals.py:46-118 | deciding a decidable record with one matching entry keeps every trail in agreement |
| Approvals.DecisionKeepsInvariant | backend/app/routers/approvals.py:37-120 | an approval or a rejection keeps the table invariant, and the workflow invariant when it held before |
| Approvals.RecordDecision | backend/app/routers/approvals.py:51-77 | the update is stamped with one clock reading and the audit entry with the next; the response is the updated row |
| Approvals.ApproveRequest | backend/app/routers/approvals.py:37-77 | 403, then 404, then 400 unless PENDING or ESCALATED, each with nothing changed; otherwise the record becomes APPROVED by the administrator, one APPROVED entry is appended, and the request is no longer decidable, so deciding it again is a 400 that changes nothing; the table invariant is kept, and the workflow invariant when it held before |
| Approvals.RejectRequest | backend/app/routers/approvals.py:80-120 | 403, then 422 for a short reason, then 404, then 400 unless PENDING or ESCALATED, each with nothing changed; otherwise the record becomes REJECTED with the given reason, one REJECTED entry is appended, and the request is no longer decidable, so deciding it again is a 400 that changes nothing; the table invariant is kept, and the workflow invariant when it held before |
| Logs.OwnedIds | backend/app/routers/logs.py:22-28 | exactly the ids of the requests the user submitted |
| Logs.GetLogs | backend/app/routers/logs.py:9-50 | an administrator gets every entry; anyone else gets exactly the entries of their own requests; always strictly newest first |
| Logs.AdminSeesWholeLog | backend/app/routers/logs.py:13-19 | an administrator's view has as many entries as the log |

## Left out

- Authentication: token verification, the profile lookup and its 401 errors are not modelled. The caller's profile is a parameter. The administrator gate of backend/app/auth.py:32-39 is modelled as the role test inside each admin handler.
- The authentication router, the configuration, the database client factory, the application entry point and the browser client are not part of this model.
- Concurrency: handlers run one at a time. Racing decisions, and an UPDATE that finds its row deleted (a 500 in the source), cannot arise.
- Failures of the storage service are not modelled, apart from the primary-key clash on insert. The 500 errors raised by the list and log queries on a storage exception are therefore not modelled either.
- Requests.WriteAuditLog: the source swallows a failed audit insert; here the append always succeeds.
- Identifiers: the uuid of a new request is the parameter `newId`. An audit entry's id is its position in the log.
- Timestamps: `_now()` is an abstract clock that moves on by one per reading. ISO-8601 strings are not modelled.
- RiskEngine.LowerChar: only ASCII capitals and U+212A KELVIN SIGN (which Python lowers to 'k') are folded. Every other non-ASCII capital is kept. Python lowers those to non-ASCII letters, which cannot complete an ASCII keyword, so the classification agrees. The exception is U+0130 (capital I with dot above): Python lowers it to 'i' plus a combining dot, which changes the length. The model keeps U+0130 unchanged. Python's two characters cannot complete a keyword either, because the combining dot follows the 'i'.
- RiskEngine.ToLower: inherits LowerChar's folding; the rest of Python's `str.lower` (final sigma, other scripts) is not modelled.
- Error bodies: a validation failure is one fixed 422 error rather than pydantic's list of field errors. The 500 on a failed insert omits the exception text. Request bodies are taken as already typed: a missing or ill-typed JSON body, which FastAPI answers with 422 before the handler runs (for example the approval body at backend/app/routers/approvals.py:40), is not modelled.
- Response types: enumeration fields of the responses keep their Dafny enumeration types instead of strings. An audit log response is the stored entry itself.
