/**
 The durable audit queue: one row per job, and one guarded update per SQL statement.

 `Rows` is the effect of a statement on the table; `AuditJobRepository` is the same
 statements as methods that update the table in place. The methods record the steps they
 take, so everything proved of all histories holds of every repository object.
 */
module AuditQueue {
  import opened Options
  import opened Histories

  type JobId = nat
  type WorkerId = string
  type Time = int

  datatype State = Created | Queued | Claimed | Running | Succeeded | DeadLetter
  datatype SourceKind = Zip | RepoUrl

  /** source_ref: the repository URL, or the spool path of a job's archive, `<uuid>.zip`. */
  datatype Ref = Url(url: string) | Archive(job: JobId)

  /** The states enqueue is called with: 'created' for an upload, 'queued' for a URL. */
  type InitialState = s: State | s.Created? || s.Queued? witness Queued

  /** The column default of max_attempts. */
  type Budget = n: nat | n >= 1 witness 3

  datatype Job = Job(
    state: State,
    sourceKind: SourceKind,
    sourceRef: Option<Ref>,
    idempotencyKey: string,
    claimedBy: Option<WorkerId>,
    claimedAt: Option<Time>,
    leaseExpiresAt: Option<Time>,
    attempts: nat,
    maxAttempts: nat,
    availableAt: Time,
    auditId: Option<string>,
    errorCode: Option<string>,
    createdAt: Time,
    completedAt: Option<Time>)

  type Table = map<JobId, Job>

  /** The predicate of the partial unique index on idempotency_key. */
  predicate Live(s: State) {
    s.Created? || s.Queued? || s.Claimed? || s.Running?
  }

  predicate Terminal(s: State) {
    s.Succeeded? || s.DeadLetter?
  }

  predicate Exhausted(j: Job) {
    j.attempts >= j.maxAttempts
  }

  /** The lease gate shared by renew, finalize and release. */
  predicate Holds(rows: Table, id: JobId, worker: WorkerId) {
    id in rows && rows[id].state.Running? && rows[id].claimedBy == Some(worker)
  }

  predicate Leased(j: Job) {
    j.state.Claimed? || j.state.Running?
  }

  predicate Expired(j: Job, now: Time) {
    Leased(j) && j.leaseExpiresAt.Some? && j.leaseExpiresAt.value < now
  }

  predicate StuckCreated(j: Job, now: Time, olderThan: int) {
    j.state.Created? && j.createdAt < now - olderThan
  }

  function LiveWithKey(rows: Table, key: string): (ids: set<JobId>)
  {
    set id | id in rows && Live(rows[id].state) && rows[id].idempotencyKey == key
  }

  /** What the claim's inner select may lock: `locked` are rows another claim holds locked. */
  function Claimable(rows: Table, locked: set<JobId>, now: Time): (ids: set<JobId>)
  {
    set id | id in rows && id !in locked && rows[id].state.Queued? && rows[id].availableAt <= now
  }

  predicate OldestClaimable(rows: Table, locked: set<JobId>, now: Time, id: JobId) {
    && id in Claimable(rows, locked, now)
    && forall other :: other in Claimable(rows, locked, now) ==> rows[id].createdAt <= rows[other].createdAt
  }

  function Pow2(n: nat): (p: nat)
    ensures p >= 1
  {
    if n == 0 then 1 else 2 * Pow2(n - 1)
  }

  // ----- the statements -----

  datatype Event =
    | Enqueue(id: JobId, key: string, kind: SourceKind, ref: Option<Ref>, initial: InitialState, budget: Budget)
    | MarkQueued(id: JobId, ref: Option<Ref>)
    | AbandonCreated(id: JobId, code: string)
    | ReapStuckCreated(olderThan: int)
    | ClaimOne(worker: WorkerId, lease: int, locked: set<JobId>, pick: JobId)
    | RenewLease(id: JobId, worker: WorkerId, lease: int)
    | FinalizeSucceeded(id: JobId, worker: WorkerId, audit: string)
    | FinalizeFailed(id: JobId, worker: WorkerId, code: string, permanent: bool, backoff: int)
    | ReleaseEarly(id: JobId, worker: WorkerId)
    | ReapRequeue
    | ReapDeadLetter

  function NewJob(e: Event, now: Time): (j: Job)
    requires e.Enqueue?
  {
    Job(e.initial, e.kind, e.ref, e.key, None, None, None, 0, e.budget, now, None, None, now, None)
  }

  function DeadLettered(j: Job, code: string, now: Time): (d: Job) {
    j.(state := DeadLetter, errorCode := Some(code), completedAt := Some(now))
  }

  function Requeued(j: Job, at: Time): (r: Job) {
    j.(state := Queued, claimedBy := None, claimedAt := None, leaseExpiresAt := None, availableAt := at)
  }

  function FailedRow(j: Job, e: Event, now: Time): (r: Job)
    requires e.FinalizeFailed?
  {
    if e.permanent || Exhausted(j)
    then DeadLettered(j, e.code, now).(leaseExpiresAt := None)
    else Requeued(j, now + e.backoff * Pow2(j.attempts)).(errorCode := Some(e.code), completedAt := None)
  }

  /** Whether statement `e` matches the existing row `id`, that is, whether it writes it. */
  predicate Writes(rows: Table, e: Event, now: Time, id: JobId)
    requires id in rows
  {
    var j := rows[id];
    match e
    case Enqueue(_, _, _, _, _, _) => false
    case MarkQueued(i, _) => i == id && j.state.Created?
    case AbandonCreated(i, _) => i == id && j.state.Created?
    case ReapStuckCreated(older) => StuckCreated(j, now, older)
    case ClaimOne(_, _, locked, pick) => pick == id && OldestClaimable(rows, locked, now, id)
    case RenewLease(i, w, _) => i == id && Holds(rows, id, w)
    case FinalizeSucceeded(i, w, _) => i == id && Holds(rows, id, w)
    case FinalizeFailed(i, w, _, _, _) => i == id && Holds(rows, id, w)
    case ReleaseEarly(i, w) => i == id && Holds(rows, id, w)
    case ReapRequeue => Expired(j, now) && !Exhausted(j)
    case ReapDeadLetter => Expired(j, now) && Exhausted(j)
  }

  /** The row that statement `e` leaves where it matched row `j`. */
  function Written(j: Job, e: Event, now: Time): (r: Job)
    requires !e.Enqueue?
  {
    match e
    case MarkQueued(_, ref) =>
      j.(state := Queued, availableAt := now, sourceRef := if ref.Some? then ref else j.sourceRef)
    case AbandonCreated(_, code) => DeadLettered(j, code, now)
    case ReapStuckCreated(_) => DeadLettered(j, "staging_incomplete", now)
    case ClaimOne(w, lease, _, _) =>
      j.(state := Running, claimedBy := Some(w), claimedAt := Some(now),
         leaseExpiresAt := Some(now + lease), attempts := j.attempts + 1)
    case RenewLease(_, _, lease) => j.(leaseExpiresAt := Some(now + lease))
    case FinalizeSucceeded(_, _, audit) => j.(state := Succeeded, auditId := Some(audit), completedAt := Some(now))
    case FinalizeFailed(_, _, _, _, _) => FailedRow(j, e, now)
    case ReleaseEarly(_, _) => Requeued(j, now).(attempts := if j.attempts > 0 then j.attempts - 1 else 0)
    case ReapRequeue => Requeued(j, now)
    case ReapDeadLetter => DeadLettered(j, "lease_expired", now)
  }

  /** An insert is refused by the live-key index (joining the live row) or by the primary key. */
  predicate Inserts(rows: Table, e: Event) {
    e.Enqueue? && e.id !in rows && LiveWithKey(rows, e.key) == {}
  }

  /** The table after one statement. */
  function Rows(rows: Table, e: Event, now: Time): (after: Table) {
    if e.Enqueue? then
      if Inserts(rows, e) then rows[e.id := NewJob(e, now)] else rows
    else
      map id | id in rows :: if Writes(rows, e, now, id) then Written(rows[id], e, now) else rows[id]
  }

  // ----- runs -----

  /** One statement, issued `wait` after the previous one: the clock never goes back. */
  datatype Step = Step(wait: nat, event: Event)

  datatype Queue = Queue(rows: Table, clock: Time)

  function Next(q: Queue, s: Step): (r: Queue) {
    var now := q.clock + s.wait;
    Queue(Rows(q.rows, s.event, now), now)
  }

  function After(h: History<Step>): (q: Queue) {
    match h
    case Start => Queue(map[], 0)
    case Then(past, s) => Next(After(past), s)
  }

  /** The time at which the last statement of a run was issued is the clock after it. */
  function Now(past: History<Step>, s: Step): Time {
    After(past).clock + s.wait
  }

  /** The last step of `past` followed by `s` writes row `id`. */
  predicate Touches(past: History<Step>, s: Step, id: JobId) {
    id in After(past).rows && Writes(After(past).rows, s.event, Now(past, s), id)
  }
}
