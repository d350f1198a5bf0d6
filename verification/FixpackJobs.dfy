/**
 Fix Pack jobs: one job per funding key, at most one live job per audit, and a single
 processor that drains them under an advisory lock with writes that carry no status guard.
 */
module FixpackJobs {
  import opened Options
  import opened Histories

  type JobId = nat
  type AuditId = nat
  type Key = string
  type Time = int

  /** How often a job may be claimed before a lapsed lease fails it. */
  const MAX_JOB_ATTEMPTS: nat := 3

  /** 'generated' is what Deploy Pack rows, which share the table, carry. */
  datatype Status = Paid | Running | Delivered | NoFixNeeded | Blocked | Failed | Generated

  datatype Job = Job(
    audit: Option<AuditId>,
    key: Option<Key>,
    status: Status,
    attempts: nat,
    startedAt: Option<Time>,
    createdAt: Time)

  type Table = map<JobId, Job>

  predicate Live(s: Status) {
    s.Paid? || s.Running?
  }

  predicate Terminal(s: Status) {
    s.Delivered? || s.NoFixNeeded? || s.Blocked? || s.Failed?
  }

  /** The job a funding key belongs to. */
  predicate Owns(jobs: Table, id: JobId, key: Key) {
    id in jobs && jobs[id].key == Some(key)
  }

  predicate LiveFor(jobs: Table, id: JobId, audit: AuditId) {
    id in jobs && jobs[id].audit == Some(audit) && Live(jobs[id].status)
  }

  /** Both partial unique indexes let the insert through. */
  predicate Insertable(jobs: Table, audit: Option<AuditId>, key: Option<Key>) {
    && (key.Some? ==> forall id :: id in jobs ==> !Owns(jobs, id, key.value))
    && (audit.Some? ==> forall id :: id in jobs ==> !LiveFor(jobs, id, audit.value))
  }

  predicate Stale(j: Job, now: Time, maxAge: int) {
    j.status.Running? && j.startedAt.Some? && j.startedAt.value < now - maxAge
  }

  function Claimable(jobs: Table, locked: set<JobId>): (ids: set<JobId>) {
    set id | id in jobs && id !in locked && jobs[id].status.Paid?
  }

  predicate Oldest(jobs: Table, ids: set<JobId>, id: JobId) {
    id in ids && id in jobs && forall other :: other in ids && other in jobs ==>
      jobs[id].createdAt <= jobs[other].createdAt
  }

  // ----- the statements -----

  datatype Statement =
    | InsertPaid(id: JobId, audit: Option<AuditId>, key: Option<Key>)
    | InsertDeployPack(id: JobId, audit: Option<AuditId>)
    | ClaimOnePaid(locked: set<JobId>, pick: JobId)
    | RequeueStale(maxAge: int)
    | FailStale(maxAge: int)
    | ReleaseToPaid(id: JobId)
    | MarkDelivered(id: JobId)
    | MarkStatus(id: JobId, status: Status)

  predicate Inserts(jobs: Table, st: Statement) {
    match st
    case InsertPaid(id, audit, key) => id !in jobs && Insertable(jobs, audit, key)
    case InsertDeployPack(id, _) => id !in jobs
    case _ => false
  }

  function NewJob(st: Statement, now: Time): (j: Job)
    requires st.InsertPaid? || st.InsertDeployPack?
  {
    match st
    case InsertPaid(_, audit, key) => Job(audit, key, Paid, 0, None, now)
    case InsertDeployPack(_, audit) => Job(audit, None, Generated, 0, None, now)
  }

  predicate Writes(jobs: Table, st: Statement, now: Time, id: JobId)
    requires id in jobs
  {
    match st
    case ClaimOnePaid(locked, pick) => pick == id && Oldest(jobs, Claimable(jobs, locked), id)
    case RequeueStale(maxAge) => Stale(jobs[id], now, maxAge) && jobs[id].attempts < MAX_JOB_ATTEMPTS
    case FailStale(maxAge) => Stale(jobs[id], now, maxAge) && jobs[id].attempts >= MAX_JOB_ATTEMPTS
    case ReleaseToPaid(i) => i == id && jobs[id].status.Running?
    case MarkDelivered(i) => i == id
    case MarkStatus(i, _) => i == id
    case _ => false
  }

  function Written(j: Job, st: Statement, now: Time): (r: Job)
    requires !st.InsertPaid? && !st.InsertDeployPack?
  {
    match st
    case ClaimOnePaid(_, _) => j.(status := Running, startedAt := Some(now), attempts := j.attempts + 1)
    case RequeueStale(_) => j.(status := Paid, startedAt := None)
    case FailStale(_) => j.(status := Failed)
    case ReleaseToPaid(_) =>
      j.(status := Paid, startedAt := None, attempts := if j.attempts > 0 then j.attempts - 1 else 0)
    case MarkDelivered(_) => j.(status := Delivered)
    case MarkStatus(_, s) => j.(status := s)
  }

  function Execute(jobs: Table, st: Statement, now: Time): (r: Table) {
    if st.InsertPaid? || st.InsertDeployPack? then
      if Inserts(jobs, st) then jobs[st.id := NewJob(st, now)] else jobs
    else
      map id | id in jobs :: if Writes(jobs, st, now, id) then Written(jobs[id], st, now) else jobs[id]
  }

  // ----- the system: checkouts inserting jobs, and at most one processor run -----

  datatype Outcome = DeliveredPr | NothingToFix | BlockedFix | FailedFix | Deferred | AuthRejected

  datatype Run = Reaping(batch: nat) | Draining(left: nat, current: Option<JobId>)

  datatype System = System(jobs: Table, run: Option<Run>, clock: Time)

  datatype Action =
    | Insert(statement: Statement)
    | StartRun(batch: nat)
    | Requeue(maxAge: int)
    | FailLapsed(maxAge: int)
    | StartDraining
    | Claim(locked: set<JobId>, pick: JobId)
    | NoteSoftFailure
    | Finish(outcome: Outcome)
    | EndRun
    | CrashRun
    | Idle

  datatype Timed = Timed(wait: nat, action: Action)

  /** The statement that records an outcome on the claimed job. */
  function Record(id: JobId, o: Outcome): (st: Statement) {
    match o
    case DeliveredPr => MarkDelivered(id)
    case NothingToFix => MarkStatus(id, NoFixNeeded)
    case BlockedFix => MarkStatus(id, Blocked)
    case FailedFix => MarkStatus(id, Failed)
    case Deferred => MarkStatus(id, Running)
    case AuthRejected => ReleaseToPaid(id)
  }

  /** A sandbox outage or rejected credentials stop the batch. */
  predicate StopsBatch(o: Outcome) {
    o.Deferred? || o.AuthRejected?
  }

  predicate Processing(sys: System) {
    sys.run.Some? && sys.run.value.Draining? && sys.run.value.current.Some?
  }

  /** The statement an action issues, if its moment has come. */
  function Issued(sys: System, a: Action): (st: Option<Statement>) {
    match a
    case Insert(st) => if st.InsertPaid? || st.InsertDeployPack? then Some(st) else None
    case Requeue(maxAge) => if sys.run.Some? && sys.run.value.Reaping? then Some(RequeueStale(maxAge)) else None
    case FailLapsed(maxAge) => if sys.run.Some? && sys.run.value.Reaping? then Some(FailStale(maxAge)) else None
    case Claim(locked, pick) =>
      if sys.run.Some? && sys.run.value.Draining? && sys.run.value.current.None? && sys.run.value.left > 0
         && Oldest(sys.jobs, Claimable(sys.jobs, locked), pick)
      then Some(ClaimOnePaid(locked, pick)) else None
    case NoteSoftFailure => if Processing(sys) then Some(MarkStatus(sys.run.value.current.value, Running)) else None
    case Finish(o) => if Processing(sys) then Some(Record(sys.run.value.current.value, o)) else None
    case _ => None
  }

  function RunAfter(sys: System, a: Action): (run: Option<Run>) {
    match a
    case StartRun(batch) => if sys.run.None? then Some(Reaping(batch)) else sys.run
    case StartDraining =>
      if sys.run.Some? && sys.run.value.Reaping? then Some(Draining(sys.run.value.batch, None)) else sys.run
    case Claim(locked, pick) =>
      if Issued(sys, a).Some? then Some(Draining(sys.run.value.left - 1, Some(pick))) else sys.run
    case Finish(o) =>
      if !Processing(sys) then sys.run else if StopsBatch(o) then None else Some(Draining(sys.run.value.left, None))
    case EndRun => if Processing(sys) then sys.run else None
    case CrashRun => None
    case _ => sys.run
  }

  function Next(sys: System, t: Timed): (r: System) {
    var now := sys.clock + t.wait;
    var st := Issued(sys, t.action);
    System(if st.Some? then Execute(sys.jobs, st.value, now) else sys.jobs, RunAfter(sys, t.action), now)
  }

  function After(h: History<Timed>): (sys: System) {
    match h
    case Start => System(map[], None, 0)
    case Then(past, t) => Next(After(past), t)
  }

  // ----- the invariant -----

  ghost predicate JobOk(j: Job) {
    && j.attempts <= MAX_JOB_ATTEMPTS
    && (j.status.Paid? ==> j.attempts < MAX_JOB_ATTEMPTS && j.startedAt == None)
    && (j.status.Running? ==> j.attempts >= 1 && j.startedAt.Some?)
    && (j.status.Generated? ==> j.key == None)
  }

  ghost predicate KeysUnique(jobs: Table) {
    forall a, b | a in jobs && b in jobs && jobs[a].key.Some? :: jobs[a].key == jobs[b].key ==> a == b
  }

  ghost predicate AuditsUnique(jobs: Table) {
    forall a, b | a in jobs && b in jobs && jobs[a].audit.Some? && Live(jobs[a].status) && Live(jobs[b].status) ::
      jobs[a].audit == jobs[b].audit ==> a == b
  }

  ghost predicate IndexesOk(jobs: Table) {
    KeysUnique(jobs) && AuditsUnique(jobs)
  }

  ghost predicate SystemOk(sys: System) {
    && (forall id :: id in sys.jobs ==> JobOk(sys.jobs[id]))
    && IndexesOk(sys.jobs)
    && (Processing(sys) ==>
      sys.run.value.current.value in sys.jobs && sys.jobs[sys.run.value.current.value].status.Running?)
  }

  /** Statements that are not inserts neither change who owns a job nor make another one live. */
  ghost predicate Tame(jobs: Table, st: Statement, now: Time) {
    forall id :: id in jobs && Writes(jobs, st, now, id) ==>
      Live(jobs[id].status) || !Live(Written(jobs[id], st, now).status)
  }

  lemma {:induction false} ExecuteKeepsIndexes(jobs: Table, st: Statement, now: Time, r: Table)
    requires IndexesOk(jobs) && r == Execute(jobs, st, now)
    requires st.InsertPaid? || st.InsertDeployPack? || Tame(jobs, st, now)
    ensures IndexesOk(r)
  {
    if !st.InsertPaid? && !st.InsertDeployPack? {
      forall id | id in jobs
        ensures id in r && r[id].key == jobs[id].key && r[id].audit == jobs[id].audit
                && (Live(r[id].status) ==> Live(jobs[id].status))
      {
      }
    } else if Inserts(jobs, st) && st.InsertPaid? {
      forall id | id in jobs
        ensures st.key.Some? ==> jobs[id].key != st.key
        ensures st.audit.Some? && Live(jobs[id].status) ==> jobs[id].audit != st.audit
      {
        if st.key.Some? { assert !Owns(jobs, id, st.key.value); }
        if st.audit.Some? { assert !LiveFor(jobs, id, st.audit.value); }
      }
    }
  }

  /** The processor writes only the job it has claimed, which is running. */
  lemma {:induction false} ProcessorIsTame(sys: System, a: Action, now: Time)
    requires SystemOk(sys) && Issued(sys, a).Some? && !a.Insert?
    ensures Tame(sys.jobs, Issued(sys, a).value, now)
  {
  }

  lemma {:induction false} IssuedKeepsJobOk(sys: System, a: Action, now: Time, id: JobId)
    requires SystemOk(sys) && Issued(sys, a).Some? && !a.Insert? && id in sys.jobs
    ensures var st, j := Issued(sys, a).value, sys.jobs[id];
            Writes(sys.jobs, st, now, id) ==>
              && JobOk(Written(j, st, now)) && Live(j.status)
              && Written(j, st, now).key == j.key && Written(j, st, now).audit == j.audit
              && Written(j, st, now).attempts
                == j.attempts + (if a.Claim? then 1 else 0) - (if a.Finish? && a.outcome.AuthRejected? then 1 else 0)
  {
  }

  lemma {:induction false} NextKeepsOk(sys: System, t: Timed, r: System)
    requires SystemOk(sys) && r == Next(sys, t)
    ensures SystemOk(r)
  {
    var now, issued := sys.clock + t.wait, Issued(sys, t.action);
    if issued.Some? {
      if !t.action.Insert? { ProcessorIsTame(sys, t.action, now); }
      ExecuteKeepsIndexes(sys.jobs, issued.value, now, r.jobs);
      forall id | id in r.jobs ensures JobOk(r.jobs[id]) {
        if id in sys.jobs && !t.action.Insert? { IssuedKeepsJobOk(sys, t.action, now, id); }
      }
    }
  }

  lemma {:induction false} ReachableOk(h: History<Timed>)
    ensures SystemOk(After(h))
  {
    match h
    case Start =>
    case Then(past, t) =>
      ReachableOk(past);
      NextKeepsOk(After(past), t, After(h));
  }
}
