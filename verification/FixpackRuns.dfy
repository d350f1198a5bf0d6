/** Properties of whole runs of the Fix Pack system. */
module FixpackRuns {
  import opened Options
  import opened Histories
  import opened FixpackJobs

  /** The claimed job's row is written by this step. */
  predicate Touches(past: History<Timed>, t: Timed, id: JobId) {
    TouchesRow(After(past), t, id)
  }

  predicate TouchesRow(sys: System, t: Timed, id: JobId) {
    && id in sys.jobs && Issued(sys, t.action).Some?
    && Writes(sys.jobs, Issued(sys, t.action).value, sys.clock + t.wait, id)
  }

  ghost function Claims(h: History<Timed>, id: JobId): nat {
    match h
    case Start => 0
    case Then(past, t) => Claims(past, id) + if t.action.Claim? && Touches(past, t, id) then 1 else 0
  }

  /** Attempts handed back because our own credentials were rejected. */
  ghost function Refunds(h: History<Timed>, id: JobId): nat {
    match h
    case Start => 0
    case Then(past, t) => Refunds(past, id) + if t.action == Finish(AuthRejected) && Touches(past, t, id) then 1 else 0
  }

  /** Jobs ever inserted with this funding key. */
  ghost function Funded(h: History<Timed>, key: Key): nat {
    match h
    case Start => 0
    case Then(past, t) =>
      Funded(past, key)
      + if t.action.Insert? && t.action.statement.InsertPaid? && t.action.statement.key == Some(key)
           && Inserts(After(past).jobs, t.action.statement) then 1 else 0
  }

  lemma {:induction false} RowNext(sys: System, t: Timed, id: JobId, r: System)
    requires SystemOk(sys) && id in sys.jobs && r == Next(sys, t)
    ensures id in r.jobs
    ensures if TouchesRow(sys, t, id)
            then r.jobs[id] == Written(sys.jobs[id], Issued(sys, t.action).value, sys.clock + t.wait)
            else r.jobs[id] == sys.jobs[id]
  {
  }

  /** One step on an existing row: unchanged, or written while it was live. */
  lemma {:induction false} RowStep(past: History<Timed>, t: Timed, id: JobId)
    requires id in After(past).jobs
    ensures id in After(Then(past, t)).jobs
    ensures var j, r := After(past).jobs[id], After(Then(past, t)).jobs[id];
            && JobOk(j) && JobOk(r)
            && r.key == j.key && r.audit == j.audit && r.createdAt == j.createdAt
            && (r != j ==> Live(j.status))
            && r.attempts + (if t.action == Finish(AuthRejected) && Touches(past, t, id) then 1 else 0)
               == j.attempts + (if t.action.Claim? && Touches(past, t, id) then 1 else 0)
  {
    ReachableOk(past);
    var sys := After(past);
    RowNext(sys, t, id, After(Then(past, t)));
    if TouchesRow(sys, t, id) {
      IssuedKeepsJobOk(sys, t.action, sys.clock + t.wait, id);
    }
  }

  lemma {:induction false} InsertStep(past: History<Timed>, t: Timed, id: JobId)
    requires id !in After(past).jobs && id in After(Then(past, t)).jobs
    ensures t.action.Insert? && Inserts(After(past).jobs, t.action.statement)
    ensures After(Then(past, t)).jobs[id].attempts == 0
  {
  }

  // ----- terminal states -----

  /**
   Delivered, no_fix_needed, blocked and failed are absorbing, although the statements that
   write them carry no status guard: only the one lock holder writes, and only its claimed job.
   */
  lemma {:induction false} TerminalJobsNeverChange(later: History<Timed>, earlier: History<Timed>, id: JobId)
    requires Extends(later, earlier)
    requires id in After(earlier).jobs && Terminal(After(earlier).jobs[id].status)
    ensures id in After(later).jobs && After(later).jobs[id] == After(earlier).jobs[id]
  {
    if later != earlier {
      TerminalJobsNeverChange(later.past, earlier, id);
      RowStep(later.past, later.last, id);
    }
  }

  /** The statement itself spares no finished job. */
  lemma {:induction false} UnguardedWriteOverwrites(jobs: Table, id: JobId, status: Status, now: Time)
    requires id in jobs && Terminal(jobs[id].status) && status != jobs[id].status
    ensures Execute(jobs, MarkStatus(id, status), now)[id].status != jobs[id].status
  {
  }

  /** Statements on a table with one job. */
  lemma {:induction false} ClaimsOnly(id: JobId, j: Job, now: Time)
    requires j.status.Paid?
    ensures Execute(map[id := j], ClaimOnePaid({}, id), now)
         == map[id := j.(status := Running, startedAt := Some(now), attempts := j.attempts + 1)]
  {
    assert Oldest(map[id := j], Claimable(map[id := j], {}), id);
  }

  lemma {:induction false} WritesOnly(id: JobId, j: Job, st: Statement, now: Time)
    requires !st.InsertPaid? && !st.InsertDeployPack? && Writes(map[id := j], st, now, id)
    ensures Execute(map[id := j], st, now) == map[id := Written(j, st, now)]
  {
  }

  /**
   So the lock is needed. Without it two processors, each writing only a job it has claimed, turn
   a delivered job into a failed one, whatever the reaper's age bound: the first claims and stalls,
   the second reaps the lease, claims the job again and delivers it, and then the first one fails it.
   */
  lemma {:induction false} TwoProcessorsOverwrite(id: JobId, audit: Option<AuditId>, key: Option<Key>, maxAge: nat)
    ensures var now := maxAge + 1;
            var stalled := Execute(Execute(map[], InsertPaid(id, audit, key), 0), ClaimOnePaid({}, id), 0);
            var reclaimed := Execute(Execute(stalled, RequeueStale(maxAge), now), ClaimOnePaid({}, id), now);
            var delivered := Execute(reclaimed, MarkDelivered(id), now);
            && id in stalled && stalled[id].status.Running? && id in reclaimed && reclaimed[id].status.Running?
            && id in delivered && delivered[id].status.Delivered?
            && Execute(delivered, MarkStatus(id, Failed), now)[id].status.Failed?
  {
    var now, paid := maxAge + 1, Job(audit, key, Paid, 0, None, 0);
    assert Execute(map[], InsertPaid(id, audit, key), 0) == map[id := paid];
    ClaimsOnly(id, paid, 0);
    var stalled := paid.(status := Running, startedAt := Some(0), attempts := 1);
    WritesOnly(id, stalled, RequeueStale(maxAge), now);
    ClaimsOnly(id, paid.(attempts := 1), now);
    var reclaimed := paid.(status := Running, startedAt := Some(now), attempts := 2);
    WritesOnly(id, reclaimed, MarkDelivered(id), now);
    WritesOnly(id, reclaimed.(status := Delivered), MarkStatus(id, Failed), now);
  }

  // ----- claims -----

  lemma {:induction false} AttemptsAreClaimsMinusRefunds(h: History<Timed>, id: JobId)
    ensures if id in After(h).jobs then After(h).jobs[id].attempts == Claims(h, id) - Refunds(h, id)
            else Claims(h, id) == Refunds(h, id) == 0
  {
    match h
    case Start =>
    case Then(past, t) =>
      AttemptsAreClaimsMinusRefunds(past, id);
      if id in After(past).jobs { RowStep(past, t, id); }
      else if id in After(h).jobs { InsertStep(past, t, id); }
  }

  /** A job is claimed at most MAX_JOB_ATTEMPTS times, credential refunds aside, and a paid one has budget left. */
  lemma {:induction false} ClaimsAreBounded(h: History<Timed>, id: JobId)
    requires id in After(h).jobs
    ensures Claims(h, id) <= MAX_JOB_ATTEMPTS + Refunds(h, id)
    ensures After(h).jobs[id].status.Paid? ==> After(h).jobs[id].attempts < MAX_JOB_ATTEMPTS
  {
    ReachableOk(h);
    AttemptsAreClaimsMinusRefunds(h, id);
  }

  // ----- funding keys -----

  /** A job keeps its audit and its funding key for ever, whoever joins it. */
  lemma {:induction false} OwnershipLasts(later: History<Timed>, earlier: History<Timed>, id: JobId)
    requires Extends(later, earlier) && id in After(earlier).jobs
    ensures id in After(later).jobs
    ensures After(later).jobs[id].key == After(earlier).jobs[id].key
    ensures After(later).jobs[id].audit == After(earlier).jobs[id].audit
  {
    if later != earlier {
      OwnershipLasts(later.past, earlier, id);
      RowStep(later.past, later.last, id);
    }
  }

  /** In every run at most one job is ever inserted for a funding key. */
  lemma {:induction false} OneJobPerFundingKey(h: History<Timed>, key: Key)
    ensures Funded(h, key) <= 1
    ensures Funded(h, key) == 1 ==> exists id :: Owns(After(h).jobs, id, key)
  {
    match h
    case Start =>
    case Then(past, t) =>
      OneJobPerFundingKey(past, key);
      if t.action.Insert? && t.action.statement.InsertPaid? && t.action.statement.key == Some(key)
         && Inserts(After(past).jobs, t.action.statement) {
        assert Owns(After(h).jobs, t.action.statement.id, key);
      } else if Funded(past, key) == 1 {
        var id :| Owns(After(past).jobs, id, key);
        RowStep(past, t, id);
        assert Owns(After(h).jobs, id, key);
      }
  }

  // ----- what any number of other transactions may do to the table -----

  /** The rely condition of a checkout between two of its statements. */
  predicate Rely(was: Table, now: Table) {
    && (forall id :: id in was ==> id in now && now[id].key == was[id].key && now[id].audit == was[id].audit)
    && (forall id :: id in was ==> Live(now[id].status) ==> Live(was[id].status))
  }

  /** Every run of the system respects it: it is what all other writers together guarantee. */
  lemma {:induction false} RunsRespectRely(later: History<Timed>, earlier: History<Timed>)
    requires Extends(later, earlier)
    ensures Rely(After(earlier).jobs, After(later).jobs) && IndexesOk(After(later).jobs)
  {
    ReachableOk(later);
    if later != earlier {
      RunsRespectRely(later.past, earlier);
      forall id | id in After(earlier).jobs
        ensures id in After(later).jobs
        ensures After(later).jobs[id].key == After(earlier).jobs[id].key
        ensures After(later).jobs[id].audit == After(earlier).jobs[id].audit
        ensures Live(After(later).jobs[id].status) ==> Live(After(earlier).jobs[id].status)
      {
        RowStep(later.past, later.last, id);
      }
    }
  }
}
