/**
 The Fix Pack job repository and the bounded drain that uses it. An object is the table, the
 advisory lock and the clock; between the statements of one caller `Yield` lets the others go on.
 */
module FixpackTables {
  import opened Options
  import opened Histories
  import Queues
  import opened FixpackJobs
  import opened FixpackRuns

  /** `inserted` is false for a job found rather than inserted. */
  datatype Reservation = Reserved(id: JobId, inserted: bool) | ChangedRepeatedly

  datatype Recovered = Recovered(requeued: nat, failed: nat)

  datatype Summary = Summary(processed: nat, delivered: nat, skipped: nat, blocked: nat, failed: nat,
                             requeued: nat, deferred: nat, authRejected: bool)

  datatype Reply = SkippedLocked | Ran(summary: Summary)

  function WithStatus(jobs: Table, s: Status): (ids: set<JobId>) {
    set id | id in jobs && jobs[id].status == s
  }

  function Count(jobs: Table, s: Status): (n: nat) {
    |WithStatus(jobs, s)|
  }

  /** Lapsed leases that have no attempt left. */
  function Spent(jobs: Table, maxAge: int, now: Time): (ids: set<JobId>) {
    set id | id in jobs && Stale(jobs[id], now, maxAge) && jobs[id].attempts >= MAX_JOB_ATTEMPTS
  }

  /** Neither a job that ended without a failure nor its row is affected. */
  ghost predicate SameEndings(was: Table, now: Table) {
    && WithStatus(now, Delivered) == WithStatus(was, Delivered)
    && WithStatus(now, NoFixNeeded) == WithStatus(was, NoFixNeeded)
    && WithStatus(now, Blocked) == WithStatus(was, Blocked)
  }

  /** Two sets that differ at most in `x`. */
  lemma {:induction false} DifferInOne(was: set<JobId>, now: set<JobId>, x: JobId)
    requires was - {x} == now - {x}
    ensures |now| == |was| + (if x in now then 1 else 0) - (if x in was then 1 else 0)
  {
    if x in was { assert was == (was - {x}) + {x}; } else { assert was == was - {x}; }
    if x in now { assert now == (now - {x}) + {x}; } else { assert now == now - {x}; }
  }

  /** Rewriting one row moves it from its old status's count to its new one's. */
  lemma {:induction false} CountAfterWrite(jobs: Table, id: JobId, j: Job, after: Table, s: Status)
    requires id in jobs && after == jobs[id := j]
    ensures Count(after, s)
            == Count(jobs, s) + (if j.status == s then 1 else 0) - (if jobs[id].status == s then 1 else 0)
  {
    var was, now := WithStatus(jobs, s), WithStatus(after, s);
    forall other ensures other in was - {id} <==> other in now - {id} {
    }
    DifferInOne(was, now, id);
  }

  /** Moving the rows `ids` from one status to another, and no others. */
  lemma {:induction false} CountsAfterMove(was: Table, after: Table, ids: set<JobId>, from: Status, to: Status)
    requires after.Keys == was.Keys && from != to
    requires forall id :: id in ids ==> id in was && was[id].status == from
    requires forall id :: id in was ==> after[id].status == if id in ids then to else was[id].status
    ensures Count(after, to) == Count(was, to) + |ids|
    ensures forall s :: s != from && s != to ==> WithStatus(after, s) == WithStatus(was, s)
  {
    assert WithStatus(was, to) !! ids;
    assert WithStatus(after, to) == WithStatus(was, to) + ids;
  }

  /** Where a job ends up; None for the two outcomes that leave it to be claimed again. */
  function EndsIn(o: Outcome): (s: Option<Status>) {
    match o
    case DeliveredPr => Some(Delivered)
    case NothingToFix => Some(NoFixNeeded)
    case BlockedFix => Some(Blocked)
    case FailedFix => Some(Failed)
    case _ => None
  }

  /** What each outcome means for the running job: four ends, a lease left to lapse, and a refund. */
  ghost function Concluded(j: Job, o: Outcome): Job
    requires j.attempts >= 1
  {
    match o
    case DeliveredPr => j.(status := Delivered)
    case NothingToFix => j.(status := NoFixNeeded)
    case BlockedFix => j.(status := Blocked)
    case FailedFix => j.(status := Failed)
    case Deferred => j
    case AuthRejected => j.(status := Paid, startedAt := None, attempts := j.attempts - 1)
  }

  lemma {:induction false} WrittenIsConcluded(j: Job, id: JobId, o: Outcome, now: Time)
    requires j.status == Running && j.attempts >= 1
    ensures Written(j, FixpackJobs.Record(id, o), now) == Concluded(j, o)
  {
  }

  /** Exactly one more job ended as `o` says, and none left a terminal status. */
  ghost predicate Moved(was: Table, now: Table, o: Outcome) {
    forall s :: Terminal(s) ==> Count(now, s) == Count(was, s) + if EndsIn(o) == Some(s) then 1 else 0
  }

  function Counted(s: Summary, o: Outcome): (r: Summary) {
    match o
    case DeliveredPr => s.(processed := s.processed + 1, delivered := s.delivered + 1)
    case NothingToFix => s.(processed := s.processed + 1, skipped := s.skipped + 1)
    case BlockedFix => s.(processed := s.processed + 1, blocked := s.blocked + 1)
    case FailedFix => s.(processed := s.processed + 1, failed := s.failed + 1)
    case Deferred => s.(processed := s.processed + 1, deferred := s.deferred + 1)
    case AuthRejected => s.(processed := s.processed + 1, authRejected := true)
  }

  /** The summary's numbers are the rows that reached each terminal status since `was`. */
  ghost predicate Tallies(s: Summary, was: Table, now: Table) {
    && s.delivered == Count(now, Delivered) - Count(was, Delivered)
    && s.skipped == Count(now, NoFixNeeded) - Count(was, NoFixNeeded)
    && s.blocked == Count(now, Blocked) - Count(was, Blocked)
    && s.failed == Count(now, Failed) - Count(was, Failed)
  }

  /** `r` is `s` with each of the outcomes `done` counted under its own heading. */
  ghost predicate Reports(s: Summary, r: Summary, done: seq<Outcome>) {
    && r.processed == s.processed + |done|
    && r.delivered == s.delivered + multiset(done)[DeliveredPr]
    && r.skipped == s.skipped + multiset(done)[NothingToFix]
    && r.blocked == s.blocked + multiset(done)[BlockedFix]
    && r.failed == s.failed + multiset(done)[FailedFix]
    && r.deferred == s.deferred + multiset(done)[Deferred]
    && (r.authRejected <==> s.authRejected || AuthRejected in done)
    && r.requeued == s.requeued
  }

  /** Only the last job of a batch can meet an outage or rejected credentials. */
  ghost predicate StopsAtFirst(done: seq<Outcome>) {
    forall k :: 0 <= k < |done| - 1 ==> done[k] != Deferred && done[k] != AuthRejected
  }

  /** The summary after the first `n` outcomes. */
  ghost function CountedUpTo(s: Summary, outcomes: seq<Outcome>, n: nat): Summary
    requires n <= |outcomes|
  {
    if n == 0 then s else Counted(CountedUpTo(s, outcomes, n - 1), outcomes[n - 1])
  }

  lemma {:induction false} CountedUpToReports(s: Summary, outcomes: seq<Outcome>, n: nat)
    requires n <= |outcomes|
    ensures Reports(s, CountedUpTo(s, outcomes, n), outcomes[..n])
  {
    if n > 0 {
      CountedUpToReports(s, outcomes, n - 1);
      assert outcomes[..n] == outcomes[..n - 1] + [outcomes[n - 1]];
      ReportsOneMore(s, CountedUpTo(s, outcomes, n - 1), outcomes[..n - 1], outcomes[n - 1],
        CountedUpTo(s, outcomes, n));
    }
  }

  lemma {:induction false} ReportsOneMore(s: Summary, mid: Summary, done: seq<Outcome>, o: Outcome, r: Summary)
    requires Reports(s, mid, done) && r == Counted(mid, o)
    ensures Reports(s, r, done + [o])
  {
    assert forall x :: multiset(done + [o])[x] == multiset(done)[x] + if x == o then 1 else 0;
  }

  /** One more job was counted, or there was none. */
  lemma {:induction false} CountedOne(start: Summary, outcomes: seq<Outcome>, i: nat, s: Summary, r: Summary)
    requires i < |outcomes| && s.processed == i && s == CountedUpTo(start, outcomes, i)
    requires r == s || r == Counted(s, outcomes[i])
    ensures i <= r.processed <= i + 1 && r == CountedUpTo(start, outcomes, r.processed)
  {
  }

  /** A running job whose lease began longer than `maxAge` ago. */
  ghost predicate Overdue(j: Job, maxAge: int, now: Time) {
    j.status == Running && j.startedAt.Some? && now - j.startedAt.value > maxAge
  }

  ghost function Retried(jobs: Table, maxAge: int, now: Time): set<JobId> {
    set id | id in jobs && Overdue(jobs[id], maxAge, now) && jobs[id].attempts < MAX_JOB_ATTEMPTS
  }

  ghost function WrittenOff(jobs: Table, maxAge: int, now: Time): set<JobId> {
    set id | id in jobs && Overdue(jobs[id], maxAge, now) && jobs[id].attempts >= MAX_JOB_ATTEMPTS
  }

  /** The second statement finds what the first has left: the leases of jobs without attempts. */
  lemma {:induction false} SecondFindsTheRest(was: Table, mid: Table, maxAge: int, now: Time)
    requires mid.Keys == was.Keys
    requires forall id | id in was ::
               mid[id] == if id in Retried(was, maxAge, now)
                 then was[id].(status := Paid, startedAt := None) else was[id]
    ensures WrittenOff(mid, maxAge, now) == WrittenOff(was, maxAge, now)
  {
    forall id | id in was ensures id in WrittenOff(mid, maxAge, now) <==> id in WrittenOff(was, maxAge, now) {
    }
  }

  /** Both statements together. */
  lemma {:induction false} ReapedRows(was: Table, mid: Table, r: Table, maxAge: int, now: Time)
    requires mid.Keys == was.Keys && r.Keys == mid.Keys
    requires forall id | id in was ::
               mid[id] == if id in Retried(was, maxAge, now)
                 then was[id].(status := Paid, startedAt := None) else was[id]
    requires forall id | id in mid ::
               r[id] == if id in WrittenOff(mid, maxAge, now) then mid[id].(status := Failed) else mid[id]
    ensures forall id | id in r :: r[id] == Reaped(was[id], maxAge, now)
  {
    SecondFindsTheRest(was, mid, maxAge, now);
  }

  /** A lapsed lease goes back to paid or to failed by its attempts; any other row stays. */
  ghost function Reaped(j: Job, maxAge: int, now: Time): Job {
    if !Overdue(j, maxAge, now) then j
    else if j.attempts < MAX_JOB_ATTEMPTS then j.(status := Paid, startedAt := None)
    else j.(status := Failed)
  }

  lemma {:induction false} SpentAreWrittenOff(jobs: Table, maxAge: int, now: Time)
    ensures Spent(jobs, maxAge, now) == WrittenOff(jobs, maxAge, now)
  {
  }

  /** The rows of the first statement, as the statement has them, and what they add up to. */
  lemma {:induction false} RequeueMoves(was: Table, r: Table, maxAge: int, now: Time)
    requires r.Keys == was.Keys
    requires forall id | id in was ::
               r[id] == if id in Retried(was, maxAge, now) then was[id].(status := Paid, startedAt := None) else was[id]
    ensures r == Execute(was, RequeueStale(maxAge), now)
    ensures Count(r, Paid) == Count(was, Paid) + |Retried(was, maxAge, now)|
    ensures SameEndings(was, r) && WithStatus(r, Failed) == WithStatus(was, Failed)
  {
    CountsAfterMove(was, r, Retried(was, maxAge, now), Running, Paid);
  }

  lemma {:induction false} FailMoves(was: Table, r: Table, maxAge: int, now: Time)
    requires r.Keys == was.Keys
    requires forall id | id in was ::
               r[id] == if id in WrittenOff(was, maxAge, now) then was[id].(status := Failed) else was[id]
    ensures r == Execute(was, FailStale(maxAge), now)
    ensures Count(r, Failed) == Count(was, Failed) + |WrittenOff(was, maxAge, now)|
    ensures SameEndings(was, r) && WithStatus(r, Paid) == WithStatus(was, Paid)
  {
    CountsAfterMove(was, r, WrittenOff(was, maxAge, now), Running, Failed);
  }

  /** Every claim and every reaped failure is accounted for once. */
  ghost predicate Balanced(s: Summary, reapedFailures: nat) {
    s.processed + reapedFailures
    == s.delivered + s.skipped + s.blocked + s.deferred + s.failed + if s.authRejected then 1 else 0
  }

  lemma {:induction false} MovedTallies(s: Summary, was: Table, mid: Table, now: Table, o: Outcome)
    requires Tallies(s, was, mid) && Moved(mid, now, o) && !s.authRejected
    ensures Tallies(Counted(s, o), was, now)
    ensures forall n: nat :: Balanced(s, n) ==> Balanced(Counted(s, o), n)
  {
    assert Terminal(Delivered) && Terminal(NoFixNeeded) && Terminal(Blocked) && Terminal(Failed);
  }

  // ----- reservations -----

  /** What a reservation means at the end of the call. */
  ghost predicate ReservationOk(was: Table, now: Table, audit: Option<AuditId>, key: Option<Key>, r: Reservation,
                                at: Time)
    requires r.Reserved?
  {
    && r.id in now
    // Whatever is returned for a key that owns a job is the job it owns.
    && (key.Some? ==> forall id :: Owns(now, id, key.value) ==> id == r.id)
    // A new job is paid and records this key; one that is joined keeps the key it has.
    && (r.inserted ==> r.id !in was && now[r.id] == Job(audit, key, Paid, 0, None, at))
    && (!r.inserted ==> (key.Some? && Owns(now, r.id, key.value)) || (audit.Some? && LiveFor(now, r.id, audit.value)))
  }

  lemma {:induction false} ReservationComposes(start: Table, was: Table, now: Table, audit: Option<AuditId>,
                                               key: Option<Key>, r: Reservation, at: Time)
    requires r.Reserved? && Rely(start, was) && ReservationOk(was, now, audit, key, r, at)
    ensures ReservationOk(start, now, audit, key, r, at)
  {
  }

  /** Job `id` belongs to the audit and is no longer live. */
  ghost predicate Ended(jobs: Table, audit: AuditId, id: JobId) {
    id in jobs && jobs[id].audit == Some(audit) && !Live(jobs[id].status)
  }

  /** Different jobs, all of the audit, none of them live. */
  ghost predicate AllEnded(jobs: Table, audit: AuditId, ids: seq<JobId>) {
    && (forall k :: 0 <= k < |ids| ==> Ended(jobs, audit, ids[k]))
    && (forall k, l :: 0 <= k < l < |ids| ==> ids[k] != ids[l])
  }

  lemma {:induction false} EndedStays(was: Table, now: Table, audit: AuditId, ids: seq<JobId>)
    requires Rely(was, now) && AllEnded(was, audit, ids)
    ensures AllEnded(now, audit, ids)
  {
    forall k | 0 <= k < |ids| ensures Ended(now, audit, ids[k]) {
      assert Ended(was, audit, ids[k]);
    }
  }

  /** A job that was live when the earlier ones had ended is none of them. */
  lemma {:induction false} OneMoreEnded(was: Table, now: Table, audit: AuditId, ids: seq<JobId>, next: JobId)
    requires Rely(was, now) && AllEnded(was, audit, ids) && Ended(now, audit, next)
    requires next in was ==> Live(was[next].status)
    ensures AllEnded(now, audit, ids + [next])
  {
    EndedStays(was, now, audit, ids);
    forall k | 0 <= k < |ids| ensures ids[k] != next {
      assert Ended(was, audit, ids[k]);
    }
  }

  /** An insert refused although nothing can be shared any more met a live job that has ended since. */
  lemma {:induction false} RefusedByLive(was: Table, now: Table, audit: Option<AuditId>, key: Option<Key>)
    returns (id: JobId)
    requires Rely(was, now) && !Insertable(was, audit, key) && Insertable(now, audit, key)
    ensures audit.Some? && LiveFor(was, id, audit.value) && Ended(now, audit.value, id)
  {
    if key.Some? {
      forall other | other in was ensures !Owns(was, other, key.value) {
        assert other in now && !Owns(now, other, key.value);
      }
    }
    id :| id in was && LiveFor(was, id, audit.value);
    assert !LiveFor(now, id, audit.value);
  }

  /** Without a result of the round, `id` was live, or not yet there, before it, and has ended since. */
  ghost predicate RefusedBy(was: Table, now: Table, audit: Option<AuditId>, id: JobId) {
    audit.Some? && Ended(now, audit.value, id) && (id in was ==> Live(was[id].status))
  }

  /** After `round` fruitless rounds as many different jobs of the audit have ended. */
  ghost predicate AllGone(jobs: Table, audit: Option<AuditId>, gone: seq<JobId>, round: nat) {
    |gone| == round && (round > 0 ==> audit.Some? && AllEnded(jobs, audit.value, gone))
  }

  lemma {:induction false} GoneStays(was: Table, now: Table, audit: Option<AuditId>, gone: seq<JobId>, round: nat)
    requires Rely(was, now)
    ensures AllGone(was, audit, gone, round) ==> AllGone(now, audit, gone, round)
  {
    if AllGone(was, audit, gone, round) && round > 0 { EndedStays(was, now, audit.value, gone); }
  }

  lemma {:induction false} OneMoreGone(was: Table, now: Table, audit: Option<AuditId>, gone: seq<JobId>, round: nat,
                                       newId: JobId, ended: JobId)
    returns (more: seq<JobId>)
    requires Rely(was, now) && (newId in now || RefusedBy(was, now, audit, ended))
    ensures AllGone(was, audit, gone, round) ==> newId in now || AllGone(now, audit, more, round + 1)
  {
    more := gone + [ended];
    if newId !in now && AllGone(was, audit, gone, round) {
      OneMoreEnded(was, now, audit.value, gone, ended);
    }
  }

  // ----- what the statements come to -----

  /** A statement on one row id updates that row where it matches and nothing else. */
  lemma {:induction false} ExecuteTargeted(jobs: Table, st: Statement, now: Time, id: JobId)
    requires (st.ClaimOnePaid? && st.pick == id)
              || ((st.ReleaseToPaid? || st.MarkDelivered? || st.MarkStatus?) && st.id == id)
    ensures Execute(jobs, st, now)
         == if id in jobs && Writes(jobs, st, now, id) then jobs[id := Written(jobs[id], st, now)] else jobs
  {
  }

  /** What others can do while a run holds the lock: buy, try to start a run, or nothing. */
  predicate Harmless(a: Action) {
    a.Insert? || a.StartRun? || a.Idle?
  }

  /** Nothing that was in the table changed, and nothing ended. */
  ghost predicate OnlyAdded(was: Table, now: Table) {
    && (forall id :: id in was ==> id in now && now[id] == was[id])
    && (forall id :: id in now && id !in was ==> !Terminal(now[id].status))
  }

  lemma {:induction false} OnlyAddedKeepsCounts(was: Table, now: Table)
    requires OnlyAdded(was, now)
    ensures forall s :: Terminal(s) ==> Count(now, s) == Count(was, s)
  {
    forall s | Terminal(s) ensures WithStatus(now, s) == WithStatus(was, s) {
    }
  }

  ghost predicate AllHarmless(others: seq<seq<Timed>>) {
    forall k :: 0 <= k < |others| ==> HarmlessSteps(others[k])
  }

  ghost predicate HarmlessSteps(steps: seq<Timed>) {
    forall i :: 0 <= i < |steps| ==> Harmless(steps[i].action)
  }

  /** A claim, then purchases by others, then the outcome: one job ends as the outcome says. */
  lemma {:induction false} ClaimedAndRecorded(id: JobId, o: Outcome, was: Table, claimed: Table, later: Table, r: Table)
    requires id in was && was[id].status.Paid?
    requires id in claimed && claimed[id].status.Running? && claimed == was[id := claimed[id]]
    requires id in later && later[id].status.Running? && later[id].attempts >= 1
    requires r == later[id := Concluded(later[id], o)]
    requires forall s :: Terminal(s) ==> Count(later, s) == Count(claimed, s)
    ensures Moved(was, r, o)
  {
    forall s | Terminal(s) ensures Count(r, s) == Count(was, s) + if EndsIn(o) == Some(s) then 1 else 0 {
      CountAfterWrite(was, id, claimed[id], claimed, s);
      CountAfterWrite(later, id, r[id], r, s);
    }
  }

  /** What the two unique indexes ask for. */
  lemma {:induction false} InsertableMeans(jobs: Table, audit: Option<AuditId>, key: Option<Key>)
    ensures Insertable(jobs, audit, key) <==>
            && (key.Some? ==> forall other :: other in jobs ==> jobs[other].key != key)
            && (audit.Some? ==> forall other :: other in jobs && jobs[other].audit == audit ==>
                  jobs[other].status != Paid && jobs[other].status != Running)
  {
    forall other | other in jobs
      ensures key.Some? ==> (Owns(jobs, other, key.value) <==> jobs[other].key == key)
      ensures audit.Some? ==>
                (LiveFor(jobs, other, audit.value)
                 <==> jobs[other].audit == audit && (jobs[other].status == Paid || jobs[other].status == Running))
    {
    }
  }

  /** No claimed job is waiting for its outcome. */
  predicate BetweenJobs(run: Option<Run>) {
    run.Some? && run.value.Draining? ==> run.value.current.None?
  }

  /** A step that issues `st` at once. */
  lemma {:induction false} IssuedStep(sys: System, a: Action, st: Statement)
    requires Issued(sys, a) == Some(st)
    ensures Next(sys, Timed(0, a)) == System(Execute(sys.jobs, st, sys.clock), RunAfter(sys, a), sys.clock)
  {
  }

  lemma {:induction false} ClaimStep(sys: System, locked: set<JobId>, id: JobId)
    requires sys.run.Some? && sys.run.value.Draining? && sys.run.value.current.None? && sys.run.value.left > 0
    requires Oldest(sys.jobs, Claimable(sys.jobs, locked), id)
    ensures var j := sys.jobs[id];
            Next(sys, Timed(0, Claim(locked, id)))
            == System(sys.jobs[id := j.(status := Running, startedAt := Some(sys.clock), attempts := j.attempts + 1)],
                      Some(Draining(sys.run.value.left - 1, Some(id))), sys.clock)
  {
    IssuedStep(sys, Claim(locked, id), FixpackJobs.ClaimOnePaid(locked, id));
    ExecuteTargeted(sys.jobs, FixpackJobs.ClaimOnePaid(locked, id), sys.clock, id);
  }

  lemma {:induction false} EndRunStep(sys: System)
    requires BetweenJobs(sys.run)
    ensures Next(sys, Timed(0, EndRun)) == System(sys.jobs, None, sys.clock)
  {
  }

  lemma {:induction false} HarmlessStep(sys: System, t: Timed, r: System)
    requires sys.run.Some? && Harmless(t.action) && r == Next(sys, t)
    ensures r.run == sys.run && OnlyAdded(sys.jobs, r.jobs)
  {
  }

  class FixpackJobRepository {
    var jobs: Table
    var run: Option<Run>
    var clock: Time
    ghost var history: History<Timed>

    ghost function State(): System
      reads this
    {
      System(jobs, run, clock)
    }

    /** Table, lock and clock are what the recorded run of the whole system makes of an empty one. */
    ghost predicate Valid()
      reads this
    {
      After(history) == State()
    }

    constructor ()
      ensures Valid() && history == Start
    {
      jobs, run, clock, history := map[], None, 0, Start;
    }

    /** Records an action that the caller has just carried out. */
    ghost method Record(a: Action, was: System)
      requires After(history) == was && State() == Next(was, Timed(0, a))
      modifies `history
      ensures Valid() && history == Then(old(history), Timed(0, a))
    {
      history := Then(history, Timed(0, a));
    }

    /** Others take these steps, and time passes. */
    method Yield(steps: seq<Timed>)
      requires Valid()
      modifies this
      ensures Valid() && Extends(history, old(history))
      ensures Rely(old(jobs), jobs) && IndexesOk(jobs)
      ensures steps == [] ==> State() == old(State()) && history == old(history)
    {
      for i := 0 to |steps|
        invariant Valid() && Extends(history, old(history))
        invariant i == 0 ==> State() == old(State()) && history == old(history)
      {
        var sys := Next(System(jobs, run, clock), steps[i]);
        jobs, run, clock := sys.jobs, sys.run, sys.clock;
        history := Then(history, steps[i]);
      }
      RunsRespectRely(history, old(history));
    }

    /** The same while the caller holds the lock. */
    method YieldHoldingLock(steps: seq<Timed>)
      requires Valid() && run.Some? && HarmlessSteps(steps)
      modifies this
      ensures Valid() && Extends(history, old(history))
      ensures run == old(run) && OnlyAdded(old(jobs), jobs)
    {
      for i := 0 to |steps|
        invariant Valid() && Extends(history, old(history))
        invariant run == old(run) && OnlyAdded(old(jobs), jobs)
      {
        var sys := Next(System(jobs, run, clock), steps[i]);
        HarmlessStep(State(), steps[i], sys);
        jobs, clock := sys.jobs, sys.clock;
        history := Then(history, steps[i]);
      }
    }

    // ----- a checkout -----

    /** The first select of a round; it is skipped without a key. */
    method FindByKey(key: Option<Key>) returns (found: Option<JobId>)
      ensures found.Some? ==> key.Some? && Owns(jobs, found.value, key.value)
      ensures found.None? && key.Some? ==> forall id :: !Owns(jobs, id, key.value)
    {
      var owners := set id | id in jobs && key.Some? && Owns(jobs, id, key.value);
      if owners != {} {
        var owner :| owner in owners;
        return Some(owner);
      }
      assert key.Some? ==> forall id :: id in jobs && Owns(jobs, id, key.value) ==> id in owners;
      found := None;
    }

    /** insert ... on conflict do nothing. */
    method InsertUnlessConflict(id: JobId, audit: Option<AuditId>, key: Option<Key>) returns (inserted: bool)
      requires Valid()
      modifies `jobs, `history
      ensures Valid() && history == Then(old(history), Timed(0, Insert(InsertPaid(id, audit, key))))
      ensures inserted <==> id !in old(jobs) && Insertable(old(jobs), audit, key)
      ensures inserted <==>
                && id !in old(jobs)
                && (key.Some? ==> forall other :: other in old(jobs) ==> old(jobs)[other].key != key)
                && (audit.Some? ==> forall other :: other in old(jobs) && old(jobs)[other].audit == audit ==>
                      old(jobs)[other].status != Paid && old(jobs)[other].status != Running)
      ensures jobs == if inserted then old(jobs)[id := Job(audit, key, Paid, 0, None, clock)] else old(jobs)
    {
      inserted := id !in jobs && Insertable(jobs, audit, key);
      InsertableMeans(jobs, audit, key);
      if inserted {
        jobs := jobs[id := Job(audit, key, Paid, 0, None, clock)];
      }
      Record(Insert(InsertPaid(id, audit, key)), old(State()));
    }

    /** The last select of a round: the key's own job before a live job of the audit. */
    method FindShared(audit: Option<AuditId>, key: Option<Key>) returns (found: Option<JobId>)
      ensures found.Some? ==>
                || (key.Some? && Owns(jobs, found.value, key.value))
                || (audit.Some? && LiveFor(jobs, found.value, audit.value)
                    && (key.Some? ==> forall id :: !Owns(jobs, id, key.value)))
      ensures found.None? ==> Insertable(jobs, audit, key)
    {
      found := FindByKey(key);
      if found.Some? {
        return;
      }
      var joinable := set id | id in jobs && audit.Some? && LiveFor(jobs, id, audit.value);
      if joinable != {} {
        var live :| live in joinable;
        return Some(live);
      }
      assert audit.Some? ==> forall id :: id in jobs && LiveFor(jobs, id, audit.value) ==> id in joinable;
    }

    /**
     One round: select, insert, select, with two batches of other transactions in between.
     Without a result, a job of the audit was live at the insert and is no longer.
     */
    method Round(audit: Option<AuditId>, key: Option<Key>, newId: JobId, first: seq<Timed>, second: seq<Timed>)
      returns (r: Option<Reservation>, ghost gone: JobId)
      requires Valid()
      modifies this
      ensures Valid() && Extends(history, old(history)) && Rely(old(jobs), jobs)
      ensures r.Some? ==> r.value.Reserved? && ReservationOk(old(jobs), jobs, audit, key, r.value, clock)
      ensures key.Some? ==> forall id :: Owns(old(jobs), id, key.value) ==>
                r == Some(Reserved(id, false)) && State() == old(State())
      ensures r.None? ==> newId in jobs || RefusedBy(old(jobs), jobs, audit, gone)
      ensures r.None? && first == second == [] ==> newId in old(jobs) && jobs == old(jobs)
    {
      gone := 0;
      ReachableOk(history);
      var found := FindByKey(key);
      if found.Some? {
        return Some(Reserved(found.value, false)), gone;
      }
      Yield(first);
      label Inserting:
      var inserted := InsertUnlessConflict(newId, audit, key);
      RunsRespectRely(history, old(history));
      if inserted {
        return Some(Reserved(newId, true)), gone;
      }
      label Refused:
      Yield(second);
      ExtendsTransitive(history, old@Refused(history), old(history));
      RunsRespectRely(history, old(history));
      found := FindShared(audit, key);
      if found.Some? {
        return Some(Reserved(found.value, false)), gone;
      }
      r := None;
      if newId !in old@Inserting(jobs) {
        gone := RefusedByLive(old@Inserting(jobs), jobs, audit, key);
      }
    }

    /**
     Reserves one job for a payment, with `others` taken by other transactions, processor runs
     included, between the statements of the three rounds. `gone` are the jobs that refused the inserts.
     */
    method CreatePaid(audit: Option<AuditId>, key: Option<Key>, newIds: seq<JobId>, others: seq<seq<Timed>>)
      returns (r: Reservation, ghost gone: seq<JobId>)
      requires Valid() && |newIds| == 3 && |others| == 9
      modifies this
      ensures Valid() && Extends(history, old(history)) && Rely(old(jobs), jobs)
      // A key that already owns a job gets that job back, terminal or not, and inserts nothing.
      ensures key.Some? ==> forall id :: Owns(old(jobs), id, key.value) ==>
              r == Reserved(id, false) && jobs == old(jobs)
      ensures r.Reserved? ==> ReservationOk(old(jobs), jobs, audit, key, r, clock)
      // It gives up only after three different jobs of the audit have come to an end during the call.
      ensures r.ChangedRepeatedly? && (forall i :: 0 <= i < 3 ==> newIds[i] !in jobs) ==>
                audit.Some? && |gone| == 3 && AllEnded(jobs, audit.value, gone)
      // So it never gives up when nobody interferes.
      ensures (forall i :: 0 <= i < 9 ==> others[i] == []) && newIds[0] !in old(jobs) ==> r.Reserved?
    {
      gone := [];
      for round := 0 to 3
        invariant Valid() && Extends(history, old(history)) && Rely(old(jobs), jobs)
        invariant round == 0 ==> jobs == old(jobs)
        invariant key.Some? && round > 0 ==> forall id :: !Owns(old(jobs), id, key.value)
        invariant (exists i :: 0 <= i < round && newIds[i] in jobs) || AllGone(jobs, audit, gone, round)
        invariant round > 0 && (forall i :: 0 <= i < 9 ==> others[i] == []) ==> newIds[0] in old(jobs)
      {
        label Top:
        var found, ended := Round(audit, key, newIds[round], others[3 * round], others[3 * round + 1]);
        ExtendsTransitive(history, old@Top(history), old(history));
        if found.Some? {
          ReservationComposes(old(jobs), old@Top(jobs), jobs, audit, key, found.value, clock);
          return found.value, gone;
        }
        gone := OneMoreGone(old@Top(jobs), jobs, audit, gone, round, newIds[round], ended);
        label Bottom:
        Yield(others[3 * round + 2]);
        ExtendsTransitive(history, old@Bottom(history), old(history));
        GoneStays(old@Bottom(jobs), jobs, audit, gone, round + 1);
      }
      r := ChangedRepeatedly;
    }

    // ----- the processor's statements -----

    /** order by created_at limit 1. */
    method PickOldest(ids: set<JobId>) returns (id: JobId)
      requires ids != {} && ids <= jobs.Keys
      ensures id in ids && forall other :: other in ids ==> jobs[id].createdAt <= jobs[other].createdAt
    {
      ghost var _ := Queues.OldestExists(map i | i in jobs :: jobs[i].createdAt, ids);
      id :| id in ids && forall other :: other in ids ==> jobs[id].createdAt <= jobs[other].createdAt;
    }

    /** Leases the oldest paid job that no other transaction holds locked. */
    method ClaimOnePaid(locked: set<JobId>) returns (claimed: Option<JobId>)
      requires Valid() && run.Some? && run.value.Draining? && run.value.current.None? && run.value.left > 0
      modifies `jobs, `run, `history
      ensures Valid() && Extends(history, old(history))
      ensures claimed.None? <==> forall id :: id in old(jobs) && id !in locked ==> old(jobs)[id].status != Paid
      ensures claimed.None? ==> State() == old(State())
      ensures claimed.Some? ==>
                && claimed.value in old(jobs) && claimed.value !in locked && old(jobs)[claimed.value].status == Paid
                && (forall id | id in old(jobs) && id !in locked && old(jobs)[id].status == Paid ::
                      old(jobs)[claimed.value].createdAt <= old(jobs)[id].createdAt)
                && jobs == old(jobs)[claimed.value :=
                     old(jobs)[claimed.value].(status := Running, startedAt := Some(clock),
                                               attempts := old(jobs)[claimed.value].attempts + 1)]
                && run == Some(Draining(old(run).value.left - 1, claimed))
    {
      var candidates := Claimable(jobs, locked);
      assert forall id :: id in jobs && id !in locked && jobs[id].status == Paid <==> id in candidates;
      if candidates == {} {
        return None;
      }
      var id := PickOldest(candidates);
      assert Oldest(jobs, candidates, id);
      var j := jobs[id];
      jobs := jobs[id := j.(status := Running, startedAt := Some(clock), attempts := j.attempts + 1)];
      run := Some(Draining(run.value.left - 1, Some(id)));
      claimed := Some(id);
      ClaimStep(old(State()), locked, id);
      Record(Claim(locked, id), old(State()));
    }

    /** The reaper's first statement: a lapsed lease with budget left is paid again. */
    method RequeueLapsed(maxAge: int) returns (requeued: nat)
      requires Valid() && run.Some? && run.value.Reaping?
      modifies `jobs, `history
      ensures Valid() && history == Then(old(history), Timed(0, Requeue(maxAge))) && jobs.Keys == old(jobs).Keys
      ensures forall id | id in jobs ::
                jobs[id] == if id in Retried(old(jobs), maxAge, clock)
                            then old(jobs)[id].(status := Paid, startedAt := None) else old(jobs)[id]
      ensures requeued == |Retried(old(jobs), maxAge, clock)| == Count(jobs, Paid) - Count(old(jobs), Paid)
      ensures SameEndings(old(jobs), jobs) && WithStatus(jobs, Failed) == WithStatus(old(jobs), Failed)
    {
      var lapsed := set id | id in jobs && Stale(jobs[id], clock, maxAge) && jobs[id].attempts < MAX_JOB_ATTEMPTS;
      assert lapsed == Retried(jobs, maxAge, clock);
      jobs := map id | id in jobs :: if id in lapsed then jobs[id].(status := Paid, startedAt := None) else jobs[id];
      RequeueMoves(old(jobs), jobs, maxAge, clock);
      requeued := |lapsed|;
      IssuedStep(old(State()), Requeue(maxAge), RequeueStale(maxAge));
      Record(Requeue(maxAge), old(State()));
    }

    /** Its second statement: a lapsed lease without budget is failed. */
    method FailSpent(maxAge: int) returns (failed: nat)
      requires Valid() && run.Some? && run.value.Reaping?
      modifies `jobs, `history
      ensures Valid() && history == Then(old(history), Timed(0, FailLapsed(maxAge))) && jobs.Keys == old(jobs).Keys
      ensures forall id | id in jobs ::
                jobs[id] == if id in WrittenOff(old(jobs), maxAge, clock)
                            then old(jobs)[id].(status := Failed) else old(jobs)[id]
      ensures failed == |WrittenOff(old(jobs), maxAge, clock)| == Count(jobs, Failed) - Count(old(jobs), Failed)
      ensures SameEndings(old(jobs), jobs) && WithStatus(jobs, Paid) == WithStatus(old(jobs), Paid)
    {
      var spent := Spent(jobs, maxAge, clock);
      SpentAreWrittenOff(jobs, maxAge, clock);
      jobs := map id | id in jobs :: if id in spent then jobs[id].(status := Failed) else jobs[id];
      FailMoves(old(jobs), jobs, maxAge, clock);
      failed := |spent|;
      IssuedStep(old(State()), FailLapsed(maxAge), FailStale(maxAge));
      Record(FailLapsed(maxAge), old(State()));
    }

    /** Every lease that lapsed is paid again or failed by its attempts; no other row changes. */
    method ReapStaleRunning(maxAge: int) returns (r: Recovered)
      requires Valid() && run.Some? && run.value.Reaping?
      modifies `jobs, `history
      ensures Valid() && Extends(history, old(history)) && jobs.Keys == old(jobs).Keys
      ensures forall id | id in jobs :: jobs[id] == Reaped(old(jobs)[id], maxAge, clock)
      ensures r.requeued == Count(jobs, Paid) - Count(old(jobs), Paid) == |Retried(old(jobs), maxAge, clock)|
      ensures r.failed == Count(jobs, Failed) - Count(old(jobs), Failed) == |WrittenOff(old(jobs), maxAge, clock)|
      ensures Tallies(Summary(0, 0, 0, 0, r.failed, r.requeued, 0, false), old(jobs), jobs)
    {
      var requeued := RequeueLapsed(maxAge);
      SecondFindsTheRest(old(jobs), jobs, maxAge, clock);
      label Requeued:
      var failed := FailSpent(maxAge);
      ReapedRows(old(jobs), old@Requeued(jobs), jobs, maxAge, clock);
      r := Recovered(requeued, failed);
    }

    method ReleaseToPaid(id: JobId)
      modifies `jobs
      ensures jobs == Execute(old(jobs), FixpackJobs.ReleaseToPaid(id), clock)
    {
      ExecuteTargeted(jobs, FixpackJobs.ReleaseToPaid(id), clock, id);
      if id in jobs && jobs[id].status.Running? {
        var j := jobs[id];
        jobs := jobs[id :=
          j.(status := Paid, startedAt := None, attempts := if j.attempts - 1 > 0 then j.attempts - 1 else 0)];
      }
    }

    /** No status guard: it is the caller that writes only the job it claimed. */
    method MarkStatus(id: JobId, status: Status)
      modifies `jobs
      ensures jobs == Execute(old(jobs), FixpackJobs.MarkStatus(id, status), clock)
      ensures status.Delivered? ==> jobs == Execute(old(jobs), MarkDelivered(id), clock)
    {
      ExecuteTargeted(jobs, FixpackJobs.MarkStatus(id, status), clock, id);
      ExecuteTargeted(jobs, MarkDelivered(id), clock, id);
      if id in jobs {
        jobs := jobs[id := jobs[id].(status := status)];
      }
    }

    /** What became of the claimed job is written to its row. */
    method RecordOutcome(o: Outcome)
      requires Valid() && Processing(State())
      modifies `jobs, `run, `history
      ensures Valid() && history == Then(old(history), Timed(0, Finish(o)))
      ensures var id := old(run).value.current.value;
              && id in old(jobs) && old(jobs)[id].status == Running && old(jobs)[id].attempts >= 1
              && jobs == old(jobs)[id := Concluded(old(jobs)[id], o)]
      // An outage and rejected credentials end the run; otherwise it goes on.
      ensures run == if o == Deferred || o == AuthRejected then None else Some(Draining(old(run).value.left, None))
    {
      ReachableOk(history);
      var id := run.value.current.value;
      match o {
        case DeliveredPr => MarkStatus(id, Delivered);
        case NothingToFix => MarkStatus(id, NoFixNeeded);
        case BlockedFix => MarkStatus(id, Blocked);
        case FailedFix => MarkStatus(id, Failed);
        case Deferred => MarkStatus(id, Running);
        case AuthRejected => ReleaseToPaid(id);
      }
      run := if StopsBatch(o) then None else Some(Draining(run.value.left, None));
      ExecuteTargeted(old(jobs), FixpackJobs.Record(id, o), clock, id);
      WrittenIsConcluded(old(jobs)[id], id, o, clock);
      IssuedStep(old(State()), Finish(o), FixpackJobs.Record(id, o));
      Record(Finish(o), old(State()));
    }

    // ----- a processor run -----

    /** The advisory lock: held by one run at a time. */
    method TakeLock(batch: nat) returns (taken: bool)
      requires Valid()
      modifies `run, `history
      ensures Valid() && Extends(history, old(history))
      ensures taken <==> old(run).None?
      ensures run == if taken then Some(Reaping(batch)) else old(run)
    {
      taken := run.None?;
      if taken {
        run := Some(Reaping(batch));
      }
      Record(StartRun(batch), old(State()));
    }

    /** Leaving the lock's scope. */
    method ReleaseLock()
      requires Valid() && BetweenJobs(run)
      modifies `run, `history
      ensures Valid() && Extends(history, old(history)) && run.None?
    {
      run := None;
      EndRunStep(old(State()));
      Record(EndRun, old(State()));
    }

    method StartDraining()
      requires Valid() && run.Some? && run.value.Reaping?
      modifies `run, `history
      ensures Valid() && Extends(history, old(history)) && run == Some(Draining(old(run).value.batch, None))
    {
      run := Some(Draining(run.value.batch, None));
      Record(Action.StartDraining, old(State()));
    }

    /** Claims one job, if there is one, and records what became of it, while others go on buying. */
    method ClaimAndProcess(o: Outcome, others: seq<Timed>) returns (claimed: bool)
      requires Valid() && run.Some? && run.value.Draining? && run.value.current.None? && run.value.left > 0
      requires HarmlessSteps(others)
      modifies this
      ensures Valid() && Extends(history, old(history))
      ensures !claimed ==> jobs == old(jobs) && Count(jobs, Paid) == 0 && run == old(run)
      ensures claimed ==> Moved(old(jobs), jobs, o)
      ensures claimed ==> run == if StopsBatch(o) then None else Some(Draining(old(run).value.left - 1, None))
    {
      var job := ClaimOnePaid({});
      if job.None? {
        assert WithStatus(jobs, Paid) == Claimable(jobs, {});
        return false;
      }
      label Claimed:
      YieldHoldingLock(others);
      ExtendsTransitive(history, old@Claimed(history), old(history));
      OnlyAddedKeepsCounts(old@Claimed(jobs), jobs);
      label Processed:
      RecordOutcome(o);
      ClaimedAndRecorded(job.value, o, old(jobs), old@Claimed(jobs), old@Processed(jobs), jobs);
      claimed := true;
    }

    /** One pass of the drain, others buying before and during it; `more` says whether to go on. */
    method DrainOne(o: Outcome, before: seq<Timed>, during: seq<Timed>, s: Summary, ghost base: Table,
                    ghost reaped: nat)
      returns (more: bool, r: Summary)
      requires Valid() && run.Some? && run.value.Draining? && run.value.current.None? && run.value.left > 0
      requires HarmlessSteps(before) && HarmlessSteps(during)
      requires s.deferred == 0 && !s.authRejected && Balanced(s, reaped) && Tallies(s, base, jobs)
      modifies this
      ensures Valid() && Extends(history, old(history))
      ensures Balanced(r, reaped) && Tallies(r, base, jobs)
      ensures more ==> r.deferred == 0 && !r.authRejected && run == Some(Draining(old(run).value.left - 1, None))
      ensures !more ==>
              BetweenJobs(run) && r.deferred <= 1 && (Count(jobs, Paid) == 0 || r.deferred == 1 || r.authRejected)
      ensures r == s || r == Counted(s, o)
      ensures more ==> r.processed == s.processed + 1 && !StopsBatch(o)
    {
      YieldHoldingLock(before);
      OnlyAddedKeepsCounts(old(jobs), jobs);
      label Bought:
      var claimed := ClaimAndProcess(o, during);
      ExtendsTransitive(history, old@Bought(history), old(history));
      r := s;
      if claimed {
        assert Tallies(s, base, old@Bought(jobs));
        MovedTallies(s, base, old@Bought(jobs), jobs, o);
        r := Counted(s, o);
      }
      more := claimed && !StopsBatch(o);
    }

    /** The loop over the batch. */
    method DrainBatch(batch: nat, outcomes: seq<Outcome>, others: seq<seq<Timed>>, s: Summary, ghost base: Table,
                      ghost reaped: nat)
      returns (r: Summary)
      requires Valid() && run == Some(Draining(batch, None))
      requires |outcomes| == batch && |others| == 2 * batch && AllHarmless(others)
      requires s.processed == s.deferred == 0 && !s.authRejected && Balanced(s, reaped) && Tallies(s, base, jobs)
      modifies this
      ensures Valid() && Extends(history, old(history)) && BetweenJobs(run)
      ensures Balanced(r, reaped) && Tallies(r, base, jobs)
      ensures r.processed <= batch && r.deferred <= 1 && r == CountedUpTo(s, outcomes, r.processed)
      ensures forall k :: 0 <= k < r.processed - 1 ==> !StopsBatch(outcomes[k])
      ensures r.processed < batch ==> Count(jobs, Paid) == 0 || r.deferred == 1 || r.authRejected
    {
      r := s;
      for i := 0 to batch
        invariant Valid() && Extends(history, old(history)) && run == Some(Draining(batch - i, None))
        invariant r.processed == i && r.deferred == 0 && !r.authRejected
        invariant Balanced(r, reaped) && Tallies(r, base, jobs)
        invariant r == CountedUpTo(s, outcomes, i) && forall k :: 0 <= k < i ==> !StopsBatch(outcomes[k])
      {
        label Top:
        ghost var mid := r;
        var more;
        more, r := DrainOne(outcomes[i], others[2 * i], others[2 * i + 1], r, base, reaped);
        ExtendsTransitive(history, old@Top(history), old(history));
        CountedOne(s, outcomes, i, mid, r);
        if !more {
          return;
        }
      }
    }

    /** Claims and processes up to `batch` jobs, adding to `s`. */
    method Drain(batch: nat, outcomes: seq<Outcome>, others: seq<seq<Timed>>, s: Summary, ghost base: Table,
                 ghost reaped: nat)
      returns (r: Summary)
      requires Valid() && run == Some(Draining(batch, None))
      requires |outcomes| == batch && |others| == 2 * batch && AllHarmless(others)
      requires s.processed == s.deferred == 0 && !s.authRejected && Balanced(s, reaped) && Tallies(s, base, jobs)
      modifies this
      ensures Valid() && Extends(history, old(history)) && BetweenJobs(run)
      ensures Balanced(r, reaped) && Tallies(r, base, jobs)
      ensures r.processed <= batch && r.deferred <= 1
      // The summary reports each outcome under its heading, up to the first that stops the batch.
      ensures Reports(s, r, outcomes[..r.processed]) && StopsAtFirst(outcomes[..r.processed])
      // The batch ends early only because the queue is empty or the batch was stopped.
      ensures r.processed < batch ==> Count(jobs, Paid) == 0 || r.deferred == 1 || r.authRejected
    {
      r := DrainBatch(batch, outcomes, others, s, base, reaped);
      CountedUpToReports(s, outcomes, r.processed);
    }

    /**
     One processor run over a bounded batch; `outcomes` is what happens to each claimed job and
     `others` what the others do meanwhile. The summary accounts for every claim and every reaped
     failure, and its numbers are the rows that reached each status.
     */
    method ProcessPaid(batch: nat, maxAge: int, runnerHealthy: bool, outcomes: seq<Outcome>, others: seq<seq<Timed>>)
      returns (reply: Reply)
      requires Valid() && |outcomes| == batch && |others| == 2 * batch && AllHarmless(others)
      modifies this
      ensures Valid() && Extends(history, old(history))
      ensures reply.SkippedLocked? <==> old(run).Some?
      ensures reply.SkippedLocked? ==> State() == old(State())
      ensures reply.Ran? ==> run.None?
      ensures reply.Ran? ==>
                && Balanced(reply.summary, |WrittenOff(old(jobs), maxAge, old(clock))|)
                && Tallies(reply.summary, old(jobs), jobs)
      ensures reply.Ran? ==>
                var before := Summary(0, 0, 0, 0, |WrittenOff(old(jobs), maxAge, old(clock))|,
                                      |Retried(old(jobs), maxAge, old(clock))|, 0, false);
                && reply.summary.processed <= batch
                && Reports(before, reply.summary, outcomes[..reply.summary.processed])
                && StopsAtFirst(outcomes[..reply.summary.processed])
      ensures reply.Ran? ==> reply.summary.processed <= batch && reply.summary.deferred <= 1
      ensures reply.Ran? && !runnerHealthy ==> reply.summary.processed == 0
      ensures reply.Ran? && runnerHealthy && reply.summary.processed < batch ==>
                Count(jobs, Paid) == 0 || reply.summary.deferred == 1 || reply.summary.authRejected
    {
      var taken := TakeLock(batch);
      if !taken {
        return SkippedLocked;
      }
      label Locked:
      var reaped := ReapStaleRunning(maxAge);
      ExtendsTransitive(history, old@Locked(history), old(history));
      var s := Summary(0, 0, 0, 0, reaped.failed, reaped.requeued, 0, false);
      if runnerHealthy {
        label Swept:
        StartDraining();
        ExtendsTransitive(history, old@Swept(history), old(history));
        label Draining:
        s := Drain(batch, outcomes, others, s, old(jobs), reaped.failed);
        ExtendsTransitive(history, old@Draining(history), old(history));
      }
      label Done:
      ReleaseLock();
      ExtendsTransitive(history, old@Done(history), old(history));
      reply := Ran(s);
    }
  }
}
