/** Properties of whole runs of the audit queue: accounting, fencing, termination, backoff. */
module AuditQueueRuns {
  import opened Options
  import opened Histories
  import opened AuditQueue
  import opened AuditQueueSafety

  // ----- counting steps of a run -----

  ghost function Claims(h: History<Step>, id: JobId): nat {
    match h
    case Start => 0
    case Then(past, s) => Claims(past, id) + if s.event.ClaimOne? && Touches(past, s, id) then 1 else 0
  }

  /** release_early calls on `id` that returned True. */
  ghost function Releases(h: History<Step>, id: JobId): nat {
    match h
    case Start => 0
    case Then(past, s) => Releases(past, id) + if s.event.ReleaseEarly? && Touches(past, s, id) then 1 else 0
  }

  /** finalize_succeeded calls on `id` that returned True. */
  ghost function Successes(h: History<Step>, id: JobId): nat {
    match h
    case Start => 0
    case Then(past, s) => Successes(past, id) + if s.event.FinalizeSucceeded? && Touches(past, s, id) then 1 else 0
  }

  /** Steps after which the state of row `id` is another one than before. */
  ghost function StateChanges(h: History<Step>, id: JobId): nat {
    match h
    case Start => 0
    case Then(past, s) =>
      StateChanges(past, id)
      + if id in After(past).rows && id in After(h).rows && After(h).rows[id].state != After(past).rows[id].state
        then 1 else 0
  }

  /** Rows are never deleted, and change only where the statement matches. */
  lemma {:induction false} RowAfterStep(past: History<Step>, s: Step, id: JobId)
    requires id in After(past).rows
    ensures id in After(Then(past, s)).rows
    ensures After(Then(past, s)).rows[id]
         == if Touches(past, s, id) then Written(After(past).rows[id], s.event, Now(past, s)) else After(past).rows[id]
  {
    RowAfterStatement(After(past).rows, s.event, Now(past, s), id, After(Then(past, s)).rows);
  }

  lemma {:induction false} RowAfterStatement(rows: Table, e: Event, now: Time, id: JobId, r: Table)
    requires id in rows && r == Rows(rows, e, now)
    ensures id in r && r[id] == if Writes(rows, e, now, id) then Written(rows[id], e, now) else rows[id]
  {
  }

  lemma {:induction false} RowAfterInsert(past: History<Step>, s: Step, id: JobId)
    requires id !in After(past).rows && id in After(Then(past, s)).rows
    ensures s.event.Enqueue? && After(Then(past, s)).rows[id] == NewJob(s.event, Now(past, s))
  {
  }

  lemma {:induction false} RowReachableOk(h: History<Step>, id: JobId)
    requires id in After(h).rows
    ensures RowOk(After(h).rows[id])
  {
    ReachableOk(h);
  }

  /** The row after one more step, and what a write did to it. */
  lemma {:induction false} RowStep(past: History<Step>, s: Step, id: JobId) returns (j: Job, r: Job)
    requires id in After(past).rows && id in After(Then(past, s)).rows
    ensures j == After(past).rows[id] && r == After(Then(past, s)).rows[id]
    ensures RowOk(j) && RowOk(r)
    ensures r.maxAttempts == j.maxAttempts
    ensures if Touches(past, s, id) then Live(j.state) && r == Written(j, s.event, Now(past, s)) else r == j
    ensures r.attempts + (if s.event.ReleaseEarly? && Touches(past, s, id) then 1 else 0)
         == j.attempts + (if s.event.ClaimOne? && Touches(past, s, id) then 1 else 0)
    ensures r.auditId == if s.event.FinalizeSucceeded? && Touches(past, s, id) then Some(s.event.audit) else j.auditId
    ensures s.event.FinalizeSucceeded? && Touches(past, s, id) ==> j.auditId == None
    ensures forall w :: Holds(After(Then(past, s)).rows, id, w) && !Holds(After(past).rows, id, w)
                        ==> s.event.ClaimOne? && s.event.worker == w && Touches(past, s, id)
  {
    j, r := After(past).rows[id], After(Then(past, s)).rows[id];
    RowReachableOk(past, id);
    RowAfterStep(past, s, id);
    if Touches(past, s, id) {
      WrittenOk(After(past).rows, s.event, Now(past, s), id);
    }
  }

  /** Nothing is counted for a job before its row exists. */
  lemma {:induction false} NothingBeforeInsert(h: History<Step>, id: JobId)
    requires id !in After(h).rows
    ensures Claims(h, id) == Releases(h, id) == Successes(h, id) == StateChanges(h, id) == 0
  {
    match h
    case Start =>
    case Then(past, s) =>
      if id in After(past).rows { RowAfterStep(past, s, id); }
      NothingBeforeInsert(past, id);
  }

  // ----- accounting -----

  /** The attempts column counts claims less early releases, so its floor at zero never bites. */
  lemma {:induction false} AttemptsAreClaimsMinusReleases(h: History<Step>, id: JobId)
    requires id in After(h).rows
    ensures After(h).rows[id].attempts == Claims(h, id) - Releases(h, id)
  {
    match h
    case Start =>
    case Then(past, s) =>
      if id in After(past).rows {
        AttemptsAreClaimsMinusReleases(past, id);
        var _, _ := RowStep(past, s, id);
      } else {
        NothingBeforeInsert(past, id);
        RowAfterInsert(past, s, id);
      }
  }

  /** The budget bounds claims in every run, early releases being refunded. */
  lemma {:induction false} ClaimsAreBounded(h: History<Step>, id: JobId)
    requires id in After(h).rows
    ensures Claims(h, id) <= After(h).rows[id].maxAttempts + Releases(h, id)
  {
    RowReachableOk(h, id);
    AttemptsAreClaimsMinusReleases(h, id);
  }

  // ----- dead letters -----

  /** The holder reported that running the job again cannot help. */
  ghost predicate Condemns(past: History<Step>, s: Step, id: JobId) {
    && s.event.FinalizeFailed? && s.event.permanent && s.event.id == id && id in After(past).rows
    && After(past).rows[id].state == Running && After(past).rows[id].claimedBy == Some(s.event.worker)
  }

  /** The payload never came: the request gave up, or the reaper gave up on the request. */
  ghost predicate Abandons(past: History<Step>, s: Step, id: JobId) {
    && id in After(past).rows && After(past).rows[id].state == Created
    && ((s.event.AbandonCreated? && s.event.id == id)
        || (s.event.ReapStuckCreated? && Now(past, s) - After(past).rows[id].createdAt > s.event.olderThan))
  }

  ghost function Condemnations(h: History<Step>, id: JobId): nat {
    match h
    case Start => 0
    case Then(past, s) => Condemnations(past, id) + if Condemns(past, s, id) || Abandons(past, s, id) then 1 else 0
  }

  /**
   A leased job becomes a dead letter exactly when its holder condemns it, or fails it or dies at the
   last attempt.
   */
  lemma {:induction false} LeasedJobDiesIff(past: History<Step>, s: Step, id: JobId)
    requires id in After(past).rows && After(past).rows[id].state == Running
    ensures id in After(Then(past, s)).rows
    ensures var j := After(past).rows[id];
            After(Then(past, s)).rows[id].state == DeadLetter <==>
            || Condemns(past, s, id)
            || (j.attempts >= j.maxAttempts
                && ((s.event.FinalizeFailed? && s.event.id == id && j.claimedBy == Some(s.event.worker))
                    || (s.event.ReapDeadLetter? && j.leaseExpiresAt.Some? && j.leaseExpiresAt.value < Now(past, s))))
  {
    RowAfterStep(past, s, id);
  }

  /** A job not yet leased becomes one exactly when its payload never came. */
  lemma {:induction false} UnleasedJobDiesIff(past: History<Step>, s: Step, id: JobId)
    requires id in After(past).rows
    requires After(past).rows[id].state == Created || After(past).rows[id].state == Queued
    ensures id in After(Then(past, s)).rows
    ensures After(Then(past, s)).rows[id].state == DeadLetter <==> Abandons(past, s, id)
  {
    RowAfterStep(past, s, id);
  }

  /**
   In every run: no job is written off while it has attempts left, unless it was condemned or its
   payload never came.
   */
  lemma {:induction false} DeadLettersAreEarned(h: History<Step>, id: JobId)
    requires id in After(h).rows && After(h).rows[id].state == DeadLetter
    ensures Condemnations(h, id) >= 1 || After(h).rows[id].attempts >= After(h).rows[id].maxAttempts
  {
    match h
    case Start =>
    case Then(past, s) =>
      if id !in After(past).rows {
        RowAfterInsert(past, s, id);
      } else {
        var j, r := RowStep(past, s, id);
        if j.state == DeadLetter {
          DeadLettersAreEarned(past, id);
        } else if j.state == Running {
          LeasedJobDiesIff(past, s, id);
        } else if j.state == Created || j.state == Queued {
          UnleasedJobDiesIff(past, s, id);
        }
      }
  }

  // ----- terminal rows and fencing -----

  /** A row that reached a terminal state is never written again. */
  lemma {:induction false} TerminalRowsNeverChange(later: History<Step>, earlier: History<Step>, id: JobId)
    requires Extends(later, earlier)
    requires id in After(earlier).rows && Terminal(After(earlier).rows[id].state)
    ensures id in After(later).rows && After(later).rows[id] == After(earlier).rows[id]
  {
    if later != earlier {
      TerminalRowsNeverChange(later.past, earlier, id);
      RowAfterStep(later.past, later.last, id);
      var _, _ := RowStep(later.past, later.last, id);
    }
  }

  /** Each job has at most one winning finalize_succeeded, and exactly then an audit link. */
  lemma {:induction false} SucceedsAtMostOnce(h: History<Step>, id: JobId)
    requires id in After(h).rows
    ensures Successes(h, id) == if After(h).rows[id].auditId.Some? then 1 else 0
  {
    match h
    case Start =>
    case Then(past, s) =>
      if id in After(past).rows {
        SucceedsAtMostOnce(past, id);
        var _, _ := RowStep(past, s, id);
      } else {
        NothingBeforeInsert(past, id);
        RowAfterInsert(past, s, id);
      }
  }

  /** The statements a worker may issue on a job it believes it holds. */
  ghost predicate LeaseGated(e: Event, id: JobId, w: WorkerId) {
    || (e.RenewLease? && e.id == id && e.worker == w)
    || (e.FinalizeSucceeded? && e.id == id && e.worker == w)
    || (e.FinalizeFailed? && e.id == id && e.worker == w)
    || (e.ReleaseEarly? && e.id == id && e.worker == w)
  }

  /** `later` continues `earlier` without any claim that leases `id` to `w`. */
  ghost predicate NotReclaimed(later: History<Step>, earlier: History<Step>, id: JobId, w: WorkerId) {
    || later == earlier
    || (&& later.Then?
        && !(later.last.event.ClaimOne? && later.last.event.worker == w && Touches(later.past, later.last, id))
        && NotReclaimed(later.past, earlier, id, w))
  }

  lemma {:induction false} LeaseStaysLost(later: History<Step>, earlier: History<Step>, id: JobId, w: WorkerId)
    requires NotReclaimed(later, earlier, id, w)
    requires !Holds(After(earlier).rows, id, w)
    ensures !Holds(After(later).rows, id, w)
  {
    if later != earlier {
      LeaseStaysLost(later.past, earlier, id, w);
      if id in After(later.past).rows {
        RowAfterStep(later.past, later.last, id);
        var _, _ := RowStep(later.past, later.last, id);
      }
    }
  }

  /**
   Fencing: once a job has left worker `w`'s lease, every renew, finalize or release by `w`
   leaves the whole table as it is, until `w` itself claims that job again.
   */
  lemma {:induction false} Fencing(later: History<Step>, earlier: History<Step>, id: JobId, w: WorkerId, s: Step)
    requires NotReclaimed(later, earlier, id, w)
    requires !Holds(After(earlier).rows, id, w)
    requires LeaseGated(s.event, id, w)
    ensures !Touches(later, s, id)
    ensures After(Then(later, s)).rows == After(later).rows
  {
    LeaseStaysLost(later, earlier, id, w);
  }

  /** `later` continues `earlier` without a renew, finalize or release by `w` on `id`. */
  ghost predicate Silent(later: History<Step>, earlier: History<Step>, id: JobId, w: WorkerId) {
    later == earlier || (later.Then? && !LeaseGated(later.last.event, id, w) && Silent(later.past, earlier, id, w))
  }

  /**
   The other half of the lease: until it runs out nobody but its holder can touch the row,
   neither another worker nor any reaper.
   */
  lemma {:induction false} LeaseProtects(later: History<Step>, earlier: History<Step>, id: JobId, w: WorkerId)
    requires Silent(later, earlier, id, w) && Holds(After(earlier).rows, id, w)
    requires After(earlier).rows[id].leaseExpiresAt.Some?
    requires After(later).clock <= After(earlier).rows[id].leaseExpiresAt.value
    ensures id in After(later).rows && After(later).rows[id] == After(earlier).rows[id]
  {
    if later != earlier {
      assert After(later).clock == Now(later.past, later.last);
      LeaseProtects(later.past, earlier, id, w);
      RowAfterStep(later.past, later.last, id);
      HeldRowIsUntouched(After(later.past).rows, later.last.event, Now(later.past, later.last), id, w);
    }
  }

  lemma {:induction false} HeldRowIsUntouched(rows: Table, e: Event, now: Time, id: JobId, w: WorkerId)
    requires Holds(rows, id, w) && rows[id].leaseExpiresAt.Some? && now <= rows[id].leaseExpiresAt.value
    requires !LeaseGated(e, id, w)
    ensures !Writes(rows, e, now, id)
  {
  }

  // ----- termination -----

  /** How many more state changes a row has in it, early releases aside. */
  ghost function Rank(j: Job): int {
    match j.state
    case Created => 2 * j.maxAttempts + 1
    case Queued => 2 * (j.maxAttempts - j.attempts)
    case Running => 2 * (j.maxAttempts - j.attempts) + 1
    case _ => 0
  }

  /** Every write but a renewal lowers the rank, except that an early release raises it by one. */
  lemma {:induction false} WritesLowerRank(rows: Table, e: Event, now: Time, id: JobId)
    requires id in rows && RowOk(rows[id]) && Writes(rows, e, now, id)
    ensures var r, r' := Rank(rows[id]), Rank(Written(rows[id], e, now));
            if e.RenewLease? then r' == r else if e.ReleaseEarly? then r' == r + 1 else r' < r
  {
  }

  lemma {:induction false} RankPaysForChanges(h: History<Step>, id: JobId)
    requires id in After(h).rows
    ensures var j := After(h).rows[id];
            StateChanges(h, id) + Rank(j) <= 2 * j.maxAttempts + 1 + 2 * Releases(h, id)
  {
    match h
    case Start =>
    case Then(past, s) =>
      if id in After(past).rows {
        RankPaysForChanges(past, id);
        var _, _ := RowStep(past, s, id);
        if Touches(past, s, id) {
          WritesLowerRank(After(past).rows, s.event, Now(past, s), id);
        }
      } else {
        NothingBeforeInsert(past, id);
        RowAfterInsert(past, s, id);
      }
  }

  /** In every run a job changes state at most 2 * max_attempts + 1 times, plus twice per early release. */
  lemma {:induction false} StateChangesAreBounded(h: History<Step>, id: JobId)
    requires id in After(h).rows
    ensures StateChanges(h, id) <= 2 * After(h).rows[id].maxAttempts + 1 + 2 * Releases(h, id)
  {
    RowReachableOk(h, id);
    RankPaysForChanges(h, id);
  }

  /** A run in which job 0 is the only job, queued and claimable, with `n` attempts behind it. */
  ghost predicate Retried(h: History<Step>, budget: Budget, n: nat) {
    && After(h).rows.Keys == {0}
    && After(h).rows[0].state.Queued? && After(h).rows[0].attempts == n && After(h).rows[0].maxAttempts == budget
    && After(h).rows[0].availableAt <= After(h).clock
    && StateChanges(h, 0) == 2 * n + 1 && Releases(h, 0) == 0
  }

  /** One more attempt that fails transiently, or permanently once the budget is spent. */
  lemma {:induction false} OneMoreAttempt(h: History<Step>, budget: Budget, n: nat) returns (longer: History<Step>)
    requires Retried(h, budget, n) && n < budget
    ensures n + 1 < budget ==> Retried(longer, budget, n + 1)
    ensures n + 1 == budget ==> 0 in After(longer).rows && After(longer).rows[0].maxAttempts == budget
    ensures StateChanges(longer, 0) == 2 * n + 3 && Releases(longer, 0) == 0
  {
    var claim := Step(0, ClaimOne("w", 1, {}, 0));
    var fail := Step(0, FinalizeFailed(0, "w", "transient", false, 0));
    var claimed := Then(h, claim);
    assert 0 in After(h).rows;
    assert Claimable(After(h).rows, {}, After(h).clock) == {0};
    assert Touches(h, claim, 0);
    RowAfterStep(h, claim, 0);
    longer := Then(claimed, fail);
    assert Touches(claimed, fail, 0);
    RowAfterStep(claimed, fail, 0);
    assert After(claimed).rows.Keys == After(h).rows.Keys && After(longer).rows.Keys == After(claimed).rows.Keys;
  }

  lemma {:induction false} FirstQueued(budget: Budget) returns (h: History<Step>)
    ensures Retried(h, budget, 0)
  {
    var insert := Step(0, Enqueue(0, "k", Zip, None, Created, budget));
    var queue := Step(0, MarkQueued(0, None));
    var created := Then(Start, insert);
    assert LiveWithKey(map[], "k") == {};
    assert After(created).rows == map[0 := NewJob(insert.event, 0)];
    assert Touches(created, queue, 0);
    RowAfterStep(created, queue, 0);
    h := Then(created, queue);
    assert StateChanges(created, 0) == 0 && Releases(created, 0) == 0;
  }

  lemma {:induction false} RetriedTimes(budget: Budget, n: nat) returns (h: History<Step>)
    requires n < budget
    ensures Retried(h, budget, n)
  {
    if n == 0 {
      h := FirstQueued(budget);
    } else {
      var shorter := RetriedTimes(budget, n - 1);
      h := OneMoreAttempt(shorter, budget, n - 1);
    }
  }

  /** The bound is reached, whatever the budget: a job that keeps failing uses up all its state changes. */
  lemma {:induction false} StateChangesBoundIsReached(budget: Budget) returns (h: History<Step>)
    ensures 0 in After(h).rows && After(h).rows[0].maxAttempts == budget && Releases(h, 0) == 0
    ensures StateChanges(h, 0) == 2 * budget + 1
  {
    var last := RetriedTimes(budget, budget - 1);
    h := OneMoreAttempt(last, budget, budget - 1);
  }

  // ----- backoff -----

  /** Job `id` only ever fails transiently with a backoff of at least `b`: no release, no reap. */
  ghost predicate OnlyTransientFailures(h: History<Step>, id: JobId, b: nat) {
    match h
    case Start => true
    case Then(past, s) =>
      && OnlyTransientFailures(past, id, b)
      && (Touches(past, s, id) ==> !s.event.ReleaseEarly? && !s.event.ReapRequeue?)
      && (Touches(past, s, id) && s.event.FinalizeFailed? ==> s.event.backoff >= b)
  }

  /** When job `id` was first claimed. */
  ghost function FirstClaim(h: History<Step>, id: JobId): Option<Time> {
    match h
    case Start => None
    case Then(past, s) =>
      if FirstClaim(past, id).Some? then FirstClaim(past, id)
      else if s.event.ClaimOne? && Touches(past, s, id) then Some(Now(past, s))
      else None
  }

  /** The delays of the first `n` failures together: b * (2^(n+1) - 2). */
  ghost function Spacing(b: nat, n: nat): int {
    b * (2 * Pow2(n) - 2)
  }

  /** Row `j`, first claimed at `first`, is or becomes claimable only after the delays of its attempts. */
  ghost predicate Spaced(j: Job, clock: Time, first: Time, b: nat) {
    && j.attempts >= 1
    && !j.state.Created?
    && (j.state.Running? ==> j.claimedAt.Some? && first + Spacing(b, j.attempts - 1) <= j.claimedAt.value <= clock)
    && (j.state.Queued? ==> j.availableAt >= first + Spacing(b, j.attempts))
  }

  lemma {:induction false} SpacingStep(b: nat, backoff: int, n: nat)
    requires n >= 1 && backoff >= b
    ensures Spacing(b, n - 1) + backoff * Pow2(n) >= Spacing(b, n)
  {
    assert b * (2 * Pow2(n - 1) - 2) + b * Pow2(n) == b * (2 * Pow2(n) - 2);
    assert (backoff - b) * Pow2(n) >= 0;
  }

  lemma {:induction false} WriteKeepsSpacing(rows: Table, e: Event, now: Time, id: JobId, clock: Time, first: Time,
                                             b: nat)
    requires id in rows && RowOk(rows[id]) && Writes(rows, e, now, id) && clock <= now
    requires Spaced(rows[id], clock, first, b)
    requires !e.ReleaseEarly? && !e.ReapRequeue?
    requires e.FinalizeFailed? ==> e.backoff >= b
    ensures Spaced(Written(rows[id], e, now), now, first, b)
  {
    if e.FinalizeFailed? {
      SpacingStep(b, e.backoff, rows[id].attempts);
    }
  }

  lemma {:induction false} FirstClaimSpaces(rows: Table, e: Event, now: Time, id: JobId, b: nat)
    requires id in rows && rows[id].attempts == 0 && Writes(rows, e, now, id) && e.ClaimOne?
    ensures Spaced(Written(rows[id], e, now), now, now, b)
  {
    assert Spacing(b, 0) == 0;
  }

  /** The clock and the first claim tell how a job that only fails transiently is spaced. */
  ghost predicate SpacedOrUnclaimed(j: Job, clock: Time, first: Option<Time>, b: nat) {
    if first.Some? then Spaced(j, clock, first.value, b) else j.attempts == 0
  }

  lemma {:induction false} SpacedStep(past: History<Step>, s: Step, id: JobId, b: nat)
    requires id in After(past).rows && OnlyTransientFailures(Then(past, s), id, b)
    requires SpacedOrUnclaimed(After(past).rows[id], After(past).clock, FirstClaim(past, id), b)
    ensures id in After(Then(past, s)).rows
    ensures SpacedOrUnclaimed(After(Then(past, s)).rows[id], After(Then(past, s)).clock,
                              FirstClaim(Then(past, s), id), b)
  {
    RowAfterStep(past, s, id);
    var j, r := RowStep(past, s, id);
    var first := FirstClaim(past, id);
    if Touches(past, s, id) {
      if first.Some? {
        WriteKeepsSpacing(After(past).rows, s.event, Now(past, s), id, After(past).clock, first.value, b);
      } else if s.event.ClaimOne? {
        FirstClaimSpaces(After(past).rows, s.event, Now(past, s), id, b);
      }
    }
  }

  lemma {:induction false} SpacedReachable(h: History<Step>, id: JobId, b: nat)
    requires id in After(h).rows && OnlyTransientFailures(h, id, b)
    ensures SpacedOrUnclaimed(After(h).rows[id], After(h).clock, FirstClaim(h, id), b)
  {
    match h
    case Start =>
    case Then(past, s) =>
      if id in After(past).rows {
        SpacedReachable(past, id, b);
        SpacedStep(past, s, id, b);
      } else {
        NeverClaimedBeforeInsert(past, id);
        RowAfterInsert(past, s, id);
      }
  }

  lemma {:induction false} NeverClaimedBeforeInsert(h: History<Step>, id: JobId)
    requires id !in After(h).rows
    ensures FirstClaim(h, id) == None
  {
    match h
    case Start =>
    case Then(past, s) =>
      if id in After(past).rows { RowAfterStep(past, s, id); }
      NeverClaimedBeforeInsert(past, id);
  }

  /**
   Backoff spacing: with only transient failures, the claim that makes the n-th attempt comes
   at least backoff * (2^n - 2) after the first one.
   */
  lemma {:induction false} ClaimsAreSpaced(past: History<Step>, s: Step, id: JobId, b: nat)
    requires s.event.ClaimOne? && Touches(past, s, id) && OnlyTransientFailures(past, id, b)
    ensures var h := Then(past, s);
            var n := Claims(h, id);
            n >= 1 && FirstClaim(h, id).Some? && After(h).clock >= FirstClaim(h, id).value + b * (Pow2(n) - 2)
  {
    var h := Then(past, s);
    RowAfterStep(past, s, id);
    SpacedReachable(h, id, b);
    AttemptsAreClaimsMinusReleases(h, id);
    NoReleases(h, id, b);
  }

  lemma {:induction false} NoReleases(h: History<Step>, id: JobId, b: nat)
    requires OnlyTransientFailures(h, id, b)
    ensures Releases(h, id) == 0
  {
    match h
    case Start =>
    case Then(past, s) => NoReleases(past, id, b);
  }
}
