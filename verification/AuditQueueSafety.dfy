/** What every reachable state of the audit queue satisfies. */
module AuditQueueSafety {
  import opened Options
  import opened Histories
  import opened AuditQueue

  ghost predicate RowOk(j: Job) {
    && j.maxAttempts >= 1
    && j.attempts <= j.maxAttempts
    && !j.state.Claimed?
    && (j.state.Created? ==> j.attempts == 0 && j.claimedBy == None && j.claimedAt == None && j.leaseExpiresAt == None)
    && (j.state.Queued? ==>
      j.attempts < j.maxAttempts && j.claimedBy == None && j.claimedAt == None && j.leaseExpiresAt == None)
    && (j.state.Running? ==> j.attempts >= 1 && j.claimedBy.Some? && j.claimedAt.Some? && j.leaseExpiresAt.Some?)
    && (j.auditId.Some? <==> j.state.Succeeded?)
    && (j.completedAt.Some? <==> Terminal(j.state))
  }

  /** At most one live row per idempotency key: the partial unique index. */
  ghost predicate KeysUnique(rows: Table) {
    forall a, b | a in rows && b in rows && Live(rows[a].state) && Live(rows[b].state) ::
      rows[a].idempotencyKey == rows[b].idempotencyKey ==> a == b
  }

  ghost predicate TableOk(rows: Table) {
    && (forall id :: id in rows ==> RowOk(rows[id]))
    && KeysUnique(rows)
  }

  /** What one write does to a well-formed row. */
  lemma {:induction false} WrittenOk(rows: Table, e: Event, now: Time, id: JobId)
    requires id in rows && RowOk(rows[id]) && Writes(rows, e, now, id)
    ensures var j, r := rows[id], Written(rows[id], e, now);
            && RowOk(r)
            && Live(j.state)
            && r.idempotencyKey == j.idempotencyKey
            && r.maxAttempts == j.maxAttempts
            && r.attempts
              == (if e.ClaimOne? then j.attempts + 1 else if e.ReleaseEarly? then j.attempts - 1 else j.attempts)
            && r.auditId == (if e.FinalizeSucceeded? then Some(e.audit) else None)
            && (r.state.Running? && r.claimedBy != j.claimedBy ==> e.ClaimOne? && r.claimedBy == Some(e.worker))
  {
  }

  /** A statement on one row id updates that row where it matches and nothing else. */
  lemma {:induction false} RowsOfTargeted(rows: Table, e: Event, now: Time, id: JobId)
    requires e.MarkQueued? || e.AbandonCreated? || e.RenewLease? || e.FinalizeSucceeded? || e.FinalizeFailed?
             || e.ReleaseEarly?
    requires e.id == id
    ensures Rows(rows, e, now)
         == if id in rows && Writes(rows, e, now, id) then rows[id := Written(rows[id], e, now)] else rows
  {
  }

  lemma {:induction false} StepKeepsTableOk(rows: Table, e: Event, now: Time, after: Table)
    requires TableOk(rows) && after == Rows(rows, e, now)
    ensures TableOk(after)
  {
    if e.Enqueue? {
      if Inserts(rows, e) {
        forall a | a in rows && Live(rows[a].state) ensures rows[a].idempotencyKey != e.key {
          assert a !in LiveWithKey(rows, e.key);
        }
      }
    } else {
      forall id | id in rows
        ensures RowOk(after[id])
        ensures Live(after[id].state) ==> Live(rows[id].state)
        ensures after[id].idempotencyKey == rows[id].idempotencyKey
      {
        if Writes(rows, e, now, id) { WrittenOk(rows, e, now, id); }
      }
    }
  }

  /** Every reachable table is well formed, although claim_one never looks at the budget. */
  lemma {:induction false} ReachableOk(h: History<Step>)
    ensures TableOk(After(h).rows)
  {
    match h
    case Start =>
    case Then(past, s) =>
      ReachableOk(past);
      StepKeepsTableOk(After(past).rows, s.event, Now(past, s), After(h).rows);
  }
}
