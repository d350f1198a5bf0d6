/** The repository methods of the audit queue, updating its table in place. */
module AuditJobs {
  import opened Options
  import opened Histories
  import opened AuditQueue
  import opened AuditQueueSafety
  import Queues

  datatype EnqueueResult = Inserted(id: JobId) | Joined(id: JobId) | PrimaryKeyClash

  /** A job of this key that has neither succeeded nor been written off. */
  ghost predicate Unfinished(j: Job, key: string) {
    j.idempotencyKey == key && j.state != Succeeded && j.state != DeadLetter
  }

  /** A lease that ran out before `now`, of a job with attempts left. */
  ghost predicate Retried(j: Job, now: Time) {
    && (j.state == Claimed || j.state == Running) && j.leaseExpiresAt.Some? && j.leaseExpiresAt.value < now
    && j.attempts < j.maxAttempts
  }

  /** One of a job without. */
  ghost predicate WrittenOff(j: Job, now: Time) {
    && (j.state == Claimed || j.state == Running) && j.leaseExpiresAt.Some? && j.leaseExpiresAt.value < now
    && j.attempts >= j.maxAttempts
  }

  ghost function RetriedIn(rows: Table, now: Time): set<JobId> {
    set id | id in rows && Retried(rows[id], now)
  }

  ghost function WrittenOffIn(rows: Table, now: Time): set<JobId> {
    set id | id in rows && WrittenOff(rows[id], now)
  }

  /** Uploads whose request has said nothing for longer than the age bound. */
  ghost function ForgottenIn(rows: Table, now: Time, olderThan: int): set<JobId> {
    set id | id in rows && rows[id].state == Created && now - rows[id].createdAt > olderThan
  }

  /** The second statement finds what the first has left: the leases of jobs without attempts. */
  lemma {:induction false} SecondFindsTheRest(was: Table, mid: Table, now: Time, later: Time)
    requires now <= later && mid.Keys == was.Keys
    requires forall id :: id in was ==> if Retried(was[id], now) then mid[id].state == Queued else mid[id] == was[id]
    ensures WrittenOffIn(mid, later) == WrittenOffIn(was, later)
    ensures forall id :: id in was && Retried(was[id], now) ==> !WrittenOff(was[id], later)
  {
    forall id | id in was ensures WrittenOff(mid[id], later) <==> WrittenOff(was[id], later) {
    }
  }

  lemma {:induction false} RowsOfClaim(rows: Table, e: Event, now: Time, id: JobId)
    requires e.ClaimOne? && e.pick == id && OldestClaimable(rows, e.locked, now, id)
    ensures Rows(rows, e, now) == rows[id := Written(rows[id], e, now)]
  {
  }

  class AuditJobRepository {
    var rows: Table
    var clock: Time
    ghost var history: History<Step>

    /** The table is what the recorded run makes of an empty one. */
    ghost predicate Valid()
      reads this
    {
      After(history) == Queue(rows, clock)
    }

    constructor ()
      ensures Valid() && history == Start
    {
      rows, clock, history := map[], 0, Start;
    }

    /** Advances the clock and records `e`; the caller has just applied it. */
    method Record(ghost e: Event, now: Time, ghost was: Table)
      requires now >= clock && After(history) == Queue(was, clock) && rows == Rows(was, e, now)
      modifies `clock, `history
      ensures Valid() && clock == now
      ensures history == Then(old(history), Step(now - old(clock), e))
    {
      history := Then(history, Step(now - clock, e));
      clock := now;
    }

    method Enqueue(now: Time, id: JobId, key: string, kind: SourceKind, ref: Option<Ref>,
                   initial: InitialState, budget: Budget)
      returns (r: EnqueueResult)
      requires Valid() && now >= clock
      modifies this
      ensures Valid()
      ensures history == Then(old(history), Step(now - old(clock), Event.Enqueue(id, key, kind, ref, initial, budget)))
      ensures r.Joined? <==> LiveWithKey(old(rows), key) != {}
      ensures r.Joined? <==> exists i :: i in old(rows) && Unfinished(old(rows)[i], key)
      ensures r.Joined? ==> r.id in old(rows) && Unfinished(old(rows)[r.id], key)
      ensures r.Joined? ==> LiveWithKey(old(rows), key) == {r.id}
      ensures r.Inserted? ==> r.id == id && id !in old(rows) && LiveWithKey(rows, key) == {id}
      ensures r.Inserted? ==>
                rows == old(rows)[id :=
                  Job(initial, kind, ref, key, None, None, None, 0, budget, now, None, None, now, None)]
      ensures !r.Inserted? ==> rows == old(rows)
    {
      var live := LiveWithKey(rows, key);
      assert forall i :: i in rows && Unfinished(rows[i], key) <==> i in live;
      ghost var was := rows;
      ghost var e := Event.Enqueue(id, key, kind, ref, initial, budget);
      if live != {} {
        ReachableOk(history);
        var existing :| existing in live;
        assert live == {existing};
        r := Joined(existing);
      } else if id in rows {
        r := PrimaryKeyClash;
      } else {
        rows := rows[id := Job(initial, kind, ref, key, None, None, None, 0, budget, now, None, None, now, None)];
        r := Inserted(id);
        assert forall other :: other in was ==> other !in live;
      }
      Record(e, now, was);
    }

    method MarkQueued(now: Time, id: JobId, ref: Option<Ref>) returns (moved: bool)
      requires Valid() && now >= clock
      modifies this
      ensures Valid()
      ensures history == Then(old(history), Step(now - old(clock), Event.MarkQueued(id, ref)))
      ensures moved <==> id in old(rows) && old(rows)[id].state.Created?
      ensures moved ==> rows == old(rows)[id := old(rows)[id].(
                state := Queued, availableAt := now, sourceRef := if ref.Some? then ref else old(rows)[id].sourceRef)]
      ensures !moved ==> rows == old(rows)
    {
      ghost var was := rows;
      moved := id in rows && rows[id].state.Created?;
      if moved {
        var j := rows[id];
        rows := rows[id :=
          j.(state := Queued, availableAt := now, sourceRef := if ref.Some? then ref else j.sourceRef)];
      }
      RowsOfTargeted(was, Event.MarkQueued(id, ref), now, id);
      Record(Event.MarkQueued(id, ref), now, was);
    }

    method AbandonCreated(now: Time, id: JobId, code: string) returns (moved: bool)
      requires Valid() && now >= clock
      modifies this
      ensures Valid()
      ensures history == Then(old(history), Step(now - old(clock), Event.AbandonCreated(id, code)))
      ensures moved <==> id in old(rows) && old(rows)[id].state.Created?
      ensures moved ==> rows == old(rows)[id := old(rows)[id].(
                state := DeadLetter, errorCode := Some(code), completedAt := Some(now))]
      ensures moved ==> LiveWithKey(rows, old(rows)[id].idempotencyKey) == {}
      ensures !moved ==> rows == old(rows)
    {
      ReachableOk(history);
      ghost var was := rows;
      moved := id in rows && rows[id].state.Created?;
      if moved {
        rows := rows[id := rows[id].(state := DeadLetter, errorCode := Some(code), completedAt := Some(now))];
      }
      RowsOfTargeted(was, Event.AbandonCreated(id, code), now, id);
      Record(Event.AbandonCreated(id, code), now, was);
    }

    method ReapStuckCreated(now: Time, olderThan: int) returns (swept: nat)
      requires Valid() && now >= clock
      modifies this
      ensures Valid()
      ensures history == Then(old(history), Step(now - old(clock), Event.ReapStuckCreated(olderThan)))
      ensures swept == |ForgottenIn(old(rows), now, olderThan)|
      ensures rows.Keys == old(rows).Keys
      ensures forall id :: id in rows ==> var j := old(rows)[id];
                rows[id] == if id in ForgottenIn(old(rows), now, olderThan)
                            then j.(state := DeadLetter, errorCode := Some("staging_incomplete"),
                              completedAt := Some(now))
                            else j
    {
      ghost var was := rows;
      var stuck := set id | id in rows && StuckCreated(rows[id], now, olderThan);
      rows := map id | id in rows ::
        if id in stuck
        then rows[id].(state := DeadLetter, errorCode := Some("staging_incomplete"), completedAt := Some(now))
        else rows[id];
      assert stuck == ForgottenIn(was, now, olderThan);
      swept := |stuck|;
      Record(Event.ReapStuckCreated(olderThan), now, was);
    }

    /** order by created_at limit 1. */
    method PickOldest(ids: set<JobId>) returns (id: JobId)
      requires ids != {} && ids <= rows.Keys
      ensures id in ids && forall other :: other in ids ==> rows[id].createdAt <= rows[other].createdAt
    {
      ghost var _ := Queues.OldestExists(map i | i in rows :: rows[i].createdAt, ids);
      id :| id in ids && forall other :: other in ids ==> rows[id].createdAt <= rows[other].createdAt;
    }

    /** Leases the oldest claimable row that no concurrent claim holds locked. */
    method ClaimOne(now: Time, worker: WorkerId, lease: int, locked: set<JobId>) returns (claimed: Option<JobId>)
      requires Valid() && now >= clock
      modifies this
      ensures Valid()
      ensures claimed.None? <==> forall id :: id in old(rows) && id !in locked ==>
                !(old(rows)[id].state.Queued? && old(rows)[id].availableAt <= now)
      ensures claimed.None? ==> rows == old(rows) && history == old(history)
      ensures claimed.Some? ==>
                && OldestClaimable(old(rows), locked, now, claimed.value)
                && history
                  == Then(old(history), Step(now - old(clock), Event.ClaimOne(worker, lease, locked, claimed.value)))
                && claimed.value !in locked
                && var j := old(rows)[claimed.value];
                j.state.Queued? && j.availableAt <= now
                && rows == old(rows)[claimed.value := j.(
                     state := Running, claimedBy := Some(worker), claimedAt := Some(now),
                     leaseExpiresAt := Some(now + lease), attempts := j.attempts + 1)]
      // No older row could have been claimed.
      ensures claimed.Some? ==>
                forall id | id in old(rows) && id !in locked && old(rows)[id].state.Queued?
                  && old(rows)[id].availableAt <= now ::
                  old(rows)[claimed.value].createdAt <= old(rows)[id].createdAt
    {
      var candidates := Claimable(rows, locked, now);
      assert forall id :: id in rows && id !in locked && rows[id].state.Queued? && rows[id].availableAt <= now <==>
        id in candidates;
      if candidates == {} {
        return None;
      }
      var id := PickOldest(candidates);
      ghost var was := rows;
      var j := rows[id];
      rows := rows[id := j.(state := Running, claimedBy := Some(worker), claimedAt := Some(now),
                            leaseExpiresAt := Some(now + lease), attempts := j.attempts + 1)];
      RowsOfClaim(was, Event.ClaimOne(worker, lease, locked, id), now, id);
      Record(Event.ClaimOne(worker, lease, locked, id), now, was);
      claimed := Some(id);
    }

    method RenewLease(now: Time, id: JobId, worker: WorkerId, lease: int) returns (held: bool)
      requires Valid() && now >= clock
      modifies this
      ensures Valid()
      ensures history == Then(old(history), Step(now - old(clock), Event.RenewLease(id, worker, lease)))
      ensures held <==> id in old(rows) && old(rows)[id].state.Running? && old(rows)[id].claimedBy == Some(worker)
      ensures held ==> rows == old(rows)[id := old(rows)[id].(leaseExpiresAt := Some(now + lease))]
      ensures !held ==> rows == old(rows)
    {
      ghost var was := rows;
      held := Holds(rows, id, worker);
      if held {
        rows := rows[id := rows[id].(leaseExpiresAt := Some(now + lease))];
      }
      RowsOfTargeted(was, Event.RenewLease(id, worker, lease), now, id);
      Record(Event.RenewLease(id, worker, lease), now, was);
    }

    method FinalizeSucceeded(now: Time, id: JobId, worker: WorkerId, audit: string) returns (held: bool)
      requires Valid() && now >= clock
      modifies this
      ensures Valid()
      ensures history == Then(old(history), Step(now - old(clock), Event.FinalizeSucceeded(id, worker, audit)))
      ensures held <==> id in old(rows) && old(rows)[id].state.Running? && old(rows)[id].claimedBy == Some(worker)
      ensures held ==> old(rows)[id].auditId == None
      ensures held ==> rows == old(rows)[id := old(rows)[id].(
                state := Succeeded, auditId := Some(audit), completedAt := Some(now))]
      ensures !held ==> rows == old(rows)
    {
      ReachableOk(history);
      ghost var was := rows;
      held := Holds(rows, id, worker);
      if held {
        rows := rows[id := rows[id].(state := Succeeded, auditId := Some(audit), completedAt := Some(now))];
      }
      RowsOfTargeted(was, Event.FinalizeSucceeded(id, worker, audit), now, id);
      Record(Event.FinalizeSucceeded(id, worker, audit), now, was);
    }

    method FinalizeFailed(now: Time, id: JobId, worker: WorkerId, code: string, permanent: bool, backoff: int)
      returns (held: bool)
      requires Valid() && now >= clock
      modifies this
      ensures Valid()
      ensures history
              == Then(old(history), Step(now - old(clock), Event.FinalizeFailed(id, worker, code, permanent, backoff)))
      ensures held <==> id in old(rows) && old(rows)[id].state.Running? && old(rows)[id].claimedBy == Some(worker)
      // A dead letter keeps the record of its last holder; a retry waits twice as long with each attempt.
      ensures held ==> var j := old(rows)[id];
                rows == old(rows)[id :=
                  if permanent || j.attempts >= j.maxAttempts
                  then j.(state := DeadLetter, errorCode := Some(code), leaseExpiresAt := None,
                    completedAt := Some(now))
                  else j.(state := Queued, errorCode := Some(code), claimedBy := None, claimedAt := None,
                          leaseExpiresAt := None, availableAt := now + backoff * Pow2(j.attempts), completedAt := None)]
      ensures !held ==> rows == old(rows)
    {
      ghost var was := rows;
      held := Holds(rows, id, worker);
      if held {
        var j := rows[id];
        var terminal := permanent || j.attempts >= j.maxAttempts;
        rows := rows[id := j.(
          state := if terminal then DeadLetter else Queued,
          errorCode := Some(code),
          claimedBy := if terminal then j.claimedBy else None,
          claimedAt := if terminal then j.claimedAt else None,
          leaseExpiresAt := None,
          availableAt := if terminal then j.availableAt else now + backoff * Pow2(j.attempts),
          completedAt := if terminal then Some(now) else None)];
      }
      RowsOfTargeted(was, Event.FinalizeFailed(id, worker, code, permanent, backoff), now, id);
      Record(Event.FinalizeFailed(id, worker, code, permanent, backoff), now, was);
    }

    method ReleaseEarly(now: Time, id: JobId, worker: WorkerId) returns (held: bool)
      requires Valid() && now >= clock
      modifies this
      ensures Valid()
      ensures history == Then(old(history), Step(now - old(clock), Event.ReleaseEarly(id, worker)))
      ensures held <==> id in old(rows) && old(rows)[id].state.Running? && old(rows)[id].claimedBy == Some(worker)
      ensures held ==> old(rows)[id].attempts >= 1 && rows == old(rows)[id := old(rows)[id].(
                state := Queued, claimedBy := None, claimedAt := None, leaseExpiresAt := None,
                availableAt := now, attempts := old(rows)[id].attempts - 1)]
      ensures !held ==> rows == old(rows)
    {
      ReachableOk(history);
      ghost var was := rows;
      held := Holds(rows, id, worker);
      if held {
        var j := rows[id];
        rows := rows[id := j.(state := Queued, claimedBy := None, claimedAt := None, leaseExpiresAt := None,
                              availableAt := now, attempts := if j.attempts - 1 > 0 then j.attempts - 1 else 0)];
      }
      RowsOfTargeted(was, Event.ReleaseEarly(id, worker), now, id);
      Record(Event.ReleaseEarly(id, worker), now, was);
    }

    /** The first statement of reap_expired: a lapsed lease with budget left goes back to the queue. */
    method RequeueExpired(now: Time) returns (requeued: nat)
      requires Valid() && now >= clock
      modifies this
      ensures Valid()
      ensures history == Then(old(history), Step(now - old(clock), ReapRequeue)) && clock == now
      ensures requeued == |RetriedIn(old(rows), now)|
      ensures rows.Keys == old(rows).Keys
      ensures forall id :: id in rows ==> var j := old(rows)[id];
                rows[id] == if Retried(j, now)
                            then j.(state := Queued, claimedBy := None, claimedAt := None, leaseExpiresAt := None,
                                    availableAt := now)
                            else j
    {
      ghost var was := rows;
      var lapsed := set id | id in rows && Expired(rows[id], now) && !Exhausted(rows[id]);
      rows := map id | id in rows ::
        if id in lapsed
        then rows[id].(state := Queued, claimedBy := None, claimedAt := None,
                       leaseExpiresAt := None, availableAt := now)
        else rows[id];
      assert lapsed == RetriedIn(was, now);
      requeued := |lapsed|;
      Record(ReapRequeue, now, was);
    }

    /** The second statement of reap_expired: a lapsed lease without budget is dead-lettered. */
    method DeadLetterExpired(now: Time) returns (deadLettered: nat)
      requires Valid() && now >= clock
      modifies this
      ensures Valid()
      ensures history == Then(old(history), Step(now - old(clock), ReapDeadLetter)) && clock == now
      ensures deadLettered == |WrittenOffIn(old(rows), now)|
      ensures rows.Keys == old(rows).Keys
      ensures forall id :: id in rows ==> var j := old(rows)[id];
                rows[id] == if WrittenOff(j, now)
                            then j.(state := DeadLetter, errorCode := Some("lease_expired"), completedAt := Some(now))
                            else j
    {
      ghost var was := rows;
      var spent := set id | id in rows && Expired(rows[id], now) && Exhausted(rows[id]);
      rows := map id | id in rows ::
        if id in spent
        then rows[id].(state := DeadLetter, errorCode := Some("lease_expired"), completedAt := Some(now))
        else rows[id];
      assert spent == WrittenOffIn(was, now);
      deadLettered := |spent|;
      Record(ReapDeadLetter, now, was);
    }

    /** Both statements; the second may run later than the first. */
    method ReapExpired(now: Time, later: Time) returns (requeued: nat, deadLettered: nat)
      requires Valid() && clock <= now <= later
      modifies this
      ensures Valid()
      ensures history
              == Then(Then(old(history), Step(now - old(clock), ReapRequeue)), Step(later - now, ReapDeadLetter))
      ensures requeued == |RetriedIn(old(rows), now)|
      ensures deadLettered == |WrittenOffIn(old(rows), later)|
      ensures rows.Keys == old(rows).Keys
      // A job whose worker died is retried at once while it has attempts left, and only then.
      ensures forall id :: id in rows && Retried(old(rows)[id], now) ==>
                rows[id] == old(rows)[id].(state := Queued, claimedBy := None, claimedAt := None,
                                           leaseExpiresAt := None, availableAt := now)
      ensures forall id :: id in rows && WrittenOff(old(rows)[id], later) ==>
                rows[id] == old(rows)[id].(state := DeadLetter, errorCode := Some("lease_expired"),
                                           completedAt := Some(later))
      ensures forall id :: id in rows && !Retried(old(rows)[id], now) && !WrittenOff(old(rows)[id], later) ==>
                rows[id] == old(rows)[id]
      ensures forall id :: id in rows ==> !Expired(rows[id], now)
    {
      requeued := RequeueExpired(now);
      SecondFindsTheRest(old(rows), rows, now, later);
      deadLettered := DeadLetterExpired(later);
    }
  }
}
