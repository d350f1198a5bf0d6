/**
 The age bound of the spool sweep. The sweep sees only how old a file is; what makes it safe
 is that a job's archive is never older than its row.
 */
module SweepAge {
  import opened Options
  import opened Histories
  import opened AuditQueue
  import opened AuditQueueSafety
  import opened Spool
  import opened Staging

  // ----- no file is older than its job's row -----

  ghost predicate NotOlder(file: Option<File>, row: Option<Job>) {
    file.Some? ==> row.Some? && row.value.createdAt <= file.value.mtime
  }

  ghost predicate Aged(s: Slice, clock: Time) {
    && (s.row.Some? ==> s.row.value.createdAt <= clock)
    && (s.intake.Some? ==> s.row.Some?)
    && NotOlder(s.final, s.row) && NotOlder(s.temp, s.row)
  }

  /** Statements other than an insert keep the rows there are and when they were created. */
  lemma {:induction false} CreatedAtStays(rows: Table, e: Event, now: Time, id: JobId)
    requires !e.Enqueue?
    ensures id in Rows(rows, e, now) <==> id in rows
    ensures id in rows ==> Rows(rows, e, now)[id].createdAt == rows[id].createdAt
  {
  }

  lemma {:induction false} SubmitKeepsAge(sys: System, a: Action, now: Time)
    requires a.SubmitZip? || a.SubmitUrl?
    requires Aged(SliceOf(sys, a.id), now)
    ensures Aged(SliceOf(Act(sys, a, now), a.id), now)
  {
  }

  lemma {:induction false} RowStepKeepsAge(sys: System, a: Action, now: Time)
    requires a.Promote? || a.GiveUp?
    requires Aged(SliceOf(sys, a.id), now)
    ensures Aged(SliceOf(Act(sys, a, now), a.id), now)
  {
    CreatedAtStays(sys.queue.rows, MarkQueued(a.id, Some(Archive(a.id))), now, a.id);
    CreatedAtStays(sys.queue.rows, AbandonCreated(a.id, "staging_failed"), now, a.id);
  }

  lemma {:induction false} SpoolStepKeepsAge(sys: System, a: Action, now: Time)
    requires a.Admit? || a.WriteMore? || a.FinishWrite? || a.FailWrite? || a.Move? || a.CleanUp? || a.Crash?
             || a.Discard?
    requires Aged(SliceOf(sys, a.id), now)
    ensures Aged(SliceOf(Act(sys, a, now), a.id), now)
  {
  }

  lemma {:induction false} ActKeepsAge(sys: System, a: Action, now: Time, id: JobId, r: System)
    requires Aged(SliceOf(sys, id), now) && r == Act(sys, a, now)
    ensures Aged(SliceOf(r, id), now)
  {
    if a.Work? {
      if WorkerEvent(a.event) { CreatedAtStays(sys.queue.rows, a.event, now, id); }
    } else if !a.Sweep? {
      if a.id != id {
        OtherSlicesStay(sys, a, now, id);
      } else if a.SubmitZip? || a.SubmitUrl? {
        SubmitKeepsAge(sys, a, now);
      } else if a.Promote? || a.GiveUp? {
        RowStepKeepsAge(sys, a, now);
      } else {
        SpoolStepKeepsAge(sys, a, now);
      }
    }
  }

  lemma {:induction false} NextKeepsAge(sys: System, t: Timed, id: JobId, r: System)
    requires Aged(SliceOf(sys, id), sys.queue.clock) && r == NextSystem(sys, t)
    ensures Aged(SliceOf(r, id), r.queue.clock)
  {
    var now := sys.queue.clock + t.wait;
    var acted := Act(sys, t.action, now);
    ActKeepsAge(sys, t.action, now, id, acted);
    TickKeepsSlice(acted, now, id, r);
  }

  /** In every reachable state, sweeps of any kind included, a job's archive is at most as old as its row. */
  lemma {:induction false} ReachedAged(h: History<Timed>, id: JobId)
    ensures Aged(SliceOf(Reached(h), id), Reached(h).queue.clock)
  {
    match h
    case Start =>
    case Then(past, t) =>
      ReachedAged(past, id);
      NextKeepsAge(Reached(past), t, id, Reached(h));
  }

  // ----- the bound the sweep's caller keeps -----

  /** No live upload has been in the table for longer than `age`. */
  ghost predicate LiveWithin(rows: Table, now: Time, age: int) {
    forall id :: id in rows && rows[id].sourceKind.Zip? && Live(rows[id].state) ==> now - rows[id].createdAt <= age
  }

  /** Every sweep's age bound is at least the age of the live uploads at that moment. */
  ghost predicate SweepsBounded(h: History<Timed>) {
    match h
    case Start => true
    case Then(past, t) =>
      && SweepsBounded(past)
      && (t.action.Sweep? ==>
            LiveWithin(Reached(past).queue.rows, Reached(past).queue.clock + t.wait, t.action.maxAge))
  }

  /** A bound no shorter than any live upload's wait reaches no archive that is still needed. */
  lemma {:induction false} YoungLiveIsSafe(h: History<Timed>, now: Time, maxAge: int, stuck: set<Path>)
    requires LiveWithin(Reached(h).queue.rows, now, maxAge)
    ensures SweepSafe(Reached(h), now - maxAge, stuck)
  {
    var sys := Reached(h);
    forall id | NeedsArchive(sys, id) ensures Spared(sys, id, now - maxAge, stuck) {
      ReachedAged(h, id);
      assert now - sys.queue.rows[id].createdAt <= maxAge;
    }
  }

  lemma {:induction false} BoundedSweepsAreSafe(h: History<Timed>)
    requires SweepsBounded(h)
    ensures SweepsSafe(h)
  {
    match h
    case Start =>
    case Then(past, t) =>
      BoundedSweepsAreSafe(past);
      if t.action.Sweep? {
        YoungLiveIsSafe(past, Reached(past).queue.clock + t.wait, t.action.maxAge, t.action.stuck);
      }
  }

  /** So under that bound every claimable upload has its payload, whatever else is interleaved. */
  lemma {:induction false} BoundedSweepsKeepPayloads(h: History<Timed>, id: JobId)
    requires SweepsBounded(h)
    ensures id in Reached(h).uploads ==>
            id in Reached(h).queue.rows && Reached(h).queue.rows[id].sourceKind == Zip
    ensures id in Reached(h).uploads
            && (Reached(h).queue.rows[id].state == Queued || Reached(h).queue.rows[id].state == Running) ==>
              PayloadStaged(Reached(h), id)
  {
    BoundedSweepsAreSafe(h);
    ClaimablePayloadsAreStaged(h, id);
  }

  // ----- and no shorter bound will do -----

  /** One upload on its way: its row, its request, and its file under either name. */
  function Alone(id: JobId, row: Job, raw: Bytes, phase: Option<Phase>, path: Option<Path>): (sys: System) {
    System(Queue(map[id := row], 0),
           if path.Some? then map[path.value := File(raw, 0)] else map[],
           if phase.Some? then map[id := Intake(raw, phase.value)] else map[],
           map[id := raw])
  }

  function Fresh(key: string, budget: Budget): (row: Job) {
    NewJob(Enqueue(0, key, Zip, None, Created, budget), 0)
  }

  function Ready(id: JobId, key: string, budget: Budget): (row: Job) {
    Fresh(key, budget).(state := Queued, sourceRef := Some(Archive(id)))
  }

  function At0(h: History<Timed>, a: Action): (r: History<Timed>) {
    Then(h, Timed(0, a))
  }

  /** A first upload, written without delay. */
  function WrittenRun(id: JobId, key: string, raw: Bytes, budget: Budget): (h: History<Timed>) {
    At0(At0(At0(At0(Start, SubmitZip(id, key, raw, budget)), Admit(id, true)), WriteMore(id, |raw|)), FinishWrite(id))
  }

  function AcceptedRun(id: JobId, key: string, raw: Bytes, budget: Budget): (h: History<Timed>) {
    At0(At0(WrittenRun(id, key, raw, budget), Move(id, true)), Promote(id))
  }

  lemma {:induction false} SubmitStep(id: JobId, key: string, raw: Bytes, budget: Budget)
    ensures Reached(At0(Start, SubmitZip(id, key, raw, budget)))
            == Alone(id, Fresh(key, budget), raw, Some(Checking), None)
  {
    assert Inserts(map[], Enqueue(id, key, Zip, None, Created, budget));
  }

  lemma {:induction false} WriteSteps(id: JobId, row: Job, raw: Bytes, s0: System, s1: System, s2: System, s3: System)
    requires s0 == Alone(id, row, raw, Some(Checking), None)
    requires s1 == NextSystem(s0, Timed(0, Admit(id, true)))
    requires s2 == NextSystem(s1, Timed(0, WriteMore(id, |raw|)))
    requires s3 == NextSystem(s2, Timed(0, FinishWrite(id)))
    ensures s3 == Alone(id, row, raw, Some(Moving), Some(Temp(id)))
  {
    assert raw[..|raw|] == raw;
  }

  lemma {:induction false} MoveStep(id: JobId, row: Job, raw: Bytes, s3: System)
    requires s3 == Alone(id, row, raw, Some(Moving), Some(Temp(id)))
    ensures NextSystem(s3, Timed(0, Move(id, true))) == Alone(id, row, raw, Some(Queueing), Some(Final(id)))
  {
    assert MovedIntoPlace(s3.files, id) == map[Final(id) := File(raw, 0)];
  }

  lemma {:induction false} PromoteStep(id: JobId, key: string, raw: Bytes, budget: Budget, s4: System)
    requires s4 == Alone(id, Fresh(key, budget), raw, Some(Queueing), Some(Final(id)))
    ensures NextSystem(s4, Timed(0, Promote(id))) == Alone(id, Ready(id, key, budget), raw, None, Some(Final(id)))
  {
    RowsOfTargeted(s4.queue.rows, MarkQueued(id, Some(Archive(id))), 0, id);
  }

  lemma {:induction false} At0Reached(h: History<Timed>, a: Action)
    requires SweepsSafe(h) && !a.Sweep?
    ensures SweepsSafe(At0(h, a)) && Reached(At0(h, a)) == NextSystem(Reached(h), Timed(0, a))
  {
  }

  lemma {:induction false} WrittenState(id: JobId, key: string, raw: Bytes, budget: Budget)
    ensures SweepsSafe(WrittenRun(id, key, raw, budget))
    ensures Reached(WrittenRun(id, key, raw, budget))
            == Alone(id, Fresh(key, budget), raw, Some(Moving), Some(Temp(id)))
  {
    var h0 := At0(Start, SubmitZip(id, key, raw, budget));
    SubmitStep(id, key, raw, budget);
    At0Reached(Start, SubmitZip(id, key, raw, budget));
    var h1 := At0(h0, Admit(id, true));
    At0Reached(h0, Admit(id, true));
    var h2 := At0(h1, WriteMore(id, |raw|));
    At0Reached(h1, WriteMore(id, |raw|));
    At0Reached(h2, FinishWrite(id));
    WriteSteps(id, Fresh(key, budget), raw, Reached(h0), Reached(h1), Reached(h2), Reached(At0(h2, FinishWrite(id))));
  }

  lemma {:induction false} AcceptedState(id: JobId, key: string, raw: Bytes, budget: Budget)
    ensures SweepsSafe(AcceptedRun(id, key, raw, budget))
    ensures Reached(AcceptedRun(id, key, raw, budget)) == Alone(id, Ready(id, key, budget), raw, None, Some(Final(id)))
  {
    var h3 := WrittenRun(id, key, raw, budget);
    WrittenState(id, key, raw, budget);
    var h4 := At0(h3, Move(id, true));
    At0Reached(h3, Move(id, true));
    MoveStep(id, Fresh(key, budget), raw, Reached(h3));
    At0Reached(h4, Promote(id));
    PromoteStep(id, key, raw, budget, Reached(h4));
  }

  lemma {:induction false} SweptAway(id: JobId, key: string, raw: Bytes, budget: Budget, wait: nat, maxAge: int,
                                     was: System, swept: System)
    requires maxAge < wait && was == Alone(id, Ready(id, key, budget), raw, None, Some(Final(id)))
    requires swept == NextSystem(was, Timed(wait, Sweep(maxAge, {})))
    ensures PayloadStaged(was, id) && LiveWithin(was.queue.rows, wait, wait)
    ensures swept.queue.rows == was.queue.rows && !PayloadStaged(swept, id) && !SystemOk(swept)
  {
    assert Final(id) !in swept.files;
    assert !SliceOk(id, SliceOf(swept, id));
  }

  /** A sweep whose bound is shorter than the wait of a queued upload deletes what its worker is to read. */
  lemma {:induction false} ShortSweepLosesPayload(id: JobId, key: string, raw: Bytes, budget: Budget, wait: nat,
                                                  maxAge: int)
    requires maxAge < wait
    ensures var h := AcceptedRun(id, key, raw, budget);
            var was, swept := Reached(h), Reached(Then(h, Timed(wait, Sweep(maxAge, {}))));
            && SweepsSafe(h) && was.queue.clock == 0 && PayloadStaged(was, id) && LiveWithin(was.queue.rows, wait, wait)
            && id in swept.queue.rows && swept.queue.rows[id].state.Queued?
            && !PayloadStaged(swept, id) && !SystemOk(swept)
  {
    AcceptedState(id, key, raw, budget);
    var h := AcceptedRun(id, key, raw, budget);
    SweptAway(id, key, raw, budget, wait, maxAge, Reached(h), Reached(Then(h, Timed(wait, Sweep(maxAge, {})))));
  }

  /** The sweep keeps the system well formed whenever no live upload is older than `age`. */
  ghost predicate SafeUpTo(age: int, maxAge: int) {
    forall h, wait: nat, stuck ::
      SweepsSafe(h) && LiveWithin(Reached(h).queue.rows, Reached(h).queue.clock + wait, age) ==>
        SystemOk(Reached(Then(h, Timed(wait, Sweep(maxAge, stuck)))))
  }

  /** The bound has to be at least the longest a live upload waits, and that is enough. */
  lemma {:induction false} SweepBoundIff(age: nat, maxAge: int)
    ensures SafeUpTo(age, maxAge) <==> age <= maxAge
  {
    if age <= maxAge {
      forall h, wait: nat, stuck
        | SweepsSafe(h) && LiveWithin(Reached(h).queue.rows, Reached(h).queue.clock + wait, age)
        ensures SystemOk(Reached(Then(h, Timed(wait, Sweep(maxAge, stuck)))))
      {
        YoungLiveIsSafe(h, Reached(h).queue.clock + wait, maxAge, stuck);
        ReachedOk(Then(h, Timed(wait, Sweep(maxAge, stuck))));
      }
    } else {
      ShortSweepLosesPayload(0, "", [], 1, age, maxAge);
    }
  }
}
