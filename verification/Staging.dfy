/**
 Crash-safe staging: the queue, the spool and the API requests that feed them, interleaved
 step by step. A request inserts a 'created' row, writes the archive under a temporary name,
 moves it into place and only then makes the job claimable; it may fail or die at any step,
 while workers and reapers go on.
 */
module Staging {
  import opened Options
  import opened Histories
  import opened AuditQueue
  import opened AuditQueueSafety
  import opened Spool

  /** Where a request stands after its insert. */
  datatype Phase = Checking | Writing(written: nat) | Moving | Queueing | Abandoning | CleaningUp

  datatype Intake = Intake(raw: Bytes, phase: Phase)

  /** `uploads` remembers the bytes each zip job was submitted with. */
  datatype System = System(queue: Queue, files: Files, intakes: map<JobId, Intake>, uploads: map<JobId, Bytes>)

  datatype Action =
    | SubmitZip(id: JobId, key: string, raw: Bytes, budget: Budget)
    | SubmitUrl(id: JobId, key: string, url: string, budget: Budget)
    | Admit(id: JobId, room: bool)
    | WriteMore(id: JobId, upTo: nat)
    | FinishWrite(id: JobId)
    | FailWrite(id: JobId)
    | Move(id: JobId, ok: bool)
    | Promote(id: JobId)
    | GiveUp(id: JobId)
    | CleanUp(id: JobId)
    | Crash(id: JobId)
    | Work(event: Event)
    | Discard(id: JobId)
    | Sweep(maxAge: int, stuck: set<Path>)

  datatype Timed = Timed(wait: nat, action: Action)

  /** The statements workers and reapers issue. */
  predicate WorkerEvent(e: Event) {
    !e.Enqueue? && !e.MarkQueued? && !e.AbandonCreated?
  }

  predicate InPhase(sys: System, id: JobId, phase: Phase) {
    id in sys.intakes && sys.intakes[id].phase == phase
  }

  predicate IsWriting(sys: System, id: JobId) {
    id in sys.intakes && sys.intakes[id].phase.Writing? && Temp(id) in sys.files
  }

  function Issue(sys: System, e: Event, now: Time): (r: System) {
    sys.(queue := Queue(Rows(sys.queue.rows, e, now), now))
  }

  function Enter(sys: System, id: JobId, phase: Phase): (r: System)
    requires id in sys.intakes
  {
    sys.(intakes := sys.intakes[id := sys.intakes[id].(phase := phase)])
  }

  function Leave(sys: System, id: JobId): (r: System) {
    sys.(intakes := sys.intakes - {id})
  }

  /** The system after one action at time `now`; an action whose moment has not come does nothing. */
  function Act(sys: System, a: Action, now: Time): (r: System) {
    match a
    case SubmitZip(id, key, raw, budget) =>
      var e := Enqueue(id, key, Zip, None, Created, budget);
      if Inserts(sys.queue.rows, e)
      then Issue(sys, e, now).(intakes := sys.intakes[id := Intake(raw, Checking)], uploads := sys.uploads[id := raw])
      else Issue(sys, e, now)
    case SubmitUrl(id, key, url, budget) => Issue(sys, Enqueue(id, key, RepoUrl, Some(Url(url)), Queued, budget), now)
    case Admit(id, room) =>
      if !InPhase(sys, id, Checking) then sys
      else if room then Enter(sys, id, Writing(0)).(files := WrittenTo(sys.files, id, [], now))
      else Enter(sys, id, Abandoning)
    case WriteMore(id, upTo) =>
      if IsWriting(sys, id) && sys.intakes[id].phase.written <= upTo <= |sys.intakes[id].raw|
      then Enter(sys, id, Writing(upTo)).(files := WrittenTo(sys.files, id, sys.intakes[id].raw[..upTo], now))
      else sys
    case FinishWrite(id) =>
      if IsWriting(sys, id) && sys.intakes[id].phase.written == |sys.intakes[id].raw|
      then Enter(sys, id, Moving) else sys
    case FailWrite(id) =>
      if IsWriting(sys, id) then Enter(sys, id, Abandoning).(files := sys.files - {Temp(id)}) else sys
    case Move(id, ok) =>
      if !InPhase(sys, id, Moving) || Temp(id) !in sys.files then sys
      else if ok then Enter(sys, id, Queueing).(files := MovedIntoPlace(sys.files, id))
      else Enter(sys, id, Abandoning)
    case Promote(id) =>
      if !InPhase(sys, id, Queueing) then sys
      else
        var marked := Issue(sys, MarkQueued(id, Some(Archive(id))), now);
        if id in sys.queue.rows && sys.queue.rows[id].state.Created?
        then Leave(marked, id) else Enter(marked, id, CleaningUp)
    case GiveUp(id) =>
      if InPhase(sys, id, Abandoning) then Leave(Issue(sys, AbandonCreated(id, "staging_failed"), now), id) else sys
    case CleanUp(id) =>
      if InPhase(sys, id, CleaningUp) then Leave(sys.(files := sys.files - {Final(id)}), id) else sys
    case Crash(id) => Leave(sys, id)
    case Work(e) => if WorkerEvent(e) then Issue(sys, e, now) else sys
    case Discard(id) =>
      if id in sys.queue.rows && Terminal(sys.queue.rows[id].state) && sys.queue.rows[id].sourceRef == Some(Archive(id))
      then sys.(files := sys.files - {Final(id)}) else sys
    case Sweep(maxAge, stuck) => sys.(files := Swept(sys.files, now - maxAge, stuck))
  }

  /** The clock after an action, whether or not it issued a statement. */
  function Ticked(sys: System, now: Time): (r: System) {
    sys.(queue := sys.queue.(clock := now))
  }

  function NextSystem(sys: System, t: Timed): (r: System) {
    var now := sys.queue.clock + t.wait;
    Ticked(Act(sys, t.action, now), now)
  }

  function Reached(h: History<Timed>): (sys: System) {
    match h
    case Start => System(Queue(map[], 0), map[], map[], map[])
    case Then(past, t) => NextSystem(Reached(past), t)
  }

  // ----- the invariant -----

  predicate Claimable?(s: State) {
    s.Queued? || s.Running?
  }

  /** What a worker reads: the named file exists and holds exactly the submitted bytes. */
  ghost predicate PayloadStaged(sys: System, id: JobId) {
    && id in sys.queue.rows
    && sys.queue.rows[id].sourceRef == Some(Archive(id))
    && Final(id) in sys.files
    && id in sys.uploads
    && sys.files[Final(id)].bytes == sys.uploads[id]
  }

  /** The part of the system that belongs to one job. */
  datatype Slice = Slice(row: Option<Job>, intake: Option<Intake>, upload: Option<Bytes>, final: Option<File>,
                         temp: Option<File>)

  ghost function Get<K, V>(m: map<K, V>, k: K): Option<V> {
    if k in m then Some(m[k]) else None
  }

  ghost function SliceOf(sys: System, id: JobId): Slice {
    Slice(Get(sys.queue.rows, id), Get(sys.intakes, id), Get(sys.uploads, id),
          Get(sys.files, Final(id)), Get(sys.files, Temp(id)))
  }

  ghost predicate Holding(file: Option<File>, bytes: Bytes) {
    file.Some? && file.value.bytes == bytes
  }

  ghost predicate JobOk(id: JobId, s: Slice) {
    s.row.Some? && s.row.value.sourceKind.Zip? ==>
      && (Claimable?(s.row.value.state) ==>
            s.row.value.sourceRef == Some(Archive(id)) && s.upload.Some? && Holding(s.final, s.upload.value)
              && s.intake.None?)
      && (s.row.value.state.Created? ==> s.row.value.sourceRef == None)
  }

  ghost predicate IntakeOk(s: Slice) {
    s.intake.Some? ==>
      var i := s.intake.value;
      && s.row.Some? && s.row.value.sourceKind.Zip? && s.row.value.sourceRef == None && s.upload == Some(i.raw)
      && (i.phase.Writing? ==> i.phase.written <= |i.raw| && Holding(s.temp, i.raw[..i.phase.written]))
      && (i.phase.Moving? ==> Holding(s.temp, i.raw))
      && (i.phase.Queueing? && s.row.value.state.Created? ==> Holding(s.final, i.raw))
      && (i.phase.CleaningUp? ==> Terminal(s.row.value.state))
  }

  /** Exactly the jobs submitted with an archive are zip jobs. */
  ghost predicate KindOk(s: Slice) {
    s.upload.Some? <==> s.row.Some? && s.row.value.sourceKind == Zip
  }

  ghost predicate SliceOk(id: JobId, s: Slice) {
    JobOk(id, s) && IntakeOk(s) && KindOk(s)
  }

  ghost predicate SystemOk(sys: System) {
    && TableOk(sys.queue.rows)
    && forall id :: SliceOk(id, SliceOf(sys, id))
  }

  /** Job `id` still has to be read from its archive, or is about to be queued with it. */
  ghost predicate NeedsArchive(sys: System, id: JobId) {
    && id in sys.queue.rows && sys.queue.rows[id].sourceKind.Zip?
    && (Claimable?(sys.queue.rows[id].state) || (sys.queue.rows[id].state.Created? && InPhase(sys, id, Queueing)))
  }

  /** A sweep is safe when it reaches no archive that a live job still needs. */
  ghost predicate SweepSafe(sys: System, cutoff: Time, stuck: set<Path>) {
    forall id :: NeedsArchive(sys, id) ==> Spared(sys, id, cutoff, stuck)
  }

  ghost predicate Spared(sys: System, id: JobId, cutoff: Time, stuck: set<Path>) {
    Final(id) in sys.files ==> Final(id) in stuck || !Stale(sys.files, cutoff, Final(id))
  }

  ghost predicate SweepsSafe(h: History<Timed>) {
    match h
    case Start => true
    case Then(past, t) =>
      && SweepsSafe(past)
      && (t.action.Sweep? ==>
            SweepSafe(Reached(past), Reached(past).queue.clock + t.wait - t.action.maxAge, t.action.stuck))
  }

  /** Workers and reapers move no job into the queue that was not there, and never touch its payload. */
  lemma {:induction false} WorkerRow(rows: Table, e: Event, now: Time, id: JobId)
    requires TableOk(rows) && id in rows && WorkerEvent(e)
    ensures id in Rows(rows, e, now)
    ensures var j, r := rows[id], Rows(rows, e, now)[id];
            && r.sourceKind == j.sourceKind && r.sourceRef == j.sourceRef
            && (Claimable?(r.state) ==> Claimable?(j.state))
            && (r.state.Created? ==> j.state.Created?)
            && (Terminal(j.state) ==> r == j)
  {
    if Writes(rows, e, now, id) {
      WrittenOk(rows, e, now, id);
    }
  }

  // ----- every action keeps the invariant -----

  /** The actions that issue a statement on the request's own row. */
  predicate IssuesOwn(a: Action) {
    a.SubmitZip? || a.SubmitUrl? || a.Promote? || a.GiveUp?
  }

  lemma {:induction false} OtherSlicesStayOnIssue(sys: System, a: Action, now: Time, id: JobId)
    requires IssuesOwn(a) && a.id != id
    ensures SliceOf(Act(sys, a, now), id) == SliceOf(sys, id)
  {
    if a.Promote? { RowsOfTargeted(sys.queue.rows, MarkQueued(a.id, Some(Archive(a.id))), now, a.id); }
    if a.GiveUp? { RowsOfTargeted(sys.queue.rows, AbandonCreated(a.id, "staging_failed"), now, a.id); }
  }

  /** A request's action leaves the rows, files and requests of other jobs alone. */
  lemma {:induction false} OtherSlicesStay(sys: System, a: Action, now: Time, id: JobId)
    requires !a.Work? && !a.Sweep? && a.id != id
    ensures SliceOf(Act(sys, a, now), id) == SliceOf(sys, id)
  {
    if IssuesOwn(a) {
      OtherSlicesStayOnIssue(sys, a, now, id);
    } else {
      assert Act(sys, a, now).queue.rows == sys.queue.rows;
      assert Act(sys, a, now).uploads == sys.uploads;
    }
  }

  /** The request's own job: the steps that touch only the spool. */
  lemma {:induction false} SpoolStepKeepsOwnSlice(sys: System, a: Action, now: Time)
    requires a.Admit? || a.WriteMore? || a.FinishWrite? || a.FailWrite? || a.Move? || a.CleanUp? || a.Crash?
             || a.Discard?
    requires SliceOk(a.id, SliceOf(sys, a.id))
    ensures SliceOk(a.id, SliceOf(Act(sys, a, now), a.id))
  {
    if a.FinishWrite? && a.id in sys.intakes {
      assert sys.intakes[a.id].raw[..|sys.intakes[a.id].raw|] == sys.intakes[a.id].raw;
    }
  }

  /** The request's own job: its insert. */
  lemma {:induction false} SubmitKeepsOwnSlice(sys: System, a: Action, now: Time)
    requires a.SubmitZip? || a.SubmitUrl?
    requires SliceOk(a.id, SliceOf(sys, a.id))
    ensures SliceOk(a.id, SliceOf(Act(sys, a, now), a.id))
  {
  }

  /** The request's own job: making it claimable, or giving it up. */
  lemma {:induction false} RowStepKeepsOwnSlice(sys: System, a: Action, now: Time)
    requires a.Promote? || a.GiveUp?
    requires TableOk(sys.queue.rows) && SliceOk(a.id, SliceOf(sys, a.id))
    ensures SliceOk(a.id, SliceOf(Act(sys, a, now), a.id))
  {
    if a.Promote? { RowsOfTargeted(sys.queue.rows, MarkQueued(a.id, Some(Archive(a.id))), now, a.id); }
    if a.GiveUp? { RowsOfTargeted(sys.queue.rows, AbandonCreated(a.id, "staging_failed"), now, a.id); }
  }

  lemma {:induction false} WorkKeepsSlice(sys: System, e: Event, now: Time, id: JobId)
    requires TableOk(sys.queue.rows) && WorkerEvent(e) && SliceOk(id, SliceOf(sys, id))
    ensures SliceOk(id, SliceOf(Act(sys, Work(e), now), id))
  {
    if id in sys.queue.rows { WorkerRow(sys.queue.rows, e, now, id); }
  }

  lemma {:induction false} SweepKeepsSliceIff(sys: System, maxAge: int, stuck: set<Path>, now: Time, id: JobId)
    requires SliceOk(id, SliceOf(sys, id))
    ensures SliceOk(id, SliceOf(Act(sys, Sweep(maxAge, stuck), now), id))
       <==> (NeedsArchive(sys, id) ==> Spared(sys, id, now - maxAge, stuck))
  {
  }

  /** The statement an action issues, if any. */
  ghost function IssuedBy(sys: System, a: Action): Option<Event> {
    match a
    case SubmitZip(id, key, raw, budget) => Some(Enqueue(id, key, Zip, None, Created, budget))
    case SubmitUrl(id, key, url, budget) => Some(Enqueue(id, key, RepoUrl, Some(Url(url)), Queued, budget))
    case Promote(id) => if InPhase(sys, id, Queueing) then Some(MarkQueued(id, Some(Archive(id)))) else None
    case GiveUp(id) => if InPhase(sys, id, Abandoning) then Some(AbandonCreated(id, "staging_failed")) else None
    case Work(e) => if WorkerEvent(e) then Some(e) else None
    case _ => None
  }

  lemma {:induction false} ActRows(sys: System, a: Action, now: Time)
    ensures Act(sys, a, now).queue.rows
         == if IssuedBy(sys, a).Some? then Rows(sys.queue.rows, IssuedBy(sys, a).value, now) else sys.queue.rows
  {
  }

  lemma {:induction false} ActKeepsTableOk(sys: System, a: Action, now: Time, rows: Table)
    requires TableOk(sys.queue.rows) && rows == Act(sys, a, now).queue.rows
    ensures TableOk(rows)
  {
    ActRows(sys, a, now);
    var issued := IssuedBy(sys, a);
    if issued.Some? { StepKeepsTableOk(sys.queue.rows, issued.value, now, rows); }
  }

  /** The age-based sweep keeps the payloads exactly when it reaches no archive still needed. */
  lemma {:induction false} SweepKeepsOkIff(sys: System, maxAge: int, stuck: set<Path>, now: Time)
    requires SystemOk(sys)
    ensures SystemOk(Act(sys, Sweep(maxAge, stuck), now)) <==> SweepSafe(sys, now - maxAge, stuck)
  {
    forall id
      ensures SliceOk(id, SliceOf(sys, id))
      ensures SliceOk(id, SliceOf(Act(sys, Sweep(maxAge, stuck), now), id))
         <==> (NeedsArchive(sys, id) ==> Spared(sys, id, now - maxAge, stuck))
    {
      SweepKeepsSliceIff(sys, maxAge, stuck, now, id);
    }
  }

  lemma {:induction false} ActKeepsSlice(sys: System, a: Action, now: Time, id: JobId, r: System)
    requires TableOk(sys.queue.rows) && SliceOk(id, SliceOf(sys, id)) && r == Act(sys, a, now)
    requires a.Sweep? ==> SweepSafe(sys, now - a.maxAge, a.stuck)
    ensures SliceOk(id, SliceOf(r, id))
  {
    if a.Work? {
      if WorkerEvent(a.event) { WorkKeepsSlice(sys, a.event, now, id); }
    } else if a.Sweep? {
      SweepKeepsSliceIff(sys, a.maxAge, a.stuck, now, id);
    } else if a.id != id {
      OtherSlicesStay(sys, a, now, id);
    } else if a.SubmitZip? || a.SubmitUrl? {
      SubmitKeepsOwnSlice(sys, a, now);
    } else if a.Promote? || a.GiveUp? {
      RowStepKeepsOwnSlice(sys, a, now);
    } else {
      SpoolStepKeepsOwnSlice(sys, a, now);
    }
  }

  lemma {:induction false} TickKeepsSlice(acted: System, now: Time, id: JobId, r: System)
    requires r == Ticked(acted, now)
    ensures SliceOf(r, id) == SliceOf(acted, id) && r.queue.clock == now
  {
  }

  lemma {:induction false} NextKeepsSlice(sys: System, t: Timed, id: JobId, r: System)
    requires TableOk(sys.queue.rows) && SliceOk(id, SliceOf(sys, id)) && r == NextSystem(sys, t)
    requires t.action.Sweep? ==> SweepSafe(sys, sys.queue.clock + t.wait - t.action.maxAge, t.action.stuck)
    ensures SliceOk(id, SliceOf(r, id))
  {
    var now := sys.queue.clock + t.wait;
    var acted := Act(sys, t.action, now);
    ActKeepsSlice(sys, t.action, now, id, acted);
    TickKeepsSlice(acted, now, id, r);
  }

  lemma {:induction false} ReachedTableOk(h: History<Timed>)
    ensures TableOk(Reached(h).queue.rows)
  {
    match h
    case Start =>
    case Then(past, t) =>
      ReachedTableOk(past);
      ActKeepsTableOk(Reached(past), t.action, Reached(past).queue.clock + t.wait, Reached(h).queue.rows);
  }

  lemma {:induction false} ReachedSliceOk(h: History<Timed>, id: JobId)
    requires SweepsSafe(h)
    ensures SliceOk(id, SliceOf(Reached(h), id))
  {
    match h
    case Start =>
    case Then(past, t) =>
      ReachedSliceOk(past, id);
      ReachedTableOk(past);
      NextKeepsSlice(Reached(past), t, id, Reached(h));
  }

  /** Every reachable state is well formed, provided the sweeps are safe. */
  lemma {:induction false} ReachedOk(h: History<Timed>)
    requires SweepsSafe(h)
    ensures SystemOk(Reached(h))
  {
    ReachedTableOk(h);
    forall id ensures SliceOk(id, SliceOf(Reached(h), id)) {
      ReachedSliceOk(h, id);
    }
  }

  /**
   In every interleaving, a job submitted with an archive is a zip job, and when a worker may
   claim it or is running it, it names a complete file that holds exactly the bytes submitted.
   */
  lemma {:induction false} ClaimablePayloadsAreStaged(h: History<Timed>, id: JobId)
    requires SweepsSafe(h)
    ensures id in Reached(h).uploads <==>
            id in Reached(h).queue.rows && Reached(h).queue.rows[id].sourceKind == Zip
    ensures id in Reached(h).uploads
            && (Reached(h).queue.rows[id].state == Queued || Reached(h).queue.rows[id].state == Running) ==>
              PayloadStaged(Reached(h), id)
  {
    ReachedSliceOk(h, id);
  }

  // ----- how a request ends -----

  /** A request that gives up leaves a dead letter, and its key takes a new job at once. */
  lemma {:induction false} GivenUpFreesItsKey(sys: System, id: JobId, now: Time, e: Event)
    requires SystemOk(sys) && InPhase(sys, id, Abandoning) && id in sys.queue.rows
    requires sys.queue.rows[id].state == Created
    requires e.Enqueue? && e.key == sys.queue.rows[id].idempotencyKey && e.id !in sys.queue.rows
    ensures var r := Act(sys, GiveUp(id), now);
            && id !in r.intakes && id in r.queue.rows && r.queue.rows[id].state == DeadLetter
            && Inserts(r.queue.rows, e)
  {
    assert SliceOk(id, SliceOf(sys, id));
    RowsOfTargeted(sys.queue.rows, AbandonCreated(id, "staging_failed"), now, id);
    var r := Act(sys, GiveUp(id), now);
    forall other | other in r.queue.rows && r.queue.rows[other].idempotencyKey == e.key
      ensures !Live(r.queue.rows[other].state)
    {
      assert other == id || !Live(sys.queue.rows[other].state);
    }
  }

  /** One whose row was reaped meanwhile queues nothing and removes the archive it has staged. */
  lemma {:induction false} LatePromotionCleansUp(sys: System, id: JobId, now: Time, later: Time)
    requires SystemOk(sys) && InPhase(sys, id, Queueing) && id in sys.queue.rows
    requires sys.queue.rows[id].state != Created
    ensures var late := Act(sys, Promote(id), now);
            var r := Act(late, CleanUp(id), later);
            && late.queue.rows == sys.queue.rows && r.queue.rows == sys.queue.rows
            && Final(id) !in r.files && id !in r.intakes
  {
    assert SliceOk(id, SliceOf(sys, id));
    RowsOfTargeted(sys.queue.rows, MarkQueued(id, Some(Archive(id))), now, id);
  }

  // ----- a request that died -----

  /** A 'created' row whose request is gone. */
  ghost predicate Orphaned(sys: System, id: JobId) {
    id in sys.queue.rows && sys.queue.rows[id].state.Created? && id !in sys.intakes
  }

  /** `id` holds key `key` and nothing is left of its request. */
  ghost predicate DeadOrDying(sys: System, id: JobId, key: string) {
    && id in sys.queue.rows && id !in sys.intakes
    && sys.queue.rows[id].idempotencyKey == key
    && (sys.queue.rows[id].state.Created? || sys.queue.rows[id].state.DeadLetter?)
  }

  /** With its request gone, no action about job `id` itself writes its row. */
  lemma {:induction false} NothingLeftToDo(sys: System, a: Action, now: Time)
    requires !a.Work? && !a.Sweep? && a.id in sys.queue.rows && a.id !in sys.intakes
    ensures Act(sys, a, now).queue.rows == sys.queue.rows && a.id !in Act(sys, a, now).intakes
  {
  }

  lemma {:induction false} OrphanAct(sys: System, a: Action, now: Time, id: JobId, key: string, r: System)
    requires TableOk(sys.queue.rows) && DeadOrDying(sys, id, key) && r == Act(sys, a, now)
    ensures DeadOrDying(r, id, key)
  {
    if a.Work? {
      if WorkerEvent(a.event) && Writes(sys.queue.rows, a.event, now, id) {
        WrittenOk(sys.queue.rows, a.event, now, id);
      }
    } else if !a.Sweep? {
      if a.id == id {
        NothingLeftToDo(sys, a, now);
      } else {
        OtherSlicesStay(sys, a, now, id);
        assert SliceOf(Act(sys, a, now), id).row == SliceOf(sys, id).row;
        assert SliceOf(Act(sys, a, now), id).intake == None;
      }
    }
  }

  /** The only way out for an orphaned row is the dead letter; no interleaving ever queues it. */
  lemma {:induction false} OrphansOnlyDie(later: History<Timed>, earlier: History<Timed>, id: JobId)
    requires Extends(later, earlier)
    requires Orphaned(Reached(earlier), id)
    ensures DeadOrDying(Reached(later), id, Reached(earlier).queue.rows[id].idempotencyKey)
  {
    if later != earlier {
      OrphansOnlyDie(later.past, earlier, id);
      ReachedTableOk(later.past);
      OrphanNext(Reached(later.past), later.last, id, Reached(earlier).queue.rows[id].idempotencyKey, Reached(later));
    }
  }

  lemma {:induction false} TickKeepsOrphan(acted: System, now: Time, id: JobId, key: string, r: System)
    requires DeadOrDying(acted, id, key) && r == Ticked(acted, now)
    ensures DeadOrDying(r, id, key)
  {
  }

  lemma {:induction false} OrphanNext(sys: System, t: Timed, id: JobId, key: string, r: System)
    requires TableOk(sys.queue.rows) && DeadOrDying(sys, id, key) && r == NextSystem(sys, t)
    ensures DeadOrDying(r, id, key)
  {
    var now := sys.queue.clock + t.wait;
    var acted := Act(sys, t.action, now);
    OrphanAct(sys, t.action, now, id, key, acted);
    TickKeepsOrphan(acted, now, id, key, r);
  }

  /** Once the reaper's age bound is passed an orphan is dead-lettered, and its key takes a new job. */
  lemma {:induction false} ReapedOrphanFreesItsKey(sys: System, id: JobId, now: Time, olderThan: int, e: Event)
    requires SystemOk(sys) && Orphaned(sys, id) && sys.queue.rows[id].createdAt < now - olderThan
    requires e.Enqueue? && e.key == sys.queue.rows[id].idempotencyKey && e.id !in sys.queue.rows
    ensures var r := Act(sys, Work(ReapStuckCreated(olderThan)), now);
            r.queue.rows[id].state.DeadLetter? && Inserts(r.queue.rows, e)
  {
    var r := Act(sys, Work(ReapStuckCreated(olderThan)), now);
    assert Writes(sys.queue.rows, ReapStuckCreated(olderThan), now, id);
    forall other | other in r.queue.rows && r.queue.rows[other].idempotencyKey == e.key
      ensures !Live(r.queue.rows[other].state)
    {
      assert other == id || !Live(sys.queue.rows[other].state);
    }
  }
}
