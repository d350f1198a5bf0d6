/** The API's intake of one submission: insert, stage, queue, with nobody else in between. */
module AuditIntake {
  import opened Options
  import opened Histories
  import opened AuditQueue
  import opened AuditJobs
  import opened Spool

  datatype Upload = ZipUpload(raw: Bytes) | UrlUpload(url: string)

  /** 202 with the id to poll, 503 when staging failed, or a primary-key error. */
  datatype Reply = Accepted(id: JobId) | Unavailable | Crashed

  /** The archive fits beside the files the directory lists. */
  ghost predicate Fits(files: Files, maxBytes: nat, listing: seq<Path>, raw: Bytes) {
    SizeOf(files, listing) + |raw| <= maxBytes
  }

  /** Writes a zip job's payload, then makes the job claimable, or dead-letters it. */
  method StageAndQueue(repo: AuditJobRepository, spool: SpoolDirectory, now: Time, id: JobId, raw: Bytes,
                       listing: seq<Path>, fault: Fault, unlinkOk: bool)
    returns (queued: bool)
    requires repo.Valid() && now >= repo.clock
    requires id in repo.rows
    modifies repo, spool
    ensures repo.Valid() && repo.clock == now && id in repo.rows
    ensures queued <==>
              && old(repo.rows[id]).state.Created? && fault == NoFault
              && Fits(old(spool.files), spool.maxBytes, listing, raw)
    ensures queued ==>
              && repo.rows == old(repo.rows)[id := old(repo.rows[id]).(
                   state := Queued, availableAt := now, sourceRef := Some(Archive(id)))]
              && Final(id) in spool.files && spool.files[Final(id)].bytes == raw
    // A failed upload becomes a dead letter that says why, and its key is free.
    ensures !queued && old(repo.rows[id]).state.Created? ==>
              && repo.rows == old(repo.rows)[id := old(repo.rows[id]).(
                   state := DeadLetter, completedAt := Some(now),
                   errorCode := Some(if Fits(old(spool.files), spool.maxBytes, listing, raw) then "staging_failed"
                                     else "spool_full"))]
              && LiveWithKey(repo.rows, repo.rows[id].idempotencyKey) == {}
    // The row left 'created' meanwhile: the archive is not left behind, unless its removal fails.
    ensures !old(repo.rows[id]).state.Created? ==> !queued && repo.rows == old(repo.rows)
    ensures !old(repo.rows[id]).state.Created? && unlinkOk && Final(id) in spool.files ==>
              Final(id) in old(spool.files) && spool.files[Final(id)] == old(spool.files)[Final(id)]
    ensures forall p :: p != Final(id) && p != Temp(id) ==> (p in spool.files <==> p in old(spool.files))
    ensures forall p :: p != Final(id) && p != Temp(id) && p in spool.files ==>
              spool.files[p] == old(spool.files)[p]
  {
    var staged := spool.StageArchive(id, raw, listing, now, fault);
    match staged
    case Staged(ref) =>
      queued := repo.MarkQueued(now, id, Some(ref));
      if !queued {
        spool.CleanupStagedArchive(ref, unlinkOk);
      }
    case SpoolFull =>
      var _ := repo.AbandonCreated(now, id, "spool_full");
      queued := false;
    case StagingFailed =>
      var _ := repo.AbandonCreated(now, id, "staging_failed");
      queued := false;
  }

  method EnqueueAuditJob(repo: AuditJobRepository, spool: SpoolDirectory, now: Time, id: JobId, key: string,
                         upload: Upload, budget: Budget, listing: seq<Path>, fault: Fault, unlinkOk: bool)
    returns (r: Reply)
    requires repo.Valid() && now >= repo.clock
    modifies repo, spool
    ensures repo.Valid()
    // A duplicate submission gets the live job it collided with, whose payload is not staged again.
    ensures LiveWithKey(old(repo.rows), key) != {} ==>
              && r.Accepted? && LiveWithKey(old(repo.rows), key) == {r.id} && repo.rows == old(repo.rows)
              && spool.files == old(spool.files)
    // A new submission is refused exactly when its archive cannot be staged.
    ensures LiveWithKey(old(repo.rows), key) == {} ==>
              && (r.Crashed? <==> id in old(repo.rows))
              && (r.Unavailable? <==>
                    id !in old(repo.rows) && upload.ZipUpload?
                    && !(fault == NoFault && Fits(old(spool.files), spool.maxBytes, listing, upload.raw)))
    // An accepted one is a claimable job of its kind with a full budget, and its payload is complete.
    ensures r.Accepted? && LiveWithKey(old(repo.rows), key) == {} ==>
              && r.id == id
              && repo.rows == old(repo.rows)[id :=
                   Job(Queued, if upload.ZipUpload? then Zip else RepoUrl,
                       Some(if upload.ZipUpload? then Archive(id) else Url(upload.url)),
                       key, None, None, None, 0, budget, now, None, None, now, None)]
              && (upload.ZipUpload? ==> Final(id) in spool.files && spool.files[Final(id)].bytes == upload.raw)
              && (upload.UrlUpload? ==> spool.files == old(spool.files))
    // A refused upload leaves its key free for the retry.
    ensures r.Unavailable? ==> LiveWithKey(repo.rows, key) == {}
    ensures r.Crashed? ==> repo.rows == old(repo.rows) && spool.files == old(spool.files)
  {
    var kind := if upload.ZipUpload? then Zip else RepoUrl;
    var initial: InitialState := if upload.ZipUpload? then Created else Queued;
    var ref := if upload.ZipUpload? then None else Some(Url(upload.url));
    var result := repo.Enqueue(now, id, key, kind, ref, initial, budget);
    match result
    case PrimaryKeyClash => r := Crashed;
    case Joined(live) => r := Accepted(live);
    case Inserted(_) =>
      assert id in LiveWithKey(repo.rows, key);
      if upload.ZipUpload? {
        var queued := StageAndQueue(repo, spool, now, id, upload.raw, listing, fault, unlinkOk);
        r := if queued then Accepted(id) else Unavailable;
      } else {
        r := Accepted(id);
      }
  }
}
