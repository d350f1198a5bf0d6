/** The spool directory: archives staged under a temporary name and moved into place. */
module Spool {
  import opened Options
  import opened AuditQueue

  type Bytes = seq<bv8>

  /** `<uuid>.zip` and `<uuid>.zip.tmp`. */
  datatype Path = Final(id: JobId) | Temp(id: JobId)

  datatype File = File(bytes: Bytes, mtime: Time)

  type Files = map<Path, File>

  /** Writing, or writing more of, the temporary file. */
  function WrittenTo(files: Files, id: JobId, bytes: Bytes, now: Time): (after: Files) {
    files[Temp(id) := File(bytes, now)]
  }

  /** os.replace: the final name takes over the temporary file, which disappears. */
  function MovedIntoPlace(files: Files, id: JobId): (after: Files)
    requires Temp(id) in files
  {
    files[Final(id) := files[Temp(id)]] - {Temp(id)}
  }

  /** A sweep: stale archives go, but for those whose unlink raises. */
  function Swept(files: Files, cutoff: Time, stuck: set<Path>): (after: Files) {
    map p | p in files && (p in stuck || !Stale(files, cutoff, p)) :: files[p]
  }

  predicate Stale(files: Files, cutoff: Time, p: Path)
    requires p in files
  {
    p.Final? && files[p].mtime < cutoff
  }

  /** The bytes of the listed files that still exist. */
  function SizeOf(files: Files, listing: seq<Path>): (n: nat) {
    if listing == [] then 0
    else SizeOf(files, listing[..|listing| - 1])
         + if listing[|listing| - 1] in files then |files[listing[|listing| - 1]].bytes| else 0
  }

  /** How often a path is listed, times the size of its file. */
  ghost function Share(listing: seq<Path>, p: Path, size: nat): nat {
    multiset(listing)[p] * size
  }

  lemma {:induction false} ShareOfLast(init: seq<Path>, last: Path, p: Path, size: nat)
    ensures Share(init + [last], p, size) == Share(init, p, size) + if last == p then size else 0
  {
    var n := multiset(init)[p];
    assert (n + 1) * size == n * size + size;
    assert multiset(init + [last])[p] == n + if last == p then 1 else 0;
  }

  /** A file of n bytes adds n for each time it is listed; with SizeOfNothing this determines the sum. */
  lemma {:induction false} SizeOfPut(files: Files, p: Path, f: File, listing: seq<Path>)
    ensures SizeOf(files[p := f], listing) == SizeOf(files - {p}, listing) + Share(listing, p, |f.bytes|)
  {
    if listing != [] {
      var init, last := listing[..|listing| - 1], listing[|listing| - 1];
      SizeOfPut(files, p, f, init);
      assert listing == init + [last];
      ShareOfLast(init, last, p, |f.bytes|);
    }
  }

  lemma {:induction false} SizeOfNothing(listing: seq<Path>)
    ensures SizeOf(map[], listing) == 0
  {
    if listing != [] { SizeOfNothing(listing[..|listing| - 1]); }
  }

  /** The order in which the directory lists its files plays no part. */
  lemma {:induction false} SizeOfAnyOrder(files: Files, a: seq<Path>, b: seq<Path>)
    requires multiset(a) == multiset(b)
    ensures SizeOf(files, a) == SizeOf(files, b)
    decreases |files|
  {
    if files == map[] {
      SizeOfNothing(a);
      SizeOfNothing(b);
    } else {
      var p :| p in files;
      var rest := files - {p};
      assert files.Keys == rest.Keys + {p} && files == rest[p := files[p]] && rest - {p} == rest;
      SizeOfAnyOrder(rest, a, b);
      SizeOfPut(rest, p, files[p], a);
      SizeOfPut(rest, p, files[p], b);
    }
  }

  /** Which system call of the staging raises, if any: opening, writing or moving the temporary file. */
  datatype Fault = NoFault | OpenFails | WriteFails | MoveFails

  datatype StageResult = Staged(ref: Ref) | SpoolFull | StagingFailed

  class SpoolDirectory {
    var files: Files
    const maxBytes: nat

    constructor (maxBytes: nat)
      ensures files == map[] && this.maxBytes == maxBytes
    {
      files := map[];
      this.maxBytes := maxBytes;
    }

    method BytesUsed(listing: seq<Path>) returns (total: nat)
      ensures total == SizeOf(files, listing)
    {
      total := 0;
      for i := 0 to |listing|
        invariant total == SizeOf(files, listing[..i])
      {
        assert listing[..i + 1][..i] == listing[..i];
        if listing[i] in files {
          total := total + |files[listing[i]].bytes|;
        }
      }
      assert listing[..|listing|] == listing;
    }

    /**
     Stages `raw`; `listing` is what the directory lists. The final name changes only once, from
     what it was to the complete archive; a failing move leaves the temporary file.
     */
    method StageArchive(id: JobId, raw: Bytes, listing: seq<Path>, now: Time, fault: Fault) returns (r: StageResult)
      modifies `files
      ensures r.SpoolFull? <==> SizeOf(old(files), listing) + |raw| > maxBytes
      ensures r.Staged? <==> !r.SpoolFull? && fault.NoFault?
      ensures r.SpoolFull? ==> files == old(files)
      ensures r.StagingFailed? && fault.OpenFails? ==> files == old(files)
      ensures r.StagingFailed? && fault.WriteFails? ==> files == old(files) - {Temp(id)}
      ensures r.StagingFailed? && fault.MoveFails? ==> files == old(files)[Temp(id) := File(raw, now)]
      ensures r.Staged? ==> r.ref == Archive(id) && Final(id) in files && files[Final(id)] == File(raw, now)
      ensures r.Staged? ==> files == old(files)[Final(id) := File(raw, now)] - {Temp(id)}
    {
      var used := BytesUsed(listing);
      if used + |raw| > maxBytes {
        return SpoolFull;
      }
      if fault.OpenFails? {
        return StagingFailed;
      }
      files := files[Temp(id) := File([], now)];
      if fault.WriteFails? {
        files := files - {Temp(id)};
        return StagingFailed;
      }
      files := files[Temp(id) := File(raw, now)];
      if fault.MoveFails? {
        return StagingFailed;
      }
      files := files[Final(id) := files[Temp(id)]];
      files := files - {Temp(id)};
      r := Staged(Archive(id));
    }

    /** Never raises: an unlink that fails leaves the archive to the sweep. */
    method CleanupStagedArchive(ref: Ref, unlinkOk: bool)
      modifies `files
      ensures files == if ref.Archive? && unlinkOk then old(files) - {Final(ref.job)} else old(files)
    {
      if ref.Archive? && unlinkOk {
        files := files - {Final(ref.job)};
      }
    }

    /**
     Deletes the final archives older than `maxAge` and counts those deleted; `stuck` are the
     entries whose unlink raises. Temporary names are not matched.
     */
    method SweepStaleArchives(now: Time, maxAge: int, stuck: set<Path>) returns (removed: nat)
      modifies `files
      ensures files == Swept(old(files), now - maxAge, stuck)
      ensures forall p :: p in files <==>
                p in old(files) && (p.Temp? || p in stuck || now - old(files)[p].mtime <= maxAge)
      ensures forall p :: p in files ==> files[p] == old(files)[p]
      ensures removed == |old(files)| - |files|
    {
      var cutoff := now - maxAge;
      var entries := set p | p in files && p.Final?;
      removed := 0;
      while entries != {}
        invariant entries <= old(files).Keys && forall p :: p in entries ==> p in files && p.Final?
        invariant forall p :: p in files <==>
                  p in old(files) && (p in entries || p in stuck || !Stale(old(files), cutoff, p))
        invariant forall p :: p in files ==> files[p] == old(files)[p]
        invariant removed == |old(files)| - |files|
        decreases |entries|
      {
        var entry :| entry in entries;
        if files[entry].mtime < cutoff && entry !in stuck {
          assert files.Keys == (files - {entry}).Keys + {entry};
          files := files - {entry};
          removed := removed + 1;
        }
        entries := entries - {entry};
      }
    }
  }
}
