/** The write step of `extract_code_blocks`: each extracted (filename, code)
    pair is written to `output_dir/filename`; an existing file there is either
    overwritten in place (the user answered yes) or first moved to its archive
    location (the user answered no).

    The filesystem is a map from path to file content. The user's answer and
    how the write ends are supplied from outside, indexed by the
    1-based position of the pair. */
module Writer {
  import opened Paths

  type Files = map<string, string>

  /** The messages of the write step. */
  datatype WriteEvent =
    | ProcessingFile(index: nat, total: nat, name: string)   // "Processing file i/n: X"
    | Archived(path: string)                                 // "Moved existing file to archive: P"
    | Created(name: string, dir: string)                     // "File 'X' created successfully in D"
    | WriteFailed(name: string)                              // "Error creating 'X': ..."

  datatype Outcome = Outcome(files: Files, log: seq<WriteEvent>)

  /** How the `try` block of one pair ends: the file is written; `open`
      fails, so nothing is touched; or `open(path, 'w')` has created or
      truncated the file and the write then raises (an encoding error, a full
      disk), leaving `partial` as the file's content. */
  datatype WriteResult = Written | OpenFailed | WriteAborted(partial: string)

  /** One pair with the two paths the loop body computes for it: the output
      path `target` and the archive path `archive`. */
  datatype Job = Job(name: string, code: string, target: string, archive: string)

  /** The paths of one pair: `os.path.join(output_dir, filename)` and
      `os.path.join(archive_root/<stem>.version, filename)`. */
  function Plan(outputDir: string, archiveRoot: string, name: string, code: string): (j: Job)
    ensures j.name == name && j.code == code
    ensures |name| > 0 && name[0] == '/' ==> j.target == name && j.archive == name
    ensures |name| > 0 && name[0] != '/' && |outputDir| > 0 && outputDir[|outputDir| - 1] != '/' ==>
              j.target == outputDir + "/" + name
    ensures |name| > 0 && name[0] != '/' && |archiveRoot| > 0 ==>
              var dir := PathJoin(archiveRoot, SplitExt(name).0 + ".version");
              j.archive == dir + "/" + name && dir[..|archiveRoot|] == archiveRoot
  {
    var j := Job(name, code, PathJoin(outputDir, name), ArchivePath(archiveRoot, name));
    PathJoinShape(outputDir, name);
    if |name| > 0 && name[0] == '/' then
      AbsoluteFilenameArchivesInPlace(outputDir, archiveRoot, name); j
    else if |name| > 0 && |archiveRoot| > 0 then
      ArchivePathShape(archiveRoot, name); j
    else j
  }

  /** `b` agrees with `a` on every path outside `keys`. */
  ghost predicate SameExcept(a: Files, b: Files, keys: set<string>) {
    forall k :: k !in keys ==> (k in a <==> k in b) && (k in a ==> a[k] == b[k])
  }

  /** The incumbent is archived when the target exists and the user declined
      to overwrite it. */
  predicate Archives(files: Files, job: Job, overwrite: bool) {
    job.target in files && !overwrite
  }

  /** Processing of one pair: the optional move to the archive, then the
      write, which may fail without undoing the move. The log holds an
      archive message exactly when the incumbent is archived, and ends with
      the write's success or failure. `res` says how the write ends. */
  function WriteOne(files: Files, outputDir: string, job: Job, overwrite: bool, res: WriteResult): (r: Outcome)
    ensures (exists e :: e in r.log && e.Archived?) <==> Archives(files, job, overwrite)
    ensures |r.log| > 0 && r.log[|r.log| - 1] == (if res.Written? then Created(job.name, outputDir) else WriteFailed(job.name))
  {
    var moved :=
      if Archives(files, job, overwrite) then
        Outcome((files - {job.target})[job.archive := files[job.target]], [Archived(job.archive)])
      else Outcome(files, []);
    var r :=
      match res
      case Written => Outcome(moved.files[job.target := job.code], moved.log + [Created(job.name, outputDir)])
      case OpenFailed => Outcome(moved.files, moved.log + [WriteFailed(job.name)])
      case WriteAborted(partial) => Outcome(moved.files[job.target := partial], moved.log + [WriteFailed(job.name)]);
    assert Archives(files, job, overwrite) ==> r.log[0] == Archived(job.archive);
    r
  }

  /** A successful write leaves the code at the target; a write that raises
      after `open` leaves the partial content there. */
  lemma WriteOneStores(files: Files, outputDir: string, job: Job, overwrite: bool, res: WriteResult)
    ensures var r := WriteOne(files, outputDir, job, overwrite, res);
            && (res.Written? ==> job.target in r.files && r.files[job.target] == job.code)
            && (res.WriteAborted? ==> job.target in r.files && r.files[job.target] == res.partial)
  {
  }

  /** Only the target changes unless the incumbent is archived, in which case
      the archive path changes too; a failed `open` without an archive move
      changes nothing. */
  lemma WriteOneFrame(files: Files, outputDir: string, job: Job, overwrite: bool, res: WriteResult)
    ensures var r := WriteOne(files, outputDir, job, overwrite, res);
            && (!Archives(files, job, overwrite) ==> SameExcept(files, r.files, {job.target}))
            && (!Archives(files, job, overwrite) && res.OpenFailed? ==> r.files == files)
            && (Archives(files, job, overwrite) ==> SameExcept(files, r.files, {job.target, job.archive}))
  {
  }

  /** An archived incumbent's content is found at its archive path, whatever
      was there before; if `open` then fails the target is missing, and if the
      write raises after `open` the target holds only the partial content. */
  lemma WriteOneArchive(files: Files, outputDir: string, job: Job, overwrite: bool, res: WriteResult)
    requires Archives(files, job, overwrite)
    requires job.archive != job.target
    ensures var r := WriteOne(files, outputDir, job, overwrite, res);
            && job.archive in r.files && r.files[job.archive] == files[job.target]
            && (res.OpenFailed? ==> job.target !in r.files)
            && (res.WriteAborted? ==> job.target in r.files && r.files[job.target] == res.partial)
  {
  }

  /** The output path of every job. */
  function Targets(jobs: seq<Job>): set<string>
  {
    set i | 0 <= i < |jobs| :: jobs[i].target
  }

  /** Every output path and archive path the jobs can touch. */
  function Touched(jobs: seq<Job>): set<string>
  {
    Targets(jobs) + (set i | 0 <= i < |jobs| :: jobs[i].archive)
  }

  lemma TargetsSnoc(jobs: seq<Job>)
    requires |jobs| > 0
    ensures Targets(jobs) == Targets(jobs[..|jobs| - 1]) + {jobs[|jobs| - 1].target}
  {
    var init := jobs[..|jobs| - 1];
    forall i | 0 <= i < |init| ensures init[i] == jobs[i] { }
  }

  /** The loop over the jobs, `total` being the number announced in the log;
      `ask(i)` is the answer to "Overwrite?" for the i-th job and `io(i)`
      how its write ends. Each job logs its "Processing file" line and
      then what `WriteOne` logs. */
  function WriteAll(files: Files, outputDir: string, jobs: seq<Job>, total: nat,
                    ask: nat -> bool, io: nat -> WriteResult): (r: Outcome)
    ensures |r.log| >= 2 * |jobs|
    decreases |jobs|
  {
    if |jobs| == 0 then Outcome(files, [])
    else
      var idx := |jobs|;
      var prev := WriteAll(files, outputDir, jobs[..idx - 1], total, ask, io);
      var job := jobs[idx - 1];
      var one := WriteOne(prev.files, outputDir, job, ask(idx), io(idx));
      Outcome(one.files, prev.log + [ProcessingFile(idx, total, job.name)] + one.log)
  }

  /** Every pair is announced: the i-th pair's "Processing file i/total: name"
      message is in the log. */
  lemma {:induction false} WriteAllAnnounces(files: Files, outputDir: string, jobs: seq<Job>, total: nat,
                                             ask: nat -> bool, io: nat -> WriteResult)
    ensures var r := WriteAll(files, outputDir, jobs, total, ask, io);
            forall i :: 0 <= i < |jobs| ==> ProcessingFile(i + 1, total, jobs[i].name) in r.log
    decreases |jobs|
  {
    if |jobs| > 0 {
      var init := jobs[..|jobs| - 1];
      WriteAllAnnounces(files, outputDir, init, total, ask, io);
      assert forall i :: 0 <= i < |init| ==> init[i] == jobs[i];
    }
  }

  /** The last job, when its target is absent and its write completes, adds
      exactly that file and logs only its announcement and its creation. */
  lemma WriteAllFreshLast(files: Files, outputDir: string, jobs: seq<Job>, total: nat,
                          ask: nat -> bool, io: nat -> WriteResult)
    requires |jobs| > 0 && io(|jobs|) == Written
    requires jobs[|jobs| - 1].target !in WriteAll(files, outputDir, jobs[..|jobs| - 1], total, ask, io).files
    ensures var prev := WriteAll(files, outputDir, jobs[..|jobs| - 1], total, ask, io);
            var job := jobs[|jobs| - 1];
            WriteAll(files, outputDir, jobs, total, ask, io) ==
              Outcome(prev.files[job.target := job.code],
                      prev.log + [ProcessingFile(|jobs|, total, job.name), Created(job.name, outputDir)])
  {
  }

  /** The loop changes nothing outside the jobs' output and archive paths. */
  lemma {:induction false} WriteAllFrame(files: Files, outputDir: string, jobs: seq<Job>, total: nat,
                                         ask: nat -> bool, io: nat -> WriteResult)
    ensures SameExcept(files, WriteAll(files, outputDir, jobs, total, ask, io).files, Touched(jobs))
    decreases |jobs|
  {
    if |jobs| > 0 {
      var idx := |jobs|;
      var init := jobs[..idx - 1];
      WriteAllFrame(files, outputDir, init, total, ask, io);
      var prev := WriteAll(files, outputDir, init, total, ask, io);
      WriteOneFrame(prev.files, outputDir, jobs[idx - 1], ask(idx), io(idx));
      assert Touched(init) <= Touched(jobs) by {
        forall i | 0 <= i < |init| ensures init[i] == jobs[i] { }
      }
    }
  }

  /** The last write to a path decides its content: if the i-th job's write
      succeeds and no later job writes to or archives onto its target, the
      target ends up holding that job's code. */
  lemma {:induction false} LastWriteWins(files: Files, outputDir: string, jobs: seq<Job>, total: nat,
                                         ask: nat -> bool, io: nat -> WriteResult, i: nat)
    requires i < |jobs| && io(i + 1).Written?
    requires forall j :: i < j < |jobs| ==> jobs[j].target != jobs[i].target && jobs[j].archive != jobs[i].target
    ensures var r := WriteAll(files, outputDir, jobs, total, ask, io);
            jobs[i].target in r.files && r.files[jobs[i].target] == jobs[i].code
    decreases |jobs|
  {
    var n := |jobs|;
    var init := jobs[..n - 1];
    var prev := WriteAll(files, outputDir, init, total, ask, io);
    if i < n - 1 {
      assert init[i] == jobs[i];
      LastWriteWins(files, outputDir, init, total, ask, io, i);
      WriteOneFrame(prev.files, outputDir, jobs[n - 1], ask(n), io(n));
    } else {
      WriteOneStores(prev.files, outputDir, jobs[n - 1], ask(n), io(n));
    }
  }

  /** Distinct targets, all absent beforehand: the precondition of the two
      lemmas below. */
  ghost predicate FreshJobs(files: Files, jobs: seq<Job>) {
    && (forall j :: j in jobs ==> j.target !in files)
    && (forall i, j :: 0 <= i < j < |jobs| ==> jobs[i].target != jobs[j].target)
  }

  lemma FreshJobsInit(files: Files, jobs: seq<Job>)
    requires FreshJobs(files, jobs) && |jobs| > 0
    ensures FreshJobs(files, jobs[..|jobs| - 1])
  {
    var init := jobs[..|jobs| - 1];
    assert forall j :: j in init ==> j in jobs;
    forall i, j | 0 <= i < j < |init| ensures init[i].target != init[j].target {
      assert init[i] == jobs[i] && init[j] == jobs[j];
    }
  }

  /** Writing to paths that do not exist yet: with every write completing and
      distinct targets all absent beforehand, the only new paths are the
      targets ... */
  lemma {:induction false} FreshTargetsNew(files: Files, outputDir: string, jobs: seq<Job>, total: nat,
                                           ask: nat -> bool, io: nat -> WriteResult)
    requires forall i :: 1 <= i <= |jobs| ==> io(i).Written?
    requires FreshJobs(files, jobs)
    ensures forall k :: k in WriteAll(files, outputDir, jobs, total, ask, io).files ==> k in files || k in Targets(jobs)
    decreases |jobs|
  {
    if |jobs| == 0 {
      assert WriteAll(files, outputDir, jobs, total, ask, io) == Outcome(files, []);
    } else {
      var n := |jobs|;
      var init := jobs[..n - 1];
      FreshJobsInit(files, jobs);
      FreshTargetsNew(files, outputDir, init, total, ask, io);
      var prev := WriteAll(files, outputDir, init, total, ask, io);
      var job := jobs[n - 1];
      assert job in jobs;
      assert job.target !in Targets(init) by {
        forall i | 0 <= i < |init| ensures init[i].target != job.target {
          assert init[i] == jobs[i];
        }
      }
      assert io(n) == Written;
      WriteAllFreshLast(files, outputDir, jobs, total, ask, io);
      TargetsSnoc(jobs);
    }
  }

  /** ... every old file is kept unchanged ... */
  lemma {:induction false} FreshTargetsKeep(files: Files, outputDir: string, jobs: seq<Job>, total: nat,
                                            ask: nat -> bool, io: nat -> WriteResult)
    requires forall i :: 1 <= i <= |jobs| ==> io(i).Written?
    requires FreshJobs(files, jobs)
    ensures var r := WriteAll(files, outputDir, jobs, total, ask, io);
            forall k :: k in files ==> k in r.files && r.files[k] == files[k]
    decreases |jobs|
  {
    if |jobs| == 0 {
      assert WriteAll(files, outputDir, jobs, total, ask, io) == Outcome(files, []);
    } else {
      var n := |jobs|;
      var init := jobs[..n - 1];
      FreshJobsInit(files, jobs);
      FreshTargetsNew(files, outputDir, init, total, ask, io);
      FreshTargetsKeep(files, outputDir, init, total, ask, io);
      var job := jobs[n - 1];
      assert job in jobs;
      assert job.target !in Targets(init) by {
        forall i | 0 <= i < |init| ensures init[i].target != job.target {
          assert init[i] == jobs[i];
        }
      }
      assert io(n) == Written;
      WriteAllFreshLast(files, outputDir, jobs, total, ask, io);
    }
  }

  /** ... every target then holds its job's code ... */
  lemma {:induction false} FreshTargetsStore(files: Files, outputDir: string, jobs: seq<Job>, total: nat,
                                             ask: nat -> bool, io: nat -> WriteResult)
    requires forall i :: 1 <= i <= |jobs| ==> io(i).Written?
    requires FreshJobs(files, jobs)
    ensures var r := WriteAll(files, outputDir, jobs, total, ask, io);
            forall i :: 0 <= i < |jobs| ==> jobs[i].target in r.files && r.files[jobs[i].target] == jobs[i].code
    decreases |jobs|
  {
    if |jobs| > 0 {
      var n := |jobs|;
      var init := jobs[..n - 1];
      FreshJobsInit(files, jobs);
      FreshTargetsNew(files, outputDir, init, total, ask, io);
      FreshTargetsStore(files, outputDir, init, total, ask, io);
      var prev := WriteAll(files, outputDir, init, total, ask, io);
      var job := jobs[n - 1];
      assert job in jobs;
      assert job.target !in prev.files;
      assert io(n) == Written;
      WriteAllFreshLast(files, outputDir, jobs, total, ask, io);
      var after := prev.files[job.target := job.code];
      forall i | 0 <= i < n
        ensures jobs[i].target in after && after[jobs[i].target] == jobs[i].code
      {
        if i < n - 1 {
          assert init[i] == jobs[i];
          assert jobs[i].target != job.target;
        }
      }
    }
  }

  /** ... and never archives anything. */
  lemma {:induction false} FreshTargetsArchiveNothing(files: Files, outputDir: string, jobs: seq<Job>, total: nat,
                                                      ask: nat -> bool, io: nat -> WriteResult)
    requires forall i :: 1 <= i <= |jobs| ==> io(i).Written?
    requires FreshJobs(files, jobs)
    ensures forall e :: e in WriteAll(files, outputDir, jobs, total, ask, io).log ==> !e.Archived?
    decreases |jobs|
  {
    if |jobs| > 0 {
      var n := |jobs|;
      var init := jobs[..n - 1];
      FreshJobsInit(files, jobs);
      FreshTargetsNew(files, outputDir, init, total, ask, io);
      FreshTargetsArchiveNothing(files, outputDir, init, total, ask, io);
      var prev := WriteAll(files, outputDir, init, total, ask, io);
      var job := jobs[n - 1];
      assert job in jobs;
      assert job.target !in prev.files;
      assert io(n) == Written;
      WriteAllFreshLast(files, outputDir, jobs, total, ask, io);
    }
  }
}
