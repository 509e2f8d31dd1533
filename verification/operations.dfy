/** The read-modify-write operations on the repository config (`AddRepository`,
    `RemoveRepository`, `UpdateRepository`, `listRepositories`).

    Every external call is an input: `Effects` holds what each call would return, and an
    operation yields the error it reports together with the trace of external steps it took,
    in order. The deferred release of the file lock is the trace's last step.
    The file that `Lock` and `Unlock` act on is `LockPath.LockPath` of the config path. */
module Operations {
  import opened Outcomes
  import opened Repositories

  /** What `os.Stat` says about the config file. */
  datatype StatResult = Exists | NotExist | StatFailed(error: Error)

  /** The `(locked, err)` pair returned by the lock attempt. */
  datatype LockAttempt = LockAttempt(locked: bool, err: Outcome) {

    /** The release is deferred exactly when the lock was taken without error. */
    predicate Held() {
      err.Ok? && locked
    }
  }

  /** What helm's `File.Remove` leaves behind and whether it found the name. */
  datatype Removal = Removal(file: RepoFile, removed: bool)

  /** The external steps an operation takes. `Lock(config)` is `lockRepositoryFile` on the
      config path and `Unlock(config)` the release of that lock. */
  datatype Step =
    | Stat(path: string)
    | MakeParentDirs(path: string)
    | CreateFile(path: string)
    | Lock(config: string)
    | Load(path: string)
    | NewChartRepository(entry: Entry)
    | DownloadIndex(entry: Entry)
    | Write(path: string, file: RepoFile)
    | Unlock(config: string)

  /** What each external call returns; `update` and `remove` stand for helm's in-memory
      `File.Update` and `File.Remove`, whose behaviour is not part of this model. */
  datatype Effects = Effects(
    stat: StatResult,
    mkdirAll: Outcome,
    create: Outcome,
    lock: LockAttempt,
    load: Result<RepoFile>,
    newChartRepository: Outcome,
    downloadIndex: Outcome,
    write: Outcome,
    update: (RepoFile, Entry) -> RepoFile,
    remove: (RepoFile, string) -> Removal)

  /** The error an operation returns and the steps it took. */
  datatype Run = Run(result: Outcome, trace: seq<Step>)

  /** Some step of the trace calls `WriteFile`; the call may have failed. */
  predicate WriteAttempted(trace: seq<Step>)
  {
    exists s :: s in trace && s.Write?
  }

  /** A trace attempts a write exactly when one of its parts does. */
  lemma WriteAttemptedConcat(a: seq<Step>, b: seq<Step>)
    ensures WriteAttempted(a + b) <==> WriteAttempted(a) || WriteAttempted(b)
  {
    if WriteAttempted(a + b) {
      var s :| s in a + b && s.Write?;
    }
    if WriteAttempted(a) {
      var s :| s in a && s.Write?;
      assert s in a + b;
    }
    if WriteAttempted(b) {
      var s :| s in b && s.Write?;
      assert s in a + b;
    }
  }

  /** No lock is taken or released. */
  predicate LockFree(trace: seq<Step>)
  {
    forall s :: s in trace ==> !s.Lock? && !s.Unlock?
  }

  /** The lock of `config` is released, once and as the last step, exactly when `held`; no
      other lock is released. */
  predicate ReleasedOnceIff(trace: seq<Step>, config: string, held: bool)
  {
    && multiset(trace)[Unlock(config)] == (if held then 1 else 0)
    && (held ==> |trace| > 0 && trace[|trace| - 1] == Unlock(config))
    && forall s :: s in trace && s.Unlock? ==> s == Unlock(config)
  }

  /** `createFileIfNotThere`: creates the parent directories and the file when `os.Stat` reports
      that the file does not exist. Any other stat failure is treated as success. */
  function CreateFileIfNotThere(path: string, fx: Effects): (r: Run)
    ensures r.result.Ok? <==> !fx.stat.NotExist? || (fx.mkdirAll.Ok? && fx.create.Ok?)
    ensures r.result.Err? ==> r.result == if fx.mkdirAll.Err? then fx.mkdirAll else fx.create
    ensures |r.trace| > 0 && r.trace[0] == Stat(path)
    ensures CreateFile(path) in r.trace <==> fx.stat.NotExist? && fx.mkdirAll.Ok?
    ensures MakeParentDirs(path) in r.trace <==> fx.stat.NotExist?
    ensures forall s :: s in r.trace ==> s.Stat? || s.MakeParentDirs? || s.CreateFile?
    ensures !fx.stat.NotExist? ==> r.trace == [Stat(path)]
    ensures fx.stat.NotExist? ==>
              r.trace == [Stat(path), MakeParentDirs(path)] + (if fx.mkdirAll.Ok? then [CreateFile(path)] else [])
  {
    match fx.stat
    case NotExist =>
      if fx.mkdirAll.Err? then Run(fx.mkdirAll, [Stat(path), MakeParentDirs(path)])
      else Run(fx.create, [Stat(path), MakeParentDirs(path), CreateFile(path)])
    case _ => Run(Ok, [Stat(path)])
  }

  /** `createFileIfNotThere` returns the first error of directory creation and file creation
      when the file does not exist, and nil otherwise. */
  lemma CreateReportsFirstFailure(path: string, fx: Effects)
    ensures CreateFileIfNotThere(path, fx).result
              == FirstFailure(if fx.stat.NotExist? then [fx.mkdirAll, fx.create] else [])
  {
  }

  /** What the three read-modify-write operations share: create the config if needed (a failure
      ends the operation), attempt the lock, run `body`, and on the way out release the lock if
      it was taken without error, as Go's deferred `Unlock` does. */
  function Guarded(config: string, fx: Effects, body: Run): (r: Run)
    ensures var created := CreateFileIfNotThere(config, fx);
            created.result.Err? ==> r == created
    ensures CreateFileIfNotThere(config, fx).result.Ok? ==> r.result == body.result
  {
    var created := CreateFileIfNotThere(config, fx);
    if created.result.Err? then created
    else
      var release := if fx.lock.Held() then [Unlock(config)] else [];
      Run(body.result, created.trace + [Lock(config)] + body.trace + release)
  }

  /** Around a body that takes no lock of its own, `Guarded` attempts the lock only after a
      successful create and releases it exactly once, as the last step, when it was held. */
  lemma GuardedReleasesOnce(config: string, fx: Effects, body: Run)
    requires LockFree(body.trace)
    ensures var created := CreateFileIfNotThere(config, fx).result;
            var r := Guarded(config, fx, body);
            && (Lock(config) in r.trace <==> created.Ok?)
            && ReleasedOnceIff(r.trace, config, created.Ok? && fx.lock.Held())
  {
    if CreateFileIfNotThere(config, fx).result.Ok? {
      GuardedAfterCreate(config, fx, body);
    } else {
      GuardedCreateFailed(config, fx, body);
    }
  }

  /** After a successful create, `Guarded` is the create's steps, the lock attempt, the body and
      the release. */
  lemma GuardedAfterCreate(config: string, fx: Effects, body: Run)
    requires LockFree(body.trace)
    requires CreateFileIfNotThere(config, fx).result.Ok?
    ensures var t := Guarded(config, fx, body).trace;
            Lock(config) in t && ReleasedOnceIff(t, config, fx.lock.Held())
  {
    var created := CreateFileIfNotThere(config, fx);
    assert LockFree(created.trace);
    LockedThenReleased(created.trace, config, body.trace, fx.lock.Held());
  }

  /** A failed create ends `Guarded` before any lock step. */
  lemma GuardedCreateFailed(config: string, fx: Effects, body: Run)
    requires CreateFileIfNotThere(config, fx).result.Err?
    ensures var t := Guarded(config, fx, body).trace;
            Lock(config) !in t && ReleasedOnceIff(t, config, false)
  {
    var created := CreateFileIfNotThere(config, fx);
    assert LockFree(created.trace);
    assert Unlock(config) !in created.trace;
  }

  /** A lock-free prefix, the lock attempt, a lock-free body and the release when `held`: the
      lock is attempted and released once, last, exactly when `held`. */
  lemma LockedThenReleased(pre: seq<Step>, config: string, body: seq<Step>, held: bool)
    requires LockFree(pre) && LockFree(body)
    ensures var t := pre + [Lock(config)] + body + (if held then [Unlock(config)] else []);
            Lock(config) in t && ReleasedOnceIff(t, config, held)
  {
    var locked := pre + [Lock(config)] + body;
    assert locked[|pre|] == Lock(config);
    forall s | s in locked ensures !s.Unlock? {
      assert s in pre + [Lock(config)] || s in body;
    }
    ReleasedAfter(locked, config, held);
  }

  /** Appending the release to a trace that releases nothing releases the lock once exactly
      when it was held. */
  lemma ReleasedAfter(pre: seq<Step>, config: string, held: bool)
    requires forall s :: s in pre ==> !s.Unlock?
    ensures ReleasedOnceIff(pre + (if held then [Unlock(config)] else []), config, held)
  {
    assert Unlock(config) !in pre;
    var release := if held then [Unlock(config)] else [];
    forall s | s in pre + release && s.Unlock? ensures s == Unlock(config) {
      assert s in pre || s in release;
    }
  }

  /** `Guarded` writes exactly what its body writes, and nothing when the create fails. */
  lemma GuardedWrites(config: string, fx: Effects, body: Run)
    ensures var created := CreateFileIfNotThere(config, fx).result;
            var r := Guarded(config, fx, body);
            && (WriteAttempted(r.trace) <==> created.Ok? && WriteAttempted(body.trace))
            && (forall s :: s in r.trace && s.Write? ==> s in body.trace)
  {
    var created := CreateFileIfNotThere(config, fx);
    if created.result.Ok? {
      var release := if fx.lock.Held() then [Unlock(config)] else [];
      WriteAttemptedConcat(created.trace, [Lock(config)]);
      WriteAttemptedConcat(created.trace + [Lock(config)], body.trace);
      WriteAttemptedConcat(created.trace + [Lock(config)] + body.trace, release);
    }
  }

  /** `Guarded` loads exactly what its body loads, and nothing when the create fails. */
  lemma GuardedLoads(config: string, fx: Effects, body: Run)
    ensures var created := CreateFileIfNotThere(config, fx).result;
            var r := Guarded(config, fx, body);
            forall p :: Load(p) in r.trace <==> created.Ok? && Load(p) in body.trace
  {
  }
  /** After a successful create, `Guarded` lays its steps out in order: the create's steps, the
      lock attempt, the body's steps, and the release when the lock is held. */
  lemma GuardedOrder(config: string, fx: Effects, body: Run)
    requires CreateFileIfNotThere(config, fx).result.Ok?
    ensures var created := CreateFileIfNotThere(config, fx).trace;
            var t := Guarded(config, fx, body).trace;
            var n := |created|;
            && |t| == n + 1 + |body.trace| + (if fx.lock.Held() then 1 else 0)
            && t[..n] == created
            && t[n] == Lock(config)
            && t[n + 1..n + 1 + |body.trace|] == body.trace
  {
    var created := CreateFileIfNotThere(config, fx).trace;
    var release := if fx.lock.Held() then [Unlock(config)] else [];
    var t := created + [Lock(config)] + body.trace + release;
    assert t[..|created|] == created;
    assert t[|created| + 1..|created| + 1 + |body.trace|] == body.trace;
  }

  /** Under `Guarded`, every load and write comes after the lock attempt, which comes after the
      create's steps, and, when the lock is held, before its release. */
  lemma GuardedBodyUnderLock(config: string, fx: Effects, body: Run)
    requires CreateFileIfNotThere(config, fx).result.Ok?
    requires forall s :: s in body.trace ==> !s.Unlock?
    ensures var n := |CreateFileIfNotThere(config, fx).trace|;
            var t := Guarded(config, fx, body).trace;
            && n < |t| && t[n] == Lock(config)
            && forall k :: 0 <= k < |t| && (t[k].Load? || t[k].Write?) ==>
                 n < k && (fx.lock.Held() ==> k < |t| - 1)
  {
    GuardedOrder(config, fx, body);
  }

  /** The part of `AddRepository` after the lock attempt; a lock error ends it. */
  function AddUnderLock(name: string, url: string, config: string, fx: Effects): (r: Run)
    ensures LockFree(r.trace)
    ensures WriteAttempted(r.trace) <==> && fx.lock.err.Ok? && fx.load.Success?
                                         && fx.newChartRepository.Ok? && fx.downloadIndex.Ok?
    ensures forall s :: s in r.trace && s.Write? ==>
              fx.load.Success? && s == Write(config, fx.update(fx.load.value, NewEntry(name, url)))
    ensures Load(config) in r.trace <==> fx.lock.err.Ok?
  {
    var entry := NewEntry(name, url);
    if fx.lock.err.Err? then Run(fx.lock.err, [])
    else if fx.load.Failure? then Run(fx.load.ToOutcome(), [Load(config)])
    else if fx.newChartRepository.Err? then
      Run(fx.newChartRepository, [Load(config), NewChartRepository(entry)])
    else if fx.downloadIndex.Err? then
      Run(fx.downloadIndex, [Load(config), NewChartRepository(entry), DownloadIndex(entry)])
    else
      var written := Write(config, fx.update(fx.load.value, entry));
      var trace := [Load(config), NewChartRepository(entry), DownloadIndex(entry), written];
      assert written in trace;
      Run(fx.write, trace)
  }

  /** `AddRepository`: create the config if needed, lock it, load it, check that the repository's
      index can be downloaded, then write the file with the new entry. */
  function AddRepository(name: string, url: string, config: string, fx: Effects): (r: Run)
    ensures r.result.Ok? ==> WriteAttempted(r.trace) && fx.write.Ok?
  {
    var body := AddUnderLock(name, url, config, fx);
    GuardedWrites(config, fx, body);
    Guarded(config, fx, body)
  }

  /** `AddRepository` attempts the lock only after a successful create and releases it once, as
      its last step, exactly when the lock was taken without error. */
  lemma AddReleasesLockOnce(name: string, url: string, config: string, fx: Effects)
    ensures var created := CreateFileIfNotThere(config, fx).result;
            var r := AddRepository(name, url, config, fx);
            && (Lock(config) in r.trace <==> created.Ok?)
            && ReleasedOnceIff(r.trace, config, created.Ok? && fx.lock.Held())
  {
    GuardedReleasesOnce(config, fx, AddUnderLock(name, url, config, fx));
  }

  /** A lock error ends `AddRepository`: the error is returned and the file is neither loaded nor
      written. */
  lemma AddStopsOnLockError(name: string, url: string, config: string, fx: Effects)
    ensures var created := CreateFileIfNotThere(config, fx).result;
            var r := AddRepository(name, url, config, fx);
            Load(config) in r.trace <==> created.Ok? && fx.lock.err.Ok?
    ensures var created := CreateFileIfNotThere(config, fx).result;
            var r := AddRepository(name, url, config, fx);
            created.Ok? && fx.lock.err.Err? ==> r.result == fx.lock.err && !WriteAttempted(r.trace)
  {
    var body := AddUnderLock(name, url, config, fx);
    GuardedLoads(config, fx, body);
    GuardedWrites(config, fx, body);
  }

  /** `AddRepository` writes the config only when create, lock, load, chart-repository
      construction and index download all succeed, and then writes the loaded file updated
      with an entry holding just the given name and URL. */
  lemma AddWritesOnlyAfterAllSucceed(name: string, url: string, config: string, fx: Effects)
    ensures var created := CreateFileIfNotThere(config, fx).result;
            var r := AddRepository(name, url, config, fx);
            WriteAttempted(r.trace) <==> && created.Ok? && fx.lock.err.Ok? && fx.load.Success?
                                         && fx.newChartRepository.Ok? && fx.downloadIndex.Ok?
    ensures var r := AddRepository(name, url, config, fx);
            forall s :: s in r.trace && s.Write? ==>
              fx.load.Success? && s == Write(config, fx.update(fx.load.value, NewEntry(name, url)))
  {
    GuardedWrites(config, fx, AddUnderLock(name, url, config, fx));
  }

  /** Under the lock, `AddRepository` loads, builds the chart repository, downloads the index
      and writes, in that order, stopping at the first failure. */
  lemma AddUnderLockOrder(name: string, url: string, config: string, fx: Effects)
    ensures var e := NewEntry(name, url);
            AddUnderLock(name, url, config, fx).trace
              <= [Load(config), NewChartRepository(e), DownloadIndex(e)]
                 + (if fx.load.Success? then [Write(config, fx.update(fx.load.value, e))] else [])
  {
  }

  /** When `AddRepository` attempts the write, its steps are: the create's steps, the lock
      attempt, the load, the chart-repository construction, the index download, the write, and
      the release when the lock is held. */
  lemma AddStepOrder(name: string, url: string, config: string, fx: Effects)
    ensures var r := AddRepository(name, url, config, fx);
            var e := NewEntry(name, url);
            WriteAttempted(r.trace) ==>
              && fx.load.Success?
              && r.trace == CreateFileIfNotThere(config, fx).trace
                            + [Lock(config), Load(config), NewChartRepository(e), DownloadIndex(e),
                               Write(config, fx.update(fx.load.value, e))]
                            + (if fx.lock.Held() then [Unlock(config)] else [])
  {
    var body := AddUnderLock(name, url, config, fx);
    GuardedWrites(config, fx, body);
    if WriteAttempted(AddRepository(name, url, config, fx).trace) {
      var created := CreateFileIfNotThere(config, fx).trace;
      var e := NewEntry(name, url);
      var written := Write(config, fx.update(fx.load.value, e));
      assert body.trace == [Load(config), NewChartRepository(e), DownloadIndex(e), written];
      assert created + [Lock(config)] + body.trace
          == created + [Lock(config), Load(config), NewChartRepository(e), DownloadIndex(e), written];
    }
  }

  /** The steps `AddRepository` checks, in order. */
  function AddSteps(config: string, fx: Effects): seq<Outcome>
  {
    [CreateFileIfNotThere(config, fx).result, fx.lock.err, fx.load.ToOutcome(),
     fx.newChartRepository, fx.downloadIndex, fx.write]
  }

  /** `AddRepository` reports the first failing step, in the order create, lock, load, chart
      repository, index download, write; nil when all succeed. */
  lemma AddReportsFirstFailure(name: string, url: string, config: string, fx: Effects)
    ensures AddRepository(name, url, config, fx).result == FirstFailure(AddSteps(config, fx))
  {
    var steps := AddSteps(config, fx);
    var o := FirstFailure(steps);
    if o.Err? {
      var k :| 0 <= k < |steps| && steps[k] == o && forall j :: 0 <= j < k ==> steps[j].Ok?;
      if k == 0 {
      } else if k == 1 {
        assert steps[0].Ok?;
      } else if k == 2 {
        assert steps[0].Ok? && steps[1].Ok?;
      } else if k == 3 {
        assert steps[0].Ok? && steps[1].Ok? && steps[2].Ok?;
      } else if k == 4 {
        assert steps[0].Ok? && steps[1].Ok? && steps[2].Ok? && steps[3].Ok?;
      } else {
        assert steps[0].Ok? && steps[1].Ok? && steps[2].Ok? && steps[3].Ok? && steps[4].Ok?;
      }
    } else {
      assert steps[0].Ok? && steps[1].Ok? && steps[2].Ok? && steps[3].Ok? && steps[4].Ok?;
      assert steps[5].Ok?;
    }
  }

  /** Helm's `File.Remove` finds `name` in the loaded file. */
  predicate Removes(name: string, fx: Effects)
  {
    fx.load.Success? && fx.remove(fx.load.value, name).removed
  }

  /** The part of `RemoveRepository` after the lock attempt. The lock error is not checked:
      the load's result takes its place. A name that is not found ends the operation with the
      load's nil error. */
  function RemoveUnderLock(name: string, config: string, fx: Effects): (r: Run)
    ensures LockFree(r.trace)
    ensures Load(config) in r.trace
    ensures WriteAttempted(r.trace) <==> Removes(name, fx)
    ensures forall s :: s in r.trace && s.Write? ==>
              fx.load.Success? && s == Write(config, fx.remove(fx.load.value, name).file)
  {
    if fx.load.Failure? then Run(fx.load.ToOutcome(), [Load(config)])
    else
      var removal := fx.remove(fx.load.value, name);
      if !removal.removed then Run(Ok, [Load(config)])
      else
        var written := Write(config, removal.file);
        var trace := [Load(config), written];
        assert written in trace;
        Run(fx.write, trace)
  }

  /** `RemoveRepository`: create the config if needed, try the lock, load the file and write it
      back without the named entry. */
  function RemoveRepository(name: string, config: string, fx: Effects): (r: Run)
    ensures r.result.Err? && WriteAttempted(r.trace) ==> r.result == fx.write
  {
    var body := RemoveUnderLock(name, config, fx);
    GuardedWrites(config, fx, body);
    Guarded(config, fx, body)
  }

  /** `RemoveRepository` attempts the lock only after a successful create and releases it once,
      as its last step, exactly when the lock was taken without error. */
  lemma RemoveReleasesLockOnce(name: string, config: string, fx: Effects)
    ensures var created := CreateFileIfNotThere(config, fx).result;
            var r := RemoveRepository(name, config, fx);
            && (Lock(config) in r.trace <==> created.Ok?)
            && ReleasedOnceIff(r.trace, config, created.Ok? && fx.lock.Held())
  {
    GuardedReleasesOnce(config, fx, RemoveUnderLock(name, config, fx));
  }

  /** `RemoveRepository` loads the file whenever the create succeeded, whatever the lock attempt
      returned, and writes it exactly when the name was found. */
  lemma RemoveIgnoresLockError(name: string, config: string, fx: Effects)
    ensures var created := CreateFileIfNotThere(config, fx).result;
            var r := RemoveRepository(name, config, fx);
            Load(config) in r.trace <==> created.Ok?
    ensures var created := CreateFileIfNotThere(config, fx).result;
            var r := RemoveRepository(name, config, fx);
            WriteAttempted(r.trace) <==> created.Ok? && Removes(name, fx)
    ensures var r := RemoveRepository(name, config, fx);
            forall s :: s in r.trace && s.Write? ==>
              fx.load.Success? && s == Write(config, fx.remove(fx.load.value, name).file)
  {
    var body := RemoveUnderLock(name, config, fx);
    GuardedLoads(config, fx, body);
    GuardedWrites(config, fx, body);
  }

  /** Removing a name that is not present reports success (the nil error of the load) and leaves
      the file unwritten. */
  lemma RemoveUnknownNameSucceeds(name: string, config: string, fx: Effects)
    requires CreateFileIfNotThere(config, fx).result.Ok? && fx.load.Success?
    requires !fx.remove(fx.load.value, name).removed
    ensures RemoveRepository(name, config, fx).result == Ok
    ensures !WriteAttempted(RemoveRepository(name, config, fx).trace)
  {
    GuardedWrites(config, fx, RemoveUnderLock(name, config, fx));
  }

  /** After a successful create, `RemoveRepository`'s steps are: the create's steps, the lock
      attempt, the load, the write when the name was found, and the release when the lock is
      held. */
  lemma RemoveStepOrder(name: string, config: string, fx: Effects)
    requires CreateFileIfNotThere(config, fx).result.Ok?
    ensures RemoveRepository(name, config, fx).trace
              == CreateFileIfNotThere(config, fx).trace + [Lock(config), Load(config)]
                 + (if Removes(name, fx) then [Write(config, fx.remove(fx.load.value, name).file)] else [])
                 + (if fx.lock.Held() then [Unlock(config)] else [])
  {
    var created := CreateFileIfNotThere(config, fx).trace;
    var written := if Removes(name, fx) then [Write(config, fx.remove(fx.load.value, name).file)] else [];
    assert RemoveUnderLock(name, config, fx).trace == [Load(config)] + written;
    assert created + [Lock(config)] + ([Load(config)] + written)
        == created + [Lock(config), Load(config)] + written;
  }

  /** The steps `RemoveRepository` checks, in order; the write only when the name was found. */
  function RemoveSteps(name: string, config: string, fx: Effects): seq<Outcome>
  {
    [CreateFileIfNotThere(config, fx).result, fx.load.ToOutcome()]
      + (if Removes(name, fx) then [fx.write] else [])
  }

  /** `RemoveRepository` reports the first failing step among create, load and (when the name
      was found) write, and never the lock's error. */
  lemma RemoveReportsFirstFailure(name: string, config: string, fx: Effects)
    ensures RemoveRepository(name, config, fx).result == FirstFailure(RemoveSteps(name, config, fx))
  {
    var steps := RemoveSteps(name, config, fx);
    var o := FirstFailure(steps);
    if o.Err? {
      var k :| 0 <= k < |steps| && steps[k] == o && forall j :: 0 <= j < k ==> steps[j].Ok?;
      if k == 0 {
      } else if k == 1 {
        assert steps[0].Ok?;
      } else {
        assert steps[0].Ok? && steps[1].Ok?;
      }
    } else {
      assert steps[0].Ok? && steps[1].Ok?;
      if Removes(name, fx) {
        assert steps[2].Ok?;
      }
    }
  }

  /** The part of `UpdateRepository` after the lock attempt; like removal, it does not check the
      lock error. */
  function UpdateUnderLock(name: string, url: string, config: string, fx: Effects): (r: Run)
    ensures forall s :: s in r.trace ==> s.Load? || s.Write?
    ensures Load(config) in r.trace
    ensures WriteAttempted(r.trace) <==> fx.load.Success?
    ensures forall s :: s in r.trace && s.Write? ==>
              fx.load.Success? && s == Write(config, fx.update(fx.load.value, NewEntry(name, url)))
  {
    if fx.load.Failure? then Run(fx.load.ToOutcome(), [Load(config)])
    else
      var written := Write(config, fx.update(fx.load.value, NewEntry(name, url)));
      var trace := [Load(config), written];
      assert written in trace;
      Run(fx.write, trace)
  }

  /** `UpdateRepository`: create the config if needed, try the lock, load the file and write it
      back with the entry updated; no index is downloaded. */
  function UpdateRepository(name: string, url: string, config: string, fx: Effects): (r: Run)
    ensures r.result.Ok? ==> WriteAttempted(r.trace) && fx.write.Ok?
    ensures forall s :: s in r.trace ==> !s.NewChartRepository? && !s.DownloadIndex?
  {
    var body := UpdateUnderLock(name, url, config, fx);
    GuardedWrites(config, fx, body);
    Guarded(config, fx, body)
  }

  /** `UpdateRepository` attempts the lock only after a successful create and releases it once,
      as its last step, exactly when the lock was taken without error. */
  lemma UpdateReleasesLockOnce(name: string, url: string, config: string, fx: Effects)
    ensures var created := CreateFileIfNotThere(config, fx).result;
            var r := UpdateRepository(name, url, config, fx);
            && (Lock(config) in r.trace <==> created.Ok?)
            && ReleasedOnceIff(r.trace, config, created.Ok? && fx.lock.Held())
  {
    GuardedReleasesOnce(config, fx, UpdateUnderLock(name, url, config, fx));
  }

  /** `UpdateRepository` loads the file whenever the create succeeded, whatever the lock attempt
      returned, and writes the loaded file updated with the given name and URL exactly when the
      load succeeded. */
  lemma UpdateIgnoresLockError(name: string, url: string, config: string, fx: Effects)
    ensures var created := CreateFileIfNotThere(config, fx).result;
            var r := UpdateRepository(name, url, config, fx);
            Load(config) in r.trace <==> created.Ok?
    ensures var created := CreateFileIfNotThere(config, fx).result;
            var r := UpdateRepository(name, url, config, fx);
            WriteAttempted(r.trace) <==> created.Ok? && fx.load.Success?
    ensures var r := UpdateRepository(name, url, config, fx);
            forall s :: s in r.trace && s.Write? ==>
              fx.load.Success? && s == Write(config, fx.update(fx.load.value, NewEntry(name, url)))
  {
    var body := UpdateUnderLock(name, url, config, fx);
    GuardedLoads(config, fx, body);
    GuardedWrites(config, fx, body);
  }

  /** After a successful create, `UpdateRepository`'s steps are: the create's steps, the lock
      attempt, the load, the write when the load succeeded, and the release when the lock is
      held. */
  lemma UpdateStepOrder(name: string, url: string, config: string, fx: Effects)
    requires CreateFileIfNotThere(config, fx).result.Ok?
    ensures UpdateRepository(name, url, config, fx).trace
              == CreateFileIfNotThere(config, fx).trace + [Lock(config), Load(config)]
                 + (if fx.load.Success? then [Write(config, fx.update(fx.load.value, NewEntry(name, url)))] else [])
                 + (if fx.lock.Held() then [Unlock(config)] else [])
  {
    var created := CreateFileIfNotThere(config, fx).trace;
    var written := if fx.load.Success? then [Write(config, fx.update(fx.load.value, NewEntry(name, url)))] else [];
    assert UpdateUnderLock(name, url, config, fx).trace == [Load(config)] + written;
    assert created + [Lock(config)] + ([Load(config)] + written)
        == created + [Lock(config), Load(config)] + written;
  }

  /** The steps `UpdateRepository` checks, in order. */
  function UpdateSteps(config: string, fx: Effects): seq<Outcome>
  {
    [CreateFileIfNotThere(config, fx).result, fx.load.ToOutcome(), fx.write]
  }

  /** `UpdateRepository` reports the first failing step among create, load and write, and never
      the lock's error. */
  lemma UpdateReportsFirstFailure(name: string, url: string, config: string, fx: Effects)
    ensures UpdateRepository(name, url, config, fx).result == FirstFailure(UpdateSteps(config, fx))
  {
    var steps := UpdateSteps(config, fx);
    var o := FirstFailure(steps);
    if o.Err? {
      var k :| 0 <= k < |steps| && steps[k] == o && forall j :: 0 <= j < k ==> steps[j].Ok?;
      if k == 0 {
      } else if k == 1 {
        assert steps[0].Ok?;
      } else {
        assert steps[0].Ok? && steps[1].Ok?;
      }
    } else {
      assert steps[0].Ok? && steps[1].Ok? && steps[2].Ok?;
    }
  }

  /** `listRepositories`: create the config if needed and load it, without taking the lock, then
      project every entry to its name and URL, keeping length and order. */
  method ListRepositories(config: string, fx: Effects) returns (r: Result<seq<RepositoryInfo>>, trace: seq<Step>)
    ensures var created := CreateFileIfNotThere(config, fx).result;
            created.Err? ==> r == Failure(created.error)
    ensures var created := CreateFileIfNotThere(config, fx).result;
            created.Ok? && fx.load.Failure? ==> r == Failure(fx.load.error)
    ensures var created := CreateFileIfNotThere(config, fx).result;
            r.Success? <==> created.Ok? && fx.load.Success?
    ensures r.Success? ==>
              var entries := fx.load.value.repositories;
              && |r.value| == |entries|
              && forall i :: 0 <= i < |entries| ==>
                   r.value[i].name == entries[i].name && r.value[i].url == entries[i].url
    ensures var created := CreateFileIfNotThere(config, fx).result;
            Load(config) in trace <==> created.Ok?
    ensures LockFree(trace) && !WriteAttempted(trace)
  {
    var created := CreateFileIfNotThere(config, fx);
    trace := created.trace;
    if created.result.Err? {
      return Failure(created.result.error), trace;
    }
    WriteAttemptedConcat(trace, [Load(config)]);
    trace := trace + [Load(config)];
    if fx.load.Failure? {
      return Failure(fx.load.error), trace;
    }
    var entries := fx.load.value.repositories;
    var infos: seq<RepositoryInfo> := [];
    for i := 0 to |entries|
      invariant |infos| == i
      invariant forall k :: 0 <= k < i ==> infos[k] == RepositoryInfo(entries[k].name, entries[k].url)
    {
      infos := infos + [RepositoryInfo(entries[i].name, entries[i].url)];
    }
    r := Success(infos);
  }
}
