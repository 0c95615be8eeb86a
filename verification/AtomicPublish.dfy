/**
 * The two-phase file publication of the differential timing benchmark: move every existing
 * target aside, move every prepared file into place, then delete the backups; on any failure
 * before the last installation, undo in reverse order.
 *
 * Every rename, removal and test either happens or fails without effect, and a failed write or
 * format may leave anything in its own file. Which of these happens is left open, so each contract
 * below speaks about every failure schedule. The disk also records its contents after each
 * operation: a statement about all recorded contents is a statement about a crash between any
 * two steps.
 */
module AtomicPublish {
  import opened Options

  type Path = string
  type Bytes = seq<nat>
  type Files = map<Path, Bytes>

  class Disk {
    var files: Files
    // The contents after each operation since recording started, oldest first.
    ghost var trace: seq<Files>
    // The number of operations that failed.
    ghost var faults: nat

    constructor (initial: Files)
      ensures files == initial && trace == [initial] && faults == 0
    {
      files := initial;
      trace := [initial];
      faults := 0;
    }

    // A rename of a missing file always fails; any other rename may fail.
    method Rename(source: Path, dest: Path) returns (ok: bool)
      modifies this
      ensures ok ==> source in old(files) && files == (old(files) - {source})[dest := old(files)[source]]
      ensures !ok ==> files == old(files)
      ensures trace == old(trace) + [files] && faults == old(faults) + if ok then 0 else 1
    {
      ok := *;
      ok := ok && source in files;
      if ok {
        files := (files - {source})[dest := files[source]];
      } else {
        faults := faults + 1;
      }
      trace := trace + [files];
    }

    // Removal with `force`: removing a missing file is not an error.
    method Remove(path: Path) returns (ok: bool)
      modifies this
      ensures files == if ok then old(files) - {path} else old(files)
      ensures trace == old(trace) + [files] && faults == old(faults) + if ok then 0 else 1
    {
      ok := *;
      if ok {
        files := files - {path};
      } else {
        faults := faults + 1;
      }
      trace := trace + [files];
    }

    // A write that refuses an existing file (the flag `wx`).
    method WriteNew(path: Path, contents: Bytes) returns (ok: bool)
      modifies this
      ensures ok ==> path !in old(files) && files == old(files)[path := contents]
      ensures !ok ==> SameElsewhere(files, old(files), path)
      ensures path in old(files) ==> !ok && files == old(files)
      ensures trace == old(trace) + [files] && faults == old(faults) + if ok then 0 else 1
    {
      ok := *;
      ok := ok && path !in files;
      if ok {
        files := files[path := contents];
      } else {
        if path !in files {
          var partial: Option<Bytes> := *;
          files := if partial.Some? then files[path := partial.value] else files;
        }
        faults := faults + 1;
      }
      trace := trace + [files];
    }

    // The external formatter, rewriting one file.
    method Format(path: Path, format: Bytes -> Bytes) returns (ok: bool)
      modifies this
      ensures ok ==> path in old(files) && files == old(files)[path := format(old(files)[path])]
      ensures !ok ==> SameElsewhere(files, old(files), path)
      ensures trace == old(trace) + [files] && faults == old(faults) + if ok then 0 else 1
    {
      ok := *;
      ok := ok && path in files;
      if ok {
        files := files[path := format(files[path])];
      } else {
        var partial: Option<Bytes> := *;
        files := if partial.Some? then files[path := partial.value] else files - {path};
        faults := faults + 1;
      }
      trace := trace + [files];
    }

    method Read(path: Path) returns (bytes: Option<Bytes>)
      modifies this`faults
      ensures bytes.Some? ==> path in files && bytes.value == files[path]
      ensures faults == old(faults) + if bytes.Some? then 0 else 1
    {
      var ok: bool := *;
      if ok && path in files {
        bytes := Some(files[path]);
      } else {
        bytes := None;
        faults := faults + 1;
      }
    }

    // The existence test answers truthfully or fails.
    method Exists(path: Path) returns (answer: Option<bool>)
      modifies this`faults
      ensures answer.Some? ==> answer.value == (path in files)
      ensures faults == old(faults) + if answer.Some? then 0 else 1
    {
      var ok: bool := *;
      if ok {
        answer := Some(path in files);
      } else {
        answer := None;
        faults := faults + 1;
      }
    }
  }

  // Contents that differ at most at one path.
  ghost predicate SameElsewhere(fs: Files, fs1: Files, path: Path) {
    fs - {path} == fs1 - {path}
  }

  datatype Prepared = Prepared(target: Path, temporary: Path)

  // One entry of an error list: which captured operation failed.
  datatype Failure =
    | RemoveTarget(path: Path)
    | RestoreBackup(path: Path)
    | RemoveTemporary(path: Path)
    | RemoveBackup(path: Path)

  datatype Outcome =
    | Published
    | BackupsLeft(errors: seq<Failure>)
    | RolledBack(errors: seq<Failure>)

  // ----- what the paths of one run must satisfy -----

  // Targets, temporaries and backup names are pairwise distinct, and no backup name is in use.
  ghost predicate ValidPlan(fs0: Files, files: seq<Prepared>, names: seq<Path>)
  {
    && |files| == |names|
    && (forall i, j :: 0 <= i < j < |files| ==>
          && files[i].target != files[j].target
          && files[i].temporary != files[j].temporary
          && names[i] != names[j])
    && (forall i, j :: 0 <= i < |files| && 0 <= j < |files| ==>
          && files[i].target != files[j].temporary
          && files[i].target != names[j]
          && files[i].temporary != names[j])
    && (forall i :: 0 <= i < |names| ==> names[i] !in fs0)
  }

  ghost predicate Same(fs: Files, fs0: Files, p: Path) {
    (p in fs <==> p in fs0) && (p in fs ==> fs[p] == fs0[p])
  }

  // A path this run has nothing to do with.
  ghost predicate Unrelated(files: seq<Prepared>, names: seq<Path>, p: Path)
    requires |files| == |names|
  {
    forall i :: 0 <= i < |files| ==> p != files[i].target && p != files[i].temporary && p != names[i]
  }

  ghost predicate UnrelatedKept(fs: Files, fs0: Files, files: seq<Prepared>, names: seq<Path>)
    requires |files| == |names|
  {
    forall p :: Unrelated(files, names, p) ==> Same(fs, fs0, p)
  }

  // ----- the two safety guarantees a crash may leave behind -----

  ghost predicate OldBytesKept(fs: Files, fs0: Files, f: Prepared, name: Path) {
    f.target in fs0 ==>
      || (f.target in fs && fs[f.target] == fs0[f.target])
      || (name in fs && fs[name] == fs0[f.target])
  }

  // Every pre-existing target's old bytes are at the target or at its backup.
  ghost predicate NothingLost(fs: Files, fs0: Files, files: seq<Prepared>, names: seq<Path>)
    requires |files| == |names|
  {
    && UnrelatedKept(fs, fs0, files, names)
    && forall i :: 0 <= i < |files| ==> OldBytesKept(fs, fs0, files[i], names[i])
  }

  // Every target holds its prepared bytes.
  ghost predicate AllNew(fs: Files, fs0: Files, files: seq<Prepared>, names: seq<Path>)
    requires |files| == |names|
  {
    && UnrelatedKept(fs, fs0, files, names)
    && forall i :: 0 <= i < |files| ==>
         && files[i].temporary in fs0
         && files[i].target in fs
         && fs[files[i].target] == fs0[files[i].temporary]
  }

  // ----- the stages one file goes through -----

  ghost predicate Untouched(fs: Files, fs0: Files, f: Prepared, name: Path) {
    Same(fs, fs0, f.target) && Same(fs, fs0, f.temporary) && name !in fs
  }

  ghost predicate BackedUp(fs: Files, fs0: Files, f: Prepared, name: Path) {
    if f.target in fs0 then name in fs && fs[name] == fs0[f.target] else name !in fs
  }

  ghost predicate Vacated(fs: Files, fs0: Files, f: Prepared, name: Path) {
    f.target !in fs && Same(fs, fs0, f.temporary) && BackedUp(fs, fs0, f, name)
  }

  ghost predicate HasNew(fs: Files, fs0: Files, f: Prepared) {
    f.temporary in fs0 && f.target in fs && fs[f.target] == fs0[f.temporary]
  }

  ghost predicate Installed(fs: Files, fs0: Files, f: Prepared, name: Path) {
    HasNew(fs, fs0, f) && f.temporary !in fs && BackedUp(fs, fs0, f, name)
  }

  // Where a run stands: `moved` files are past the backup phase, `placed` are installed.
  ghost predicate Progress(fs: Files, fs0: Files, files: seq<Prepared>, names: seq<Path>, moved: nat, placed: nat)
    requires |files| == |names|
  {
    && placed <= moved <= |files|
    && UnrelatedKept(fs, fs0, files, names)
    && (forall i :: 0 <= i < placed ==> Installed(fs, fs0, files[i], names[i]))
    && (forall i :: placed <= i < moved ==> Vacated(fs, fs0, files[i], names[i]))
    && (forall i :: moved <= i < |files| ==> Untouched(fs, fs0, files[i], names[i]))
  }

  // The backup list: one entry, in order, per moved file that existed.
  ghost predicate Backups(backups: seq<(Path, Path)>, owners: seq<nat>, fs0: Files,
                          files: seq<Prepared>, names: seq<Path>, moved: nat)
    requires |files| == |names|
  {
    && |backups| == |owners|
    && moved <= |files|
    && (forall q :: 0 <= q < |owners| ==>
          && owners[q] < moved
          && files[owners[q]].target in fs0
          && backups[q] == (files[owners[q]].target, names[owners[q]]))
    && (forall q, r :: 0 <= q < r < |owners| ==> owners[q] < owners[r])
    && (forall i :: 0 <= i < moved && files[i].target in fs0 ==> i in owners)
  }

  // ----- what a rollback leaves for one file, given which of its steps failed -----

  // Before the backups are moved back.
  ghost predicate HalfUndone(fs: Files, fs0: Files, f: Prepared, name: Path, moved: bool, placed: bool,
                             errors: seq<Failure>)
  {
    if placed then
      && BackedUp(fs, fs0, f, name)
      && f.temporary !in fs
      && (if RemoveTarget(f.target) in errors then HasNew(fs, fs0, f) else f.target !in fs)
    else if moved then Vacated(fs, fs0, f, name)
    else Untouched(fs, fs0, f, name)
  }

  // The target and its backup at the end.
  ghost predicate TargetUndone(fs: Files, fs0: Files, f: Prepared, name: Path, moved: bool, placed: bool,
                               errors: seq<Failure>)
  {
    if moved && f.target in fs0 && RestoreBackup(f.target) in errors then
      // not moved back: the old bytes are still in the backup
      && name in fs && fs[name] == fs0[f.target]
      && (if placed && RemoveTarget(f.target) in errors then HasNew(fs, fs0, f) else f.target !in fs)
    else
      // moved back, even over a new file that could not be removed
      && name !in fs
      && (if f.target !in fs0 && placed && RemoveTarget(f.target) in errors
          then HasNew(fs, fs0, f) else Same(fs, fs0, f.target))
  }

  ghost predicate TemporaryUndone(fs: Files, fs0: Files, f: Prepared, placed: bool, errors: seq<Failure>) {
    if !placed && RemoveTemporary(f.temporary) in errors then Same(fs, fs0, f.temporary) else f.temporary !in fs
  }

  // The whole disk after a rollback that started with `moved` and `placed` files.
  ghost predicate RolledBackTo(fs: Files, fs0: Files, files: seq<Prepared>, names: seq<Path>,
                               moved: nat, placed: nat, errors: seq<Failure>)
    requires |files| == |names|
  {
    && UnrelatedKept(fs, fs0, files, names)
    && forall i :: 0 <= i < |files| ==>
         && TargetUndone(fs, fs0, files[i], names[i], i < moved, i < placed, errors)
         && TemporaryUndone(fs, fs0, files[i], i < placed, errors)
  }

  // ----- the operations -----

  // The temporaries of the first n prepared files; a file that was never prepared has none.
  ghost function Temporaries(files: seq<Option<Prepared>>, n: nat): set<Path>
    requires n <= |files|
  {
    set i | 0 <= i < n && files[i].Some? :: files[i].value.temporary
  }

  ghost predicate DistinctTemporaries(files: seq<Option<Prepared>>) {
    forall i, j :: 0 <= i < j < |files| && files[i].Some? && files[j].Some? ==>
      files[i].value.temporary != files[j].value.temporary
  }

  // The record ends with the present contents.
  ghost predicate UpToDate(trace: seq<Files>, fs: Files) {
    trace != [] && trace[|trace| - 1] == fs
  }

  ghost predicate OnlyRemoved(fs: Files, fs1: Files, gone: set<Path>) {
    fs == fs1 - (fs1.Keys - fs.Keys) && fs1.Keys - fs.Keys <= gone
  }

  // Every contents recorded from some moment on are some earlier ones without some paths.
  ghost predicate LosesOnly(trace: seq<Files>, start: nat, fs1: Files, gone: set<Path>) {
    forall k :: start <= k < |trace| ==> OnlyRemoved(trace[k], fs1, gone)
  }

  lemma LosesOnlyMore(trace: seq<Files>, start: nat, fs1: Files, gone: set<Path>, fs: Files)
    requires LosesOnly(trace, start, fs1, gone) && OnlyRemoved(fs, fs1, gone)
    ensures LosesOnly(trace + [fs], start, fs1, gone)
  {
  }

  // One round of the loop below: `removed` or `errors` takes in the next temporary.
  ghost predicate Swept(removed: set<Path>, errors: seq<Failure>, files: seq<Option<Prepared>>, n: nat)
    requires n <= |files|
  {
    && removed <= Temporaries(files, n)
    && (forall t :: t in Temporaries(files, n) ==> t in removed || RemoveTemporary(t) in errors)
    && (forall e :: e in errors ==> e.RemoveTemporary? && e.path in Temporaries(files, n))
    && (DistinctTemporaries(files) ==> forall e :: e in errors ==> e.path !in removed)
  }

  lemma SweepStep(removed: set<Path>, errors: seq<Failure>, files: seq<Option<Prepared>>, n: nat)
    requires n < |files| && Swept(removed, errors, files, n)
    ensures files[n].None? ==> Swept(removed, errors, files, n + 1)
    ensures files[n].Some? ==> Swept(removed + {files[n].value.temporary}, errors, files, n + 1)
    ensures files[n].Some? ==> Swept(removed, errors + [RemoveTemporary(files[n].value.temporary)], files, n + 1)
  {
  }

  lemma SweptOnly(fs: Files, removed: set<Path>, errors: seq<Failure>, files: seq<Option<Prepared>>, n: nat)
    requires n <= |files| && Swept(removed, errors, files, n)
    ensures OnlyRemoved(fs - removed, fs, Temporaries(files, |files|))
  {
  }

  // Try to remove every temporary, collecting failures: nothing but temporaries ever goes, in
  // any intermediate state, and a temporary whose removal did not fail is gone. With distinct
  // temporaries, one whose removal failed was not removed.
  method RemovePreparedFiles(disk: Disk, files: seq<Option<Prepared>>)
    returns (errors: seq<Failure>, ghost removed: set<Path>)
    modifies disk
    ensures old(disk.trace) <= disk.trace
    ensures LosesOnly(disk.trace, |old(disk.trace)|, old(disk.files), Temporaries(files, |files|))
    ensures disk.files == old(disk.files) - removed
    ensures Swept(removed, errors, files, |files|)
    ensures UpToDate(old(disk.trace), old(disk.files)) ==> UpToDate(disk.trace, disk.files)
    ensures disk.faults == old(disk.faults) + |errors|
  {
    errors, removed := [], {};
    for n := 0 to |files|
      invariant old(disk.trace) <= disk.trace
      invariant LosesOnly(disk.trace, |old(disk.trace)|, old(disk.files), Temporaries(files, |files|))
      invariant disk.files == old(disk.files) - removed
      invariant Swept(removed, errors, files, n)
      invariant UpToDate(old(disk.trace), old(disk.files)) ==> UpToDate(disk.trace, disk.files)
      invariant disk.faults == old(disk.faults) + |errors|
    {
      SweepStep(removed, errors, files, n);
      ghost var before := disk.trace;
      if files[n].Some? {
        var ok := disk.Remove(files[n].value.temporary);
        if ok {
          removed := removed + {files[n].value.temporary};
        } else {
          errors := errors + [RemoveTemporary(files[n].value.temporary)];
        }
        SweptOnly(old(disk.files), removed, errors, files, n + 1);
        LosesOnlyMore(before, |old(disk.trace)|, old(disk.files), Temporaries(files, |files|), disk.files);
      }
    }
  }

  ghost predicate Safe(trace: seq<Files>, fs0: Files, files: seq<Prepared>, names: seq<Path>)
    requires |files| == |names|
  {
    forall k :: 0 <= k < |trace| ==> NothingLost(trace[k], fs0, files, names)
  }

  // Loop invariant of the first half of the catch block: files from n on have been dealt with.
  ghost predicate Removing(fs: Files, fs0: Files, files: seq<Prepared>, names: seq<Path>,
                           moved: nat, placed: nat, n: nat, errors: seq<Failure>)
    requires |files| == |names|
  {
    && n <= placed <= moved <= |files|
    && UnrelatedKept(fs, fs0, files, names)
    && (forall i :: 0 <= i < n ==> Installed(fs, fs0, files[i], names[i]))
    && (forall i :: n <= i < |files| ==> HalfUndone(fs, fs0, files[i], names[i], i < moved, i < placed, errors))
    && (forall e :: e in errors ==> e.RemoveTarget? && forall i :: 0 <= i < n ==> e.path != files[i].target)
  }

  // Two disks look the same to one file.
  ghost predicate Agree(fs: Files, fs1: Files, f: Prepared, name: Path) {
    Same(fs, fs1, f.target) && Same(fs, fs1, f.temporary) && Same(fs, fs1, name)
  }

  // A change confined to the paths of file n is invisible to every other file.
  lemma Confined(fs: Files, fs1: Files, fs0: Files, files: seq<Prepared>, names: seq<Path>, n: nat)
    requires ValidPlan(fs0, files, names)
    requires n < |files|
    requires forall p :: p != files[n].target && p != files[n].temporary && p != names[n] ==> Same(fs, fs1, p)
    ensures forall i :: 0 <= i < |files| && i != n ==> Agree(fs, fs1, files[i], names[i])
    ensures UnrelatedKept(fs1, fs0, files, names) ==> UnrelatedKept(fs, fs0, files, names)
  {
    forall p | UnrelatedKept(fs1, fs0, files, names) && Unrelated(files, names, p)
      ensures Same(fs, fs0, p)
    {
      assert Same(fs1, fs0, p) && Same(fs, fs1, p);
    }
  }

  lemma RemovingStep(fs: Files, fs1: Files, fs0: Files, files: seq<Prepared>, names: seq<Path>,
                     moved: nat, placed: nat, n: nat, errors: seq<Failure>, errors1: seq<Failure>)
    requires ValidPlan(fs0, files, names)
    requires Removing(fs1, fs0, files, names, moved, placed, n + 1, errors1)
    requires
      || (fs == fs1 - {files[n].target} && errors == errors1)
      || (fs == fs1 && errors == errors1 + [RemoveTarget(files[n].target)])
    ensures Removing(fs, fs0, files, names, moved, placed, n, errors)
    ensures NothingLost(fs, fs0, files, names)
  {
    Confined(fs, fs1, fs0, files, names, n);
    forall i | n <= i < |files|
      ensures HalfUndone(fs, fs0, files[i], names[i], i < moved, i < placed, errors)
    {
      if i != n {
        assert HalfUndone(fs1, fs0, files[i], names[i], i < moved, i < placed, errors1);
        assert files[i].target != files[n].target;
      }
    }
  }

  // First half of the catch block: take the installed files out again, last one first.
  method RemoveInstalled(disk: Disk, installed: seq<Path>, ghost fs0: Files, ghost files: seq<Prepared>,
                         ghost names: seq<Path>, ghost moved: nat)
    returns (errors: seq<Failure>)
    requires ValidPlan(fs0, files, names)
    requires Progress(disk.files, fs0, files, names, moved, |installed|)
    requires forall i :: 0 <= i < |installed| ==> installed[i] == files[i].target
    requires Safe(disk.trace, fs0, files, names)
    modifies disk
    ensures Removing(disk.files, fs0, files, names, moved, |installed|, 0, errors)
    ensures Safe(disk.trace, fs0, files, names)
    ensures disk.faults == old(disk.faults) + |errors|
  {
    errors := [];
    var n := |installed|;
    while n > 0
      invariant n >= 0
      invariant Removing(disk.files, fs0, files, names, moved, |installed|, n, errors)
      invariant Safe(disk.trace, fs0, files, names)
      invariant disk.faults == old(disk.faults) + |errors|
    {
      n := n - 1;
      ghost var before, errorsBefore := disk.files, errors;
      var ok := disk.Remove(installed[n]);
      if !ok {
        errors := errors + [RemoveTarget(installed[n])];
      }
      RemovingStep(disk.files, before, fs0, files, names, moved, |installed|, n, errors, errorsBefore);
    }
  }

  // The temporary once the installed targets have been dealt with, before the last cleanup.
  ghost predicate TemporaryKept(fs: Files, fs0: Files, f: Prepared, placed: bool) {
    if placed then f.temporary !in fs else Same(fs, fs0, f.temporary)
  }

  ghost predicate Restored(fs: Files, fs0: Files, f: Prepared, name: Path, moved: bool, placed: bool,
                           errors: seq<Failure>)
  {
    TargetUndone(fs, fs0, f, name, moved, placed, errors) && TemporaryKept(fs, fs0, f, placed)
  }

  // Loop invariant of the second half: the backups from q on have been dealt with.
  ghost predicate Restoring(fs: Files, fs0: Files, files: seq<Prepared>, names: seq<Path>, owners: seq<nat>,
                            moved: nat, placed: nat, q: nat, errors: seq<Failure>)
    requires |files| == |names|
  {
    && placed <= moved <= |files|
    && q <= |owners|
    && UnrelatedKept(fs, fs0, files, names)
    && (forall i :: 0 <= i < |files| ==>
          if i in owners[..q]
          then HalfUndone(fs, fs0, files[i], names[i], i < moved, i < placed, errors)
               && RestoreBackup(files[i].target) !in errors
          else Restored(fs, fs0, files[i], names[i], i < moved, i < placed, errors))
    && (forall e :: e in errors ==> e.RemoveTarget? || e.RestoreBackup?)
  }

  lemma RestoringSafe(fs: Files, fs0: Files, files: seq<Prepared>, names: seq<Path>, owners: seq<nat>,
                      moved: nat, placed: nat, q: nat, errors: seq<Failure>)
    requires |files| == |names|
    requires Restoring(fs, fs0, files, names, owners, moved, placed, q, errors)
    ensures NothingLost(fs, fs0, files, names)
  {
  }

  lemma RestoringStart(fs: Files, fs0: Files, files: seq<Prepared>, names: seq<Path>, backups: seq<(Path, Path)>,
                       owners: seq<nat>, moved: nat, placed: nat, errors: seq<Failure>)
    requires ValidPlan(fs0, files, names)
    requires Removing(fs, fs0, files, names, moved, placed, 0, errors)
    requires Backups(backups, owners, fs0, files, names, moved)
    ensures Restoring(fs, fs0, files, names, owners, moved, placed, |owners|, errors)
  {
  }

  lemma RestoringStep(fs: Files, fs1: Files, fs0: Files, files: seq<Prepared>, names: seq<Path>,
                      backups: seq<(Path, Path)>, owners: seq<nat>,
                      moved: nat, placed: nat, q: nat, errors: seq<Failure>, errors1: seq<Failure>)
    requires ValidPlan(fs0, files, names)
    requires Backups(backups, owners, fs0, files, names, moved)
    requires q < |owners|
    requires Restoring(fs1, fs0, files, names, owners, moved, placed, q + 1, errors1)
    requires
      || (backups[q].1 in fs1 && fs == (fs1 - {backups[q].1})[backups[q].0 := fs1[backups[q].1]] && errors == errors1)
      || (fs == fs1 && errors == errors1 + [RestoreBackup(backups[q].0)])
    ensures Restoring(fs, fs0, files, names, owners, moved, placed, q, errors)
  {
    var n := owners[q];
    assert owners[..q + 1] == owners[..q] + [n];
    Confined(fs, fs1, fs0, files, names, n);
    assert HalfUndone(fs1, fs0, files[n], names[n], n < moved, n < placed, errors1);
    assert n !in owners[..q];
    forall i | 0 <= i < |files| && i != n
      ensures if i in owners[..q]
              then HalfUndone(fs, fs0, files[i], names[i], i < moved, i < placed, errors)
                   && RestoreBackup(files[i].target) !in errors
              else Restored(fs, fs0, files[i], names[i], i < moved, i < placed, errors)
    {
      assert files[i].target != files[n].target;
      if i in owners[..q] {
        assert HalfUndone(fs1, fs0, files[i], names[i], i < moved, i < placed, errors1);
      } else {
        assert Restored(fs1, fs0, files[i], names[i], i < moved, i < placed, errors1);
      }
    }
  }

  // Second half of the catch block: move the backups back, last one first.
  method RestoreBackups(disk: Disk, backups: seq<(Path, Path)>, earlier: seq<Failure>, ghost fs0: Files,
                        ghost files: seq<Prepared>, ghost names: seq<Path>, ghost owners: seq<nat>,
                        ghost moved: nat, ghost placed: nat)
    returns (errors: seq<Failure>)
    requires ValidPlan(fs0, files, names)
    requires Backups(backups, owners, fs0, files, names, moved)
    requires Removing(disk.files, fs0, files, names, moved, placed, 0, earlier)
    requires Safe(disk.trace, fs0, files, names)
    modifies disk
    ensures Restoring(disk.files, fs0, files, names, owners, moved, placed, 0, errors)
    ensures Safe(disk.trace, fs0, files, names)
    ensures disk.faults + |earlier| == old(disk.faults) + |errors|
  {
    errors := earlier;
    RestoringStart(disk.files, fs0, files, names, backups, owners, moved, placed, errors);
    var q := |backups|;
    while q > 0
      invariant q >= 0
      invariant Restoring(disk.files, fs0, files, names, owners, moved, placed, q, errors)
      invariant Safe(disk.trace, fs0, files, names)
      invariant disk.faults + |earlier| == old(disk.faults) + |errors|
    {
      q := q - 1;
      ghost var before, errorsBefore := disk.files, errors;
      var ok := disk.Rename(backups[q].1, backups[q].0);
      if !ok {
        errors := errors + [RestoreBackup(backups[q].0)];
      }
      RestoringStep(disk.files, before, fs0, files, names, backups, owners, moved, placed, q, errors, errorsBefore);
      RestoringSafe(disk.files, fs0, files, names, owners, moved, placed, q, errors);
    }
  }

  ghost function AllPrepared(files: seq<Prepared>): seq<Option<Prepared>> {
    seq(|files|, i requires 0 <= i < |files| => Some(files[i]))
  }

  ghost function TemporarySet(files: seq<Prepared>): set<Path> {
    set i | 0 <= i < |files| :: files[i].temporary
  }

  lemma AllPreparedTemporaries(fs0: Files, files: seq<Prepared>, names: seq<Path>)
    requires ValidPlan(fs0, files, names)
    ensures Temporaries(AllPrepared(files), |files|) == TemporarySet(files)
    ensures DistinctTemporaries(AllPrepared(files))
    ensures forall i :: 0 <= i < |files| ==>
              files[i].temporary in TemporarySet(files) && files[i].target !in TemporarySet(files)
              && names[i] !in TemporarySet(files)
    ensures forall p :: Unrelated(files, names, p) ==> p !in TemporarySet(files)
  {
    var all := AllPrepared(files);
    forall p ensures p in Temporaries(all, |files|) <==> p in TemporarySet(files) {
      if p in TemporarySet(files) {
        var i :| 0 <= i < |files| && files[i].temporary == p;
        assert all[i].Some? && all[i].value.temporary == p;
      }
    }
    forall i, j | 0 <= i < j < |all|
      ensures all[i].value.temporary != all[j].value.temporary
    {
      assert files[i].temporary != files[j].temporary;
    }
  }

  // Removing temporaries cannot touch a target, a backup or an unrelated path.
  lemma SweepSafe(fs: Files, fs1: Files, fs0: Files, files: seq<Prepared>, names: seq<Path>)
    requires ValidPlan(fs0, files, names)
    requires OnlyRemoved(fs, fs1, TemporarySet(files))
    ensures forall p :: p !in TemporarySet(files) ==> Same(fs, fs1, p)
    ensures NothingLost(fs1, fs0, files, names) ==> NothingLost(fs, fs0, files, names)
    ensures AllNew(fs1, fs0, files, names) ==> AllNew(fs, fs0, files, names)
  {
  }

  lemma RollbackFinish(fs: Files, fs1: Files, fs0: Files, files: seq<Prepared>, names: seq<Path>, owners: seq<nat>,
                       moved: nat, placed: nat, errors: seq<Failure>, removed: set<Path>, more: seq<Failure>)
    requires ValidPlan(fs0, files, names)
    requires Restoring(fs1, fs0, files, names, owners, moved, placed, 0, errors)
    requires fs == fs1 - removed && Swept(removed, more, AllPrepared(files), |files|)
    ensures RolledBackTo(fs, fs0, files, names, moved, placed, errors + more)
  {
    AllPreparedTemporaries(fs0, files, names);
    forall p | Unrelated(files, names, p)
      ensures Same(fs, fs0, p)
    {
      assert Same(fs1, fs0, p);
    }
    forall i | 0 <= i < |files|
      ensures TargetUndone(fs, fs0, files[i], names[i], i < moved, i < placed, errors + more)
      ensures TemporaryUndone(fs, fs0, files[i], i < placed, errors + more)
    {
      assert i !in owners[..0];
      assert Restored(fs1, fs0, files[i], names[i], i < moved, i < placed, errors);
      assert files[i].target !in removed && names[i] !in removed;
      assert RemoveTemporary(files[i].temporary) !in errors;
    }
  }

  // The catch block of the publication.
  method Rollback(disk: Disk, files: seq<Prepared>, backups: seq<(Path, Path)>, installed: seq<Path>,
                  ghost fs0: Files, ghost names: seq<Path>, ghost owners: seq<nat>, ghost moved: nat)
    returns (errors: seq<Failure>)
    requires ValidPlan(fs0, files, names)
    requires Progress(disk.files, fs0, files, names, moved, |installed|)
    requires forall i :: 0 <= i < |installed| ==> installed[i] == files[i].target
    requires Backups(backups, owners, fs0, files, names, moved)
    requires Safe(disk.trace, fs0, files, names)
    modifies disk
    ensures RolledBackTo(disk.files, fs0, files, names, moved, |installed|, errors)
    ensures Safe(disk.trace, fs0, files, names)
    ensures disk.faults == old(disk.faults) + |errors|
  {
    errors := RemoveInstalled(disk, installed, fs0, files, names, moved);
    errors := RestoreBackups(disk, backups, errors, fs0, files, names, owners, moved, |installed|);
    RestoringSafe(disk.files, fs0, files, names, owners, moved, |installed|, 0, errors);
    ghost var before := disk.files;
    var prepared := seq(|files|, i requires 0 <= i < |files| => Some(files[i]));
    assert prepared == AllPrepared(files);
    var more, removed := RemovePreparedFiles(disk, prepared);
    RollbackFinish(disk.files, before, fs0, files, names, owners, moved, |installed|, errors, removed, more);
    errors := errors + more;
    SweptTraceSafe(disk.trace, before, fs0, files, names);
  }

  lemma SweptTraceSafe(trace: seq<Files>, fs1: Files, fs0: Files, files: seq<Prepared>, names: seq<Path>)
    requires ValidPlan(fs0, files, names)
    requires NothingLost(fs1, fs0, files, names)
    ensures forall k :: 0 <= k < |trace| && OnlyRemoved(trace[k], fs1, Temporaries(AllPrepared(files), |files|)) ==>
              NothingLost(trace[k], fs0, files, names)
  {
  }

  lemma ProgressSafe(fs: Files, fs0: Files, files: seq<Prepared>, names: seq<Path>, moved: nat, placed: nat)
    requires |files| == |names|
    requires Progress(fs, fs0, files, names, moved, placed)
    ensures NothingLost(fs, fs0, files, names)
    ensures placed == |files| ==> AllNew(fs, fs0, files, names)
  {
  }

  lemma BackUpStep(fs: Files, fs1: Files, fs0: Files, files: seq<Prepared>, names: seq<Path>, n: nat)
    requires ValidPlan(fs0, files, names)
    requires n < |files|
    requires Progress(fs1, fs0, files, names, n, 0)
    requires
      || (files[n].target !in fs1 && fs == fs1)
      || (files[n].target in fs1 && fs == (fs1 - {files[n].target})[names[n] := fs1[files[n].target]])
    ensures Progress(fs, fs0, files, names, n + 1, 0)
  {
    Confined(fs, fs1, fs0, files, names, n);
    assert Untouched(fs1, fs0, files[n], names[n]);
    forall i | 0 <= i < |files| && i != n
      ensures if i < n then Vacated(fs, fs0, files[i], names[i]) else Untouched(fs, fs0, files[i], names[i])
    {
      assert if i < n then Vacated(fs1, fs0, files[i], names[i]) else Untouched(fs1, fs0, files[i], names[i]);
    }
    assert Vacated(fs, fs0, files[n], names[n]);
  }

  lemma InstallStep(fs: Files, fs1: Files, fs0: Files, files: seq<Prepared>, names: seq<Path>, n: nat)
    requires ValidPlan(fs0, files, names)
    requires n < |files|
    requires Progress(fs1, fs0, files, names, |files|, n)
    requires files[n].temporary in fs1
    requires fs == (fs1 - {files[n].temporary})[files[n].target := fs1[files[n].temporary]]
    ensures Progress(fs, fs0, files, names, |files|, n + 1)
  {
    Confined(fs, fs1, fs0, files, names, n);
    assert Vacated(fs1, fs0, files[n], names[n]);
    forall i | 0 <= i < |files| && i != n
      ensures if i < n then Installed(fs, fs0, files[i], names[i]) else Vacated(fs, fs0, files[i], names[i])
    {
      assert if i < n then Installed(fs1, fs0, files[i], names[i]) else Vacated(fs1, fs0, files[i], names[i]);
    }
    assert files[n].target != files[n].temporary && files[n].target != names[n];
    assert Installed(fs, fs0, files[n], names[n]);
  }

  lemma BackupsStep(backups: seq<(Path, Path)>, owners: seq<nat>, fs0: Files,
                    files: seq<Prepared>, names: seq<Path>, n: nat)
    requires |files| == |names| && n < |files|
    requires Backups(backups, owners, fs0, files, names, n)
    ensures files[n].target in fs0 ==>
              Backups(backups + [(files[n].target, names[n])], owners + [n], fs0, files, names, n + 1)
    ensures files[n].target !in fs0 ==> Backups(backups, owners, fs0, files, names, n + 1)
  {
  }

  // First loop: move each existing target to its backup name.
  method BackUpTargets(disk: Disk, files: seq<Prepared>, names: seq<Path>, ghost fs0: Files)
    returns (ok: bool, backups: seq<(Path, Path)>, ghost owners: seq<nat>, ghost moved: nat)
    requires ValidPlan(fs0, files, names)
    requires disk.files == fs0 && Safe(disk.trace, fs0, files, names) && UpToDate(disk.trace, fs0)
    modifies disk
    ensures moved <= |files| && (ok <==> moved == |files|)
    ensures Progress(disk.files, fs0, files, names, moved, 0)
    ensures Backups(backups, owners, fs0, files, names, moved)
    ensures Safe(disk.trace, fs0, files, names)
    ensures UpToDate(disk.trace, disk.files)
    ensures disk.faults == old(disk.faults) + if ok then 0 else 1
  {
    backups, owners, moved := [], [], 0;
    ProgressSafe(disk.files, fs0, files, names, 0, 0);
    for n := 0 to |files|
      invariant moved == n
      invariant Progress(disk.files, fs0, files, names, n, 0)
      invariant Backups(backups, owners, fs0, files, names, n)
      invariant Safe(disk.trace, fs0, files, names)
      invariant UpToDate(disk.trace, disk.files)
      invariant disk.faults == old(disk.faults)
    {
      ghost var before := disk.files;
      assert Untouched(before, fs0, files[n], names[n]);
      BackupsStep(backups, owners, fs0, files, names, n);
      var found := disk.Exists(files[n].target);
      if found.None? {
        return false, backups, owners, moved;
      }
      if found.value {
        var renamed := disk.Rename(files[n].target, names[n]);
        if !renamed {
          ProgressSafe(disk.files, fs0, files, names, n, 0);
          return false, backups, owners, moved;
        }
        backups, owners := backups + [(files[n].target, names[n])], owners + [n];
      }
      BackUpStep(disk.files, before, fs0, files, names, n);
      ProgressSafe(disk.files, fs0, files, names, n + 1, 0);
      moved := n + 1;
    }
    ok := true;
  }

  // Second loop: move each prepared file to its target.
  method InstallPrepared(disk: Disk, files: seq<Prepared>, ghost names: seq<Path>, ghost fs0: Files)
    returns (ok: bool, installed: seq<Path>)
    requires ValidPlan(fs0, files, names)
    requires Progress(disk.files, fs0, files, names, |files|, 0)
    requires Safe(disk.trace, fs0, files, names)
    requires UpToDate(disk.trace, disk.files)
    modifies disk
    ensures |installed| <= |files| && (ok <==> |installed| == |files|)
    ensures forall i :: 0 <= i < |installed| ==> installed[i] == files[i].target
    ensures Progress(disk.files, fs0, files, names, |files|, |installed|)
    ensures Safe(disk.trace, fs0, files, names)
    ensures UpToDate(disk.trace, disk.files)
    ensures disk.faults == old(disk.faults) + if ok then 0 else 1
  {
    installed := [];
    for n := 0 to |files|
      invariant |installed| == n
      invariant forall i :: 0 <= i < |installed| ==> installed[i] == files[i].target
      invariant Progress(disk.files, fs0, files, names, |files|, n)
      invariant Safe(disk.trace, fs0, files, names)
      invariant UpToDate(disk.trace, disk.files)
      invariant disk.faults == old(disk.faults)
    {
      ghost var before := disk.files;
      var renamed := disk.Rename(files[n].temporary, files[n].target);
      if !renamed {
        ProgressSafe(disk.files, fs0, files, names, |files|, n);
        return false, installed;
      }
      InstallStep(disk.files, before, fs0, files, names, n);
      ProgressSafe(disk.files, fs0, files, names, |files|, n + 1);
      installed := installed + [files[n].target];
    }
    ok := true;
  }

  // One file after the commit point: new bytes in place, no temporary, and a backup only if its
  // removal failed (in which case it still holds the old bytes).
  ghost predicate Replaced(fs: Files, fs0: Files, f: Prepared, name: Path, errors: seq<Failure>) {
    && HasNew(fs, fs0, f)
    && f.temporary !in fs
    && (if RemoveBackup(name) in errors then f.target in fs0 && name in fs && fs[name] == fs0[f.target]
        else name !in fs)
  }

  // The whole disk after a publication whose cleanup failed on `errors`. Every path is unrelated,
  // a target, a temporary or a backup name, so this determines the contents completely.
  ghost predicate PublishedTo(fs: Files, fs0: Files, files: seq<Prepared>, names: seq<Path>, errors: seq<Failure>)
    requires |files| == |names|
  {
    && UnrelatedKept(fs, fs0, files, names)
    && forall i :: 0 <= i < |files| ==> Replaced(fs, fs0, files[i], names[i], errors)
  }

  // Loop invariant of the cleanup: the first q backups have been dealt with.
  ghost predicate Cleaning(fs: Files, fs0: Files, files: seq<Prepared>, names: seq<Path>, owners: seq<nat>,
                           q: nat, errors: seq<Failure>)
    requires |files| == |names|
  {
    && q <= |owners|
    && UnrelatedKept(fs, fs0, files, names)
    && (forall i :: 0 <= i < |files| ==>
          if i in owners[q..]
          then Installed(fs, fs0, files[i], names[i]) && RemoveBackup(names[i]) !in errors
          else Replaced(fs, fs0, files[i], names[i], errors))
  }

  lemma CleaningNew(fs: Files, fs0: Files, files: seq<Prepared>, names: seq<Path>, owners: seq<nat>,
                    q: nat, errors: seq<Failure>)
    requires |files| == |names|
    requires Cleaning(fs, fs0, files, names, owners, q, errors)
    ensures AllNew(fs, fs0, files, names)
  {
  }

  lemma CleaningStart(fs: Files, fs0: Files, files: seq<Prepared>, names: seq<Path>, backups: seq<(Path, Path)>,
                      owners: seq<nat>)
    requires ValidPlan(fs0, files, names)
    requires Progress(fs, fs0, files, names, |files|, |files|)
    requires Backups(backups, owners, fs0, files, names, |files|)
    ensures Cleaning(fs, fs0, files, names, owners, 0, [])
  {
  }

  lemma CleaningStep(fs: Files, fs1: Files, fs0: Files, files: seq<Prepared>, names: seq<Path>,
                     backups: seq<(Path, Path)>, owners: seq<nat>,
                     q: nat, errors: seq<Failure>, errors1: seq<Failure>)
    requires ValidPlan(fs0, files, names)
    requires Backups(backups, owners, fs0, files, names, |files|)
    requires q < |owners|
    requires Cleaning(fs1, fs0, files, names, owners, q, errors1)
    requires
      || (fs == fs1 - {backups[q].1} && errors == errors1)
      || (fs == fs1 && errors == errors1 + [RemoveBackup(backups[q].1)])
    ensures Cleaning(fs, fs0, files, names, owners, q + 1, errors)
  {
  }

  // The cleanup after the commit point.
  method RemoveBackups(disk: Disk, backups: seq<(Path, Path)>, ghost fs0: Files, ghost files: seq<Prepared>,
                       ghost names: seq<Path>, ghost owners: seq<nat>)
    returns (errors: seq<Failure>)
    requires ValidPlan(fs0, files, names)
    requires Progress(disk.files, fs0, files, names, |files|, |files|)
    requires Backups(backups, owners, fs0, files, names, |files|)
    modifies disk
    ensures PublishedTo(disk.files, fs0, files, names, errors)
    ensures old(disk.trace) <= disk.trace
    ensures forall k :: |old(disk.trace)| <= k < |disk.trace| ==> AllNew(disk.trace[k], fs0, files, names)
    ensures disk.faults == old(disk.faults) + |errors|
  {
    errors := [];
    CleaningStart(disk.files, fs0, files, names, backups, owners);
    for q := 0 to |backups|
      invariant Cleaning(disk.files, fs0, files, names, owners, q, errors)
      invariant old(disk.trace) <= disk.trace
      invariant forall k :: |old(disk.trace)| <= k < |disk.trace| ==> AllNew(disk.trace[k], fs0, files, names)
      invariant disk.faults == old(disk.faults) + |errors|
    {
      ghost var before, errorsBefore := disk.files, errors;
      var ok := disk.Remove(backups[q].1);
      if !ok {
        errors := errors + [RemoveBackup(backups[q].1)];
      }
      CleaningStep(disk.files, before, fs0, files, names, backups, owners, q, errors, errorsBefore);
      CleaningNew(disk.files, fs0, files, names, owners, q + 1, errors);
    }
    assert owners[|owners|..] == [];
  }

  // ----- the publication -----

  // How many operations failed: the one that made it roll back, and the reported ones.
  function FailureCount(outcome: Outcome): nat {
    match outcome
    case Published => 0
    case BackupsLeft(errors) => |errors|
    case RolledBack(errors) => 1 + |errors|
  }

  // What a finished publication leaves on disk, by outcome.
  ghost predicate Settled(outcome: Outcome, fs: Files, fs0: Files, files: seq<Prepared>, names: seq<Path>,
                          moved: nat, placed: nat)
    requires |files| == |names|
  {
    match outcome
    case Published => PublishedTo(fs, fs0, files, names, [])
    case BackupsLeft(errors) => errors != [] && PublishedTo(fs, fs0, files, names, errors)
    case RolledBack(errors) =>
      placed <= moved <= |files| && placed < |files| && RolledBackTo(fs, fs0, files, names, moved, placed, errors)
  }

  // Every recorded state before the commit point still has all old bytes; every one from it on
  // has all new ones.
  ghost predicate CommitsAt(trace: seq<Files>, commit: nat, fs0: Files, files: seq<Prepared>, names: seq<Path>)
    requires |files| == |names|
  {
    && commit <= |trace|
    && (forall k :: 0 <= k < commit ==> NothingLost(trace[k], fs0, files, names))
    && (forall k :: commit <= k < |trace| ==> AllNew(trace[k], fs0, files, names))
  }

  // publishPreparedPair, for any number of files. `names` are the backup names the run would
  // pick; `commit` is the step at which the last prepared file was installed.
  method PublishPreparedPair(disk: Disk, files: seq<Prepared>, names: seq<Path>)
    returns (outcome: Outcome, ghost moved: nat, ghost placed: nat, ghost commit: nat)
    requires ValidPlan(disk.files, files, names)
    requires Safe(disk.trace, disk.files, files, names) && UpToDate(disk.trace, disk.files)
    modifies disk
    ensures Settled(outcome, disk.files, old(disk.files), files, names, moved, placed)
    ensures CommitsAt(disk.trace, commit, old(disk.files), files, names)
    // a rolled-back run never reaches the commit point, a published one does
    ensures outcome.RolledBack? <==> commit == |disk.trace|
    // a run publishes cleanly exactly when no operation fails; it rolls back on the first failure
    // before the commit point, and reports every later failure
    ensures outcome.Published? <==> disk.faults == old(disk.faults)
    ensures disk.faults == old(disk.faults) + FailureCount(outcome)
  {
    ghost var fs0 := disk.files;
    ghost var owners;
    var ok, backups, installed := false, [], [];
    ok, backups, owners, moved := BackUpTargets(disk, files, names, fs0);
    if ok {
      ok, installed := InstallPrepared(disk, files, names, fs0);
    }
    placed := |installed|;
    if !ok {
      var errors := Rollback(disk, files, backups, installed, fs0, names, owners, moved);
      commit := |disk.trace|;
      return RolledBack(errors), moved, placed, commit;
    }
    commit := |disk.trace| - 1;
    ProgressSafe(disk.files, fs0, files, names, |files|, |files|);
    var errors := RemoveBackups(disk, backups, fs0, files, names, owners);
    outcome := if errors == [] then Published else BackupsLeft(errors);
  }

  // A rollback without errors restores the original disk, less the temporaries.
  lemma CleanRollbackIsExact(fs: Files, fs0: Files, files: seq<Prepared>, names: seq<Path>, moved: nat, placed: nat)
    requires ValidPlan(fs0, files, names)
    requires RolledBackTo(fs, fs0, files, names, moved, placed, [])
    ensures fs == fs0 - TemporarySet(files)
  {
    forall p
      ensures if p in TemporarySet(files) then p !in fs else Same(fs, fs0, p)
    {
      if Unrelated(files, names, p) {
        assert Same(fs, fs0, p);
      } else {
        var i :| 0 <= i < |files| && (p == files[i].target || p == files[i].temporary || p == names[i]);
        assert TargetUndone(fs, fs0, files[i], names[i], i < moved, i < placed, []);
        assert TemporaryUndone(fs, fs0, files[i], i < placed, []);
        AllPreparedTemporaries(fs0, files, names);
      }
    }
  }

  // The end of the caller: publish, and on any throw sweep the temporaries once more.
  method PublishAndSweep(disk: Disk, files: seq<Prepared>, names: seq<Path>)
    returns (outcome: Outcome, swept: seq<Failure>, ghost published: Files, ghost moved: nat, ghost placed: nat)
    requires ValidPlan(disk.files, files, names)
    requires Safe(disk.trace, disk.files, files, names) && UpToDate(disk.trace, disk.files)
    modifies disk
    // `published` is what the publication itself left behind
    ensures Settled(outcome, published, old(disk.files), files, names, moved, placed)
    ensures outcome.Published? ==> disk.files == published && swept == []
    // the second sweep touches nothing but temporaries: no target, no backup, no other file; and
    // it leaves a temporary exactly if removing it failed once more
    ensures forall p :: p !in TemporarySet(files) ==> Same(disk.files, published, p)
    ensures !outcome.Published? ==> forall i :: 0 <= i < |files| ==>
              if RemoveTemporary(files[i].temporary) in swept then Same(disk.files, published, files[i].temporary)
              else files[i].temporary !in disk.files
    // every failed operation shows
    ensures disk.faults == old(disk.faults) + FailureCount(outcome) + |swept|
    ensures outcome == RolledBack([]) ==> disk.files == old(disk.files) - TemporarySet(files)
    // and the crash guarantee covers it too
    ensures forall k :: 0 <= k < |disk.trace| ==>
              || NothingLost(disk.trace[k], old(disk.files), files, names)
              || AllNew(disk.trace[k], old(disk.files), files, names)
  {
    ghost var fs0 := disk.files;
    ghost var commit;
    outcome, moved, placed, commit := PublishPreparedPair(disk, files, names);
    published := disk.files;
    swept := [];
    AllPreparedTemporaries(fs0, files, names);
    if outcome == RolledBack([]) {
      CleanRollbackIsExact(published, fs0, files, names, moved, placed);
    }
    if !outcome.Published? {
      ghost var length := |disk.trace|;
      var prepared := seq(|files|, i requires 0 <= i < |files| => Some(files[i]));
      assert prepared == AllPrepared(files);
      SettledSafe(outcome, published, fs0, files, names, moved, placed);
      ghost var removed;
      swept, removed := RemovePreparedFiles(disk, prepared);
      forall k | length <= k < |disk.trace|
        ensures NothingLost(disk.trace[k], fs0, files, names) || AllNew(disk.trace[k], fs0, files, names)
      {
        SweepSafe(disk.trace[k], published, fs0, files, names);
      }
    }
  }

  lemma SettledSafe(outcome: Outcome, fs: Files, fs0: Files, files: seq<Prepared>, names: seq<Path>,
                    moved: nat, placed: nat)
    requires |files| == |names|
    requires Settled(outcome, fs, fs0, files, names, moved, placed)
    ensures if outcome.RolledBack? then NothingLost(fs, fs0, files, names) else AllNew(fs, fs0, files, names)
  {
  }

  // ----- the whole caller -----

  // Only temporaries differ.
  ghost predicate OffTemporaries(fs: Files, fs0: Files, files: seq<Prepared>) {
    forall p :: p !in TemporarySet(files) ==> Same(fs, fs0, p)
  }

  ghost predicate FreshTemporaries(fs0: Files, files: seq<Prepared>) {
    forall i :: 0 <= i < |files| ==> files[i].temporary !in fs0
  }

  lemma OneTemporary(fs: Files, fs1: Files, fs0: Files, files: seq<Prepared>, i: nat)
    requires i < |files| && SameElsewhere(fs, fs1, files[i].temporary) && OffTemporaries(fs1, fs0, files)
    ensures OffTemporaries(fs, fs0, files)
  {
    forall p | p !in TemporarySet(files)
      ensures Same(fs, fs0, p)
    {
      assert Same(fs1, fs0, p) && p != files[i].temporary;
      assert p in fs - {files[i].temporary} <==> p in fs1 - {files[i].temporary};
    }
  }

  // Write, format and read back the temporary.
  method FormatFile(disk: Disk, temporary: Path, contents: Bytes, format: Bytes -> Bytes)
    returns (bytes: Option<Bytes>)
    modifies disk
    ensures old(disk.trace) <= disk.trace && UpToDate(disk.trace, disk.files)
    ensures forall k :: |old(disk.trace)| <= k < |disk.trace| ==>
              SameElsewhere(disk.trace[k], old(disk.files), temporary)
    ensures SameElsewhere(disk.files, old(disk.files), temporary)
    ensures bytes.Some? ==>
              && temporary !in old(disk.files)
              && bytes.value == format(contents)
              && disk.files == old(disk.files)[temporary := format(contents)]
    ensures disk.faults == old(disk.faults) + if bytes.Some? then 0 else 1
  {
    var ok := disk.WriteNew(temporary, contents);
    if !ok {
      return None;
    }
    ok := disk.Format(temporary, format);
    if !ok {
      return None;
    }
    bytes := disk.Read(temporary);
  }

  // prepareFormattedFile: without a result its temporary is removed again, unless that fails too,
  // which is then the one error reported beside the first.
  method PrepareFormattedFile(disk: Disk, temporary: Path, contents: Bytes, format: Bytes -> Bytes)
    returns (bytes: Option<Bytes>, errors: seq<Failure>)
    modifies disk
    ensures old(disk.trace) <= disk.trace && UpToDate(disk.trace, disk.files)
    ensures forall k :: |old(disk.trace)| <= k < |disk.trace| ==>
              SameElsewhere(disk.trace[k], old(disk.files), temporary)
    ensures SameElsewhere(disk.files, old(disk.files), temporary)
    ensures bytes.Some? ==>
              && temporary !in old(disk.files)
              && bytes.value == format(contents)
              && disk.files == old(disk.files)[temporary := format(contents)]
    ensures bytes.None? && errors == [] ==> disk.files == old(disk.files) - {temporary}
    ensures errors == [] || (bytes.None? && errors == [RemoveTemporary(temporary)])
    ensures disk.faults == old(disk.faults) + (if bytes.Some? then 0 else 1) + |errors|
  {
    bytes := FormatFile(disk, temporary, contents, format);
    errors := [];
    if bytes.None? {
      var ok := disk.Remove(temporary);
      if !ok {
        errors := [RemoveTemporary(temporary)];
      }
    }
  }

  // The contents once both files are prepared.
  ghost function BothPrepared(fs0: Files, report: Bytes, policy: Bytes, files: seq<Prepared>): Files
    requires |files| == 2
  {
    fs0[files[0].temporary := report][files[1].temporary := policy]
  }

  // Every contents recorded from some moment on differ only in temporaries.
  ghost predicate AllOff(trace: seq<Files>, start: nat, fs0: Files, files: seq<Prepared>) {
    forall k :: start <= k < |trace| ==> OffTemporaries(trace[k], fs0, files)
  }

  lemma PreparingIsOff(trace: seq<Files>, start: nat, fs1: Files, fs0: Files, files: seq<Prepared>, i: nat)
    requires i < |files| && OffTemporaries(fs1, fs0, files)
    requires forall k :: start <= k < |trace| ==> SameElsewhere(trace[k], fs1, files[i].temporary)
    ensures AllOff(trace, start, fs0, files)
  {
    forall k | start <= k < |trace|
      ensures OffTemporaries(trace[k], fs0, files)
    {
      OneTemporary(trace[k], fs1, fs0, files, i);
    }
  }

  // What preparing leaves when it does not get through: only temporaries differ, and one that was
  // not there before is left only if its removal is reported as failed.
  ghost predicate Undone(fs: Files, fs0: Files, files: seq<Prepared>, errors: seq<Failure>) {
    && OffTemporaries(fs, fs0, files)
    && forall i :: 0 <= i < |files| && files[i].temporary !in fs0 && files[i].temporary in fs ==>
         RemoveTemporary(files[i].temporary) in errors
  }

  lemma UndoneIsExact(fs: Files, fs0: Files, files: seq<Prepared>)
    requires Undone(fs, fs0, files, []) && FreshTemporaries(fs0, files)
    ensures fs == fs0
  {
    forall p
      ensures Same(fs, fs0, p)
    {
      if p in TemporarySet(files) {
        var i :| 0 <= i < |files| && files[i].temporary == p;
        assert p !in fs0 && p !in fs;
      }
    }
    assert forall p :: p in fs ==> Same(fs, fs0, p);
    assert forall p :: p in fs0 ==> Same(fs, fs0, p);
  }

  // Derive the policy from the formatted report and prepare it.
  method PreparePolicy(disk: Disk, report: Bytes, derive: Bytes -> Option<Bytes>, format: Bytes -> Bytes,
                       files: seq<Prepared>)
    returns (ready: bool, refused: bool, errors: seq<Failure>)
    requires |files| == 2 && UpToDate(disk.trace, disk.files)
    modifies disk
    ensures old(disk.trace) <= disk.trace && UpToDate(disk.trace, disk.files)
    ensures AllOff(disk.trace, |old(disk.trace)|, old(disk.files), files)
    ensures OffTemporaries(disk.files, old(disk.files), files)
    ensures refused <==> derive(report).None?
    ensures refused ==> !ready && disk.files == old(disk.files)
    ensures disk.faults == old(disk.faults) + (if ready || refused then 0 else 1) + |errors|
    ensures ready ==>
              && files[1].temporary !in old(disk.files)
              && disk.files == old(disk.files)[files[1].temporary := format(derive(report).value)]
    ensures ready || refused ==> errors == []
    ensures !ready && !refused ==> SameElsewhere(disk.files, old(disk.files), files[1].temporary)
    ensures !ready && !refused && files[1].temporary in disk.files ==> errors == [RemoveTemporary(files[1].temporary)]
  {
    assert OffTemporaries(disk.files, disk.files, files);
    var policy := derive(report);
    if policy.None? {
      return false, true, [];
    }
    var policyBytes;
    policyBytes, errors := PrepareFormattedFile(disk, files[1].temporary, policy.value, format);
    PreparingIsOff(disk.trace, |old(disk.trace)|, old(disk.files), old(disk.files), files, 1);
    ready, refused := policyBytes.Some?, false;
  }

  // The first half of the caller: prepare the report, derive the policy from its formatted bytes,
  // prepare the policy; on any throw sweep what was prepared. `refused` says that the throw was
  // the refusal to derive a policy; any other is a failed operation.
  method PrepareBoth(disk: Disk, report: Bytes, derive: Bytes -> Option<Bytes>, format: Bytes -> Bytes,
                     files: seq<Prepared>)
    returns (ready: bool, refused: bool, errors: seq<Failure>)
    requires |files| == 2 && files[0].temporary != files[1].temporary
    modifies disk
    ensures old(disk.trace) <= disk.trace && UpToDate(disk.trace, disk.files)
    ensures AllOff(disk.trace, |old(disk.trace)|, old(disk.files), files)
    ensures OffTemporaries(disk.files, old(disk.files), files)
    ensures refused ==> !ready && derive(format(report)).None?
    ensures ready ==> errors == []
    ensures disk.faults == old(disk.faults) + (if ready || refused then 0 else 1) + |errors|
    ensures ready ==>
              && FreshTemporaries(old(disk.files), files)
              && derive(format(report)).Some?
              && disk.files ==
                   BothPrepared(old(disk.files), format(report), format(derive(format(report)).value), files)
    ensures !ready ==> Undone(disk.files, old(disk.files), files, errors)
  {
    ghost var fs0, start := disk.files, |disk.trace|;
    assert OffTemporaries(fs0, fs0, files);
    var reportBytes;
    reportBytes, errors := PrepareFormattedFile(disk, files[0].temporary, report, format);
    PreparingIsOff(disk.trace, start, fs0, fs0, files, 0);
    OneTemporary(disk.files, fs0, fs0, files, 0);
    if reportBytes.None? {
      UntouchedElsewhere(disk.files, fs0, files[0].temporary, files[1].temporary);
      return false, false, errors;
    }
    ghost var first := disk.files;
    ready, refused, errors := PreparePolicy(disk, reportBytes.value, derive, format, files);
    AllOffJoins(disk.trace, first, fs0, files);
    if !ready {
      ghost var second := disk.files;
      var swept := SweepFirst(disk, files);
      AllOffJoins(disk.trace, second, fs0, files);
      errors := errors + swept;
    }
  }

  lemma UntouchedElsewhere(fs: Files, fs1: Files, path: Path, other: Path)
    requires SameElsewhere(fs, fs1, path) && other != path
    ensures other in fs <==> other in fs1
  {
    assert other in fs - {path} <==> other in fs1 - {path};
  }

  // Differing only in temporaries is transitive.
  lemma AllOffJoins(trace: seq<Files>, fs1: Files, fs0: Files, files: seq<Prepared>)
    requires OffTemporaries(fs1, fs0, files)
    ensures forall k :: 0 <= k < |trace| && OffTemporaries(trace[k], fs1, files) ==>
              OffTemporaries(trace[k], fs0, files)
  {
    forall k, p | 0 <= k < |trace| && OffTemporaries(trace[k], fs1, files) && p !in TemporarySet(files)
      ensures Same(trace[k], fs0, p)
    {
      assert Same(trace[k], fs1, p) && Same(fs1, fs0, p);
    }
  }

  // The sweep when only the report was prepared.
  method SweepFirst(disk: Disk, files: seq<Prepared>) returns (errors: seq<Failure>)
    requires |files| == 2
    requires UpToDate(disk.trace, disk.files)
    modifies disk
    ensures old(disk.trace) <= disk.trace && UpToDate(disk.trace, disk.files)
    ensures AllOff(disk.trace, |old(disk.trace)|, old(disk.files), files)
    ensures OffTemporaries(disk.files, old(disk.files), files)
    ensures disk.files == old(disk.files) - (if errors == [] then {files[0].temporary} else {})
    ensures errors == [] || RemoveTemporary(files[0].temporary) in errors
    ensures disk.faults == old(disk.faults) + |errors|
  {
    assert files[0].temporary in TemporarySet(files);
    var sweep := [Some(files[0]), None];
    ghost var removed;
    errors, removed := RemovePreparedFiles(disk, sweep);
    assert sweep[0].value.temporary in Temporaries(sweep, 2);
    assert Temporaries(sweep, 2) == {files[0].temporary};
    assert DistinctTemporaries(sweep);
    if errors != [] {
      assert errors[0] in errors && removed == {};
    }
  }

  // A run that does not get to publishing names its further errors and whether the first one was
  // the refusal to derive a policy; one that does names its outcome and the errors of the last sweep.
  datatype Ending =
    | NeverStarted(refused: bool, errors: seq<Failure>)
    | Ran(outcome: Outcome, swept: seq<Failure>)

  // The caller from the report to the published pair. The policy is derived from the formatted
  // report, which may be refused. `prepared` is the disk the publication starts from, `published`
  // what it leaves to the last sweep.
  method PublishEvidence(disk: Disk, report: Bytes, derive: Bytes -> Option<Bytes>, format: Bytes -> Bytes,
                         files: seq<Prepared>, names: seq<Path>)
    returns (end: Ending, ghost prepared: Files, ghost published: Files, ghost moved: nat, ghost placed: nat)
    requires |files| == 2 && ValidPlan(disk.files, files, names)
    requires disk.trace == [disk.files]
    modifies disk
    // at every step, all old bytes are on disk or all new ones are
    ensures forall k :: 0 <= k < |disk.trace| ==>
              || NothingLost(disk.trace[k], old(disk.files), files, names)
              || (end.Ran? && AllNew(disk.trace[k], prepared, files, names))
    // both files are prepared, the policy from the very bytes of the report, or nothing happens
    // to anything but temporaries
    ensures end.Ran? ==>
              && FreshTemporaries(old(disk.files), files)
              && derive(format(report)).Some?
              && prepared == BothPrepared(old(disk.files), format(report), format(derive(format(report)).value), files)
              && Settled(end.outcome, published, prepared, files, names, moved, placed)
              && OffTemporaries(disk.files, published, files)
    ensures end.NeverStarted? ==> Undone(disk.files, old(disk.files), files, end.errors)
    ensures end.NeverStarted? && end.refused ==> derive(format(report)).None?
    // every failed operation shows in the ending
    ensures disk.faults == old(disk.faults) +
              match end
              case NeverStarted(refused, errors) => (if refused then 0 else 1) + |errors|
              case Ran(outcome, swept) => FailureCount(outcome) + |swept|
    // all: exactly when nothing fails, the pair is in place and nothing else has changed
    ensures disk.faults == old(disk.faults) && derive(format(report)).Some? <==> end == Ran(Published, [])
    ensures end == Ran(Published, []) ==>
              disk.files == old(disk.files)[files[0].target := format(report)]
                                           [files[1].target := format(derive(format(report)).value)]
    ensures end.Ran? && end.outcome.Published? ==> end.swept == []
    // or nothing: a refused policy with no failed operation leaves the disk as it was, and so does
    // a single failed operation, unless it comes after the commit point
    ensures
      && disk.faults == old(disk.faults) && derive(format(report)).None?
      && FreshTemporaries(old(disk.files), files) ==>
        disk.files == old(disk.files)
    ensures
      && disk.faults == old(disk.faults) + 1 && derive(format(report)).Some?
      && FreshTemporaries(old(disk.files), files)
      && !(end.Ran? && end.outcome.BackupsLeft?) ==>
        disk.files == old(disk.files)
    // and more generally, a run that reports no error in undoing does
    ensures end.Ran? && end.outcome == RolledBack([]) ==> disk.files == old(disk.files)
    ensures end.NeverStarted? && end.errors == [] && FreshTemporaries(old(disk.files), files) ==>
              disk.files == old(disk.files)
  {
    ghost var fs0 := disk.files;
    published, moved, placed := fs0, 0, 0;
    assert Same(fs0, fs0, files[0].target);
    var ready, refused, errors := PrepareBoth(disk, report, derive, format, files);
    prepared := disk.files;
    OffTemporariesSafe(disk.trace, fs0, fs0, files, names);
    if !ready {
      end := NeverStarted(refused, errors);
      if errors == [] && FreshTemporaries(fs0, files) {
        UndoneIsExact(disk.files, fs0, files);
      }
      return;
    }
    OffTemporariesSafe(disk.trace, fs0, prepared, files, names);
    var outcome, swept;
    outcome, swept, published, moved, placed := PublishAndSweep(disk, files, names);
    end := Ran(outcome, swept);
    LossIsRelative(disk.trace, fs0, prepared, files, names);
    AllPreparedTemporaries(fs0, files, names);
    ghost var reportBytes, policyBytes := format(report), format(derive(format(report)).value);
    PreparedLessTemporaries(prepared, fs0, reportBytes, policyBytes, files);
    if outcome.Published? {
      PublishedIsExact(disk.files, fs0, reportBytes, policyBytes, files, names);
    }
  }

  lemma OffTemporariesSafe(trace: seq<Files>, fs0: Files, fs1: Files, files: seq<Prepared>, names: seq<Path>)
    requires ValidPlan(fs0, files, names) && OffTemporaries(fs1, fs0, files)
    requires forall k :: 0 <= k < |trace| ==> OffTemporaries(trace[k], fs0, files)
    ensures ValidPlan(fs1, files, names) && Safe(trace, fs1, files, names)
  {
    AllPreparedTemporaries(fs0, files, names);
    forall i | 0 <= i < |names|
      ensures names[i] !in fs1
    {
      assert Same(fs1, fs0, names[i]);
    }
    forall k | 0 <= k < |trace|
      ensures NothingLost(trace[k], fs1, files, names)
    {
      forall p | p !in TemporarySet(files)
        ensures Same(trace[k], fs1, p)
      {
        assert Same(trace[k], fs0, p) && Same(fs1, fs0, p);
      }
    }
  }

  // What is lost does not depend on the temporaries of the disk compared with.
  lemma LossIsRelative(trace: seq<Files>, fs0: Files, fs1: Files, files: seq<Prepared>, names: seq<Path>)
    requires ValidPlan(fs0, files, names) && OffTemporaries(fs1, fs0, files)
    ensures forall k :: 0 <= k < |trace| && NothingLost(trace[k], fs1, files, names) ==>
              NothingLost(trace[k], fs0, files, names)
  {
    AllPreparedTemporaries(fs0, files, names);
    forall k | 0 <= k < |trace| && NothingLost(trace[k], fs1, files, names)
      ensures NothingLost(trace[k], fs0, files, names)
    {
      forall p | Unrelated(files, names, p)
        ensures Same(trace[k], fs0, p)
      {
        assert Same(trace[k], fs1, p) && Same(fs1, fs0, p);
      }
      forall i | 0 <= i < |files|
        ensures OldBytesKept(trace[k], fs0, files[i], names[i])
      {
        assert OldBytesKept(trace[k], fs1, files[i], names[i]) && Same(fs1, fs0, files[i].target);
      }
    }
  }

  lemma PreparedLessTemporaries(fs: Files, fs0: Files, report: Bytes, policy: Bytes, files: seq<Prepared>)
    requires |files| == 2 && FreshTemporaries(fs0, files)
    requires fs == BothPrepared(fs0, report, policy, files)
    ensures fs - TemporarySet(files) == fs0
  {
    assert TemporarySet(files) == {files[0].temporary, files[1].temporary};
  }

  lemma PublishedIsExact(fs: Files, fs0: Files, report: Bytes, policy: Bytes, files: seq<Prepared>, names: seq<Path>)
    requires |files| == 2 && ValidPlan(fs0, files, names) && FreshTemporaries(fs0, files)
    requires PublishedTo(fs, BothPrepared(fs0, report, policy, files), files, names, [])
    ensures fs == fs0[files[0].target := report][files[1].target := policy]
  {
    var prepared := BothPrepared(fs0, report, policy, files);
    var expected := fs0[files[0].target := report][files[1].target := policy];
    assert Replaced(fs, prepared, files[0], names[0], []) && Replaced(fs, prepared, files[1], names[1], []);
    forall p
      ensures Same(fs, expected, p)
    {
      if Unrelated(files, names, p) {
        assert Same(fs, prepared, p);
        assert p != files[0].target && p != files[1].target && p != files[0].temporary && p != files[1].temporary;
      } else {
        var i :| 0 <= i < |files| && (p == files[i].target || p == files[i].temporary || p == names[i]);
        assert i == 0 || i == 1;
      }
    }
    forall p | p in fs
      ensures p in expected && fs[p] == expected[p]
    {
      assert Same(fs, expected, p);
    }
    forall p | p in expected
      ensures p in fs
    {
      assert Same(fs, expected, p);
    }
  }
}
