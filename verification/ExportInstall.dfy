/**
 Replacing a maintained export by a newly built one. Every file operation may fail and the process
 may stop at any point; `trail` records each state the exports directory passes through, so a
 statement about all of `trail` is a statement about every crash point; `failures` counts the operations
 that failed although nothing stood in their way, so that what happens without one can be said.
 */
module ExportInstall {
  import opened Names

  /** A directory tree: a finished export, or one still being written or removed. */
  datatype Tree = Complete(content: nat) | Partial(entries: nat)

  datatype Path =
    | Output(name: string)
    | Backup(name: string, pid: nat)
    | Staging(name: string, pid: nat, attempt: nat)

  type Files = map<Path, Tree>

  const ATTEMPTS := 100

  /** `after` differs from `before` at `path` at most. */
  ghost predicate OnlyAt(before: Files, after: Files, path: Path) {
    && (forall p | p in before && p != path :: p in after && after[p] == before[p])
    && (forall p | p in after && p != path :: p in before)
  }

  /** There is something to rename, and nothing of value in its way. */
  predicate Movable(files: Files, from: Path, to: Path) {
    from in files && (to in files ==> files[to] == Partial(0))
  }

  class ExportsDirectory {
    var files: Files
    ghost var trail: seq<Files>
    ghost var failures: nat

    ghost predicate Valid()
      reads this
    {
      trail != [] && trail[|trail| - 1] == files
    }

    constructor (files: Files)
      ensures Valid() && this.files == files && trail == [files] && failures == 0
    {
      this.files := files;
      trail := [files];
      failures := 0;
    }

    method Put(path: Path, tree: Tree)
      requires Valid()
      modifies this
      ensures Valid() && files == old(files)[path := tree] && trail == old(trail) + [files]
      ensures failures == old(failures)
    {
      files := files[path := tree];
      trail := trail + [files];
    }

    /** A metadata query: it may fail to see a path, but never sees one that is not there. */
    method Probe(path: Path) returns (found: bool)
      modifies this`failures
      ensures found ==> path in files
      ensures failures == old(failures) + if found == (path in files) then 0 else 1
    {
      found := path in files;
      if found {
        if * {
          found := false;
          failures := failures + 1;
        }
      }
    }

    /** Synchronizes a directory, restricts it, or makes the exports directory usable. */
    method Operate() returns (ok: bool)
      modifies this`failures
      ensures failures == old(failures) + if ok then 0 else 1
    {
      ok := true;
      if * {
        ok := false;
        failures := failures + 1;
      }
    }

    /** Replaces nothing but an empty directory, and changes nothing when it fails. */
    method Rename(from: Path, to: Path) returns (ok: bool)
      requires Valid() && from != to
      modifies this
      ensures Valid()
      ensures !ok ==> files == old(files) && trail == old(trail)
      ensures ok ==>
                && Movable(old(files), from, to)
                && files == (old(files) - {from})[to := old(files)[from]]
                && trail == old(trail) + [files]
      ensures failures == old(failures) + if ok || !Movable(old(files), from, to) then 0 else 1
    {
      if !Movable(files, from, to) {
        return false;
      }
      if * {
        failures := failures + 1;
        return false;
      }
      files := (files - {from})[to := files[from]];
      trail := trail + [files];
      return true;
    }

    method CreateDirectory(path: Path) returns (ok: bool, taken: bool)
      requires Valid()
      modifies this
      ensures Valid()
      ensures !ok ==> files == old(files) && trail == old(trail)
      ensures ok ==> path !in old(files) && files == old(files)[path := Partial(0)] && trail == old(trail) + [files]
      ensures taken <==> path in old(files)
      ensures failures == old(failures) + if ok || taken then 0 else 1
    {
      if path in files {
        return false, true;
      }
      if * {
        failures := failures + 1;
        return false, false;
      }
      Put(path, Partial(0));
      return true, false;
    }

    /** Removes a tree entry by entry; it may stop with part of it left. */
    method RemoveAll(path: Path) returns (ok: bool)
      requires Valid()
      modifies this
      ensures Valid() && old(trail) <= trail
      ensures forall i | |old(trail)| <= i < |trail| :: OnlyAt(old(files), trail[i], path)
      ensures forall i | |old(trail)| <= i < |trail| :: path in trail[i] ==> trail[i][path].Partial?
      ensures OnlyAt(old(files), files, path) && (ok ==> path in old(files) && path !in files)
      ensures path !in old(files) ==> files == old(files)
      ensures failures == old(failures) + if ok || path !in old(files) then 0 else 1
    {
      if path !in files {
        return false;
      }
      var remaining: nat := if files[path].Partial? then files[path].entries else 1;
      while remaining > 0
        invariant Valid() && old(trail) <= trail && OnlyAt(old(files), files, path)
        invariant forall i | |old(trail)| <= i < |trail| :: OnlyAt(old(files), trail[i], path)
        invariant forall i | |old(trail)| <= i < |trail| :: path in trail[i] ==> trail[i][path].Partial?
        invariant failures == old(failures)
      {
        if * {
          failures := failures + 1;
          return false;
        }
        remaining := remaining - 1;
        Put(path, Partial(remaining));
      }
      if * {
        failures := failures + 1;
        return false;
      }
      files := files - {path};
      trail := trail + [files];
      return true;
    }

    /** Writes the entries of an export into its staging directory one by one. */
    method Build(path: Path, content: nat, entries: nat) returns (ok: bool)
      requires Valid()
      modifies this
      ensures Valid() && old(trail) <= trail && OnlyAt(old(files), files, path)
      ensures forall i | |old(trail)| <= i < |trail| :: OnlyAt(old(files), trail[i], path)
      ensures ok ==> path in files && files[path] == Complete(content)
      ensures failures == old(failures) + if ok then 0 else 1
    {
      for n := 0 to entries
        invariant Valid() && old(trail) <= trail && OnlyAt(old(files), files, path)
        invariant forall i | |old(trail)| <= i < |trail| :: OnlyAt(old(files), trail[i], path)
        invariant failures == old(failures)
      {
        if * {
          failures := failures + 1;
          return false;
        }
        Put(path, Partial(n + 1));
      }
      if * {
        failures := failures + 1;
        return false;
      }
      Put(path, Complete(content));
      return true;
    }
  }

  // ---------------------------------------------------------------- What one run may do

  predicate Touchable(p: Path, name: string, pid: nat) {
    p.name == name && (p.Output? || p.pid == pid)
  }

  /** `s` is a state a run of process `pid`, writing `export` as `name`, may leave when it started at `start`. */
  ghost predicate DuringRun(start: Files, s: Files, name: string, pid: nat, content: nat) {
    var output, backup := Output(name), Backup(name, pid);
    && (forall p | p in start && !Touchable(p, name, pid) :: p in s && s[p] == start[p])
    && (forall p | p in s && !Touchable(p, name, pid) :: p in start)
    && (output in s ==> s[output] == Complete(content) || (output in start && s[output] == start[output]))
    && (output in start && start[output].Complete? ==>
          // The prior export stays whole: in place, or at the backup until the new one is installed.
          output in s || (backup in s && s[backup] == start[output]))
    && (!(output in start && start[output].Complete?) && backup in start && start[backup].Complete? ==>
          backup in s && s[backup] == start[backup])
  }

  lemma AroundStaging(start: Files, mid: Files, s: Files, name: string, pid: nat, attempt: nat, content: nat)
    requires OnlyAt(start, mid, Staging(name, pid, attempt))
    requires DuringRun(mid, s, name, pid, content) || OnlyAt(mid, s, Staging(name, pid, attempt))
    ensures DuringRun(start, s, name, pid, content)
  {
    if OnlyAt(mid, s, Staging(name, pid, attempt)) {
    }
  }

  datatype Outcome = Installed | Failed | PriorAtBackup

  /** No staging directory has appeared. */
  ghost predicate NoNewStaging(before: Files, after: Files) {
    forall p | p in after && p.Staging? :: p in before
  }

  /** The prior export has been moved to a backup name that held nothing of value. */
  ghost predicate SetAside(start: Files, s: Files, output: Path, backup: Path) {
    && output in start && (backup in start ==> start[backup] == Partial(0))
    && s == (start - {output})[backup := start[output]]
  }

  lemma SetAsideIsDuringRun(start: Files, s: Files, name: string, pid: nat, content: nat)
    requires SetAside(start, s, Output(name), Backup(name, pid))
    ensures DuringRun(start, s, name, pid, content)
  {
  }

  lemma RestoredIsDuringRun(start: Files, mid: Files, s: Files, name: string, pid: nat, content: nat)
    requires SetAside(start, mid, Output(name), Backup(name, pid))
    requires s == (mid - {Backup(name, pid)})[Output(name) := mid[Backup(name, pid)]]
    ensures DuringRun(start, s, name, pid, content)
  {
  }

  lemma ReplacedIsDuringRun(start: Files, mid: Files, s: Files, staging: Path, name: string, pid: nat, content: nat)
    requires SetAside(start, mid, Output(name), Backup(name, pid))
    requires staging.Staging? && staging.name == name && staging.pid == pid
    requires staging in mid && mid[staging] == Complete(content)
    requires s == (mid - {staging})[Output(name) := mid[staging]]
    ensures DuringRun(start, s, name, pid, content)
    ensures Output(name) in start && (Backup(name, pid) in start ==> start[Backup(name, pid)] == Partial(0))
  {
  }

  // Once the new export is in place, whatever happens to the backup is harmless.
  lemma DroppingIsDuringRun(start: Files, mid: Files, s: Files, name: string, pid: nat, content: nat)
    requires Output(name) in start && (Backup(name, pid) in start ==> start[Backup(name, pid)] == Partial(0))
    requires DuringRun(start, mid, name, pid, content)
    requires Output(name) in mid && mid[Output(name)] == Complete(content)
    requires OnlyAt(mid, s, Backup(name, pid))
    ensures DuringRun(start, s, name, pid, content)
    ensures Output(name) in s && s[Output(name)] == Complete(content)
  {
  }

  /** Removes the backup after the new export has been made durable. */
  method DropBackup(dir: ExportsDirectory, backup: Path) returns (outcome: Outcome)
    requires dir.Valid()
    modifies dir
    ensures dir.Valid() && old(dir.trail) <= dir.trail && old(dir.failures) <= dir.failures
    ensures OnlyAt(old(dir.files), dir.files, backup)
    ensures forall i | |old(dir.trail)| <= i < |dir.trail| :: OnlyAt(old(dir.files), dir.trail[i], backup)
    ensures outcome == Installed ==> backup !in dir.files
    ensures outcome != PriorAtBackup
    ensures outcome == Installed <==> dir.failures == old(dir.failures) && backup in old(dir.files)
    ensures outcome == Installed ==> dir.files == old(dir.files) - {backup}
  {
    var synced := dir.Operate();
    if !synced {
      return Failed;
    }
    var removed := dir.RemoveAll(backup);
    if !removed {
      return Failed;
    }
    synced := dir.Operate();
    return if synced then Installed else Failed;
  }

  method ReplaceThroughBackup(dir: ExportsDirectory, staging: Path, name: string, pid: nat, ghost content: nat)
    returns (outcome: Outcome)
    requires dir.Valid()
    requires staging.Staging? && staging.name == name && staging.pid == pid
    requires staging in dir.files && dir.files[staging] == Complete(content)
    modifies dir
    ensures dir.Valid() && old(dir.trail) <= dir.trail && old(dir.failures) <= dir.failures
    ensures forall i | |old(dir.trail)| <= i < |dir.trail| ::
              DuringRun(old(dir.files), dir.trail[i], name, pid, content)
    ensures DuringRun(old(dir.files), dir.files, name, pid, content)
    ensures outcome == Installed ==>
              && Output(name) in dir.files && dir.files[Output(name)] == Complete(content)
              && Backup(name, pid) !in dir.files
    ensures outcome == PriorAtBackup ==>
              && Output(name) in old(dir.files) && Output(name) !in dir.files
              && Backup(name, pid) in dir.files && dir.files[Backup(name, pid)] == old(dir.files)[Output(name)]
    ensures outcome == Failed && Output(name) in old(dir.files) ==> Output(name) in dir.files
    ensures Backup(name, pid) in old(dir.files) && dir.failures == old(dir.failures) ==> outcome == Failed
    ensures outcome == PriorAtBackup ==> dir.failures >= old(dir.failures) + 2
    ensures NoNewStaging(old(dir.files), dir.files) && (outcome == Installed ==> staging !in dir.files)
    ensures Output(name) in old(dir.files) && Backup(name, pid) !in old(dir.files) ==>
              (outcome == Installed <==> dir.failures == old(dir.failures))
    ensures dir.failures == old(dir.failures) ==>
              dir.files == if outcome == Installed then InPlace(old(dir.files), staging, content) else old(dir.files)
  {
    var output, backup := Output(name), Backup(name, pid);
    var unexpected := dir.Probe(backup);
    if unexpected {
      return Failed;
    }
    var saved := dir.Rename(output, backup);
    if !saved {
      return Failed;
    }
    ghost var aside := dir.files;
    SetAsideIsDuringRun(old(dir.files), aside, name, pid, content);
    outcome := SwapIn(dir, staging, name, pid, content, old(dir.files));
  }

  /** Moves the staged export to the free output, or the prior one back there. */
  method SwapIn(dir: ExportsDirectory, staging: Path, name: string, pid: nat, ghost content: nat, ghost start: Files)
    returns (outcome: Outcome)
    requires dir.Valid() && SetAside(start, dir.files, Output(name), Backup(name, pid))
    requires staging.Staging? && staging.name == name && staging.pid == pid
    requires staging in dir.files && dir.files[staging] == Complete(content)
    modifies dir
    ensures dir.Valid() && old(dir.trail) <= dir.trail && old(dir.failures) <= dir.failures
    ensures forall i | |old(dir.trail)| <= i < |dir.trail| :: DuringRun(start, dir.trail[i], name, pid, content)
    ensures DuringRun(start, dir.files, name, pid, content)
    ensures outcome == Installed ==>
              && Output(name) in dir.files && dir.files[Output(name)] == Complete(content)
              && Backup(name, pid) !in dir.files
    ensures outcome == PriorAtBackup ==>
              && Output(name) in start && Output(name) !in dir.files
              && Backup(name, pid) in dir.files && dir.files[Backup(name, pid)] == start[Output(name)]
    ensures outcome == Failed ==> Output(name) in dir.files
    // Only two failing operations keep the prior export away from its place.
    ensures outcome == PriorAtBackup ==> dir.failures >= old(dir.failures) + 2
    ensures NoNewStaging(old(dir.files), dir.files)
    ensures outcome == Installed <==> dir.failures == old(dir.failures)
    ensures dir.failures == old(dir.failures) ==>
              dir.files == InPlace(old(dir.files) - {Backup(name, pid)}, staging, content)
  {
    var output, backup := Output(name), Backup(name, pid);
    ghost var aside := dir.files;
    SetAsideIsDuringRun(start, aside, name, pid, content);
    var installed := dir.Rename(staging, output);
    if !installed {
      var restored := dir.Rename(backup, output);
      if restored {
        RestoredIsDuringRun(start, aside, dir.files, name, pid, content);
        return Failed;
      }
      return PriorAtBackup;
    }
    ghost var swapped := dir.files;
    ghost var before := dir.trail;
    ReplacedIsDuringRun(start, aside, swapped, staging, name, pid, content);
    outcome := DropBackup(dir, backup);
    forall i | |before| <= i < |dir.trail|
      ensures DuringRun(start, dir.trail[i], name, pid, content)
    {
      DroppingIsDuringRun(start, swapped, dir.trail[i], name, pid, content);
    }
    DroppingIsDuringRun(start, swapped, dir.files, name, pid, content);
  }

  /** No unexpected backup stands in the way of replacing an export. */
  predicate OutputIsReplaceable(files: Files, name: string, pid: nat) {
    Output(name) in files ==> Backup(name, pid) !in files
  }

  /** A staging name of this process is still free. */
  ghost predicate StagingIsFree(files: Files, name: string, pid: nat) {
    exists attempt | 0 <= attempt < ATTEMPTS :: Staging(name, pid, attempt) !in files
  }

  /** The staged export is the output; nothing else has changed. */
  function InPlace(files: Files, staging: Path, content: nat): Files {
    (files - {staging})[Output(staging.name) := Complete(content)]
  }

  /** Puts the staged export in place of the output, through a backup when there is one. */
  method InstallStagedExport(dir: ExportsDirectory, staging: Path, name: string, pid: nat, ghost content: nat)
    returns (outcome: Outcome)
    requires dir.Valid()
    requires staging.Staging? && staging.name == name && staging.pid == pid
    requires staging in dir.files && dir.files[staging] == Complete(content)
    modifies dir
    ensures dir.Valid() && old(dir.trail) <= dir.trail && old(dir.failures) <= dir.failures
    ensures forall i | |old(dir.trail)| <= i < |dir.trail| ::
              DuringRun(old(dir.files), dir.trail[i], name, pid, content)
    ensures DuringRun(old(dir.files), dir.files, name, pid, content)
    ensures outcome == Installed ==> Output(name) in dir.files && dir.files[Output(name)] == Complete(content)
    ensures outcome == Installed && Output(name) in old(dir.files) && old(dir.files)[Output(name)].Complete? ==>
              Backup(name, pid) !in dir.files
    ensures outcome == PriorAtBackup ==>
              && Output(name) in old(dir.files) && Output(name) !in dir.files
              && Backup(name, pid) in dir.files && dir.files[Backup(name, pid)] == old(dir.files)[Output(name)]
    ensures outcome == Failed && Output(name) in old(dir.files) ==> Output(name) in dir.files
    ensures outcome == PriorAtBackup ==> dir.failures >= old(dir.failures) + 2
    ensures NoNewStaging(old(dir.files), dir.files) && (outcome == Installed ==> staging !in dir.files)
    ensures dir.failures == old(dir.failures) ==>
              && (outcome == Installed <==> OutputIsReplaceable(old(dir.files), name, pid))
              && dir.files == if outcome == Installed then InPlace(old(dir.files), staging, content) else old(dir.files)
  {
    var output := Output(name);
    var present := dir.Probe(output);
    if !present {
      var moved := dir.Rename(staging, output);
      if moved {
        var synced := dir.Operate();
        return if synced then Installed else Failed;
      }
      return Failed;
    }
    outcome := ReplaceThroughBackup(dir, staging, name, pid, content);
  }

  /** The first free staging directory of this process, or none. */
  method CreateStagingDirectory(dir: ExportsDirectory, name: string, pid: nat) returns (ok: bool, attempt: nat)
    requires dir.Valid()
    modifies dir
    ensures dir.Valid() && old(dir.trail) <= dir.trail && old(dir.failures) <= dir.failures
    ensures OnlyAt(old(dir.files), dir.files, Staging(name, pid, attempt))
    ensures forall i | |old(dir.trail)| <= i < |dir.trail| :: dir.trail[i] == dir.files
    ensures ok ==> Staging(name, pid, attempt) !in old(dir.files) && Staging(name, pid, attempt) in dir.files
    ensures ok <==> dir.failures == old(dir.failures) && StagingIsFree(old(dir.files), name, pid)
    ensures ok || dir.files != old(dir.files) ==>
              dir.files == old(dir.files)[Staging(name, pid, attempt) := Partial(0)]
    ensures dir.failures == old(dir.failures) && !ok ==> dir.files == old(dir.files)
  {
    attempt := 0;
    while attempt < ATTEMPTS
      invariant dir.Valid() && dir.files == old(dir.files) && dir.trail == old(dir.trail)
      invariant dir.failures == old(dir.failures)
      invariant forall a | 0 <= a < attempt :: Staging(name, pid, a) in dir.files
    {
      var created, taken := dir.CreateDirectory(Staging(name, pid, attempt));
      if created {
        var restricted := dir.Operate();
        return restricted, attempt;
      }
      if !taken {
        return false, attempt;
      }
      attempt := attempt + 1;
    }
    return false, attempt;
  }

  /** Builds the export in a staging directory of its own. */
  method StageExport(dir: ExportsDirectory, name: string, pid: nat, content: nat, entries: nat)
    returns (created: bool, built: bool, staging: Path)
    requires dir.Valid()
    modifies dir
    ensures dir.Valid() && old(dir.trail) <= dir.trail && old(dir.failures) <= dir.failures
    ensures staging.Staging? && staging.name == name && staging.pid == pid
    ensures OnlyAt(old(dir.files), dir.files, staging) && DuringRun(old(dir.files), dir.files, name, pid, content)
    ensures forall i | |old(dir.trail)| <= i < |dir.trail| ::
              DuringRun(old(dir.files), dir.trail[i], name, pid, content)
    ensures built ==> created && staging in dir.files && dir.files[staging] == Complete(content)
    ensures built <==> dir.failures == old(dir.failures) && StagingIsFree(old(dir.files), name, pid)
    ensures created ==> staging !in old(dir.files)
    ensures built ==> dir.files == old(dir.files)[staging := Complete(content)]
    ensures dir.failures == old(dir.failures) && !built ==> !created && dir.files == old(dir.files)
    ensures !created ==> dir.files in {old(dir.files), old(dir.files)[staging := Partial(0)]}
    ensures created && !built ==> dir.failures > old(dir.failures)
    ensures forall p | p in dir.files && p !in old(dir.files) :: p == staging
  {
    var attempt;
    created, attempt := CreateStagingDirectory(dir, name, pid);
    staging := Staging(name, pid, attempt);
    built := false;
    if created {
      built := dir.Build(staging, content, entries);
    }
    forall i | |old(dir.trail)| <= i < |dir.trail|
      ensures DuringRun(old(dir.files), dir.trail[i], name, pid, content)
    {
      AroundStaging(old(dir.files), old(dir.files), dir.trail[i], name, pid, attempt, content);
    }
    AroundStaging(old(dir.files), old(dir.files), dir.files, name, pid, attempt, content);
  }

  // Cleaning up after a failed run.
  method Clean(dir: ExportsDirectory, staging: Path, name: string, pid: nat, ghost content: nat, ghost start: Files)
    requires dir.Valid() && DuringRun(start, dir.files, name, pid, content)
    requires staging.Staging? && staging.name == name && staging.pid == pid
    modifies dir
    ensures dir.Valid() && old(dir.trail) <= dir.trail && old(dir.failures) <= dir.failures
    ensures OnlyAt(old(dir.files), dir.files, staging)
    ensures forall i | |old(dir.trail)| <= i < |dir.trail| :: DuringRun(start, dir.trail[i], name, pid, content)
    ensures DuringRun(start, dir.files, name, pid, content)
    ensures dir.failures == old(dir.failures) ==> dir.files == old(dir.files) - {staging}
    ensures NoNewStaging(old(dir.files), dir.files)
  {
    var _ := dir.RemoveAll(staging);
    forall i | |old(dir.trail)| <= i < |dir.trail|
      ensures DuringRun(start, dir.trail[i], name, pid, content)
    {
      AfterCleaning(start, old(dir.files), dir.trail[i], name, pid, staging.attempt, content);
    }
    AfterCleaning(start, old(dir.files), dir.files, name, pid, staging.attempt, content);
  }

  // Installing what was staged, as part of the whole run.
  method Install(dir: ExportsDirectory, staging: Path, name: string, pid: nat, ghost content: nat, ghost start: Files)
    returns (outcome: Outcome)
    requires dir.Valid() && OnlyAt(start, dir.files, staging)
    requires staging.Staging? && staging.name == name && staging.pid == pid
    requires staging in dir.files && dir.files[staging] == Complete(content)
    modifies dir
    ensures dir.Valid() && old(dir.trail) <= dir.trail && old(dir.failures) <= dir.failures
    ensures forall i | |old(dir.trail)| <= i < |dir.trail| :: DuringRun(start, dir.trail[i], name, pid, content)
    ensures DuringRun(start, dir.files, name, pid, content)
    ensures outcome == Installed ==> Output(name) in dir.files && dir.files[Output(name)] == Complete(content)
    ensures outcome == PriorAtBackup ==>
              && Output(name) in start && Output(name) !in dir.files
              && Backup(name, pid) in dir.files && dir.files[Backup(name, pid)] == start[Output(name)]
    ensures outcome == Failed && Output(name) in start ==> Output(name) in dir.files
    ensures outcome == PriorAtBackup ==> dir.failures >= old(dir.failures) + 2
    ensures NoNewStaging(old(dir.files), dir.files) && (outcome == Installed ==> staging !in dir.files)
    ensures dir.failures == old(dir.failures) ==>
              && (outcome == Installed <==> OutputIsReplaceable(start, name, pid))
              && dir.files == if outcome == Installed then InPlace(old(dir.files), staging, content) else old(dir.files)
  {
    ghost var staged := dir.files;
    outcome := InstallStagedExport(dir, staging, name, pid, content);
    forall i | |old(dir.trail)| <= i < |dir.trail|
      ensures DuringRun(start, dir.trail[i], name, pid, content)
    {
      AroundStaging(start, staged, dir.trail[i], name, pid, staging.attempt, content);
    }
    AroundStaging(start, staged, dir.files, name, pid, staging.attempt, content);
  }

  // Installing what was built, and cleaning up unless it was installed.
  method InstallOrClean(dir: ExportsDirectory, staging: Path, built: bool, name: string, pid: nat, ghost content: nat,
                        ghost start: Files)
    returns (outcome: Outcome)
    requires dir.Valid() && OnlyAt(start, dir.files, staging) && DuringRun(start, dir.files, name, pid, content)
    requires staging.Staging? && staging.name == name && staging.pid == pid && staging !in start
    requires built ==> staging in dir.files && dir.files[staging] == Complete(content)
    modifies dir
    ensures dir.Valid() && old(dir.trail) <= dir.trail && old(dir.failures) <= dir.failures
    ensures forall i | |old(dir.trail)| <= i < |dir.trail| :: DuringRun(start, dir.trail[i], name, pid, content)
    ensures DuringRun(start, dir.files, name, pid, content)
    ensures outcome == Installed ==> Output(name) in dir.files && dir.files[Output(name)] == Complete(content)
    ensures outcome == PriorAtBackup ==>
              && Output(name) in start && Output(name) !in dir.files
              && Backup(name, pid) in dir.files && dir.files[Backup(name, pid)] == start[Output(name)]
    ensures outcome == Failed && Output(name) in start ==> Output(name) in dir.files
    ensures outcome == PriorAtBackup ==> dir.failures >= old(dir.failures) + 2
    ensures NoNewStaging(old(dir.files), dir.files)
    ensures OutputIsReplaceable(start, name, pid) && dir.failures <= old(dir.failures) + (if built then 1 else 0) ==>
              staging !in dir.files
    ensures outcome == Installed ==> staging !in dir.files
    ensures dir.failures == old(dir.failures) ==>
              && (outcome == Installed <==> built && OutputIsReplaceable(start, name, pid))
              && dir.files == if outcome == Installed then start[Output(name) := Complete(content)] else start
  {
    outcome := Failed;
    if built {
      outcome := Install(dir, staging, name, pid, content, start);
      if outcome == Installed {
        return;
      }
    }
    Clean(dir, staging, name, pid, content, start);
  }

  /** One export run, from preparation to the final cleanup. */
  method WriteExport(dir: ExportsDirectory, name: string, pid: nat, content: nat, entries: nat)
    returns (outcome: Outcome)
    requires dir.Valid()
    modifies dir
    ensures dir.Valid() && old(dir.trail) <= dir.trail && old(dir.failures) <= dir.failures
    ensures forall i | |old(dir.trail)| <= i < |dir.trail| ::
              DuringRun(old(dir.files), dir.trail[i], name, pid, content)
    ensures DuringRun(old(dir.files), dir.files, name, pid, content)
    ensures outcome == Installed ==> Output(name) in dir.files && dir.files[Output(name)] == Complete(content)
    ensures outcome == PriorAtBackup ==>
              && Output(name) in old(dir.files) && Output(name) !in dir.files
              && Backup(name, pid) in dir.files && dir.files[Backup(name, pid)] == old(dir.files)[Output(name)]
    ensures outcome == Failed && Output(name) in old(dir.files) ==> Output(name) in dir.files
    // Where an export can be installed, one failing operation leaves nothing behind but perhaps an empty staging
    // directory; only after two may the prior export be away from its place.
    ensures outcome == PriorAtBackup ==> dir.failures >= old(dir.failures) + 2
    ensures OutputIsReplaceable(old(dir.files), name, pid) && dir.failures <= old(dir.failures) + 1 ==>
              forall p | p in dir.files && p.Staging? && p !in old(dir.files) :: dir.files[p] == Partial(0)
    // Unless an operation fails, a run installs its export exactly when a staging name is free and no
    // unexpected backup stands beside an existing output; the output is then all that has changed.
    ensures dir.failures == old(dir.failures) ==>
              && (outcome == Installed <==>
                    StagingIsFree(old(dir.files), name, pid) && OutputIsReplaceable(old(dir.files), name, pid))
              && dir.files == if outcome == Installed then old(dir.files)[Output(name) := Complete(content)]
                              else old(dir.files)
  {
    ghost var start := dir.files;
    var usable := dir.Operate();   // the exports directory, and the output if it exists, may be used
    if !usable {
      return Failed;
    }
    var created, built, staging := StageExport(dir, name, pid, content, entries);
    if !created {
      return Failed;
    }
    outcome := InstallOrClean(dir, staging, built, name, pid, content, start);
  }

  lemma AfterCleaning(start: Files, mid: Files, s: Files, name: string, pid: nat, attempt: nat, content: nat)
    requires DuringRun(start, mid, name, pid, content) && OnlyAt(mid, s, Staging(name, pid, attempt))
    ensures DuringRun(start, s, name, pid, content)
  {
  }

  // ---------------------------------------------------------------- Any number of runs

  predicate OutputSafe(s: Files, name: string) {
    Output(name) in s ==> s[Output(name)].Complete?
  }

  ghost predicate HasExport(s: Files, name: string) {
    || (Output(name) in s && s[Output(name)].Complete?)
    || exists pid: nat :: Backup(name, pid) in s && s[Backup(name, pid)].Complete?
  }

  lemma RunKeepsExports(start: Files, s: Files, run: Run, name: string)
    requires DuringRun(start, s, run.name, run.pid, run.content)
    ensures OutputSafe(start, name) ==> OutputSafe(s, name)
    ensures HasExport(start, name) ==> HasExport(s, name)
  {
    if HasExport(start, name) && !(Output(name) in start && start[Output(name)].Complete?) {
      var pid: nat :| Backup(name, pid) in start && start[Backup(name, pid)].Complete?;
      assert Backup(name, pid) in s && s[Backup(name, pid)] == start[Backup(name, pid)];
    } else if HasExport(start, name) && Output(name) !in s {
      assert name == run.name && Backup(name, run.pid) in s;
    }
  }

  datatype Run = Run(name: string, pid: nat, content: nat)

  /** `states[k + 1]` is where run `k`, begun at `states[k]`, ended, failed or was stopped. */
  ghost predicate Runs(states: seq<Files>, runs: seq<Run>) {
    && |states| == |runs| + 1
    && forall k {:trigger runs[k]} | 0 <= k < |runs| ::
         DuringRun(states[k], states[k + 1], runs[k].name, runs[k].pid, runs[k].content)
  }

  // However many runs are made and wherever each is cut short, every output path is absent or a
  // complete export, and an export once complete at the output or a backup always exists at one of them.
  lemma {:induction false} ExportsSurviveAnyRuns(states: seq<Files>, runs: seq<Run>, i: nat, j: nat, name: string)
    requires Runs(states, runs) && i <= j < |states| && OutputSafe(states[i], name)
    ensures OutputSafe(states[j], name)
    ensures HasExport(states[i], name) ==> HasExport(states[j], name)
    decreases j - i
  {
    if i < j {
      ExportsSurviveAnyRuns(states, runs, i, j - 1, name);
      RunKeepsExports(states[j - 1], states[j], runs[j - 1], name);
    }
  }

  // ---------------------------------------------------------------- Path texts

  function PathText(p: Path): string {
    match p
    case Output(name) => name
    case Backup(name, pid) => "." + name + "-backup" + "-" + NatText(pid)
    case Staging(name, pid, attempt) => "." + name + "-stage" + "-" + NatText(pid) + "-" + NatText(attempt)
  }

  /** Output names start with "current" or "at-", never with a dot. */
  predicate Named(p: Path) { p.name != "" && p.name[0] != '.' }

  // Output, backup and staging paths never coincide, so distinct paths of the model are distinct files.
  lemma PathsAreDistinct(p: Path, q: Path)
    requires Named(p) && Named(q) && PathText(p) == PathText(q)
    ensures p == q
  {
    if p.Output? || q.Output? {
      assert p.Output? && q.Output? by {
        assert PathText(p)[0] == '.' <==> !p.Output?;
        assert PathText(q)[0] == '.' <==> !q.Output?;
      }
    } else {
      var x, y := Stem(p), Stem(q);
      LastPartIsUnique(x, NatText(LastNumber(p)), y, NatText(LastNumber(q)), '-');
      NatTextIsInjective(LastNumber(p), LastNumber(q));
      StemsAreDistinct(p, q);
    }
  }

  function Stem(p: Path): string
    requires !p.Output?
  {
    if p.Backup? then "." + p.name + "-backup" else "." + p.name + "-stage" + "-" + NatText(p.pid)
  }

  function LastNumber(p: Path): nat
    requires !p.Output?
  {
    if p.Backup? then p.pid else p.attempt
  }

  lemma StemsAreDistinct(p: Path, q: Path)
    requires !p.Output? && !q.Output? && Stem(p) == Stem(q)
    ensures p.Backup? <==> q.Backup?
    ensures p.name == q.name && (p.Staging? ==> p.pid == q.pid)
  {
    var last := |Stem(p)| - 1;
    assert p.Backup? ==> Stem(p)[last] == 'p';
    assert q.Backup? ==> Stem(q)[last] == 'p';
    assert p.Staging? ==> Stem(p)[last] == NatText(p.pid)[|NatText(p.pid)| - 1];
    assert q.Staging? ==> Stem(q)[last] == NatText(q.pid)[|NatText(q.pid)| - 1];
    if p.Backup? && q.Backup? {
      assert p.name == Stem(p)[1..|Stem(p)| - 7] == q.name;
    } else if p.Staging? && q.Staging? {
      var x, y := "." + p.name + "-stage", "." + q.name + "-stage";
      LastPartIsUnique(x, NatText(p.pid), y, NatText(q.pid), '-');
      NatTextIsInjective(p.pid, q.pid);
      assert p.name == x[1..|x| - 6] == y[1..|y| - 6] == q.name;
    }
  }
}
