/**
 Rotation of the manifest signing key: a new key, a recovery copy of the current trusted head and
 the replacement of that head, each step of which may fail. `trail` records every state of the
 external files, so a statement about all of it holds wherever the process stops; `failures` counts
 the steps that failed, so that what happens without one can be said.
 */
module KeyRotation {
  import opened Names
  import opened Wrappers

  datatype Path = Path(directory: string, name: string)

  type Files = map<Path, seq<byte>>

  const CANDIDATES := 128

  datatype RotationPhase = Preflight | NewKeyDurable | RecoveryAnchorDurable | CurrentAnchorReplaced

  /** A report of `phase` claims everything that comes with `at`. */
  predicate Claims(phase: RotationPhase, at: RotationPhase) { Rank(at) <= Rank(phase) }

  function Rank(phase: RotationPhase): nat {
    match phase
    case Preflight => 0
    case NewKeyDurable => 1
    case RecoveryAnchorDurable => 2
    case CurrentAnchorReplaced => 3
  }

  /** Every file of `before` other than `path` is unchanged in `after`. */
  ghost predicate Keeps(before: Files, after: Files, path: Path) {
    forall p | p in before && p != path :: p in after && after[p] == before[p]
  }

  /** Only `path` may differ, and what it holds is a part of `bytes` being written. */
  ghost predicate Writing(before: Files, after: Files, path: Path, bytes: seq<byte>) {
    && Keeps(before, after, path)
    && (forall p | p in after && p != path :: p in before)
    && (path in after ==> after[path] <= bytes)
  }

  function TemporaryName(pid: nat, counter: nat): string {
    ".wikisync-trusted-head-" + NatText(pid) + "-" + NatText(counter) + ".tmp"
  }

  /** A staging name of the directory is still free. */
  ghost predicate TemporaryIsFree(files: Files, directory: string, pid: nat) {
    exists counter | 0 <= counter < CANDIDATES :: Path(directory, TemporaryName(pid, counter)) !in files
  }

  class ExternalFiles {
    var files: Files
    ghost var trail: seq<Files>
    ghost var failures: nat   // steps that failed

    ghost predicate Valid()
      reads this
    {
      trail != [] && trail[|trail| - 1] == files
    }

    constructor (files: Files)
      ensures Valid() && this.files == files && trail == [files] && failures == 0
    {
      this.files := files;
      trail := [files];
      failures := 0;
    }

    method Put(path: Path, bytes: seq<byte>)
      requires Valid()
      modifies this
      ensures Valid() && files == old(files)[path := bytes] && trail == old(trail) + [files]
      ensures failures == old(failures)
    {
      files := files[path := bytes];
      trail := trail + [files];
    }

    /** Opens a file that must not exist yet. */
    method CreateNew(path: Path) returns (ok: bool, taken: bool)
      requires Valid()
      modifies this
      ensures Valid()
      ensures taken <==> path in old(files)
      ensures ok ==> !taken && files == old(files)[path := []] && trail == old(trail) + [files]
      ensures !ok ==> files == old(files) && trail == old(trail)
      ensures failures == old(failures) + if ok || taken then 0 else 1
    {
      if path in files {
        return false, true;
      }
      if * {
        failures := failures + 1;
        return false, false;
      }
      Put(path, []);
      return true, false;
    }

    /** Writes the bytes piece by piece into an empty file and synchronizes it; it may stop early. */
    method WriteAll(path: Path, bytes: seq<byte>) returns (ok: bool)
      requires Valid() && path in files && files[path] == []
      modifies this
      ensures Valid() && old(trail) <= trail && Writing(old(files), files, path, bytes) && path in files
      ensures forall i | |old(trail)| <= i < |trail| :: Writing(old(files), trail[i], path, bytes)
      ensures ok ==> files[path] == bytes
      ensures failures == old(failures) + if ok then 0 else 1
    {
      var written := 0;
      while written < |bytes|
        invariant written <= |bytes| && path in files && files[path] == bytes[..written]
        invariant Valid() && old(trail) <= trail && Writing(old(files), files, path, bytes)
        invariant forall i | |old(trail)| <= i < |trail| :: Writing(old(files), trail[i], path, bytes)
        invariant failures == old(failures)
      {
        if * {
          failures := failures + 1;
          return false;
        }
        var size: nat :| 0 < size <= |bytes| - written;
        written := written + size;
        Put(path, bytes[..written]);
      }
      ok := Sync();
    }

    method Remove(path: Path)
      requires Valid()
      modifies this
      ensures Valid()
      ensures (files == old(files) && trail == old(trail))
              || (files == old(files) - {path} && trail == old(trail) + [files])
      ensures failures == old(failures) + if trail == old(trail) then 1 else 0
    {
      if * {
        failures := failures + 1;
        return;
      }
      files := files - {path};
      trail := trail + [files];
    }

    /** Replaces the target atomically, and changes nothing when it fails. */
    method Rename(from: Path, to: Path) returns (ok: bool)
      requires Valid() && from in files && from != to
      modifies this
      ensures Valid()
      ensures ok ==> files == (old(files) - {from})[to := old(files)[from]] && trail == old(trail) + [files]
      ensures !ok ==> files == old(files) && trail == old(trail)
      ensures failures == old(failures) + if ok then 0 else 1
    {
      if * {
        failures := failures + 1;
        return false;
      }
      files := (files - {from})[to := files[from]];
      trail := trail + [files];
      return true;
    }

    method Sync() returns (ok: bool)
      modifies this`failures
      ensures failures == old(failures) + if ok then 0 else 1
    {
      ok := true;
      if * {
        ok := false;
        failures := failures + 1;
      }
    }

    /** Writes a newly created file in full, or removes it, as far as that succeeds. */
    method Fill(path: Path, bytes: seq<byte>) returns (ok: bool)
      requires Valid() && path in files && files[path] == []
      modifies this
      ensures Valid() && old(trail) <= trail && Writing(old(files), files, path, bytes)
      ensures forall i | |old(trail)| <= i < |trail| :: Writing(old(files), trail[i], path, bytes)
      ensures ok ==> path in files && files[path] == bytes
      ensures ok <==> failures == old(failures)
      ensures old(failures) <= failures
      ensures !ok && failures == old(failures) + 1 ==> files == old(files) - {path}
    {
      var restricted := Sync();
      ok := false;
      if restricted {
        ok := WriteAll(path, bytes);
      }
      if !ok {
        Remove(path);
      }
    }

    /** Durably creates a file that must not exist. After a failed parent synchronization the complete
        file stays behind although the call reports failure. */
    method WriteCreateNew(path: Path, bytes: seq<byte>) returns (ok: bool)
      requires Valid()
      modifies this
      ensures Valid() && old(trail) <= trail
      ensures path in old(files) ==> !ok && files == old(files) && trail == old(trail)
      ensures path !in old(files) ==> Writing(old(files), files, path, bytes)
      ensures path !in old(files) ==>
                forall i | |old(trail)| <= i < |trail| :: Writing(old(files), trail[i], path, bytes)
      ensures ok ==> files == old(files)[path := bytes]
      ensures path in old(files) ==> failures == old(failures)
      ensures path !in old(files) ==> (ok <==> failures == old(failures))
      // A single failure leaves the file out, or complete.
      ensures old(failures) <= failures
      ensures failures == old(failures) + 1 ==> files in {old(files), old(files)[path := bytes]}
    {
      var created, _ := CreateNew(path);
      if !created {
        return false;
      }
      var filled := Fill(path, bytes);
      if !filled {
        assert failures == old(failures) + 1 ==> files == old(files);
        return false;
      }
      assert files == old(files)[path := bytes];
      ok := Sync();
    }

    /** A fresh staging file beside the target. */
    method AllocateTemporary(directory: string, pid: nat) returns (ok: bool, temporary: Path)
      requires Valid()
      modifies this
      ensures Valid() && old(trail) <= trail && temporary.directory == directory
      ensures ok ==> temporary !in old(files) && files == old(files)[temporary := []] && trail == old(trail) + [files]
      ensures !ok ==> files == old(files) && trail == old(trail)
      ensures old(failures) <= failures
      ensures ok <==> failures == old(failures) && TemporaryIsFree(old(files), directory, pid)
    {
      temporary := Path(directory, TemporaryName(pid, 0));
      for counter := 0 to CANDIDATES
        invariant Valid() && files == old(files) && trail == old(trail) && temporary.directory == directory
        invariant failures == old(failures)
        invariant forall c | 0 <= c < counter :: Path(directory, TemporaryName(pid, c)) in files
      {
        temporary := Path(directory, TemporaryName(pid, counter));
        var created, taken := CreateNew(temporary);
        if created {
          return true, temporary;
        }
        if !taken {
          return false, temporary;
        }
      }
      return false, temporary;
    }

    /** Stages the bytes in a new file beside the target; on failure the file is removed, or left. */
    method StageContent(directory: string, bytes: seq<byte>, pid: nat) returns (ok: bool, temporary: Path)
      requires Valid()
      modifies this
      ensures Valid() && old(trail) <= trail && temporary.directory == directory
      ensures ok ==> temporary !in old(files) && files == old(files)[temporary := bytes]
      ensures ok <==> failures == old(failures) && TemporaryIsFree(old(files), directory, pid)
      ensures old(failures) <= failures && (!ok && failures <= old(failures) + 1 ==> files == old(files))
      ensures files == old(files) || (temporary !in old(files) && Writing(old(files), files, temporary, bytes))
      ensures forall i | |old(trail)| <= i < |trail| ::
                temporary !in old(files) && Writing(old(files), trail[i], temporary, bytes)
    {
      var found;
      found, temporary := AllocateTemporary(directory, pid);
      if !found {
        return false, temporary;
      }
      ok := Fill(temporary, bytes);
    }

    /** Replaces an existing file through a staging file; `renamed` tells whether the new content is in place. */
    method AtomicReplace(path: Path, bytes: seq<byte>, pid: nat) returns (ok: bool, renamed: bool)
      requires Valid() && path in files
      modifies this
      ensures Valid() && old(trail) <= trail && Keeps(old(files), files, path) && path in files
      ensures ok ==> renamed
      ensures files[path] == if renamed then bytes else old(files)[path]
      ensures ok ==> files == old(files)[path := bytes]
      ensures ok <==> failures == old(failures) && TemporaryIsFree(old(files), path.directory, pid)
      // A single failure leaves no staging file behind.
      ensures old(failures) <= failures
      ensures failures <= old(failures) + 1 ==> files == if renamed then old(files)[path := bytes] else old(files)
      ensures forall i | |old(trail)| <= i < |trail| ::
                Keeps(old(files), trail[i], path) && path in trail[i] && trail[i][path] in {old(files)[path], bytes}
    {
      var staged, temporary := StageContent(path.directory, bytes, pid);
      if !staged {
        return false, false;
      }
      renamed := Rename(temporary, path);
      if renamed {
        ok := Sync();
        return ok, true;
      }
      Remove(temporary);
      return false, false;
    }
  }

  // ---------------------------------------------------------------- Rotation

  datatype Rotation = Rotation(current: Path, newKey: Path, recovery: Path, key: seq<byte>, anchor: seq<byte>)

  /** `s` is a state in which the rotation, begun at `start`, may fail or stop. */
  ghost predicate DuringRotation(start: Files, s: Files, r: Rotation) {
    && Keeps(start, s, r.current)
    && (r.current in start ==> r.current in s && s[r.current] in {start[r.current], r.anchor})
    // The new head is in place only once the key and the recovery copy are complete.
    && (r.current in start && s[r.current] != start[r.current] ==>
          && r.newKey in s && s[r.newKey] == r.key
          && r.recovery in s && s[r.recovery] == start[r.current])
  }

  datatype Outcome = Rotated | Stopped(phase: RotationPhase)

  /** What a reported outcome guarantees about the files it leaves. */
  ghost predicate Truthful(start: Files, s: Files, r: Rotation, outcome: Outcome) {
    var phase := if outcome.Rotated? then CurrentAnchorReplaced else outcome.phase;
    && (Claims(phase, NewKeyDurable) ==> r.newKey in s && s[r.newKey] == r.key)
    && (Claims(phase, RecoveryAnchorDurable) ==>
          r.current in start && r.recovery in s && s[r.recovery] == start[r.current])
    && (r.current in start ==> r.current in s)
    && (r.current in start ==>
          s[r.current] == if phase == CurrentAnchorReplaced then r.anchor else start[r.current])
  }

  /** The targets are apart and free, the current head is there, and a staging name beside it stays free. */
  ghost predicate CanRotate(start: Files, r: Rotation, pid: nat) {
    && r.current != r.newKey && r.current != r.recovery && r.newKey != r.recovery
    && r.current in start && r.newKey !in start && r.recovery !in start
    && TemporaryIsFree(start[r.newKey := r.key][r.recovery := start[r.current]], r.current.directory, pid)
  }

  /** The files of a rotation that came as far as `phase`: first its key, then the recovery copy, then the new head. */
  ghost function FilesAt(start: Files, r: Rotation, phase: RotationPhase): Files
    requires r.current in start
  {
    match phase
    case Preflight => start
    case NewKeyDurable => start[r.newKey := r.key]
    case RecoveryAnchorDurable => start[r.newKey := r.key][r.recovery := start[r.current]]
    case CurrentAnchorReplaced => start[r.newKey := r.key][r.recovery := start[r.current]][r.current := r.anchor]
  }

  /** No file is left incomplete: the files are those of the phase reported, or of the next one when only the
      synchronization that would have reported it has failed. */
  ghost predicate LeftCleanly(start: Files, s: Files, r: Rotation, outcome: Outcome) {
    if r.current !in start then s == start && outcome == Stopped(Preflight)
    else
      match outcome
      case Rotated => s == FilesAt(start, r, CurrentAnchorReplaced)
      case Stopped(Preflight) => s in {start, FilesAt(start, r, NewKeyDurable)}
      case Stopped(NewKeyDurable) => s in {FilesAt(start, r, NewKeyDurable), FilesAt(start, r, RecoveryAnchorDurable)}
      case Stopped(phase) => s == FilesAt(start, r, phase)
  }

  /** `usable` is the outcome of every read-only check before the first write: the current head
      authenticates the library, paths and parents are safe, and the new head verifies. */
  method RotateSigningKey(store: ExternalFiles, r: Rotation, pid: nat, usable: bool)
    returns (outcome: Outcome)
    requires store.Valid()
    modifies store
    ensures store.Valid() && old(store.trail) <= store.trail
    ensures forall i | |old(store.trail)| <= i < |store.trail| :: DuringRotation(old(store.files), store.trail[i], r)
    ensures DuringRotation(old(store.files), store.files, r)
    ensures Truthful(old(store.files), store.files, r, outcome)
    ensures outcome.Rotated? ==>
              && CanRotate(old(store.files), r, pid)
              && store.files == old(store.files)[r.newKey := r.key][r.recovery := old(store.files)[r.current]]
                                                [r.current := r.anchor]
    // Only a failing step keeps a rotation that is usable and possible from being made.
    ensures outcome.Rotated? <==> usable && CanRotate(old(store.files), r, pid) && store.failures == old(store.failures)
    // A single failing step leaves only complete files, and exactly those of the phase.
    ensures old(store.failures) <= store.failures
    ensures store.failures <= old(store.failures) + 1 ==> LeftCleanly(old(store.files), store.files, r, outcome)
  {
    if r.current == r.newKey || r.current == r.recovery || r.newKey == r.recovery {
      return Stopped(Preflight);
    }
    if !usable || r.current !in store.files || r.newKey in store.files || r.recovery in store.files {
      return Stopped(Preflight);
    }
    var oldBytes := store.files[r.current];
    var created := store.WriteCreateNew(r.newKey, r.key);
    if !created {
      return Stopped(Preflight);
    }
    created := store.WriteCreateNew(r.recovery, oldBytes);
    if !created {
      return Stopped(NewKeyDurable);
    }
    var replaced, renamed := store.AtomicReplace(r.current, r.anchor, pid);
    if !replaced {
      return Stopped(if renamed then CurrentAnchorReplaced else RecoveryAnchorDurable);
    }
    return Rotated;
  }

  // ---------------------------------------------------------------- Any number of rotations

  /** `states[k + 1]` is where rotation `k`, begun at `states[k]`, ended, failed or was stopped. */
  ghost predicate Rotations(states: seq<Files>, rotations: seq<Rotation>) {
    && |states| == |rotations| + 1
    && forall k {:trigger rotations[k]} | 0 <= k < |rotations| ::
         DuringRotation(states[k], states[k + 1], rotations[k])
  }

  ghost predicate Holds(s: Files, content: seq<byte>) {
    exists p :: p in s && s[p] == content
  }

  lemma RotationLosesNothing(start: Files, s: Files, r: Rotation, content: seq<byte>)
    requires DuringRotation(start, s, r) && Holds(start, content)
    ensures Holds(s, content)
  {
    var p :| p in start && start[p] == content;
    if p == r.current && s[p] != start[p] {
      assert r.recovery in s && s[r.recovery] == content;
    } else {
      assert p in s && s[p] == content;
    }
  }

  // Whatever rotations follow, and wherever each is cut short, no file content is ever lost: every
  // former trusted head and every key is still held in full by some file.
  lemma {:induction false} NoFormerAnchorIsLost(states: seq<Files>, rotations: seq<Rotation>, i: nat, j: nat,
                                                content: seq<byte>)
    requires Rotations(states, rotations) && i <= j < |states| && Holds(states[i], content)
    ensures Holds(states[j], content)
    decreases j - i
  {
    if i < j {
      NoFormerAnchorIsLost(states, rotations, i, j - 1, content);
      RotationLosesNothing(states[j - 1], states[j], rotations[j - 1], content);
    }
  }
}
