/**
 Crash safety of the binary replacement: no refusal of an operation and no death of the
 process, in an update or in any repair, costs the install its runnable binary.
 */
module ReplaceLaws {
  import opened Bytes
  import opened Replace

  lemma WithAt(w: World, n: Name, v: Option<bytes>)
    ensures forall k :: w.With(n, v).At(k) == if k == n then v else w.At(k)
    ensures w.With(n, v).fates == w.fates
  {
  }

  lemma TickAt(w: World)
    ensures forall k :: w.Tick().At(k) == w.At(k)
    ensures w.fates == [] ==> w.Tick() == w
  {
  }

  lemma RenameFacts(w: World, src: Name, dst: Name)
    requires src != dst
    ensures
      var (w1, r1) := RenameFile(w, src, dst);
      && (if r1 == Done then w.At(src).Some? && w1.At(dst) == w.At(src) && w1.At(src) == None
          else w1.At(src) == w.At(src) && w1.At(dst) == w.At(dst))
      && (forall n :: n != src && n != dst ==> w1.At(n) == w.At(n))
      && (w.fates == [] ==> w1.fates == [] && (w.At(src).Some? ==> r1 == Done))
  {
    hide World.At, World.With;
    TickAt(w);
    WithAt(w.Tick(), dst, w.At(src));
    WithAt(w.Tick().With(dst, w.At(src)), src, None);
  }

  lemma RemoveFacts(w: World, n: Name)
    ensures
      var (w1, r1) := RemoveFile(w, n);
      && (if r1 == Done then w1.At(n) == None else w1.At(n) == w.At(n))
      && (forall k :: k != n ==> w1.At(k) == w.At(k))
      && (w.fates == [] ==> w1.fates == [])
  {
    hide World.At, World.With;
    TickAt(w);
    WithAt(w.Tick(), n, None);
  }

  /** What renameOver does, whatever is refused: all of it, or at most the destination is gone. */
  lemma RenameOverFacts(w: World, src: Name, dst: Name)
    requires src != dst
    ensures
      var (w1, r1) := RenameOver(w, src, dst);
      && (forall n :: n != src && n != dst ==> w1.At(n) == w.At(n))
      && (if r1 == Done then w.At(src).Some? && w1.At(dst) == w.At(src) && w1.At(src) == None
          else w1.At(src) == w.At(src) && (w1.At(dst) == w.At(dst) || w1.At(dst) == None))
      && (w.fates == [] ==> w1.fates == [] && (w.At(src).Some? ==> r1 == Done))
  {
    hide World.At, World.With, RenameFile, RemoveFile;
    RenameFacts(w, src, dst);
    var (w1, r1) := RenameFile(w, src, dst);
    RemoveFacts(w1, dst);
    RenameFacts(RemoveFile(w1, dst).0, src, dst);
  }

  /** The same, on the files by name. */
  lemma InstallFacts(w: World)
    requires w.candidate.Some? && w.target.None?
    ensures
      var (w1, r1) := Install(w);
      && w1.journal == w.journal
      && (if r1 == Done then w1.target == w.candidate && w1.candidate == None && w1.backup == w.backup
          else
            && w1.candidate == w.candidate
            && ((w1.target == None && w1.backup == w.backup) || (w1.target == w.backup && w1.backup == None)))
      && (w.fates == [] ==> r1 == Done && w1.fates == [])
  {
    hide RenameOver;
    RenameOverFacts(w, Candidate, Target);
    var (w1, r1) := RenameOver(w, Candidate, Target);
    assert w1.At(Target) == w1.target && w1.At(Candidate) == w1.candidate;
    assert w1.At(Backup) == w1.backup == w.At(Backup) && w1.At(Journal) == w1.journal == w.At(Journal);
    if r1 == Failed {
      RenameOverFacts(w1, Backup, Target);
      var (w2, r2) := RenameOver(w1, Backup, Target);
      assert w2.At(Target) == w2.target && w2.At(Candidate) == w2.candidate == w1.At(Candidate);
      assert w2.At(Backup) == w2.backup && w2.At(Journal) == w2.journal == w1.At(Journal);
    }
  }

  /** What finishCommit may leave of a candidate and a binary, in place or backed up. */
  lemma FinishFacts(w: World)
    requires w.candidate.Some?
    ensures
      var (w1, r1) := FinishCommit(w);
      var live := if w.target.Some? then w.target else w.backup;
      && w1.journal == w.journal
      && (if r1 == Done then w1.target == w.candidate && w1.candidate == None && w1.backup == live
          else
            && w1.candidate == w.candidate
            && ((w1.target == None && w1.backup == live)
                || (w1.target == live && (w1.backup == None || w1.backup == w.backup))))
      && (w.fates == [] ==> r1 == Done && w1.fates == [])
  {
    hide RenameOver, Install;
    if w.target.None? {
      InstallFacts(w);
    } else {
      RenameOverFacts(w, Target, Backup);
      var (w1, r1) := RenameOver(w, Target, Backup);
      assert w1.At(Target) == w1.target && w1.At(Candidate) == w1.candidate == w.At(Candidate);
      assert w1.At(Backup) == w1.backup && w1.At(Journal) == w1.journal == w.At(Journal);
      if r1 == Done {
        InstallFacts(w1);
      }
    }
  }

  // ------------------------------------------------------------------- one update's outcome

  /** The journal was never written: the old binary is in place. */
  predicate Untouched(w: World, was: bytes) {
    w.journal.None? && w.target == Some(was)
  }

  /** Journaled: the candidate waits, and the old binary is in place or backed up. */
  predicate InFlight(w: World, was: bytes, artifact: bytes) {
    && w.journal.Some? && w.candidate == Some(artifact)
    && (w.target == Some(was) || (w.target.None? && w.backup == Some(was)))
  }

  predicate Installed(w: World, artifact: bytes) {
    w.candidate.None? && w.target == Some(artifact)
  }

  predicate Committed(w: World, was: bytes, artifact: bytes) {
    InFlight(w, was, artifact) || Installed(w, artifact)
  }

  /** The first two operations are the staging and the journal. */
  predicate JournalWritten(fates: seq<Fate>) {
    && (|fates| > 0 ==> fates[0] == Does)
    && (|fates| > 1 ==> fates[1] == Does)
  }

  lemma FinishCommits(w: World, was: bytes, artifact: bytes)
    requires InFlight(w, was, artifact)
    ensures
      var (w1, r1) := FinishCommit(w);
      && Committed(w1, was, artifact) && w1.journal == w.journal
      && (r1 == Done ==> Installed(w1, artifact))
      && (w.fates == [] ==> r1 == Done && w1.fates == [])
  {
    hide FinishCommit;
    FinishFacts(w);
  }

  lemma CommitOutcome(w: World, was: bytes, artifact: bytes, doc: bytes)
    requires w.journal.None? && w.target == Some(was)
    ensures
      var (w1, r1) := CommitArtifact(w, artifact, doc);
      && (if JournalWritten(w.fates) then Committed(w1, was, artifact) else Untouched(w1, was))
      && (r1 == Done ==> Installed(w1, artifact))
  {
    hide FinishCommit;
    var (w1, r1) := WriteFile(w, Candidate, artifact);
    if r1 == Done {
      var (w2, r2) := WriteFile(w1, Journal, doc);
      if r2 == Done {
        FinishCommits(w2, was, artifact);
      }
    }
  }

  /** A repair keeps what the update decided, and never rolls back or gets stuck. */
  lemma RecoverCommitted(w: World, was: bytes, artifact: bytes)
    requires Committed(w, was, artifact)
    ensures
      var (w1, r1) := Recover(w);
      && Committed(w1, was, artifact) && r1 != RolledBack && r1 != Stuck
      && (w.fates == [] ==> Installed(w1, artifact) && w1.journal.None? && r1 != RepairFailed && r1 != Interrupted)
  {
    hide FinishCommit;
    if InFlight(w, was, artifact) {
      FinishCommits(w, was, artifact);
    }
  }

  lemma RecoverUntouched(w: World, was: bytes)
    requires Untouched(w, was)
    ensures
      var (w1, r1) := Recover(w);
      && Untouched(w1, was) && r1 != RolledBack && r1 != Stuck
      && (w.fates == [] ==> w1.candidate.None? && r1 != RepairFailed && r1 != Interrupted)
  {
  }

  /** Repairs one after the other, each with its own fates. */
  function Repairs(w: World, runs: seq<seq<Fate>>): World
    decreases |runs|
  {
    if runs == [] then w else Repairs(Recover(w.(fates := runs[0])).0, runs[1..])
  }

  lemma {:induction false} RepairsKeep(w: World, was: bytes, artifact: bytes, runs: seq<seq<Fate>>)
    ensures Untouched(w, was) ==> Untouched(Repairs(w, runs), was)
    ensures Committed(w, was, artifact) ==> Committed(Repairs(w, runs), was, artifact)
    decreases |runs|
  {
    hide Recover;
    if runs != [] {
      var w0 := w.(fates := runs[0]);
      if Untouched(w, was) {
        RecoverUntouched(w0, was);
      }
      if Committed(w, was, artifact) {
        RecoverCommitted(w0, was, artifact);
      }
      RepairsKeep(Recover(w0).0, was, artifact, runs[1..]);
    }
  }

  /** What an update does that nothing disturbs. */
  lemma UpdateInstalls(w: World, was: bytes, artifact: bytes, doc: bytes)
    requires w.journal.None? && w.target == Some(was) && w.fates == []
    ensures CommitArtifact(w, artifact, doc) == (World(Some(artifact), None, Some(was), None, []), Done)
  {
  }

  /**
   From a runnable install without a journal: whatever becomes of the update's operations
   and of those of any number of repairs, one repair that runs through leaves the new binary
   when the journal had been written and the old one otherwise, and nothing else to repair.
   When nothing becomes of them the update itself installs the artifact and keeps the old
   binary as the last known good one.
   */
  lemma CrashSafe(w: World, was: bytes, artifact: bytes, doc: bytes, runs: seq<seq<Fate>>)
    requires w.journal.None? && w.target == Some(was)
    ensures
      var w1 := Repairs(CommitArtifact(w, artifact, doc).0, runs);
      var (w2, r2) := Recover(w1.(fates := []));
      && w2.target == Some(if JournalWritten(w.fates) then artifact else was)
      && w2.journal.None? && w2.candidate.None?
      && (r2 == Nothing || r2 == Completed || r2 == Cleaned)
      && Recover(w2.(fates := [])) == (w2.(fates := []), Nothing)
    ensures w.fates == [] ==>
            CommitArtifact(w, artifact, doc) == (World(Some(artifact), None, Some(was), None, []), Done)
  {
    hide CommitArtifact, Recover, Repairs;
    if w.fates == [] {
      UpdateInstalls(w, was, artifact, doc);
    }
    CommitOutcome(w, was, artifact, doc);
    RepairsKeep(CommitArtifact(w, artifact, doc).0, was, artifact, runs);
    var w1 := Repairs(CommitArtifact(w, artifact, doc).0, runs).(fates := []);
    if JournalWritten(w.fates) {
      RecoverCommitted(w1, was, artifact);
    } else {
      RecoverUntouched(w1, was);
    }
    NothingToRepair(Recover(w1).0.(fates := []));
  }

  lemma NothingToRepair(w: World)
    requires w.journal.None? && w.candidate.None? && w.target.Some?
    ensures Recover(w) == (w, Nothing)
  {
  }

  // ------------------------------------------------------------------------- any history

  datatype Action = Update(artifact: bytes, doc: bytes, fates: seq<Fate>) | Restart(fates: seq<Fate>)

  /**
   A runnable binary is in place, or it is backed up while a candidate waits to be
   installed; and every binary on disk is one of the known complete ones.
   */
  predicate Safe(w: World, known: set<bytes>) {
    && (w.target.None? ==> w.backup.Some? && w.candidate.Some? && w.journal.Some?)
    && Known(w.target, known) && Known(w.candidate, known) && Known(w.backup, known)
  }

  predicate Known(file: Option<bytes>, known: set<bytes>) {
    file.Some? ==> file.value in known
  }

  function Perform(w: World, a: Action): World {
    match a
    case Update(artifact, doc, fates) => CommitArtifact(w.(fates := fates), artifact, doc).0
    case Restart(fates) => Recover(w.(fates := fates)).0
  }

  function History(w: World, actions: seq<Action>): World
    decreases |actions|
  {
    if actions == [] then w else History(Perform(w, actions[0]), actions[1..])
  }

  function Artifacts(actions: seq<Action>): set<bytes> {
    set i | 0 <= i < |actions| && actions[i].Update? :: actions[i].artifact
  }

  lemma FinishSafe(w: World, known: set<bytes>)
    requires Safe(w, known) && w.journal.Some? && w.candidate.Some?
    ensures Safe(FinishCommit(w).0, known)
  {
    hide FinishCommit;
    FinishFacts(w);
  }

  lemma CommitSafe(w: World, artifact: bytes, doc: bytes, known: set<bytes>)
    requires Safe(w, known) && artifact in known
    ensures Safe(CommitArtifact(w, artifact, doc).0, known)
  {
    hide FinishCommit;
    var (w1, r1) := WriteFile(w, Candidate, artifact);
    if r1 == Done {
      var (w2, r2) := WriteFile(w1, Journal, doc);
      if r2 == Done {
        FinishSafe(w2, known);
        FinishFacts(w2);
      }
    }
  }

  lemma RecoverSafe(w: World, known: set<bytes>)
    requires Safe(w, known)
    ensures
      var (w1, r1) := Recover(w);
      && Safe(w1, known) && r1 != RolledBack && r1 != Stuck
      && (w.fates == [] ==> w1.target.Some? && w1.journal.None? && w1.candidate.None?)
  {
    hide FinishCommit, RenameOver;
    if w.journal.Some? && w.candidate.Some? {
      FinishSafe(w, known);
      FinishFacts(w);
    }
  }

  lemma {:induction false} HistorySafe(w: World, actions: seq<Action>, known: set<bytes>)
    requires Safe(w, known) && Artifacts(actions) <= known
    ensures Safe(History(w, actions), known)
    decreases |actions|
  {
    hide CommitArtifact, Recover, Safe;
    if actions != [] {
      match actions[0] {
        case Update(artifact, doc, fates) =>
          SafeFates(w, known, fates);
          CommitSafe(w.(fates := fates), artifact, doc, known);
        case Restart(fates) =>
          SafeFates(w, known, fates);
          RecoverSafe(w.(fates := fates), known);
      }
      assert Artifacts(actions[1..]) <= Artifacts(actions);
      HistorySafe(Perform(w, actions[0]), actions[1..], known);
    }
  }

  lemma SafeFates(w: World, known: set<bytes>, fates: seq<Fate>)
    requires Safe(w, known)
    ensures Safe(w.(fates := fates), known)
  {
  }

  /**
   Over any history of updates and restarts, each disturbed in any way: the next repair
   never rolls back and is never stuck, and when it runs through, a complete binary, the
   first one or one of the artifacts, is in place.
   */
  lemma NeverStuck(first: bytes, backup: Option<bytes>, actions: seq<Action>, fates: seq<Fate>)
    ensures
      var w := History(World(Some(first), None, backup, None, []), actions);
      var (w1, r1) := Recover(w.(fates := fates));
      && r1 != Stuck && r1 != RolledBack
      && (fates == [] ==>
            && w1.journal.None? && w1.candidate.None? && w1.target.Some?
            && w1.target.value in {first} + Artifacts(actions) + (if backup.Some? then {backup.value} else {}))
  {
    hide CommitArtifact, Recover, History, Artifacts;
    var w0 := World(Some(first), None, backup, None, []);
    var known := {first} + Artifacts(actions) + (if backup.Some? then {backup.value} else {});
    assert Safe(w0, known);
    HistorySafe(w0, actions, known);
    var w := History(w0, actions);
    SafeFates(w, known, fates);
    RecoverSafe(w.(fates := fates), known);
  }
}
