/**
 The crash-safe replacement of the binary and its repair (pkg/supply/replace.go:92-155,
 190-202, 248-265, pkg/supply/recover.go:45-101): four sibling files, changed by renames,
 removals and atomic writes, any of which may be refused or cut off by the process dying.
 */
module Replace {
  import opened Bytes

  datatype Name = Target | Candidate | Backup | Journal

  /** What becomes of one file operation. */
  datatype Fate = Does | Refuses | Dies

  /** The files, and the fates of the operations to come; when they run out, all are done. */
  datatype World = World(
    target: Option<bytes>, candidate: Option<bytes>, backup: Option<bytes>, journal: Option<bytes>,
    fates: seq<Fate>)
  {
    function At(n: Name): Option<bytes> {
      match n
      case Target => target
      case Candidate => candidate
      case Backup => backup
      case Journal => journal
    }

    function With(n: Name, v: Option<bytes>): World {
      match n
      case Target => this.(target := v)
      case Candidate => this.(candidate := v)
      case Backup => this.(backup := v)
      case Journal => this.(journal := v)
    }

    function Fate(): Fate {
      if fates == [] then Does else fates[0]
    }

    function Tick(): World {
      if fates == [] then this else this.(fates := fates[1..])
    }
  }

  /** How a step ended: done, failed, or the process died in it. */
  datatype Outcome = Done | Failed | Dead

  // ------------------------------------------------------------------- single operations

  function RenameFile(w: World, src: Name, dst: Name): (World, Outcome) {
    match w.Fate()
    case Dies => (w.Tick(), Dead)
    case Refuses => (w.Tick(), Failed)
    case Does =>
      if w.At(src).None? then (w.Tick(), Failed)
      else (w.Tick().With(dst, w.At(src)).With(src, None), Done)
  }

  /** Removing a file that is not there counts as done: every caller ignores that error. */
  function RemoveFile(w: World, n: Name): (World, Outcome) {
    match w.Fate()
    case Dies => (w.Tick(), Dead)
    case Refuses => (w.Tick(), Failed)
    case Does => (w.Tick().With(n, None), Done)
  }

  function WriteFile(w: World, n: Name, data: bytes): (World, Outcome) {
    match w.Fate()
    case Dies => (w.Tick(), Dead)
    case Refuses => (w.Tick(), Failed)
    case Does => (w.Tick().With(n, Some(data)), Done)
  }

  // --------------------------------------------------------------------------- the steps

  /** Rename, and when that is refused, remove the destination and rename again. */
  function RenameOver(w: World, src: Name, dst: Name): (World, Outcome) {
    var (w1, r1) := RenameFile(w, src, dst);
    if r1 != Failed then (w1, r1) else
    var (w2, r2) := RemoveFile(w1, dst);
    if r2 != Done then (w2, r2) else RenameFile(w2, src, dst)
  }

  function RestoreBackup(w: World): (World, Outcome) {
    if w.target.None? && w.backup.Some? then RenameOver(w, Backup, Target) else (w, Done)
  }

  function Install(w: World): (World, Outcome) {
    var (w1, r1) := RenameOver(w, Candidate, Target);
    if r1 != Failed then (w1, r1) else
    var (w2, r2) := RestoreBackup(w1);
    (w2, if r2 == Dead then Dead else Failed)
  }

  function FinishCommit(w: World): (World, Outcome) {
    if w.target.None? then Install(w) else
    var (w1, r1) := RenameOver(w, Target, Backup);
    if r1 != Done then (w1, r1) else Install(w1)
  }

  /** removeJournal ignores a refusal. */
  function DropJournal(w: World): (World, Outcome) {
    var (w1, r1) := RemoveFile(w, Journal);
    (w1, if r1 == Dead then Dead else Done)
  }

  function CommitArtifact(w: World, artifact: bytes, doc: bytes): (World, Outcome) {
    var (w1, r1) := WriteFile(w, Candidate, artifact);
    if r1 != Done then (w1, r1) else
    var (w2, r2) := WriteFile(w1, Journal, doc);
    if r2 != Done then (w2, r2) else
    var (w3, r3) := FinishCommit(w2);
    if r3 != Done then (w3, r3) else DropJournal(w3)
  }

  datatype Repair = Nothing | Completed | RolledBack | Cleaned | Stuck | RepairFailed | Interrupted

  function Ended(r: Outcome, done: Repair): Repair {
    match r
    case Done => done
    case Failed => RepairFailed
    case Dead => Interrupted
  }

  function RecoverJournaled(w: World): (World, Repair) {
    if w.candidate.Some? then
      var (w1, r1) := FinishCommit(w);
      if r1 != Done then (w1, Ended(r1, Completed)) else
      var (w2, r2) := DropJournal(w1);
      (w2, Ended(r2, Completed))
    else if w.target.None? then
      if w.backup.None? then (w, Stuck) else
      var (w1, r1) := RenameOver(w, Backup, Target);
      if r1 != Done then (w1, Ended(r1, RolledBack)) else
      var (w2, r2) := DropJournal(w1);
      (w2, Ended(r2, RolledBack))
    else
      var (w1, r1) := DropJournal(w);
      (w1, Ended(r1, Cleaned))
  }

  function Recover(w: World): (World, Repair) {
    if w.journal.Some? then RecoverJournaled(w)
    else if w.target.None? && w.backup.Some? then
      var (w1, r1) := RenameOver(w, Backup, Target);
      if r1 != Done then (w1, Ended(r1, RolledBack)) else
      var (w2, r2) := RemoveFile(w1, Candidate);
      (w2, if r2 == Dead then Interrupted else RolledBack)
    else if w.candidate.Some? then
      var (w1, r1) := RemoveFile(w, Candidate);
      (w1, Ended(r1, Cleaned))
    else (w, Nothing)
  }

  // --------------------------------------------------------------------- the code's own form

  class Layout {
    var target: Option<bytes>
    var candidate: Option<bytes>
    var backup: Option<bytes>
    var journal: Option<bytes>
    var fates: seq<Fate>

    constructor (w: World)
      ensures State() == w
    {
      target, candidate, backup, journal, fates := w.target, w.candidate, w.backup, w.journal, w.fates;
    }

    function State(): World
      reads this
    {
      World(target, candidate, backup, journal, fates)
    }

    function Exists(n: Name): bool
      reads this
    {
      State().At(n).Some?
    }

    /** The fate of the operation at hand. */
    method NextFate() returns (f: Fate)
      modifies this`fates
      ensures f == old(State()).Fate() && State() == old(State()).Tick()
    {
      if fates == [] {
        return Does;
      }
      f := fates[0];
      fates := fates[1..];
    }

    method Set(n: Name, v: Option<bytes>)
      modifies this
      ensures State() == old(State()).With(n, v)
    {
      match n
      case Target => target := v;
      case Candidate => candidate := v;
      case Backup => backup := v;
      case Journal => journal := v;
    }

    method Rename(src: Name, dst: Name) returns (r: Outcome)
      modifies this
      ensures (State(), r) == RenameFile(old(State()), src, dst)
    {
      var f := NextFate();
      if f == Dies {
        return Dead;
      }
      if f == Refuses || !Exists(src) {
        return Failed;
      }
      Set(dst, State().At(src));
      Set(src, None);
      return Done;
    }

    method Remove(n: Name) returns (r: Outcome)
      modifies this
      ensures (State(), r) == RemoveFile(old(State()), n)
    {
      var f := NextFate();
      if f == Dies {
        return Dead;
      }
      if f == Refuses {
        return Failed;
      }
      Set(n, None);
      return Done;
    }

    method Write(n: Name, data: bytes) returns (r: Outcome)
      modifies this
      ensures (State(), r) == WriteFile(old(State()), n, data)
    {
      var f := NextFate();
      if f == Dies {
        return Dead;
      }
      if f == Refuses {
        return Failed;
      }
      Set(n, Some(data));
      return Done;
    }

    method MoveOver(src: Name, dst: Name) returns (r: Outcome)
      modifies this
      ensures (State(), r) == RenameOver(old(State()), src, dst)
    {
      hide RenameFile, RemoveFile;
      r := Rename(src, dst);
      if r != Failed {
        return;
      }
      r := Remove(dst);
      if r != Done {
        return;
      }
      r := Rename(src, dst);
    }

    method PutBackupBack() returns (r: Outcome)
      modifies this
      ensures (State(), r) == RestoreBackup(old(State()))
    {
      hide RenameOver;
      r := Done;
      if !Exists(Target) && Exists(Backup) {
        r := MoveOver(Backup, Target);
      }
    }

    method Finish() returns (r: Outcome)
      modifies this
      ensures (State(), r) == FinishCommit(old(State()))
    {
      hide RenameOver, RestoreBackup;
      if Exists(Target) {
        r := MoveOver(Target, Backup);
        if r != Done {
          return;
        }
      }
      r := MoveOver(Candidate, Target);
      if r == Failed {
        r := PutBackupBack();
        r := if r == Dead then Dead else Failed;
      }
    }

    method RemoveJournal() returns (r: Outcome)
      modifies this
      ensures (State(), r) == DropJournal(old(State()))
    {
      hide RemoveFile;
      r := Remove(Journal);
      r := if r == Dead then Dead else Done;
    }

    method Commit(artifact: bytes, doc: bytes) returns (r: Outcome)
      modifies this
      ensures (State(), r) == CommitArtifact(old(State()), artifact, doc)
    {
      hide WriteFile, FinishCommit, DropJournal;
      r := Write(Candidate, artifact);
      if r != Done {
        return;
      }
      r := Write(Journal, doc);
      if r != Done {
        return;
      }
      r := Finish();
      if r == Done {
        r := RemoveJournal();
      }
    }

    method RepairJournaled() returns (repair: Repair)
      modifies this
      ensures (State(), repair) == RecoverJournaled(old(State()))
    {
      hide FinishCommit, DropJournal, RenameOver;
      var r: Outcome;
      if Exists(Candidate) {
        r := Finish();
        if r == Done {
          r := RemoveJournal();
        }
        return Ended(r, Completed);
      }
      if !Exists(Target) {
        if !Exists(Backup) {
          return Stuck;
        }
        r := MoveOver(Backup, Target);
        if r == Done {
          r := RemoveJournal();
        }
        return Ended(r, RolledBack);
      }
      r := RemoveJournal();
      return Ended(r, Cleaned);
    }

    method Repair() returns (repair: Repair)
      modifies this
      ensures (State(), repair) == Recover(old(State()))
    {
      hide RecoverJournaled, RenameOver, RemoveFile;
      var r: Outcome;
      if Exists(Journal) {
        repair := RepairJournaled();
      } else if !Exists(Target) && Exists(Backup) {
        r := MoveOver(Backup, Target);
        if r != Done {
          return Ended(r, RolledBack);
        }
        r := Remove(Candidate);
        return if r == Dead then Interrupted else RolledBack;
      } else if Exists(Candidate) {
        r := Remove(Candidate);
        return Ended(r, Cleaned);
      } else {
        return Nothing;
      }
    }
  }
}
