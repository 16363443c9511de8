/** The journaled file swap of a durable checkpoint, and the boot path that resumes it. */
module Install {
  import opened Wrappers
  import opened Utf8
  import opened Journal
  import opened Disk
  import Fnv

  // ----- the boot decision -----

  datatype ResumeDecision = NoPending | Complete | ClearStaleWal | Refuse

  function DecideResume(intentPresent: bool, stagingPresent: bool, stagingMatches: bool, liveMatches: bool):
      ResumeDecision
  {
    if !intentPresent then NoPending
    else if stagingPresent then
      if stagingMatches then Complete else Refuse
    else if liveMatches then ClearStaleWal
    else Refuse
  }

  function PendingIntent(db: Path, fs: Files): Option<Intent>
  {
    if IntentPath(db) in fs then ReadIntent(fs[IntentPath(db)]) else None
  }

  predicate Matches(p: Path, hash: Fnv.Word, fs: Files) { p in fs && Fnv.Hash(fs[p]) == hash }

  function Decide(db: Path, fs: Files): ResumeDecision
  {
    match PendingIntent(db, fs)
    case None => DecideResume(false, false, false, false)
    case Some(i) => DecideResume(true, i.staging in fs, Matches(i.staging, i.hash, fs), Matches(i.target, i.hash, fs))
  }

  /** What the boot path then does to the disk. */
  function ResumeOps(db: Path, fs: Files): seq<Op>
  {
    match PendingIntent(db, fs)
    case None => []
    case Some(i) =>
      match Decide(db, fs)
      case NoPending => []
      case Complete => [Rename(i.staging, i.target), RemoveIfPresent(WalPath(i.target)), Remove(IntentPath(db))]
      case ClearStaleWal => [RemoveIfPresent(WalPath(i.target)), Remove(IntentPath(db))]
      case Refuse => [Copy(IntentPath(db), EvidencePath(db))]
  }

  datatype ResumeOutcome = Resumed(decision: ResumeDecision) | Refused | Panicked

  function Outcome(db: Path, fs: Files): ResumeOutcome
  {
    if !Completes(ResumeOps(db, fs), fs) then Panicked
    else if Decide(db, fs) == Refuse then Refused
    else Resumed(Decide(db, fs))
  }

  // ----- the forward protocol -----

  function NewIntent(db: Path, built: Bytes): Intent
  {
    Intent(StagingPath(db), Fnv.Hash(built), db)
  }

  function BuildOps(db: Path, built: Bytes): (ops: seq<Op>)
    ensures |ops| == |built| + 1
  {
    [Truncate(StagingPath(db))] + Appends(StagingPath(db), built)
  }

  function SwapOps(db: Path, built: Bytes): (ops: seq<Op>)
    ensures |ops| == 4
  {
    [Put(IntentPath(db), Encode(Format(NewIntent(db, built)))),
     Rename(StagingPath(db), db),
     RemoveIfPresent(WalPath(db)),
     Remove(IntentPath(db))]
  }

  function ForwardOps(db: Path, built: Bytes): (ops: seq<Op>)
    ensures |ops| == |built| + 5
  {
    BuildOps(db, built) + SwapOps(db, built)
  }

  // ----- the same steps as code that changes the disk -----

  datatype CrashPoint = AfterStagingBeforeJournal | AfterJournalBeforeRename | AfterRenameBeforeWalClear | NoCrash

  /** How many of the swap's steps are done when the process stops at `c`. */
  function SwapSteps(c: CrashPoint): (k: nat)
    ensures k <= 4
  {
    match c
    case AfterStagingBeforeJournal => 0
    case AfterJournalBeforeRename => 1
    case AfterRenameBeforeWalClear => 2
    case NoCrash => 4
  }

  function SetUp(db: Path, old_: Bytes, wal: Bytes, built: Bytes, fs: Files): Files
  {
    fs[db := old_][WalPath(db) := wal][StagingPath(db) := built]
  }

  class Volume {
    var files: Files

    method HashFile(p: Path) returns (h: Option<Fnv.Word>)
      ensures h == if p in files then Some(Fnv.Hash(files[p])) else None
    {
      if p !in files { return None; }
      var w := Fnv.Fnv1a(files[p]);
      h := Some(w);
    }

    /** `atomic_install_sim`: rename the staging file over the target, delete the target's WAL. */
    method AtomicInstall(staging: Path, target: Path)
      requires staging in files
      modifies this
      ensures files == Exec([Rename(staging, target), RemoveIfPresent(WalPath(target))], old(files))
      ensures Completes([Rename(staging, target), RemoveIfPresent(WalPath(target))], old(files))
    {
      if staging != target {
        files := files[target := files[staging]] - {staging};
      }
      ghost var renamed := files;
      if WalPath(target) in files {
        files := files - {WalPath(target)};
      }
      assert files == renamed - {WalPath(target)};
      ExecTwo(Rename(staging, target), RemoveIfPresent(WalPath(target)), old(files));
    }

    /** `run_forward`: an old database with its WAL, a finished staging file, then the swap, stopped at
        a crash point. */
    method RunForward(db: Path, old_: Bytes, wal: Bytes, built: Bytes, crash: CrashPoint)
      modifies this
      ensures files == Exec(SwapOps(db, built)[..SwapSteps(crash)], SetUp(db, old_, wal, built, old(files)))
    {
      hide Exec, Completes, SwapOps, Encode, Format, Fnv.Hash;
      files := files[db := old_];
      files := files[WalPath(db) := wal];
      files := files[StagingPath(db) := built];
      Distinct(db);
      SwapPrefix(db, built, SwapSteps(crash), files);
      hide SetUp;
      if crash == AfterStagingBeforeJournal { return; }
      var hash := Fnv.Fnv1a(files[StagingPath(db)]);
      files := files[IntentPath(db) := Encode(Format(Intent(StagingPath(db), hash, db)))];
      if crash == AfterJournalBeforeRename { return; }
      files := files[db := files[StagingPath(db)]] - {StagingPath(db)};
      if crash == AfterRenameBeforeWalClear { return; }
      ghost var renamed := files;
      if WalPath(db) in files {
        files := files - {WalPath(db)};
      }
      assert files == renamed - {WalPath(db)};
      files := files - {IntentPath(db)};
    }

    /** `resume_sim`, called at boot before the database is opened. */
    method Resume(db: Path) returns (r: ResumeOutcome)
      modifies this
      ensures r == Outcome(db, old(files))
      ensures files == Exec(ResumeOps(db, old(files)), old(files))
    {
      var intent := if IntentPath(db) in files then ReadIntent(files[IntentPath(db)]) else None;
      if intent.None? { return Resumed(NoPending); }
      hide Exec, Completes, ReadIntent, Fnv.Hash;
      var i := intent.value;
      var stagingHash := HashFile(i.staging);
      var liveHash := HashFile(i.target);
      var d := DecideResume(true, i.staging in files, stagingHash == Some(i.hash), liveHash == Some(i.hash));
      ghost var ops := ResumeOps(db, files);
      match d
      case Complete =>
        r := Finish(db, i);
      case ClearStaleWal =>
        r := ClearStale(db, i);
      case Refuse =>
        ExecOne(ops[0], files);
        assert ops == [ops[0]];
        files := files[EvidencePath(db) := files[IntentPath(db)]];
        r := Refused;
      case NoPending =>
        r := Resumed(d);
    }

    /** The rest of the swap, from the rename on. */
    method Finish(db: Path, i: Intent) returns (r: ResumeOutcome)
      requires i.staging in files
      modifies this
      ensures var ops := [Rename(i.staging, i.target), RemoveIfPresent(WalPath(i.target)), Remove(IntentPath(db))];
        && files == Exec(ops, old(files))
        && r == if Completes(ops, old(files)) then Resumed(Complete) else Panicked
    {
      hide Exec, Completes;
      ghost var first := [Rename(i.staging, i.target), RemoveIfPresent(WalPath(i.target))];
      assert first + [Remove(IntentPath(db))] ==
        [Rename(i.staging, i.target), RemoveIfPresent(WalPath(i.target)), Remove(IntentPath(db))];
      AtomicInstall(i.staging, i.target);
      ExecConcat(first, [Remove(IntentPath(db))], old(files));
      r := ClearIntent(db, Complete);
    }

    /** The rest of the swap once the rename is done. */
    method ClearStale(db: Path, i: Intent) returns (r: ResumeOutcome)
      modifies this
      ensures var ops := [RemoveIfPresent(WalPath(i.target)), Remove(IntentPath(db))];
        && files == Exec(ops, old(files))
        && r == if Completes(ops, old(files)) then Resumed(ClearStaleWal) else Panicked
    {
      hide Exec, Completes;
      ghost var first := [RemoveIfPresent(WalPath(i.target))];
      assert first + [Remove(IntentPath(db))] == [RemoveIfPresent(WalPath(i.target)), Remove(IntentPath(db))];
      ExecOne(RemoveIfPresent(WalPath(i.target)), files);
      ExecConcat(first, [Remove(IntentPath(db))], files);
      if WalPath(i.target) in files {
        files := files - {WalPath(i.target)};
      }
      assert files == old(files) - {WalPath(i.target)};
      r := ClearIntent(db, ClearStaleWal);
    }

    method ClearIntent(db: Path, d: ResumeDecision) returns (r: ResumeOutcome)
      modifies this
      ensures files == Exec([Remove(IntentPath(db))], old(files))
      ensures r == if Completes([Remove(IntentPath(db))], old(files)) then Resumed(d) else Panicked
    {
      if IntentPath(db) !in files { return Panicked; }
      files := files - {IntentPath(db)};
      r := Resumed(d);
    }
  }

  lemma ExecOne(a: Op, fs: Files)
    ensures Completes([a], fs) == CanDo(a, fs)
    ensures Exec([a], fs) == if CanDo(a, fs) then Do(a, fs) else fs
  {
  }

  lemma ExecTwo(a: Op, b: Op, fs: Files)
    requires CanDo(a, fs) && CanDo(b, Do(a, fs))
    ensures Completes([a, b], fs)
    ensures Exec([a, b], fs) == Do(b, Do(a, fs))
  {
    assert [a, b] == [a] + [b];
    ExecOne(a, fs);
    ExecOne(b, Do(a, fs));
    ExecConcat([a], [b], fs);
  }

  lemma OneMore(ops: seq<Op>, k: nat, fs: Files)
    requires k < |ops| && Completes(ops[..k], fs) && CanDo(ops[k], Exec(ops[..k], fs))
    ensures Completes(ops[..k + 1], fs)
    ensures Exec(ops[..k + 1], fs) == Do(ops[k], Exec(ops[..k], fs))
  {
    assert ops[..k + 1] == ops[..k] + [ops[k]];
    ExecOne(ops[k], Exec(ops[..k], fs));
    ExecConcat(ops[..k], [ops[k]], fs);
  }

  /** The disk after `k` steps of the swap. */
  function Swapped(db: Path, built: Bytes, k: nat, fs: Files): Files
    requires k <= 4
  {
    var journaled := fs[IntentPath(db) := Encode(Format(NewIntent(db, built)))];
    var renamed := journaled[db := built] - {StagingPath(db)};
    if k == 0 then fs
    else if k == 1 then journaled
    else if k == 2 then renamed
    else if k == 3 then renamed - {WalPath(db)}
    else renamed - {WalPath(db)} - {IntentPath(db)}
  }

  lemma {:induction false} SwapPrefix(db: Path, built: Bytes, k: nat, fs: Files)
    requires k <= 4 && StagingPath(db) in fs && fs[StagingPath(db)] == built
    ensures Completes(SwapOps(db, built)[..k], fs)
    ensures Exec(SwapOps(db, built)[..k], fs) == Swapped(db, built, k, fs)
  {
    if k == 0 {
    } else {
      Distinct(db);
      SwapPrefix(db, built, k - 1, fs);
      OneMore(SwapOps(db, built), k - 1, fs);
    }
  }

  /** What `RunForward` leaves on a disk that held `fs`, file by file. */
  lemma CrashLeaves(db: Path, old_: Bytes, wal: Bytes, built: Bytes, fs: Files, crash: CrashPoint)
    ensures var start := fs[db := old_][WalPath(db) := wal][StagingPath(db) := built];
      var journaled := start[IntentPath(db) := Encode(Format(Intent(StagingPath(db), Fnv.Hash(built), db)))];
      Exec(SwapOps(db, built)[..SwapSteps(crash)], SetUp(db, old_, wal, built, fs)) ==
        match crash
        case AfterStagingBeforeJournal => start
        case AfterJournalBeforeRename => journaled
        case AfterRenameBeforeWalClear => journaled[db := built] - {StagingPath(db)}
        case NoCrash => fs[db := built] - {WalPath(db), StagingPath(db), IntentPath(db)}
  {
    hide Exec, SwapOps, Encode, Format, Fnv.Hash;
    Distinct(db);
    SwapPrefix(db, built, SwapSteps(crash), SetUp(db, old_, wal, built, fs));
  }

  lemma Distinct(db: Path)
    ensures db != WalPath(db) && db != IntentPath(db) && db != StagingPath(db) && db != EvidencePath(db)
    ensures WalPath(db) != IntentPath(db) && WalPath(db) != StagingPath(db) && WalPath(db) != EvidencePath(db)
    ensures IntentPath(db) != StagingPath(db) && IntentPath(db) != EvidencePath(db)
    ensures StagingPath(db) != EvidencePath(db)
  {
  }
}
