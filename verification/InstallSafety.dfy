/** What the install journal guarantees over every crash schedule. */
module InstallSafety {
  import opened Wrappers
  import opened Utf8
  import opened Journal
  import opened Disk
  import opened Install
  import Fnv

  function Min(a: nat, b: nat): nat { if a < b then a else b }

  /** A boot whose resume is cut after `cut` file operations (or finishes, when it has no more). */
  function CutBoot(db: Path, fs: Files, cut: nat): Files
  {
    Exec(ResumeOps(db, fs)[..Min(cut, |ResumeOps(db, fs)|)], fs)
  }

  function CutBoots(db: Path, fs: Files, cuts: seq<nat>): Files
    decreases |cuts|
  {
    if cuts == [] then fs else CutBoots(db, CutBoot(db, fs, cuts[0]), cuts[1..])
  }

  function FinishedBoot(db: Path, fs: Files): Files { Exec(ResumeOps(db, fs), fs) }

  /** A live database, with or without a WAL, and no pending journal. Any staging leftover. */
  predicate Idle(db: Path, fs: Files)
  {
    db in fs && IntentPath(db) !in fs && LineSafe(db)
  }

  ghost predicate OldKept(db: Path, before: Files, fs: Files)
  {
    IntentPath(db) !in fs && Same(fs, before, {StagingPath(db)})
  }

  ghost predicate NewInstalled(db: Path, built: Bytes, before: Files, fs: Files)
  {
    && db in fs && fs[db] == built
    && WalPath(db) !in fs && StagingPath(db) !in fs && IntentPath(db) !in fs
    && Same(fs, before, {db, WalPath(db), StagingPath(db), IntentPath(db)})
  }

  /** Whatever step the checkpoint stopped at, and however many boots were cut at whatever step,
      the next boot that runs to its end succeeds. It leaves the old database with its own WAL,
      or the new database with none, and which one depends on the journal write alone: the
      operation after the `|built| + 1` that make the staging file. */
  lemma CrashSafe(db: Path, built: Bytes, before: Files, k: nat, cuts: seq<nat>)
    requires Idle(db, before) && k <= |built| + 5
    ensures var fs := CutBoots(db, Exec(ForwardOps(db, built)[..k], before), cuts);
      && Outcome(db, fs).Resumed?
      && if k <= |built| + 1 then OldKept(db, before, FinishedBoot(db, fs))
         else NewInstalled(db, built, before, FinishedBoot(db, fs))
  {
    hide Exec, Completes, Swapped, SwapOps, Outcome, FinishedBoot, CutBoots, CutBoot, NewInstalled;
    var build := BuildOps(db, built);
    if k <= |build| {
      assert ForwardOps(db, built)[..k] == build[..k];
      BuildPrefix(db, built, k, before);
      var fs := Exec(build[..k], before);
      Distinct(db);
      NothingPending(db, fs, cuts);
    } else {
      var j := k - |build|;
      assert ForwardOps(db, built)[..k] == build + SwapOps(db, built)[..j];
      BuildPrefix(db, built, |build|, before);
      assert build[..|build|] == build;
      var staged := Exec(build, before);
      ExecConcat(build, SwapOps(db, built)[..j], before);
      SwapPrefix(db, built, j, staged);
      var last := PendingBoots(db, built, staged, j, cuts);
      var done := PendingBoot(db, built, staged, last, 4);
      InstalledWhenSwapped(db, built, before, staged);
    }
  }

  lemma BuildPrefix(db: Path, built: Bytes, k: nat, before: Files)
    requires k <= |BuildOps(db, built)|
    ensures var ops := BuildOps(db, built)[..k];
      && Completes(ops, before)
      && Exec(ops, before) == if k == 0 then before else before[StagingPath(db) := built[..k - 1]]
  {
    var st := StagingPath(db);
    if k > 0 {
      var cut := before[st := []];
      assert BuildOps(db, built)[..k] == [Truncate(st)] + Appends(st, built[..k - 1]);
      ExecOne(Truncate(st), before);
      ExecAppends(st, built[..k - 1], cut);
      ExecConcat([Truncate(st)], Appends(st, built[..k - 1]), before);
      assert [] + built[..k - 1] == built[..k - 1];
      assert cut[st := built[..k - 1]] == before[st := built[..k - 1]];
    }
  }

  lemma {:induction false} NothingPending(db: Path, fs: Files, cuts: seq<nat>)
    requires IntentPath(db) !in fs
    ensures CutBoots(db, fs, cuts) == fs && Outcome(db, fs) == Resumed(NoPending) && FinishedBoot(db, fs) == fs
  {
    if cuts == [] {
    } else {
      assert CutBoot(db, fs, cuts[0]) == fs;
      NothingPending(db, fs, cuts[1..]);
    }
  }

  /** From inside the swap, what the boot does is what the swap had left to do. */
  lemma PendingOps(db: Path, built: Bytes, staged: Files, j: nat)
    requires 1 <= j <= 4 && LineSafe(db) && StagingPath(db) in staged && staged[StagingPath(db)] == built
    ensures var fs := Swapped(db, built, j, staged);
      && ResumeOps(db, fs) == SwapOps(db, built)[if j == 3 then 2 else j..]
      && Decide(db, fs) == if j == 1 then Complete else if j == 4 then NoPending else ClearStaleWal
  {
    hide Encode, Format, ReadIntent, Fnv.Hash;
    Distinct(db);
    StagingSafe(db);
    IntentRoundTrip(NewIntent(db, built));
  }

  lemma StagingSafe(db: Path)
    requires LineSafe(db)
    ensures LineSafe(StagingPath(db))
  {
  }

  lemma SwapSuffix(db: Path, built: Bytes, staged: Files, j: nat, c: nat)
    requires j + c <= 4 && StagingPath(db) in staged && staged[StagingPath(db)] == built
    ensures var rest := SwapOps(db, built)[j..][..c];
      && Completes(rest, Swapped(db, built, j, staged))
      && Exec(rest, Swapped(db, built, j, staged)) == Swapped(db, built, j + c, staged)
  {
    var ops := SwapOps(db, built);
    assert ops[..j + c] == ops[..j] + ops[j..][..c];
    SwapPrefix(db, built, j, staged);
    SwapPrefix(db, built, j + c, staged);
    ExecConcat(ops[..j], ops[j..][..c], staged);
  }

  /** A boot, cut or not, only moves the swap forward. */
  lemma PendingBoot(db: Path, built: Bytes, staged: Files, j: nat, cut: nat) returns (next: nat)
    requires 1 <= j <= 4 && LineSafe(db) && StagingPath(db) in staged && staged[StagingPath(db)] == built
    ensures j <= next <= 4 && CutBoot(db, Swapped(db, built, j, staged), cut) == Swapped(db, built, next, staged)
    ensures var fs := Swapped(db, built, j, staged);
      cut >= 4 ==> next == 4 && CutBoot(db, fs, cut) == FinishedBoot(db, fs)
    ensures Outcome(db, Swapped(db, built, j, staged)).Resumed?
  {
    hide Exec, Completes, Swapped, SwapOps, ResumeOps;
    var fs := Swapped(db, built, j, staged);
    var ops := ResumeOps(db, fs);
    PendingOps(db, built, staged, j);
    var c := Min(cut, |ops|);
    assert ops[..|ops|] == ops;
    if j == 3 {
      WalAlreadyGone(db, built, staged, c);
      WalAlreadyGone(db, built, staged, 2);
      next := if c == 2 then 4 else 3;
    } else {
      SwapSuffix(db, built, staged, j, c);
      SwapSuffix(db, built, staged, j, 4 - j);
      next := j + c;
    }
  }

  lemma WalAlreadyGone(db: Path, built: Bytes, staged: Files, c: nat)
    requires c <= 2 && StagingPath(db) in staged && staged[StagingPath(db)] == built
    ensures var rest := SwapOps(db, built)[2..][..c];
      && Completes(rest, Swapped(db, built, 3, staged))
      && Exec(rest, Swapped(db, built, 3, staged)) == Swapped(db, built, if c == 2 then 4 else 3, staged)
  {
    Distinct(db);
    var fs := Swapped(db, built, 3, staged);
    var a, b := RemoveIfPresent(WalPath(db)), Remove(IntentPath(db));
    assert Do(a, fs) == fs;
    if c == 1 {
      assert SwapOps(db, built)[2..][..c] == [a];
      ExecOne(a, fs);
    } else if c == 2 {
      assert SwapOps(db, built)[2..][..c] == [a, b];
      ExecTwo(a, b, fs);
    }
  }

  lemma {:induction false} PendingBoots(db: Path, built: Bytes, staged: Files, j: nat, cuts: seq<nat>)
      returns (last: nat)
    requires 1 <= j <= 4 && LineSafe(db) && StagingPath(db) in staged && staged[StagingPath(db)] == built
    ensures j <= last <= 4 && CutBoots(db, Swapped(db, built, j, staged), cuts) == Swapped(db, built, last, staged)
    decreases |cuts|
  {
    last := j;
    if cuts == [] {
    } else {
      var next := PendingBoot(db, built, staged, j, cuts[0]);
      last := PendingBoots(db, built, staged, next, cuts[1..]);
    }
  }

  lemma InstalledWhenSwapped(db: Path, built: Bytes, before: Files, staged: Files)
    requires staged == before[StagingPath(db) := built]
    ensures NewInstalled(db, built, before, Swapped(db, built, 4, staged))
  {
    hide Encode, Format, WalPath, IntentPath, StagingPath, Same;
    Distinct(db);
    FourPaths(before, db, WalPath(db), StagingPath(db), IntentPath(db), built, Encode(Format(NewIntent(db, built))));
  }

  lemma FourPaths(before: Files, db: Path, wal: Path, staging: Path, intent: Path, built: Bytes, journal: Bytes)
    requires db != wal && db != staging && db != intent
    ensures var fs := before[staging := built][intent := journal][db := built] - {staging} - {wal} - {intent};
      && db in fs && fs[db] == built && wal !in fs && staging !in fs && intent !in fs
      && Same(fs, before, {db, wal, staging, intent})
  {
  }

  // ----- a staging file that no longer matches its journal -----

  /** The evidence copy of the journal would itself pass for the file the journal waits for. */
  predicate EvidenceFits(db: Path, fs: Files)
    requires PendingIntent(db, fs).Some?
  {
    var i := PendingIntent(db, fs).value;
    && Fnv.Hash(fs[IntentPath(db)]) == i.hash
    && (EvidencePath(db) == i.staging || (EvidencePath(db) == i.target && i.staging !in fs))
  }

  /** The boot after a refused one refuses again unless the evidence copy fits. */
  lemma RefusedAgain(db: Path, fs: Files)
    requires Decide(db, fs) == Refuse
    ensures Decide(db, FinishedBoot(db, fs)) != Refuse <==> EvidenceFits(db, fs)
    ensures PendingIntent(db, FinishedBoot(db, fs)) == PendingIntent(db, fs)
    ensures FinishedBoot(db, fs) == fs[EvidencePath(db) := fs[IntentPath(db)]]
    ensures !EvidenceFits(db, fs) ==> !EvidenceFits(db, FinishedBoot(db, fs))
  {
    hide ReadIntent, Fnv.Hash, Exec, Completes;
    Distinct(db);
    ExecOne(Copy(IntentPath(db), EvidencePath(db)), fs);
    assert ResumeOps(db, fs) == [Copy(IntentPath(db), EvidencePath(db))];
  }

  /** Unless it fits, a refused boot changes nothing but that copy, and every later boot, cut or not,
      refuses again. */
  lemma {:induction false} RefusalSticks(db: Path, fs: Files, cuts: seq<nat>)
    ensures var later := CutBoots(db, fs, cuts);
      Decide(db, fs) == Refuse && !EvidenceFits(db, fs) ==>
      && Outcome(db, later) == Refused
      && Same(later, fs, {EvidencePath(db)}) && Same(FinishedBoot(db, later), fs, {EvidencePath(db)})
    decreases |cuts|
  {
    if Decide(db, fs) == Refuse && !EvidenceFits(db, fs) {
      hide EvidenceFits, FinishedBoot, Decide;
      RefusedAgain(db, fs);
      OneOperation(db, fs);
      if cuts == [] {
      } else {
        var next := CutBoot(db, fs, cuts[0]);
        assert next == fs || next == FinishedBoot(db, fs);
        RefusalSticks(db, next, cuts[1..]);
      }
    }
  }

  lemma OneOperation(db: Path, fs: Files)
    requires Decide(db, fs) == Refuse
    ensures Outcome(db, fs) == Refused
    ensures forall cut: nat :: CutBoot(db, fs, cut) == if cut == 0 then fs else FinishedBoot(db, fs)
  {
    hide ReadIntent, Fnv.Hash, Exec, Completes;
    var ops := ResumeOps(db, fs);
    assert ops == [Copy(IntentPath(db), EvidencePath(db))];
    ExecOne(ops[0], fs);
    assert ops[..1] == ops && ops[..0] == [];
    assert Exec([], fs) == fs by { ExecNothing(fs); }
  }

  lemma ExecNothing(fs: Files)
    ensures Exec([], fs) == fs
  {
  }

  /** One changed byte anywhere in the journaled staging file: no boot ever installs it, and the
      old database, its WAL, the staging file and the journal all stay as they are. */
  lemma ChangedByteRefused(db: Path, built: Bytes, before: Files, i: nat, b: Byte, cuts: seq<nat>)
    requires Idle(db, before) && i < |built| && built[i] != b
    ensures var journaled := Exec(ForwardOps(db, built)[..|built| + 2], before);
      && StagingPath(db) in journaled && journaled[StagingPath(db)] == built
      && var damaged := journaled[StagingPath(db) := built[i := b]];
         var later := CutBoots(db, damaged, cuts);
         && Outcome(db, later) == Refused
         && Same(FinishedBoot(db, later), damaged, {EvidencePath(db)})
         && Same(FinishedBoot(db, later), before, {StagingPath(db), IntentPath(db), EvidencePath(db)})
  {
    hide Exec, Completes, CutBoots, FinishedBoot, Outcome, Encode, Format, ReadIntent, Fnv.Hash;
    SwapReached(db, built, before, 1);
    Distinct(db);
    StagingSafe(db);
    IntentRoundTrip(NewIntent(db, built));
    Fnv.OneByteDetected(built, i, b);
    var damaged := Swapped(db, built, 1, before[StagingPath(db) := built])[StagingPath(db) := built[i := b]];
    RefusalSticks(db, damaged, cuts);
  }

  /** The same for the database once it is renamed into place, its WAL still there or already gone:
      while the journal is pending, one changed byte in it and no boot touches the WAL. */
  lemma ChangedLiveByteRefused(db: Path, built: Bytes, before: Files, k: nat, i: nat, b: Byte, cuts: seq<nat>)
    requires Idle(db, before) && 2 <= k <= 3 && i < |built| && built[i] != b
    ensures var installed := Exec(ForwardOps(db, built)[..|built| + 1 + k], before);
      && db in installed && installed[db] == built
      && var damaged := installed[db := built[i := b]];
         var later := CutBoots(db, damaged, cuts);
         && Outcome(db, later) == Refused
         && Same(FinishedBoot(db, later), damaged, {EvidencePath(db)})
         && (k == 2 ==> Same(FinishedBoot(db, later), before, {db, StagingPath(db), IntentPath(db), EvidencePath(db)}))
  {
    hide Exec, Completes, CutBoots, FinishedBoot, Outcome, Encode, Format, ReadIntent, Fnv.Hash;
    SwapReached(db, built, before, k);
    Distinct(db);
    StagingSafe(db);
    IntentRoundTrip(NewIntent(db, built));
    Fnv.OneByteDetected(built, i, b);
    var damaged := Swapped(db, built, k, before[StagingPath(db) := built])[db := built[i := b]];
    RefusalSticks(db, damaged, cuts);
  }

  lemma SwapReached(db: Path, built: Bytes, before: Files, k: nat)
    requires k <= 4
    ensures Exec(ForwardOps(db, built)[..|built| + 1 + k], before) ==
      Swapped(db, built, k, before[StagingPath(db) := built])
  {
    hide Exec, Completes, Swapped;
    var build := BuildOps(db, built);
    assert ForwardOps(db, built)[..|build| + k] == build + SwapOps(db, built)[..k];
    BuildPrefix(db, built, |build|, before);
    assert build[..|build|] == build && built[..|built|] == built;
    ExecConcat(build, SwapOps(db, built)[..k], before);
    SwapPrefix(db, built, k, Exec(build, before));
  }

  // ----- why the journal write has to be one step -----

  function JournalLength(db: Path, built: Bytes): nat { |Encode(Format(NewIntent(db, built)))| }

  /** The disk when the journal write itself stopped after `k` bytes. */
  function TornDisk(db: Path, built: Bytes, before: Files, k: nat): Files
  {
    before[StagingPath(db) := built][IntentPath(db) := Torn(NewIntent(db, built), k)]
  }

  /** How many bytes of the target line the torn journal holds. */
  function TargetBytes(db: Path, built: Bytes, k: nat): int
  {
    k - |Encode(Head(StagingPath(db), Fnv.Hash(built)))|
  }

  /** The next boot ignores the torn journal, or installs as intended, or installs over a file with
      a shorter name. The last happens exactly when the cut keeps some but not all of the target
      line and splits no character; the live database then stays old, or is deleted when it is named
      as that shorter file's WAL. */
  ghost predicate TornOutcome(db: Path, built: Bytes, before: Files, k: nat)
  {
    var cut, torn := TargetBytes(db, built, k), TornDisk(db, built, before, k);
    var end := FinishedBoot(db, torn);
    && cut <= |Encode(db)|
    && (cut <= 0 || !IsBoundary(Encode(db), cut) ==> Decide(db, torn) == NoPending && end == torn)
    && (cut == |Encode(db)| > 0 ==> NewInstalled(db, built, before, end))
    && (0 < cut < |Encode(db)| && IsBoundary(Encode(db), cut) ==>
          exists m: nat :: 1 <= m < |db| && Encode(db[..m]) == Encode(db)[..cut]
                           && OverwritesShorter(db, built, before, end, m))
  }

  /** `TornOutcome` holds for a journal write torn at any byte. */
  lemma TornJournalBoot(db: Path, built: Bytes, before: Files, k: nat)
    requires Idle(db, before)
    ensures k < JournalLength(db, built) ==> TornOutcome(db, built, before, k)
  {
    hide Encode, Head, Format, ReadIntent, Fnv.Hash;
    if k < JournalLength(db, built) {
      var i := NewIntent(db, built);
      Distinct(db);
      StagingSafe(db);
      FormatBytes(i);
      TornJournal(i, k);
      var cut := TargetBytes(db, built, k);
      if 0 < cut && IsBoundary(Encode(db), cut) {
        var m: nat :| 1 <= m <= |db| && Encode(db[..m]) == Encode(db)[..cut]
          && ReadIntent(Torn(i, k)) == Some(Intent(i.staging, i.hash, db[..m]));
        WholeName(db, m, cut);
        if m == |db| {
          TornButWhole(db, built, before, TornDisk(db, built, before, k));
        } else {
          TornShorter(db, built, before, TornDisk(db, built, before, k), m);
        }
      }
    }
  }

  lemma WholeName(db: Path, m: nat, cut: nat)
    requires m <= |db| && cut <= |Encode(db)| && Encode(db[..m]) == Encode(db)[..cut]
    ensures m == |db| <==> cut == |Encode(db)|
    ensures m == |db| ==> db[..m] == db
  {
    if cut == |Encode(db)| {
      assert Encode(db)[..cut] == Encode(db);
      EncodeInjective(db[..m], db);
    }
    if m == |db| {
      assert db[..m] == db;
    }
  }

  ghost predicate OverwritesShorter(db: Path, built: Bytes, before: Files, end: Files, m: nat)
    requires m <= |db|
  {
    var t := db[..m];
    && t in end && end[t] == built && IntentPath(db) !in end && StagingPath(db) !in end && WalPath(t) !in end
    && Same(end, before, {t, WalPath(t), StagingPath(db), IntentPath(db)})
    && db !in {t, StagingPath(db), IntentPath(db)}
    && WalPath(db) !in {t, WalPath(t), StagingPath(db), IntentPath(db)}
  }

  lemma CompletedInstall(db: Path, built: Bytes, fs: Files, target: Path)
    requires target != IntentPath(db) && WalPath(target) != IntentPath(db) && target != StagingPath(db)
    requires StagingPath(db) in fs && fs[StagingPath(db)] == built && IntentPath(db) in fs
    requires ReadIntent(fs[IntentPath(db)]) == Some(Intent(StagingPath(db), Fnv.Hash(built), target))
    ensures FinishedBoot(db, fs) == fs[target := built] - {StagingPath(db), WalPath(target), IntentPath(db)}
  {
    hide Exec, Completes, ReadIntent, Fnv.Hash;
    Distinct(db);
    var a, b, c := Rename(StagingPath(db), target), RemoveIfPresent(WalPath(target)), Remove(IntentPath(db));
    assert ResumeOps(db, fs) == [a, b, c];
    assert [a, b, c] == [a, b] + [c];
    ExecTwo(a, b, fs);
    ExecOne(c, Do(b, Do(a, fs)));
    ExecConcat([a, b], [c], fs);
  }

  lemma TornButWhole(db: Path, built: Bytes, before: Files, torn: Files)
    requires IntentPath(db) in torn && ReadIntent(torn[IntentPath(db)]) == Some(NewIntent(db, built))
    requires torn == before[StagingPath(db) := built][IntentPath(db) := torn[IntentPath(db)]]
    ensures NewInstalled(db, built, before, FinishedBoot(db, torn))
  {
    hide FinishedBoot, ReadIntent, Fnv.Hash;
    Distinct(db);
    CompletedInstall(db, built, torn, db);
  }

  lemma TornShorter(db: Path, built: Bytes, before: Files, torn: Files, m: nat)
    requires 1 <= m < |db| && IntentPath(db) in torn
    requires ReadIntent(torn[IntentPath(db)]) == Some(Intent(StagingPath(db), Fnv.Hash(built), db[..m]))
    requires torn == before[StagingPath(db) := built][IntentPath(db) := torn[IntentPath(db)]]
    ensures OverwritesShorter(db, built, before, FinishedBoot(db, torn), m)
  {
    hide FinishedBoot, ReadIntent, Fnv.Hash;
    Distinct(db);
    var t := db[..m];
    assert |t| == m && |WalPath(t)| == m + 4 && |WalPath(db)| == |db| + 4;
    assert |IntentPath(db)| == |db| + 15 && |StagingPath(db)| == |db| + 20;
    CompletedInstall(db, built, torn, t);
  }
}
