/** Commits, durable checkpoints, crashes and boots of one database, over whole runs. */
module CheckpointRun {
  import opened Wrappers
  import Install

  /** A committed row; its WAL record takes `1 + extra` bytes. */
  datatype Row = Row(id: nat, extra: nat)

  datatype Wal = NoWal | Wal(rows: seq<Row>)

  function WalRows(w: Wal): seq<Row> { if w.NoWal? then [] else w.rows }

  function Bytes(rows: seq<Row>): (n: nat)
    ensures n >= |rows|
  {
    if rows == [] then 0 else Bytes(rows[..|rows| - 1]) + 1 + rows[|rows| - 1].extra
  }

  lemma {:induction false} BytesConcat(a: seq<Row>, b: seq<Row>)
    ensures Bytes(a + b) == Bytes(a) + Bytes(b)
  {
    if b == [] {
      assert a + b == a;
    } else {
      assert (a + b)[..|a + b| - 1] == a + b[..|b| - 1];
      BytesConcat(a, b[..|b| - 1]);
    }
  }

  // ----- the WAL fence -----

  datatype WalFence = WalFence(present: bool, size: nat)

  function Stat(w: Wal): WalFence
  {
    if w.NoWal? then WalFence(false, 0) else WalFence(true, Bytes(w.rows))
  }

  predicate FenceViolated(before: WalFence, now: WalFence)
  {
    if now.size > before.size then true
    else if before.present && !now.present then true
    else if before.present && now.present && now.size < before.size then true
    else false
  }

  /** What can happen to the WAL between the two samples. */
  datatype WalEvent = Written(row: Row) | Opened | Folded

  function AfterEvent(w: Wal, e: WalEvent): Wal
  {
    match e
    case Written(row) => Wal(WalRows(w) + [row])
    case Opened => Wal(WalRows(w))
    case Folded => NoWal
  }

  function AfterEvents(w: Wal, es: seq<WalEvent>): Wal
  {
    if es == [] then w else AfterEvent(AfterEvents(w, es[..|es| - 1]), es[|es| - 1])
  }

  function RowsWritten(es: seq<WalEvent>): seq<Row>
  {
    if es == [] then []
    else RowsWritten(es[..|es| - 1]) + if es[|es| - 1].Written? then [es[|es| - 1].row] else []
  }

  predicate AnyFold(es: seq<WalEvent>) { Folded in es }

  /** The events after the last fold. */
  function SinceFold(es: seq<WalEvent>): (r: seq<WalEvent>)
    ensures |r| <= |es| && r == es[|es| - |r|..] && Folded !in r
    ensures AnyFold(es) ==> |r| < |es| && es[|es| - |r| - 1] == Folded
  {
    if es == [] || es[|es| - 1] == Folded then []
    else SinceFold(es[..|es| - 1]) + [es[|es| - 1]]
  }

  lemma RowsWrittenAppend(es: seq<WalEvent>, e: WalEvent)
    ensures RowsWritten(es + [e]) == RowsWritten(es) + if e.Written? then [e.row] else []
  {
  }

  lemma EventsAppend(w: Wal, es: seq<WalEvent>, e: WalEvent)
    ensures AfterEvents(w, es + [e]) == AfterEvent(AfterEvents(w, es), e)
    ensures AnyFold(es + [e]) <==> AnyFold(es) || e == Folded
    ensures SinceFold(es + [e]) == if e == Folded then [] else SinceFold(es) + [e]
  {
  }

  lemma RowsAfterEvent(w: Wal, e: WalEvent)
    ensures WalRows(AfterEvent(w, e)) ==
      if e == Folded then [] else WalRows(w) + if e.Written? then [e.row] else []
  {
  }

  lemma Regroup<T>(a: seq<T>, b: seq<T>, c: seq<T>)
    ensures a + b + c == a + (b + c)
  {
  }

  lemma {:induction false} RowsAfter(w: Wal, es: seq<WalEvent>)
    ensures WalRows(AfterEvents(w, es)) ==
      if AnyFold(es) then RowsWritten(SinceFold(es)) else WalRows(w) + RowsWritten(es)
  {
    if es == [] {
      assert WalRows(w) + [] == WalRows(w);
    } else {
      hide AfterEvents, AfterEvent, WalRows, SinceFold;
      var init, last := es[..|es| - 1], es[|es| - 1];
      assert es == init + [last];
      RowsAfter(w, init);
      EventsAppend(w, init, last);
      RowsAfterEvent(AfterEvents(w, init), last);
      if last == Folded {
        assert RowsWritten([]) == [];
      } else {
        var more := if last.Written? then [last.row] else [];
        RowsWrittenAppend(init, last);
        RowsWrittenAppend(SinceFold(init), last);
        Regroup(WalRows(w), RowsWritten(init), more);
      }
    }
  }

  lemma PresentAfter(w: Wal, es: seq<WalEvent>)
    ensures AfterEvents(w, es).Wal? <==> SinceFold(es) != [] || (!AnyFold(es) && w.Wal?)
  {
  }

  /** The fence misses rows written since the first sample exactly when the WAL was folded away
      meanwhile and has grown back to the size it had. */
  lemma FenceMisses(w: Wal, es: seq<WalEvent>)
    requires RowsWritten(es) != []
    ensures !FenceViolated(Stat(w), Stat(AfterEvents(w, es))) <==>
      && AnyFold(es)
      && Bytes(RowsWritten(SinceFold(es))) == Bytes(WalRows(w))
      && (w.Wal? ==> SinceFold(es) != [])
  {
    RowsAfter(w, es);
    PresentAfter(w, es);
    if !AnyFold(es) {
      BytesConcat(WalRows(w), RowsWritten(es));
    }
  }

  /** The fence never fires on a WAL that only an open touched. */
  lemma FenceQuiet(w: Wal, es: seq<WalEvent>)
    requires RowsWritten(es) == [] && !AnyFold(es)
    ensures !FenceViolated(Stat(w), Stat(AfterEvents(w, es)))
  {
  }

  // ----- the machine -----

  /** Where the process is: down, serving, inside `durable_checkpoint`, or resuming at boot. */
  datatype Phase =
    | Down
    | Serving
    | Sampled(before: WalFence)
    | Exported(before: WalFence, rows: seq<Row>)
    | Built(before: WalFence)
    | Checked(before: WalFence)
    | Journaled
    | Renamed
    | WalDeleted
    | BootRename
    | BootWal
    | BootClear

  /** The last three fields are bookkeeping that no step reads: every row ever committed, whether the
      WAL was folded since the first fence sample, and whether a row was committed since the export. */
  datatype State = State(
    db: seq<Row>,
    wal: Wal,
    staging: Option<seq<Row>>,
    journal: Option<nat>,
    phase: Phase,
    committed: seq<Row>,
    folded: bool,
    late: bool)

  datatype Action =
    | Commit(row: Row)   // a writer's commit, appended to the WAL
    | OpenWal            // an open creates an empty WAL
    | Fold               // a close-checkpoint folds the WAL into the file in place
    | Advance            // the checkpoint, or the boot, takes its next step
    | Crash

  function Visible(s: State): seq<Row> { s.db + WalRows(s.wal) }

  /** Writers run while the process serves and until the fence is sampled again; the single-writer
      lock is held from there to the end of the swap. */
  predicate WritersRun(p: Phase) { p.Serving? || p.Sampled? || p.Exported? || p.Built? }

  function BootDecision(h: seq<Row> -> nat, s: State): Install.ResumeDecision
  {
    match s.journal
    case None => Install.DecideResume(false, false, false, false)
    case Some(id) =>
      Install.DecideResume(true, s.staging.Some?, s.staging.Some? && h(s.staging.value) == id, h(s.db) == id)
  }

  /** The next step of whatever the process is in the middle of. */
  function Advanced(h: seq<Row> -> nat, s: State): State
  {
    match s.phase
    case Serving => s.(phase := Sampled(Stat(s.wal)), folded := false)
    case Sampled(before) => s.(phase := Exported(before, Visible(s)), late := false)
    case Exported(before, rows) => s.(staging := Some(rows), phase := Built(before))
    case Built(before) =>
      if FenceViolated(before, Stat(s.wal)) then s.(staging := None, phase := Serving) else s.(phase := Checked(before))
    case Checked(_) => if s.staging.None? then s else s.(journal := Some(h(s.staging.value)), phase := Journaled)
    case Journaled => if s.staging.None? then s else s.(db := s.staging.value, staging := None, phase := Renamed)
    case Renamed => s.(wal := NoWal, phase := WalDeleted)
    case WalDeleted => s.(journal := None, phase := Serving)
    case Down =>
      (match BootDecision(h, s)
       case NoPending => s.(phase := Serving)
       case Complete => s.(phase := BootRename)
       case ClearStaleWal => s.(phase := BootWal)
       case Refuse => s)
    case BootRename => if s.staging.None? then s else s.(db := s.staging.value, staging := None, phase := BootWal)
    case BootWal => s.(wal := NoWal, phase := BootClear)
    case BootClear => s.(journal := None, phase := Serving)
  }

  function Next(h: seq<Row> -> nat, s: State, a: Action): State
  {
    match a
    case Advance => Advanced(h, s)
    case Crash => s.(phase := Down)
    case Commit(row) =>
      if WritersRun(s.phase)
      then s.(wal := AfterEvent(s.wal, Written(row)), committed := s.committed + [row], late := true) else s
    case OpenWal => if WritersRun(s.phase) then s.(wal := AfterEvent(s.wal, Opened)) else s
    case Fold =>
      if WritersRun(s.phase) then s.(db := Visible(s), wal := AfterEvent(s.wal, Folded), folded := true) else s
  }

  function Run(h: seq<Row> -> nat, s: State, actions: seq<Action>): State
    decreases |actions|
  {
    if actions == [] then s else Run(h, Next(h, s, actions[0]), actions[1..])
  }

  // ----- how a committed row gets lost -----

  /** A checkpoint passed its check although a row was committed after its export: the WAL was folded
      since the first sample and is again exactly as big as it was then. */
  predicate Stale(s: State)
  {
    && s.phase.Checked? && s.late && s.folded
    && Stat(s.wal).size == s.phase.before.size
    && (s.phase.before.present ==> s.wal.Wal?)
  }

  /** Some checkpoint of the run goes on from there and journals its staging file. */
  predicate StaleJournaled(h: seq<Row> -> nat, s: State, actions: seq<Action>)
    decreases |actions|
  {
    actions != []
    && ((actions[0].Advance? && Stale(s)) || StaleJournaled(h, Next(h, s, actions[0]), actions[1..]))
  }

  // ----- what every step keeps -----

  /** Installing `rows` would serve the committed rows or, once a row is lost, fewer. */
  predicate Serves(rows: seq<Row>, committed: seq<Row>, lost: bool)
  {
    if lost then |rows| < |committed| else rows == committed
  }

  /** What holds of the rows exported into the checkpoint under way. */
  predicate ExportHeld(s: State, before: WalFence, rows: seq<Row>, lost: bool)
  {
    && s.journal.None?
    && (!before.present ==> before.size == 0)
    && (!s.folded ==> Stat(s.wal).size >= before.size + if s.late then 1 else 0)
    && Serves(rows, s.committed, lost || s.late)
  }

  predicate Inv(h: seq<Row> -> nat, s: State, lost: bool)
  {
    && (s.journal.None? ==> Serves(Visible(s), s.committed, lost))
    && (s.journal.Some? ==>
          var next := if s.staging.Some? then s.staging.value else s.db;
          s.journal.value == h(next) && Serves(next, s.committed, lost))
    && match s.phase
       case Down => true
       case Serving => s.journal.None?
       case Sampled(before) =>
         s.journal.None? && (!before.present ==> before.size == 0) && (!s.folded ==> Stat(s.wal).size >= before.size)
       case Exported(before, rows) => ExportHeld(s, before, rows, lost)
       case Built(before) => s.staging.Some? && ExportHeld(s, before, s.staging.value, lost)
       case Checked(before) =>
         s.staging.Some? && ExportHeld(s, before, s.staging.value, lost) && (s.late ==> Stale(s))
       case Journaled => s.journal.Some? && s.staging.Some?
       case Renamed => s.journal.Some? && s.staging.None?
       case WalDeleted => s.journal.Some? && s.staging.None? && s.wal.NoWal?
       case BootRename => s.journal.Some? && s.staging.Some?
       case BootWal => s.journal.Some? && s.staging.None?
       case BootClear => s.journal.Some? && s.staging.None? && s.wal.NoWal?
  }

  lemma BytesAppend(rows: seq<Row>, row: Row)
    ensures Bytes(rows + [row]) == Bytes(rows) + 1 + row.extra
  {
  }

  lemma CommitKeeps(h: seq<Row> -> nat, s: State, row: Row, lost: bool)
    requires Inv(h, s, lost) && WritersRun(s.phase)
    ensures Inv(h, Next(h, s, Commit(row)), lost)
  {
    var t := Next(h, s, Commit(row));
    assert Visible(t) == Visible(s) + [row];
    BytesAppend(WalRows(s.wal), row);
  }

  /** Up to the check, which lets a late row through only when the checkpoint is stale. */
  lemma CheckKeeps(h: seq<Row> -> nat, s: State, lost: bool)
    requires Inv(h, s, lost) && (s.phase.Serving? || s.phase.Sampled? || s.phase.Exported? || s.phase.Built?)
    ensures Inv(h, Advanced(h, s), lost)
  {
  }

  lemma SwapKeeps(h: seq<Row> -> nat, s: State, lost: bool)
    requires Inv(h, s, lost) && (s.phase.Checked? || s.phase.Journaled? || s.phase.Renamed? || s.phase.WalDeleted?)
    ensures Inv(h, Advanced(h, s), lost || Stale(s))
  {
    assert s.phase.WalDeleted? ==> Visible(Advanced(h, s)) == s.db;
  }

  lemma BootKeeps(h: seq<Row> -> nat, s: State, lost: bool)
    requires Inv(h, s, lost) && (s.phase.Down? || s.phase.BootRename? || s.phase.BootWal? || s.phase.BootClear?)
    ensures Inv(h, Advanced(h, s), lost)
  {
    assert s.phase.BootClear? ==> Visible(Advanced(h, s)) == s.db;
  }

  lemma AdvanceKeeps(h: seq<Row> -> nat, s: State, lost: bool)
    requires Inv(h, s, lost)
    ensures Inv(h, Advanced(h, s), lost || Stale(s))
  {
    hide Advanced, Visible, Stat;
    if s.phase.Checked? || s.phase.Journaled? || s.phase.Renamed? || s.phase.WalDeleted? {
      SwapKeeps(h, s, lost);
    } else if s.phase.Serving? || s.phase.Sampled? || s.phase.Exported? || s.phase.Built? {
      CheckKeeps(h, s, lost);
    } else {
      BootKeeps(h, s, lost);
    }
  }

  lemma StepKeeps(h: seq<Row> -> nat, s: State, a: Action, lost: bool)
    requires Inv(h, s, lost)
    ensures Inv(h, Next(h, s, a), lost || (a.Advance? && Stale(s)))
  {
    match a {
      case Commit(row) =>
        if WritersRun(s.phase) { CommitKeeps(h, s, row, lost); }
      case Advance =>
        AdvanceKeeps(h, s, lost);
      case Fold =>
        assert Visible(s) + [] == Visible(s);
      case OpenWal =>
      case Crash =>
    }
  }

  lemma {:induction false} RunKeeps(h: seq<Row> -> nat, s: State, actions: seq<Action>, lost: bool)
    requires Inv(h, s, lost)
    ensures Inv(h, Run(h, s, actions), lost || StaleJournaled(h, s, actions))
    decreases |actions|
  {
    if actions == [] {
    } else {
      StepKeeps(h, s, actions[0], lost);
      RunKeeps(h, Next(h, s, actions[0]), actions[1..], lost || (actions[0].Advance? && Stale(s)));
    }
  }

  /** A database as first installed: its rows in the file, no WAL, nothing pending. */
  function Fresh(rows: seq<Row>): State { State(rows, NoWal, None, None, Serving, rows, false, false) }

  /** Over any run, folds anywhere: a committed row is lost if and only if some checkpoint journals a
      stale staging file. Otherwise, whenever no journal is pending, the file and its WAL hold exactly
      the committed rows, in commit order, and whenever the next step deletes the WAL, the file alone
      already does. No boot ever refuses. */
  lemma NoCommitLost(h: seq<Row> -> nat, rows: seq<Row>, actions: seq<Action>)
    ensures var s, stale := Run(h, Fresh(rows), actions), StaleJournaled(h, Fresh(rows), actions);
      && (s.journal.None? ==> if stale then |Visible(s)| < |s.committed| else Visible(s) == s.committed)
      && (s.phase.Renamed? || s.phase.BootWal? ==> if stale then |s.db| < |s.committed| else s.db == s.committed)
      && (s.phase.Down? ==> BootDecision(h, s) != Install.Refuse)
      && rows <= s.committed
  {
    hide StaleJournaled, Run;
    assert Visible(Fresh(rows)) == rows;
    RunKeeps(h, Fresh(rows), actions, false);
    CommittedGrows(h, Fresh(rows), actions);
  }

  /** Loss is for good: what a run lost stays lost however it goes on. */
  lemma {:induction false} StaleStays(h: seq<Row> -> nat, s: State, actions: seq<Action>, more: seq<Action>)
    requires StaleJournaled(h, s, actions)
    ensures StaleJournaled(h, s, actions + more)
    decreases |actions|
  {
    assert (actions + more)[0] == actions[0] && (actions + more)[1..] == actions[1..] + more;
    if !(actions[0].Advance? && Stale(s)) {
      StaleStays(h, Next(h, s, actions[0]), actions[1..], more);
    }
  }

  predicate InWindow(p: Phase) { p.Sampled? || p.Exported? || p.Built? }

  /** A run that never folds the WAL while a checkpoint is between its two samples loses nothing. */
  lemma {:induction false} NoFoldNoLoss(h: seq<Row> -> nat, s: State, actions: seq<Action>)
    requires forall i :: 0 <= i < |actions| && actions[i].Fold? ==> !InWindow(Run(h, s, actions[..i]).phase)
    requires InWindow(s.phase) || s.phase.Checked? ==> !s.folded
    ensures !StaleJournaled(h, s, actions)
    decreases |actions|
  {
    if actions == [] {
    } else {
      hide Run;
      var tail, t := actions[1..], Next(h, s, actions[0]);
      forall i | 0 <= i < |tail| && tail[i].Fold?
        ensures !InWindow(Run(h, t, tail[..i]).phase)
      {
        assert actions[..i + 1] == [actions[0]] + tail[..i] && actions[i + 1].Fold?;
        RunCons(h, s, actions[0], tail[..i]);
      }
      assert actions[..0] == [];
      assert Run(h, s, []) == s by { RunEmpty(h, s); }
      NoFoldNoLoss(h, t, tail);
    }
  }

  lemma RunEmpty(h: seq<Row> -> nat, s: State)
    ensures Run(h, s, []) == s
  {
  }

  lemma {:induction false} CommittedGrows(h: seq<Row> -> nat, s: State, actions: seq<Action>)
    ensures s.committed <= Run(h, s, actions).committed
    decreases |actions|
  {
    if actions == [] {
    } else {
      CommittedGrows(h, Next(h, s, actions[0]), actions[1..]);
    }
  }

  function Advances(n: nat): seq<Action> { if n == 0 then [] else [Advance] + Advances(n - 1) }

  lemma RunAdvances(h: seq<Row> -> nat, s: State, n: nat)
    ensures Run(h, s, Advances(n + 1)) == Run(h, Advanced(h, s), Advances(n))
  {
  }

  predicate BackToServing(s: State, committed: seq<Row>, lost: bool)
  {
    s.phase.Serving? && s.journal.None? && s.committed == committed && Serves(Visible(s), committed, lost)
  }

  /** From any state such a run reaches, a crash and one uninterrupted boot lead back to serving the
      committed rows, all of them unless one was lost before. */
  lemma BootRecovers(h: seq<Row> -> nat, s: State, lost: bool)
    requires Inv(h, s, lost)
    ensures exists n: nat :: n <= 4 && BackToServing(Run(h, Next(h, s, Crash), Advances(n)), s.committed, lost)
  {
    StepKeeps(h, s, Crash, lost);
    BootSteps(h, Next(h, s, Crash), lost);
  }

  lemma BootSteps(h: seq<Row> -> nat, s: State, lost: bool)
    requires Inv(h, s, lost)
    requires s.phase.Down? || s.phase.BootRename? || s.phase.BootWal? || s.phase.BootClear? || s.phase.Serving?
    ensures exists n: nat :: n <= StepsLeft(s.phase) && BackToServing(Run(h, s, Advances(n)), s.committed, lost)
    decreases StepsLeft(s.phase)
  {
    if s.phase.Serving? {
      assert Run(h, s, Advances(0)) == s;
    } else {
      AdvanceKeeps(h, s, lost);
      var t := Advanced(h, s);
      BootSteps(h, t, lost);
      var n: nat :| n <= StepsLeft(t.phase) && BackToServing(Run(h, t, Advances(n)), t.committed, lost);
      RunAdvances(h, s, n);
    }
  }

  function StepsLeft(p: Phase): nat
  {
    match p
    case Down => 4
    case BootRename => 3
    case BootWal => 2
    case BootClear => 1
    case _ => 0
  }

  // ----- what a whole checkpoint does -----

  predicate IsWriter(a: Action) { a.Commit? || a.OpenWal? || a.Fold? }

  predicate Writers(ws: seq<Action>) { forall i :: 0 <= i < |ws| ==> IsWriter(ws[i]) }

  predicate Opens(os: seq<Action>) { forall i :: 0 <= i < |os| ==> os[i].OpenWal? }

  /** The rows these actions commit. */
  function RowsOf(ws: seq<Action>): seq<Row>
    decreases |ws|
  {
    if ws == [] then [] else (if ws[0].Commit? then [ws[0].row] else []) + RowsOf(ws[1..])
  }

  /** A checkpoint up to its second fence sample, with other writers in its three windows. */
  function UpToTheSample(w1: seq<Action>, w2: seq<Action>, w3: seq<Action>): seq<Action>
  {
    ([Advance] + w1) + ([Advance] + w2) + ([Advance] + w3)
  }

  lemma RunCons(h: seq<Row> -> nat, s: State, a: Action, more: seq<Action>)
    ensures Run(h, s, [a] + more) == Run(h, Next(h, s, a), more)
  {
    assert ([a] + more)[1..] == more;
  }

  lemma {:induction false} WritersKeep(h: seq<Row> -> nat, s: State, ws: seq<Action>)
    requires Writers(ws) && (s.phase.Serving? || s.phase.Sampled? || s.phase.Exported? || s.phase.Built?)
    ensures var t := Run(h, s, ws);
      t.phase == s.phase && t.staging == s.staging && t.journal == s.journal && t.committed == s.committed + RowsOf(ws)
    decreases |ws|
  {
    if ws == [] {
      assert s.committed + [] == s.committed;
    } else {
      assert IsWriter(ws[0]);
      WritersKeep(h, Next(h, s, ws[0]), ws[1..]);
      Regroup(s.committed, if ws[0].Commit? then [ws[0].row] else [], RowsOf(ws[1..]));
    }
  }

  lemma {:induction false} OpensKeep(h: seq<Row> -> nat, s: State, os: seq<Action>)
    requires Opens(os)
    ensures var t := Run(h, s, os);
      && t.db == s.db && WalRows(t.wal) == WalRows(s.wal) && t.committed == s.committed
      && (s.wal.Wal? ==> t.wal.Wal?)
    decreases |os|
  {
    if os == [] {
    } else {
      assert os[0].OpenWal?;
      OpensKeep(h, Next(h, s, os[0]), os[1..]);
    }
  }

  lemma OpensWrite(os: seq<Action>)
    requires Opens(os)
    ensures Writers(os)
  {
    assert forall i :: 0 <= i < |os| ==> os[i].OpenWal?;
  }

  /** The states a checkpoint goes through up to its second sample. */
  lemma ThroughTheWindows(h: seq<Row> -> nat, s: State, w1: seq<Action>, w2: seq<Action>, w3: seq<Action>)
      returns (e: State, f: State, t: State)
    requires s.phase.Serving? && Writers(w1) && Writers(w2) && Writers(w3)
    ensures e == Run(h, s, [Advance] + w1) && e == Run(h, Advanced(h, s), w1) && e.phase == Sampled(Stat(s.wal))
    ensures f == Run(h, Advanced(h, e), w2) && f.phase == Exported(Stat(s.wal), e.db + WalRows(e.wal))
    ensures t == Run(h, Advanced(h, f), w3) && t == Run(h, s, UpToTheSample(w1, w2, w3))
    ensures t.phase == Built(Stat(s.wal)) && t.staging == Some(e.db + WalRows(e.wal)) && t.journal == s.journal
    ensures t.committed == s.committed + RowsOf(w1) + RowsOf(w2) + RowsOf(w3)
  {
    hide Run, WalRows, Stat, RowsOf, Writers;
    var p1, p2, p3 := [Advance] + w1, [Advance] + w2, [Advance] + w3;
    RunCons(h, s, Advance, w1);
    WritersKeep(h, Advanced(h, s), w1);
    e := Run(h, Advanced(h, s), w1);
    RunCons(h, e, Advance, w2);
    WritersKeep(h, Advanced(h, e), w2);
    f := Run(h, Advanced(h, e), w2);
    RunCons(h, f, Advance, w3);
    WritersKeep(h, Advanced(h, f), w3);
    t := Run(h, Advanced(h, f), w3);
    RunSplit(h, s, p1, p2);
    RunSplit(h, s, p1 + p2, p3);
  }

  /** With any commits, opens and folds in its three windows, a checkpoint is given up if and only if the
      WAL is then larger or smaller than at the first sample, or gone. Given up, it leaves the database, the
      WAL and the rows alone and removes its staging file. Otherwise the rows exported become the
      database, and WAL, journal and staging file are gone. */
  lemma CheckpointDecides(h: seq<Row> -> nat, s: State, w1: seq<Action>, w2: seq<Action>, w3: seq<Action>)
    requires s.phase.Serving? && s.journal.None? && Writers(w1) && Writers(w2) && Writers(w3)
    ensures var e, t := Run(h, s, [Advance] + w1), Run(h, s, UpToTheSample(w1, w2, w3));
      var changed := Bytes(WalRows(t.wal)) != Bytes(WalRows(s.wal)) || (s.wal.Wal? && t.wal.NoWal?);
      var next, end := Run(h, t, [Advance]), Run(h, t, Advances(5));
      && t.committed == s.committed + RowsOf(w1) + RowsOf(w2) + RowsOf(w3)
      && (next.phase.Serving? <==> changed)
      && (changed ==>
            && next.db == t.db && next.wal == t.wal && next.committed == t.committed
            && next.journal.None? && next.staging.None?)
      && (!changed ==>
            && end.phase.Serving? && end.db == e.db + WalRows(e.wal) && end.wal.NoWal? && end.committed == t.committed
            && end.journal.None? && end.staging.None?)
  {
    var e, f, t := ThroughTheWindows(h, s, w1, w2, w3);
    RunOne(h, t, Advance);
    SizesDecide(s.wal, t.wal);
    hide Run, Advances, Bytes, RowsOf, Stat, FenceViolated;
    if Run(h, t, [Advance]).phase.Checked? {
      RunAdvances(h, t, 4);
      SwapInstalls(h, Advanced(h, t), e.db + WalRows(e.wal));
    }
  }

  lemma SizesDecide(w: Wal, v: Wal)
    ensures FenceViolated(Stat(w), Stat(v)) <==>
      Bytes(WalRows(v)) != Bytes(WalRows(w)) || (w.Wal? && v.NoWal?)
  {
  }

  /** A checkpoint during which others only open the database runs to its end: the database is what file
      and WAL held at the start, and nothing else is left. */
  lemma OpensAreHarmless(h: seq<Row> -> nat, s: State, o1: seq<Action>, o2: seq<Action>, o3: seq<Action>)
    requires s.phase.Serving? && s.journal.None? && Opens(o1) && Opens(o2) && Opens(o3)
    ensures var end := Run(h, s, UpToTheSample(o1, o2, o3) + Advances(5));
      && end.phase.Serving? && end.db == s.db + WalRows(s.wal) && end.committed == s.committed
      && end.wal.NoWal? && end.journal.None? && end.staging.None?
  {
    OpensWrite(o1);
    OpensWrite(o2);
    OpensWrite(o3);
    var e, f, t := ThroughTheWindows(h, s, o1, o2, o3);
    RunSplit(h, s, UpToTheSample(o1, o2, o3), Advances(5));
    CheckpointDecides(h, s, o1, o2, o3);
    hide Run, Advances, UpToTheSample, Bytes, WalRows, RowsOf;
    OpensKeep(h, Advanced(h, s), o1);
    OpensKeep(h, Advanced(h, e), o2);
    OpensKeep(h, Advanced(h, f), o3);
  }

  /** With a fold inside the window the fence can be passed and a commit lost for good. */
  lemma FoldInWindowLosesACommit(h: seq<Row> -> nat)
    ensures var a, b := Row(1, 0), Row(2, 0);
      var s := Run(h, Fresh([]), [Commit(a), Advance, Advance, Fold, Commit(b)] + Advances(6));
      s.phase.Serving? && s.journal.None? && s.committed == [a, b] && Visible(s) == [a]
  {
    var a, b := Row(1, 0), Row(2, 0);
    var head, rest := [Commit(a), Advance, Advance, Fold, Commit(b)], [Advance, Advance, Fold, Commit(b)];
    RunSplit(h, Fresh([]), head, Advances(6));
    assert head == [Commit(a)] + rest;
    FoldedAway(h, a, b);
    hide Run, Advances;
    RunSplit(h, Fresh([]), [Commit(a)], rest);
    LastSixSteps(h, Run(h, Fresh([]), head));
  }

  lemma RunOne(h: seq<Row> -> nat, s: State, x: Action)
    ensures Run(h, s, [x]) == Next(h, s, x)
  {
  }

  lemma FoldedAway(h: seq<Row> -> nat, a: Row, b: Row)
    requires a.extra == b.extra
    ensures var s := Run(h, Run(h, Fresh([]), [Commit(a)]), [Advance, Advance, Fold, Commit(b)]);
      s.phase.Exported? && s.phase.before == Stat(s.wal) && s.phase.rows == [a] && s.committed == [a, b]
  {
    hide Run;
    var s0, s1 := Fresh([]), Next(h, Fresh([]), Commit(a));
    RunOne(h, s0, Commit(a));
    assert [] + [a] == [a] && [] + [b] == [b];
    BytesAppend([], a);
    BytesAppend([], b);
    var s2 := Next(h, s1, Advance);
    var s3 := Next(h, s2, Advance);
    var s4 := Next(h, s3, Fold);
    RunSplit(h, s1, [Advance], [Advance, Fold, Commit(b)]);
    assert [Advance] + [Advance, Fold, Commit(b)] == [Advance, Advance, Fold, Commit(b)];
    RunOne(h, s1, Advance);
    RunSplit(h, s2, [Advance], [Fold, Commit(b)]);
    assert [Advance] + [Fold, Commit(b)] == [Advance, Fold, Commit(b)];
    RunOne(h, s2, Advance);
    RunSplit(h, s3, [Fold], [Commit(b)]);
    assert [Fold] + [Commit(b)] == [Fold, Commit(b)];
    RunOne(h, s3, Fold);
    RunOne(h, s4, Commit(b));
    assert s1.committed + [b] == [a, b];
  }

  /** The unguarded rest of a checkpoint: what was exported becomes the database, the WAL goes. */
  lemma LastSixSteps(h: seq<Row> -> nat, s: State)
    requires s.phase.Exported? && s.phase.before == Stat(s.wal)
    ensures var t := Run(h, s, Advances(6));
      t.phase.Serving? && t.journal.None? && t.committed == s.committed && Visible(t) == s.phase.rows
  {
    hide Run, Advances, Advanced, Visible;
    RunAdvances(h, s, 5);
    RunAdvances(h, Advanced(h, s), 4);
    UpToTheCheck(h, s);
    SwapInstalls(h, Advanced(h, Advanced(h, s)), s.phase.rows);
  }

  lemma UpToTheCheck(h: seq<Row> -> nat, s: State)
    requires s.phase.Exported? && s.phase.before == Stat(s.wal)
    ensures Advanced(h, Advanced(h, s)) == s.(staging := Some(s.phase.rows), phase := Checked(s.phase.before))
  {
  }

  lemma SwapInstalls(h: seq<Row> -> nat, s: State, rows: seq<Row>)
    requires s.phase.Checked? && s.staging == Some(rows)
    ensures var t := Run(h, s, Advances(4));
      && t.phase.Serving? && t.journal.None? && t.committed == s.committed && Visible(t) == rows
      && t.db == rows && t.wal.NoWal? && t.staging.None?
  {
    hide Run, Advances;
    RunAdvances(h, s, 3);
    var s1 := Advanced(h, s);
    RunAdvances(h, s1, 2);
    var s2 := Advanced(h, s1);
    RunAdvances(h, s2, 1);
    var s3 := Advanced(h, s2);
    RunAdvances(h, s3, 0);
    RunNothing(h, Advanced(h, s3));
    assert rows + [] == rows;
  }

  lemma RunNothing(h: seq<Row> -> nat, s: State)
    ensures Run(h, s, Advances(0)) == s
  {
  }

  lemma {:induction false} RunSplit(h: seq<Row> -> nat, s: State, x: seq<Action>, y: seq<Action>)
    ensures Run(h, s, x + y) == Run(h, Run(h, s, x), y)
    decreases |x|
  {
    if x == [] {
      assert x + y == y;
    } else {
      assert (x + y)[1..] == x[1..] + y;
      RunSplit(h, Next(h, s, x[0]), x[1..], y);
    }
  }
}
