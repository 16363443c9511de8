/** Which writes survive the checkpoint's file swap, over any sequence of operations. */
module LiveWal {

  /** Rows are `u64` in the program; `T` is also instantiated with positions, to tell writes of
      the same row apart. */
  datatype Action<T> =
    | HandleCommit(row: T)
    | ResidualWriteClose(row: T, pragmaSet: bool)
    | Swap

  datatype Tables<T> = Tables(committed: seq<T>, wal: seq<T>)

  function Next<T>(t: Tables<T>, a: Action<T>): Tables<T>
  {
    match a
    case HandleCommit(row) => t.(committed := t.committed + [row])
    case ResidualWriteClose(row, pragmaSet) =>
      if pragmaSet then t.(wal := t.wal + [row]) else Tables(t.committed + (t.wal + [row]), [])
    case Swap => t.(wal := [])
  }

  function Run<T>(actions: seq<Action<T>>): Tables<T>
  {
    if actions == [] then Tables([], [])
    else Next(Run(actions[..|actions| - 1]), actions[|actions| - 1])
  }

  class Live {
    var committed: seq<nat>
    var wal: seq<nat>

    function State(): Tables<nat>
      reads this
    {
      Tables(committed, wal)
    }

    constructor ()
      ensures State() == Run<nat>([])
    {
      committed, wal := [], [];
    }

    /** The fresh file holds the committed rows; the old one goes away with its WAL. */
    method CheckpointSwap()
      modifies this
      ensures State() == Next(old(State()), Swap)
    {
      wal := [];
    }

    method HandleWriteCommit(row: nat)
      modifies this
      ensures State() == Next(old(State()), HandleCommit(row))
    {
      committed := committed + [row];
    }

    method ResidualOpenWriteClose(row: nat, pragmaSet: bool)
      modifies this
      ensures State() == Next(old(State()), ResidualWriteClose(row, pragmaSet))
    {
      wal := wal + [row];
      if !pragmaSet {
        committed := committed + wal;
        wal := [];
      }
    }
  }

  // ----- the fate of one write -----

  predicate NoSwapBetween<T>(actions: seq<Action<T>>, i: nat, j: nat)
    requires j <= |actions|
  {
    forall k :: i < k < j ==> !actions[k].Swap?
  }

  predicate FoldsAt<T>(actions: seq<Action<T>>, j: nat)
    requires j < |actions|
  {
    actions[j].ResidualWriteClose? && !actions[j].pragmaSet
  }

  /** Write `i` went through the handle, or some close without the pragma folded the WAL at or
      after it and before the next swap. */
  predicate Survives<T>(actions: seq<Action<T>>, i: nat)
    requires i < |actions|
  {
    || actions[i].HandleCommit?
    || (actions[i].ResidualWriteClose?
        && exists j :: i <= j < |actions| && FoldsAt(actions, j) && NoSwapBetween(actions, i, j))
  }

  /** Write `i` still sits in the WAL. */
  predicate Waits<T>(actions: seq<Action<T>>, i: nat)
    requires i < |actions|
  {
    actions[i].ResidualWriteClose? && !Survives(actions, i) && NoSwapBetween(actions, i, |actions|)
  }

  // ----- the same run on positions instead of rows -----

  function Retag<T>(a: Action<T>, tag: nat): Action<nat>
  {
    match a
    case HandleCommit(_) => HandleCommit(tag)
    case ResidualWriteClose(_, pragmaSet) => ResidualWriteClose(tag, pragmaSet)
    case Swap => Swap
  }

  function RunTags<T>(actions: seq<Action<T>>): Tables<nat>
  {
    if actions == [] then Tables([], [])
    else Next(RunTags(actions[..|actions| - 1]), Retag(actions[|actions| - 1], |actions| - 1))
  }

  ghost predicate RowsOfTags<T>(actions: seq<Action<T>>, rows: seq<T>, tags: seq<nat>)
  {
    |rows| == |tags| && forall k :: 0 <= k < |tags| ==>
      tags[k] < |actions| && !actions[tags[k]].Swap? && rows[k] == actions[tags[k]].row
  }

  lemma {:induction false} TagsMatchRows<T>(actions: seq<Action<T>>)
    ensures RowsOfTags(actions, Run(actions).committed, RunTags(actions).committed)
    ensures RowsOfTags(actions, Run(actions).wal, RunTags(actions).wal)
  {
    if actions == [] {
    } else {
      TagsMatchRows(actions[..|actions| - 1]);
    }
  }

  lemma FateStep<T>(actions: seq<Action<T>>, a: Action<T>, i: nat)
    requires i < |actions|
    ensures Survives(actions + [a], i) <==>
      Survives(actions, i) || (Waits(actions, i) && a.ResidualWriteClose? && !a.pragmaSet)
    ensures Waits(actions + [a], i) <==>
      Waits(actions, i) && (a.HandleCommit? || (a.ResidualWriteClose? && a.pragmaSet))
  {
    var more, n := actions + [a], |actions|;
    assert forall j :: 0 <= j < n ==> more[j] == actions[j];
    assert forall j :: i <= j <= n ==> NoSwapBetween(more, i, j) == NoSwapBetween(actions, i, j);
    assert forall j :: i <= j < n ==> FoldsAt(more, j) == FoldsAt(actions, j);
    assert FoldsAt(more, n) <==> a.ResidualWriteClose? && !a.pragmaSet;
    if Survives(actions, i) && actions[i].ResidualWriteClose? {
      var j :| i <= j < n && FoldsAt(actions, j) && NoSwapBetween(actions, i, j);
      assert FoldsAt(more, j) && NoSwapBetween(more, i, j);
    }
    assert NoSwapBetween(more, i, n + 1) <==> NoSwapBetween(actions, i, n) && !a.Swap?;
  }

  lemma FateOfNewest<T>(actions: seq<Action<T>>, a: Action<T>)
    ensures Survives(actions + [a], |actions|) <==> a.HandleCommit? || (a.ResidualWriteClose? && !a.pragmaSet)
    ensures Waits(actions + [a], |actions|) <==> a.ResidualWriteClose? && a.pragmaSet
  {
    var more, n := actions + [a], |actions|;
    assert more[n] == a && NoSwapBetween(more, n, n);
  }

  ghost predicate AllDifferent(tags: seq<nat>)
  {
    forall i, j :: 0 <= i < j < |tags| ==> tags[i] != tags[j]
  }

  /** Each write is in at most one table, once; it is committed exactly when it survives. */
  lemma {:induction false} TagsAreFates<T>(actions: seq<Action<T>>)
    ensures forall i: nat :: i in RunTags(actions).committed <==> i < |actions| && Survives(actions, i)
    ensures forall i: nat :: i in RunTags(actions).wal <==> i < |actions| && Waits(actions, i)
    ensures AllDifferent(RunTags(actions).committed) && AllDifferent(RunTags(actions).wal)
  {
    if actions == [] {
    } else {
      var n := |actions| - 1;
      var init, a := actions[..n], actions[n];
      TagsAreFates(init);
      assert actions == init + [a];
      forall i: nat | i < n
        ensures Survives(actions, i) <==> Survives(init, i) || (Waits(init, i) && a.ResidualWriteClose? && !a.pragmaSet)
        ensures Waits(actions, i) <==> Waits(init, i) && (a.HandleCommit? || (a.ResidualWriteClose? && a.pragmaSet))
      {
        FateStep(init, a, i);
      }
      FateOfNewest(init, a);
      var t := RunTags(init);
      forall i: nat | i in t.wal
        ensures i !in t.committed
      {
        assert i < n && Waits(init, i) && !Survives(init, i);
      }
      StillDifferent(t.committed, t.wal, n);
    }
  }

  lemma StillDifferent(a: seq<nat>, b: seq<nat>, n: nat)
    requires AllDifferent(a) && AllDifferent(b) && n !in a && n !in b && forall i :: i in b ==> i !in a
    ensures AllDifferent(a + [n]) && AllDifferent(b + [n]) && AllDifferent(a + (b + [n]))
  {
    assert forall k :: 0 <= k < |a| ==> a[k] in a;
    assert forall k :: 0 <= k < |b| ==> b[k] in b;
  }

  /** Over any sequence of operations the committed rows are exactly those of the writes that
      survive, each once: a write routed through the handle always does; a residual one does
      exactly when a close without the pragma reaches it before a swap does. */
  lemma CommittedAreTheSurvivors<T>(actions: seq<Action<T>>) returns (writes: seq<nat>)
    ensures RowsOfTags(actions, Run(actions).committed, writes) && AllDifferent(writes)
    ensures forall i: nat :: i in writes <==> i < |actions| && Survives(actions, i)
  {
    TagsMatchRows(actions);
    TagsAreFates(actions);
    writes := RunTags(actions).committed;
  }

  /** A committed row is never moved or dropped later. */
  lemma {:induction false} CommittedOnlyGrows<T>(actions: seq<Action<T>>, more: seq<Action<T>>)
    ensures Run(actions).committed <= Run(actions + more).committed
  {
    var all := actions + more;
    if more == [] {
      assert all == actions;
    } else {
      assert all[..|all| - 1] == actions + more[..|more| - 1];
      CommittedOnlyGrows(actions, more[..|more| - 1]);
    }
  }

  /** Setting the pragma does not save a residual write: a swap still drops it. */
  lemma PragmaDoesNotSave(row: nat)
    ensures Run([ResidualWriteClose(row, true), Swap]) == Tables([], [])
  {
    var write, actions := [ResidualWriteClose(row, true)], [ResidualWriteClose(row, true), Swap];
    assert actions[..1] == write && write[..0] == [];
    assert Run(write) == Tables([], [row]);
    assert Run(actions) == Next(Run(write), Swap);
  }
}
