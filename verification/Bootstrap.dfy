/** The one-shot year-to-date sweep: one cycle per month chunk, once per ledger. */
module Bootstrap {

  /** One chunk of a sweep: whether its cycle ran to the end, and whether its audit row was
      committed. A chunk whose inputs cannot be built does neither. */
  datatype Attempt = Attempt(swept: bool, recorded: bool)

  /** A boot in some year. It may skip the sweep (no inputs, or a restore lock), its scan for an
      earlier `bootstrap-year` row may fail, and it may stop after any chunk. */
  datatype Boot = Boot(year: int, skipped: bool, scanFails: bool, attempts: seq<Attempt>)

  /** A year and a month of it, counted from 0. */
  datatype Month = Month(year: int, index: nat)

  predicate Records(b: Boot) { exists i :: 0 <= i < |b.attempts| && b.attempts[i].recorded }

  datatype State = State(recorded: bool, covered: set<Month>)

  function Swept(b: Boot): set<Month>
  {
    set m: nat | m < |b.attempts| && b.attempts[m].swept :: Month(b.year, m)
  }

  /** `run_bootstrap_year_once`. */
  function Next(s: State, b: Boot): State
  {
    if b.skipped || (!b.scanFails && s.recorded) then s
    else State(s.recorded || Records(b), s.covered + Swept(b))
  }

  function Run(boots: seq<Boot>): State
  {
    if boots == [] then State(false, {}) else Next(Run(boots[..|boots| - 1]), boots[|boots| - 1])
  }

  predicate ScansWork(boots: seq<Boot>) { forall i :: 0 <= i < |boots| ==> !boots[i].scanFails }

  /** The sweep of boot `i` is the first to commit an audit row. */
  predicate FirstToRecord(boots: seq<Boot>, i: nat)
    requires i < |boots|
  {
    !boots[i].skipped && Records(boots[i]) && forall j :: 0 <= j < i ==> boots[j].skipped || !Records(boots[j])
  }

  lemma {:induction false} RecordedWhen(boots: seq<Boot>)
    ensures Run(boots).recorded <==> exists i :: 0 <= i < |boots| && !boots[i].skipped && Records(boots[i])
  {
    if boots == [] {
    } else {
      var n := |boots| - 1;
      RecordedWhen(boots[..n]);
      assert forall i :: 0 <= i < n ==> boots[..n][i] == boots[i];
    }
  }

  /** Which months are covered after any boots: those some boot that was not skipped ran to the end,
      provided that its scan failed or that no earlier boot had committed an audit row. */
  lemma {:induction false} CoveredWhen(boots: seq<Boot>, year: int, month: nat)
    ensures Month(year, month) in Run(boots).covered <==>
      exists j :: 0 <= j < |boots| && !boots[j].skipped && boots[j].year == year
        && month < |boots[j].attempts| && boots[j].attempts[month].swept
        && (boots[j].scanFails
            || forall i :: 0 <= i < j && !boots[i].skipped ==>
                 forall k :: 0 <= k < |boots[i].attempts| ==> !boots[i].attempts[k].recorded)
  {
    if boots == [] {
    } else {
      var n := |boots| - 1;
      var init := boots[..n];
      assert forall i :: 0 <= i < n ==> init[i] == boots[i];
      CoveredWhen(init, year, month);
      RecordedWhen(init);
    }
  }

  /** One committed row ends the sweep for good: later boots add no month. */
  lemma {:induction false} NothingAfterFirstRecord(boots: seq<Boot>, i: nat)
    requires i < |boots| && FirstToRecord(boots, i) && ScansWork(boots)
    ensures Run(boots) == Run(boots[..i + 1])
    decreases |boots|
  {
    var n := |boots| - 1;
    if i == n {
      assert boots[..i + 1] == boots;
    } else {
      var init := boots[..n];
      assert forall j :: 0 <= j < n ==> init[j] == boots[j];
      NothingAfterFirstRecord(init, i);
      RecordedWhen(init);
      assert !init[i].skipped && Records(init[i]);
      assert init[..i + 1] == boots[..i + 1];
    }
  }

  lemma {:induction false} CoveredBefore(boots: seq<Boot>, m: Month)
    requires ScansWork(boots) && forall j :: 0 <= j < |boots| ==> boots[j].skipped || !Records(boots[j])
    ensures m in Run(boots).covered <==> exists j :: 0 <= j < |boots| && !boots[j].skipped && m in Swept(boots[j])
  {
    if boots == [] {
    } else {
      var n := |boots| - 1;
      assert forall j :: 0 <= j < n ==> boots[..n][j] == boots[j];
      CoveredBefore(boots[..n], m);
      RecordedWhen(boots[..n]);
    }
  }

  /** A month is covered exactly when some sweep up to the first recording one swept it. */
  lemma CoveredExactly(boots: seq<Boot>, i: nat, m: Month)
    requires i < |boots| && FirstToRecord(boots, i) && ScansWork(boots)
    ensures m in Run(boots).covered <==> exists j :: 0 <= j <= i && !boots[j].skipped && m in Swept(boots[j])
  {
    NothingAfterFirstRecord(boots, i);
    var upTo := boots[..i + 1];
    assert upTo[..i] == boots[..i] && upTo[i] == boots[i];
    assert forall j :: 0 <= j < i ==> boots[..i][j] == boots[j];
    CoveredBefore(boots[..i], m);
    RecordedWhen(boots[..i]);
  }

  /** The first `months` months of a year are covered if and only if every one of them was swept by
      some boot up to the first that recorded a row. */
  lemma YearCoveredWhen(boots: seq<Boot>, i: nat, year: int, months: nat)
    requires i < |boots| && FirstToRecord(boots, i) && ScansWork(boots)
    ensures (forall m: nat :: m < months ==> Month(year, m) in Run(boots).covered) <==>
      forall m: nat :: m < months ==> exists j :: 0 <= j <= i && !boots[j].skipped && Month(year, m) in Swept(boots[j])
  {
    hide Run, Swept, FirstToRecord, ScansWork;
    forall m: nat
      ensures Month(year, m) in Run(boots).covered <==>
        exists j :: 0 <= j <= i && !boots[j].skipped && Month(year, m) in Swept(boots[j])
    {
      CoveredExactly(boots, i, Month(year, m));
    }
    if forall m: nat :: m < months ==> Month(year, m) in Run(boots).covered {
      forall m: nat | m < months
        ensures exists j :: 0 <= j <= i && !boots[j].skipped && Month(year, m) in Swept(boots[j])
      {
        assert Month(year, m) in Run(boots).covered;
      }
    }
  }

  /** Every chunk that is tried runs to its end and is recorded. */
  predicate AllGood(b: Boot) { forall k :: 0 <= k < |b.attempts| ==> b.attempts[k] == Attempt(true, true) }

  lemma NoRecordNoAttempt(b: Boot)
    requires AllGood(b)
    ensures Records(b) <==> b.attempts != []
  {
    assert b.attempts != [] ==> b.attempts[0] == Attempt(true, true);
  }

  /** When nothing but stopping the process goes wrong: if and only if the first boot that finished
      any chunk was in that year and finished them all. */
  lemma YearCoveredUnlessStopped(boots: seq<Boot>, i: nat, year: int, months: nat)
    requires i < |boots| && FirstToRecord(boots, i) && ScansWork(boots) && months > 0
    requires forall j :: 0 <= j < |boots| ==> AllGood(boots[j])
    ensures (forall m: nat :: m < months ==> Month(year, m) in Run(boots).covered) <==>
      boots[i].year == year && |boots[i].attempts| >= months
  {
    forall m: nat
      ensures Month(year, m) in Run(boots).covered <==> boots[i].year == year && m < |boots[i].attempts|
    {
      CoveredExactly(boots, i, Month(year, m));
      forall j | 0 <= j < i && !boots[j].skipped
        ensures boots[j].attempts == []
      {
        assert AllGood(boots[j]) && !Records(boots[j]);
        NoRecordNoAttempt(boots[j]);
      }
      assert AllGood(boots[i]);
      assert Month(year, m) in Swept(boots[i]) <==> boots[i].year == year && m < |boots[i].attempts|;
    }
    var n := |boots[i].attempts|;
    assert n < months ==> Month(year, n) !in Run(boots).covered;
    assert Month(year, 0) in Run(boots).covered ==> boots[i].year == year;
  }

  lemma OneChunk(b: Boot)
    requires b.attempts == [Attempt(true, true)]
    ensures Records(b) && Swept(b) == {Month(b.year, 0)}
  {
    assert b.attempts[0].recorded;
  }

  /** A process that stops after the first chunk of its sweep: whatever later boots could sweep, that
      month stays the only one covered. */
  lemma {:induction false} StoppedAfterOneChunk(boots: seq<Boot>)
    requires boots != [] && ScansWork(boots) && !boots[0].skipped && boots[0].attempts == [Attempt(true, true)]
    ensures Run(boots).covered == {Month(boots[0].year, 0)}
  {
    OneChunk(boots[0]);
    hide Run, Swept, Records;
    forall m: Month
      ensures m in Run(boots).covered <==> m == Month(boots[0].year, 0)
    {
      CoveredExactly(boots, 0, m);
    }
  }
}
