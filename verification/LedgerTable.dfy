/** The ledger as the boot reconciler queries it: rows of a table that may have lost or doubled
    some, and the constant-time proof that the mirror and the table still agree. */
module LedgerTable {
  import opened Wrappers
  import opened HashChain
  import opened MirrorGuard

  /** The rows in the order of their sequence numbers. */
  type Table = seq<Entry>

  function MaxSeq(db: Table): nat { if db == [] then 0 else db[|db| - 1].seq_ }

  function RowsAfter(db: Table, n: nat): Table
  {
    if db == [] then [] else (if db[0].seq_ > n then [db[0]] else []) + RowsAfter(db[1..], n)
  }

  /** `COUNT(*)` and `COUNT(DISTINCT seq)` over the rows up to `n`. */
  function CountUpTo(db: Table, n: nat): nat
  {
    if db == [] then 0 else (if db[0].seq_ <= n then 1 else 0) + CountUpTo(db[1..], n)
  }

  function SeqsUpTo(db: Table, n: nat): set<nat>
  {
    set i | 0 <= i < |db| && db[i].seq_ <= n :: db[i].seq_
  }

  function Tagged(es: seq<Entry>): (t: Overlap<Digest>)
    ensures |t| == |es| && forall i :: 0 <= i < |es| ==> t[i] == (es[i].seq_, es[i].hash)
  {
    seq(|es|, i requires 0 <= i < |es| => (es[i].seq_, es[i].hash))
  }

  function Tag(e: Entry): (nat, Digest) { (e.seq_, e.hash) }

  /** The head hash agrees and the table holds as many rows, and as many different ones, as that
      presupposes. */
  predicate HeadProves(db: Table, mirror: seq<Entry>)
    requires mirror != []
  {
    var head := mirror[|mirror| - 1];
    Agrees(Tag(head), Tagged(db)) && CountUpTo(db, head.seq_) == head.seq_ && |SeqsUpTo(db, head.seq_)| == head.seq_
  }

  /** `first_divergent_seq`. */
  function FirstDivergentSeq(db: Table, mirror: seq<Entry>): Option<nat>
  {
    if mirror == [] || HeadProves(db, mirror) then None
    else
      match FirstOverlapDisagreement(Tagged(mirror), Tagged(db))
      case Some(n) => Some(n)
      case None => Some(mirror[|mirror| - 1].seq_)
  }

  // ----- counting rows -----

  /** How many rows carry this sequence number. */
  function Times(db: Table, n: nat): nat
  {
    if db == [] then 0 else (if db[0].seq_ == n then 1 else 0) + Times(db[1..], n)
  }

  predicate PositiveSeqs(db: Table) { forall i :: 0 <= i < |db| ==> db[i].seq_ >= 1 }

  lemma {:induction false} TimesIsPresence(db: Table, n: nat)
    ensures Times(db, n) == 0 <==> forall i :: 0 <= i < |db| ==> db[i].seq_ != n
  {
    if db == [] {
    } else {
      TimesIsPresence(db[1..], n);
      assert forall i :: 1 <= i < |db| ==> db[i] == db[1..][i - 1];
    }
  }

  lemma {:induction false} CountOneMore(db: Table, n: nat)
    requires n > 0
    ensures CountUpTo(db, n) == CountUpTo(db, n - 1) + Times(db, n)
  {
    if db == [] {
    } else {
      CountOneMore(db[1..], n);
    }
  }

  lemma {:induction false} CountNone(db: Table)
    requires PositiveSeqs(db)
    ensures CountUpTo(db, 0) == 0
  {
    if db == [] {
    } else {
      assert PositiveSeqs(db[1..]) by {
        assert forall i :: 1 <= i < |db| ==> db[i] == db[1..][i - 1];
      }
      CountNone(db[1..]);
    }
  }

  ghost predicate OnceEach(db: Table, n: nat) { forall k: nat :: 1 <= k <= n ==> Times(db, k) == 1 }

  ghost predicate NoneLost(db: Table, n: nat) { forall k: nat :: 1 <= k <= n ==> Times(db, k) >= 1 }

  /** When no number up to `n` is missing, the count is `n` exactly when none is doubled. */
  lemma {:induction false} CountMeansOnce(db: Table, n: nat)
    requires PositiveSeqs(db) && NoneLost(db, n)
    ensures CountUpTo(db, n) >= n
    ensures CountUpTo(db, n) == n <==> OnceEach(db, n)
  {
    if n == 0 {
      CountNone(db);
    } else {
      CountMeansOnce(db, n - 1);
      CountOneMore(db, n);
    }
  }

  function UpTo(n: nat): (s: set<nat>)
    ensures |s| == n && forall k :: k in s <==> 1 <= k <= n
  {
    if n == 0 then {} else UpTo(n - 1) + {n}
  }

  lemma SameSize(a: set<nat>, b: set<nat>)
    requires a <= b && |a| == |b|
    ensures a == b
  {
    assert b == a + (b - a);
  }

  /** The number of different sequence numbers up to `n` is `n` exactly when none is missing. */
  lemma DistinctMeansNoneLost(db: Table, n: nat)
    requires PositiveSeqs(db)
    ensures |SeqsUpTo(db, n)| == n <==> NoneLost(db, n)
  {
    var s := SeqsUpTo(db, n);
    assert s <= UpTo(n);
    forall k: nat | 1 <= k <= n
      ensures k in s <==> Times(db, k) >= 1
    {
      TimesIsPresence(db, k);
    }
    if |s| == n {
      SameSize(s, UpTo(n));
      assert forall k: nat :: 1 <= k <= n ==> k in UpTo(n);
    }
    if NoneLost(db, n) {
      assert s == UpTo(n);
    }
  }

  /** The two counts are both `n` exactly when the table holds each of 1 to `n` once. */
  lemma CountsMeanOnceEach(db: Table, n: nat)
    requires PositiveSeqs(db)
    ensures CountUpTo(db, n) == n && |SeqsUpTo(db, n)| == n <==> OnceEach(db, n)
  {
    DistinctMeansNoneLost(db, n);
    if NoneLost(db, n) {
      CountMeansOnce(db, n);
    }
    assert OnceEach(db, n) ==> NoneLost(db, n);
  }

  // ----- a table that lost or doubled rows -----

  /** Every row of the table is one the ledger once held. */
  predicate SurvivesFrom(db: Table, ledger: seq<Entry>)
  {
    forall i :: 0 <= i < |db| ==> 1 <= db[i].seq_ <= |ledger| && db[i] == ledger[db[i].seq_ - 1]
  }

  lemma FoundInSurvivors(db: Table, ledger: seq<Entry>, n: nat)
    requires SurvivesFrom(db, ledger)
    ensures FindSeq(Tagged(db), n) ==
      if 1 <= n <= |ledger| && Times(db, n) >= 1 then Some(ledger[n - 1].hash) else None
  {
    hide Times, FindSeq;
    TimesIsPresence(db, n);
    var t := Tagged(db);
    assert forall j :: 0 <= j < |db| ==> t[j].0 == db[j].seq_;
    if FindSeq(t, n).Some? {
      var j :| 0 <= j < |t| && t[j] == (n, FindSeq(t, n).value);
      assert db[j].seq_ == n && db[j] == ledger[n - 1];
    }
  }

  /** The proof succeeds exactly when the mirror is what the ledger began with and the table still
      holds each of those rows once, whatever rows it lost or doubled. */
  lemma DivergenceFindsDamage(h: Hasher, genesis: Digest, db: Table, ledger: seq<Entry>, mirror: seq<Entry>)
    requires SurvivesFrom(db, ledger) && Chained(h, genesis, ledger) && Chained(h, genesis, mirror)
    requires NoCollision(mirror, ledger)
    ensures FirstDivergentSeq(db, mirror).None? <==> mirror <= ledger && OnceEach(db, |mirror|)
  {
    hide FindSeq, CountUpTo, SeqsUpTo, Times;
    var m := |mirror|;
    if m > 0 {
      var head := mirror[m - 1];
      assert LinkedAt(h, genesis, mirror, m - 1);
      CountsMeanOnceEach(db, m);
      FoundInSurvivors(db, ledger, m);
      if m <= |ledger| {
        HeadDecidesPrefix(h, genesis, mirror, ledger);
        assert mirror <= ledger <==> mirror == ledger[..m];
      }
      assert OnceEach(db, m) ==> Times(db, m) == 1;
    }
  }

  /** The table has row `k`, with the hash the mirror has for it. */
  predicate RowAgrees(db: Table, ledger: seq<Entry>, mirror: seq<Entry>, k: nat)
    requires 1 <= k <= |mirror|
  {
    Times(db, k) >= 1 && k <= |ledger| && ledger[k - 1].hash == mirror[k - 1].hash
  }

  lemma AgreesWhen(db: Table, ledger: seq<Entry>, mirror: seq<Entry>, i: nat)
    requires SurvivesFrom(db, ledger) && Intact(mirror) && i < |mirror|
    ensures Agrees(Tagged(mirror)[i], Tagged(db)) <==> RowAgrees(db, ledger, mirror, i + 1)
  {
    hide FindSeq, Times;
    FoundInSurvivors(db, ledger, i + 1);
  }

  /** What a refusal names, for any mirror: the first row the table lost or has otherwise or, when it has
      all of them, some doubled, the mirror's head. */
  lemma DivergenceNames(db: Table, ledger: seq<Entry>, mirror: seq<Entry>)
    requires SurvivesFrom(db, ledger) && Intact(mirror) && FirstDivergentSeq(db, mirror).Some?
    ensures var n := FirstDivergentSeq(db, mirror).value;
      && 1 <= n <= |mirror| && (RowAgrees(db, ledger, mirror, n) ==> n == |mirror|)
      && forall k: nat :: 1 <= k < n ==> RowAgrees(db, ledger, mirror, k)
  {
    hide Agrees, RowAgrees, HeadProves, SurvivesFrom;
    forall i: nat | i < |mirror|
      ensures Agrees(Tagged(mirror)[i], Tagged(db)) <==> RowAgrees(db, ledger, mirror, i + 1)
    {
      AgreesWhen(db, ledger, mirror, i);
    }
    var t, n := Tagged(mirror), FirstDivergentSeq(db, mirror).value;
    if FirstOverlapDisagreement(t, Tagged(db)).Some? {
      var i := DisagreementIsFirst(t, Tagged(db));
      assert n == i + 1;
    }
    forall k: nat | 1 <= k < n
      ensures RowAgrees(db, ledger, mirror, k)
    {
      assert Agrees(t[k - 1], Tagged(db));
    }
  }

  lemma {:induction false} AllAfter(b: Table, n: nat)
    requires forall i :: 0 <= i < |b| ==> b[i].seq_ > n
    ensures RowsAfter(b, n) == b
  {
    if b == [] {
    } else {
      AllAfter(b[1..], n);
      assert b == [b[0]] + b[1..];
    }
  }

  /** On rows in the order of their numbers the query cuts the table in two. */
  lemma {:induction false} RowsAfterCut(a: Table, b: Table, n: nat)
    requires forall i :: 0 <= i < |a| ==> a[i].seq_ <= n
    requires forall i :: 0 <= i < |b| ==> b[i].seq_ > n
    ensures RowsAfter(a + b, n) == b
  {
    if a == [] {
      assert a + b == b;
      AllAfter(b, n);
    } else {
      RowsAfterCut(a[1..], b, n);
      assert (a + b)[1..] == a[1..] + b;
    }
  }

  // ----- a table that lost nothing -----

  /** The rows carry 1, 2, … without a gap, as an append-only ledger leaves them. */
  predicate Intact(db: Table) { forall i :: 0 <= i < |db| ==> db[i].seq_ == i + 1 }

  lemma {:induction false} IntactTimes(db: Table, from: nat, n: nat)
    requires forall i :: 0 <= i < |db| ==> db[i].seq_ == from + i
    ensures Times(db, n) == if from <= n < from + |db| then 1 else 0
    ensures from <= n + 1 <= from + |db| ==> RowsAfter(db, n) == db[n + 1 - from..]
    ensures n < from ==> RowsAfter(db, n) == db
    decreases |db|
  {
    if db == [] {
    } else {
      IntactTimes(db[1..], from + 1, n);
      assert [db[0]] + db[1..] == db && db[0..] == db;
      assert from <= n && n + 1 <= from + |db| ==> db[1..][n - from..] == db[n + 1 - from..];
    }
  }

  lemma IntactFind(db: Table, n: nat)
    requires Intact(db)
    ensures FindSeq(Tagged(db), n) == if 1 <= n <= |db| then Some(db[n - 1].hash) else None
  {
    hide FindSeq;
    var t := Tagged(db);
    assert forall i :: 0 <= i < |t| ==> t[i].0 == i + 1;
    FindConsecutive(t, n);
  }

  lemma IntactSurvives(db: Table)
    requires Intact(db)
    ensures SurvivesFrom(db, db)
  {
  }

  /** On an intact table the queries see the ledger as a sequence. */
  lemma IntactQueries(db: Table, k: nat)
    requires Intact(db) && k <= |db|
    ensures MaxSeq(db) == |db| && RowsAfter(db, k) == db[k..] && OnceEach(db, k)
    ensures k > 0 ==> FindSeq(Tagged(db), k) == Some(db[k - 1].hash)
  {
    hide FindSeq, Times, RowsAfter;
    IntactTimes(db, 1, k);
    assert RowsAfter(db, k) == db[k..];
    forall n: nat | 1 <= n <= k
      ensures Times(db, n) == 1
    {
      IntactTimes(db, 1, n);
    }
    IntactFind(db, k);
  }

  /** On an intact table no longer than the mirror, agreement is the head's hash. */
  lemma IntactAgreement(db: Table, mirror: seq<Entry>)
    requires Intact(db) && Intact(mirror) && |mirror| <= |db|
    ensures FirstDivergentSeq(db, mirror).None? <==> mirror == [] || HeadHash(mirror) == Some(db[|mirror| - 1].hash)
  {
    IntactQueries(db, |mirror|);
    CountsMeanOnceEach(db, |mirror|);
  }
}
