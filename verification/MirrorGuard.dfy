/** The decisions boot and recovery take when the mirror and the ledger may differ. */
module MirrorGuard {
  import opened Wrappers
  import opened HashChain

  // ----- the torn tail -----

  datatype TailDecision = Clean | TornTail | Deep

  function DecideTail(terminated: bool, prefixOk: bool): TailDecision
  {
    if !prefixOk then Deep else if terminated then Clean else TornTail
  }

  datatype TailAction = ProceedOnPrefix | PreserveRefuse

  function ActionFor(d: TailDecision): TailAction
  {
    match d
    case Clean => ProceedOnPrefix
    case TornTail => ProceedOnPrefix
    case Deep => PreserveRefuse
  }

  // ----- mirror against ledger -----

  datatype Reconciliation = Extend | Unchanged | PreserveRefuseAhead | PreserveRefuseHeadMismatch

  function Reconcile(mirrorHead: nat, dbHead: nat, headHashEqual: bool): Reconciliation
  {
    if mirrorHead < dbHead then Extend
    else if mirrorHead > dbHead then PreserveRefuseAhead
    else if dbHead == 0 then Unchanged
    else if headHashEqual then Unchanged
    else PreserveRefuseHeadMismatch
  }

  function HeadHash(es: seq<Entry>): Option<Digest>
  {
    if es == [] then None else Some(es[|es| - 1].hash)
  }

  function ReconcileLogs(mirror: seq<Entry>, ledger: seq<Entry>): Reconciliation
  {
    Reconcile(|mirror|, |ledger|, HeadHash(mirror) == HeadHash(ledger))
  }

  /** Comparing two head hashes is as good as comparing the whole chains. */
  lemma UnchangedMeansEqual(h: Hasher, genesis: Digest, mirror: seq<Entry>, ledger: seq<Entry>)
    requires Chained(h, genesis, mirror) && Chained(h, genesis, ledger) && NoCollision(mirror, ledger)
    ensures ReconcileLogs(mirror, ledger) == Unchanged <==> mirror == ledger
    ensures ReconcileLogs(mirror, ledger) == PreserveRefuseHeadMismatch <==> |mirror| == |ledger| && mirror != ledger
  {
    if |mirror| == |ledger| > 0 {
      HeadDecidesPrefix(h, genesis, mirror, ledger);
      assert ledger[..|mirror|] == ledger;
    }
  }

  /** `reconcile` alone does not promise that the ledger continues the mirror: it never looks at the
      overlap. Two chain-verified logs from the same genesis show it. */
  lemma ExtendWithoutPrefix(h: Hasher, genesis: Digest)
    ensures exists mirror: seq<Entry>, ledger: seq<Entry> ::
      && Chained(h, genesis, mirror) && Chained(h, genesis, ledger)
      && ReconcileLogs(mirror, ledger) == Extend && !(mirror <= ledger)
  {
    var m := [Linked(h, genesis, [], [0])];
    var l := [Linked(h, genesis, [], [1])];
    var l2 := l + [Linked(h, genesis, l, [2])];
    ChainGrows(h, genesis, [], [0]);
    ChainGrows(h, genesis, [], [1]);
    assert [] + m == m && [] + l == l;
    ChainGrows(h, genesis, l, [2]);
    assert m[0].body != l2[0].body;
    assert ReconcileLogs(m, l2) == Extend && !(m <= l2);
  }

  /** When `Extend` is answered, the ledger continues the mirror exactly when the ledger's entry at
      the mirror's head carries the mirror's head hash: what the lockstep append and the boot check. */
  lemma ExtendIsSafeWhen(h: Hasher, genesis: Digest, mirror: seq<Entry>, ledger: seq<Entry>)
    requires Chained(h, genesis, mirror) && Chained(h, genesis, ledger) && NoCollision(mirror, ledger)
    requires ReconcileLogs(mirror, ledger) == Extend
    ensures mirror <= ledger <==> mirror == [] || HeadHash(mirror) == Some(ledger[|mirror| - 1].hash)
  {
    if mirror != [] {
      HeadDecidesPrefix(h, genesis, mirror, ledger);
      assert mirror <= ledger <==> mirror == ledger[..|mirror|];
    }
  }

  // ----- recovery from a snapshot ahead of the mirror -----

  /** A log as the guards see it: sequence number and entry hash. */
  type Overlap<+H> = seq<(nat, H)>

  /** Some row carries `n` and `value`, and no row before it carries `n`. */
  predicate IsFirst<H(==)>(staging: Overlap<H>, n: nat, value: H)
  {
    exists j :: 0 <= j < |staging| && staging[j] == (n, value) && forall k :: 0 <= k < j ==> staging[k].0 != n
  }

  /** `staging.iter().find(|(s, _)| s == seq)`. */
  function FindSeq<H>(staging: Overlap<H>, n: nat): (r: Option<H>)
    ensures r.None? <==> forall j :: 0 <= j < |staging| ==> staging[j].0 != n
    ensures r.Some? ==> IsFirst(staging, n, r.value)
  {
    if staging == [] then None
    else if staging[0].0 == n then
      assert staging[0] == (n, staging[0].1);
      Some(staging[0].1)
    else
      var r := FindSeq(staging[1..], n);
      assert r.Some? ==> IsFirst(staging, n, r.value) by {
        if r.Some? {
          var j :| 0 <= j < |staging[1..]| && staging[1..][j] == (n, r.value)
                   && forall k :: 0 <= k < j ==> staging[1..][k].0 != n;
          assert staging[j + 1] == (n, r.value);
          assert forall k :: 0 <= k < j + 1 ==> staging[k].0 != n by {
            forall k | 0 <= k < j + 1 ensures staging[k].0 != n {
              if k > 0 { assert staging[k] == staging[1..][k - 1]; }
            }
          }
        }
      }
      assert forall j :: 0 <= j < |staging[1..]| ==> staging[1..][j] == staging[j + 1];
      r
  }

  predicate Agrees<H(==)>(row: (nat, H), staging: Overlap<H>) { FindSeq(staging, row.0) == Some(row.1) }

  function FirstOverlapDisagreement<H(==)>(mirror: Overlap<H>, staging: Overlap<H>): (r: Option<nat>)
    ensures r.None? <==> forall i :: 0 <= i < |mirror| ==> Agrees(mirror[i], staging)
  {
    if mirror == [] then None
    else if Agrees(mirror[0], staging) then
      assert forall i :: 1 <= i < |mirror| ==> mirror[i] == mirror[1..][i - 1];
      FirstOverlapDisagreement(mirror[1..], staging)
    else Some(mirror[0].0)
  }

  predicate GenesisAnchored<H>(overlap: Overlap<H>) { overlap != [] && overlap[0].0 == 1 }

  predicate AheadSelfCertifies<H>(mirrorHead: nat, overlap: Overlap<H>, disagreement: Option<nat>)
  {
    mirrorHead != 0 && GenesisAnchored(overlap) && disagreement.None?
  }

  datatype GuardRoute = Prefix | RecoverAheadTopUp | FallBackToPrefix | Refuse

  function RouteGuard(snapshotHead: nat, mirrorHead: nat, selfCertifies: bool, fallback: bool): GuardRoute
  {
    if snapshotHead <= mirrorHead then Prefix
    else if selfCertifies && mirrorHead >= 1 then RecoverAheadTopUp
    else if fallback then FallBackToPrefix
    else Refuse
  }

  /** Sequence numbers without a gap, from any start. */
  predicate Consecutive<H>(log: Overlap<H>)
  {
    forall i :: 0 < i < |log| ==> log[i].0 == log[0].0 + i
  }

  function Head<H>(log: Overlap<H>): nat { if log == [] then 0 else log[|log| - 1].0 }

  /** The route recovery takes with this mirror and this rebuilt snapshot. */
  function RouteFor<H(==)>(mirror: Overlap<H>, staging: Overlap<H>, fallback: bool): GuardRoute
  {
    RouteGuard(Head(staging), Head(mirror),
      AheadSelfCertifies(Head(mirror), mirror, FirstOverlapDisagreement(mirror, staging)), fallback)
  }

  /** In a gap-free log a row is found by its offset. */
  lemma FindConsecutive<H>(staging: Overlap<H>, n: nat)
    requires Consecutive(staging)
    ensures FindSeq(staging, n) ==
      if staging != [] && staging[0].0 <= n < staging[0].0 + |staging| then Some(staging[n - staging[0].0].1) else None
  {
  }

  /** `mirror` starts at sequence number 1 and is what `staging` holds from there on, up to some row. */
  predicate Continues<H(==)>(mirror: Overlap<H>, staging: Overlap<H>)
  {
    && mirror != [] && mirror[0].0 == 1
    && staging != [] && staging[0].0 <= 1 <= staging[0].0 + |staging|
    && mirror <= staging[1 - staging[0].0..]
  }

  /** Topping up the mirror from an ahead snapshot is chosen exactly when the snapshot continues a
      genesis-anchored mirror, so it keeps every mirror row. Recovery refuses exactly when an ahead
      snapshot does not and there is nothing to fall back to. */
  lemma TopUpKeepsTheMirror<H>(mirror: Overlap<H>, staging: Overlap<H>, fallback: bool)
    requires Consecutive(mirror) && Consecutive(staging)
    ensures var route := RouteFor(mirror, staging, fallback);
      var ahead := staging != [] && (mirror == [] || mirror[|mirror| - 1].0 < staging[|staging| - 1].0)
                   && staging[|staging| - 1].0 > 0;
      && (route == RecoverAheadTopUp <==> ahead && Continues(mirror, staging))
      && (route == Refuse <==> ahead && !fallback && !Continues(mirror, staging))
      && (route == Prefix <==> !ahead)
  {
    assert Continues(mirror, staging) ==> mirror != [] && mirror[0].0 == 1;
    assert mirror != [] && mirror[0].0 == 1 ==> Head(mirror) == |mirror|;
    hide Agrees, Continues, Consecutive, FindSeq;
    if mirror != [] && mirror[0].0 == 1 && Head(mirror) < Head(staging) {
      AgreementIsContinuation(mirror, staging);
    }
  }

  lemma AgreesAt<H>(mirror: Overlap<H>, staging: Overlap<H>, i: nat)
    requires Consecutive(mirror) && Consecutive(staging) && i < |mirror| && mirror[0].0 == 1
    requires Head(mirror) < Head(staging)
    ensures Agrees(mirror[i], staging) <==>
      staging[0].0 <= i + 1 && i + 1 - staging[0].0 < |staging| && mirror[i] == staging[i + 1 - staging[0].0]
  {
    hide FindSeq;
    FindConsecutive(staging, mirror[i].0);
    assert mirror[i].0 == i + 1;
  }

  lemma AgreementIsContinuation<H>(mirror: Overlap<H>, staging: Overlap<H>)
    requires Consecutive(mirror) && Consecutive(staging) && mirror != [] && mirror[0].0 == 1
    requires Head(mirror) < Head(staging)
    ensures (forall i :: 0 <= i < |mirror| ==> Agrees(mirror[i], staging)) <==> Continues(mirror, staging)
  {
    var first := staging[0].0;
    assert first + |staging| - 1 == Head(staging) && Head(mirror) == |mirror|;
    hide Agrees, Consecutive, FindSeq, Head;
    AgreesAt(mirror, staging, 0);
    if first <= 1 {
      var rest := staging[1 - first..];
      forall i | 0 <= i < |mirror|
        ensures Agrees(mirror[i], staging) <==> mirror[i] == rest[i]
      {
        AgreesAt(mirror, staging, i);
      }
      SameRows(mirror, rest);
    }
  }

  lemma SameRows<T>(a: seq<T>, b: seq<T>)
    requires |a| <= |b|
    ensures a <= b <==> forall i :: 0 <= i < |a| ==> a[i] == b[i]
  {
    if forall i :: 0 <= i < |a| ==> a[i] == b[i] {
      assert a == b[..|a|];
    }
  }

  /** A disagreement names the first mirror row that the staging log lacks or has otherwise. */
  lemma {:induction false} DisagreementIsFirst<H>(mirror: Overlap<H>, staging: Overlap<H>) returns (i: nat)
    requires FirstOverlapDisagreement(mirror, staging).Some?
    ensures i < |mirror| && FirstOverlapDisagreement(mirror, staging) == Some(mirror[i].0)
    ensures !Agrees(mirror[i], staging) && forall k :: 0 <= k < i ==> Agrees(mirror[k], staging)
    ensures Consecutive(staging) ==> mirror[i] !in staging
  {
    hide Agrees, Consecutive;
    if !Agrees(mirror[0], staging) {
      i := 0;
    } else {
      var j := DisagreementIsFirst(mirror[1..], staging);
      i := j + 1;
      assert forall k :: 0 < k < i ==> mirror[k] == mirror[1..][k - 1];
    }
    if Consecutive(staging) {
      AbsentWhenNotAgreed(mirror[i], staging);
    }
  }

  lemma AbsentWhenNotAgreed<H>(row: (nat, H), staging: Overlap<H>)
    requires Consecutive(staging) && !Agrees(row, staging)
    ensures row !in staging
  {
  }
}
