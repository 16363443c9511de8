/** The ledger's hash chain: consecutive sequence numbers, each entry linked to the one before. */
module HashChain {
  import opened Utf8

  type Digest = nat

  datatype Entry = Entry(seq_: nat, prev: Digest, body: Bytes, hash: Digest)

  /** SHA-256 over the canonical encoding of an entry and its predecessor's hash. */
  type Hasher = (nat, Digest, Bytes) -> Digest

  function PrevHash(genesis: Digest, es: seq<Entry>, i: nat): Digest
    requires i <= |es|
  {
    if i == 0 then genesis else es[i - 1].hash
  }

  function Linked(h: Hasher, genesis: Digest, es: seq<Entry>, body: Bytes): Entry
  {
    var prev := PrevHash(genesis, es, |es|);
    Entry(|es| + 1, prev, body, h(|es| + 1, prev, body))
  }

  predicate LinkedAt(h: Hasher, genesis: Digest, es: seq<Entry>, i: nat)
    requires i < |es|
  {
    && es[i].seq_ == i + 1
    && es[i].prev == PrevHash(genesis, es, i)
    && es[i].hash == h(es[i].seq_, es[i].prev, es[i].body)
  }

  /** What `verify_chain` accepts. */
  predicate Chained(h: Hasher, genesis: Digest, es: seq<Entry>)
  {
    forall i :: 0 <= i < |es| ==> LinkedAt(h, genesis, es, i)
  }

  /** No two different entries of the two logs have the same hash. */
  ghost predicate NoCollision(a: seq<Entry>, b: seq<Entry>)
  {
    forall i, j :: 0 <= i < |a| && 0 <= j < |b| && a[i].hash == b[j].hash ==> a[i] == b[j]
  }

  lemma ChainGrows(h: Hasher, genesis: Digest, es: seq<Entry>, body: Bytes)
    requires Chained(h, genesis, es)
    ensures Chained(h, genesis, es + [Linked(h, genesis, es, body)])
  {
    var more := es + [Linked(h, genesis, es, body)];
    forall i | 0 <= i < |more|
      ensures LinkedAt(h, genesis, more, i)
    {
      assert i < |es| ==> LinkedAt(h, genesis, es, i);
    }
  }

  /** Replacing one entry of a valid chain leaves a valid chain only when the new entry is linked to the
      one before it, carries its own hash, and, unless it is the last, that is the hash it had. */
  lemma ReplacedEntryDetected(h: Hasher, genesis: Digest, es: seq<Entry>, i: nat, e: Entry)
    requires Chained(h, genesis, es) && i < |es|
    ensures Chained(h, genesis, es[i := e]) <==>
      e == Entry(i + 1, es[i].prev, e.body, h(i + 1, es[i].prev, e.body)) && (i + 1 < |es| ==> e.hash == es[i].hash)
  {
    var s := es[i := e];
    assert LinkedAt(h, genesis, es, i);
    forall j | 0 <= j < |es| && j != i && j != i + 1
      ensures LinkedAt(h, genesis, s, j)
    {
      assert LinkedAt(h, genesis, es, j);
    }
    if i + 1 < |es| {
      assert LinkedAt(h, genesis, es, i + 1);
      assert LinkedAt(h, genesis, s, i + 1) <==> e.hash == es[i].hash;
    }
    assert LinkedAt(h, genesis, s, i) <==> e == Entry(i + 1, es[i].prev, e.body, h(i + 1, es[i].prev, e.body));
  }

  /** The hash at the shorter log's head stands for its whole history. */
  lemma {:induction false} HeadDecidesPrefix(h: Hasher, genesis: Digest, a: seq<Entry>, b: seq<Entry>)
    requires Chained(h, genesis, a) && Chained(h, genesis, b) && NoCollision(a, b)
    requires 0 < |a| <= |b|
    ensures a[|a| - 1].hash == b[|a| - 1].hash <==> a == b[..|a|]
    decreases |a|
  {
    var n := |a| - 1;
    if a[n].hash == b[n].hash {
      assert a[n] == b[n];
      assert LinkedAt(h, genesis, a, n) && LinkedAt(h, genesis, b, n);
      if n > 0 {
        ChainPrefix(h, genesis, a, n);
        PrefixNoCollision(a, b, n);
        HeadDecidesPrefix(h, genesis, a[..n], b);
      }
      assert a == a[..n] + [a[n]] && b[..n + 1] == b[..n] + [b[n]];
    }
  }

  lemma ChainPrefix(h: Hasher, genesis: Digest, es: seq<Entry>, n: nat)
    requires Chained(h, genesis, es) && n <= |es|
    ensures Chained(h, genesis, es[..n])
  {
    forall i | 0 <= i < n
      ensures LinkedAt(h, genesis, es[..n], i)
    {
      assert LinkedAt(h, genesis, es, i);
    }
  }

  lemma PrefixNoCollision(a: seq<Entry>, b: seq<Entry>, n: nat)
    requires NoCollision(a, b) && n <= |a|
    ensures NoCollision(a[..n], b)
  {
  }
}
