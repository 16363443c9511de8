/** The three-line install-intent journal: staging path, content hash, target path. */
module Journal {
  import opened Wrappers
  import opened Utf8
  import opened Text
  import Fnv
  import Numerals

  type Path = string

  const WAL_SUFFIX := ".wal"
  const INTENT_SUFFIX := ".install-intent"
  const EVIDENCE_SUFFIX := ".install-intent.unreconciled"
  const STAGING_SUFFIX := ".ckpt-staging.duckdb"

  function WalPath(db: Path): Path { db + WAL_SUFFIX }

  function IntentPath(db: Path): Path { db + INTENT_SUFFIX }

  function EvidencePath(db: Path): Path { db + EVIDENCE_SUFFIX }

  function StagingPath(db: Path): Path { db + STAGING_SUFFIX }

  /** Where everything stands beside a database. */
  lemma PathsSpelled(db: Path)
    ensures WalPath(db) == db + ".wal"
    ensures IntentPath(db) == db + ".install-intent"
    ensures EvidencePath(db) == db + ".install-intent.unreconciled"
    ensures StagingPath(db) == db + ".ckpt-staging.duckdb"
  {
  }

  datatype Intent = Intent(staging: Path, hash: Fnv.Word, target: Path)

  function Head(staging: Path, hash: Fnv.Word): string
  {
    staging + "\n" + (Numerals.Print(hash) + "\n")
  }

  /** What `write_intent` formats. */
  function Format(i: Intent): string
  {
    Head(i.staging, i.hash) + (i.target + "\n")
  }

  /** What `read_intent` parses: three lines, the middle one a `u64`. */
  function ParseIntent(text: string): (r: Option<Intent>)
  {
    var ls := Lines(text);
    if |ls| < 2 then None
    else
      var hash :- Numerals.Parse(ls[1], Fnv.MODULUS - 1);
      if |ls| < 3 then None else Some(Intent(ls[0], hash, ls[2]))
  }

  function ReadIntent(content: Bytes): Option<Intent>
  {
    var text :- Decode(content);
    ParseIntent(text)
  }

  /** A path that survives being one line of the journal. */
  predicate LineSafe(p: Path) { '\n' !in p && StripCr(p) == p }

  lemma {:induction false} LinesHaveNoBreak(s: string)
    ensures forall l :: l in Lines(s) ==> '\n' !in l
  {
    if s != "" && Find(s, '\n').Some? {
      LinesHaveNoBreak(s[Find(s, '\n').value + 1..]);
    }
  }

  lemma NumeralLine(n: nat)
    ensures '\n' !in Numerals.Print(n) && StripCr(Numerals.Print(n)) == Numerals.Print(n)
    ensures forall m :: 0 <= m <= |Numerals.Print(n)| ==> '\n' !in Numerals.Print(n)[..m]
  {
  }

  lemma HeadLines(staging: Path, hash: Fnv.Word, rest: string)
    requires '\n' !in staging
    ensures Lines(Head(staging, hash) + rest) == [StripCr(staging), Numerals.Print(hash)] + Lines(rest)
  {
    hide Lines, Numerals.Print;
    var n := Numerals.Print(hash);
    assert Head(staging, hash) + rest == staging + "\n" + (n + "\n" + rest);
    LinesCons(staging, n + "\n" + rest);
    NumeralLine(hash);
    LinesCons(n, rest);
  }

  lemma HeadParse(staging: Path, hash: Fnv.Word, rest: string)
    requires '\n' !in staging
    ensures ParseIntent(Head(staging, hash) + rest) ==
      if Lines(rest) == [] then None else Some(Intent(StripCr(staging), hash, Lines(rest)[0]))
  {
    hide Lines, Head, Numerals.Print, Numerals.Parse;
    HeadLines(staging, hash, rest);
    Numerals.ParsePrint(hash, Fnv.MODULUS - 1);
  }

  /** The journal reads back as written exactly when both paths fit on a line. */
  lemma IntentRoundTrip(i: Intent)
    ensures ReadIntent(Encode(Format(i))) == Some(i) <==> LineSafe(i.staging) && LineSafe(i.target)
  {
    hide Decode, Encode, Numerals.Print, Head;
    DecodeEncode(Format(i));
    LinesHaveNoBreak(Format(i));
    if '\n' !in i.staging {
      HeadParse(i.staging, i.hash, i.target + "\n");
      if '\n' !in i.target {
        LinesCons(i.target, "");
        assert i.target + "\n" == i.target + "\n" + "";
      }
    }
  }

  lemma FormatBytes(i: Intent)
    ensures Encode(Format(i)) == Encode(Head(i.staging, i.hash)) + (Encode(i.target) + Encode("\n"))
    ensures |Encode("\n")| == 1
  {
    EncodeConcat(Head(i.staging, i.hash), i.target + "\n");
    EncodeConcat(i.target, "\n");
    EncodeAscii("\n");
  }

  /** What is on disk when the journal write stopped after `k` bytes, or ended before. */
  function Torn(i: Intent, k: nat): Bytes
  {
    if k < |Encode(Format(i))| then Encode(Format(i))[..k] else Encode(Format(i))
  }

  /** A torn journal reads as no journal, or as one whose target is a shorter path: the first
      bytes of the real one, when they form whole characters. */
  lemma TornJournal(i: Intent, k: nat)
    requires LineSafe(i.staging) && LineSafe(i.target)
    requires k < |Encode(Format(i))|
    ensures var cut := k - |Encode(Head(i.staging, i.hash))|;
      if cut <= 0 || cut > |Encode(i.target)| || !IsBoundary(Encode(i.target), cut) then ReadIntent(Torn(i, k)).None?
      else exists m: nat :: 1 <= m <= |i.target| && Encode(i.target[..m]) == Encode(i.target)[..cut]
                         && ReadIntent(Torn(i, k)) == Some(Intent(i.staging, i.hash, i.target[..m]))
  {
    hide Head, Format, ParseIntent, Encode, Decode, LineSafe;
    var h := Head(i.staging, i.hash);
    var head, b := Encode(h), Encode(Format(i));
    FormatBytes(i);
    NoBytes();
    if k <= |head| {
      assert b[..k] == head[..k];
      TornHead(i.staging, i.hash, k);
    } else {
      var j := k - |head|;
      assert b[..k] == head + Encode(i.target)[..j];
      BoundaryCut(i.target, j);
      if IsBoundary(Encode(i.target), j) {
        var m: nat :| m <= |i.target| && Encode(i.target)[..j] == Encode(i.target[..m]);
        assert i.target[..0] == "";
        TornTarget(i, m);
        EncodeConcat(h, i.target[..m]);
      } else {
        TornCharacter(h, i.target, j);
      }
    }
  }

  lemma TornTarget(i: Intent, m: nat)
    requires LineSafe(i.staging) && LineSafe(i.target) && 0 < m <= |i.target|
    ensures ReadIntent(Encode(Head(i.staging, i.hash) + i.target[..m])) ==
      Some(Intent(i.staging, i.hash, i.target[..m]))
  {
    DecodeEncode(Head(i.staging, i.hash) + i.target[..m]);
    HeadParse(i.staging, i.hash, i.target[..m]);
    assert Find(i.target[..m], '\n').None?;
    assert Lines(i.target[..m]) == [i.target[..m]];
  }

  lemma TornCharacter(head: string, tail: string, j: nat)
    requires j <= |Encode(tail)| && !IsBoundary(Encode(tail), j)
    ensures !Valid(Encode(head) + Encode(tail)[..j])
  {
    var whole := Encode(head) + Encode(tail)[..j];
    BoundaryCut(tail, j);
    if Valid(whole) {
      EncodeCharShape(tail[0]);
      SuffixValid(Encode(head), Encode(tail)[..j]);
    }
  }

  lemma SuffixValid(a: Bytes, b: Bytes)
    requires Valid(a + b) && b != [] && !IsContinuation(b[0])
    ensures Valid(b)
  {
    assert (a + b)[|a|] == b[0] && (a + b)[|a|..] == b;
    CutValid(a + b, |a|);
  }

  /** The first two lines alone, or any part of them, are not a journal. */
  lemma TornHead(staging: Path, hash: Fnv.Word, k: nat)
    requires LineSafe(staging) && k <= |Encode(Head(staging, hash))|
    ensures ReadIntent(Encode(Head(staging, hash))[..k]).None?
  {
    var h := Head(staging, hash);
    BoundaryCut(h, k);
    if IsBoundary(Encode(h), k) {
      var m: nat :| m <= |h| && Encode(h)[..k] == Encode(h[..m]);
      DecodeEncode(h[..m]);
      TornHeadText(staging, hash, m);
    }
  }

  lemma TornHeadText(staging: Path, hash: Fnv.Word, m: nat)
    requires LineSafe(staging) && m <= |Head(staging, hash)|
    ensures ParseIntent(Head(staging, hash)[..m]).None?
  {
    hide ParseIntent, Numerals.Print;
    var h, n := Head(staging, hash), Numerals.Print(hash);
    assert |h| == |staging| + |n| + 2;
    NumeralLine(hash);
    if m == |h| {
      assert h[..m] == h + "";
      HeadParse(staging, hash, "");
    } else if m <= |staging| {
      assert h[..m] == staging[..m];
      OneLine(staging[..m]);
    } else {
      TakeMiddle(staging, n, m);
      TwoLines(staging, n[..m - |staging| - 1]);
    }
  }

  lemma OneLine(a: string)
    requires '\n' !in a
    ensures ParseIntent(a).None?
  {
  }

  lemma TakeMiddle(a: string, b: string, m: nat)
    requires |a| < m < |a| + |b| + 2
    ensures (a + "\n" + (b + "\n"))[..m] == a + "\n" + b[..m - |a| - 1]
  {
  }

  lemma TwoLines(a: string, b: string)
    requires '\n' !in a && '\n' !in b
    ensures ParseIntent(a + "\n" + b).None?
  {
    LinesCons(a, b);
    assert Find(b, '\n').None?;
    assert |Lines(b)| <= 1;
  }
}
