/** Ledger commits, lockstep mirror appends, crashes and boots, over whole runs. The mirror is a
    file of bytes; an append can stop after any of them. */
module MirrorRun {
  import opened Wrappers
  import opened Utf8
  import opened HashChain
  import opened MirrorGuard
  import opened LedgerTable

  const NEWLINE: Byte := 10
  const CR: Byte := 13

  /** The JSON record of an entry, on one line. */
  datatype Codec = Codec(enc: Entry -> Bytes, dec: Bytes -> Option<Entry>)

  ghost predicate Faithful(c: Codec)
  {
    forall e :: LineOk(c, e)
  }

  predicate LineOk(c: Codec, e: Entry)
  {
    var l := c.enc(e);
    c.dec(l) == Some(e) && l != [] && NEWLINE !in l && l[|l| - 1] != CR
  }

  function EncodeLine(c: Codec, e: Entry): Bytes { c.enc(e) + [NEWLINE] }

  function EncodeLog(c: Codec, es: seq<Entry>): Bytes
  {
    if es == [] then [] else EncodeLine(c, es[0]) + EncodeLog(c, es[1..])
  }

  lemma {:induction false} EncodeLogConcat(c: Codec, a: seq<Entry>, b: seq<Entry>)
    ensures EncodeLog(c, a + b) == EncodeLog(c, a) + EncodeLog(c, b)
  {
    if a == [] {
      assert a + b == b;
    } else {
      assert (a + b)[1..] == a[1..] + b;
      EncodeLogConcat(c, a[1..], b);
    }
  }

  // ----- reading the mirror -----

  /** One past the last line feed. */
  function TerminatedLength(b: Bytes): (n: nat)
    ensures n <= |b| && NEWLINE !in b[n..] && (n > 0 ==> b[n - 1] == NEWLINE)
  {
    if b == [] then 0
    else if b[|b| - 1] == NEWLINE then |b|
    else TerminatedLength(b[..|b| - 1])
  }

  function FirstNewline(b: Bytes): (n: nat)
    requires NEWLINE in b
    ensures n < |b| && b[n] == NEWLINE && NEWLINE !in b[..n]
  {
    if b[0] == NEWLINE then 0
    else
      var n := FirstNewline(b[1..]);
      assert b[..n + 1] == [b[0]] + b[1..][..n];
      n + 1
  }

  function TrimCr(l: Bytes): (r: Bytes)
    ensures |r| <= |l|
  {
    if l != [] && l[|l| - 1] == CR then TrimCr(l[..|l| - 1]) else l
  }

  /** Reads whole lines after the entries already read; the boot path also checks the links. */
  function ParseLines(c: Codec, b: Bytes, read: seq<Entry>, checkLinks: bool): (r: Option<seq<Entry>>)
    decreases |b|
  {
    if NEWLINE !in b then Some(read)
    else
      var n := FirstNewline(b);
      var line := TrimCr(b[..n]);
      if line == [] then None
      else
        var e :- c.dec(line);
        if e.seq_ != |read| + 1 then None
        else if checkLinks && read != [] && e.prev != read[|read| - 1].hash then None
        else ParseLines(c, b[n + 1..], read + [e], checkLinks)
  }

  datatype Classified = Classified(decision: TailDecision, entries: seq<Entry>, prefixLen: nat)

  function Classify(c: Codec, b: Bytes): (r: Classified)
    ensures r.prefixLen <= |b|
  {
    if b == [] then Classified(Clean, [], 0)
    else
      var terminated := b[|b| - 1] == NEWLINE;
      var n := TerminatedLength(b);
      match ParseLines(c, b[..n], [], true)
      case Some(es) => Classified(DecideTail(terminated, true), es, n)
      case None => Classified(DecideTail(terminated, false), [], n)
  }

  /** The lockstep append's strict read: any trailing partial line is an error. */
  function ReadStrict(c: Codec, b: Bytes): Option<seq<Entry>>
  {
    if b != [] && b[|b| - 1] != NEWLINE then None else ParseLines(c, b, [], false)
  }

  // ----- the machine -----

  datatype State = State(ledger: seq<Entry>, mirror: Bytes, up: bool)

  datatype Action =
    | Commit(body: Bytes)     // the audit transaction commits
    | Sync(cut: Option<nat>)  // the append after a commit, or a crash `cut` bytes into it
    | Crash
    | Boot(cut: Option<nat>)  // trim and reconcile, or a crash `cut` bytes into the extension

  /** The bytes the lockstep append writes, or nothing when it reports an error. */
  function SyncBytes(c: Codec, s: State): Option<Bytes>
  {
    var es :- ReadStrict(c, s.mirror);
    if es != [] && !Agrees(Tag(es[|es| - 1]), Tagged(s.ledger)) then None
    else Some(EncodeLog(c, RowsAfter(s.ledger, |es|)))
  }

  /** What a boot does to the mirror: the bytes it keeps, and the ones it then appends unless it
      refuses. */
  datatype Plan = Plan(kept: Bytes, extension: Option<Bytes>)

  /** The part of the mirror the ledger could also hold. */
  function SharedPrefix(es: seq<Entry>, dbMax: nat): seq<Entry>
  {
    if |es| <= dbMax then es else es[..dbMax]
  }

  function Extension(c: Codec, es: seq<Entry>, ledger: seq<Entry>): Option<Bytes>
  {
    var dbMax := MaxSeq(ledger);
    if FirstDivergentSeq(ledger, SharedPrefix(es, dbMax)).Some? then None
    else
      match Reconcile(|es|, dbMax, HeadHash(es) == FindSeq(Tagged(ledger), dbMax))
      case Extend => Some(EncodeLog(c, RowsAfter(ledger, |es|)))
      case Unchanged => Some([])
      case PreserveRefuseAhead => None
      case PreserveRefuseHeadMismatch => None
  }

  /** Trim a torn tail, prove the shared prefix, then extend, leave or refuse. */
  function BootPlan(c: Codec, s: State): Plan
  {
    var k := Classify(c, s.mirror);
    if ActionFor(k.decision) == PreserveRefuse then Plan(s.mirror, None)
    else Plan(s.mirror[..k.prefixLen], Extension(c, k.entries, s.ledger))
  }

  function Cut(b: Bytes, cut: Option<nat>): Bytes
  {
    if cut.Some? && cut.value < |b| then b[..cut.value] else b
  }

  function Next(c: Codec, h: Hasher, genesis: Digest, s: State, a: Action): State
  {
    match a
    case Commit(body) =>
      if s.up then s.(ledger := s.ledger + [Linked(h, genesis, s.ledger, body)]) else s
    case Sync(cut) =>
      if s.up && SyncBytes(c, s).Some? then
        s.(mirror := s.mirror + Cut(SyncBytes(c, s).value, cut), up := cut.None?)
      else s
    case Crash => s.(up := false)
    case Boot(cut) =>
      if s.up then s
      else
        var plan := BootPlan(c, s);
        match plan.extension
        case None => s.(mirror := plan.kept)
        case Some(more) => s.(mirror := plan.kept + Cut(more, cut), up := cut.None?)
  }

  function Run(c: Codec, h: Hasher, genesis: Digest, s: State, actions: seq<Action>): State
    decreases |actions|
  {
    if actions == [] then s else Run(c, h, genesis, Next(c, h, genesis, s, actions[0]), actions[1..])
  }

  // ----- a prefix of the encoded ledger, cut at any byte -----

  /** The mirror holds the first `k` ledger entries in full and some bytes of the next one. */
  ghost predicate HoldsUpTo(c: Codec, s: State, k: nat, part: Bytes)
  {
    && k <= |s.ledger|
    && s.mirror == EncodeLog(c, s.ledger[..k]) + part
    && (part != [] ==> k < |s.ledger| && part <= c.enc(s.ledger[k]))
  }

  ghost predicate Inv(c: Codec, h: Hasher, genesis: Digest, s: State)
  {
    && Chained(h, genesis, s.ledger)
    && exists k: nat, part: Bytes :: HoldsUpTo(c, s, k, part) && (s.up ==> part == [])
  }

  /** Every byte prefix of an encoded log is whole entries and a part of the next. */
  lemma {:induction false} CutLog(c: Codec, es: seq<Entry>, n: nat) returns (k: nat, part: Bytes)
    requires n <= |EncodeLog(c, es)|
    ensures k <= |es| && EncodeLog(c, es)[..n] == EncodeLog(c, es[..k]) + part
    ensures part != [] ==> k < |es| && part <= c.enc(es[k])
  {
    if es == [] || n == 0 {
      k, part := 0, [];
    } else {
      var line, rest := EncodeLine(c, es[0]), EncodeLog(c, es[1..]);
      if n < |line| {
        k, part := 0, line[..n];
      } else {
        var j, p := CutLog(c, es[1..], n - |line|);
        k, part := j + 1, p;
        assert es[..k][1..] == es[1..][..j];
        assert EncodeLog(c, es)[..n] == line + rest[..n - |line|];
        assert EncodeLog(c, es[..k]) == line + EncodeLog(c, es[1..][..j]);
      }
    }
  }

  /** Reading the encoding of a chain gives the chain back. */
  lemma {:induction false} ParseEncoded(c: Codec, h: Hasher, genesis: Digest, es: seq<Entry>, k: nat, links: bool)
    requires Faithful(c) && Chained(h, genesis, es) && k <= |es|
    ensures ParseLines(c, EncodeLog(c, es[k..]), es[..k], links) == Some(es)
    decreases |es| - k
  {
    if k == |es| {
      assert es[..k] == es;
    } else {
      var e := es[k];
      var line, rest := c.enc(e), EncodeLog(c, es[k + 1..]);
      assert LineOk(c, e);
      assert es[k..][1..] == es[k + 1..];
      var b := EncodeLog(c, es[k..]);
      assert b == line + [NEWLINE] + rest;
      FirstNewlineAfter(line, rest);
      assert b[..|line|] == line && b[|line| + 1..] == rest;
      assert LinkedAt(h, genesis, es, k);
      assert es[..k + 1] == es[..k] + [e];
      ParseEncoded(c, h, genesis, es, k + 1, links);
    }
  }

  lemma {:induction false} FirstNewlineAfter(a: Bytes, b: Bytes)
    requires NEWLINE !in a
    ensures NEWLINE in a + [NEWLINE] + b && FirstNewline(a + [NEWLINE] + b) == |a|
  {
    var s := a + [NEWLINE] + b;
    assert s[|a|] == NEWLINE;
    if a == [] {
    } else {
      assert s[0] == a[0] && s[1..] == a[1..] + [NEWLINE] + b;
      FirstNewlineAfter(a[1..], b);
    }
  }

  lemma {:induction false} LogEndsInNewline(c: Codec, es: seq<Entry>)
    ensures es != [] ==> EncodeLog(c, es) != [] && EncodeLog(c, es)[|EncodeLog(c, es)| - 1] == NEWLINE
  {
    if |es| > 1 {
      LogEndsInNewline(c, es[1..]);
    } else if |es| == 1 {
      assert EncodeLog(c, es[1..]) == [];
    }
  }

  lemma {:induction false} TerminatedLengthOf(a: Bytes, part: Bytes)
    requires NEWLINE !in part && (a != [] ==> a[|a| - 1] == NEWLINE)
    ensures TerminatedLength(a + part) == |a|
  {
    if part == [] {
      assert a + part == a;
    } else {
      var s := a + part;
      assert s[|s| - 1] == part[|part| - 1] && s[..|s| - 1] == a + part[..|part| - 1];
      TerminatedLengthOf(a, part[..|part| - 1]);
    }
  }

  /** What the boot path reads from such a mirror: a clean or a torn file, never a deep break. */
  lemma ClassifyHeld(c: Codec, h: Hasher, genesis: Digest, s: State, k: nat, part: Bytes)
    requires Faithful(c) && Chained(h, genesis, s.ledger) && HoldsUpTo(c, s, k, part)
    ensures Classify(c, s.mirror) ==
      Classified(if part == [] then Clean else TornTail, s.ledger[..k], |EncodeLog(c, s.ledger[..k])|)
  {
    var whole := EncodeLog(c, s.ledger[..k]);
    LogEndsInNewline(c, s.ledger[..k]);
    PartHasNoNewline(c, s, k, part);
    TerminatedLengthOf(whole, part);
    assert s.mirror[..|whole|] == whole;
    ChainPrefix(h, genesis, s.ledger, k);
    assert s.ledger[..k][0..] == s.ledger[..k] && s.ledger[..k][..0] == [];
    ParseEncoded(c, h, genesis, s.ledger[..k], 0, true);
    if part != [] {
      assert s.mirror[|s.mirror| - 1] == part[|part| - 1];
    } else if k == 0 {
      assert s.mirror == [];
    } else {
      assert s.mirror == whole;
    }
  }

  lemma PartHasNoNewline(c: Codec, s: State, k: nat, part: Bytes)
    requires Faithful(c) && HoldsUpTo(c, s, k, part)
    ensures NEWLINE !in part
  {
    if part != [] {
      assert LineOk(c, s.ledger[k]);
      assert part == c.enc(s.ledger[k])[..|part|];
    }
  }

  /** Appending the encoding of the missing entries, all of it or up to any byte. */
  lemma AppendMissing(c: Codec, s: State, k: nat, cut: Option<nat>)
    requires k <= |s.ledger|
    ensures var missing := EncodeLog(c, s.ledger[k..]);
      var t := State(s.ledger, EncodeLog(c, s.ledger[..k]) + Cut(missing, cut), s.up);
      && (cut.None? ==> t.mirror == EncodeLog(c, s.ledger))
      && exists j: nat, part: Bytes :: HoldsUpTo(c, t, j, part) && (cut.None? ==> part == [])
  {
    var kept, missing := EncodeLog(c, s.ledger[..k]), EncodeLog(c, s.ledger[k..]);
    assert s.ledger == s.ledger[..k] + s.ledger[k..];
    EncodeLogConcat(c, s.ledger[..k], s.ledger[k..]);
    var whole := EncodeLog(c, s.ledger);
    var t := State(s.ledger, kept + Cut(missing, cut), s.up);
    if t.mirror == whole {
      assert s.ledger[..|s.ledger|] == s.ledger;
      assert HoldsUpTo(c, t, |s.ledger|, []);
    } else {
      var n := |t.mirror|;
      assert t.mirror == whole[..n];
      var j, part := CutLog(c, s.ledger, n);
      assert HoldsUpTo(c, t, j, part);
    }
  }

  lemma ChainIsIntact(h: Hasher, genesis: Digest, es: seq<Entry>)
    requires Chained(h, genesis, es)
    ensures Intact(es)
  {
    forall i | 0 <= i < |es|
      ensures es[i].seq_ == i + 1
    {
      assert LinkedAt(h, genesis, es, i);
    }
  }

  /** Every boot of such a state has a plan, and the plan ends with the mirror equal to the ledger. */
  lemma BootPlanHeld(c: Codec, h: Hasher, genesis: Digest, s: State, k: nat, part: Bytes)
    requires Faithful(c) && Chained(h, genesis, s.ledger) && HoldsUpTo(c, s, k, part)
    ensures BootPlan(c, s) == Plan(EncodeLog(c, s.ledger[..k]), Some(EncodeLog(c, s.ledger[k..])))
  {
    hide Classify;
    ClassifyHeld(c, h, genesis, s, k, part);
    var whole := EncodeLog(c, s.ledger[..k]);
    assert s.mirror[..|whole|] == whole;
    ChainIsIntact(h, genesis, s.ledger);
    ExtensionHeld(c, s.ledger, k);
  }

  // ----- what it means that a file reads as a log -----

  function JoinLines(lines: seq<Bytes>): Bytes
  {
    if lines == [] then [] else lines[0] + [10] + JoinLines(lines[1..])
  }

  predicate AreLines(lines: seq<Bytes>) { forall i :: 0 <= i < |lines| ==> 10 !in lines[i] }

  /** Without the carriage returns at its end the line is not empty and decodes to the entry. */
  ghost predicate IsRecord(c: Codec, line: Bytes, e: Entry)
  {
    exists cut :: 0 < cut <= |line| && line[cut - 1] != 13 && (forall i :: cut <= i < |line| ==> line[i] == 13)
                  && c.dec(line[..cut]) == Some(e)
  }

  /** The lines are the records of the entries from number `k + 1` on. */
  ghost predicate Spell(c: Codec, lines: seq<Bytes>, es: seq<Entry>, k: nat, links: bool)
  {
    && |es| == k + |lines|
    && forall i :: k <= i < |es| ==>
         && IsRecord(c, lines[i - k], es[i]) && es[i].seq_ == i + 1
         && (links && i > 0 ==> es[i].prev == es[i - 1].hash)
  }

  lemma {:induction false} TrimCrMeans(l: Bytes)
    ensures var r := TrimCr(l);
      r == l[..|r|] && (r != [] ==> r[|r| - 1] != CR) && forall i :: |r| <= i < |l| ==> l[i] == CR
  {
    if l == [] || l[|l| - 1] != CR {
    } else {
      TrimCrMeans(l[..|l| - 1]);
    }
  }

  lemma RecordOfLine(c: Codec, line: Bytes, e: Entry)
    ensures IsRecord(c, line, e) <==> TrimCr(line) != [] && c.dec(TrimCr(line)) == Some(e)
  {
    hide TrimCr;
    TrimCrMeans(line);
    var n := |TrimCr(line)|;
    if IsRecord(c, line, e) {
      var cut :| 0 < cut <= |line| && line[cut - 1] != CR && (forall i :: cut <= i < |line| ==> line[i] == CR)
                 && c.dec(line[..cut]) == Some(e);
      assert cut == n;
    }
    if n > 0 && c.dec(TrimCr(line)) == Some(e) {
      assert line[n - 1] != CR && c.dec(line[..n]) == Some(e);
    }
  }

  lemma ParseLine(c: Codec, line: Bytes, rest: Bytes, read: seq<Entry>, links: bool)
    requires NEWLINE !in line
    ensures var l := TrimCr(line);
      ParseLines(c, line + [NEWLINE] + rest, read, links) ==
        if l == [] || c.dec(l).None? || c.dec(l).value.seq_ != |read| + 1
           || (links && read != [] && c.dec(l).value.prev != read[|read| - 1].hash)
        then None else ParseLines(c, rest, read + [c.dec(l).value], links)
  {
    var b := line + [NEWLINE] + rest;
    FirstNewlineAfter(line, rest);
    assert b[..|line|] == line && b[|line| + 1..] == rest;
  }

  lemma {:induction false} ParseKeeps(c: Codec, b: Bytes, read: seq<Entry>, links: bool)
    ensures var r := ParseLines(c, b, read, links); r.Some? ==> read <= r.value
    decreases |b|
  {
    if NEWLINE in b {
      var n := FirstNewline(b);
      var line := TrimCr(b[..n]);
      if line != [] && c.dec(line).Some? {
        ParseKeeps(c, b[n + 1..], read + [c.dec(line).value], links);
      }
    }
  }

  /** Whole lines read as a log exactly when they spell its entries one by one. */
  lemma {:induction false} ParseMeans(c: Codec, lines: seq<Bytes>, es: seq<Entry>, k: nat, links: bool)
    requires AreLines(lines) && k <= |es|
    ensures ParseLines(c, JoinLines(lines), es[..k], links) == Some(es) <==> Spell(c, lines, es, k, links)
    decreases |lines|
  {
    hide ParseLines, TrimCr, IsRecord;
    if lines == [] {
      ParseNothing(c, es[..k], links);
      assert |es[..k]| == k && es[..|es|] == es;
    } else {
      var rest := JoinLines(lines[1..]);
      var l := TrimCr(lines[0]);
      ParseLine(c, lines[0], rest, es[..k], links);
      assert AreLines(lines[1..]) by {
        assert forall i :: 1 <= i < |lines| ==> lines[1..][i - 1] == lines[i];
      }
      if l != [] && c.dec(l).Some? {
        ParseKeeps(c, rest, es[..k] + [c.dec(l).value], links);
      }
      if k < |es| {
        RecordOfLine(c, lines[0], es[k]);
        assert es[..k + 1] == es[..k] + [es[k]];
        ParseMeans(c, lines[1..], es, k + 1, links);
        SpellCons(c, lines, es, k, links);
      }
    }
  }

  lemma ParseNothing(c: Codec, read: seq<Entry>, links: bool)
    ensures ParseLines(c, [], read, links) == Some(read)
  {
  }

  lemma SpellCons(c: Codec, lines: seq<Bytes>, es: seq<Entry>, k: nat, links: bool)
    requires lines != [] && k < |es|
    ensures Spell(c, lines, es, k, links) <==>
      && IsRecord(c, lines[0], es[k]) && es[k].seq_ == k + 1 && (links && k > 0 ==> es[k].prev == es[k - 1].hash)
      && Spell(c, lines[1..], es, k + 1, links)
  {
    hide IsRecord;
    assert forall i :: 1 <= i < |lines| ==> lines[1..][i - 1] == lines[i];
  }

  /** Every file that ends in a whole line is lines. */
  lemma {:induction false} LinesOf(b: Bytes) returns (lines: seq<Bytes>)
    requires b == [] || b[|b| - 1] == NEWLINE
    ensures AreLines(lines) && JoinLines(lines) == b
    decreases |b|
  {
    if b == [] {
      lines := [];
    } else {
      var n := FirstNewline(b);
      var more := LinesOf(b[n + 1..]);
      lines := [b[..n]] + more;
      assert lines[1..] == more && b == b[..n] + [NEWLINE] + b[n + 1..];
    }
  }

  // ----- what a boot makes of any mirror -----

  function WholeLines(b: Bytes): Bytes { b[..TerminatedLength(b)] }

  /** The linked log the whole lines spell, if they do. */
  function ReadLog(c: Codec, b: Bytes): Option<seq<Entry>> { ParseLines(c, WholeLines(b), [], true) }

  lemma {:induction false} ParsedIsIntact(c: Codec, b: Bytes, read: seq<Entry>, links: bool)
    requires Intact(read)
    ensures var r := ParseLines(c, b, read, links); r.Some? ==> Intact(r.value)
    decreases |b|
  {
    if NEWLINE in b {
      var n := FirstNewline(b);
      var line := TrimCr(b[..n]);
      if line != [] && c.dec(line).Some? && c.dec(line).value.seq_ == |read| + 1 {
        ParsedIsIntact(c, b[n + 1..], read + [c.dec(line).value], links);
      }
    }
  }

  lemma ClassifyReads(c: Codec, b: Bytes)
    ensures var k := Classify(c, b);
      && (ActionFor(k.decision) == PreserveRefuse <==> ReadLog(c, b).None?)
      && (ReadLog(c, b).Some? ==> k.entries == ReadLog(c, b).value && b[..k.prefixLen] == WholeLines(b))
  {
    hide ParseLines;
    if b == [] {
      NoLines(c);
      assert WholeLines(b) == [];
    }
  }

  lemma NoLines(c: Codec)
    ensures ParseLines(c, [], [], true) == Some([])
  {
  }

  /** On any table: the mirror is extended or left exactly when it is no longer than the ledger and
      the prefix proof succeeds on all of it. The later head comparison never decides. */
  lemma ExtensionWhen(c: Codec, es: seq<Entry>, ledger: seq<Entry>)
    requires Intact(es)
    ensures Extension(c, es, ledger).Some? <==> |es| <= MaxSeq(ledger) && FirstDivergentSeq(ledger, es).None?
    ensures Extension(c, es, ledger).Some? ==>
      Extension(c, es, ledger).value == if |es| < MaxSeq(ledger) then EncodeLog(c, RowsAfter(ledger, |es|)) else []
  {
    hide FindSeq, RowsAfter;
    if es != [] && |es| == MaxSeq(ledger) && FirstDivergentSeq(ledger, es).None? {
      assert HeadProves(ledger, es);
      assert FindSeq(Tagged(ledger), |es|) == HeadHash(es);
    }
  }

  lemma ExtensionHeld(c: Codec, ledger: seq<Entry>, k: nat)
    requires Intact(ledger) && k <= |ledger|
    ensures Extension(c, ledger[..k], ledger) == Some(EncodeLog(c, ledger[k..]))
  {
    var es := ledger[..k];
    assert Intact(es) && EncodeLog(c, []) == [] && (es != [] ==> HeadHash(es) == Some(ledger[k - 1].hash));
    hide Extension, FirstDivergentSeq, RowsAfter, EncodeLog, MaxSeq, OnceEach, HeadHash, FindSeq;
    IntactQueries(ledger, k);
    IntactQueries(ledger, |ledger|);
    IntactAgreement(ledger, es);
    ExtensionWhen(c, es, ledger);
    assert k == |ledger| ==> ledger[k..] == [];
  }

  /** A refused boot leaves the mirror's bytes, or its whole lines when only a torn tail was wrong
      with them; any other boot leaves the whole lines and what it appended. */
  lemma BootLeaves(c: Codec, h: Hasher, genesis: Digest, s: State)
    requires !s.up
    ensures var read, t := ReadLog(c, s.mirror), Next(c, h, genesis, s, Boot(None));
      && t.ledger == s.ledger
      && (read.None? ==> t == s)
      && (read.Some? && Extension(c, read.value, s.ledger).None? ==> t == s.(mirror := WholeLines(s.mirror)))
      && (read.Some? && Extension(c, read.value, s.ledger).Some? ==>
            t == State(s.ledger, WholeLines(s.mirror) + Extension(c, read.value, s.ledger).value, true))
  {
    hide Classify, Extension, ReadLog;
    ClassifyReads(c, s.mirror);
  }

  /** Over an append-only ledger, boot proceeds exactly when the whole lines are a linked log no
      longer than the ledger that is empty or has the ledger's hash at its head. */
  lemma BootProceedsWhen(c: Codec, h: Hasher, genesis: Digest, s: State)
    requires !s.up && Intact(s.ledger)
    ensures var read, t := ReadLog(c, s.mirror), Next(c, h, genesis, s, Boot(None));
      && (t.up <==> read.Some? && |read.value| <= |s.ledger|
                    && (read.value == [] || HeadHash(read.value) == Some(s.ledger[|read.value| - 1].hash)))
      && (t.up ==> t.mirror == WholeLines(s.mirror) + EncodeLog(c, s.ledger[|read.value|..]))
  {
    hide ParseLines, Extension, FirstDivergentSeq, RowsAfter, HeadHash, OnceEach, Next, WholeLines;
    BootLeaves(c, h, genesis, s);
    ParsedIsIntact(c, WholeLines(s.mirror), [], true);
    IntactQueries(s.ledger, |s.ledger|);
    if ReadLog(c, s.mirror).Some? {
      var es := ReadLog(c, s.mirror).value;
      ExtensionWhen(c, es, s.ledger);
      if |es| <= |s.ledger| {
        IntactQueries(s.ledger, |es|);
        IntactAgreement(s.ledger, es);
        assert |es| == |s.ledger| ==> s.ledger[|es|..] == [];
      }
    }
  }

  /** Over a table that may have lost or doubled rows of a chain, boot proceeds exactly when the
      mirror is what the chain began with, not ahead of the table, and the table still holds each of
      its rows once. */
  lemma BootProceedsOnDamage(c: Codec, h: Hasher, genesis: Digest, s: State, ledger: seq<Entry>)
    requires !s.up && SurvivesFrom(s.ledger, ledger) && Chained(h, genesis, ledger)
    requires ReadLog(c, s.mirror).Some? ==>
      Chained(h, genesis, ReadLog(c, s.mirror).value) && NoCollision(ReadLog(c, s.mirror).value, ledger)
    ensures var read, t := ReadLog(c, s.mirror), Next(c, h, genesis, s, Boot(None));
      t.up <==> read.Some? && |read.value| <= MaxSeq(s.ledger)
                && read.value <= ledger && OnceEach(s.ledger, |read.value|)
  {
    hide ParseLines, Extension, FirstDivergentSeq, RowsAfter, HeadHash, Times;
    BootLeaves(c, h, genesis, s);
    ParsedIsIntact(c, WholeLines(s.mirror), [], true);
    if ReadLog(c, s.mirror).Some? {
      var es := ReadLog(c, s.mirror).value;
      ExtensionWhen(c, es, s.ledger);
      DivergenceFindsDamage(h, genesis, s.ledger, ledger, es);
    }
  }

  lemma ChainSurvives(h: Hasher, genesis: Digest, es: seq<Entry>)
    requires Chained(h, genesis, es)
    ensures SurvivesFrom(es, es)
  {
    hide Chained;
    ChainIsIntact(h, genesis, es);
    IntactSurvives(es);
  }

  /** On two chain-verified logs: exactly when the mirror is a prefix of the ledger. */
  lemma BootProceedsOnPrefix(c: Codec, h: Hasher, genesis: Digest, s: State)
    requires !s.up && Chained(h, genesis, s.ledger)
    requires ReadLog(c, s.mirror).Some? ==>
      Chained(h, genesis, ReadLog(c, s.mirror).value) && NoCollision(ReadLog(c, s.mirror).value, s.ledger)
    ensures var read, t := ReadLog(c, s.mirror), Next(c, h, genesis, s, Boot(None));
      t.up <==> read.Some? && read.value <= s.ledger
  {
    hide ReadLog, Next, OnceEach, Chained, NoCollision, MaxSeq, RowsAfter, FindSeq, SurvivesFrom, Intact;
    ChainSurvives(h, genesis, s.ledger);
    ChainIsIntact(h, genesis, s.ledger);
    BootProceedsOnDamage(c, h, genesis, s, s.ledger);
    IntactQueries(s.ledger, |s.ledger|);
    if ReadLog(c, s.mirror).Some? && ReadLog(c, s.mirror).value <= s.ledger {
      IntactQueries(s.ledger, |ReadLog(c, s.mirror).value|);
    }
  }

  // ----- what the boot does not look at -----

  lemma FirstNewlineIn(a: Bytes, b: Bytes)
    requires NEWLINE in a
    ensures NEWLINE in a + b && FirstNewline(a + b) == FirstNewline(a)
    decreases |a|
  {
    assert (a + b)[0] == a[0];
    if a[0] != NEWLINE {
      assert (a + b)[1..] == a[1..] + b;
      FirstNewlineIn(a[1..], b);
    }
  }

  /** Reading whole lines and then more is reading one after the other. */
  lemma {:induction false} ParseConcat(c: Codec, a: Bytes, b: Bytes, read: seq<Entry>, links: bool)
    requires a != [] ==> a[|a| - 1] == NEWLINE
    ensures ParseLines(c, a + b, read, links) ==
      match ParseLines(c, a, read, links)
      case None => None
      case Some(es) => ParseLines(c, b, es, links)
    decreases |a|
  {
    if a == [] {
      assert a + b == b;
    } else {
      hide FirstNewline;
      var n := FirstNewline(a);
      FirstNewlineIn(a, b);
      assert (a + b)[..n] == a[..n] && (a + b)[n + 1..] == a[n + 1..] + b;
      var line := TrimCr(a[..n]);
      if line != [] && c.dec(line).Some? {
        ParseConcat(c, a[n + 1..], b, read + [c.dec(line).value], links);
      }
    }
  }

  lemma ParseOne(c: Codec, e: Entry, rest: Bytes, read: seq<Entry>)
    requires Faithful(c)
    ensures ParseLines(c, EncodeLine(c, e) + rest, read, true) ==
      if e.seq_ == |read| + 1 && (read != [] ==> e.prev == read[|read| - 1].hash)
      then ParseLines(c, rest, read + [e], true) else None
  {
    assert LineOk(c, e);
    var line := c.enc(e);
    var b := EncodeLine(c, e) + rest;
    assert b == line + [NEWLINE] + rest;
    FirstNewlineAfter(line, rest);
    assert b[..|line|] == line && b[|line| + 1..] == rest;
  }

  /** The rows carry `k + 1`, `k + 2`, … */
  predicate GoesOn(rows: seq<Entry>, k: nat) { forall i :: 0 <= i < |rows| ==> rows[i].seq_ == k + 1 + i }

  lemma {:induction false} ParseSurvivors(
      c: Codec, h: Hasher, genesis: Digest, ledger: seq<Entry>, rows: seq<Entry>, k: nat)
    requires Faithful(c) && Chained(h, genesis, ledger) && SurvivesFrom(rows, ledger) && k <= |ledger|
    ensures ParseLines(c, EncodeLog(c, rows), ledger[..k], true).Some? <==> GoesOn(rows, k)
    decreases |rows|
  {
    if rows == [] {
    } else {
      var e, rest := rows[0], rows[1..];
      assert EncodeLog(c, rows) == EncodeLine(c, e) + EncodeLog(c, rest);
      hide ParseLines, EncodeLog, EncodeLine, Faithful, Chained, GoesOn, SurvivesFrom;
      ParseOne(c, e, EncodeLog(c, rest), ledger[..k]);
      RowsCons(rows, ledger, k);
      if e.seq_ == k + 1 {
        LinkHolds(h, genesis, ledger, k);
        assert ledger[..k] + [e] == ledger[..k + 1];
        ParseSurvivors(c, h, genesis, ledger, rest, k + 1);
      }
    }
  }

  lemma RowsCons(rows: seq<Entry>, ledger: seq<Entry>, k: nat)
    requires rows != [] && SurvivesFrom(rows, ledger)
    ensures SurvivesFrom(rows[1..], ledger)
    ensures 1 <= rows[0].seq_ <= |ledger| && rows[0] == ledger[rows[0].seq_ - 1]
    ensures GoesOn(rows, k) <==> rows[0].seq_ == k + 1 && GoesOn(rows[1..], k + 1)
  {
    assert forall i :: 1 <= i < |rows| ==> rows[i] == rows[1..][i - 1];
  }

  lemma LinkHolds(h: Hasher, genesis: Digest, ledger: seq<Entry>, k: nat)
    requires Chained(h, genesis, ledger) && k < |ledger|
    ensures k > 0 ==> ledger[k].prev == ledger[..k][k - 1].hash
  {
    assert LinkedAt(h, genesis, ledger, k);
  }

  lemma {:induction false} RowsSurvive(db: seq<Entry>, ledger: seq<Entry>, n: nat)
    requires SurvivesFrom(db, ledger)
    ensures SurvivesFrom(RowsAfter(db, n), ledger)
  {
    if db == [] {
    } else {
      RowsSurvive(db[1..], ledger, n);
    }
  }

  /** Boot proves the rows the mirror has, not the ones it appends. When the table lost or doubled a row
      behind the mirror's head, boot still proceeds, and what it writes is no log any more: the next
      boot finds a deep break and refuses. Otherwise the next boot reads it back. */
  lemma ExtensionReadsBack(c: Codec, h: Hasher, genesis: Digest, s: State, ledger: seq<Entry>)
    requires !s.up && Faithful(c) && SurvivesFrom(s.ledger, ledger) && Chained(h, genesis, ledger)
    requires ReadLog(c, s.mirror).Some?
    requires var es := ReadLog(c, s.mirror).value;
      es <= ledger && |es| < MaxSeq(s.ledger) && FirstDivergentSeq(s.ledger, es).None?
    ensures var es, t := ReadLog(c, s.mirror).value, Next(c, h, genesis, s, Boot(None));
      t.up && (ReadLog(c, t.mirror).Some? <==> GoesOn(RowsAfter(s.ledger, |es|), |es|))
  {
    hide ParseLines, Extension, FirstDivergentSeq, RowsAfter, Next, Faithful, Chained, GoesOn;
    var es, a := ReadLog(c, s.mirror).value, WholeLines(s.mirror);
    var rows := RowsAfter(s.ledger, |es|);
    var b := EncodeLog(c, rows);
    BootLeaves(c, h, genesis, s);
    ParsedIsIntact(c, a, [], true);
    ExtensionWhen(c, es, s.ledger);
    RowsSurvive(s.ledger, ledger, |es|);
    LogEndsInNewline(c, rows);
    TerminatedLengthOf(a + b, []);
    assert a + b + [] == a + b;
    assert WholeLines(a + b) == a + b;
    ParseConcat(c, a, b, [], true);
    assert es == ledger[..|es|];
    ParseSurvivors(c, h, genesis, ledger, rows, |es|);
  }

  lemma StrictReadOf(c: Codec, h: Hasher, genesis: Digest, es: seq<Entry>)
    requires Faithful(c) && Chained(h, genesis, es)
    ensures ReadStrict(c, EncodeLog(c, es)) == Some(es)
  {
    hide ParseLines, Chained, Faithful;
    LogEndsInNewline(c, es);
    assert es[0..] == es && es[..0] == [];
    ParseEncoded(c, h, genesis, es, 0, false);
  }

  /** A running process finds a mirror of whole lines and appends exactly what is missing. */
  lemma SyncHeld(c: Codec, h: Hasher, genesis: Digest, s: State, k: nat)
    requires Faithful(c) && Chained(h, genesis, s.ledger) && HoldsUpTo(c, s, k, [])
    ensures SyncBytes(c, s) == Some(EncodeLog(c, s.ledger[k..]))
  {
    var es := s.ledger[..k];
    hide RowsAfter, FindSeq, ReadStrict, EncodeLog, OnceEach, Faithful;
    assert s.mirror == EncodeLog(c, es);
    ChainIsIntact(h, genesis, s.ledger);
    IntactQueries(s.ledger, k);
    ChainPrefix(h, genesis, s.ledger, k);
    hide Chained;
    StrictReadOf(c, h, genesis, es);
    assert k > 0 ==> es[k - 1] == s.ledger[k - 1] && es[k - 1].seq_ == k;
  }

  /** Over an append-only ledger and for any mirror bytes: the lockstep append reports no error exactly
      when the file ends in a whole line and reads as a log no longer than the ledger that is empty or
      has the ledger's hash at its head. Then it writes the missing entries, all or up to the cut;
      otherwise nothing changes. */
  lemma SyncReportsWhen(c: Codec, h: Hasher, genesis: Digest, s: State, cut: Option<nat>)
    requires s.up && Intact(s.ledger)
    ensures var read, t := ParseLines(c, s.mirror, [], false), Next(c, h, genesis, s, Sync(cut));
      var agrees :=
        && (s.mirror == [] || s.mirror[|s.mirror| - 1] == 10)
        && read.Some? && |read.value| <= |s.ledger|
        && (read.value == [] || HeadHash(read.value) == Some(s.ledger[|read.value| - 1].hash));
      && (SyncBytes(c, s).Some? <==> agrees)
      && (agrees ==>
            var missing := EncodeLog(c, s.ledger[|read.value|..]);
            && t.mirror == s.mirror + (if cut.Some? && cut.value < |missing| then missing[..cut.value] else missing)
            && t.ledger == s.ledger && t.up == cut.None?)
      && (!agrees ==> t == s)
  {
    hide ParseLines, RowsAfter, EncodeLog, FindSeq, OnceEach;
    ParsedIsIntact(c, s.mirror, [], false);
    if ParseLines(c, s.mirror, [], false).Some? {
      var es := ParseLines(c, s.mirror, [], false).value;
      if es != [] {
        HeadOnTable(s.ledger, es);
      }
      if |es| <= |s.ledger| {
        IntactQueries(s.ledger, |es|);
      }
    }
  }

  lemma HeadOnTable(ledger: seq<Entry>, es: seq<Entry>)
    requires Intact(ledger) && Intact(es) && es != []
    ensures Agrees(Tag(es[|es| - 1]), Tagged(ledger)) <==>
      |es| <= |ledger| && es[|es| - 1].hash == ledger[|es| - 1].hash
  {
    hide FindSeq;
    IntactFind(ledger, |es|);
  }

  /** What a running process commits is in the ledger, row by row behind what was there, and not yet in
      the mirror. */
  lemma {:induction false} CommitsAppend(c: Codec, h: Hasher, genesis: Digest, s: State, actions: seq<Action>)
    requires s.up && forall i :: 0 <= i < |actions| ==> actions[i].Commit?
    ensures var t := Run(c, h, genesis, s, actions);
      && t.up && t.mirror == s.mirror
      && s.ledger <= t.ledger && |t.ledger| == |s.ledger| + |actions|
      && forall i :: 0 <= i < |actions| ==> t.ledger[|s.ledger| + i].body == actions[i].body
    decreases |actions|
  {
    if actions == [] {
    } else {
      var next, rest := Next(c, h, genesis, s, actions[0]), actions[1..];
      assert next.ledger == s.ledger + [Linked(h, genesis, s.ledger, actions[0].body)] && next.mirror == s.mirror;
      CommitsAppend(c, h, genesis, next, rest);
      var t := Run(c, h, genesis, s, actions);
      assert t.ledger[|s.ledger|] == next.ledger[|s.ledger|];
      forall i | 1 <= i < |actions|
        ensures t.ledger[|s.ledger| + i].body == actions[i].body
      {
        assert rest[i - 1] == actions[i] && t.ledger[|next.ledger| + (i - 1)].body == rest[i - 1].body;
      }
    }
  }

  /** After a crash nothing changes until a boot. */
  lemma {:induction false} CrashStops(c: Codec, h: Hasher, genesis: Digest, s: State, actions: seq<Action>)
    requires actions != [] && actions[0].Crash? && forall i :: 0 <= i < |actions| ==> !actions[i].Boot?
    ensures Run(c, h, genesis, s, actions) == State(s.ledger, s.mirror, false)
    decreases |actions|
  {
    StaysDown(c, h, genesis, Next(c, h, genesis, s, actions[0]), actions[1..]);
  }

  lemma {:induction false} StaysDown(c: Codec, h: Hasher, genesis: Digest, s: State, actions: seq<Action>)
    requires !s.up && forall i :: 0 <= i < |actions| ==> !actions[i].Boot?
    ensures Run(c, h, genesis, s, actions) == s
    decreases |actions|
  {
    if actions == [] {
    } else {
      StaysDown(c, h, genesis, s, actions[1..]);
    }
  }

  /** On chain-verified logs without a collision: exactly when the mirror is a prefix of the ledger. */
  lemma SyncOnPrefix(c: Codec, h: Hasher, genesis: Digest, s: State)
    requires s.up && Chained(h, genesis, s.ledger)
    requires var read := ParseLines(c, s.mirror, [], false);
      read.Some? ==> Chained(h, genesis, read.value) && NoCollision(read.value, s.ledger)
    ensures var read := ParseLines(c, s.mirror, [], false);
      SyncBytes(c, s).Some? <==>
        (s.mirror == [] || s.mirror[|s.mirror| - 1] == 10) && read.Some? && read.value <= s.ledger
  {
    hide ParseLines, SyncBytes;
    ChainIsIntact(h, genesis, s.ledger);
    SyncReportsWhen(c, h, genesis, s, None);
    if ParseLines(c, s.mirror, [], false).Some? {
      var es := ParseLines(c, s.mirror, [], false).value;
      if 0 < |es| <= |s.ledger| {
        HeadDecidesPrefix(h, genesis, es, s.ledger);
        assert es <= s.ledger <==> es == s.ledger[..|es|];
      }
    }
  }

  lemma CommitHeld(c: Codec, h: Hasher, genesis: Digest, s: State, body: Bytes)
    requires Inv(c, h, genesis, s) && s.up
    ensures Inv(c, h, genesis, Next(c, h, genesis, s, Commit(body)))
  {
    var t := Next(c, h, genesis, s, Commit(body));
    ChainGrows(h, genesis, s.ledger, body);
    var k: nat, part: Bytes :| HoldsUpTo(c, s, k, part) && (s.up ==> part == []);
    assert t.ledger[..k] == s.ledger[..k];
    assert HoldsUpTo(c, t, k, part);
  }

  lemma StepKeeps(c: Codec, h: Hasher, genesis: Digest, s: State, a: Action)
    requires Faithful(c) && Inv(c, h, genesis, s)
    ensures Inv(c, h, genesis, Next(c, h, genesis, s, a))
  {
    var t := Next(c, h, genesis, s, a);
    var k: nat, part: Bytes :| HoldsUpTo(c, s, k, part) && (s.up ==> part == []);
    match a {
      case Commit(body) =>
        if s.up { CommitHeld(c, h, genesis, s, body); }
      case Crash =>
        assert HoldsUpTo(c, t, k, part);
      case Sync(cut) =>
        if s.up {
          SyncHeld(c, h, genesis, s, k);
          assert s.mirror == EncodeLog(c, s.ledger[..k]);
          AppendMissing(c, s, k, cut);
          KeepsShape(c, t, s);
        }
      case Boot(cut) =>
        if !s.up {
          BootPlanHeld(c, h, genesis, s, k, part);
          AppendMissing(c, s, k, cut);
          KeepsShape(c, t, s);
        }
    }
  }

  lemma KeepsShape(c: Codec, t: State, s: State)
    requires t.ledger == s.ledger
    ensures forall k: nat, part: Bytes :: HoldsUpTo(c, t.(up := s.up), k, part) ==> HoldsUpTo(c, t, k, part)
  {
  }

  lemma {:induction false} RunKeeps(c: Codec, h: Hasher, genesis: Digest, s: State, actions: seq<Action>)
    requires Faithful(c) && Inv(c, h, genesis, s)
    ensures Inv(c, h, genesis, Run(c, h, genesis, s, actions))
    decreases |actions|
  {
    if actions == [] {
    } else {
      StepKeeps(c, h, genesis, s, actions[0]);
      RunKeeps(c, h, genesis, Next(c, h, genesis, s, actions[0]), actions[1..]);
    }
  }

  const EMPTY := State([], [], false)

  /** Over every run: the mirror's bytes are a prefix of the encoded ledger, the entries a boot
      retains are a prefix of the ledger, and the next boot does not refuse and ends with mirror
      equal to ledger. While the process is up, the append after a commit reports no error. */
  lemma MirrorFollowsLedger(c: Codec, h: Hasher, genesis: Digest, actions: seq<Action>)
    requires Faithful(c)
    ensures var s := Run(c, h, genesis, EMPTY, actions);
      && Chained(h, genesis, s.ledger)
      && s.mirror <= EncodeLog(c, s.ledger)
      && Classify(c, s.mirror).decision != Deep
      && Classify(c, s.mirror).entries <= s.ledger
      && Next(c, h, genesis, s.(up := false), Boot(None)) == State(s.ledger, EncodeLog(c, s.ledger), true)
      && (s.up ==> Next(c, h, genesis, s, Sync(None)) == State(s.ledger, EncodeLog(c, s.ledger), true))
  {
    EmptyHolds(c, h, genesis);
    RunKeeps(c, h, genesis, EMPTY, actions);
    var s := Run(c, h, genesis, EMPTY, actions);
    var k: nat, part: Bytes :| HoldsUpTo(c, s, k, part) && (s.up ==> part == []);
    ClassifyHeld(c, h, genesis, s, k, part);
    HeldIsPrefix(c, s, k, part);
    FullBoot(c, h, genesis, s.(up := false), k, part);
    if s.up {
      FullSync(c, h, genesis, s, k);
    }
  }

  lemma EmptyHolds(c: Codec, h: Hasher, genesis: Digest)
    ensures Inv(c, h, genesis, EMPTY)
  {
    assert EMPTY.ledger[..0] == [];
    assert HoldsUpTo(c, EMPTY, 0, []);
  }

  lemma FullBoot(c: Codec, h: Hasher, genesis: Digest, s: State, k: nat, part: Bytes)
    requires Faithful(c) && Chained(h, genesis, s.ledger) && HoldsUpTo(c, s, k, part) && !s.up
    ensures Next(c, h, genesis, s, Boot(None)) == State(s.ledger, EncodeLog(c, s.ledger), true)
  {
    hide BootPlan, EncodeLog;
    BootPlanHeld(c, h, genesis, s, k, part);
    AppendMissing(c, s, k, None);
  }

  lemma FullSync(c: Codec, h: Hasher, genesis: Digest, s: State, k: nat)
    requires Faithful(c) && Chained(h, genesis, s.ledger) && HoldsUpTo(c, s, k, []) && s.up
    ensures Next(c, h, genesis, s, Sync(None)) == State(s.ledger, EncodeLog(c, s.ledger), true)
  {
    hide SyncBytes, EncodeLog;
    SyncHeld(c, h, genesis, s, k);
    AppendMissing(c, s, k, None);
    assert s.mirror == EncodeLog(c, s.ledger[..k]);
  }

  lemma HeldIsPrefix(c: Codec, s: State, k: nat, part: Bytes)
    requires HoldsUpTo(c, s, k, part)
    ensures s.mirror <= EncodeLog(c, s.ledger)
  {
    assert s.ledger == s.ledger[..k] + s.ledger[k..];
    EncodeLogConcat(c, s.ledger[..k], s.ledger[k..]);
    if part != [] {
      var rest := EncodeLog(c, s.ledger[k..]);
      assert rest == c.enc(s.ledger[k]) + [NEWLINE] + EncodeLog(c, s.ledger[k..][1..]);
      assert part == rest[..|part|];
    }
  }
}
