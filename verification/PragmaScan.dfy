/** The pragma-presence gate: runtime opens of the live database that lack the no-fold pragma.
    Test regions are found by counting braces; a stack of marked braces says what they are. */
module PragmaScan {
  import opened Text

  const PRAGMA := "disable_checkpoint_on_shutdown"

  predicate IsTestAttribute(line: string)
  {
    var st := TrimStart(line);
    StartsWith(st, "#[cfg(") && Contains(st, "test") && !Contains(st, "not(test)")
  }

  predicate IsOpen(line: string)
  {
    Contains(line, "Connection::open(") && !Contains(line, "open_in_memory")
  }

  predicate CarriesPragma(line: string) { Contains(line, PRAGMA) }

  /** An open and the pragma are looked for anywhere in the line. */
  lemma OpenMeans(line: string)
    ensures IsOpen(line) <==> Has(line, "Connection::open(") && !Has(line, "open_in_memory")
    ensures CarriesPragma(line) <==> Has(line, "disable_checkpoint_on_shutdown")
  {
    hide Contains, Has;
    ContainsMeans(line, "Connection::open(");
    ContainsMeans(line, "open_in_memory");
    ContainsMeans(line, PRAGMA);
  }

  /** A test attribute is, behind any white space, `#[cfg(` with "test" and without "not(test)". */
  lemma TestAttributeMeans(pad: string, attribute: string)
    requires forall i :: 0 <= i < |pad| ==> IsWhitespace(pad[i])
    requires attribute != "" ==> !IsWhitespace(attribute[0])
    ensures IsTestAttribute(pad + attribute) <==>
      && (exists rest: string :: attribute == "#[cfg(" + rest)
      && Has(attribute, "test") && !Has(attribute, "not(test)")
  {
    hide Contains, Has, StartsWith;
    if attribute == "" {
      AllTrimmed(pad);
      assert pad + attribute == pad;
    } else {
      TrimStartPadded(pad, attribute);
    }
    StartsMeans(attribute, "#[cfg(");
    ContainsMeans(attribute, "test");
    ContainsMeans(attribute, "not(test)");
  }

  /** What the scan asks of a single line. */
  datatype Rules = Rules(isTest: string -> bool, isOpen: string -> bool, carriesPragma: string -> bool)

  function ScanRules(): Rules { Rules(IsTestAttribute, IsOpen, CarriesPragma) }

  // ----- the counters -----

  /** `depth` counts braces; `tdepth` is the depth of the open test region's brace, or negative. */
  datatype Counters = Counters(depth: int, tdepth: int, pending: bool)

  const START := Counters(0, -1, false)

  function Step(c: Counters, ch: char): Counters
  {
    if ch == '{' then
      var d := c.depth + 1;
      if c.pending && c.tdepth < 0 then Counters(d, d, false) else c.(depth := d)
    else if ch == '}' then
      Counters(c.depth - 1, if c.tdepth == c.depth then -1 else c.tdepth, c.pending)
    else c
  }

  function Chars(c: Counters, s: string): Counters
    decreases |s|
  {
    if s == "" then c else Chars(Step(c, s[0]), s[1..])
  }

  function BeginLine(r: Rules, c: Counters, line: string): Counters
  {
    if r.isTest(line) then c.(pending := true) else c
  }

  /** The counters after the first `n` lines. */
  function AfterLines(r: Rules, lines: seq<string>, n: nat): Counters
    requires n <= |lines|
  {
    if n == 0 then START else Chars(BeginLine(r, AfterLines(r, lines, n - 1), lines[n - 1]), lines[n - 1])
  }

  /** Line `i` is skipped. */
  predicate Skipped(r: Rules, lines: seq<string>, i: nat)
    requires i < |lines|
  {
    AfterLines(r, lines, i).tdepth >= 0 || AfterLines(r, lines, i + 1).tdepth >= 0
  }

  // ----- the stack the counters stand for -----

  /** The open braces, innermost last, the one that opened a test region marked. `floor` is how
      many closing braces had no partner. */
  datatype Braces = Braces(floor: nat, open: seq<bool>, pending: bool)

  const NO_BRACES := Braces(0, [], false)

  predicate RegionOpen(b: Braces) { true in b.open }

  function Push(b: Braces, ch: char): Braces
  {
    if ch == '{' then
      if b.pending && !RegionOpen(b) then Braces(b.floor, b.open + [true], false)
      else b.(open := b.open + [false])
    else if ch == '}' then
      if b.open == [] then b.(floor := b.floor + 1) else b.(open := b.open[..|b.open| - 1])
    else b
  }

  function PushChars(b: Braces, s: string): Braces
    decreases |s|
  {
    if s == "" then b else PushChars(Push(b, s[0]), s[1..])
  }

  function BeginBraces(r: Rules, b: Braces, line: string): Braces
  {
    if r.isTest(line) then b.(pending := true) else b
  }

  function BracesAfter(r: Rules, lines: seq<string>, n: nat): Braces
    requires n <= |lines|
  {
    if n == 0 then NO_BRACES else PushChars(BeginBraces(r, BracesAfter(r, lines, n - 1), lines[n - 1]), lines[n - 1])
  }

  /** The counters describe the stack: at most one brace is marked, and `tdepth` is its level. */
  predicate Describes(c: Counters, b: Braces)
  {
    && c.pending == b.pending
    && c.depth == |b.open| - b.floor
    && (!RegionOpen(b) ==> c.tdepth < 0)
    && (RegionOpen(b) ==>
          && c.tdepth >= 0
          && 0 <= c.tdepth + b.floor - 1 < |b.open|
          && forall i :: 0 <= i < |b.open| ==> (b.open[i] <==> i == c.tdepth + b.floor - 1))
  }

  /** A test region opens below level zero, where its level cannot be told from "no region". */
  predicate MarkLost(c: Counters, ch: char)
  {
    ch == '{' && c.pending && c.tdepth < 0 && c.depth + 1 < 0
  }

  lemma StepDescribes(c: Counters, b: Braces, ch: char)
    requires Describes(c, b)
    ensures Describes(Step(c, ch), Push(b, ch)) <==> !MarkLost(c, ch)
  {
  }

  /** Describes at the start of the text and after every character of it. */
  predicate DescribesThroughout(c: Counters, b: Braces, s: string)
    decreases |s|
  {
    Describes(c, b) && (s == "" || DescribesThroughout(Step(c, s[0]), Push(b, s[0]), s[1..]))
  }

  predicate SomeMarkLost(c: Counters, s: string)
    decreases |s|
  {
    s != "" && (MarkLost(c, s[0]) || SomeMarkLost(Step(c, s[0]), s[1..]))
  }

  lemma {:induction false} CharsDescribe(c: Counters, b: Braces, s: string)
    requires Describes(c, b)
    ensures DescribesThroughout(c, b, s) <==> !SomeMarkLost(c, s)
    ensures !SomeMarkLost(c, s) ==> Describes(Chars(c, s), PushChars(b, s))
    decreases |s|
  {
    if s == "" {
    } else {
      StepDescribes(c, b, s[0]);
      if !MarkLost(c, s[0]) {
        CharsDescribe(Step(c, s[0]), Push(b, s[0]), s[1..]);
      }
    }
  }

  predicate MarkLostInLine(r: Rules, lines: seq<string>, i: nat)
    requires i < |lines|
  {
    SomeMarkLost(BeginLine(r, AfterLines(r, lines, i), lines[i]), lines[i])
  }

  /** No test region of the first `n` lines opens below level zero. */
  predicate NoMarkLost(r: Rules, lines: seq<string>, n: nat)
    requires n <= |lines|
  {
    forall i :: 0 <= i < n ==> !MarkLostInLine(r, lines, i)
  }

  lemma BeginDescribes(r: Rules, c: Counters, b: Braces, line: string)
    requires Describes(c, b)
    ensures Describes(BeginLine(r, c, line), BeginBraces(r, b, line))
  {
  }

  lemma {:induction false} LinesDescribe(r: Rules, lines: seq<string>, n: nat)
    requires n <= |lines| && NoMarkLost(r, lines, n)
    ensures Describes(AfterLines(r, lines, n), BracesAfter(r, lines, n))
  {
    if n == 0 {
    } else {
      LinesDescribe(r, lines, n - 1);
      var c, b, line := AfterLines(r, lines, n - 1), BracesAfter(r, lines, n - 1), lines[n - 1];
      assert !MarkLostInLine(r, lines, n - 1);
      BeginDescribes(r, c, b, line);
      CharsDescribe(BeginLine(r, c, line), BeginBraces(r, b, line), line);
    }
  }

  /** At every character of line `i` the counters describe the stack. */
  predicate FollowsInLine(r: Rules, lines: seq<string>, i: nat)
    requires i < |lines|
  {
    var c, b := AfterLines(r, lines, i), BracesAfter(r, lines, i);
    DescribesThroughout(BeginLine(r, c, lines[i]), BeginBraces(r, b, lines[i]), lines[i])
  }

  /** The counters follow the stack through a whole text exactly when no test region opens below
      level zero. */
  lemma {:induction false} CountersFollowStack(r: Rules, lines: seq<string>, n: nat)
    requires n <= |lines|
    ensures NoMarkLost(r, lines, n) <==> forall i :: 0 <= i < n ==> FollowsInLine(r, lines, i)
  {
    if n == 0 {
    } else {
      var i := n - 1;
      CountersFollowStack(r, lines, i);
      if NoMarkLost(r, lines, i) {
        LinesDescribe(r, lines, i);
        var c, b := AfterLines(r, lines, i), BracesAfter(r, lines, i);
        BeginDescribes(r, c, b, lines[i]);
        CharsDescribe(BeginLine(r, c, lines[i]), BeginBraces(r, b, lines[i]), lines[i]);
        assert FollowsInLine(r, lines, i) <==> !MarkLostInLine(r, lines, i);
      }
    }
  }

  /** A line is skipped exactly when a test region is open at its start or at its end. */
  lemma SkippedInRegions(r: Rules, lines: seq<string>, i: nat)
    requires i < |lines| && NoMarkLost(r, lines, i + 1)
    ensures Skipped(r, lines, i) <==> RegionOpen(BracesAfter(r, lines, i)) || RegionOpen(BracesAfter(r, lines, i + 1))
  {
    LinesDescribe(r, lines, i);
    LinesDescribe(r, lines, i + 1);
  }

  lemma {:induction false} NeverBelowZero(c: Counters, s: string)
    requires c.depth >= 0 && forall n :: 0 <= n <= |s| ==> Chars(c, s[..n]).depth >= 0
    ensures !SomeMarkLost(c, s)
    decreases |s|
  {
    if s == "" {
    } else {
      forall n | 0 <= n <= |s| - 1
        ensures Chars(Step(c, s[0]), s[1..][..n]).depth >= 0
      {
        assert s[..n + 1][1..] == s[1..][..n] && s[..n + 1][0] == s[0];
      }
      assert s[1..][..0] == "";
      NeverBelowZero(Step(c, s[0]), s[1..]);
    }
  }

  /** In line `i` the closing braces so far never outnumber the opening ones. */
  ghost predicate StaysAboveZero(r: Rules, lines: seq<string>, i: nat)
    requires i < |lines|
  {
    var c := BeginLine(r, AfterLines(r, lines, i), lines[i]);
    forall n :: 0 <= n <= |lines[i]| ==> Chars(c, lines[i][..n]).depth >= 0
  }

  lemma BalancedTextLosesNoMark(r: Rules, lines: seq<string>)
    requires forall i :: 0 <= i < |lines| ==> StaysAboveZero(r, lines, i)
    ensures NoMarkLost(r, lines, |lines|)
  {
    forall i | 0 <= i < |lines|
      ensures !MarkLostInLine(r, lines, i)
    {
      var c := BeginLine(r, AfterLines(r, lines, i), lines[i]);
      assert StaysAboveZero(r, lines, i);
      assert lines[i][..0] == "" && Chars(c, lines[i][..0]).depth >= 0;
      NeverBelowZero(c, lines[i]);
    }
  }

  // ----- the gate -----

  predicate HasPragma(r: Rules, lines: seq<string>, i: nat, window: nat)
    requires i < |lines|
  {
    exists k :: i <= k <= i + window && k < |lines| && r.carriesPragma(lines[k])
  }

  /** An open outside every test region with no pragma in its window. */
  predicate Unguarded(r: Rules, lines: seq<string>, i: nat, window: nat)
    requires i < |lines|
  {
    !Skipped(r, lines, i) && r.isOpen(lines[i]) && !HasPragma(r, lines, i, window)
  }

  ghost predicate Ascending(ns: seq<nat>) { forall i, j :: 0 <= i < j < |ns| ==> ns[i] < ns[j] }

  ghost predicate ListsUnguarded(r: Rules, missing: seq<nat>, lines: seq<string>, upTo: nat, window: nat)
    requires upTo <= |lines|
  {
    && Ascending(missing)
    && forall n: nat :: n in missing <==> 1 <= n <= upTo && Unguarded(r, lines, n - 1, window)
  }

  method ResidualOpensMissingPragma(src: string, window: nat) returns (missing: seq<nat>)
    ensures ListsUnguarded(ScanRules(), missing, Lines(src), |Lines(src)|, window)
  {
    missing := OpensMissingPragma(ScanRules(), Lines(src), window);
  }

  method OpensMissingPragma(r: Rules, lines: seq<string>, window: nat) returns (missing: seq<nat>)
    ensures ListsUnguarded(r, missing, lines, |lines|, window)
  {
    var inTest := MarkTestLines(r, lines);
    missing := [];
    for i := 0 to |lines|
      invariant forall k :: 0 <= k < |lines| ==> inTest[k] == Skipped(r, lines, k)
      invariant ListsUnguarded(r, missing, lines, i, window)
    {
      ghost var before := missing;
      var flagged := false;
      if !inTest[i] && r.isOpen(lines[i]) {
        var end := if i + window < |lines| - 1 then i + window else |lines| - 1;
        var has := AnyPragma(r, lines, i, end);
        assert has ==> HasPragma(r, lines, i, window);
        assert HasPragma(r, lines, i, window) ==> has by {
          if HasPragma(r, lines, i, window) {
            var k :| i <= k <= i + window && k < |lines| && r.carriesPragma(lines[k]);
            assert k <= end;
          }
        }
        flagged := !has;
      }
      assert flagged == Unguarded(r, lines, i, window);
      if flagged {
        missing := missing + [i + 1];
      }
      ListGrows(r, before, lines, i, window);
    }
  }

  lemma ListGrows(r: Rules, missing: seq<nat>, lines: seq<string>, i: nat, window: nat)
    requires i < |lines| && ListsUnguarded(r, missing, lines, i, window)
    ensures Unguarded(r, lines, i, window) ==> ListsUnguarded(r, missing + [i + 1], lines, i + 1, window)
    ensures !Unguarded(r, lines, i, window) ==> ListsUnguarded(r, missing, lines, i + 1, window)
  {
    hide Unguarded;
    forall k | 0 <= k < |missing|
      ensures missing[k] <= i
    {
      assert missing[k] in missing;
    }
  }

  method AnyPragma(r: Rules, lines: seq<string>, first: nat, last: nat) returns (has: bool)
    requires first <= last < |lines|
    ensures has <==> exists k :: first <= k <= last && r.carriesPragma(lines[k])
  {
    has := false;
    for i := first to last + 1
      invariant has <==> exists k :: first <= k < i && r.carriesPragma(lines[k])
    {
      if r.carriesPragma(lines[i]) {
        has := true;
      }
    }
  }

  method MarkTestLines(r: Rules, lines: seq<string>) returns (inTest: array<bool>)
    ensures fresh(inTest) && inTest.Length == |lines|
    ensures forall i :: 0 <= i < |lines| ==> inTest[i] == Skipped(r, lines, i)
  {
    inTest := new bool[|lines|];
    var depth, tdepth, pending := 0, -1, false;
    for i := 0 to |lines|
      invariant Counters(depth, tdepth, pending) == AfterLines(r, lines, i)
      invariant forall k :: 0 <= k < i ==> inTest[k] == Skipped(r, lines, k)
    {
      var l := lines[i];
      if r.isTest(l) {
        pending := true;
      }
      var wasIn := tdepth >= 0;
      for j := 0 to |l|
        invariant Chars(Counters(depth, tdepth, pending), l[j..]) == AfterLines(r, lines, i + 1)
      {
        assert l[j..][1..] == l[j + 1..];
        var ch := l[j];
        if ch == '{' {
          depth := depth + 1;
          if pending && tdepth < 0 {
            tdepth := depth;
            pending := false;
          }
        } else if ch == '}' {
          if tdepth == depth {
            tdepth := -1;
          }
          depth := depth - 1;
        }
      }
      inTest[i] := wasIn || tdepth >= 0;
    }
  }

  /** Widening the window only takes entries off the list. */
  lemma WiderWindowReportsLess(r: Rules, lines: seq<string>, w: nat, v: nat, narrow: seq<nat>, wide: seq<nat>)
    requires w <= v
    requires ListsUnguarded(r, narrow, lines, |lines|, w) && ListsUnguarded(r, wide, lines, |lines|, v)
    ensures forall n :: n in wide ==> n in narrow
  {
  }

  // ----- a region the counters lose -----

  predicate NoBrace(s: string) { '{' !in s && '}' !in s }

  lemma {:induction false} NothingCounted(c: Counters, b: Braces, s: string)
    requires NoBrace(s)
    ensures Chars(c, s) == c && PushChars(b, s) == b
    decreases |s|
  {
    if s == "" {
    } else {
      assert s[0] in s;
      NothingCounted(c, b, s[1..]);
    }
  }

  lemma OneBrace(c: Counters, b: Braces, s: string)
    requires |s| == 1
    ensures Chars(c, s) == Step(c, s[0]) && PushChars(b, s) == Push(b, s[0])
  {
    assert s[1..] == "";
  }

  lemma TwoBraces(c: Counters, b: Braces, s: string)
    requires |s| == 2
    ensures Chars(c, s) == Step(Step(c, s[0]), s[1]) && PushChars(b, s) == Push(Push(b, s[0]), s[1])
  {
    OneBrace(Step(c, s[0]), Push(b, s[0]), s[1..]);
  }

  lemma OneLine(r: Rules, lines: seq<string>, n: nat)
    requires n < |lines|
    ensures AfterLines(r, lines, n + 1) == Chars(BeginLine(r, AfterLines(r, lines, n), lines[n]), lines[n])
    ensures BracesAfter(r, lines, n + 1) == PushChars(BeginBraces(r, BracesAfter(r, lines, n), lines[n]), lines[n])
  {
  }

  /** Two stray closing braces, a test attribute, and the region it opens with an open in it. */
  predicate HasStrayBraces(r: Rules, lines: seq<string>)
  {
    && |lines| == 4
    && |lines[0]| == 2 && lines[0][0] == '}' && lines[0][1] == '}' && !r.isTest(lines[0])
    && NoBrace(lines[1]) && r.isTest(lines[1])
    && |lines[2]| == 1 && lines[2][0] == '{' && !r.isTest(lines[2])
    && NoBrace(lines[3]) && r.isOpen(lines[3]) && !r.isTest(lines[3]) && !r.carriesPragma(lines[3])
  }

  lemma StrayStates(r: Rules, lines: seq<string>)
    requires HasStrayBraces(r, lines)
    ensures AfterLines(r, lines, 3) == AfterLines(r, lines, 4) == Counters(-1, -1, false)
    ensures BracesAfter(r, lines, 3) == BracesAfter(r, lines, 4) == Braces(2, [true], false)
  {
    var c, b := Counters(-2, -1, true), Braces(2, [], true);
    assert AfterLines(r, lines, 0) == START && BracesAfter(r, lines, 0) == NO_BRACES;
    hide AfterLines, BracesAfter, Chars, PushChars, NoBrace;
    OneLine(r, lines, 0);
    TwoBraces(START, NO_BRACES, lines[0]);
    OneLine(r, lines, 1);
    NothingCounted(c, b, lines[1]);
    OneLine(r, lines, 2);
    OneBrace(c, b, lines[2]);
    assert Push(b, '{').open == [true];
    OneLine(r, lines, 3);
    NothingCounted(Counters(-1, -1, false), Braces(2, [true], false), lines[3]);
  }

  /** The open on line 4 stands inside a test region, and yet the scan reports it, whatever the window:
      the region's brace opens below level zero and its mark is lost. */
  lemma MarkLostBelowZero(src: string, window: nat, missing: seq<nat>)
    requires HasStrayBraces(ScanRules(), Lines(src))
    requires ListsUnguarded(ScanRules(), missing, Lines(src), |Lines(src)|, window)
    ensures 4 in missing
    ensures RegionOpen(BracesAfter(ScanRules(), Lines(src), 3)) && RegionOpen(BracesAfter(ScanRules(), Lines(src), 4))
  {
    hide AfterLines, BracesAfter, Lines, IsTestAttribute, IsOpen, CarriesPragma;
    var r, lines := ScanRules(), Lines(src);
    StrayStates(r, lines);
    assert Unguarded(r, lines, 3, window);
    var open := BracesAfter(r, lines, 3).open;
    assert open[0];
  }

  lemma StartAgrees(s: string, k: nat, needle: string, j: nat)
    requires k <= |s| && j < |needle|
    ensures StartsWith(s[k..], needle) ==> k + j < |s| && s[k + j] == needle[j]
  {
  }

  lemma TrimNothing(s: string)
    requires s != "" && !IsWhitespace(s[0])
    ensures TrimStart(s) == s
  {
  }

  lemma ContainsItself(s: string)
    ensures Contains(s, s)
  {
    assert s[0..] == s && s[..|s|] == s && StartsWith(s[0..], s);
  }

  const ATTRIBUTE := "#[cfg(test)]"
  const OPEN := "Connection::open("

  lemma AttributeIsTest(s: string)
    requires s == ATTRIBUTE
    ensures IsTestAttribute(s) && NoBrace(s)
  {
    hide Contains;
    TrimNothing(s);
    assert s[..6] == "#[cfg(";
    HasTest(s);
    HasNoNot(s);
  }

  lemma HasTest(s: string)
    requires |s| >= 10 && s[6] == 't' && s[7] == 'e' && s[8] == 's' && s[9] == 't'
    ensures Contains(s, "test")
  {
    assert s[6..][..4] == "test" && StartsWith(s[6..], "test");
  }

  lemma HasNoNot(s: string)
    requires |s| == 12 && s[0] != 'n' && s[1] != 'n' && s[2] != 'n' && s[3] != 'n'
    ensures !Contains(s, "not(test)")
  {
    forall k | 0 <= k <= |s|
      ensures !StartsWith(s[k..], "not(test)")
    {
      StartAgrees(s, k, "not(test)", 0);
      StartAgrees(s, k, "not(test)", 8);
    }
  }

  lemma NotInMemory(s: string)
    requires |s| == 17 && s[1] != 'p' && s[2] != 'p' && s[3] != 'p' && s[4] != 'p'
    ensures !Contains(s, "open_in_memory")
  {
    forall k | 0 <= k <= |s|
      ensures !StartsWith(s[k..], "open_in_memory")
    {
      StartAgrees(s, k, "open_in_memory", 1);
      StartAgrees(s, k, "open_in_memory", 13);
    }
  }

  lemma NotAnAttribute(s: string)
    requires s != "" && !IsWhitespace(s[0]) && s[0] != '#'
    ensures !IsTestAttribute(s)
  {
    TrimNothing(s);
  }

  lemma OpenIsOpen(s: string)
    requires s == OPEN
    ensures IsOpen(s) && !CarriesPragma(s) && !IsTestAttribute(s) && NoBrace(s)
  {
    hide Contains, IsTestAttribute;
    ContainsItself(s);
    NotInMemory(s);
    NotAnAttribute(s);
    TooShort(s, PRAGMA);
  }

  lemma TooShort(s: string, needle: string)
    requires |s| < |needle|
    ensures !Contains(s, needle)
  {
  }

  predicate IsLine(s: string) { '\n' !in s && StripCr(s) == s }

  function TextOf(ls: seq<string>): string
  {
    if ls == [] then "" else ls[0] + "\n" + TextOf(ls[1..])
  }

  lemma {:induction false} LinesOfText(ls: seq<string>)
    requires forall i :: 0 <= i < |ls| ==> IsLine(ls[i])
    ensures Lines(TextOf(ls)) == ls
  {
    if ls == [] {
      assert Lines("") == [];
    } else {
      hide Lines;
      LinesCons(ls[0], TextOf(ls[1..]));
      LinesOfText(ls[1..]);
      assert ls == [ls[0]] + ls[1..];
    }
  }

  lemma ArePlainLines(a: string, b: string, c: string, d: string)
    requires a == "}}" && b == ATTRIBUTE && c == "{" && d == OPEN
    ensures IsLine(a) && IsLine(b) && IsLine(c) && IsLine(d)
  {
  }

  /** Such a text. */
  lemma StrayText(lines: seq<string>)
    requires |lines| == 4 && lines[0] == "}}" && lines[1] == ATTRIBUTE && lines[2] == "{" && lines[3] == OPEN
    ensures HasStrayBraces(ScanRules(), Lines(TextOf(lines)))
  {
    hide IsTestAttribute, IsOpen, CarriesPragma, Lines, TextOf, NoBrace, IsLine;
    AttributeIsTest(lines[1]);
    OpenIsOpen(lines[3]);
    NotAnAttribute(lines[0]);
    NotAnAttribute(lines[2]);
    ArePlainLines(lines[0], lines[1], lines[2], lines[3]);
    LinesOfText(lines);
  }
}
