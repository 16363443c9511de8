/** The log redactor for Hungarian tax numbers and the response preview that uses it. */
module Redactor {
  import opened Wrappers
  import opened Utf8

  predicate IsDigit(b: Byte) { 0x30 <= b <= 0x39 }

  const DASH: Byte := 0x2D

  /** `[REDACTED-TAX]` */
  const TAX_MARK: Bytes := [0x5B, 0x52, 0x45, 0x44, 0x41, 0x43, 0x54, 0x45, 0x44, 0x2D, 0x54, 0x41, 0x58, 0x5D]
  /** `[REDACTED-ID]` */
  const ID_MARK: Bytes := [0x5B, 0x52, 0x45, 0x44, 0x41, 0x43, 0x54, 0x45, 0x44, 0x2D, 0x49, 0x44, 0x5D]
  /** The code point U+2026. */
  const ELLIPSIS: Bytes := [0xE2, 0x80, 0xA6]

  function DigitRun(s: Bytes): (n: nat)
    ensures n <= |s| && (forall k :: 0 <= k < n ==> IsDigit(s[k])) && (n < |s| ==> !IsDigit(s[n]))
  {
    if s == [] || !IsDigit(s[0]) then 0 else 1 + DigitRun(s[1..])
  }

  /** `-N-NN` not followed by a further digit. */
  predicate TailMatches(s: Bytes)
  {
    && |s| >= 5 && s[0] == DASH && IsDigit(s[1]) && s[2] == DASH && IsDigit(s[3]) && IsDigit(s[4])
    && (|s| == 5 || !IsDigit(s[5]))
  }

  function Redact(s: Bytes): Bytes
    decreases |s|
  {
    if s == [] then []
    else if !IsDigit(s[0]) then [s[0]] + Redact(s[1..])
    else
      var n := DigitRun(s);
      if n != 8 then s[..n] + Redact(s[n..])
      else if TailMatches(s[8..]) then TAX_MARK + Redact(s[13..])
      else ID_MARK + Redact(s[8..])
  }

  // ----- what the redactor promises -----

  /** A run of exactly eight digits, maximal on both sides, starts at `p`. */
  predicate RunAt(s: Bytes, p: nat)
  {
    && p + 8 <= |s|
    && (forall k :: p <= k < p + 8 ==> IsDigit(s[k]))
    && (p == 0 || !IsDigit(s[p - 1]))
    && (p + 8 == |s| || !IsDigit(s[p + 8]))
  }

  ghost predicate HasRun(s: Bytes) { exists p: nat :: RunAt(s, p) }

  predicate EndsInDigit(s: Bytes) { s != [] && IsDigit(s[|s| - 1]) }

  predicate StartsWithDigit(s: Bytes) { s != [] && IsDigit(s[0]) }

  lemma RunsInFirst(a: Bytes, b: Bytes, p: nat)
    requires !(EndsInDigit(a) && StartsWithDigit(b)) && p < |a|
    ensures RunAt(a + b, p) <==> RunAt(a, p)
  {
    var s := a + b;
    assert forall k :: 0 <= k < |a| ==> s[k] == a[k];
    assert b != [] ==> s[|a|] == b[0];
    assert s[|a| - 1] == a[|a| - 1];
  }

  lemma RunsInSecond(a: Bytes, b: Bytes, p: nat)
    requires !(EndsInDigit(a) && StartsWithDigit(b))
    ensures RunAt(a + b, |a| + p) <==> RunAt(b, p)
  {
    var s := a + b;
    assert forall k :: 0 <= k < |b| ==> s[|a| + k] == b[k];
    assert forall k :: |a| <= k < |s| ==> s[k] == b[k - |a|];
    assert a != [] ==> s[|a| - 1] == a[|a| - 1];
    if RunAt(b, p) {
      assert p == 0 ==> IsDigit(b[0]);
    }
    if RunAt(s, |a| + p) {
      assert IsDigit(s[|a| + p]);
    }
  }

  /** Cutting between two bytes that are not both digits neither makes nor breaks runs. */
  lemma RunsOfConcat(a: Bytes, b: Bytes, p: nat)
    requires !(EndsInDigit(a) && StartsWithDigit(b))
    ensures RunAt(a + b, p) <==> RunAt(a, p) || (p >= |a| && RunAt(b, p - |a|))
  {
    if p < |a| {
      RunsInFirst(a, b, p);
    } else {
      RunsInSecond(a, b, p - |a|);
    }
  }

  lemma NoRunInConcat(a: Bytes, b: Bytes)
    requires !(EndsInDigit(a) && StartsWithDigit(b))
    ensures HasRun(a + b) <==> HasRun(a) || HasRun(b)
  {
    if p: nat :| RunAt(a + b, p) {
      RunsOfConcat(a, b, p);
    }
    if p: nat :| RunAt(a, p) {
      RunsOfConcat(a, b, p);
    }
    if p: nat :| RunAt(b, p) {
      RunsOfConcat(a, b, p + |a|);
    }
  }

  lemma DigitsHaveRun(s: Bytes)
    requires forall k :: 0 <= k < |s| ==> IsDigit(s[k])
    ensures HasRun(s) <==> |s| == 8
  {
    if |s| == 8 {
      assert RunAt(s, 0);
    }
  }

  /** The redactor's first step on `s`: the bytes it reads and what it writes for them. */
  function FirstPiece(s: Bytes): (r: (nat, Bytes))
    requires s != []
    ensures 1 <= r.0 <= |s|
  {
    if !IsDigit(s[0]) then (1, [s[0]])
    else
      var n := DigitRun(s);
      if n != 8 then (n, s[..n])
      else if TailMatches(s[8..]) then (13, TAX_MARK)
      else (8, ID_MARK)
  }

  lemma MarksHaveNoDigit()
    ensures forall k :: 0 <= k < |TAX_MARK| ==> !IsDigit(TAX_MARK[k])
    ensures forall k :: 0 <= k < |ID_MARK| ==> !IsDigit(ID_MARK[k])
  {
  }

  lemma NoDigitNoRun(s: Bytes)
    requires s != [] && forall k :: 0 <= k < |s| ==> !IsDigit(s[k])
    ensures !HasRun(s) && !EndsInDigit(s) && !StartsWithDigit(s)
  {
    forall p: nat
      ensures !RunAt(s, p)
    {
      assert p < |s| ==> !IsDigit(s[p]);
    }
  }

  lemma {:induction false} FirstPieceOf(s: Bytes)
    requires s != []
    ensures var (n, piece) := FirstPiece(s);
      Redact(s) == piece + Redact(s[n..]) && !HasRun(piece) && !(EndsInDigit(piece) && StartsWithDigit(s[n..]))
  {
    var (n, piece) := FirstPiece(s);
    MarksHaveNoDigit();
    if !IsDigit(s[0]) || DigitRun(s) == 8 {
      NoDigitNoRun(piece);
    } else {
      DigitsHaveRun(piece);
    }
  }

  lemma {:induction false} StartKept(s: Bytes)
    ensures !StartsWithDigit(s) ==> !StartsWithDigit(Redact(s))
  {
  }

  /** The output has no maximal run of exactly eight digits. */
  lemma {:induction false} OutputHasNoRun(s: Bytes)
    ensures !HasRun(Redact(s))
    decreases |s|
  {
    if s == [] {
    } else {
      var (n, piece) := FirstPiece(s);
      FirstPieceOf(s);
      OutputHasNoRun(s[n..]);
      StartKept(s[n..]);
      NoRunInConcat(piece, Redact(s[n..]));
    }
  }

  /** The bytes the redactor copies in one step: a character that is no digit, or a run of any
      length but eight. */
  lemma {:induction false} Copied(s: Bytes, n: nat)
    requires s != [] && n == (if IsDigit(s[0]) then DigitRun(s) else 1)
    requires IsDigit(s[0]) ==> !RunAt(s, 0)
    ensures 1 <= n <= |s| && Redact(s) == s[..n] + Redact(s[n..])
    ensures !(EndsInDigit(s[..n]) && StartsWithDigit(s[n..]))
  {
    hide TailMatches, DigitRun;
    assert n < |s| ==> s[n..][0] == s[n];
    assert s[..1] == [s[0]];
  }

  lemma {:induction false} NoRunKept(s: Bytes)
    requires !HasRun(s)
    ensures Redact(s) == s
    decreases |s|
  {
    if s == [] {
    } else {
      var n := if IsDigit(s[0]) then DigitRun(s) else 1;
      Copied(s, n);
      assert s == s[..n] + s[n..];
      NoRunInConcat(s[..n], s[n..]);
      NoRunKept(s[n..]);
    }
  }

  /** Text is left alone exactly when it has no eight-digit run. */
  lemma IdentityWhenNoRun(s: Bytes)
    ensures Redact(s) == s <==> !HasRun(s)
  {
    OutputHasNoRun(s);
    if !HasRun(s) {
      NoRunKept(s);
    }
  }

  lemma Idempotent(s: Bytes)
    ensures Redact(Redact(s)) == Redact(s)
  {
    OutputHasNoRun(s);
    NoRunKept(Redact(s));
  }

  /** Where reading resumes after the run at `p`, and the marker written for it. */
  function MarkerAt(s: Bytes, p: nat): (r: (nat, Bytes))
    requires RunAt(s, p)
    ensures p + 8 <= r.0 <= |s|
  {
    if TailMatches(s[p + 8..]) then (p + 13, TAX_MARK) else (p + 8, ID_MARK)
  }

  lemma {:induction false} VerbatimBefore(a: Bytes, b: Bytes)
    requires !HasRun(a) && !EndsInDigit(a)
    ensures Redact(a + b) == a + Redact(b)
    decreases |a|
  {
    if a == [] {
      assert a + b == b && a + Redact(b) == Redact(b);
    } else {
      var n := if IsDigit(a[0]) then DigitRun(a) else 1;
      FirstStepIn(a, b, n);
      VerbatimBefore(a[n..], b);
      SplitPlus(a, n, Redact(b));
    }
  }

  lemma SplitPlus(a: Bytes, n: nat, c: Bytes)
    requires n <= |a|
    ensures a[..n] + (a[n..] + c) == a + c
  {
  }

  lemma FirstStepIn(a: Bytes, b: Bytes, n: nat)
    requires a != [] && !HasRun(a) && !EndsInDigit(a)
    requires n == (if IsDigit(a[0]) then DigitRun(a) else 1)
    ensures 1 <= n <= |a| && Redact(a + b) == a[..n] + Redact(a[n..] + b)
    ensures !HasRun(a[n..]) && !EndsInDigit(a[n..])
  {
    hide Redact, RunAt, DigitRun;
    assert !RunAt(a, 0);
    Copied(a, n);
    RunsInFirst0(a, b);
    DigitRunOfConcat(a, b);
    Copied(a + b, n);
    assert a == a[..n] + a[n..];
    NoRunInConcat(a[..n], a[n..]);
    assert (a + b)[n..] == a[n..] + b && (a + b)[..n] == a[..n];
  }

  lemma RunsInFirst0(a: Bytes, b: Bytes)
    requires a != [] && !HasRun(a) && !EndsInDigit(a)
    ensures !RunAt(a + b, 0)
  {
    RunsInFirst(a, b, 0);
  }

  lemma {:induction false} DigitRunOfConcat(a: Bytes, b: Bytes)
    requires a != [] && !EndsInDigit(a)
    ensures DigitRun(a + b) == DigitRun(a) < |a|
  {
    assert (a + b)[0] == a[0];
    if IsDigit(a[0]) {
      assert (a + b)[1..] == a[1..] + b;
      assert |a| > 1 && a[1..][|a| - 2] == a[|a| - 1];
      DigitRunOfConcat(a[1..], b);
    }
  }

  /** The first run becomes one marker, everything before it is copied, and redaction goes on
      right behind the run or its tail. With `IdentityWhenNoRun` this says what every text becomes. */
  lemma FirstRunReplaced(s: Bytes, p: nat)
    requires RunAt(s, p) && forall q :: 0 <= q < p ==> !RunAt(s, q)
    ensures var (next, marker) := MarkerAt(s, p);
      Redact(s) == s[..p] + marker + Redact(s[next..])
  {
    hide Redact, TailMatches;
    var a, b := s[..p], s[p..];
    assert s == a + b && (p > 0 ==> a[p - 1] == s[p - 1]);
    NoRunBefore(s, p);
    VerbatimBefore(a, b);
    RunReplaced(s, p);
    var (next, marker) := MarkerAt(s, p);
    assert a + (marker + Redact(s[next..])) == a + marker + Redact(s[next..]);
  }

  lemma NoRunBefore(s: Bytes, p: nat)
    requires p <= |s| && (p > 0 ==> !IsDigit(s[p - 1])) && forall q :: 0 <= q < p ==> !RunAt(s, q)
    ensures !HasRun(s[..p])
  {
    var a, b := s[..p], s[p..];
    assert s == a + b;
    forall q: nat
      ensures !RunAt(a, q)
    {
      hide RunAt;
      if q < p {
        RunsOfConcat(a, b, q);
        assert !RunAt(s, q);
      } else {
        Beyond(a, q);
      }
    }
  }

  lemma Beyond(a: Bytes, q: nat)
    requires q >= |a|
    ensures !RunAt(a, q)
  {
  }

  lemma {:induction false} RunReplaced(s: Bytes, p: nat)
    requires RunAt(s, p)
    ensures var (next, marker) := MarkerAt(s, p); Redact(s[p..]) == marker + Redact(s[next..])
  {
    var b := s[p..];
    RunAtStart(s, p);
    assert b[0] == s[p];
    assert b[8..] == s[p + 8..] && (|b| >= 13 ==> b[13..] == s[p + 13..]);
  }

  lemma RunAtStart(s: Bytes, p: nat)
    requires RunAt(s, p)
    ensures DigitRun(s[p..]) == 8
  {
  }

  /** No run is skipped: those behind the resume point are the runs of what is left. */
  lemma LaterRunsKept(s: Bytes, p: nat, q: nat)
    requires RunAt(s, p)
    ensures var next := MarkerAt(s, p).0;
      q > p ==> (RunAt(s, q) <==> q >= next && RunAt(s[next..], q - next))
  {
  }

  // ----- redacting parts -----

  /** The tail of a run in `a` reaches into `b`. */
  predicate StraddlesAt(a: Bytes, b: Bytes, q: nat)
  {
    q + 8 < |a| < q + 13 && RunAt(a + b, q) && TailMatches((a + b)[q + 8..])
  }

  ghost predicate Straddles(a: Bytes, b: Bytes) { exists q: nat :: StraddlesAt(a, b, q) }

  lemma SameTail(t: Bytes, b: Bytes)
    requires t != [] && !IsDigit(t[|t| - 1])
    ensures TailMatches(t + b) == TailMatches(t) || (|t| < 5 && TailMatches(t + b))
  {
    var s := t + b;
    assert s[|t| - 1] == t[|t| - 1];
    assert forall k :: 0 <= k < |t| ==> s[k] == t[k];
  }

  lemma SamePiece(a: Bytes, b: Bytes)
    requires a != [] && !IsDigit(a[|a| - 1]) && !StraddlesAt(a, b, 0)
    ensures FirstPiece(a + b) == FirstPiece(a)
    ensures EndsInDigit(a[..FirstPiece(a).0]) ==> !StartsWithDigit(a[FirstPiece(a).0..] + b)
  {
    DigitRunOfConcat(a, b);
    assert (a + b)[0] == a[0];
    var n := DigitRun(a);
    if IsDigit(a[0]) {
      assert (a + b)[..n] == a[..n];
      if n == 8 {
        EightDigitsFirst(a + b);
        assert (a + b)[8..] == a[8..] + b && a[8..][|a| - 9] == a[|a| - 1];
        SameTail(a[8..], b);
      }
    }
  }

  lemma EightDigitsFirst(s: Bytes)
    requires DigitRun(s) == 8
    ensures RunAt(s, 0)
  {
  }

  lemma StraddlesLater(a: Bytes, b: Bytes, n: nat)
    requires n <= |a| && !(EndsInDigit(a[..n]) && StartsWithDigit(a[n..] + b)) && Straddles(a[n..], b)
    ensures Straddles(a, b)
  {
    var q: nat :| StraddlesAt(a[n..], b, q);
    assert a[..n] + (a[n..] + b) == a + b;
    RunsInSecond(a[..n], a[n..] + b, q);
    assert (a + b)[n + q + 8..] == (a[n..] + b)[q + 8..];
    assert StraddlesAt(a, b, n + q);
  }

  lemma {:induction false} SameFirstStep(a: Bytes, b: Bytes) returns (n: nat, piece: Bytes)
    requires a != [] && !IsDigit(a[|a| - 1]) && !Straddles(a, b)
    ensures 1 <= n <= |a| && !Straddles(a[n..], b)
    ensures Redact(a) == piece + Redact(a[n..]) && Redact(a + b) == piece + Redact(a[n..] + b)
  {
    hide Redact, FirstPiece, HasRun, StraddlesAt, EndsInDigit, StartsWithDigit, IsDigit;
    n, piece := FirstPiece(a).0, FirstPiece(a).1;
    assert !StraddlesAt(a, b, 0);
    SamePiece(a, b);
    FirstPieceOf(a);
    FirstPieceOf(a + b);
    assert (a + b)[n..] == a[n..] + b;
    if Straddles(a[n..], b) {
      StraddlesLater(a, b, n);
    }
  }

  /** Redaction of two parts is independent when the first ends in no digit and no tail of a run in
      it reaches into the second. */
  lemma {:induction false} RedactConcat(a: Bytes, b: Bytes)
    requires (a != [] ==> !IsDigit(a[|a| - 1])) && !Straddles(a, b)
    ensures Redact(a + b) == Redact(a) + Redact(b)
    decreases |a|
  {
    if a == [] {
      assert a + b == b && [] + Redact(b) == Redact(b);
    } else {
      hide Redact, Straddles;
      var n, piece := SameFirstStep(a, b);
      var rest := a[n..];
      assert rest != [] ==> rest[|rest| - 1] == a[|a| - 1];
      RedactConcat(rest, b);
      Regroup(piece, Redact(rest), Redact(b));
    }
  }

  /** `a` before eight digits of which no tail of an earlier run can be part. */
  lemma NoStraddleIntoRun(a: Bytes, b: Bytes, q: nat)
    requires (a != [] ==> !IsDigit(a[|a| - 1])) && |b| >= 8 && forall k :: 0 <= k < 8 ==> IsDigit(b[k])
    ensures !StraddlesAt(a, b, q)
  {
    var s, n := a + b, |a|;
    if q + 8 < n < q + 13 && RunAt(s, q) {
      var t := s[q + 8..];
      assert forall k :: 0 <= k < |t| ==> t[k] == s[q + 8 + k];
      assert forall k :: 0 <= k < 8 ==> s[n + k] == b[k];
      assert s[n - 1] == a[n - 1];
    }
  }

  lemma {:induction false} EightDigitsNext(a: Bytes, d: Bytes, t: Bytes)
    requires (a != [] ==> !IsDigit(a[|a| - 1])) && |d| == 8 && (forall k :: 0 <= k < 8 ==> IsDigit(d[k]))
    requires t != [] ==> !IsDigit(t[0])
    ensures Redact(a + d + t) == Redact(a) + Redact(d + t)
    ensures Redact(d + t) == if TailMatches(t) then TAX_MARK + Redact(t[5..]) else ID_MARK + Redact(t)
  {
    hide Redact, TailMatches, StraddlesAt, DigitRun;
    var s := d + t;
    forall q: nat
      ensures !StraddlesAt(a, s, q)
    {
      NoStraddleIntoRun(a, s, q);
    }
    RedactConcat(a, s);
    assert a + d + t == a + s;
    assert s[0..] == s && s[8..] == t && (|t| >= 5 ==> s[13..] == t[5..]);
    TailLength(t);
    RunEnds(s, 0, 8);
    RedactAtDigit(s);
  }

  lemma TailLength(t: Bytes)
    ensures TailMatches(t) ==> |t| >= 5
  {
  }

  /** A full tax number anywhere in the text, eight digits and `-N-NN`, becomes its marker; what
      stands before and behind it is redacted on its own. */
  lemma {:induction false} TaxNumberRedacted(a: Bytes, d: Bytes, x: Byte, y: Byte, z: Byte, b: Bytes)
    requires a == [] || !(0x30 <= a[|a| - 1] <= 0x39)
    requires |d| == 8 && forall k :: 0 <= k < 8 ==> 0x30 <= d[k] <= 0x39
    requires 0x30 <= x <= 0x39 && 0x30 <= y <= 0x39 && 0x30 <= z <= 0x39
    requires b == [] || !(0x30 <= b[0] <= 0x39)
    ensures Redact(a + d + [0x2D, x, 0x2D, y, z] + b) == Redact(a) + TAX_MARK + Redact(b)
  {
    hide Redact;
    var t := [0x2D, x, 0x2D, y, z] + b;
    assert t[5..] == b && (b != [] ==> t[5] == b[0]);
    EightDigitsNext(a, d, t);
    assert a + d + [0x2D, x, 0x2D, y, z] + b == a + d + t;
  }

  /** Eight digits with anything else behind them become the marker of a bare number. */
  lemma {:induction false} BareNumberRedacted(a: Bytes, d: Bytes, b: Bytes)
    requires a == [] || !(0x30 <= a[|a| - 1] <= 0x39)
    requires |d| == 8 && forall k :: 0 <= k < 8 ==> 0x30 <= d[k] <= 0x39
    requires b == [] || !(0x30 <= b[0] <= 0x39)
    requires !(|b| >= 5 && b[0] == 0x2D && 0x30 <= b[1] <= 0x39 && b[2] == 0x2D && 0x30 <= b[3] <= 0x39
               && 0x30 <= b[4] <= 0x39 && (|b| == 5 || !(0x30 <= b[5] <= 0x39)))
    ensures Redact(a + d + b) == Redact(a) + ID_MARK + Redact(b)
  {
    hide Redact;
    EightDigitsNext(a, d, b);
  }

  /** What the markers and the ellipsis read as. */
  lemma {:induction false} MarksSpelled(tax: string, id: string)
    requires tax == "[REDACTED-TAX]" && id == "[REDACTED-ID]"
    ensures Decode(TAX_MARK) == Some(tax) && Decode(ID_MARK) == Some(id) && Decode(ELLIPSIS) == Some("\U{2026}")
  {
    hide Decode;
    EncodeAscii(tax);
    EncodeAscii(id);
    assert Encode(tax) == TAX_MARK && Encode(id) == ID_MARK;
    DecodeEncode(tax);
    DecodeEncode(id);
    assert Encode("\U{2026}") == ELLIPSIS;
    DecodeEncode("\U{2026}");
  }

  // ----- the scanner -----

  lemma {:induction false} CopyNonDigits(s: Bytes, n: nat)
    requires n <= |s| && forall k :: 0 <= k < n ==> !IsDigit(s[k])
    ensures Redact(s) == s[..n] + Redact(s[n..])
    decreases n
  {
    if n == 0 {
      assert s[0..] == s && s[..0] == [] && [] + Redact(s) == Redact(s);
    } else {
      hide TailMatches, DigitRun;
      CopyNonDigits(s[1..], n - 1);
      assert Redact(s) == [s[0]] + Redact(s[1..]);
      assert s[1..][n - 1..] == s[n..];
      assert s[..n] == [s[0]] + s[1..][..n - 1];
    }
  }

  lemma RunEnds(s: Bytes, i: nat, j: nat)
    requires i < j <= |s| && (forall k :: i <= k < j ==> IsDigit(s[k])) && (j < |s| ==> !IsDigit(s[j]))
    ensures DigitRun(s[i..]) == j - i
  {
  }

  lemma {:induction false} AsciiValid(b: Bytes)
    requires forall k :: 0 <= k < |b| ==> b[k] < 0x80
    ensures Valid(b)
  {
    if b == [] {
    } else {
      AsciiValid(b[1..]);
    }
  }

  lemma MarksAreText()
    ensures Valid(TAX_MARK) && Valid(ID_MARK)
  {
    AsciiValid(TAX_MARK);
    AsciiValid(ID_MARK);
  }

  /** The cursor is between characters and not inside a run of digits. */
  ghost predicate CursorOk(s: Bytes, i: nat)
  {
    i <= |s| && IsBoundary(s, i) && (0 < i < |s| ==> !(IsDigit(s[i - 1]) && IsDigit(s[i])))
  }

  method RedactHuTaxIds(s: Bytes) returns (out: Bytes)
    requires Valid(s)
    ensures out == Redact(s) && Valid(out)
  {
    out := [];
    var i := 0;
    assert s[0..] == s;
    while i < |s|
      invariant CursorOk(s, i)
      invariant out + Redact(s[i..]) == Redact(s)
      invariant Valid(out)
    {
      var piece, next;
      if IsDigit(s[i]) {
        piece, next := DigitPiece(s, i);
      } else {
        piece, next := TextPiece(s, i);
      }
      ValidConcat(out, piece);
      Regroup(out, piece, Redact(s[next..]));
      out := out + piece;
      i := next;
    }
    assert s[|s|..] == [];
  }

  lemma Regroup(a: Bytes, b: Bytes, c: Bytes)
    ensures a + (b + c) == (a + b) + c
  {
  }

  lemma {:induction false} RedactAtDigit(s: Bytes)
    requires s != [] && IsDigit(s[0])
    ensures var n := DigitRun(s);
      Redact(s) ==
        if n != 8 then s[..n] + Redact(s[n..])
        else if TailMatches(s[8..]) then TAX_MARK + Redact(s[13..])
        else ID_MARK + Redact(s[8..])
  {
  }

  lemma AfterTail(s: Bytes, j: nat)
    requires Valid(s) && j <= |s| && TailMatches(s[j..])
    ensures j + 5 <= |s| && CursorOk(s, j + 5)
  {
    hide Valid;
    assert s[j..][4] == s[j + 4] && (j + 5 < |s| ==> s[j..][5] == s[j + 5]);
    AsciiBoundary(s, j + 4);
  }

  /** The scan at a digit: the whole run, or the marker for it, and the cursor behind it. The check
      for a digit right before the run never fires. */
  method DigitPiece(s: Bytes, i: nat) returns (piece: Bytes, next: nat)
    requires Valid(s) && i < |s| && CursorOk(s, i) && IsDigit(s[i])
    ensures i < next && CursorOk(s, next)
    ensures Redact(s[i..]) == piece + Redact(s[next..]) && Valid(piece)
  {
    hide Redact, DigitRun, Valid;
    MarksAreText();
    var j := i;
    while j < |s| && IsDigit(s[j])
      invariant i <= j <= |s| && forall k :: i <= k < j ==> IsDigit(s[k])
    {
      j := j + 1;
    }
    RunEnds(s, i, j);
    AsciiBoundary(s, j - 1);
    ghost var rest := s[i..];
    RedactAtDigit(rest);
    assert rest[j - i..] == s[j..] && rest[..j - i] == s[i..j];
    var precedingIsDigit := i > 0 && IsDigit(s[i - 1]);
    assert !precedingIsDigit;
    if j - i == 8 && !precedingIsDigit {
      if j + 5 <= |s| && TailMatches(s[j..]) {
        AfterTail(s, j);
        assert rest[13..] == s[j + 5..];
        return TAX_MARK, j + 5;
      }
      return ID_MARK, j;
    }
    ValidSlice(s, i, j);
    return s[i..j], j;
  }

  /** The scan anywhere else: one whole character. */
  method TextPiece(s: Bytes, i: nat) returns (piece: Bytes, next: nat)
    requires Valid(s) && i < |s| && CursorOk(s, i) && !IsDigit(s[i])
    ensures i < next && CursorOk(s, next)
    ensures Redact(s[i..]) == piece + Redact(s[next..]) && Valid(piece)
  {
    hide Redact, Valid;
    next := i + 1;
    while next < |s| && !IsBoundary(s, next)
      invariant i < next <= |s|
      invariant forall k :: i <= k < next ==> !IsDigit(s[k])
    {
      next := next + 1;
    }
    piece := s[i..next];
    ValidSlice(s, i, next);
    ghost var rest := s[i..];
    assert forall k :: 0 <= k < next - i ==> rest[k] == s[i + k];
    CopyNonDigits(rest, next - i);
    assert rest[next - i..] == s[next..] && rest[..next - i] == piece;
  }
}
