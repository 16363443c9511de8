/** The redacted preview of a failing response: cut first, then redact. */
module Preview {
  import opened Utf8
  import opened Redactor

  /** The last code-point boundary at or before `k`. */
  function CutBefore(b: Bytes, k: nat): (idx: nat)
    requires k <= |b|
    ensures idx <= k && IsBoundary(b, idx)
    ensures forall j :: idx < j <= k ==> !IsBoundary(b, j)
  {
    if IsBoundary(b, k) then k else CutBefore(b, k - 1)
  }

  /** Well-formed text has a boundary among any four neighbouring positions. */
  lemma {:induction false} BoundaryNearby(b: Bytes, k: nat)
    requires Valid(b) && k <= |b|
    ensures k - CutBefore(b, k) <= 3
    decreases |b|
  {
    if b == [] {
    } else {
      var (c, n) := DecodeFirst(b).value;
      EncodeOfDecodeFirst(b);
      EncodeCharShape(c);
      if n <= k {
        BoundaryNearby(b[n..], k - n);
        var j := n + CutBefore(b[n..], k - n);
        if j == n && n < |b| {
          FirstIsBoundary(b[n..]);
        }
        assert IsBoundary(b, j);
      } else {
        assert n <= 4 && IsBoundary(b, 0);
      }
    }
  }

  /** The text that gets redacted: the whole response, or its head and an ellipsis. */
  function Truncated(text: Bytes, maxBytes: nat): Bytes
  {
    if |text| <= maxBytes then text else text[..CutBefore(text, maxBytes)] + ELLIPSIS
  }

  lemma EllipsisIsText()
    ensures Valid(ELLIPSIS)
    ensures forall k :: 0 <= k < 3 ==> !IsDigit(ELLIPSIS[k]) && ELLIPSIS[k] != DASH
  {
  }

  /** For any response bytes the preview is well-formed, keeps at most `maxBytes` bytes of the
      response as text, loses at most three below that, and has no maximal eight-digit run. */
  method SanitiseResponsePreview(response: Bytes, maxBytes: nat) returns (out: Bytes)
    ensures out == Redact(Truncated(Lossy(response), maxBytes)) && Valid(out) && !HasRun(out)
    ensures |Lossy(response)| <= maxBytes ==> out == Redact(Lossy(response))
    ensures |Lossy(response)| > maxBytes ==>
      var idx := CutBefore(Lossy(response), maxBytes);
      maxBytes - 3 <= idx <= maxBytes && out == Redact(Lossy(response)[..idx] + [0xE2, 0x80, 0xA6])
    ensures Valid(response) ==> out == Redact(Truncated(response, maxBytes))
  {
    hide Lossy, Valid, Redact;
    var text := Lossy(response);
    LossyRepairs(response);
    var truncated := text;
    if |text| > maxBytes {
      var idx: nat := maxBytes;
      while idx > 0 && !IsBoundary(text, idx)
        invariant idx <= maxBytes && CutBefore(text, idx) == CutBefore(text, maxBytes)
      {
        idx := idx - 1;
      }
      BoundaryNearby(text, maxBytes);
      CutValid(text, idx);
      EllipsisIsText();
      ValidConcat(text[..idx], ELLIPSIS);
      truncated := text[..idx] + ELLIPSIS;
    }
    OutputHasNoRun(truncated);
    out := RedactHuTaxIds(truncated);
  }

  // ----- what the cut does to runs -----

  /** After the cut a run is seen at `p` exactly when its eight digits are kept whole and the digit
      that would make it longer, if any, is not kept. */
  lemma RunsAfterCut(text: Bytes, maxBytes: nat, p: nat)
    requires Valid(text) && |text| > maxBytes
    ensures var idx := CutBefore(text, maxBytes);
      RunAt(Truncated(text, maxBytes), p) <==>
        && p + 8 <= idx
        && (forall k :: p <= k < p + 8 ==> IsDigit(text[k]))
        && (p == 0 || !IsDigit(text[p - 1]))
        && (p + 8 == idx || !IsDigit(text[p + 8]))
  {
    var idx := CutBefore(text, maxBytes);
    var head := text[..idx];
    EllipsisIsText();
    RunsOfConcat(head, ELLIPSIS, p);
    NoDigitNoRun(ELLIPSIS);
    assert forall k :: 0 <= k < idx ==> head[k] == text[k];
  }

  lemma {:induction false} ShortRunCopied(d: Bytes)
    requires |d| < 8 && forall k :: 0 <= k < |d| ==> IsDigit(d[k])
    ensures Redact(d + ELLIPSIS) == d + ELLIPSIS
  {
    var s := d + ELLIPSIS;
    EllipsisIsText();
    NoDigitNoRun(ELLIPSIS);
    DigitsHaveRun(d);
    NoRunInConcat(d, ELLIPSIS);
    NoRunKept(s);
  }

  /** The last two kept digits close the `-N-NN` of a run eleven bytes before the cut one. */
  predicate Swallowed(text: Bytes, p: nat, idx: nat)
    requires idx <= |text| && p < |text|
  {
    && idx == p + 2 && p >= 11 && RunAt(text, p - 11)
    && text[p - 3] == DASH && IsDigit(text[p - 2]) && text[p - 1] == DASH
  }

  lemma StraddleSwallows(a: Bytes, d: Bytes, q: nat)
    requires (a != [] ==> !IsDigit(a[|a| - 1])) && d != [] && (forall k :: 0 <= k < |d| ==> IsDigit(d[k]))
    requires StraddlesAt(a, d + ELLIPSIS, q)
    ensures |a| == q + 11 && |d| == 2 && a[q + 8] == DASH && IsDigit(a[q + 9]) && a[q + 10] == DASH
    ensures RunAt(a + (d + ELLIPSIS), q)
  {
    var s, n := a + (d + ELLIPSIS), |a|;
    EllipsisIsText();
    assert forall k :: 0 <= k < |d| ==> s[n + k] == d[k];
    assert forall k :: 0 <= k < 3 ==> s[n + |d| + k] == ELLIPSIS[k];
    assert s[n - 1] == a[n - 1];
    var t := s[q + 8..];
    assert forall k :: 0 <= k < |t| ==> t[k] == s[q + 8 + k];
    assert !IsDigit(s[n - 1]) && IsDigit(s[n]) && s[n + 1] != DASH;
    assert n == q + 9 || n == q + 11;
  }

  lemma StraddleIsSwallowed(text: Bytes, p: nat, idx: nat, q: nat)
    requires RunAt(text, p) && p < idx < p + 8 && StraddlesAt(text[..p], text[p..idx] + ELLIPSIS, q)
    ensures Swallowed(text, p, idx)
  {
    var a, d := text[..p], text[p..idx];
    assert forall k :: 0 <= k < |d| ==> d[k] == text[p + k];
    StraddleSwallows(a, d, q);
    var s := a + (d + ELLIPSIS);
    assert forall k :: 0 <= k < idx ==> s[k] == text[k];
  }

  predicate EndsWith(s: Bytes, e: Bytes) { |e| <= |s| && s[|s| - |e|..] == e }

  /** A tax number the length limit cuts through is not redacted: the digits before the cut end the
      preview, unless they close the tail of a run before them and are redacted with that. */
  lemma CutRunSurvives(text: Bytes, maxBytes: nat, p: nat)
    requires Valid(text) && |text| > maxBytes && RunAt(text, p)
    requires p < CutBefore(text, maxBytes) < p + 8
    ensures var idx, out := CutBefore(text, maxBytes), Redact(Truncated(text, maxBytes));
      && (!Swallowed(text, p, idx) ==> out == Redact(text[..p]) + (text[p..idx] + ELLIPSIS))
      && (Swallowed(text, p, idx) ==> out == Redact(text[..p - 11]) + (TAX_MARK + ELLIPSIS))
      && (EndsWith(out, text[p..idx] + ELLIPSIS) <==> !Swallowed(text, p, idx))
  {
    var idx := CutBefore(text, maxBytes);
    if Swallowed(text, p, idx) {
      CutRunSwallowed(text, maxBytes, p);
      MarkEnd(Redact(text[..p - 11]), text[p..idx]);
    } else {
      CutRunCopied(text, maxBytes, p);
    }
  }

  lemma MarkEnd(a: Bytes, d: Bytes)
    requires |d| == 2 && IsDigit(d[1])
    ensures !EndsWith(a + (TAX_MARK + ELLIPSIS), d + ELLIPSIS)
  {
    var s, e := a + (TAX_MARK + ELLIPSIS), d + ELLIPSIS;
    assert s[|s| - 4] == TAX_MARK[13] && e[1] == d[1];
    assert s[|s| - 5..][1] == s[|s| - 4];
  }

  lemma CutRunCopied(text: Bytes, maxBytes: nat, p: nat)
    requires Valid(text) && |text| > maxBytes && RunAt(text, p)
    requires p < CutBefore(text, maxBytes) < p + 8 && !Swallowed(text, p, CutBefore(text, maxBytes))
    ensures var idx, out := CutBefore(text, maxBytes), Redact(Truncated(text, maxBytes));
      out == Redact(text[..p]) + (text[p..idx] + ELLIPSIS) && EndsWith(out, text[p..idx] + ELLIPSIS)
  {
    hide Redact, TailMatches;
    var idx := CutBefore(text, maxBytes);
    var a, d := text[..p], text[p..idx];
    assert forall k :: 0 <= k < |d| ==> d[k] == text[p + k];
    assert text[..idx] + ELLIPSIS == a + (d + ELLIPSIS);
    ShortRunCopied(d);
    if Straddles(a, d + ELLIPSIS) {
      var q: nat :| StraddlesAt(a, d + ELLIPSIS, q);
      StraddleIsSwallowed(text, p, idx, q);
    }
    RedactConcat(a, d + ELLIPSIS);
  }

  lemma CutRunSwallowed(text: Bytes, maxBytes: nat, p: nat)
    requires Valid(text) && |text| > maxBytes && RunAt(text, p)
    requires p < CutBefore(text, maxBytes) < p + 8 && Swallowed(text, p, CutBefore(text, maxBytes))
    ensures Redact(Truncated(text, maxBytes)) == Redact(text[..p - 11]) + (TAX_MARK + ELLIPSIS)
  {
    hide Redact;
    var idx, q := CutBefore(text, maxBytes), p - 11;
    var s := text[..idx] + ELLIPSIS;
    EllipsisIsText();
    assert forall k :: 0 <= k < idx ==> s[k] == text[k];
    assert RunAt(s, q);
    var a, b := text[..q], s[q..];
    assert s == a + b && forall k :: 0 <= k < 8 ==> b[k] == text[q + k];
    forall r: nat
      ensures !StraddlesAt(a, b, r)
    {
      NoStraddleIntoRun(a, b, r);
    }
    RedactConcat(a, b);
    var t := s[q + 8..];
    assert t[0] == text[p - 3] && t[1] == text[p - 2] && t[2] == text[p - 1] && t[3] == text[p] && t[4] == text[p + 1];
    assert t[5] == ELLIPSIS[0];
    RunReplaced(s, q);
    assert s[q + 13..] == ELLIPSIS;
    ShortRunCopied([]);
    assert [] + ELLIPSIS == ELLIPSIS;
  }
}
