/** Decimal numerals: `format!("{n}")` and `str::parse` for unsigned integers. */
module Numerals {
  import opened Wrappers

  predicate IsDigit(c: char) { '0' <= c <= '9' }

  predicate AllDigits(s: string) { forall i :: 0 <= i < |s| ==> IsDigit(s[i]) }

  function Digit(d: nat): (c: char)
    requires d < 10
    ensures IsDigit(c)
  {
    ('0' as int + d) as char
  }

  function Print(n: nat): (s: string)
    ensures s != "" && AllDigits(s)
    ensures |s| > 1 ==> s[0] != '0'
  {
    if n < 10 then [Digit(n)] else Print(n / 10) + [Digit(n % 10)]
  }

  function Value(s: string): nat
    requires AllDigits(s)
  {
    if s == "" then 0 else Value(s[..|s| - 1]) * 10 + (s[|s| - 1] as int - '0' as int)
  }

  lemma ValueOfTwo(s: string)
    requires |s| == 2 && AllDigits(s)
    ensures Value(s) == (s[0] as int - '0' as int) * 10 + (s[1] as int - '0' as int)
  {
    var hi := s[..1];
    assert hi == s[..|s| - 1] && hi[..0] == "" && hi[|hi| - 1] == s[0];
    assert Value(hi) == s[0] as int - '0' as int;
  }

  lemma {:induction false} ValueOfPrint(n: nat)
    ensures Value(Print(n)) == n
  {
    if n < 10 {
    } else {
      ValueOfPrint(n / 10);
      var s := Print(n);
      assert s[..|s| - 1] == Print(n / 10);
    }
  }

  /** A numeral without a superfluous leading zero is the one `Print` gives. */
  lemma {:induction false} PrintOfValue(s: string)
    requires s != "" && AllDigits(s) && (|s| > 1 ==> s[0] != '0')
    ensures Print(Value(s)) == s
    ensures s[0] != '0' ==> Value(s) > 0
  {
    var d := s[|s| - 1] as int - '0' as int;
    assert Digit(d) == s[|s| - 1];
    if |s| == 1 {
      assert Value(s[..0]) == 0 && s == [s[0]];
    } else {
      var hi := s[..|s| - 1];
      PrintOfValue(hi);
      assert Value(s) == Value(hi) * 10 + d;
      assert Value(s) / 10 == Value(hi) && Value(s) % 10 == d;
      assert s == hi + [Digit(d)];
    }
  }

  /** Rust's `str::parse` for an unsigned type whose largest value is `max`. */
  function Parse(s: string, max: nat): (r: Option<nat>)
    ensures r.Some? ==> r.value <= max
  {
    var digits := if s != "" && s[0] == '+' then s[1..] else s;
    if digits != "" && AllDigits(digits) && Value(digits) <= max then Some(Value(digits)) else None
  }

  /** Digits behind at most one plus sign, with a value that fits, and nothing else. */
  lemma ParseMeans(s: string, max: nat, n: nat)
    ensures Parse(s, max) == Some(n) <==>
      exists digits :: (s == digits || s == "+" + digits) && digits != "" && AllDigits(digits)
                       && Value(digits) == n && n <= max
  {
    hide Value;
    if digits :| (s == digits || s == "+" + digits) && digits != "" && AllDigits(digits)
                 && Value(digits) == n && n <= max {
      assert IsDigit(digits[0]);
      assert s == "+" + digits ==> s[1..] == digits;
    }
    if Parse(s, max) == Some(n) {
      var digits := if s != "" && s[0] == '+' then s[1..] else s;
      assert s == digits || s == "+" + digits;
    }
  }

  /** The value of a hexadecimal digit of either case. */
  function HexValue(c: char): (r: Option<nat>)
    ensures r.Some? ==> r.value < 16
  {
    if '0' <= c <= '9' then Some(c as int - '0' as int)
    else if 'a' <= c <= 'f' then Some(c as int - 'a' as int + 10)
    else if 'A' <= c <= 'F' then Some(c as int - 'A' as int + 10)
    else None
  }

  lemma HexValueMeans(c: char, n: nat)
    ensures HexValue(c) == Some(n) <==> n < 16 && (c == "0123456789abcdef"[n] || c == "0123456789ABCDEF"[n])
  {
  }

  lemma ParsePrint(n: nat, max: nat)
    ensures Parse(Print(n), max) == if n <= max then Some(n) else None
  {
    ValueOfPrint(n);
    assert IsDigit(Print(n)[0]);
  }
}
