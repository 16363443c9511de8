/** UTF-8 as RFC 3629 (sections 3 and 4) defines it. A Rust `str` is modelled as a Dafny
    `string` (both are sequences of Unicode scalar values); `as_bytes` is `Encode`. */
module Utf8 {
  import opened Wrappers

  type Byte = b: int | 0 <= b < 256

  type Bytes = seq<Byte>

  // ----- one code point -----

  function EncodeChar(c: char): (bs: Bytes)
    ensures 1 <= |bs| <= 4
  {
    var n := c as int;
    if n < 0x80 then [n]
    else if n < 0x800 then [0xC0 + n / 64, 0x80 + n % 64]
    else if n < 0x1_0000 then [0xE0 + n / 4096, 0x80 + n / 64 % 64, 0x80 + n % 64]
    else [0xF0 + n / 26_2144, 0x80 + n / 4096 % 64, 0x80 + n / 64 % 64, 0x80 + n % 64]
  }

  predicate IsContinuation(b: Byte) { 0x80 <= b < 0xC0 }

  /** The payload bits of one byte, its marker bits taken off. */
  function Payload(b: Byte, marker: int): int { b - marker }

  /** The code point at the head of `b` and its width, when `b` starts with a well-formed one. */
  function DecodeFirst(b: Bytes): (r: Option<(char, nat)>)
    requires b != []
    ensures r.Some? ==> 1 <= r.value.1 <= |b|
  {
    var b0 := b[0];
    if b0 < 0x80 then Some((b0 as char, 1))
    else if 0xC2 <= b0 < 0xE0 && |b| >= 2 && IsContinuation(b[1]) then
      Some(((Payload(b0, 0xC0) * 64 + Payload(b[1], 0x80)) as char, 2))
    else if 0xE0 <= b0 < 0xF0 && |b| >= 3 && IsContinuation(b[1]) && IsContinuation(b[2]) then
      var n := Payload(b0, 0xE0) * 4096 + Payload(b[1], 0x80) * 64 + Payload(b[2], 0x80);
      if 0x800 <= n < 0xD800 || 0xE000 <= n then Some((n as char, 3)) else None
    else if 0xF0 <= b0 < 0xF5 && |b| >= 4 && IsContinuation(b[1]) && IsContinuation(b[2]) && IsContinuation(b[3]) then
      var n := Payload(b0, 0xF0) * 26_2144 + Payload(b[1], 0x80) * 4096
               + Payload(b[2], 0x80) * 64 + Payload(b[3], 0x80);
      if 0x1_0000 <= n < 0x11_0000 then Some((n as char, 4)) else None
    else None
  }

  lemma EncodeCharShape(c: char)
    ensures !IsContinuation(EncodeChar(c)[0])
    ensures forall i :: 1 <= i < |EncodeChar(c)| ==> IsContinuation(EncodeChar(c)[i])
    ensures EncodeChar(c)[0] < 0x80 ==> EncodeChar(c) == [c as int]
    ensures c as int < 0x80 ==> EncodeChar(c) == [c as int]
  {
  }

  lemma DecodeFirstOfEncode(c: char, rest: Bytes)
    ensures DecodeFirst(EncodeChar(c) + rest) == Some((c, |EncodeChar(c)|))
  {
    ThreeDigits(c as int);
    FourDigits(c as int);
  }

  lemma ThreeDigits(n: int)
    ensures n / 4096 * 4096 + n / 64 % 64 * 64 + n % 64 == n
  {
  }

  lemma FourDigits(n: int)
    ensures n / 26_2144 * 26_2144 + n / 4096 % 64 * 4096 + n / 64 % 64 * 64 + n % 64 == n
  {
    var q := n / 64;
    assert n == q * 64 + n % 64;
    assert n / 4096 == q / 64 && n / 26_2144 == q / 4096;
    ThreeDigits(q);
  }

  lemma EncodeOfDecodeFirst(b: Bytes)
    requires b != [] && DecodeFirst(b).Some?
    ensures var (c, n) := DecodeFirst(b).value; b[..n] == EncodeChar(c)
  {
    var (c, n) := DecodeFirst(b).value;
    if n == 2 {
      HighLow(Payload(b[0], 0xC0), Payload(b[1], 0x80));
    } else if n == 3 {
      ThreeParts(Payload(b[0], 0xE0), Payload(b[1], 0x80), Payload(b[2], 0x80));
    } else if n == 4 {
      FourParts(Payload(b[0], 0xF0), Payload(b[1], 0x80), Payload(b[2], 0x80), Payload(b[3], 0x80));
    }
  }

  lemma HighLow(hi: int, lo: int)
    requires 0 <= lo < 64
    ensures (hi * 64 + lo) / 64 == hi && (hi * 64 + lo) % 64 == lo
  {
  }

  lemma ThreeParts(a: int, b: int, c: int)
    requires 0 <= b < 64 && 0 <= c < 64
    ensures var v := a * 4096 + b * 64 + c; v / 4096 == a && v / 64 % 64 == b && v % 64 == c
  {
    HighLow(a * 64 + b, c);
    HighLow(a, b);
    assert (a * 4096 + b * 64 + c) / 4096 == a;
  }

  lemma FourParts(a: int, b: int, c: int, d: int)
    requires 0 <= b < 64 && 0 <= c < 64 && 0 <= d < 64
    ensures var v := a * 26_2144 + b * 4096 + c * 64 + d;
      v / 26_2144 == a && v / 4096 % 64 == b && v / 64 % 64 == c && v % 64 == d
  {
    HighLow(a * 4096 + b * 64 + c, d);
    ThreeParts(a, b, c);
    var v := a * 26_2144 + b * 4096 + c * 64 + d;
    assert v / 64 == a * 4096 + b * 64 + c && v / 26_2144 == a && v / 4096 == v / 64 / 64;
  }

  // ----- whole strings -----

  function Encode(s: string): (b: Bytes)
  {
    if s == "" then [] else EncodeChar(s[0]) + Encode(s[1..])
  }

  /** `String::from_utf8`: the text the bytes spell, or nothing when they are malformed. */
  function Decode(b: Bytes): (r: Option<string>)
  {
    if b == [] then Some("")
    else
      var (c, n) :- DecodeFirst(b);
      var rest :- Decode(b[n..]);
      Some([c] + rest)
  }

  predicate Valid(b: Bytes) { Decode(b).Some? }

  lemma {:induction false} DecodeEncode(s: string)
    ensures Decode(Encode(s)) == Some(s)
  {
    if s == "" {
    } else {
      DecodeEncode(s[1..]);
      DecodeFirstOfEncode(s[0], Encode(s[1..]));
      var w := EncodeChar(s[0]);
      assert (w + Encode(s[1..]))[|w|..] == Encode(s[1..]);
      assert [s[0]] + s[1..] == s;
    }
  }

  lemma EncodeCons(c: char, rest: string)
    ensures Encode([c] + rest) == EncodeChar(c) + Encode(rest)
  {
  }

  lemma DecodeCons(b: Bytes) returns (c: char, n: nat)
    requires b != [] && Valid(b)
    ensures DecodeFirst(b) == Some((c, n)) && 1 <= n <= |b|
    ensures Valid(b[n..]) && Decode(b).value == [c] + Decode(b[n..]).value
  {
    c, n := DecodeFirst(b).value.0, DecodeFirst(b).value.1;
  }

  lemma NoBytes()
    ensures Decode([]) == Some("") && Encode("") == []
  {
  }

  lemma {:induction false} EncodeDecode(b: Bytes)
    requires Valid(b)
    ensures Encode(Decode(b).value) == b
  {
    hide DecodeFirst, EncodeChar, Decode, Encode;
    if b == [] {
      NoBytes();
    } else {
      var c, n := DecodeCons(b);
      EncodeOfDecodeFirst(b);
      EncodeDecode(b[n..]);
      EncodeCons(c, Decode(b[n..]).value);
      assert b == b[..n] + b[n..];
    }
  }

  lemma EncodeInjective(s: string, t: string)
    requires Encode(s) == Encode(t)
    ensures s == t
  {
    DecodeEncode(s);
    DecodeEncode(t);
  }

  lemma {:induction false} EncodeConcat(s: string, t: string)
    ensures Encode(s + t) == Encode(s) + Encode(t)
  {
    if s == "" {
      assert s + t == t;
    } else {
      assert (s + t)[1..] == s[1..] + t;
      EncodeConcat(s[1..], t);
    }
  }

  lemma {:induction false} EncodeAscii(s: string)
    requires forall i :: 0 <= i < |s| ==> s[i] as int < 0x80
    ensures |Encode(s)| == |s|
    ensures forall i :: 0 <= i < |s| ==> Encode(s)[i] == s[i] as int
  {
    if s == "" {
    } else {
      EncodeAscii(s[1..]);
      EncodeCharShape(s[0]);
    }
  }

  // ----- malformed bytes -----

  /** The code point U+FFFD. */
  const REPLACEMENT: Bytes := [0xEF, 0xBF, 0xBD]

  /** The second byte can follow this lead byte. */
  predicate SecondFits(b0: Byte, b1: Byte)
  {
    if b0 == 0xE0 then 0xA0 <= b1 < 0xC0
    else if b0 == 0xED then 0x80 <= b1 < 0xA0
    else if b0 == 0xF0 then 0x90 <= b1 < 0xC0
    else if b0 == 0xF4 then 0x80 <= b1 < 0x90
    else IsContinuation(b1)
  }

  /** The bytes one replacement stands for: the longest start of a code point, or a single byte. */
  function BadLength(b: Bytes): (n: nat)
    requires b != []
    ensures 1 <= n <= |b|
  {
    if b[0] < 0xE0 || b[0] >= 0xF5 || |b| < 2 || !SecondFits(b[0], b[1]) then 1
    else if b[0] < 0xF0 || |b| < 3 || !IsContinuation(b[2]) then 2
    else 3
  }

  /** `String::from_utf8_lossy`. */
  function Lossy(b: Bytes): Bytes
    decreases |b|
  {
    if b == [] then []
    else
      match DecodeFirst(b)
      case Some((_, n)) => b[..n] + Lossy(b[n..])
      case None => REPLACEMENT + Lossy(b[BadLength(b)..])
  }

  lemma ReplacementIsText()
    ensures Valid(REPLACEMENT)
  {
    assert DecodeFirst(REPLACEMENT) == Some(('\U{FFFD}', 3));
    assert REPLACEMENT[3..] == [];
    NoBytes();
  }

  lemma FirstIsText(b: Bytes)
    requires b != [] && DecodeFirst(b).Some?
    ensures Valid(b[..DecodeFirst(b).value.1])
  {
    hide DecodeFirst, Decode, EncodeChar;
    var c := DecodeFirst(b).value.0;
    EncodeOfDecodeFirst(b);
    EncodeCons(c, "");
    assert Encode([c]) == EncodeChar(c) by { NoBytes(); }
    DecodeEncode([c]);
  }

  /** The result is well-formed, and the bytes themselves exactly when those are. */
  lemma {:induction false} LossyRepairs(b: Bytes)
    ensures Valid(Lossy(b))
    ensures Lossy(b) == b <==> Valid(b)
    decreases |b|
  {
    if b == [] {
      NoBytes();
    } else if DecodeFirst(b).Some? {
      hide DecodeFirst;
      var n := DecodeFirst(b).value.1;
      LossyRepairs(b[n..]);
      FirstIsText(b);
      ValidConcat(b[..n], Lossy(b[n..]));
      assert b == b[..n] + b[n..];
    } else {
      hide DecodeFirst;
      LossyRepairs(b[BadLength(b)..]);
      ReplacementIsText();
      ValidConcat(REPLACEMENT, Lossy(b[BadLength(b)..]));
    }
  }

  /** Well-formed text at the front is kept as it is. */
  lemma {:induction false} LossyConcat(a: Bytes, b: Bytes)
    requires Valid(a)
    ensures Lossy(a + b) == a + Lossy(b)
    decreases |a|
  {
    hide DecodeFirst, EncodeChar, Decode;
    if a == [] {
      assert a + b == b && a + Lossy(b) == Lossy(b);
    } else {
      var c, n := DecodeCons(a);
      EncodeOfDecodeFirst(a);
      DecodeFirstOfEncode(c, a[n..] + b);
      assert a + b == EncodeChar(c) + (a[n..] + b);
      assert (a + b)[..n] == a[..n] && (a + b)[n..] == a[n..] + b;
      LossyConcat(a[n..], b);
      assert a[..n] + (a[n..] + Lossy(b)) == a + Lossy(b);
    }
  }

  lemma EncodingInFront(b: Bytes)
    requires b != []
    ensures DecodeFirst(b).Some? ==> EncodeChar(DecodeFirst(b).value.0) <= b
  {
    hide DecodeFirst, EncodeChar;
    if DecodeFirst(b).Some? {
      EncodeOfDecodeFirst(b);
    }
  }

  /** The bytes one replacement stands for start a code point, and no more bytes do. */
  lemma BadLengthStarts(b: Bytes) returns (c: char)
    requires b != [] && DecodeFirst(b).None?
    ensures BadLength(b) > 1 ==> b[..BadLength(b)] < EncodeChar(c)
  {
    c := 'a';
    if BadLength(b) > 1 {
      var low := if BadLength(b) == 3 then Payload(b[2], 0x80) else 0;
      if b[0] < 0xF0 {
        var n := Payload(b[0], 0xE0) * 4096 + Payload(b[1], 0x80) * 64;
        c := n as char;
        ThreeParts(Payload(b[0], 0xE0), Payload(b[1], 0x80), 0);
        assert EncodeChar(c)[..2] == b[..2];
      } else {
        var n := Payload(b[0], 0xF0) * 26_2144 + Payload(b[1], 0x80) * 4096 + low * 64;
        c := n as char;
        FourParts(Payload(b[0], 0xF0), Payload(b[1], 0x80), low, 0);
        assert EncodeChar(c)[..BadLength(b)] == b[..BadLength(b)];
      }
    }
  }

  lemma NoLongerStart(b: Bytes, m: nat, c: char)
    requires 1 <= m <= |b| && b[..m] < EncodeChar(c)
    ensures m <= BadLength(b)
  {
    var w := EncodeChar(c);
    EncodeCharShape(c);
    SecondFitsEncoded(c);
    assert forall i :: 0 <= i < m ==> b[i] == w[i];
  }

  lemma SecondFitsEncoded(c: char)
    ensures var w := EncodeChar(c); |w| >= 2 ==> SecondFits(w[0], w[1])
    ensures var w := EncodeChar(c); |w| >= 3 <==> 0xE0 <= w[0]
    ensures var w := EncodeChar(c); |w| == 4 <==> 0xF0 <= w[0]
    ensures EncodeChar(c)[0] < 0xF5
  {
  }

  /** Bytes that start with no code point: one U+FFFD for the longest piece of them that a code
      point could start with, or for a single byte, and the rest repaired in the same way. */
  lemma {:induction false} LossyReplaces(b: Bytes, n: nat)
    requires 1 <= n <= |b| && forall c :: !(EncodeChar(c) <= b)
    requires n > 1 ==> exists c :: b[..n] < EncodeChar(c)
    requires forall m: nat, c :: n < m <= |b| ==> !(b[..m] < EncodeChar(c))
    ensures Lossy(b) == EncodeChar('\U{FFFD}') + Lossy(b[n..])
  {
    hide DecodeFirst, EncodeChar;
    EncodingInFront(b);
    var bad := BadLength(b);
    var start := BadLengthStarts(b);
    if n > bad {
      var c :| b[..n] < EncodeChar(c);
      NoLongerStart(b, n, c);
    }
    assert n == bad;
    ReplacementEncoded();
  }

  lemma ReplacementEncoded()
    ensures REPLACEMENT == EncodeChar('\U{FFFD}')
  {
  }

  // ----- code-point boundaries -----

  /** `str::is_char_boundary`. */
  predicate IsBoundary(b: Bytes, k: nat)
  {
    k == 0 || k == |b| || (k < |b| && !IsContinuation(b[k]))
  }

  /** A cut of well-formed bytes is on a boundary exactly when both sides are well-formed. */
  lemma {:induction false} BoundaryCut(s: string, k: nat)
    requires k <= |Encode(s)|
    ensures IsBoundary(Encode(s), k) ==>
      exists n: nat :: n <= |s| && Encode(s)[..k] == Encode(s[..n]) && Encode(s)[k..] == Encode(s[n..])
    ensures !IsBoundary(Encode(s), k) ==> !Valid(Encode(s)[..k])
  {
    hide DecodeFirst, EncodeChar;
    var b := Encode(s);
    if k == 0 {
      assert s[..0] == "" && s[0..] == s;
      assert b[..0] == Encode(s[..0]) && b[0..] == Encode(s[0..]);
    } else {
      var w := EncodeChar(s[0]);
      EncodeCharShape(s[0]);
      DecodeFirstOfEncode(s[0], Encode(s[1..]));
      if k < |w| {
        assert b[k] == w[k];
        CutInsideFirst(s[0], Encode(s[1..]), k);
      } else {
        var k' := k - |w|;
        BoundaryCut(s[1..], k');
        assert b[..k] == w + Encode(s[1..])[..k'];
        assert b[k..] == Encode(s[1..])[k'..];
        assert IsBoundary(b, k) <== IsBoundary(Encode(s[1..]), k') by {
          if k' == 0 && k != |b| {
            assert s[1..] != "" ;
            EncodeCharShape(s[1]);
            assert s[1..][0] == s[1];
          }
        }
        if IsBoundary(b, k) {
          var n: nat :| n <= |s[1..]| && Encode(s[1..])[..k'] == Encode(s[1..][..n])
                        && Encode(s[1..])[k'..] == Encode(s[1..][n..]);
          assert s[..n + 1][1..] == s[1..][..n];
          assert s[n + 1..] == s[1..][n..];
          assert b[..k] == Encode(s[..n + 1]);
          assert b[k..] == Encode(s[n + 1..]);
        } else {
          DecodeFirstOfEncode(s[0], Encode(s[1..])[..k']);
          assert b[..k][|w|..] == Encode(s[1..])[..k'];
        }
      }
    }
  }

  lemma CutInsideFirst(c: char, rest: Bytes, k: nat)
    requires 0 < k < |EncodeChar(c)|
    ensures DecodeFirst((EncodeChar(c) + rest)[..k]).None?
    ensures !Valid((EncodeChar(c) + rest)[..k])
  {
  }

  lemma CutValid(b: Bytes, k: nat)
    requires Valid(b) && k <= |b| && IsBoundary(b, k)
    ensures Valid(b[..k]) && Valid(b[k..])
  {
    var s := Decode(b).value;
    EncodeDecode(b);
    BoundaryCut(s, k);
    var n: nat :| n <= |s| && b[..k] == Encode(s[..n]) && b[k..] == Encode(s[n..]);
    DecodeEncode(s[..n]);
    DecodeEncode(s[n..]);
  }

  /** Slicing well-formed bytes between two boundaries gives well-formed bytes. */
  lemma ValidSlice(b: Bytes, i: nat, j: nat)
    requires Valid(b) && i <= j <= |b| && IsBoundary(b, i) && IsBoundary(b, j)
    ensures Valid(b[i..j])
  {
    CutValid(b, j);
    assert IsBoundary(b[..j], i);
    CutValid(b[..j], i);
    assert b[..j][i..] == b[i..j];
  }

  lemma ValidConcat(a: Bytes, b: Bytes)
    requires Valid(a) && Valid(b)
    ensures Valid(a + b)
  {
    EncodeDecode(a);
    EncodeDecode(b);
    EncodeConcat(Decode(a).value, Decode(b).value);
    DecodeEncode(Decode(a).value + Decode(b).value);
  }

  /** After an ASCII byte, and before one, well-formed bytes have a boundary. */
  lemma {:induction false} AsciiBoundary(b: Bytes, k: nat)
    requires Valid(b) && k < |b| && b[k] < 0x80
    ensures IsBoundary(b, k) && IsBoundary(b, k + 1)
  {
    var (c, n) := DecodeFirst(b).value;
    EncodeOfDecodeFirst(b);
    EncodeCharShape(c);
    if k < n {
      assert b[..n][k] == b[k];
      assert k == 0 && n == 1;
      if 1 < |b| {
        assert b[1..] != [] && Valid(b[1..]);
        FirstIsBoundary(b[1..]);
      }
    } else {
      AsciiBoundary(b[n..], k - n);
    }
  }

  lemma FirstIsBoundary(b: Bytes)
    requires b != [] && Valid(b)
    ensures !IsContinuation(b[0])
  {
  }
}
