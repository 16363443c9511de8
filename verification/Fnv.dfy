/** FNV-1a over 64-bit words, the content hash of the install journal. */
module Fnv {
  import opened Utf8

  const MODULUS := 0x1_0000_0000_0000_0000

  type Word = h: int | 0 <= h < MODULUS

  const OFFSET_BASIS: Word := 0xcbf2_9ce4_8422_2325
  const PRIME := 0x0000_0100_0000_01b3
  /** The multiplicative inverse of `PRIME` modulo 2^64. */
  const PRIME_INVERSE := 0xce96_5057_aff6_957b

  function Pow2(n: nat): nat { if n == 0 then 1 else 2 * Pow2(n - 1) }

  /** Bitwise exclusive or. */
  function Xor(a: nat, b: nat): nat
    decreases a + b
  {
    if a == 0 && b == 0 then 0 else (a + b) % 2 + 2 * Xor(a / 2, b / 2)
  }

  lemma {:induction false} XorBound(a: nat, b: nat, width: nat)
    requires a < Pow2(width) && b < Pow2(width)
    ensures Xor(a, b) < Pow2(width)
  {
    if width == 0 {
    } else {
      XorBound(a / 2, b / 2, width - 1);
    }
  }

  lemma {:induction false} XorSymmetric(a: nat, b: nat)
    ensures Xor(a, b) == Xor(b, a)
    decreases a + b
  {
    if a != 0 || b != 0 { XorSymmetric(a / 2, b / 2); }
  }

  lemma ParityTwice(a: nat, b: nat, r: nat)
    ensures ((a + b) % 2 + 2 * r + b) % 2 == a % 2
  {
  }

  lemma {:induction false} XorTwice(a: nat, b: nat)
    ensures Xor(Xor(a, b), b) == a
    decreases a + b
  {
    if a != 0 || b != 0 {
      var r := Xor(a / 2, b / 2);
      XorTwice(a / 2, b / 2);
      var x := Xor(a, b);
      assert x == (a + b) % 2 + 2 * r && x / 2 == r;
      ParityTwice(a, b, r);
    }
  }

  /** The binary digit of weight 2^k. */
  function Bit(a: nat, k: nat): nat { if k == 0 then a % 2 else Bit(a / 2, k - 1) }

  lemma XorUnfold(a: nat, b: nat)
    ensures Xor(a, b) == (a + b) % 2 + 2 * Xor(a / 2, b / 2)
  {
  }

  lemma LastDigit(x: nat, r: nat)
    ensures (x % 2 + 2 * r) % 2 == x % 2 && (x % 2 + 2 * r) / 2 == r
  {
  }

  /** A digit of the exclusive or is set exactly when the digits of the two numbers differ. */
  lemma {:induction false} XorBits(a: nat, b: nat, k: nat)
    ensures Bit(Xor(a, b), k) == if Bit(a, k) != Bit(b, k) then 1 else 0
  {
    hide Xor;
    XorUnfold(a, b);
    LastDigit(a + b, Xor(a / 2, b / 2));
    if k == 0 {
      assert (a + b) % 2 == if a % 2 != b % 2 then 1 else 0;
    } else {
      XorBits(a / 2, b / 2, k - 1);
    }
  }

  lemma {:induction false} Pow2Sum(m: nat, n: nat)
    ensures Pow2(m + n) == Pow2(m) * Pow2(n)
  {
    if m == 0 {
    } else {
      Pow2Sum(m - 1, n);
    }
  }

  lemma Doubled(m: nat, k: nat)
    requires Pow2(m) == k
    ensures Pow2(m + m) == k * k
  {
    hide Pow2;
    Pow2Sum(m, m);
  }

  lemma ModulusIsPower(width: nat)
    requires width == 64
    ensures Pow2(width) == MODULUS
  {
    assert Pow2(8) == 256;
    hide Pow2;
    Doubled(8, 256);
    Doubled(16, 0x1_0000);
    Doubled(32, 0x1_0000_0000);
  }

  lemma WordBound(a: Word, b: Word)
    ensures Xor(a, b) < MODULUS
  {
    hide Pow2, Xor;
    var width := 64;
    ModulusIsPower(width);
    XorBound(a, b, width);
  }

  /** One round: `h ^= b; h = h.wrapping_mul(PRIME)`. */
  function Step(h: Word, b: Byte): Word
  {
    Xor(h, b) * PRIME % MODULUS
  }

  function Unstep(h: Word, b: Byte): nat
  {
    Xor(h * PRIME_INVERSE % MODULUS, b)
  }

  lemma MulInverse(x: Word)
    ensures x * PRIME % MODULUS * PRIME_INVERSE % MODULUS == x
  {
    var q, r := x * PRIME / MODULUS, x * PRIME % MODULUS;
    var k := PRIME * PRIME_INVERSE / MODULUS;
    assert PRIME * PRIME_INVERSE == 1 + k * MODULUS;
    assert x * PRIME == q * MODULUS + r;
    assert r * PRIME_INVERSE == x + (x * k - q * PRIME_INVERSE) * MODULUS;
    ModUnique(r * PRIME_INVERSE, x * k - q * PRIME_INVERSE, x);
  }

  lemma ModUnique(n: int, q: int, r: int)
    requires n == r + q * MODULUS && 0 <= r < MODULUS
    ensures n % MODULUS == r
  {
  }

  /** A round loses nothing: for a fixed byte it can be undone. */
  lemma StepReversible(h: Word, b: Byte)
    ensures Unstep(Step(h, b), b) == h
  {
    WordBound(h, b);
    MulInverse(Xor(h, b));
    XorTwice(h, b);
  }

  lemma StepInjectiveInHash(g: Word, h: Word, b: Byte)
    requires Step(g, b) == Step(h, b)
    ensures g == h
  {
    StepReversible(g, b);
    StepReversible(h, b);
  }

  /** For a fixed hash, different bytes lead to different hashes. */
  lemma StepInjectiveInByte(h: Word, b: Byte, c: Byte)
    requires Step(h, b) == Step(h, c)
    ensures b == c
  {
    WordBound(h, b);
    WordBound(h, c);
    MulInverse(Xor(h, b));
    MulInverse(Xor(h, c));
    XorSymmetric(h, b);
    XorSymmetric(h, c);
    XorTwice(b, h);
    XorTwice(c, h);
  }

  function Fold(h: Word, bytes: Bytes): Word
    decreases |bytes|
  {
    if bytes == [] then h else Fold(Step(h, bytes[0]), bytes[1..])
  }

  function Hash(bytes: Bytes): Word { Fold(OFFSET_BASIS, bytes) }

  method Fnv1a(bytes: Bytes) returns (h: Word)
    ensures h == Hash(bytes)
  {
    h := OFFSET_BASIS;
    for i := 0 to |bytes|
      invariant Fold(h, bytes[i..]) == Hash(bytes)
    {
      assert bytes[i..][1..] == bytes[i + 1..];
      h := Step(h, bytes[i]);
    }
  }

  lemma {:induction false} FoldConcat(h: Word, a: Bytes, b: Bytes)
    ensures Fold(h, a + b) == Fold(Fold(h, a), b)
    decreases |a|
  {
    if a == [] {
      assert a + b == b;
    } else {
      var ab, next := a + b, Step(h, a[0]);
      assert ab[0] == a[0] && ab[1..] == a[1..] + b;
      FoldConcat(next, a[1..], b);
      assert Fold(h, ab) == Fold(next, ab[1..]);
    }
  }

  lemma {:induction false} FoldInjective(g: Word, h: Word, bytes: Bytes)
    requires g != h
    ensures Fold(g, bytes) != Fold(h, bytes)
    decreases |bytes|
  {
    if bytes == [] {
    } else {
      if Step(g, bytes[0]) == Step(h, bytes[0]) {
        StepInjectiveInHash(g, h, bytes[0]);
        assert false;
      }
      FoldInjective(Step(g, bytes[0]), Step(h, bytes[0]), bytes[1..]);
    }
  }

  /** Two files that share a head and a tail collide only if their middles already do. */
  lemma CollisionLocal(head: Bytes, m: Bytes, n: Bytes, tail: Bytes)
    ensures Hash(head + m + tail) == Hash(head + n + tail) <==> Hash(head + m) == Hash(head + n)
  {
    FoldConcat(OFFSET_BASIS, head + m, tail);
    FoldConcat(OFFSET_BASIS, head + n, tail);
    if Hash(head + m) != Hash(head + n) {
      FoldInjective(Hash(head + m), Hash(head + n), tail);
    }
  }

  /** Changing any one byte, at any length and position, changes the hash. */
  lemma OneByteDetected(bytes: Bytes, i: nat, b: Byte)
    requires i < |bytes| && bytes[i] != b
    ensures Hash(bytes[i := b]) != Hash(bytes)
  {
    var head, tail := bytes[..i], bytes[i + 1..];
    assert bytes == head + [bytes[i]] + tail;
    assert bytes[i := b] == head + [b] + tail;
    CollisionLocal(head, [bytes[i]], [b], tail);
    FoldConcat(OFFSET_BASIS, head, [bytes[i]]);
    FoldConcat(OFFSET_BASIS, head, [b]);
    if Step(Hash(head), b) == Step(Hash(head), bytes[i]) {
      StepInjectiveInByte(Hash(head), b, bytes[i]);
      assert false;
    }
  }

  lemma {:induction false} XorZero(m: nat)
    ensures Xor(m, 0) == m
  {
    if m == 0 {
    } else {
      XorZero(m / 2);
    }
  }

  lemma XorOfBasis()
    ensures Xor(0xcbf29ce484222325, 0x61) == 0xcbf29ce484222344
  {
    hide Xor;
    XorUnfold(0xcbf29ce484222325, 0x61);
    XorUnfold(0x65f94e7242111192, 0x30);
    XorUnfold(0x32fca739210888c9, 0x18);
    XorUnfold(0x197e539c90844464, 0xc);
    XorUnfold(0xcbf29ce48422232, 0x6);
    XorUnfold(0x65f94e724211119, 0x3);
    XorUnfold(0x32fca739210888c, 0x1);
    XorZero(0x197e539c9084446);
  }

  /** The published values for no bytes and for the letter a. */
  lemma KnownHashes()
    ensures Hash([]) == 0xcbf29ce484222325 && Hash([0x61]) == 0xaf63dc4c8601ec8c
  {
    hide Xor;
    XorOfBasis();
    assert Step(OFFSET_BASIS, 0x61) == 0xaf63dc4c8601ec8c;
  }
}
