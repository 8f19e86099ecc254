/** fnv1a_hash of include/template_utils.hpp, on 64-bit words written as natural numbers.

    `char` is signed on the platforms the program is built for, so the cast to size_t sign-extends
    bytes from 0x80 on. */
module Fnv1a {
  import opened Runs

  const M := 0x1_0000_0000_0000_0000
  const OFFSET_BASIS := 14695981039346656037
  const PRIME := 1099511628211
  // PRIME * PRIME_INVERSE == CARRY * M + 1
  const PRIME_INVERSE := 0xCE965057AFF6957B
  const CARRY := (PRIME * PRIME_INVERSE) / M

  type Word = x: int | 0 <= x < M
  type Byte = x: int | 0 <= x < 256

  // Bitwise exclusive or of two n-bit numbers.
  function XorBits(n: nat, a: nat, b: nat): nat {
    if n == 0 then 0 else 2 * XorBits(n - 1, a / 2, b / 2) + if a % 2 == b % 2 then 0 else 1
  }

  function Pow2(n: nat): nat {
    if n == 0 then 1 else 2 * Pow2(n - 1)
  }

  lemma {:induction false} XorFits(n: nat, a: nat, b: nat)
    ensures XorBits(n, a, b) < Pow2(n)
  {
    if n > 0 { XorFits(n - 1, a / 2, b / 2); }
  }

  lemma XorHalves(n: nat, a: nat, b: nat)
    requires n > 0
    ensures XorBits(n, a, b) / 2 == XorBits(n - 1, a / 2, b / 2)
    ensures XorBits(n, a, b) % 2 == if a % 2 == b % 2 then 0 else 1
  {
  }

  lemma {:induction false} XorCancels(n: nat, a: nat, b: nat)
    requires a < Pow2(n)
    ensures XorBits(n, XorBits(n, a, b), b) == a && XorBits(n, a, b) == XorBits(n, b, a)
  {
    if n > 0 {
      XorHalves(n, a, b);
      XorCancels(n - 1, a / 2, b / 2);
      assert a == 2 * (a / 2) + a % 2;
    }
  }

  lemma {:induction false} XorAssociates(n: nat, a: nat, b: nat, c: nat)
    ensures XorBits(n, XorBits(n, a, b), c) == XorBits(n, a, XorBits(n, b, c))
  {
    if n > 0 {
      XorHalves(n, a, b);
      XorHalves(n, b, c);
      XorAssociates(n - 1, a / 2, b / 2, c / 2);
    }
  }

  // With all ones, exclusive or is the complement.
  lemma {:induction false} XorOnes(n: nat, a: nat)
    requires a < Pow2(n)
    ensures XorBits(n, a, Pow2(n) - 1) == Pow2(n) - 1 - a
  {
    if n > 0 {
      XorOnes(n - 1, a / 2);
      assert (Pow2(n) - 1) / 2 == Pow2(n - 1) - 1;
    }
  }

  lemma {:induction false} XorZero(n: nat, a: nat)
    requires a < Pow2(n)
    ensures XorBits(n, a, 0) == a
  {
    if n > 0 { XorZero(n - 1, a / 2); }
  }

  // The top bit alone.
  lemma {:induction false} XorTop(n: nat, a: nat)
    requires Pow2(n) <= a < 2 * Pow2(n)
    ensures XorBits(n + 1, a, Pow2(n)) == a - Pow2(n)
  {
    if n > 0 {
      var p := Pow2(n - 1);
      XorTop(n - 1, a / 2);
      assert Pow2(n) == 2 * p && Pow2(n) / 2 == p && Pow2(n) % 2 == 0;
      assert XorBits(n + 1, a, 2 * p) == 2 * XorBits(n, a / 2, p) + a % 2;
    }
  }

  lemma TwiceOf(p: nat, x: nat)
    ensures (2 * p) * x == 2 * (p * x)
  {
  }

  lemma HalfOf(t: nat, low: nat)
    ensures (2 * t + low) / 2 == t + low / 2 && (2 * t + low) % 2 == low % 2
  {
  }

  // The low k bits do not meet the others.
  lemma {:induction false} XorParts(k: nat, n: nat, a: nat, al: nat, b: nat, bl: nat)
    requires al < Pow2(k) && bl < Pow2(k)
    ensures XorBits(k + n, Pow2(k) * a + al, Pow2(k) * b + bl) == Pow2(k) * XorBits(n, a, b) + XorBits(k, al, bl)
    decreases k
  {
    if k > 0 {
      var p := Pow2(k - 1);
      TwiceOf(p, a);
      TwiceOf(p, b);
      TwiceOf(p, XorBits(n, a, b));
      HalfOf(p * a, al);
      HalfOf(p * b, bl);
      XorParts(k - 1, n, a, al / 2, b, bl / 2);
    }
  }

  lemma XorLowByte(k: nat, n: nat, a: nat, b: nat)
    requires Pow2(k) == 256
    ensures XorBits(k + n, a, b) == 256 * XorBits(n, a / 256, b / 256) + XorBits(k, a % 256, b % 256)
  {
    XorParts(k, n, a / 256, a % 256, b / 256, b % 256);
  }

  lemma Pow64()
    ensures Pow2(64) == M
  {
    assert Pow2(8) == 256;
    assert Pow2(16) == 0x1_0000;
    assert Pow2(24) == 0x100_0000;
    assert Pow2(32) == 0x1_0000_0000;
    assert Pow2(40) == 0x100_0000_0000;
    assert Pow2(48) == 0x1_0000_0000_0000;
    assert Pow2(56) == 0x100_0000_0000_0000;
  }

  function Xor(a: Word, b: Word): (r: Word)
    ensures XorRecovers(a, b, r)
  {
    Pow64();
    XorFits(64, a, b);
    XorCancels(64, a, b);
    XorCancels(64, b, a);
    XorBits(64, a, b)
  }

  // What is used of exclusive or: either operand can be recovered from the result and the other.
  ghost predicate XorRecovers(a: Word, b: Word, r: Word) {
    XorBits(64, r, b) == a && XorBits(64, r, a) == b
  }

  function Mul(a: Word, b: Word): Word {
    a * b % M
  }

  function SignExtend(b: Byte): Word {
    if b >= 0x80 then b + 0xFFFF_FFFF_FFFF_FF00 else b
  }

  function Step(h: Word, w: Word): Word {
    Mul(Xor(h, w), PRIME)
  }

  function SignedStep(h: Word, b: Byte): Word {
    Step(h, SignExtend(b))
  }

  function HashFrom(h: Word, s: seq<Byte>): Word {
    Fold(SignedStep, h, s)
  }

  method Fnv1aHash(str: seq<Byte>) returns (hash: Word)
    ensures hash == HashFrom(OFFSET_BASIS, str)
  {
    hash := OFFSET_BASIS;
    for i := 0 to |str|
      invariant hash == HashFrom(OFFSET_BASIS, str[..i])
    {
      assert str[..i + 1][..i] == str[..i];
      hash := Xor(hash, SignExtend(str[i]));
      hash := Mul(hash, PRIME);
    }
    assert str[..|str|] == str;
  }

  // ----- each step is a bijection -----

  lemma ModIs(a: int, q: int, r: Word)
    requires a == q * M + r
    ensures a % M == r
  {
  }

  lemma PrimeIsInvertible(x: Word)
    ensures Mul(Mul(x, PRIME), PRIME_INVERSE) == x
    ensures Mul(Mul(x, PRIME_INVERSE), PRIME) == x
  {
    assert PRIME * PRIME_INVERSE == CARRY * M + 1;
    var t := x * PRIME / M;
    ModIs(Mul(x, PRIME) * PRIME_INVERSE, x * CARRY - t * PRIME_INVERSE, x);
    var u := x * PRIME_INVERSE / M;
    ModIs(Mul(x, PRIME_INVERSE) * PRIME, x * CARRY - u * PRIME, x);
  }

  function StepBack(h: Word, w: Word): Word {
    Xor(Mul(h, PRIME_INVERSE), w)
  }

  /** Each step is a bijection on the 64-bit state, undone by StepBack. */
  lemma StepIsBijective(h: Word, w: Word)
    ensures StepBack(Step(h, w), w) == h && Step(StepBack(h, w), w) == h
  {
    PrimeIsInvertible(Xor(h, w));
    PrimeIsInvertible(h);
    assert XorRecovers(h, w, Xor(h, w));
    assert XorRecovers(Mul(h, PRIME_INVERSE), w, StepBack(h, w));
  }

  lemma StepSeparatesWords(h: Word, v: Word, w: Word)
    requires Step(h, v) == Step(h, w)
    ensures v == w
  {
    PrimeIsInvertible(Xor(h, v));
    PrimeIsInvertible(Xor(h, w));
    assert XorRecovers(h, v, Xor(h, v)) && XorRecovers(h, w, Xor(h, w));
  }

  function HashBack(h: Word, s: seq<Byte>): Word
    decreases |s|
  {
    if s == [] then h else
      var n := |s| - 1;
      HashBack(StepBack(h, SignExtend(s[n])), s[..n])
  }

  /** Hashing a fixed string is a bijection on the state it starts from. */
  lemma {:induction false} HashIsBijective(h: Word, s: seq<Byte>)
    ensures HashBack(HashFrom(h, s), s) == h && HashFrom(HashBack(h, s), s) == h
    decreases |s|
  {
    if s != [] {
      var n := |s| - 1;
      var w := SignExtend(s[n]);
      StepIsBijective(HashFrom(h, s[..n]), w);
      StepIsBijective(h, w);
      HashIsBijective(h, s[..n]);
      HashIsBijective(StepBack(h, w), s[..n]);
    }
  }

  /** A common suffix never merges two different states. */
  lemma SuffixKeepsStatesApart(g: Word, h: Word, s: seq<Byte>)
    requires HashFrom(g, s) == HashFrom(h, s)
    ensures g == h
  {
    HashIsBijective(g, s);
    HashIsBijective(h, s);
  }

  // A byte in the middle of a string.
  lemma ByteInTheMiddle(step: (Word, Byte) -> Word, h: Word, prefix: seq<Byte>, b: Byte, suffix: seq<Byte>)
    ensures Fold(step, h, prefix + [b] + suffix) == Fold(step, step(Fold(step, h, prefix), b), suffix)
  {
    FoldConcat(step, h, prefix + [b], suffix);
    FoldOne(step, h, prefix, b);
  }

  /** Two strings that differ in exactly one byte never have the same hash. */
  lemma OneByteChangeIsSeen(prefix: seq<Byte>, a: Byte, b: Byte, suffix: seq<Byte>)
    requires a != b
    ensures HashFrom(OFFSET_BASIS, prefix + [a] + suffix) != HashFrom(OFFSET_BASIS, prefix + [b] + suffix)
  {
    var h := HashFrom(OFFSET_BASIS, prefix);
    ByteInTheMiddle(SignedStep, OFFSET_BASIS, prefix, a, suffix);
    ByteInTheMiddle(SignedStep, OFFSET_BASIS, prefix, b, suffix);
    if HashFrom(SignedStep(h, a), suffix) == HashFrom(SignedStep(h, b), suffix) {
      SuffixKeepsStatesApart(SignedStep(h, a), SignedStep(h, b), suffix);
      StepSeparatesWords(h, SignExtend(a), SignExtend(b));
    }
  }

  // ----- the published algorithm, section 2 of draft-eastlake-fnv: octets are unsigned -----

  function UnsignedStep(h: Word, b: Byte): Word {
    Step(h, b)
  }

  function StandardFrom(h: Word, s: seq<Byte>): Word {
    Fold(UnsignedStep, h, s)
  }

  /** On ASCII text the function is 64-bit FNV-1a. */
  lemma {:induction false} AsciiIsStandard(h: Word, s: seq<Byte>)
    requires forall i :: 0 <= i < |s| ==> s[i] < 0x80
    ensures HashFrom(h, s) == StandardFrom(h, s)
  {
    if s != [] { AsciiIsStandard(h, s[..|s| - 1]); }
  }

  // ----- bytes from 0x80 on -----

  // What sign extension adds: the upper 56 bits.
  const SIGN: Word := 0xFFFF_FFFF_FFFF_FF00

  lemma Pow8()
    ensures Pow2(8) == 256
  {
  }

  lemma Pow56()
    ensures Pow2(8) == 256 && Pow2(56) == 0x100_0000_0000_0000
  {
    Pow64();
    assert Pow2(56 + 8) == 2 * Pow2(56 + 7) == 4 * Pow2(56 + 6) == 8 * Pow2(56 + 5) == 16 * Pow2(56 + 4);
    assert 16 * Pow2(56 + 4) == 32 * Pow2(56 + 3) == 64 * Pow2(56 + 2) == 128 * Pow2(56 + 1) == 256 * Pow2(56);
    assert Pow2(8) == 256;
  }

  // Exclusive or with SIGN complements the upper 56 bits and keeps the low byte.
  function Complement(a: Word): Word {
    256 * (0xFF_FFFF_FFFF_FFFF - a / 256) + a % 256
  }

  lemma XorSign(a: Word)
    ensures Xor(a, SIGN) == Complement(a)
  {
    var k: nat := 8;
    Pow56();
    SignParts(k, a);
  }

  lemma SignParts(k: nat, a: Word)
    requires k == 8 && Pow2(k) == 256 && Pow2(56) == 0x100_0000_0000_0000
    ensures Xor(a, SIGN) == Complement(a)
  {
    XorLowByte(k, 56, a, SIGN);
    XorOnes(56, a / 256);
    XorZero(k, a % 256);
  }

  lemma SignExtendIsXor(b: Byte)
    requires b >= 0x80
    ensures SignExtend(b) == Xor(b, SIGN)
  {
    assert b / 256 == 0 && b % 256 == b;
    XorSign(b);
  }

  lemma XorRules(a: Word, b: Word, c: Word)
    ensures Xor(Xor(a, b), c) == Xor(a, Xor(b, c))
    ensures Xor(a, b) == Xor(b, a)
    ensures Xor(Xor(a, b), b) == a
  {
    Pow64();
    XorAssociates(64, a, b, c);
    XorCancels(64, a, b);
  }

  // One byte merges the two states exactly when they differ in the bits of SIGN.
  lemma HighByteMerges(g: Word, h: Word, b: Byte)
    requires b >= 0x80
    ensures SignedStep(g, b) == UnsignedStep(h, b) <==> Xor(g, h) == SIGN
  {
    SignExtendIsXor(b);
    XorRules(g, SIGN, b);
    XorRules(SIGN, b, b);
    assert Xor(g, SignExtend(b)) == Xor(Xor(g, SIGN), b);
    if SignedStep(g, b) == UnsignedStep(h, b) {
      PrimeIsInvertible(Xor(g, SignExtend(b)));
      PrimeIsInvertible(Xor(h, b));
      XorRules(Xor(g, SIGN), b, b);
      XorRules(h, b, b);
      assert Xor(g, SIGN) == h;
    }
    XorRules(g, g, SIGN);
    XorRules(SIGN, g, g);
    XorRules(h, g, g);
    XorRules(g, SIGN, SIGN);
  }

  ghost predicate IsAscii(s: seq<Byte>) {
    forall i :: 0 <= i < |s| ==> s[i] < 0x80
  }

  /** After the last byte from 0x80 on, the hash agrees with the standard if and only if before that
      byte the two states differed in exactly the upper 56 bits. */
  lemma LastHighByteDecides(start: Word, prefix: seq<Byte>, b: Byte, suffix: seq<Byte>)
    requires b >= 0x80 && IsAscii(suffix)
    ensures HashFrom(start, prefix + [b] + suffix) == StandardFrom(start, prefix + [b] + suffix)
       <==> Xor(HashFrom(start, prefix), StandardFrom(start, prefix)) == SIGN
  {
    var g, h := HashFrom(start, prefix), StandardFrom(start, prefix);
    ByteInTheMiddle(SignedStep, start, prefix, b, suffix);
    ByteInTheMiddle(UnsignedStep, start, prefix, b, suffix);
    AsciiIsStandard(UnsignedStep(h, b), suffix);
    if HashFrom(SignedStep(g, b), suffix) == HashFrom(UnsignedStep(h, b), suffix) {
      SuffixKeepsStatesApart(SignedStep(g, b), UnsignedStep(h, b), suffix);
    }
    HighByteMerges(g, h, b);
  }

  // The position of the last byte from 0x80 on, or the length if there is none.
  function LastHigh(s: seq<Byte>, i: nat): (k: nat)
    requires i <= |s| && IsAscii(s[i..])
    ensures k <= |s| && (k < |s| ==> s[k] >= 0x80 && IsAscii(s[k + 1..]))
    ensures k == |s| ==> IsAscii(s)
  {
    if i == 0 then |s|
    else if s[i - 1] >= 0x80 then i - 1
    else assert s[i - 1..] == [s[i - 1]] + s[i..]; LastHigh(s, i - 1)
  }

  lemma HighByteAt(start: Word, s: seq<Byte>, k: nat)
    requires k < |s| && s[k] >= 0x80 && IsAscii(s[k + 1..])
    ensures HashFrom(start, s) == StandardFrom(start, s)
       <==> Xor(HashFrom(start, s[..k]), StandardFrom(start, s[..k])) == SIGN
  {
    var before, b, after := s[..k], s[k], s[k + 1..];
    assert s == before + [b] + after;
    LastHighByteDecides(start, before, b, after);
  }

  /** The hash is 64-bit FNV-1a on exactly these texts: ASCII, and those before whose last byte from
      0x80 on the states of the two algorithms differ in exactly the upper 56 bits. */
  lemma StandardExactly(s: seq<Byte>)
    ensures var k := LastHigh(s, |s|);
            HashFrom(OFFSET_BASIS, s) == StandardFrom(OFFSET_BASIS, s) <==>
            k == |s| || Xor(HashFrom(OFFSET_BASIS, s[..k]), StandardFrom(OFFSET_BASIS, s[..k])) == SIGN
  {
    var k, start := LastHigh(s, |s|), OFFSET_BASIS;
    if k == |s| { AsciiIsStandard(start, s); } else { HighByteAt(start, s, k); }
  }

  /** In text with exactly one byte from 0x80 on, they never agree. */
  lemma OneHighByteIsNeverStandard(prefix: seq<Byte>, b: Byte, suffix: seq<Byte>)
    requires IsAscii(prefix) && IsAscii(suffix)
    ensures HashFrom(OFFSET_BASIS, prefix + [b] + suffix) == StandardFrom(OFFSET_BASIS, prefix + [b] + suffix)
            <==> b < 0x80
  {
    AsciiIsStandard(OFFSET_BASIS, prefix);
    var h := HashFrom(OFFSET_BASIS, prefix);
    if b >= 0x80 {
      LastHighByteDecides(OFFSET_BASIS, prefix, b, suffix);
      XorRules(h, h, h);
      XorWithItself(h);
    } else {
      AsciiIsStandard(OFFSET_BASIS, prefix + [b] + suffix);
    }
  }

  lemma {:induction false} XorBitsItself(n: nat, a: nat)
    ensures XorBits(n, a, a) == 0
  {
    if n > 0 { XorBitsItself(n - 1, a / 2); }
  }

  lemma XorWithItself(a: Word)
    ensures Xor(a, a) == 0
  {
    XorBitsItself(64, a);
  }

  lemma LowByteOfProduct(x: Word)
    ensures Mul(x, PRIME) % 256 == x % 256 * PRIME % 256
  {
    var q, a, low := x * PRIME / M, x / 256, x % 256;
    SameLowByte(Mul(x, PRIME), a * PRIME - q * 0x100_0000_0000_0000, low * PRIME);
  }

  lemma SameLowByte(y: int, k: int, z: int)
    requires y == 256 * k + z
    ensures y % 256 == z % 256
  {
  }

  // The sum of two complementary states is 2^64 - 256 and twice their low byte.
  lemma SumOfProducts(x: Word) returns (n: int)
    ensures Mul(x, PRIME) + Mul(Complement(x), PRIME) == n * M + PRIME * (2 * (x % 256) - 256)
  {
    var x' := Complement(x);
    assert x + x' == M - 256 + 2 * (x % 256);
    n := PRIME - x * PRIME / M - x' * PRIME / M;
  }

  lemma SmallMultiple(n: int, d: int)
    requires n * M == 2 * d && -M / 4 < d < M / 4
    ensures n == 0 && d == 0
  {
  }

  // PRIME times two complementary states: the products are complementary if and only if the low byte
  // is 0x80.
  lemma ProductsOfComplements(x: Word)
    ensures Mul(Complement(x), PRIME) == Complement(Mul(x, PRIME)) <==> x % 256 == 0x80
  {
    var n := SumOfProducts(x);
    LowByteOfProduct(x);
    SumsOfComplements(Mul(x, PRIME), Mul(Complement(x), PRIME), n, x % 256);
  }

  lemma SumsOfComplements(y: Word, y': Word, n: int, low: nat)
    requires low < 256 && y % 256 == low * PRIME % 256
    requires y as int + y' as int == n * M + PRIME * (2 * low - 256)
    ensures y' == Complement(y) <==> low == 0x80
  {
    if low == 0x80 {
      assert 0 < y as int + y' as int < 2 * M;
      assert n == 1;
    } else if y' == Complement(y) {
      ComplementsNeed80(y, y', n, low);
      assert false;
    }
  }

  lemma ComplementsNeed80(y: Word, y': Word, n: int, low: nat)
    requires low < 256 && y' == Complement(y)
    requires y as int + y' as int == n * M + PRIME * (2 * low - 256)
    ensures low == 0x80
  {
    var rest: int := y % 256;
    assert y as int + y' as int == M - 256 + 2 * rest;
    SmallMultiple(1 - n, PRIME * (low - 128) - (rest - 128));
  }

  lemma LowByteOf(y: int, q: int, low: int)
    requires y == 256 * q + low && 0 <= low < 256
    ensures y % 256 == low
  {
  }

  lemma LowParts(k: nat, hi: nat, lo: nat, b: nat)
    requires Pow2(k) == 256 && lo < 256 && b < 256
    ensures XorBits(k, lo, b) < 256 && XorBits(k + 56, 256 * hi + lo, b) % 256 == XorBits(k, lo, b)
  {
    XorParts(k, 56, hi, lo, 0, b);
    XorFits(k, lo, b);
    LowByteOf(XorBits(k + 56, 256 * hi + lo, b), XorBits(56, hi, 0), XorBits(k, lo, b));
  }

  lemma LowByteOfXor(k: nat, h: Word, b: Byte)
    requires k == 8
    ensures XorBits(k, h % 256, b) < 256 && Xor(h, b) % 256 == XorBits(k, h % 256, b)
  {
    Pow8();
    LowParts(k, h / 256, h % 256, b);
    assert h == 256 * (h / 256) + h % 256;
  }

  // A low byte becomes the top bit alone exactly if it is the other byte without its top bit.
  lemma XorIsTop(k: nat, low: Byte, b: Byte)
    requires Pow2(k) == 128 && b >= 0x80
    ensures XorBits(k + 1, low, b) == 0x80 <==> low == b - 0x80
  {
    XorTop(k, b);
    XorCancels(k + 1, low, b);
    XorCancels(k + 1, b, 0x80);
    XorCancels(k + 1, 0x80, b);
  }

  lemma LowByteIsTop(h: Word, b: Byte)
    requires b >= 0x80
    ensures Xor(h, b) % 256 == 0x80 <==> h % 256 == b - 0x80
  {
    var k: nat := 7;
    assert Pow2(7) == 128;
    XorIsTop(k, h % 256, b);
    LowByteOfXor(k + 1, h, b);
  }

  /** Two adjacent bytes from 0x80 on, as in every two-byte character of UTF-8, take a common state to
      a common state if and only if its low byte is the first of them less 0x80. */
  lemma TwoHighBytesMergeExactly(h: Word, b1: Byte, b2: Byte)
    requires b1 >= 0x80 && b2 >= 0x80
    ensures SignedStep(SignedStep(h, b1), b2) == UnsignedStep(UnsignedStep(h, b1), b2)
       <==> h % 256 == b1 - 0x80
  {
    var x := Xor(h, b1);
    SignExtendIsXor(b1);
    XorRules(h, b1, SIGN);
    XorSign(x);
    ProductsOfComplements(x);
    LowByteIsTop(h, b1);
    HighByteMerges(SignedStep(h, b1), UnsignedStep(h, b1), b2);
    ComplementIsXor(UnsignedStep(h, b1), SignedStep(h, b1));
  }

  lemma ComplementIsXor(y: Word, y': Word)
    ensures y' == Complement(y) <==> Xor(y', y) == SIGN
  {
    XorSign(y);
    XorRules(y, SIGN, y);
    XorRules(SIGN, y, y);
    XorRules(y', y, y);
    XorRules(y, SIGN, SIGN);
  }

  /** So ASCII text with one two-byte character in it hashes to the published value if and only if the
      hash of the text before the character has that low byte. */
  lemma TwoHighBytesExactly(start: Word, prefix: seq<Byte>, b1: Byte, b2: Byte, suffix: seq<Byte>)
    requires IsAscii(prefix) && IsAscii(suffix) && b1 >= 0x80 && b2 >= 0x80
    ensures var s := prefix + [b1] + [b2] + suffix;
            (HashFrom(start, s) == StandardFrom(start, s) <==> HashFrom(start, prefix) % 256 == b1 - 0x80)
  {
    var h, before := HashFrom(start, prefix), prefix + [b1];
    AsciiIsStandard(start, prefix);
    FoldOne<Word, Byte>(SignedStep, start, prefix, b1);
    FoldOne<Word, Byte>(UnsignedStep, start, prefix, b1);
    LastHighByteDecides(start, before, b2, suffix);
    HighByteMerges(SignedStep(h, b1), UnsignedStep(h, b1), b2);
    TwoHighBytesMergeExactly(h, b1, b2);
  }

  lemma CommaXor()
    ensures XorBits(8, 0x25, 0x2C) == 0x09
  {
    assert XorBits(4, 2, 2) == 0;
    assert XorBits(5, 4, 5) == 1;
    assert XorBits(6, 9, 11) == 2;
    assert XorBits(7, 18, 22) == 4;
  }

  lemma ProductOf9(x: Word)
    requires x % 256 == 0x09
    ensures Mul(x, PRIME) % 256 == 0x4B
  {
    var q, a := x * PRIME / M, x / 256;
    assert 9 * PRIME == 256 * 38654705679 + 0x4B;
    LowByteOf(Mul(x, PRIME), a * PRIME - q * 0x100_0000_0000_0000 + 38654705679, 0x4B);
  }

  // The low byte after a comma.
  lemma LowByteAfterComma(k: nat, h: Word)
    requires k == 8 && h % 256 == 0x25
    ensures SignedStep(h, 0x2C) % 256 == 0x4B
  {
    CommaXor();
    LowByteOfXor(k, h, 0x2C);
    ProductOf9(Xor(h, 0x2C));
  }

  lemma CommaAndCharacter(k: nat, h: Word, s: seq<Byte>)
    requires k == 8 && h % 256 == 0x25 && s == [0x2C, 0xCB, 0x80]
    ensures HashFrom(h, s) == StandardFrom(h, s)
  {
    var comma := s[..1];
    FoldOne<Word, Byte>(SignedStep, h, [], s[0]);
    assert [] + [s[0]] == comma && comma + [s[1]] + [s[2]] + [] == s;
    LowByteAfterComma(k, h);
    TwoHighBytesExactly(h, comma, s[1], s[2], []);
  }

  /** Some do: a comma followed by U+02C0, which is 0xCB 0x80 in UTF-8. */
  lemma SomeNonAsciiIsStandard(s: seq<Byte>)
    requires s == [0x2C, 0xCB, 0x80]
    ensures HashFrom(OFFSET_BASIS, s) == StandardFrom(OFFSET_BASIS, s)
  {
    var k: nat, h: Word := 8, OFFSET_BASIS;
    CommaAndCharacter(k, h, s);
  }

  // ----- a published value -----

  lemma XorLetter()
    ensures XorBits(8, 0x25, 0x61) == 0x44
  {
    assert XorBits(2, 0, 1) == 1;
    assert XorBits(3, 1, 3) == 2;
    assert XorBits(4, 2, 6) == 4;
    assert XorBits(5, 4, 12) == 8;
    assert XorBits(6, 9, 24) == 17;
    assert XorBits(7, 18, 48) == 34;
  }

  lemma XorLow(k: nat, h: Word, b: nat)
    requires k == 8 && b < 256
    ensures XorBits(64, h, b) == 256 * (h / 256) + XorBits(k, h % 256, b)
  {
    Pow56();
    XorParts(k, 56, h / 256, h % 256, 0, b);
    XorZero(56, h / 256);
    assert h == 256 * (h / 256) + h % 256;
  }

  lemma LetterXor(k: nat, h: Word)
    requires k == 8 && h == 256 * 0xCB_F29C_E484_2223 + 0x25
    ensures Xor(h, 0x61) == 256 * 0xCB_F29C_E484_2223 + 0x44
  {
    XorLetter();
    XorLow(k, h, 0x61);
    QuotientIs(h, 0xCB_F29C_E484_2223, 0x25);
  }

  lemma QuotientIs(h: int, q: int, low: int)
    requires h == 256 * q + low && 0 <= low < 256
    ensures h / 256 == q && h % 256 == low
  {
  }

  lemma LetterProduct(x: Word)
    requires x == 0xCBF2_9CE4_8422_2344
    ensures Mul(x, PRIME) == 0xAF63_DC4C_8601_EC8C
  {
    ModIs(x * PRIME, 875948729822, 0xAF63_DC4C_8601_EC8C);
  }

  lemma LetterState(k: nat, h: Word)
    requires k == 8 && h == 0xCBF2_9CE4_8422_2325
    ensures SignedStep(h, 0x61) == 0xAF63_DC4C_8601_EC8C
  {
    LetterXor(k, h);
    LetterProduct(Xor(h, 0x61));
  }

  /** The published 64-bit FNV-1a values of the empty string and of "a". */
  lemma PublishedValues(s: seq<Byte>)
    requires s == [0x61]
    ensures HashFrom(OFFSET_BASIS, []) == 0xCBF2_9CE4_8422_2325
    ensures HashFrom(OFFSET_BASIS, s) == 0xAF63_DC4C_8601_EC8C
  {
    var k: nat, h: Word := 8, OFFSET_BASIS;
    FoldOne<Word, Byte>(SignedStep, h, [], s[0]);
    assert [] + [s[0]] == s;
    LetterState(k, h);
  }
}
