/** The primary and secondary hash functions of the four tables, as pure
    specifications. Each table's own module holds the accumulator loop that
    computes its hash and is proved against these functions.

    Java `int` and `long` values are represented here by their bit patterns read
    as unsigned numbers: a Java `int` computation that wraps around is the exact
    result reduced modulo 2^32 (`Wrap32`), a `long` one modulo 2^64 (`Wrap64`),
    and `& 0x7FFFFFFF` keeps the low 31 bits (`Mask31`). */
module HashFunctions {

  const TWO31: int := 0x8000_0000
  const TWO32: int := 0x1_0000_0000
  const TWO64: int := 0x1_0000_0000_0000_0000

  /** Integer.MAX_VALUE */
  const MaxInt: int := TWO31 - 1

  /** Knuth's multiplicative constant used by the linear-probing table. */
  const LinearMultiplier: int := 2654435761

  /** The value of `c - '0'` for a character `c`: 0..9 for a decimal digit, any
      other value (possibly negative) for any other character. */
  function Digit(c: char): int
  {
    c as int - '0' as int
  }

  predicate IsDigit(c: char)
  {
    '0' <= c <= '9'
  }

  /** Bit pattern of a Java `int` result that wrapped around. */
  function Wrap32(x: int): (u: int)
    ensures 0 <= u < TWO32
  {
    x % TWO32
  }

  /** Bit pattern of a Java `long` result that wrapped around. */
  function Wrap64(x: int): (u: int)
    ensures 0 <= u < TWO64
  {
    x % TWO64
  }

  /** `& 0x7FFFFFFF`: the low 31 bits of a bit pattern. */
  function Mask31(u: int): (v: int)
    ensures 0 <= v < TWO31
  {
    u % TWO31
  }

  /** One step of a Horner fold in Java `int` arithmetic followed by the mask:
      since 2^31 divides 2^32, the wrap-around does not affect the low 31 bits. */
  lemma {:induction false} MaskedIntStep(x: int)
    ensures Mask31(Wrap32(x)) == x % TWO31
  {
    var q := x / TWO32;
    assert x == q * TWO32 + Wrap32(x);
    assert Wrap32(x) == x - (2 * q) * TWO31;
  }

  /** The same for a Java `long`: the low 31 bits of the 64-bit pattern are the
      exact value modulo 2^31. */
  lemma {:induction false} MaskedLongStep(x: int)
    ensures Mask31(Wrap64(x)) == x % TWO31
  {
    var q := x / TWO64;
    assert x == q * TWO64 + Wrap64(x);
    assert Wrap64(x) == x - (q * 0x2_0000_0000) * TWO31;
  }

  /** The Horner fold `h := (h * mult + (c - '0')) mod 2^31` over the characters
      of `s`, from `seed`. Defined on prefixes so that it follows a left-to-right
      loop one character at a time. */
  function Horner(s: string, mult: int, seed: int): (h: int)
    requires 0 <= seed < TWO31
    ensures 0 <= h < TWO31
    decreases |s|
  {
    if s == [] then seed
    else (Horner(s[..|s| - 1], mult, seed) * mult + Digit(s[|s| - 1])) % TWO31
  }

  /** Chaining table: Horner with multiplier 37 from 0. */
  function ChainHash(code: string): int
  {
    Horner(code, 37, 0)
  }

  /** Quadratic-probing table: Horner with multiplier 31 from 0. */
  function QuadraticHash(code: string): int
  {
    Horner(code, 31, 0)
  }

  /** Double hashing, first hash: the running digit sum, masked. */
  function DigitSum(code: string): int
  {
    Horner(code, 1, 0)
  }

  /** Double hashing, second hash before the step mapping: Horner with
      multiplier 7 from 1. */
  function StepHash(code: string): int
  {
    Horner(code, 7, 1)
  }

  /** Linear-probing table, as written: a 64-bit `long` accumulator that wraps
      around and is masked only once, at the end. */
  function LinearWide(s: string): (h: int)
    ensures 0 <= h < TWO64
    decreases |s|
  {
    if s == [] then 0
    else Wrap64(LinearWide(s[..|s| - 1]) * LinearMultiplier + Digit(s[|s| - 1]))
  }

  /** Linear-probing table: the low 31 bits of the 64-bit fold, which equal a
      Horner fold reduced modulo 2^31 at every step (`LinearHashIsLow31Bits`). */
  function LinearHash(code: string): int
  {
    Horner(code, LinearMultiplier, 0)
  }

  lemma {:induction false} MulModCongruence(a: int, b: int, mult: int, d: int, n: int)
    requires n > 0 && a % n == b % n
    ensures (a * mult + d) % n == (b * mult + d) % n
  {
    var qa, qb := a / n, b / n;
    assert a == qa * n + a % n;
    assert b == qb * n + b % n;
    assert a * mult + d == (b * mult + d) + ((qa - qb) * mult) * n by {
      assert a - b == (qa - qb) * n;
      assert a * mult - b * mult == (a - b) * mult;
    }
    ModAddMultiple(b * mult + d, (qa - qb) * mult, n);
  }

  lemma ModAddMultiple(x: int, k: int, n: int)
    requires n > 0
    ensures (x + k * n) % n == x % n
  {
    var q, r := x / n, x % n;
    assert x == q * n + r && 0 <= r < n;
    assert x + k * n == (q + k) * n + r;
    DivModUnique(x + k * n, n, q + k, r);
  }

  /** Euclidean division has exactly one quotient and remainder. */
  lemma DivModUnique(x: int, n: int, q: int, r: int)
    requires n > 0 && 0 <= r < n && x == q * n + r
    ensures x / n == q && x % n == r
  {
    var q', r' := x / n, x % n;
    assert x == q' * n + r' && 0 <= r' < n;
    assert (q - q') * n == r' - r;
    MulAtLeast(q - q', n);
    MulAtLeast(q' - q, n);
  }

  lemma MulAtLeast(k: int, n: int)
    requires n > 0
    ensures k >= 1 ==> k * n >= n
  {
  }

  /** The 64-bit fold masked once (what the linear-probing table computes) and
      the fold masked at every step give the same 31-bit hash. */
  lemma {:induction false} LinearHashIsLow31Bits(s: string)
    ensures Mask31(LinearWide(s)) == LinearHash(s)
    decreases |s|
  {
    if s != [] {
      var p, d := s[..|s| - 1], Digit(s[|s| - 1]);
      LinearHashIsLow31Bits(p);
      MaskedLongStep(LinearWide(p) * LinearMultiplier + d);
      MulModCongruence(LinearWide(p), Horner(p, LinearMultiplier, 0), LinearMultiplier, d, TWO31);
    }
  }

  /** A string of '0' characters hashes to 0 under every multiplier: leading
      zeros of a code contribute nothing. */
  lemma {:induction false} ZerosHashToZero(s: string, mult: int)
    requires forall i :: 0 <= i < |s| ==> s[i] == '0'
    ensures Horner(s, mult, 0) == 0
    decreases |s|
  {
    if s != [] {
      ZerosHashToZero(s[..|s| - 1], mult);
    }
  }

  /** The first hash of double hashing never wraps on decimal digits: it is at
      most 9 per character, so at most 81 for a 9-character code. */
  lemma {:induction false} DigitSumBound(s: string)
    requires 9 * |s| < TWO31
    requires forall i :: 0 <= i < |s| ==> IsDigit(s[i])
    ensures DigitSum(s) <= 9 * |s|
    decreases |s|
  {
    if s != [] {
      DigitSumBound(s[..|s| - 1]);
    }
  }

  /** The accumulator loop shared by the `int` hashes of the chaining,
      quadratic-probing and double-hashing tables:
      `hash = (hash * mult + (charAt(i) - '0')) & 0x7FFFFFFF`, in Java `int`
      arithmetic, from `seed`. */
  method MaskedHornerLoop(code: string, mult: int, seed: int) returns (h: int)
    requires 0 <= seed < TWO31
    ensures h == Horner(code, mult, seed)
  {
    h := seed;
    for i := 0 to |code|
      invariant h == Horner(code[..i], mult, seed)
    {
      assert code[..i + 1][..i] == code[..i];
      MaskedIntStep(h * mult + Digit(code[i]));
      h := Mask31(Wrap32(h * mult + Digit(code[i])));
    }
    assert code[..|code|] == code;
  }
}
