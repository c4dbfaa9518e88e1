/** Probe-index arithmetic of the three open-addressing tables, in Java `int`
    semantics: sums and products wrap around at 32 bits (`Int32`), `%` truncates
    toward zero (`JavaRem`), and the quadratic and double-hashing loops bring a
    negative remainder back into range (`Normalize`). */
module ProbeSequences {
  import opened HashFunctions

  /** The value of a Java `int` expression whose exact value is `x`. */
  function Int32(x: int): (v: int)
    ensures -TWO31 <= v < TWO31
  {
    (x + TWO31) % TWO32 - TWO31
  }

  lemma Int32Exact(x: int)
    requires -TWO31 <= x < TWO31
    ensures Int32(x) == x
  {
  }

  /** Java's `a % m` for a positive divisor: the remainder takes the sign of `a`. */
  function JavaRem(a: int, m: int): (r: int)
    requires m > 0
    ensures -m < r < m
  {
    if a >= 0 then a % m else -((-a) % m)
  }

  /** `if (indice < 0) indice += m; indice = indice % m;` */
  function Normalize(i: int, m: int): int
    requires m > 0
  {
    (if i < 0 then i + m else i) % m
  }

  lemma ModOfMod(x: int, n: int)
    requires n > 0
    ensures (x % n) % n == x % n
  {
    DivModUnique(x % n, n, 0, x % n);
  }

  lemma ModOfSmall(x: int, n: int)
    requires 0 <= x < n
    ensures x % n == x
  {
    DivModUnique(x, n, 0, x);
  }

  /** Truncating remainder followed by the normalisation is the Euclidean
      remainder, so every probe index lies in [0, m). */
  lemma {:induction false} NormalizedRemainder(a: int, m: int)
    requires m > 0
    ensures Normalize(JavaRem(a, m), m) == a % m
    ensures 0 <= Normalize(JavaRem(a, m), m) < m
  {
    if a >= 0 {
      ModOfMod(a, m);
    } else {
      var q, r := (-a) / m, (-a) % m;
      assert -a == q * m + r;
      if r == 0 {
        DivModUnique(a, m, -q, 0);
      } else {
        DivModUnique(a, m, -q - 1, m - r);
        ModOfSmall(m - r, m);
      }
    }
  }

  /** `rehash` of the linear-probing table: the next slot, wrapping from the
      last slot back to the first. */
  function RehashLinear(i: int, m: int): (j: int)
    requires m > 0
    ensures 0 <= j < m
    ensures 0 <= i < m - 1 ==> j == i + 1
    ensures i == m - 1 ==> j == 0
  {
    (i + 1) % m
  }

  /** `rehashQuadratico`: adds `t + t*t` to the index it is given. */
  function RehashQuadratic(i: int, t: int, m: int): (j: int)
    requires m > 0
    ensures -m < j < m
    ensures Normalize(j, m) == Int32(i + t + t * t) % m
  {
    NormalizedRemainder(Int32(i + t + t * t), m);
    JavaRem(Int32(i + t + t * t), m)
  }

  /** `(h1 + tentativas * h2) % tabela.length` of the double-hashing table. */
  function RehashDouble(h1: int, h2: int, t: int, m: int): (j: int)
    requires m > 0
    ensures -m < j < m
    ensures Normalize(j, m) == Int32(h1 + t * h2) % m
  {
    NormalizedRemainder(Int32(h1 + t * h2), m);
    JavaRem(Int32(h1 + t * h2), m)
  }

  /** The index probed at attempt `k` of the linear-probing table, from the
      primary index `h`. */
  function LinearProbe(h: int, k: nat, m: int): (i: int)
    requires m > 0
    ensures 0 <= i < m
  {
    (h + k) % m
  }

  /** The index probed at attempt `k` of the quadratic-probing table: each
      attempt adds `k + k*k` to the PREVIOUS index, not to the primary one. */
  function QuadraticProbe(h: int, k: nat, m: int): (i: int)
    requires 0 <= h < m
    ensures 0 <= i < m
  {
    if k == 0 then h else Int32(QuadraticProbe(h, k - 1, m) + k + k * k) % m
  }

  /** The index probed at attempt `k` of the double-hashing table. */
  function DoubleProbe(h1: int, h2: int, k: nat, m: int): (i: int)
    requires m > 0
    ensures 0 <= i < m
  {
    Int32(h1 + k * h2) % m
  }

  /** One `rehash` moves the linear probe to the next attempt: the k-th probe
      is `(h + k) mod m`. */
  lemma LinearProbeStep(h: int, k: nat, m: int)
    requires m > 0
    ensures RehashLinear(LinearProbe(h, k, m), m) == LinearProbe(h, k + 1, m)
  {
    ModOfMod(h + k, m);
    MulModCongruence((h + k) % m, h + k, 1, 1, m);
  }

  /** The quadratic step of the table, as its loop runs it. */
  lemma QuadraticProbeStep(h: int, k: nat, m: int)
    requires 0 <= h < m
    ensures Normalize(RehashQuadratic(QuadraticProbe(h, k, m), k + 1, m), m)
            == QuadraticProbe(h, k + 1, m)
  {
    NormalizedRemainder(Int32(QuadraticProbe(h, k, m) + (k + 1) + (k + 1) * (k + 1)), m);
  }

  /** The double-hashing step of the table, as its loop runs it. */
  lemma DoubleProbeStep(h1: int, h2: int, k: nat, m: int)
    requires m > 0
    ensures Normalize(RehashDouble(h1, h2, k, m), m) == DoubleProbe(h1, h2, k, m)
  {
    NormalizedRemainder(Int32(h1 + k * h2), m);
  }

  /** The first double-hashing probe is the first hash itself. */
  lemma DoubleProbeStart(h1: int, h2: int, m: int)
    requires 0 <= h1 < m <= MaxInt
    ensures DoubleProbe(h1, h2, 0, m) == h1
  {
    Int32Exact(h1);
    ModOfSmall(h1, m);
  }

  /** The total offset after `k` quadratic steps: the sum of `j + j*j` for
      j = 1..k. */
  function QuadraticOffset(k: nat): nat
  {
    if k == 0 then 0 else QuadraticOffset(k - 1) + k + k * k
  }

  /** Closed form of the total offset: k(k+1)(k+2)/3. */
  lemma {:induction false} QuadraticOffsetClosedForm(k: nat)
    ensures 3 * QuadraticOffset(k) == k * (k + 1) * (k + 2)
  {
    if k > 0 {
      QuadraticOffsetClosedForm(k - 1);
      assert (k - 1) * k * (k + 1) + 3 * k + 3 * k * k == k * (k + 1) * (k + 2);
    }
  }

  lemma MulMonotone(a: int, b: int, c: int, d: int)
    requires 0 <= a <= c && 0 <= b <= d
    ensures a * b <= c * d
  {
    assert a * b <= c * b;
    assert c * b <= c * d;
  }

  /** Up to capacity 46339 nothing wraps, and the k-th quadratic probe is
      `(h + k(k+1)(k+2)/3) mod m`, not `(h + k + k*k) mod m`. */
  lemma {:induction false} QuadraticClosedForm(h: int, k: nat, m: int)
    requires 0 <= h < m <= 46339 && k <= m
    ensures QuadraticProbe(h, k, m) == (h + QuadraticOffset(k)) % m
    ensures 3 * QuadraticOffset(k) == k * (k + 1) * (k + 2)
  {
    QuadraticOffsetClosedForm(k);
    if k == 0 {
      ModOfSmall(h, m);
    } else {
      QuadraticClosedForm(h, k - 1, m);
      var prev := QuadraticProbe(h, k - 1, m);
      MulMonotone(k, k, m, m);
      MulMonotone(m, m, 46339, 46339);
      Int32Exact(prev + k + k * k);
      ModOfMod(h + QuadraticOffset(k - 1), m);
      MulModCongruence(prev, h + QuadraticOffset(k - 1), 1, k + k * k, m);
    }
  }

  /** With capacity 10 the quadratic table only ever probes three slots: the
      offsets k(k+1)(k+2)/3 for k = 0..9 are 0, 2 or 8 modulo 10. */
  lemma QuadraticCapacityTen(h: int)
    requires 0 <= h < 10
    ensures forall k :: 0 <= k < 10 ==>
              QuadraticProbe(h, k, 10) in {h, (h + 2) % 10, (h + 8) % 10}
  {
    forall k | 0 <= k < 10
      ensures QuadraticProbe(h, k, 10) in {h, (h + 2) % 10, (h + 8) % 10}
    {
      QuadraticClosedForm(h, k, 10);
      OffsetModTen(k);
      MulModCongruence(QuadraticOffset(k), QuadraticOffset(k) % 10, 1, h, 10);
      ModOfMod(QuadraticOffset(k), 10);
      ModOfSmall(h, 10);
    }
  }

  lemma OffsetModTen(k: nat)
    requires k < 10
    ensures QuadraticOffset(k) % 10 in {0, 2, 8}
  {
    assert QuadraticOffset(0) == 0 && QuadraticOffset(1) == 2 && QuadraticOffset(2) == 8;
    assert QuadraticOffset(3) == 20 && QuadraticOffset(4) == 40 && QuadraticOffset(5) == 70;
    assert QuadraticOffset(6) == 112 && QuadraticOffset(7) == 168 && QuadraticOffset(8) == 240;
    assert QuadraticOffset(9) == 330;
  }

  /** Up to capacity 46340 nothing wraps, and the k-th double-hashing probe is
      `(h1 + k*h2) mod m`. */
  lemma DoubleClosedForm(h1: int, h2: int, k: nat, m: int)
    requires 0 <= h1 < m <= 46340 && 0 <= h2 < m && k <= m
    ensures DoubleProbe(h1, h2, k, m) == (h1 + k * h2) % m
  {
    MulMonotone(k, h2, m, m - 1);
    MulMonotone(m, m - 1, 46340, 46339);
    Int32Exact(h1 + k * h2);
  }
}
