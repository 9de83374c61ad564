/** Integer facts the incidence-matrix proofs rest on: Euclidean division by a
    positive modulus, congruences, finite sums over an index range, and
    inverses modulo a prime (from the extended Euclidean algorithm). */
module Modular {

  /** The only multiple of `r` strictly between `-r` and `r` is zero. */
  lemma MultipleInOpenInterval(r: int, t: int)
    requires r > 0 && -r < r * t < r
    ensures t == 0
  {
    assert t >= 1 ==> r * t == r + r * (t - 1) >= r;
    assert t <= -1 ==> r * t == -r + r * (t + 1) <= -r;
  }

  /** Multiplying by a non-negative factor keeps the order. */
  lemma MulMono(r: int, a: int, b: int)
    requires r >= 0 && a <= b
    ensures r * a <= r * b
  {
    assert r * b == r * a + r * (b - a);
  }

  /** Quotient and remainder of `r * q + p` for a digit `0 <= p < r`: this is
      how a cell index splits back into its grid coordinates. */
  lemma DivModOfCell(r: int, q: int, p: int)
    requires 0 <= p < r
    ensures (r * q + p) / r == q && (r * q + p) % r == p
  {
    var a := r * q + p;
    var t := q - a / r;
    assert a == r * (a / r) + a % r;
    assert r * t == a % r - p;
    MultipleInOpenInterval(r, t);
  }

  /** Adding a multiple of `r` does not change the remainder. */
  lemma ModShift(r: int, b: int, t: int)
    requires r > 0
    ensures (b + r * t) % r == b % r
  {
    assert b + r * t == r * (b / r + t) + b % r;
    DivModOfCell(r, b / r + t, b % r);
  }

  /** Equal remainders means the difference is a multiple of `r`. */
  lemma ModEqDiff(r: int, a: int, b: int)
    requires r > 0 && a % r == b % r
    ensures a == b + r * (a / r - b / r)
  {
  }

  /** Congruence is preserved by adding the same amount. */
  lemma ModAdd(r: int, a: int, b: int, c: int)
    requires r > 0 && a % r == b % r
    ensures (a + c) % r == (b + c) % r
  {
    ModEqDiff(r, a, b);
    assert a + c == (b + c) + r * (a / r - b / r);
    ModShift(r, b + c, a / r - b / r);
  }

  /** Congruence is preserved by multiplying by the same amount. */
  lemma ModMul(r: int, a: int, b: int, c: int)
    requires r > 0 && a % r == b % r
    ensures (a * c) % r == (b * c) % r
  {
    var t := a / r - b / r;
    ModEqDiff(r, a, b);
    assert a * c == (b + r * t) * c == b * c + r * (t * c);
    ModShift(r, b * c, t * c);
  }

  /** Congruence is compatible with subtraction. */
  lemma ModSub(r: int, a: int, b: int)
    requires r > 0
    ensures (a % r - b % r) % r == (a - b) % r
  {
    ModOfSum(r, a, -(b % r));
    assert a - b % r == (a - b) + r * (b / r);
    ModShift(r, a - b, b / r);
  }

  /** Subtracting two numbers subtracts their remainders. */
  lemma CongSub(r: int, a1: int, a2: int, p1: int, p2: int)
    requires r > 0 && p1 == a1 % r && p2 == a2 % r
    ensures (a1 - a2) % r == (p1 - p2) % r
  {
    ModSub(r, a1, a2);
  }

  /** If a1 - a2 == p1 - p2 and a1 + n == p1 (mod r), then a2 + n == p2 (mod r). */
  lemma CongShift(r: int, a1: int, a2: int, n: int, p1: int, p2: int)
    requires r > 0 && 0 <= p1 < r && 0 <= p2 < r
    requires (a1 - a2) % r == (p1 - p2) % r && (a1 + n) % r == p1
    ensures (a2 + n) % r == p2
  {
    var x, y := a1 + n, a1 - a2;
    assert a2 + n == x - y;
    ModSub(r, x, y);
    ModSub(r, p1, p1 - p2);
    ModOfDigit(r, p1);
    assert p1 - (p1 - p2) == p2;
    ModOfDigit(r, p2);
  }

  /** The offset n with (a + n) mod r == p is unique among digits. */
  lemma CancelAdd(r: int, a: int, n: int, n': int)
    requires 0 <= n < r && 0 <= n' < r && (a + n) % r == (a + n') % r
    ensures n == n'
  {
    ModAdd(r, a + n, a + n', -a);
    assert a + n + -a == n && a + n' + -a == n';
    DigitsCongruent(r, n, n');
  }

  /** The digit n with (a + n) mod r == p. */
  lemma SolveOffset(r: int, a: int, p: int) returns (n: int)
    requires 0 <= p < r
    ensures 0 <= n < r && (a + n) % r == p
  {
    n := (p - a) % r;
    ModOfSum(r, p - a, a);
    assert p - a + a == p;
    ModOfDigit(r, p);
  }

  /** Modulo a prime, k * d == e has a digit solution k when d is not a
      multiple of r; it is non-zero when e is not a multiple of r. */
  lemma SolveSlope(r: int, d: int, e: int) returns (k: int)
    requires Prime(r) && d % r != 0
    ensures 0 <= k < r && (k * d) % r == e % r
    ensures e % r != 0 ==> k != 0
  {
    var u := InverseModPrime(r, d);
    var eu := e * u;
    k := eu % r;
    ModOfDigit(r, k);
    InverseCancels(r, k, e, u, d);
    assert k == 0 ==> k * d == 0;
  }

  /** If k == e * u and d * u == 1 (mod r), then k * d == e (mod r). */
  lemma InverseCancels(r: int, k: int, e: int, u: int, d: int)
    requires r > 0 && k % r == (e * u) % r && (d * u) % r == 1
    ensures (k * d) % r == e % r
  {
    var du := d * u;
    calc {
      (k * d) % r;
      { ModMul(r, k, e * u, d); }
      (e * u * d) % r;
      { assert e * u * d == du * e; }
      (du * e) % r;
      { ModMul(r, du, 1, e); }
      (1 * e) % r;
    }
  }

  /** Two digits with the same remainder are equal. */
  lemma DigitsCongruent(r: int, x: int, y: int)
    requires 0 <= x < r && 0 <= y < r && x % r == y % r
    ensures x == y
  {
    ModOfDigit(r, x);
    ModOfDigit(r, y);
  }

  /** Two digits whose difference is a multiple of `r` are equal. */
  lemma DigitsDiff(r: int, x: int, y: int)
    requires 0 <= x < r && 0 <= y < r && (x - y) % r == 0
    ensures x == y
  {
    assert x - y == r * ((x - y) / r);
    MultipleInOpenInterval(r, (x - y) / r);
  }

  /** Reducing a summand first does not change the remainder of the sum. */
  lemma ModOfSum(r: int, a: int, c: int)
    requires r > 0
    ensures (a % r + c) % r == (a + c) % r
  {
    ModAdd(r, a % r, a, c);
  }

  /** A value that is already a digit is its own remainder. */
  lemma ModOfDigit(r: int, a: int)
    requires 0 <= a < r
    ensures a % r == a
  {
    DivModOfCell(r, 0, a);
  }

  /** `f(lo) + ... + f(hi - 1)`, zero for an empty range. */
  function SumOver(lo: nat, hi: nat, f: nat -> int): int
    decreases hi - lo
  {
    if hi <= lo then 0 else SumOver(lo, hi - 1, f) + f(hi - 1)
  }

  lemma {:induction false} SumOverSplit(lo: nat, mid: nat, hi: nat, f: nat -> int)
    requires lo <= mid <= hi
    ensures SumOver(lo, hi, f) == SumOver(lo, mid, f) + SumOver(mid, hi, f)
    decreases hi - mid
  {
    if mid < hi {
      SumOverSplit(lo, mid, hi - 1, f);
    }
  }

  lemma {:induction false} SumOverZero(lo: nat, hi: nat, f: nat -> int)
    requires forall j :: lo <= j < hi ==> f(j) == 0
    ensures SumOver(lo, hi, f) == 0
    decreases hi - lo
  {
    if lo < hi {
      SumOverZero(lo, hi - 1, f);
    }
  }

  lemma {:induction false} SumOverOnes(lo: nat, hi: nat, f: nat -> int)
    requires lo <= hi
    requires forall j :: lo <= j < hi ==> f(j) == 1
    ensures SumOver(lo, hi, f) == hi - lo
    decreases hi - lo
  {
    if lo < hi {
      SumOverOnes(lo, hi - 1, f);
    }
  }

  /** A 0/1 sum over a range that is 1 at exactly one index `t` is 1. */
  lemma SumOverExactlyOne(lo: nat, hi: nat, f: nat -> int, t: nat)
    requires lo <= t < hi && f(t) == 1
    requires forall j :: lo <= j < hi && j != t ==> f(j) == 0
    ensures SumOver(lo, hi, f) == 1
  {
    SumOverSplit(lo, t + 1, hi, f);
    SumOverZero(lo, t, f);
    SumOverZero(t + 1, hi, f);
  }

  /** A range cut into `q` blocks of width `w`, each summing to `v`, sums to `v * q`. */
  lemma {:induction false} SumOverBlocks(lo: nat, w: nat, q: nat, v: int, f: nat -> int)
    requires forall o :: 0 <= o < q ==> SumOver(lo + w * o, lo + w * o + w, f) == v
    ensures SumOver(lo, lo + w * q, f) == v * q
  {
    if q > 0 {
      SumOverBlocks(lo, w, q - 1, v, f);
      assert lo + w * q == lo + w * (q - 1) + w;
      SumOverSplit(lo, lo + w * (q - 1), lo + w * q, f);
    }
  }

  /** Primality as trial division. */
  predicate Prime(r: int) {
    r >= 2 && forall d :: 2 <= d < r ==> r % d != 0
  }

  /** One step of Euclid's algorithm: from `a == q * b + m` and the Bezout
      identity for (b, m), the Bezout identity for (a, b). */
  lemma EuclidStep(a: int, b: int, q: int, m: int, g: int, x: int, y: int, ca: int, cb: int)
    requires a == q * b + m
    requires b * x + m * y == g && b == g * ca && m == g * cb
    ensures a * y + b * (x - q * y) == g && a == g * (q * ca + cb)
  {
    assert a * y + b * (x - q * y) == b * x + m * y;
    assert a == q * (g * ca) + g * cb == g * (q * ca + cb);
  }

  /** Extended Euclidean algorithm: `(g, x, y, ca, cb)` with `a * x + b * y == g`
      and `g` dividing both inputs (`a == g * ca`, `b == g * cb`). */
  function ExtGcd(a: nat, b: nat): (res: (nat, int, int, int, int))
    ensures a * res.1 + b * res.2 == res.0
    ensures a == res.0 * res.3 && b == res.0 * res.4
    decreases b
  {
    if b == 0 then (a, 1, 0, 1, 0)
    else
      var (g, x, y, ca, cb) := ExtGcd(b, a % b);
      EuclidStep(a, b, a / b, a % b, g, x, y, ca, cb);
      (g, y, x - (a / b) * y, (a / b) * ca + cb, ca)
  }

  /** Modulo a prime, every residue other than zero has an inverse. */
  lemma InverseModPrime(r: int, d: int) returns (u: int)
    requires Prime(r) && d % r != 0
    ensures (d * u) % r == 1
  {
    var d' := d % r;
    var (g, x, y, ca, cb) := ExtGcd(r, d');
    assert g > 0;
    // g divides r, so primality leaves g == 1 or g >= r
    DivModOfCell(g, ca, 0);
    assert r % g == 0;
    assert ca <= 0 ==> g * ca <= 0;
    assert g * ca == g + g * (ca - 1);
    assert g <= r;
    // g == r would make the nonzero digit d' a multiple of r
    assert d' == r * cb ==> r * cb < r && -r < r * cb;
    assert g == 1 by {
      if g == r {
        MultipleInOpenInterval(r, cb);
      }
    }
    assert d' * y == 1 + r * (-x);
    ModShift(r, 1, -x);
    ModOfDigit(r, 1);
    assert d' % r == d % r by { ModOfDigit(r, d'); }
    ModMul(r, d', d, y);
    u := y;
  }

  lemma MulAssoc(a: int, b: int, c: int)
    ensures a * b * c == (b * c) * a
  {
  }

  /** Cancellation modulo a prime: a factor that is not a multiple of `r`
      may be divided out of a congruence. */
  lemma CancelModPrime(r: int, k: int, k': int, d: int)
    requires Prime(r) && d % r != 0
    requires (k * d) % r == (k' * d) % r
    ensures k % r == k' % r
  {
    var u := InverseModPrime(r, d);
    var e := d * u;
    ModMul(r, k * d, k' * d, u);
    MulAssoc(k, d, u);
    MulAssoc(k', d, u);
    ModMul(r, e, 1, k);
    ModMul(r, e, 1, k');
  }
}
