/** Natural-number powers and the division facts that positional notation
    rests on. Rust's `u32::pow`, `/` and `%` on unsigned values agree with
    Dafny's on `nat`, as long as nothing overflows. */
module Arith {

  /** `b` raised to `e`, as `K.pow(e)` computes it. */
  function Pow(b: nat, e: nat): (r: nat)
    ensures b >= 1 ==> r >= 1
    ensures b >= 2 && e >= 1 ==> r >= b
  {
    if e == 0 then 1 else b * Pow(b, e - 1)
  }

  lemma MulAssocComm(x: int, y: int, z: int)
    ensures x * (y * z) == y * (x * z)
  {
  }

  /** Powers of a base of at least 1 never shrink as the exponent grows. */
  lemma {:induction false} PowMonotone(b: nat, e1: nat, e2: nat)
    requires b >= 1 && e1 <= e2
    ensures Pow(b, e1) <= Pow(b, e2)
    decreases e2
  {
    if e1 < e2 {
      PowMonotone(b, e1, e2 - 1);
      MulMonotone(b, Pow(b, e2 - 1));
    }
  }

  lemma MulMonotone(b: nat, x: nat)
    requires b >= 1
    ensures x <= b * x
  {
  }

  /** An exponent is always smaller than the power it produces. */
  lemma {:induction false} ExponentBelowPow(b: nat, e: nat)
    requires b >= 2
    ensures e < Pow(b, e)
    decreases e
  {
    if e > 0 {
      ExponentBelowPow(b, e - 1);
      DoubleAtMost(b, Pow(b, e - 1));
    }
  }

  lemma DoubleAtMost(b: nat, x: nat)
    requires b >= 2
    ensures 2 * x <= b * x
  {
    if x > 0 && b > 2 {
      MulLessLeft(2, b, x);
    }
  }

  /** The quotient and remainder of `a` by `d` are the only pair that
      rebuilds `a` with a remainder below `d`. */
  lemma DivModUnique(a: nat, d: nat, q: nat, r: nat)
    requires d > 0 && r < d && a == q * d + r
    ensures a / d == q && a % d == r
  {
    var q', r' := a / d, a % d;
    assert a == q' * d + r';
    if q' < q {
      MulLessLeft(q', q, d);
    } else if q < q' {
      MulLessLeft(q, q', d);
    }
  }

  lemma {:induction false} MulLessLeft(x: nat, y: nat, d: nat)
    requires x < y && d > 0
    ensures x * d + d <= y * d
    decreases y - x
  {
    MulSucc(y - 1, d);
    if x < y - 1 {
      MulLessLeft(x, y - 1, d);
    }
  }

  lemma MulSucc(x: nat, d: nat)
    ensures (x + 1) * d == x * d + d
  {
  }

  /** Dividing by `b * c` is dividing by `b`, then by `c`; the remainder by
      `b * c` keeps the low digit and the next quotient digits. */
  lemma DivDiv(a: nat, b: nat, c: nat)
    requires b > 0 && c > 0
    ensures a / (b * c) == (a / b) / c
    ensures (a % (b * c)) / b == (a / b) % c
    ensures (a % (b * c)) % b == a % b
  {
    var q, r := a / b, a % b;
    var q2, r2 := q / c, q % c;
    RemainderFits(r2, r, b, c);
    Regroup(a, b, c, q, r, q2, r2);
    DivModUnique(a, b * c, q2, r2 * b + r);
    DivModUnique(r2 * b + r, b, r2, r);
  }

  lemma RemainderFits(r2: nat, r: nat, b: nat, c: nat)
    requires r2 < c && r < b
    ensures r2 * b + r < b * c
  {
    MulLessLeft(r2, c, b);
    assert c * b == b * c;
  }

  lemma Regroup(a: nat, b: nat, c: nat, q: nat, r: nat, q2: nat, r2: nat)
    requires a == q * b + r && q == q2 * c + r2
    ensures a == q2 * (b * c) + (r2 * b + r)
  {
    calc {
      q * b;
      (q2 * c + r2) * b;
      q2 * c * b + r2 * b;
      q2 * (b * c) + r2 * b;
    }
  }

  lemma MulLe(x: nat, y: nat, d: nat)
    requires x <= y
    ensures x * d <= y * d
  {
    if x < y && d > 0 {
      MulLessLeft(x, y, d);
    }
  }

  /** `k^(e+1)` is `k` times `k^e`. */
  lemma PowSucc(b: nat, e: nat)
    ensures Pow(b, e + 1) == b * Pow(b, e) == Pow(b, e) * b
  {
  }

  /** A number below `k * p` has a quotient by `p` below `k`. */
  lemma DivBelow(m: nat, p: nat, k: nat)
    requires p > 0 && m < k * p
    ensures m / p < k
  {
    if m / p >= k {
      MulLe(k, m / p, p);
    }
  }

  /** Everything one digit step needs about the quotient and remainder of a
      number below `k * p` by `p`. */
  lemma DivFacts(m: nat, p: nat, k: nat)
    requires p > 0 && m < k * p
    ensures 0 <= m / p < k && 0 <= m % p < p
    ensures m == (m / p) * p + m % p
    ensures m > 0 && m % p == 0 ==> m / p >= 1
  {
    DivBelow(m, p, k);
  }

  /** A number of at least `p` has a nonzero quotient by `p`. */
  lemma DivAtLeastOne(m: nat, p: nat)
    requires p > 0 && p <= m
    ensures m / p >= 1
  {
  }

  /** Euclidean division of `n` by a positive `k`. */
  lemma DivMod(n: nat, k: nat)
    requires k > 0
    ensures n == k * (n / k) + n % k && n % k < k
  {
  }

  /** Dividing by at least 2 makes a positive number smaller. */
  lemma DivShrinks(n: nat, k: nat)
    requires 2 <= k && 1 <= n
    ensures 0 <= n / k < n
  {
    DivMod(n, k);
  }
}
