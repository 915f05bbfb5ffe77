/** Facts about multiplication, Euclidean division and remainder used by the
    buffer-layout and cursor proofs. */
module Arith {

  lemma MulLe(a: int, b: int, c: int)
    requires a <= b && 0 <= c
    ensures a * c <= b * c
  {
  }

  /** Block `i` of `n` blocks of width `w` ends inside the first `n - 1`
      blocks unless it is the last one. */
  lemma BlockBounds(i: int, n: int, w: int)
    requires 0 <= i < n && 0 <= w
    ensures (i + 1) * w == i * w + w && n * w == (n - 1) * w + w
    ensures (i + 1) * w <= n * w
    ensures i < n - 1 ==> (i + 1) * w <= (n - 1) * w
  {
    MulLe(i + 1, n, w);
    if i < n - 1 {
      MulLe(i + 1, n - 1, w);
    }
  }

  /** A product of non-negative factors is non-negative, and positive exactly
      when both factors are. */
  lemma MulPositive(a: int, b: int)
    requires 0 <= a && 0 <= b
    ensures 0 <= a * b
    ensures a * b > 0 <==> a > 0 && b > 0
  {
    MulLe(0, a, b);
    if a > 0 && b > 0 {
      MulLe(1, a, b);
    }
  }

  /** Division and remainder are determined by any decomposition `x == q * n + r`
      with `0 <= r < n`. */
  lemma DivModUnique(x: int, n: int, q: int, r: int)
    requires 0 < n && x == q * n + r && 0 <= r < n
    ensures x % n == r && x / n == q
  {
    var q', r' := x / n, x % n;
    assert x == q' * n + r';
    if q' < q {
      assert (q' + 1) * n == q' * n + n;
      MulLe(q' + 1, q, n);
      assert false;
    } else if q < q' {
      assert (q + 1) * n == q * n + n;
      MulLe(q + 1, q', n);
      assert false;
    }
  }

  /** Adding less than what separates `a % n` from `n` does not wrap. */
  lemma ModAddSmall(a: int, j: int, n: int)
    requires 0 < n && 0 <= j && a % n + j < n
    ensures (a + j) % n == a % n + j
  {
    assert a == (a / n) * n + a % n;
    DivModUnique(a + j, n, a / n, a % n + j);
  }

  /** Reducing the left summand first does not change the remainder. */
  lemma ModAddMod(a: int, b: int, n: int)
    requires 0 < n
    ensures (a % n + b) % n == (a + b) % n
  {
    var s := a % n + b;
    assert a == (a / n) * n + a % n;
    assert s == (s / n) * n + s % n;
    assert a + b == (a / n + s / n) * n + s % n;
    DivModUnique(a + b, n, a / n + s / n, s % n);
  }

  /** Whole multiples of the modulus vanish. */
  lemma ModMultiple(k: int, x: int, n: int)
    requires 0 < n
    ensures (k * n + x) % n == x % n
  {
    assert x == (x / n) * n + x % n;
    assert k * n + x == (k + x / n) * n + x % n;
    DivModUnique(k * n + x, n, k + x / n, x % n);
  }

  /** A remainder modulo a multiple of `n` keeps the remainder modulo `n`. */
  lemma ModMod(x: int, m: int, n: int)
    requires 0 < n && 0 < m
    ensures 0 < m * n
    ensures (x % (m * n)) % n == x % n
  {
    MulLe(1, m, n);
    var r := x % (m * n);
    assert x == (x / (m * n)) * (m * n) + r;
    assert r == (r / n) * n + r % n;
    assert x == ((x / (m * n)) * m + r / n) * n + r % n;
    DivModUnique(x, n, (x / (m * n)) * m + r / n, r % n);
  }
}
