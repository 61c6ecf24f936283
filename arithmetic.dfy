/** Facts of integer arithmetic that the carousels' index and pixel computations rely on. */
module Arithmetic {

  /** Multiplying by a positive factor keeps the order. */
  lemma MulMono(a: int, b: int, w: int)
    requires w > 0 && a <= b
    ensures w * a <= w * b
  {
    assert w * b - w * a == w * (b - a);
  }

  /** The remainder is determined by any decomposition a = n * q + m with 0 <= m < n. */
  lemma ModUnique(a: int, n: int, q: int, m: int)
    requires n > 0 && a == n * q + m && 0 <= m < n
    ensures a % n == m
  {
    var q', m' := a / n, a % n;
    assert a == n * q' + m' && 0 <= m' < n;
    if q' > q {
      MulMono(q + 1, q', n);
      assert false;
    } else if q' < q {
      MulMono(q' + 1, q, n);
      assert false;
    }
  }

  /** Adding the modulus does not change the remainder. */
  lemma ModShift(a: int, n: int)
    requires n > 0
    ensures (a + n) % n == a % n
  {
    var q, m := a / n, a % n;
    assert a == n * q + m;
    assert a + n == n * (q + 1) + m;
    ModUnique(a + n, n, q + 1, m);
  }

  /** Adding one to a number adds one to its remainder, or wraps it to 0 after n - 1. */
  lemma ModSucc(a: int, n: int)
    requires n > 0
    ensures a % n == n - 1 ==> (a + 1) % n == 0
    ensures a % n < n - 1 ==> (a + 1) % n == a % n + 1
  {
    var q, m := a / n, a % n;
    assert a == n * q + m;
    if m == n - 1 {
      assert a + 1 == n * (q + 1) + 0;
      ModUnique(a + 1, n, q + 1, 0);
    } else {
      ModUnique(a + 1, n, q, m + 1);
    }
  }

  /** Dividing by a positive real: a / b lies below c exactly when a lies below c * b. */
  lemma DivBelow(a: real, b: real, c: real)
    requires b > 0.0
    ensures a / b < c <==> a < c * b
  {
    var q := a / b;
    assert q * b == a;
    assert c * b - q * b == (c - q) * b;
  }

  /** Dividing by a positive real: a / b is at most c exactly when a is at most c * b. */
  lemma DivAtMost(a: real, b: real, c: real)
    requires b > 0.0
    ensures a / b <= c <==> a <= c * b
  {
    var q := a / b;
    assert q * b == a;
    assert c * b - q * b == (c - q) * b;
  }
}
