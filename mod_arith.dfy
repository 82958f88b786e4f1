/** Small facts about Dafny's Euclidean `%` and `/` that the rotation proofs rely on. */
module ModArith {

  lemma MulAtLeast(a: int, n: int)
    requires a >= 1 && n > 0
    ensures a * n >= n
  {
  }

  /** Quotient and remainder are unique: any decomposition `x == q * n + r` with
      `0 <= r < n` is the one `/` and `%` produce. */
  lemma ModUnique(x: int, n: int, q: int, r: int)
    requires n > 0 && 0 <= r < n && x == q * n + r
    ensures x % n == r && x / n == q
  {
    var q', r' := x / n, x % n;
    assert (q - q') * n == r' - r by {
      assert x == q' * n + r';
      assert q * n - q' * n == (q - q') * n;
    }
    if q' < q {
      MulAtLeast(q - q', n);
    } else if q < q' {
      MulAtLeast(q' - q, n);
    }
  }

  lemma ModAddMultiple(x: int, q: int, n: int)
    requires n > 0
    ensures (x + q * n) % n == x % n
  {
    ModUnique(x + q * n, n, x / n + q, x % n);
  }

  lemma ModAddMod(x: int, y: int, n: int)
    requires n > 0
    ensures (x + y % n) % n == (x + y) % n
  {
    ModAddMultiple(x + y % n, y / n, n);
  }

  lemma ModInRange(x: int, n: int)
    requires n > 0
    ensures 0 <= x % n < n
  {
  }

  lemma ModOfSmall(x: int, n: int)
    requires 0 <= x < n
    ensures x % n == x
  {
    ModUnique(x, n, 0, x);
  }

  lemma ModOfOneTurn(x: int, n: int)
    requires n <= x < 2 * n
    ensures x % n == x - n
  {
    ModUnique(x, n, 1, x - n);
  }

  /** Reducing after each of two additions is reducing once after both. */
  lemma ModAddTwice(j: int, a: int, b: int, n: int)
    requires n > 0
    ensures ((j + b) % n + a) % n == (j + (a + b)) % n
  {
    ModAddMod(a, j + b, n);
    assert a + (j + b) == j + (a + b);
  }
}
