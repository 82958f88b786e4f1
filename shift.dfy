/** Normalisation of a signed rotation amount: C's remainder operator, the
    never-negative `modulo` built on it, and `get_shift`. */
module ShiftNormalizer {
  import opened ModArith

  /** C's `%` for a positive divisor: it truncates toward zero, so the remainder
      takes the sign of the dividend (`-1 % 10 == -1`). For a non-negative dividend it
      agrees with the mathematical remainder; for a negative one it is that remainder
      minus `m`, unless the remainder is 0. */
  function CRem(n: int, m: int): (r: int)
    requires m > 0
    ensures n >= 0 ==> r == n % m
    ensures n < 0 ==> r == (if n % m == 0 then 0 else n % m - m)
  {
    if n >= 0 then n % m
    else
      var r := -((-n) % m);
      assert r == (if n % m == 0 then 0 else n % m - m) by {
        var q := (-n) / m;
        if (-n) % m == 0 {
          ModUnique(n, m, -q, 0);
        } else {
          ModUnique(n, m, -q - 1, m - (-n) % m);
        }
      }
      r
  }

  /** `modulo`: `((n % m) + m) % m` with C's remainder; the result is the
      mathematical remainder, never negative. */
  function Modulo(n: int, m: int): (r: nat)
    requires m > 0
    ensures r < m
    ensures r == n % m
  {
    var t := CRem(n, m) + m;
    assert 0 <= t < 2 * m;
    assert CRem(t, m) == n % m by {
      if t < m {
        ModOfSmall(t, m);
      } else {
        ModOfOneTurn(t, m);
      }
    }
    CRem(t, m)
  }

  /** `get_shift`: the rotation amount reduced into `[0, len)`. The `result < 0`
      branch of the source can never be taken, since `modulo` never returns a
      negative number. */
  function GetShift(len: nat, amount: int): (s: int)
    requires len > 0
    ensures 0 <= s < len
    ensures s == amount % len
  {
    var result: int := Modulo(amount, len);
    if result < 0 then result + len else result
  }
}
