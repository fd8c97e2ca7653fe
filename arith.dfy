/** Facts about Euclidean division used by the round-robin deal and the cyclic turn search. */
module Arith {

  lemma MulSign(x: int, n: int)
    requires n > 0
    ensures x >= 1 ==> x * n >= n
    ensures x <= -1 ==> x * n <= -n
  {
  }

  /** Division and remainder are determined by any decomposition a == q * n + m with 0 <= m < n. */
  lemma DivModUnique(a: int, n: int, q: int, m: int)
    requires n > 0 && 0 <= m < n && a == q * n + m
    ensures a / n == q && a % n == m
  {
    var q', m' := a / n, a % n;
    assert a == q' * n + m';
    assert (q - q') * n == m' - m;
    MulSign(q - q', n);
  }

  /** Stepping an index of [0, n) forward by one, modulo n. */
  lemma ModSucc(x: int, n: int)
    requires 0 <= x < n
    ensures (x + 1) % n == if x + 1 < n then x + 1 else 0
  {
    if x + 1 < n {
      DivModUnique(x + 1, n, 0, x + 1);
    } else {
      DivModUnique(x + 1, n, 1, 0);
    }
  }

  /** Writing i - 1 in the same form as i == q * n + m, for 0 <= m < n and q >= 0. */
  lemma DecompPrev(i: int, n: int, q: int, m: int)
    requires n > 0 && 0 <= m < n && q >= 0 && i == q * n + m
    ensures i == 0 ==> q == 0 && m == 0
    ensures i > 0 && m > 0 ==> (i - 1) % n == m - 1 && i - 1 == q * n + (m - 1)
    ensures i > 0 && m == 0 ==> q >= 1 && (i - 1) % n == n - 1 && i - 1 == (q - 1) * n + (n - 1)
  {
    MulSign(q, n);
    if i > 0 && m > 0 {
      DivModUnique(i - 1, n, q, m - 1);
    } else if i > 0 && m == 0 {
      assert i - 1 == (q - 1) * n + (n - 1);
      DivModUnique(i - 1, n, q - 1, n - 1);
    }
  }

  /** Euclidean division writes every a >= 0 as (a / n) * n + a % n. */
  lemma DividesAs(a: int, n: int)
    requires n > 0
    ensures a == (a / n) * n + a % n && 0 <= a % n < n
  {
  }
}
