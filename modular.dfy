/** Facts about Euclidean `%` that the turn rotation `(index + 1) % count` relies on. */
module Modular {
  lemma MulAtLeastOnce(a: int, n: int)
    requires a >= 1 && n > 0
    ensures a * n >= n
  {
  }

  lemma MulStrict(a: int, b: int, n: int)
    requires a < b && n > 0
    ensures a * n + n <= b * n
  {
    MulAtLeastOnce(b - a, n);
    assert (b - a) * n == b * n - a * n;
  }

  /** The remainder is the only `r` in `[0, n)` that writes `x` as a multiple of `n` plus `r`. */
  lemma ModUnique(x: int, n: int, q: int, r: int)
    requires n > 0 && 0 <= r < n && x == q * n + r
    ensures x % n == r
  {
    var q0 := x / n;
    if q0 < q {
      MulStrict(q0, q, n);
      assert false;
    } else if q < q0 {
      MulStrict(q, q0, n);
      assert false;
    }
  }

  lemma ModSuccessor(x: nat, n: nat)
    requires n > 0
    ensures (x % n + 1) % n == (x + 1) % n
  {
    var q, r := x / n, x % n;
    if r + 1 < n {
      ModUnique(x + 1, n, q, r + 1);
      ModUnique(r + 1, n, 0, r + 1);
    } else {
      assert (q + 1) * n == q * n + n;
      ModUnique(x + 1, n, q + 1, 0);
      ModUnique(r + 1, n, 1, 0);
    }
  }

  /** Taking `k` single steps round a ring of `n` is the same as one step of `k`. */
  lemma {:induction false} ModSum(a: nat, k: nat, n: nat)
    requires n > 0
    ensures (a % n + k) % n == (a + k) % n
  {
    if k == 0 {
      ModUnique(a % n, n, 0, a % n);
    } else {
      ModSum(a, k - 1, n);
      ModSuccessor(a % n + (k - 1), n);
      ModSuccessor(a + (k - 1), n);
    }
  }
}
