/** Division and remainder by a variable, one nonlinear step at a time. */
module Arithmetic {
  lemma Multiple(d: int, n: nat)
    ensures d >= 1 ==> d * n >= n
    ensures d <= -1 ==> d * n + n <= 0
  {
    if d >= 1 {
      assert d * n == n + (d - 1) * n;
    } else if d <= -1 {
      assert d * n == (d + 1) * n - n;
    }
  }

  lemma ModUnique(k: nat, n: nat, q: int, r: nat)
    requires n > 0 && k == q * n + r && r < n
    ensures k % n == r
  {
    var p := k / n;
    assert k == p * n + k % n;
    assert (q - p) * n == k % n - r;
    Multiple(q - p, n);
  }

  lemma ModNext(k: nat, n: nat)
    requires n > 0
    ensures (k % n + 1) % n == (k + 1) % n
  {
    var q, r := k / n, k % n;
    assert k == q * n + r;
    if r + 1 < n {
      ModUnique(k + 1, n, q, r + 1);
    } else {
      assert (q + 1) * n == q * n + n;
      ModUnique(k + 1, n, q + 1, 0);
    }
  }

  /** Fewer than `n` apart, two positions share a slot only if they are equal. */
  lemma ModDistinct(i: nat, j: nat, n: nat)
    requires n > 0 && i < j < i + n
    ensures i % n != j % n
  {
    var d := j / n - i / n;
    assert i == (i / n) * n + i % n && j == (j / n) * n + j % n;
    assert d * n == (j - i) + (i % n - j % n);
    Multiple(d, n);
  }

  lemma ModWraps(i: nat, n: nat)
    requires n > 0
    ensures (i + n) % n == i % n
  {
    assert i == (i / n) * n + i % n;
    assert (i / n + 1) * n == (i / n) * n + n;
    ModUnique(i + n, n, i / n + 1, i % n);
  }

  lemma DivideOnce(k: nat, n: nat)
    requires 0 < n <= k
    ensures k / n == (k - n) / n + 1 && k % n == (k - n) % n
  {
    ModWraps(k - n, n);
    assert k == k / n * n + k % n;
    assert k - n == (k - n) / n * n + (k - n) % n;
    var d := k / n - ((k - n) / n + 1);
    assert d * n == k / n * n - (k - n) / n * n - n;
    Multiple(d, n);
  }
}
