/** Facts about quotients and remainders. */
module Arithmetic {
  lemma DivStep(n: nat, k: nat)
    requires k > 0
    ensures n % k + 1 < k ==> (n + 1) / k == n / k && (n + 1) % k == n % k + 1
    ensures n % k + 1 == k ==> (n + 1) / k == n / k + 1 && (n + 1) % k == 0
  {
    var q, r := n / k, n % k;
    assert n + 1 == k * q + (r + 1);
    if r + 1 < k {
      QuotientIs(n + 1, k, q, r + 1);
    } else {
      assert n + 1 == k * (q + 1) + 0;
      QuotientIs(n + 1, k, q + 1, 0);
    }
  }

  lemma QuotientIs(n: nat, k: nat, q: nat, r: nat)
    requires k > 0 && n == k * q + r && r < k
    ensures n / k == q && n % k == r
  {
    MulSucc(k, q - n / k);
    MulSucc(k, n / k - q);
  }

  lemma MulSucc(k: nat, d: int)
    requires k > 0
    ensures d > 0 ==> k * d >= k
    ensures d <= 0 ==> k * d <= 0
  {
  }

  lemma SmallMod(a: nat, n: nat)
    requires a < n
    ensures a % n == a
  {
    QuotientIs(a, n, 0, a);
  }

  lemma WrapMod(a: nat, n: nat)
    requires 0 < n <= a < 2 * n
    ensures a % n == a - n
  {
    QuotientIs(a, n, 1, a - n);
  }

  lemma AddMultiple(a: nat, q: nat, n: nat)
    requires n > 0
    ensures (a + n * q) % n == a % n
  {
    assert n * (a / n + q) == n * (a / n) + n * q;
    QuotientIs(a + n * q, n, a / n + q, a % n);
  }

  lemma ModShift(a: nat, b: nat, n: nat)
    requires n > 0
    ensures (a % n + b) % n == (a + b) % n
  {
    var q, r := a / n, a % n;
    assert a == n * q + r;
    AddMultiple(r + b, q, n);
    assert (r + b) + n * q == a + b;
  }
}
