/** Division facts the other modules share, by uniqueness of quotient and remainder. */
module Arithmetic {

  lemma {:induction false} MulLess(q: nat, k: nat, d: nat)
    ensures q < k ==> q * d + d <= k * d
    ensures q <= k ==> q * d <= k * d
    decreases k
  {
    if q < k {
      assert k * d == (k - 1) * d + d;
      MulLess(q, k - 1, d);
    }
  }

  lemma DivisionUnique(n: nat, q: nat, r: nat, q': nat, r': nat)
    requires r < n && r' < n && q * n + r == q' * n + r'
    ensures q == q' && r == r'
  {
    MulLess(q, q', n);
    MulLess(q', q, n);
  }

  lemma QuotientRemainder(n: nat, q: nat, r: nat)
    requires r < n
    ensures (q * n + r) / n == q && (q * n + r) % n == r
  {
    var x := q * n + r;
    assert x == x / n * n + x % n;
    DivisionUnique(n, x / n, x % n, q, r);
  }

  /** Reduction modulo a multiple first makes no difference. */
  lemma ModMod(x: nat, t: nat, m: nat)
    requires m > 0 && t > 0
    ensures t * m > 0 && x % (t * m) % m == x % m
  {
    MulLess(0, t, m);
    var a, b := x / (t * m), x % (t * m);
    Division(x, t * m);
    Division(b, m);
    SameRemainder(x, t, m, a, b / m, b % m);
  }

  lemma SameRemainder(x: nat, t: nat, m: nat, a: nat, q: nat, r: nat)
    requires r < m && x == a * (t * m) + (q * m + r)
    ensures x % m == r
  {
    Regroup(a, q, t, m);
    QuotientRemainder(m, a * t + q, r);
  }

  /** Appending a digit v in base s. */
  lemma ModPush(x: nat, m: nat, s: nat, v: nat)
    requires m > 0 && v < s
    ensures m * s > 0 && (x * s + v) % (m * s) == x % m * s + v
  {
    MulLess(0, m, s);
    var a, b := x / m, x % m;
    assert x == a * m + b;
    MulLess(b, m, s);
    assert x * s + v == a * (m * s) + (b * s + v);
    QuotientRemainder(m * s, a, b * s + v);
  }

  /** Reading the digit in base s that stands above the last k. */
  lemma ModPop(x: nat, k: nat, s: nat)
    requires k > 0 && s > 0
    ensures k * s > 0 && x / k % s == x % (k * s) / k && x % (k * s) % k == x % k
  {
    var y, r := x / k, x % k;
    var a, q := y / s, y % s;
    Below(q, r, k, s);
    TwoDigits(x, k, s, a, q, r);
    QuotientRemainder(k * s, a, q * k + r);
    QuotientRemainder(k, q, r);
  }

  lemma Below(q: nat, r: nat, k: nat, s: nat)
    requires q < s && r < k
    ensures q * k + r < k * s
  {
    MulLess(q, s, k);
  }

  lemma TwoDigits(x: nat, k: nat, s: nat, a: nat, q: nat, r: nat)
    requires k > 0 && s > 0
    requires a == x / k / s && q == x / k % s && r == x % k
    ensures x == a * (k * s) + (q * k + r)
  {
    var y := x / k;
    Division(x, k);
    Division(y, s);
    Regroup(a, q, s, k);
  }

  lemma Division(x: nat, n: nat)
    requires n > 0
    ensures x == x / n * n + x % n
  {
  }

  lemma Regroup(a: nat, q: nat, s: nat, k: nat)
    ensures (a * s + q) * k == a * (k * s) + q * k && s * k == k * s
  {
    assert (a * s + q) * k == a * s * k + q * k;
    assert a * s * k == a * (s * k);
  }
}
