/** Optional values, powers of two, and remainders. */
module Numbers {

  datatype Option<T> = None | Some(value: T)

  predicate PowerOfTwo(n: nat) {
    n == 1 || (n > 1 && n % 2 == 0 && PowerOfTwo(n / 2))
  }

  ghost predicate Aligned(x: nat, a: nat) {
    a > 0 && x % a == 0
  }

  lemma FarMultiple(a: nat, d: int)
    ensures d >= 1 ==> a * d >= a
    ensures d <= -1 ==> a * d + a <= 0
  {
  }

  lemma MultipleOf(q: nat, a: nat)
    requires a > 0
    ensures a * q % a == 0
  {
    var r := a * q % a;
    var p := a * q / a;
    assert a * q == a * p + r;
    assert a * (q - p) == r;
    FarMultiple(a, q - p);
  }

  /** Numbers less than `n` apart have different remainders. */
  lemma CloseRemainders(a: nat, b: nat, n: nat)
    requires a < b < a + n
    ensures a % n != b % n
  {
    assert a == n * (a / n) + a % n && b == n * (b / n) + b % n;
    FarMultiple(n, b / n - a / n);
    assert n * (b / n - a / n) == n * (b / n) - n * (a / n);
  }

  lemma {:induction false} PowerDivides(n: nat, m: nat)
    requires PowerOfTwo(n) && PowerOfTwo(m) && n <= m
    ensures m % n == 0
    decreases m
  {
    if n < m {
      HalfPower(n, m);
      PowerDivides(n, m / 2);
      var q := m / 2 / n;
      assert m / 2 == n * q;
      assert m == n * (2 * q);
      MultipleOf(2 * q, n);
    } else {
      MultipleOf(1, n);
    }
  }

  lemma {:induction false} HalfPower(n: nat, m: nat)
    requires PowerOfTwo(n) && PowerOfTwo(m) && n < m
    ensures m > 1 && n <= m / 2
  {
    if n > 1 && m > 1 { HalfPower(n / 2, m / 2); }
  }

  /** Reducing modulo a multiple of `n` first does not change the remainder modulo `n`. */
  lemma ModMod(x: nat, n: nat, m: nat)
    requires n > 0 && m > 0 && m % n == 0
    ensures x % m % n == x % n
  {
    assert x == m * (x / m) + x % m && m == n * (m / n);
    MultipleAdds(x % m, x / m, m / n, n);
  }

  lemma MultipleAdds(y: nat, q: nat, c: nat, n: nat)
    requires n > 0
    ensures (n * c * q + y) % n == y % n
  {
    AddMultiple(y, c * q, n);
    assert n * c * q == n * (c * q);
  }

  lemma Below(r: nat, n: nat)
    requires r < n
    ensures r % n == r
  {
  }

  lemma AddMultiple(y: nat, q: nat, n: nat)
    requires n > 0
    ensures (n * q + y) % n == y % n
  {
    var x := n * q + y;
    assert x == n * (x / n) + x % n && y == n * (y / n) + y % n;
    var d := x / n - q - y / n;
    assert n * d == y % n - x % n;
    FarMultiple(n, d);
  }
}
