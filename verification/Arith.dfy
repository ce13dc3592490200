/** Arithmetic shared by the other modules. */
module Arith {

  function Min(a: int, b: int): int { if a <= b then a else b }

  function Pow2(e: nat): (p: nat)
    ensures p > 0
  {
    if e == 0 then 1 else 2 * Pow2(e - 1)
  }

  lemma Pow2Next(e: nat)
    ensures Pow2(e + 1) == 2 * Pow2(e)
  {
  }

  lemma {:induction false} Pow2Monotone(d: nat, e: nat)
    requires d <= e
    ensures Pow2(d) <= Pow2(e)
    decreases e
  {
    if d < e { Pow2Monotone(d, e - 1); }
  }

  lemma Distribute(a: int, b: int)
    ensures a * (b + 1) == a * b + a
  {
  }

  lemma Commutes(a: int, b: int)
    ensures a * b == b * a
  {
  }

  lemma Multiples(n: int, d: int)
    requires n > 0
    ensures d > 0 ==> n * d >= n
    ensures d < 0 ==> n * d <= -n
  {
  }

  lemma RemainderIs(h: nat, n: nat, q: nat, r: nat)
    requires n > 0 && r < n && h == n * q + r
    ensures h % n == r && h / n == q
  {
    var q', r' := h / n, h % n;
    var d := q - q';
    assert n * d == n * q - n * q';
    Multiples(n, d);
  }

  lemma HalfRemainder(h: nat, m: nat)
    requires m > 0
    ensures h % (2 * m) == h % 2 + 2 * ((h / 2) % m)
  {
    var q, r := (h / 2) / m, (h / 2) % m;
    assert h == 2 * (h / 2) + h % 2;
    assert h / 2 == m * q + r;
    RemainderIs(h, 2 * m, q, h % 2 + 2 * r);
  }

  lemma MulAssociates(a: int, b: int, c: int)
    ensures (a * b) * c == b * (a * c)
  {
  }

  lemma DivisionOf(h: nat, n: nat)
    requires n > 0
    ensures h == n * (h / n) + h % n && 0 <= h % n < n && 0 <= h / n
  {
  }

  lemma DoubleRemainder(h: nat, n: nat)
    requires n > 0
    ensures h % n == if h % (2 * n) < n then h % (2 * n) else h % (2 * n) - n
  {
    DivisionOf(h, 2 * n);
    DoubleRemainderAt(h, n, h / (2 * n), h % (2 * n));
  }

  lemma DoubleRemainderAt(h: nat, n: nat, q: nat, r: nat)
    requires n > 0 && h == (2 * n) * q + r && r < 2 * n
    ensures h % n == if r < n then r else r - n
  {
    MulAssociates(2, n, q);
    if r < n {
      RemainderIs(h, n, 2 * q, r);
    } else {
      Distribute(n, 2 * q);
      RemainderIs(h, n, 2 * q + 1, r - n);
    }
  }

  /** Counting modulo n. */
  lemma NextRemainder(x: nat, n: nat)
    requires n > 0
    ensures (x + 1) % n == if x % n + 1 == n then 0 else x % n + 1
  {
    DivisionOf(x, n);
    var q, r := x / n, x % n;
    if r + 1 < n {
      RemainderIs(x + 1, n, q, r + 1);
    } else {
      Distribute(n, q);
      RemainderIs(x + 1, n, q + 1, 0);
    }
  }

  /** Fewer than n numbers in a row have different remainders. */
  lemma RemaindersDiffer(a: nat, b: nat, n: nat)
    requires a < b < a + n
    ensures a % n != b % n
  {
    DivisionOf(a, n);
    DivisionOf(b, n);
    var d := b / n - a / n;
    assert n * d == n * (b / n) - n * (a / n);
    Multiples(n, d);
  }

  /** Stepping by b through a multiple of b never overshoots. */
  lemma NextMultiple(x: nat, n: nat, b: nat)
    requires b > 0 && n % b == 0 && x % b == 0 && x < n
    ensures x + b <= n && (x + b) % b == 0
  {
    DivisionOf(x, b);
    DivisionOf(n, b);
    var d := n / b - x / b;
    assert b * d == b * (n / b) - b * (x / b);
    Multiples(b, d);
    Distribute(b, x / b);
    RemainderIs(x + b, b, x / b + 1, 0);
  }

  lemma NonNegativeProduct(a: int, b: int)
    requires a >= 0 && b >= 0
    ensures a * b >= 0
  {
  }

  /** Row a of n rows of b cells each ends within b * n cells. */
  lemma RowFits(a: nat, n: nat, b: nat)
    requires a < n
    ensures b * a + b <= b * n
  {
    NonNegativeProduct(b, n - 1 - a);
    assert b * (n - 1 - a) == b * n - b - b * a;
  }

  lemma QuotientBelow(y: nat, b: nat, n: nat)
    requires b > 0 && y < b * n
    ensures y / b < n
  {
    DivisionOf(y, b);
    var d := y / b - n;
    assert b * d == b * (y / b) - b * n;
    SignOfProduct(b, d);
  }

  lemma SignOfProduct(a: nat, b: int)
    ensures b >= 0 ==> a * b >= 0
  {
  }
}
