/**
  Division and remainder by a divisor that is not a constant.
*/
module Arith {

  lemma DivUnique(k: nat, q: nat, c: nat)
    requires q * c <= k < q * c + c
    ensures k / c == q && k % c == k - q * c
  {
    var d, r := k / c, k % c;
    assert k == d * c + r;
    assert d < q ==> (d + 1) * c <= q * c;
    assert d > q ==> (q + 1) * c <= d * c;
  }

  /** The only multiple of `c` above `n * c` and up to `(n + 1) * c` is the latter. */
  lemma MultipleAbove(k: nat, n: nat, c: nat)
    requires c > 0 && k % c == 0 && n * c < k <= n * c + c
    ensures k == n * c + c
  {
    if k < n * c + c {
      DivUnique(k, n, c);
    }
  }

  lemma DivDiv(p: nat, c: nat)
    requires c > 0
    ensures p / (c * 512) == p / 512 / c
  {
    var q := p / 512 / c;
    assert q * (c * 512) == (q * c) * 512;
    assert q * c <= p / 512 < q * c + c;
    DivUnique(p, q, c * 512);
  }

  /** Rounding a byte position down to a cluster boundary rounds its sector index down to one. */
  lemma RoundDown(x: nat, c: nat)
    requires c > 0
    ensures x - x % (c * 512) == 512 * (x / 512 - x / 512 % c)
    ensures 0 <= x / 512 - x / 512 % c && (x / 512 - x / 512 % c) % c == 0
  {
    var k, q := x / 512, x / 512 / c;
    DivDiv(x, c);
    assert x % (c * 512) == x - q * (c * 512);
    assert q * (c * 512) == 512 * (q * c);
    assert k - k % c == q * c;
    DivUnique(q * c, q, c);
  }

  /** `y` lies in the same or a later group of `b` as `x` exactly when it is not before the start of that group. */
  lemma SameOrLater(y: nat, x: nat, b: nat)
    requires b > 0
    ensures y / b >= x / b <==> y >= x - x % b
  {
    var q := x / b;
    assert x - x % b == q * b;
    var d, r := y / b, y % b;
    assert y == d * b + r;
    assert d < q ==> (d + 1) * b <= q * b;
    assert d >= q ==> d * b >= q * b;
  }

  lemma ModShift(k: nat, j: nat, c: nat)
    requires c > 0 && k % c == 0 && j < c
    ensures (k + j) % c == j
  {
    DivUnique(k + j, k / c, c);
  }

  lemma ModMultiples(k: nat, j: nat, c: nat)
    requires c > 0 && k % c == 0
    ensures (k + j) % c == j % c
  {
    var q, d := k / c, j / c;
    assert k + j == (q + d) * c + j % c;
    DivUnique(k + j, q + d, c);
  }

  /** The remainder by an even number, bit by bit. */
  lemma ModTwice(k: nat, m: nat)
    requires m > 0
    ensures k % (2 * m) == 2 * (k / 2 % m) + k % 2
  {
    var h := k / 2;
    assert h == h / m * m + h % m;
    assert h / m * (2 * m) == 2 * (h / m * m);
    DivUnique(k, h / m, 2 * m);
  }

  lemma ModNext(k: nat, c: nat)
    requires c > 0 && k % c == 0
    ensures (k + c) % c == 0
  {
    var q := k / c;
    assert k + c == (q + 1) * c;
    DivUnique(k + c, q + 1, c);
  }

  lemma DivBounds(a: nat, c: nat)
    requires c > 0
    ensures a / c <= a && a / c * c <= a < a / c * c + c
  {
    var d, r := a / c, a % c;
    assert a == d * c + r;
    MulAtLeast(d, c);
  }

  lemma {:induction false} MulAtLeast(d: nat, c: nat)
    requires c > 0
    ensures d <= d * c
  {
    if c > 1 {
      MulAtLeast(d, c - 1);
      assert d * c == d * (c - 1) + d;
    }
  }

  lemma ModPred(k: nat, c: nat)
    requires c > 0 && k % c != 0
    ensures k > 0 && (k - 1) % c == k % c - 1
  {
    DivUnique(k - 1, k / c, c);
  }

  lemma NonNegative(x: nat, y: nat)
    ensures 0 <= x * y
  {
  }

  lemma MulStep(i: int, m: int, s: int)
    requires i < m && 0 <= s
    ensures i * s + s <= m * s
    ensures 0 <= i ==> 0 <= i * s
  {
    NonNegative(m - i - 1, s);
    assert (m - i - 1) * s == m * s - i * s - s;
    if 0 <= i {
      NonNegative(i, s);
    }
  }

  lemma MulMono(a: int, b: int, c: int)
    ensures a <= b && 0 <= c ==> a * c <= b * c
  {
    if a <= b && 0 <= c {
      assert 0 <= (b - a) * c;
      assert (b - a) * c == b * c - a * c;
    }
  }

  /** Bit `i` of a number. */
  predicate Bit(x: nat, i: nat) {
    if i == 0 then x % 2 == 1 else Bit(x / 2, i - 1)
  }

  function Pow2(n: nat): (p: nat)
    ensures p > 0
  {
    if n == 0 then 1 else 2 * Pow2(n - 1)
  }

  lemma {:induction false} Pow2Add(m: nat, n: nat)
    ensures Pow2(m + n) == Pow2(m) * Pow2(n)
  {
    if m > 0 {
      Pow2Add(m - 1, n);
      Associate(Pow2(m - 1), Pow2(n));
    }
  }

  lemma Associate(a: int, b: int)
    ensures 2 * a * b == 2 * (a * b)
  {
  }

  lemma Pow2Word()
    ensures Pow2(32) == 0x1_0000_0000
  {
    assert Pow2(8) == 0x100;
    Pow2Add(8, 8);
    Pow2Add(16, 16);
  }
}
