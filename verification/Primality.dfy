/**
  Primality of the one number that trial division misses, by the orders of two elements: a divisor of the
  number would be too small to have room for the powers of the element.
*/
module Primality {
  import opened Arith
  import opened Bytes
  import opened Primes

  function Power(x: nat, k: nat): nat {
    if k == 0 then 1 else x * Power(x, k - 1)
  }

  lemma {:induction false} PowerAdd(x: nat, a: nat, b: nat)
    ensures Power(x, a + b) == Power(x, a) * Power(x, b)
  {
    if a > 0 {
      PowerAdd(x, a - 1, b);
      assert x * (Power(x, a - 1) * Power(x, b)) == x * Power(x, a - 1) * Power(x, b);
    }
  }

  // ---------- remainders ----------

  lemma ModMultiple(t: nat, k: nat, m: nat)
    requires m > 0
    ensures 0 <= t * m && (t * m + k) % m == k % m
  {
    NonNegative(t, m);
    DivBounds(k, m);
    assert (t + k / m) * m == t * m + k / m * m;
    DivUnique(t * m + k, t + k / m, m);
  }

  lemma ModMul(a: nat, b: nat, m: nat)
    requires m > 0
    ensures 0 <= a % m * (b % m) && a * b % m == a % m * (b % m) % m
  {
    var q, r, p, s := a / m, a % m, b / m, b % m;
    NonNegative(r, s);
    NonNegative(q, b);
    NonNegative(r, p);
    assert a == q * m + r && b == p * m + s;
    assert a * b == (q * b + r * p) * m + r * s by {
      assert (q * m + r) * b == q * b * m + r * b;
      assert r * (p * m + s) == r * p * m + r * s;
    }
    ModMultiple(q * b + r * p, r * s, m);
  }

  /** A remainder by a multiple of `m` has the same remainder by `m`. */
  lemma ModDown(a: nat, n: nat, m: nat)
    requires m > 0 && n > 0 && n % m == 0
    ensures a % n % m == a % m
  {
    var t, q := n / m, a / n;
    NonNegative(q, t);
    assert n == t * m && a == q * n + a % n;
    assert q * (t * m) == q * t * m;
    ModMultiple(q * t, a % n, m);
  }

  /** The remainder of a power. */
  function Residue(x: nat, k: nat, m: nat): (r: nat)
    requires m > 0
    ensures r < m
  {
    Power(x, k) % m
  }

  lemma ResidueAdd(x: nat, a: nat, b: nat, m: nat)
    requires m > 0
    ensures 0 <= Residue(x, a, m) * Residue(x, b, m)
    ensures Residue(x, a + b, m) == Residue(x, a, m) * Residue(x, b, m) % m
  {
    PowerAdd(x, a, b);
    ModMul(Power(x, a), Power(x, b), m);
  }

  lemma ModSmall(k: nat, m: nat)
    requires k < m
    ensures k % m == k
  {
  }

  lemma OneAdd(x: nat, a: nat, b: nat, m: nat)
    requires m > 1 && Residue(x, a, m) == 1
    ensures Residue(x, a + b, m) == Residue(x, b, m)
  {
    hide Residue;
    ResidueAdd(x, a, b, m);
    ModSmall(Residue(x, b, m), m);
  }

  lemma {:induction false} OneTimes(x: nat, a: nat, t: nat, m: nat)
    requires m > 1 && Residue(x, a, m) == 1
    ensures 0 <= a * t && Residue(x, a * t, m) == 1
  {
    NonNegative(a, t);
    if t > 0 {
      OneTimes(x, a, t - 1, m);
      assert a * t == a + a * (t - 1);
      OneAdd(x, a, a * (t - 1), m);
    } else {
      ModSmall(1, m);
      assert a * t == 0;
    }
  }

  // ---------- orders ----------

  /** The numbers below `n`. */
  lemma {:induction false} Below(s: set<nat>, n: nat)
    requires forall i | i in s :: i < n
    ensures |s| <= n
  {
    if n > 0 {
      Below(s - {n - 1}, n - 1);
    } else {
      assert s == {};
    }
  }

  function Members(s: seq<nat>): set<nat> {
    set v | v in s
  }

  lemma {:induction false} DistinctSet(s: seq<nat>)
    requires forall i, j | 0 <= i < j < |s| :: s[i] != s[j]
    ensures |Members(s)| == |s|
  {
    if s != [] {
      var front, last := s[..|s| - 1], s[|s| - 1];
      DistinctSet(front);
      assert last !in Members(front) && Members(s) == Members(front) + {last};
    }
  }

  /** More numbers below `n` than there are: two of them are equal. */
  lemma Pigeonhole(s: seq<nat>, n: nat) returns (i: nat, j: nat)
    requires |s| > n && forall k | 0 <= k < |s| :: s[k] < n
    ensures i < j < |s| && s[i] == s[j]
  {
    if forall i, j | 0 <= i < j < |s| :: s[i] != s[j] {
      DistinctSet(s);
      Below(Members(s), n);
      assert false;
    }
    i, j :| 0 <= i < j < |s| && s[i] == s[j];
  }

  /** Equal powers give 1 at the difference of their exponents; `k` is any greater exponent that gives 1. */
  lemma Cancel(x: nat, i: nat, j: nat, k: nat, m: nat)
    requires m > 1 && i < j && i <= k && Residue(x, k, m) == 1 && Residue(x, i, m) == Residue(x, j, m)
    ensures Residue(x, j - i, m) == 1
  {
    hide Residue;
    var c := k - i;
    ResidueAdd(x, c, i, m);
    ResidueAdd(x, c, j, m);
    assert c + i == k && c + j == k + (j - i);
    OneAdd(x, k, j - i, m);
  }

  /** The least exponent that gives 1 is at most the modulus, and divides every other one. */
  lemma Order(x: nat, k: nat, m: nat) returns (e: nat)
    requires m > 1 && k > 0 && Residue(x, k, m) == 1
    ensures 1 <= e <= m && Residue(x, e, m) == 1 && k % e == 0
  {
    hide Residue;
    var residues := seq(m + 1, i requires 0 <= i => Residue(x, i, m));
    var i, j := Pigeonhole(residues, m);
    OneTimes(x, k, i, m);
    MulMono(1, k, i);
    Cancel(x, i, j, k * i, m);
    e := 1;
    while Residue(x, e, m) != 1
      invariant 1 <= e <= j - i && forall d | 1 <= d < e :: Residue(x, d, m) != 1
      decreases j - i - e
    {
      e := e + 1;
    }
    var t, r := k / e, k % e;
    assert k == e * t + r;
    OneTimes(x, e, t, m);
    OneAdd(x, e * t, r, m);
  }

  // ---------- powers by squaring ----------

  lemma Start(x: nat, m: nat)
    requires x < m
    ensures Residue(x, 1, m) == x
  {
    assert Power(x, 1) == x;
    ModSmall(x, m);
  }

  lemma Double(x: nat, k: nat, r: nat, t: nat, r': nat, m: nat)
    requires m > 0 && Residue(x, k, m) == r && r * r == t * m + r' && r' < m
    ensures Residue(x, 2 * k, m) == r'
  {
    ResidueAdd(x, k, k, m);
    DivUnique(r * r, t, m);
  }

  lemma DoubleAndOne(x: nat, k: nat, r: nat, t: nat, r1: nat, t': nat, r': nat, m: nat)
    requires m > 0 && x < m && Residue(x, k, m) == r
    requires r * r == t * m + r1 && r1 < m && r1 * x == t' * m + r' && r' < m
    ensures Residue(x, 2 * k + 1, m) == r'
  {
    Double(x, k, r, t, r1, m);
    ResidueAdd(x, 2 * k, 1, m);
    Start(x, m);
    DivUnique(r1 * x, t', m);
  }

  // ---------- from an element to divisors ----------

  /** An element whose power gives 1 by `n` does so by every divisor of `n`. */
  lemma OneBelow(x: nat, k: nat, n: nat, p: nat)
    requires p > 1 && n > 1 && n % p == 0 && Residue(x, k, n) == 1
    ensures Residue(x, k, p) == 1
  {
    ModDown(Power(x, k), n, p);
    ModSmall(1, p);
  }

  /** A divisor of two numbers that combine to 1 is 1. */
  lemma NoCommon(p: int, a: int, b: int, u: int, v: int)
    requires p > 0 && a % p == 0 && b % p == 0 && u * a + v * b == 1
    ensures p == 1
  {
    var s, t := a / p, b / p;
    assert a == s * p && b == t * p;
    assert u * (s * p) + v * (t * p) == (u * s + v * t) * p;
    var w := u * s + v * t;
    if w >= 1 {
      MulMono(1, w, p);
    } else {
      MulMono(w, 0, p);
    }
  }

  lemma OneLess(r: nat, p: nat)
    requires p > 1 && r > 0 && r % p == 1
    ensures (r - 1) % p == 0
  {
    DivBounds(r, p);
    DivUnique(r - 1, r / p, p);
  }

  /** A power that is `r` by `n`, with `r - 1` and `n` combining to 1, is not 1 by a divisor of `n`. */
  lemma NotOne(x: nat, k: nat, r: nat, n: nat, p: nat, u: int, v: int)
    requires p > 1 && n > 1 && n % p == 0 && r > 0 && Residue(x, k, n) == r && u * (r - 1) + v * n == 1
    ensures Residue(x, k, p) != 1
  {
    if Residue(x, k, p) == 1 {
      ModDown(Power(x, k), n, p);
      OneLess(r, p);
      NoCommon(p, r - 1, n, u, v);
    }
  }

  // ---------- the factor 22605091 of 4294967290 ----------

  const Q := 22605091

  const Y := 18389778

  lemma PowersOfY()
    ensures Residue(Y, 181, Q) == 13954217 && Residue(Y, 32761, Q) == 1
  {
    hide Residue;
    Start(Y, Q);
    Double(Y, 1, 18389778, 14960520, 18881964, Q);
    DoubleAndOne(Y, 2, 18881964, 15772047, 6806019, 5536857, 22134795, Q);
    DoubleAndOne(Y, 5, 22134795, 21674283, 10117272, 8230640, 19857376, Q);
    Double(Y, 11, 19857376, 17443653, 18167953, Q);
    DoubleAndOne(Y, 22, 18167953, 14601777, 18363502, 14939144, 15500452, Q);
    Double(Y, 45, 15500452, 10628756, 15607508, Q);
    DoubleAndOne(Y, 90, 15607508, 10776081, 14341693, 11667307, 13954217, Q);
    DoubleAndOne(Y, 1, 18389778, 14960520, 18881964, 15360925, 18694817, Q);
    DoubleAndOne(Y, 3, 18694817, 15460950, 967039, 786709, 3991823, Q);
    DoubleAndOne(Y, 7, 3991823, 704914, 5746155, 4674633, 10446987, Q);
    DoubleAndOne(Y, 15, 10446987, 4828095, 10546524, 8579847, 12830595, Q);
    DoubleAndOne(Y, 31, 12830595, 7282614, 15866151, 12907490, 8572888, Q);
    DoubleAndOne(Y, 63, 8572888, 3251232, 13438432, 10932483, 8077143, Q);
    DoubleAndOne(Y, 127, 8077143, 2886086, 2378623, 1935066, 5894688, Q);
    DoubleAndOne(Y, 255, 5894688, 1537146, 21407058, 17415149, 16329565, Q);
    DoubleAndOne(Y, 511, 16329565, 11796222, 21323023, 17346785, 5776459, Q);
    DoubleAndOne(Y, 1023, 5776459, 1476104, 13333217, 10846888, 10349018, Q);
    DoubleAndOne(Y, 2047, 10349018, 4737966, 20979418, 17067254, 9799090, Q);
    Double(Y, 4095, 9799090, 4247811, 10622299, Q);
    Double(Y, 8190, 10622299, 4991496, 14739265, Q);
    DoubleAndOne(Y, 16380, 14739265, 9610486, 22155999, 18024431, 1, Q);
  }

  lemma SmallDivisor(d: nat)
    requires 1 <= d <= 181 && 32761 % d == 0
    ensures d == 1 || d == 181
  {
  }

  /** A divisor of the square of 181 below 4755 divides 181. */
  lemma SquareOf181(e: nat)
    requires 1 <= e < 4755 && 32761 % e == 0
    ensures e == 1 || e == 181
  {
    if e <= 181 {
      SmallDivisor(e);
    } else {
      var f := 32761 / e;
      assert 32761 == f * e;
      MulMono(181, f, e);
      MulMono(f, 6, e);
      DivUnique(32761, e, f);
      SmallDivisor(f);
    }
  }

  /** The powers of Y have order 32761 by every divisor of Q, which leaves no room for a small one. */
  lemma NoDivisorOfQ(p: nat)
    requires 2 <= p < 4755
    ensures !Divides(p, Q)
  {
    hide Residue;
    if Divides(p, Q) {
      PowersOfY();
      OneBelow(Y, 32761, Q, p);
      NotOne(Y, 181, 13954217, Q, p, -3035345, 1873731);
      var e := Order(Y, 32761, p);
      SquareOf181(e);
      OneTimes(Y, e, 181 / e, p);
    }
  }

  lemma QIsPrime()
    ensures Prime(Q)
  {
    forall d | 2 <= d < 4755
      ensures !Divides(d, Q)
    {
      NoDivisorOfQ(d);
    }
    NoDivisor(Q, 4755);
  }

  // ---------- 4294967291 ----------

  const X := 1073745729

  lemma PowersOfX()
    ensures Residue(X, Q, BLIND_SPOT) == 1
  {
    hide Residue;
    Start(X, BLIND_SPOT);
    Double(X, 1, 1073745729, 268437408, 3504919713, BLIND_SPOT);
    DoubleAndOne(X, 2, 3504919713, 2860199243, 148041656, 37010548, 2762101756, BLIND_SPOT);
    Double(X, 5, 2762101756, 1776312971, 1474251975, BLIND_SPOT);
    DoubleAndOne(X, 10, 1474251975, 506038518, 2995285887, 748824195, 4065820878, BLIND_SPOT);
    DoubleAndOne(X, 21, 4065820878, 3848899954, 3219286270, 804824495, 1820247785, BLIND_SPOT);
    Double(X, 43, 1820247785, 771438237, 3855700258, BLIND_SPOT);
    Double(X, 86, 3855700258, 3461359184, 1858816020, BLIND_SPOT);
    Double(X, 172, 1858816020, 804475741, 2210652769, BLIND_SPOT);
    DoubleAndOne(X, 344, 2210652769, 1137840019, 1091548832, 272888200, 3255072328, BLIND_SPOT);
    DoubleAndOne(X, 689, 3255072328, 2466956123, 3894166791, 973545239, 2036108090, BLIND_SPOT);
    DoubleAndOne(X, 1379, 2036108090, 965254418, 1360206462, 340052852, 2579436866, BLIND_SPOT);
    Double(X, 2759, 2579436866, 1549137419, 1810740027, BLIND_SPOT);
    DoubleAndOne(X, 5518, 1810740027, 763400329, 2386321990, 596582667, 3638735613, BLIND_SPOT);
    DoubleAndOne(X, 11037, 3638735613, 3082770127, 177569812, 44392614, 2142344274, BLIND_SPOT);
    Double(X, 22075, 2142344274, 1068608601, 164317185, BLIND_SPOT);
    DoubleAndOne(X, 44150, 164317185, 6286459, 1505111656, 376279282, 3827152162, BLIND_SPOT);
    Double(X, 88301, 3827152162, 3410292251, 305512203, BLIND_SPOT);
    Double(X, 176602, 305512203, 21731878, 999910711, BLIND_SPOT);
    DoubleAndOne(X, 353204, 999910711, 232789067, 1505118024, 376280874, 3852027162, BLIND_SPOT);
    Double(X, 706409, 3852027162, 3454767464, 894754220, BLIND_SPOT);
    Double(X, 1412818, 894754220, 186400747, 2824842023, BLIND_SPOT);
    Double(X, 2825636, 2824842023, 1857926245, 3541280234, BLIND_SPOT);
    DoubleAndOne(X, 5651272, 3541280234, 2919851269, 779252477, 194813827, 4191888076, BLIND_SPOT);
    DoubleAndOne(X, 11302545, 4191888076, 4091282762, 688844034, 172211635, 1, BLIND_SPOT);
  }

  lemma PrimeDivisor(q: int, e: int)
    requires Prime(q) && 1 <= e < q && q % e == 0
    ensures e == 1
  {
    if e > 1 {
      assert Divides(e, q);
    }
  }

  /** The powers of X have order Q by every divisor, which leaves no room for one below 65536. */
  lemma NoSmallDivisor(p: nat)
    requires 2 <= p < 65536
    ensures !Divides(p, BLIND_SPOT)
  {
    hide Residue;
    if Divides(p, BLIND_SPOT) {
      PowersOfX();
      OneBelow(X, Q, BLIND_SPOT, p);
      Start(X, BLIND_SPOT);
      NotOne(X, 1, X, BLIND_SPOT, p, 1771216906, -442805837);
      var e := Order(X, Q, p);
      QIsPrime();
      PrimeDivisor(Q, e);
    }
  }

  /** The one number that trial division gets wrong is indeed a prime. */
  lemma BlindSpotIsPrime()
    ensures Prime(BLIND_SPOT)
  {
    forall d | 2 <= d < 65536
      ensures !Divides(d, BLIND_SPOT)
    {
      NoSmallDivisor(d);
    }
    NoDivisor(BLIND_SPOT, 65536);
  }

  /** Trial division is wrong on exactly one number of 32 bits. */
  method WrongOnce(n: u32) returns (r: u32)
    ensures (r == 1) != Prime(n) <==> n == BLIND_SPOT
  {
    BlindSpotIsPrime();
    r := IsPrime(n);
  }
}
