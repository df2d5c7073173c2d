/**
  Matrix products: the plain triple loop, and the tiled product driven through the accelerator's
  8x8 accumulator bank.
*/
module Gemm {
  import opened Arith

  type int8 = x: int | -128 <= x < 128

  const TILE := 8

  predicate FitsInt32(x: int) {
    -0x8000_0000 <= x < 0x8000_0000
  }

  /** A cell of a flat buffer. */
  function At(s: seq<int>, i: int): int {
    if 0 <= i < |s| then s[i] else 0
  }

  /** Element `j` of the row that starts at `ra`. */
  function RowAt(a: seq<int>, ra: int, j: int): int {
    At(a, ra + j)
  }

  /** Element `j` of the column that starts at `cb` and whose elements are `sb` apart. */
  function ColAt(b: seq<int>, cb: int, sb: int, j: int): int {
    At(b, cb + j * sb)
  }

  /**
    The product of a row and a column of `k` elements. The row starts at `ra` in `a`; the column starts at
    `cb` in `b`, and its elements are `sb` apart.
  */
  function Dot(a: seq<int>, ra: int, b: seq<int>, cb: int, sb: int, k: nat): int {
    if k == 0 then 0 else Dot(a, ra, b, cb, sb, k - 1) + RowAt(a, ra, k - 1) * ColAt(b, cb, sb, k - 1)
  }

  /** A product can be accumulated in two parts. */
  lemma {:induction false} DotSplit(a: seq<int>, ra: int, b: seq<int>, cb: int, sb: int, k: nat, l: nat)
    ensures Dot(a, ra, b, cb, sb, k + l) == Dot(a, ra, b, cb, sb, k) + Dot(a, ra + k, b, cb + k * sb, sb, l)
  {
    if l > 0 {
      DotSplit(a, ra, b, cb, sb, k, l - 1);
      assert (k + l - 1) * sb == k * sb + (l - 1) * sb;
    }
  }

  /** A product depends on the elements of its row and column only. */
  lemma {:induction false} DotSame(a: seq<int>, ra: int, b: seq<int>, cb: int, sb: int,
                                   a': seq<int>, ra': int, b': seq<int>, cb': int, sb': int, k: nat)
    requires forall j | 0 <= j < k :: RowAt(a, ra, j) == RowAt(a', ra', j)
    requires forall j | 0 <= j < k :: ColAt(b, cb, sb, j) == ColAt(b', cb', sb', j)
    ensures Dot(a, ra, b, cb, sb, k) == Dot(a', ra', b', cb', sb', k)
  {
    if k > 0 {
      DotSame(a, ra, b, cb, sb, a', ra', b', cb', sb', k - 1);
    }
  }

  /** Zeros at the end of the row do not contribute, whatever the column holds there. */
  lemma {:induction false} DotZeros(a: seq<int>, ra: int, b: seq<int>, cb: int, sb: int, k: nat)
    requires forall j | 0 <= j < k :: RowAt(a, ra, j) == 0
    ensures Dot(a, ra, b, cb, sb, k) == 0
  {
    if k > 0 {
      DotZeros(a, ra, b, cb, sb, k - 1);
    }
  }

  /** A product picks: with a row that is 1 at place `j` and 0 elsewhere it is element `j` of the column. */
  lemma {:induction false} DotPicks(a: seq<int>, ra: nat, b: seq<int>, cb: int, sb: int, k: nat, j: nat)
    requires ra + k <= |a| && j < k && forall i | ra <= i < ra + k :: a[i] == if i == ra + j then 1 else 0
    ensures Dot(a, ra, b, cb, sb, k) == if 0 <= cb + j * sb < |b| then b[cb + j * sb] else 0
  {
    if j < k - 1 {
      DotPicks(a, ra, b, cb, sb, k - 1, j);
    } else {
      DotZeros(a, ra, b, cb, sb, k - 1);
    }
  }

  /** ... and it is linear in the row, so this fixes it for all rows. */
  lemma {:induction false} DotLinear(a: seq<int>, a': seq<int>, sum: seq<int>, f: int, ra: nat,
                                     b: seq<int>, cb: int, sb: int, k: nat)
    requires |a| == |a'| == |sum| && ra + k <= |sum| && forall i | 0 <= i < |sum| :: sum[i] == a[i] + f * a'[i]
    ensures Dot(sum, ra, b, cb, sb, k) == Dot(a, ra, b, cb, sb, k) + f * Dot(a', ra, b, cb, sb, k)
  {
    if k > 0 {
      DotLinear(a, a', sum, f, ra, b, cb, sb, k - 1);
      Distribute(a[ra + k - 1], a'[ra + k - 1], f, ColAt(b, cb, sb, k - 1), Dot(a', ra, b, cb, sb, k - 1));
    }
  }

  lemma Distribute(x: int, y: int, f: int, z: int, d: int)
    ensures (x + f * y) * z == x * z + f * (y * z)
    ensures f * (d + y * z) == f * d + f * (y * z)
  {
  }

  predicate Bytes8(s: seq<int>) {
    forall i | 0 <= i < |s| :: -128 <= s[i] < 128
  }

  /** A product of bytes, and every partial sum of it, grows by at most 2^14 a step. */
  lemma {:induction false} DotBound(a: seq<int>, ra: int, b: seq<int>, cb: int, sb: int, k: nat)
    requires Bytes8(a) && Bytes8(b)
    ensures -0x4000 * k <= Dot(a, ra, b, cb, sb, k) <= 0x4000 * k
  {
    if k > 0 {
      DotBound(a, ra, b, cb, sb, k - 1);
      ByteProduct(RowAt(a, ra, k - 1), ColAt(b, cb, sb, k - 1));
    }
  }

  lemma ByteProduct(x: int, y: int)
    requires -128 <= x < 128 && -128 <= y < 128
    ensures -0x4000 <= x * y <= 0x4000
  {
    if y >= 0 {
      ProductRange(x, y);
    } else {
      ProductRange(x, -y);
      assert x * y == -(x * -y);
    }
  }

  lemma ProductRange(x: int, y: int)
    requires -128 <= x <= 128 && 0 <= y <= 128
    ensures -128 * y <= x * y <= 128 * y
  {
    NonNegative(x + 128, y);
    NonNegative(128 - x, y);
    assert (x + 128) * y == x * y + 128 * y;
    assert (128 - x) * y == 128 * y - x * y;
  }

  /** Up to 131071 terms fit in 32 bits at every step. */
  lemma NoOverflow(a: seq<int>, ra: int, b: seq<int>, cb: int, sb: int, k: nat)
    requires Bytes8(a) && Bytes8(b) && k <= 131071
    ensures FitsInt32(Dot(a, ra, b, cb, sb, k))
  {
    DotBound(a, ra, b, cb, sb, k);
  }

  lemma {:induction false} LargestDot(s: seq<int>, n: nat)
    requires n <= |s| && forall i | 0 <= i < |s| :: s[i] == -128
    ensures Dot(s, 0, s, 0, 1, n) == 0x4000 * n
  {
    if n > 0 {
      LargestDot(s, n - 1);
    }
  }

  /** From 131072 terms on, for every length, there are bytes whose product leaves 32 bits. */
  lemma OverflowBeyond(k: nat)
    requires k > 131071
    ensures exists s: seq<int> :: |s| == k && Bytes8(s) && !FitsInt32(Dot(s, 0, s, 0, 1, k))
  {
    var s := seq(k, _ => -128);
    LargestDot(s, k);
    assert |s| == k && Bytes8(s) && !FitsInt32(Dot(s, 0, s, 0, 1, k));
  }

  // ---------- index arithmetic ----------

  /** Rows of length at most the stride do not overlap. */
  lemma IndexUnique(m: int, n: int, m': int, n': int, s: int)
    requires 0 <= n < s && 0 <= n' < s && m * s + n == m' * s + n'
    ensures m == m' && n == n'
  {
    if m < m' {
      MulStep(m, m', s);
    } else if m' < m {
      MulStep(m', m, s);
    }
  }

  lemma IndexBound(m: int, n: int, rows: int, s: int, cols: int)
    requires 0 <= m < rows && 0 <= n < cols && 0 <= s
    ensures 0 <= m * s + n <= (rows - 1) * s + cols - 1
  {
    MulStep(m, rows, s);
    NonNegative(m, s);
    assert (rows - 1) * s == rows * s - s;
  }

  // ---------- the plain product ----------

  /** `y` holds the product of an `m` by `k` and a `k` by `n` matrix, its rows `sy` apart. */
  ghost predicate IsProduct(y: seq<int>, sy: int, w: seq<int>, sw: int, x: seq<int>, sx: int, m: int, k: nat, n: int) {
    forall i, j | 0 <= i < m && 0 <= j < n :: CellAt(y, sy, i, j) == Dot(w, i * sw, x, j, sx, k)
  }

  function CellAt(y: seq<int>, sy: int, i: int, j: int): int {
    At(y, i * sy + j)
  }

  /** The product with the identity matrix copies every cell. */
  lemma IdentityProduct(y: seq<int>, sy: nat, w: seq<int>, sw: nat, x: seq<int>, sx: nat, k: nat, n: nat,
                        i: nat, j: nat)
    requires IsProduct(y, sy, w, sw, x, sx, k, k, n) && i < k <= sw && j < n && k * sw <= |w|
    requires forall p | 0 <= p < |w| :: w[p] == if p / sw == p % sw then 1 else 0
    requires 0 <= i * sy + j < |y| && 0 <= i * sx + j < |x|
    ensures y[i * sy + j] == x[i * sx + j]
  {
    NonNegative(i, sw);
    MulStep(i, k, sw);
    forall p | i * sw <= p < i * sw + k
      ensures w[p] == if p == i * sw + i then 1 else 0
    {
      DivUnique(p, i, sw);
    }
    DotPicks(w, i * sw, x, j, sx, k, i);
    assert CellAt(y, sy, i, j) == Dot(w, i * sw, x, j, sx, k);
  }

  /** Some cell of an `m` by `n` matrix with stride `s`. */
  ghost predicate InMatrix(p: int, m: int, n: int, s: int) {
    exists i, j | 0 <= i < m && 0 <= j < n :: IsCell(p, i, j, s)
  }

  predicate IsCell(p: int, i: int, j: int, s: int) {
    p == i * s + j
  }

  /** The innermost loop of the software product. */
  method DotLoop(w: array<int8>, ra: int, x: array<int8>, cb: int, sb: int, k: nat) returns (sum: int)
    requires 0 <= ra && ra + k <= w.Length
    requires ColumnInside(cb, sb, k, x.Length)
    ensures sum == Dot(w[..], ra, x[..], cb, sb, k)
  {
    sum := 0;
    for j := 0 to k
      invariant sum == Dot(w[..], ra, x[..], cb, sb, j)
    {
      assert InColumn(cb, sb, j, x.Length);
      sum := sum + w[ra + j] as int * x[cb + j * sb] as int;
    }
  }

  predicate ColumnInside(cb: int, sb: int, k: nat, length: nat) {
    forall j | 0 <= j < k :: InColumn(cb, sb, j, length)
  }

  /** Element `j` of the column that starts at `cb` lies in the buffer. */
  predicate InColumn(cb: int, sb: int, j: int, length: nat) {
    0 <= cb + j * sb < length
  }

  /** The columns of a `k` by `n` matrix stay within a buffer that holds its last cell. */
  lemma ColumnsInside(k: nat, n: int, sb: int, length: nat, cb: int)
    requires 0 <= sb && 0 <= cb < n && (k > 0 ==> (k - 1) * sb + n <= length)
    ensures ColumnInside(cb, sb, k, length)
  {
    forall j | 0 <= j < k
      ensures InColumn(cb, sb, j, length)
    {
      IndexBound(j, cb, k, sb, n);
    }
  }

  /** The software product: `w` is `m` by `k`, `x` is `k` by `n`, `y` is `m` by `n`, all without gaps. */
  method GemmSw(w: array<int8>, x: array<int8>, y: array<int>, m: nat, k: nat, n: nat)
    requires m * k <= w.Length && k * n <= x.Length && m * n <= y.Length
    modifies y
    ensures IsProduct(y[..], n, w[..], k, x[..], n, m, k, n)
  {
    for i := 0 to m
      invariant IsProduct(y[..], n, w[..], k, x[..], n, i, k, n)
    {
      SwRow(w, x, y, m, k, n, i);
    }
  }

  /** One row of the software product; the rows before it are kept. */
  method SwRow(w: array<int8>, x: array<int8>, y: array<int>, m: nat, k: nat, n: nat, i: nat)
    requires m * k <= w.Length && k * n <= x.Length && m * n <= y.Length && i < m
    requires IsProduct(y[..], n, w[..], k, x[..], n, i, k, n)
    modifies y
    ensures IsProduct(y[..], n, w[..], k, x[..], n, i + 1, k, n)
  {
    for j := 0 to n
      invariant IsProduct(y[..], n, w[..], k, x[..], n, i, k, n)
      invariant forall j' | 0 <= j' < j :: CellAt(y[..], n, i, j') == Dot(w[..], i * k, x[..], j', n, k)
    {
      assert i * k + k <= m * k by { MulStep(i, m, k); }
      assert k > 0 ==> (k - 1) * n + n == k * n;
      ColumnsInside(k, n, n, x.Length, j);
      var sum := DotLoop(w, i * k, x, j, n, k);
      IndexBound(i, j, m, n, n);
      assert (m - 1) * n + n == m * n;
      PutAddress(y, i * n + j, n, i, j, sum);
    }
  }

  /** Storing a cell leaves all other cells of the matrix alone. */
  lemma CellUpdate(after: seq<int>, before: seq<int>, p: int, s: int, i: int, j: int, value: int)
    requires 0 <= j < s && p == i * s + j && 0 <= p < |before| && after == before[p := value]
    ensures CellAt(after, s, i, j) == value
    ensures forall i', j' | 0 <= j' < s && (i', j') != (i, j) :: CellAt(after, s, i', j') == CellAt(before, s, i', j')
  {
    forall i', j' | 0 <= j' < s && (i', j') != (i, j)
      ensures CellAt(after, s, i', j') == CellAt(before, s, i', j')
    {
      if i' * s + j' == i * s + j {
        IndexUnique(i', j', i, j, s);
      }
    }
  }

  method PutAddress(y: array<int>, p: int, ghost s: int, ghost i: int, ghost j: int, value: int)
    requires 0 <= j < s && p == i * s + j && 0 <= p < y.Length
    modifies y
    ensures CellAt(y[..], s, i, j) == value
    ensures forall i', j' | 0 <= j' < s && (i', j') != (i, j) ::
              CellAt(y[..], s, i', j') == CellAt(old(y[..]), s, i', j')
  {
    ghost var before := y[..];
    y[p] := value;
    CellUpdate(y[..], before, p, s, i, j, value);
  }

  // ---------- the accelerator ----------

  /** A tile of this shape lies in a buffer of this length. */
  predicate TileInside(base: int, s: int, rows: nat, cols: nat, length: nat) {
    rows > 0 && cols > 0 ==> 0 <= s && 0 <= base && base + (rows - 1) * s + cols <= length
  }

  lemma TileRow(base: int, s: int, rows: nat, cols: nat, length: nat, i: nat)
    requires TileInside(base, s, rows, cols, length) && i < rows && cols > 0
    ensures 0 <= base + i * s && base + i * s + cols <= length
  {
    MulStep(i, rows, s);
    NonNegative(i, s);
    assert (rows - 1) * s == rows * s - s;
  }

  lemma TileColumn(base: int, s: int, rows: nat, cols: nat, length: nat, j: nat)
    requires TileInside(base, s, rows, cols, length) && j < cols
    ensures ColumnInside(base + j, s, rows, length)
  {
    var cb := base + j;
    forall k | 0 <= k < rows
      ensures InColumn(cb, s, k, length)
    {
      TileRow(base, s, rows, cols, length, k);
    }
  }

  /** What a command adds to accumulator `(i, j)`. */
  function TileDot(a: seq<int>, ap: int, sa: int, b: seq<int>, bp: int, sb: int, tk: nat, i: int, j: int): int {
    Dot(a, ap + i * sa, b, bp + j, sb, tk)
  }

  function Acc(bank: seq<int>, i: int, j: int): int {
    CellAt(bank, TILE, i, j)
  }

  /** The accumulators `(i, j)` with `j < tn` after a command, from those before it. */
  ghost predicate RowAccumulated(now: seq<int>, before: seq<int>, clear: bool, i: int, tn: int,
                                 a: seq<int>, ap: int, sa: int, b: seq<int>, bp: int, sb: int, tk: nat) {
    forall j | 0 <= j < tn ::
      Acc(now, i, j) == (if clear then 0 else Acc(before, i, j)) + TileDot(a, ap, sa, b, bp, sb, tk, i, j)
  }

  /** Row `i` of the C tile at cell `(m, n)` holds the accumulators `(i, j)` with `j < tn`. */
  ghost predicate RowStored(c: seq<int>, sc: int, m: int, n: int, bank: seq<int>, i: int, tn: int) {
    forall j | 0 <= j < tn :: CellAt(c, sc, m + i, n + j) == Acc(bank, i, j)
  }

  /** Two contents of C agree outside the cells of rows `m` to `m + tm` and columns `n` to `n + tn`. */
  ghost predicate SameOutside(c: seq<int>, before: seq<int>, sc: int, m: int, tm: int, n: int, tn: int) {
    forall i, j | 0 <= j < sc && !(m <= i < m + tm && n <= j < n + tn) ::
      CellAt(c, sc, i, j) == CellAt(before, sc, i, j)
  }

  /**
    The tile unit: a bank of 8x8 accumulators. A command optionally clears the bank, adds the product of
    an A tile and a B tile to it, and optionally stores it to a C tile. What a command does to bank and
    memory is the one assumption made about the hardware.
  */
  class TileUnit {
    const bank: array<int>

    predicate Ready() {
      bank.Length == TILE * TILE
    }

    constructor ()
      ensures Ready() && fresh(bank)
    {
      bank := new int[TILE * TILE];
    }

    method AccumulateRow(i: nat, a: array<int8>, ap: int, sa: int, b: array<int8>, bp: int, sb: int,
                         tm: nat, tk: nat, tn: nat, clear: bool)
      requires Ready() && i < tm <= TILE && 0 < tk <= TILE && tn <= TILE
      requires TileInside(ap, sa, tm, tk, a.Length) && TileInside(bp, sb, tk, tn, b.Length)
      modifies bank
      ensures RowAccumulated(bank[..], old(bank[..]), clear, i, tn, a[..], ap, sa, b[..], bp, sb, tk)
      ensures SameOutside(bank[..], old(bank[..]), TILE, i, 1, 0, TILE)
    {
      hide Dot, ColumnInside;
      ghost var before := bank[..];
      for j := 0 to tn
        invariant RowAccumulated(bank[..], before, clear, i, j, a[..], ap, sa, b[..], bp, sb, tk)
        invariant SameOutside(bank[..], before, TILE, i, 1, 0, j)
      {
        TileRow(ap, sa, tm, tk, a.Length, i);
        TileColumn(bp, sb, tk, tn, b.Length, j);
        var sum := DotLoop(a, ap + i * sa, b, bp + j, sb, tk);
        assert Acc(bank[..], i, j) == Acc(before, i, j) == bank[i * TILE + j];
        PutAddress(bank, i * TILE + j, TILE, i, j, (if clear then 0 else bank[i * TILE + j]) + sum);
      }
    }

    method StoreRow(i: nat, c: array<int>, cp: int, sc: int, ghost m: int, ghost n: int, tn: nat)
      requires Ready() && c != bank && i < TILE && tn <= TILE
      requires 0 <= m && 0 <= n && n + tn <= sc && cp == m * sc + n
      requires tn > 0 ==> (m + i) * sc + n + tn <= c.Length
      modifies c
      ensures RowStored(c[..], sc, m, n, bank[..], i, tn)
      ensures SameOutside(c[..], old(c[..]), sc, m + i, 1, n, tn)
    {
      ghost var before := c[..];
      for j := 0 to tn
        invariant RowStored(c[..], sc, m, n, bank[..], i, j)
        invariant SameOutside(c[..], before, sc, m + i, 1, n, j)
      {
        StoreAddress(cp, m, i, sc, n, j, tn, c.Length);
        PutAddress(c, cp + i * sc + j, sc, m + i, n + j, bank[i * TILE + j]);
        assert RowStored(c[..], sc, m, n, bank[..], i, j + 1) by {
          StoredNext(c[..], sc, m, n, bank[..], i, j);
        }
      }
    }

    method AccumulateTile(a: array<int8>, ap: int, sa: int, b: array<int8>, bp: int, sb: int,
                          tm: nat, tk: nat, tn: nat, clear: bool)
      requires Ready() && tm <= TILE && 0 < tk <= TILE && tn <= TILE
      requires TileInside(ap, sa, tm, tk, a.Length) && TileInside(bp, sb, tk, tn, b.Length)
      modifies bank
      ensures forall i | 0 <= i < tm ::
                RowAccumulated(bank[..], old(bank[..]), clear, i, tn, a[..], ap, sa, b[..], bp, sb, tk)
    {
      ghost var before := bank[..];
      for i := 0 to tm
        invariant forall i' | 0 <= i' < i ::
                    RowAccumulated(bank[..], before, clear, i', tn, a[..], ap, sa, b[..], bp, sb, tk)
        invariant SameOutside(bank[..], before, TILE, 0, i, 0, TILE)
      {
        ghost var previous := bank[..];
        AccumulateRow(i, a, ap, sa, b, bp, sb, tm, tk, tn, clear);
        forall i' | 0 <= i' <= i
          ensures RowAccumulated(bank[..], before, clear, i', tn, a[..], ap, sa, b[..], bp, sb, tk)
        {
          RowKept(bank[..], previous, before, clear, i', i, tn, a[..], ap, sa, b[..], bp, sb, tk);
        }
      }
    }

    method StoreTile(c: array<int>, cp: int, sc: int, tm: nat, tn: nat, ghost m: int, ghost n: int)
      requires Ready() && c != bank && tm <= TILE && tn <= TILE
      requires 0 <= m && 0 <= n && n + tn <= sc && cp == m * sc + n
      requires forall i | 0 <= i < tm :: RowInside(m, i, sc, n, tn, c.Length)
      modifies c
      ensures forall i | 0 <= i < tm :: RowStored(c[..], sc, m, n, bank[..], i, tn)
      ensures SameOutside(c[..], old(c[..]), sc, m, tm, n, tn)
    {
      ghost var before := c[..];
      for i := 0 to tm
        invariant forall i' | 0 <= i' < i :: RowStored(c[..], sc, m, n, bank[..], i', tn)
        invariant SameOutside(c[..], before, sc, m, i, n, tn)
      {
        assert RowInside(m, i, sc, n, tn, c.Length);
        ghost var previous := c[..];
        StoreRow(i, c, cp, sc, m, n, tn);
        forall i' | 0 <= i' < i
          ensures RowStored(c[..], sc, m, n, bank[..], i', tn)
        {
          StoredKept(c[..], previous, sc, m, n, bank[..], i', i, tn);
        }
      }
    }

    /** One command. The C tile is the one at cell `(m, n)`. */
    method Command(a: array<int8>, ap: int, b: array<int8>, bp: int, c: array<int>, cp: int,
                   sa: int, sb: int, sc: int, tm: nat, tk: nat, tn: nat, clear: bool, store: bool,
                   ghost m: int, ghost n: int)
      requires Ready() && c != bank && tm <= TILE && 0 < tk <= TILE && tn <= TILE
      requires TileInside(ap, sa, tm, tk, a.Length) && TileInside(bp, sb, tk, tn, b.Length)
      requires 0 <= m && 0 <= n && n + tn <= sc && cp == m * sc + n
      requires forall i | 0 <= i < tm :: RowInside(m, i, sc, n, tn, c.Length)
      modifies bank, c
      ensures forall i | 0 <= i < tm ::
                RowAccumulated(bank[..], old(bank[..]), clear, i, tn, a[..], ap, sa, b[..], bp, sb, tk)
      ensures store ==> forall i | 0 <= i < tm :: RowStored(c[..], sc, m, n, bank[..], i, tn)
      ensures SameOutside(c[..], old(c[..]), sc, m, tm, n, tn)
      ensures !store ==> c[..] == old(c[..])
    {
      AccumulateTile(a, ap, sa, b, bp, sb, tm, tk, tn, clear);
      if store {
        StoreTile(c, cp, sc, tm, tn, m, n);
      }
    }
  }

  lemma StoreAddress(cp: int, m: int, i: nat, sc: int, n: int, j: int, tn: int, length: nat)
    requires 0 <= m && 0 <= n && 0 <= j < tn && n + tn <= sc && cp == m * sc + n
    requires (m + i) * sc + n + tn <= length
    ensures 0 <= cp + i * sc + j < length && cp + i * sc + j == (m + i) * sc + (n + j)
  {
    assert (m + i) * sc == m * sc + i * sc;
    assert 0 <= m * sc && 0 <= i * sc;
  }

  lemma StoredNext(c: seq<int>, sc: int, m: int, n: int, bank: seq<int>, i: int, j: int)
    requires RowStored(c, sc, m, n, bank, i, j) && CellAt(c, sc, m + i, n + j) == Acc(bank, i, j)
    ensures RowStored(c, sc, m, n, bank, i, j + 1)
  {
  }

  lemma RowKept(now: seq<int>, previous: seq<int>, before: seq<int>, clear: bool, i: int, r: int, tn: int,
                a: seq<int>, ap: int, sa: int, b: seq<int>, bp: int, sb: int, tk: nat)
    requires SameOutside(now, previous, TILE, r, 1, 0, TILE) && 0 <= i <= r && tn <= TILE
    requires i < r ==> RowAccumulated(previous, before, clear, i, tn, a, ap, sa, b, bp, sb, tk)
    requires RowAccumulated(now, previous, clear, r, tn, a, ap, sa, b, bp, sb, tk)
    requires SameOutside(previous, before, TILE, 0, r, 0, TILE)
    ensures RowAccumulated(now, before, clear, i, tn, a, ap, sa, b, bp, sb, tk)
  {
  }

  lemma StoredKept(now: seq<int>, previous: seq<int>, sc: int, m: int, n: int, bank: seq<int>, i: int, r: int, tn: int)
    requires SameOutside(now, previous, sc, m + r, 1, n, tn) && 0 <= i < r && 0 <= n && n + tn <= sc
    requires RowStored(previous, sc, m, n, bank, i, tn)
    ensures RowStored(now, sc, m, n, bank, i, tn)
  {
  }

  predicate RowInside(m: int, i: int, sc: int, n: int, tn: int, length: nat) {
    (m + i) * sc + n + tn <= length
  }

  // ---------- the tiled product ----------

  /** The first `k` terms of rows `m` to `m + tm` of the product are in the accumulators. */
  ghost predicate Partial(bank: seq<int>, m: int, tm: int, n: int, tn: int,
                          a: seq<int>, sa: int, b: seq<int>, sb: int, k: nat) {
    forall i | 0 <= i < tm :: RowPartial(bank, m, i, n, tn, a, sa, b, sb, k)
  }

  ghost predicate RowPartial(bank: seq<int>, m: int, i: int, n: int, tn: int,
                             a: seq<int>, sa: int, b: seq<int>, sb: int, k: nat) {
    forall j | 0 <= j < tn :: Acc(bank, i, j) == Dot(a, (m + i) * sa, b, n + j, sb, k)
  }

  /** One command takes a row of accumulators from the first `k` terms to the first `k + tk`. */
  lemma NextPartial(now: seq<int>, before: seq<int>, m: int, i: int, n: int, tn: int,
                    a: seq<int>, sa: int, b: seq<int>, sb: int, k: nat, tk: nat)
    requires k > 0 ==> RowPartial(before, m, i, n, tn, a, sa, b, sb, k)
    requires RowAccumulated(now, before, k == 0, i, tn, a, m * sa + k, sa, b, k * sb + n, sb, tk)
    ensures RowPartial(now, m, i, n, tn, a, sa, b, sb, k + tk)
  {
    forall j | 0 <= j < tn
      ensures Acc(now, i, j) == Dot(a, (m + i) * sa, b, n + j, sb, k + tk)
    {
      DotSplit(a, (m + i) * sa, b, n + j, sb, k, tk);
      assert (m + i) * sa == m * sa + i * sa;
    }
  }

  /** The cells of rows `m` to `m + tm` and columns `n` to `n + tn` hold the product. */
  ghost predicate TileDone(c: seq<int>, sc: int, m: int, tm: int, n: int, tn: int,
                           a: seq<int>, sa: int, b: seq<int>, sb: int, k: nat) {
    forall i, j | m <= i < m + tm && n <= j < n + tn :: CellAt(c, sc, i, j) == Dot(a, i * sa, b, j, sb, k)
  }

  lemma StoredTile(c: seq<int>, sc: int, bank: seq<int>, m: int, tm: int, n: int, tn: int,
                   a: seq<int>, sa: int, b: seq<int>, sb: int, k: nat)
    requires Partial(bank, m, tm, n, tn, a, sa, b, sb, k)
    requires forall i | 0 <= i < tm :: RowStored(c, sc, m, n, bank, i, tn)
    ensures TileDone(c, sc, m, tm, n, tn, a, sa, b, sb, k)
  {
    forall i, j | m <= i < m + tm && n <= j < n + tn
      ensures CellAt(c, sc, i, j) == Dot(a, i * sa, b, j, sb, k)
    {
      assert RowPartial(bank, m, i - m, n, tn, a, sa, b, sb, k) && RowStored(c, sc, m, n, bank, i - m, tn);
      assert Acc(bank, i - m, j - n) == Dot(a, (m + (i - m)) * sa, b, n + (j - n), sb, k);
      assert CellAt(c, sc, m + (i - m), n + (j - n)) == Acc(bank, i - m, j - n);
    }
  }

  /** What the product of `a` and `b` into `c` asks of the buffers; a B stride may be shorter than its rows. */
  predicate Operands(M: nat, K: nat, N: nat, a: array<int8>, sa: nat, b: array<int8>, sb: nat, c: array<int>, sc: nat) {
    && N <= sc
    && TileInside(0, sa, M, K, a.Length)
    && TileInside(0, sb, K, N, b.Length)
    && TileInside(0, sc, M, N, c.Length)
  }

  /** A tile of a matrix that lies in a buffer lies in it too. */
  lemma SubTile(s: nat, rows: nat, cols: nat, length: nat, r: nat, c: nat, tr: nat, tc: nat)
    requires TileInside(0, s, rows, cols, length) && r + tr <= rows && c + tc <= cols
    ensures TileInside(r * s + c, s, tr, tc, length)
  {
    if tr > 0 && tc > 0 {
      IndexBound(r + tr - 1, c + tc - 1, rows, s, cols);
      assert (r + tr - 1) * s == r * s + (tr - 1) * s;
      assert 0 <= r * s;
    }
  }

  lemma RowsInside(sc: nat, M: nat, N: nat, length: nat, m: nat, tm: nat, n: nat, tn: nat)
    requires TileInside(0, sc, M, N, length) && m + tm <= M && n + tn <= N && tn > 0
    ensures forall i | 0 <= i < tm :: RowInside(m, i, sc, n, tn, length)
  {
    forall i | 0 <= i < tm
      ensures RowInside(m, i, sc, n, tn, length)
    {
      IndexBound(m + i, n + tn - 1, M, sc, N);
    }
  }

  /** One tile of C: every tile of its row of A with the matching tile of its column of B. */
  method ProductTile(M: nat, K: nat, N: nat, a: array<int8>, sa: nat, b: array<int8>, sb: nat,
                     c: array<int>, sc: nat, unit: TileUnit, m: nat, tm: nat, n: nat, tn: nat)
    requires unit.Ready() && c != unit.bank && Operands(M, K, N, a, sa, b, sb, c, sc)
    requires 0 < tm <= TILE && 0 < tn <= TILE && m + tm <= M && n + tn <= N
    modifies c, unit.bank
    ensures K >= 1 ==> TileDone(c[..], sc, m, tm, n, tn, a[..], sa, b[..], sb, K)
    ensures K == 0 ==> c[..] == old(c[..])
    ensures SameOutside(c[..], old(c[..]), sc, m, tm, n, tn)
  {
    var k := 0;
    ghost var c0 := c[..];
    ghost var done := 0;
    RowsInside(sc, M, N, c.Length, m, tm, n, tn);
    while k < K
      invariant 0 <= k && done == (if k < K then k else K)
      invariant k > 0 ==> Partial(unit.bank[..], m, tm, n, tn, a[..], sa, b[..], sb, done)
      invariant K >= 1 && k >= K ==> TileDone(c[..], sc, m, tm, n, tn, a[..], sa, b[..], sb, K)
      invariant SameOutside(c[..], c0, sc, m, tm, n, tn)
      invariant K == 0 ==> c[..] == c0
    {
      var tk := if K - k < TILE then K - k else TILE;
      SubTile(sa, M, K, a.Length, m, k, tm, tk);
      SubTile(sb, K, N, b.Length, k, n, tk, tn);
      ghost var before := unit.bank[..];
      unit.Command(a, m * sa + k, b, k * sb + n, c, m * sc + n, sa, sb, sc, tm, tk, tn, k == 0, k + TILE >= K, m, n);
      done := k + tk;
      forall i | 0 <= i < tm
        ensures RowPartial(unit.bank[..], m, i, n, tn, a[..], sa, b[..], sb, done)
      {
        NextPartial(unit.bank[..], before, m, i, n, tn, a[..], sa, b[..], sb, k, tk);
      }
      if k + TILE >= K {
        StoredTile(c[..], sc, unit.bank[..], m, tm, n, tn, a[..], sa, b[..], sb, K);
      }
      k := k + TILE;
    }
  }

  /** Writing other columns keeps a finished tile. */
  lemma TileKept(c: seq<int>, before: seq<int>, sc: int, m: int, tm: int, n: int, tn: int,
                 r: int, tr: int, q: int, tq: int,
                 a: seq<int>, sa: int, b: seq<int>, sb: int, k: nat)
    requires SameOutside(c, before, sc, r, tr, q, tq) && 0 <= n && n + tn <= sc
    requires m + tm <= r || n + tn <= q
    requires TileDone(before, sc, m, tm, n, tn, a, sa, b, sb, k)
    ensures TileDone(c, sc, m, tm, n, tn, a, sa, b, sb, k)
  {
  }

  /** One row of tiles of C. */
  method ProductRow(M: nat, K: nat, N: nat, a: array<int8>, sa: nat, b: array<int8>, sb: nat,
                    c: array<int>, sc: nat, unit: TileUnit, m: nat, tm: nat)
    requires unit.Ready() && c != unit.bank && Operands(M, K, N, a, sa, b, sb, c, sc)
    requires 0 < tm <= TILE && m + tm <= M
    modifies c, unit.bank
    ensures K >= 1 ==> TileDone(c[..], sc, m, tm, 0, N, a[..], sa, b[..], sb, K)
    ensures SameOutside(c[..], old(c[..]), sc, m, tm, 0, N)
    ensures N == 0 || K == 0 ==> c[..] == old(c[..])
  {
    var n := 0;
    ghost var c0 := c[..];
    ghost var done := 0;
    while n < N
      invariant 0 <= n && done == (if n < N then n else N)
      invariant K >= 1 ==> TileDone(c[..], sc, m, tm, 0, done, a[..], sa, b[..], sb, K)
      invariant SameOutside(c[..], c0, sc, m, tm, 0, done)
      invariant N == 0 || K == 0 ==> c[..] == c0
    {
      var tn := if N - n < TILE then N - n else TILE;
      ghost var before := c[..];
      ProductTile(M, K, N, a, sa, b, sb, c, sc, unit, m, tm, n, tn);
      if K >= 1 {
        TileKept(c[..], before, sc, m, tm, 0, n, m, tm, n, tn, a[..], sa, b[..], sb, K);
        JoinColumns(c[..], sc, m, tm, n, tn, a[..], sa, b[..], sb, K);
      }
      done := n + tn;
      n := n + TILE;
    }
  }

  lemma JoinColumns(c: seq<int>, sc: int, m: int, tm: int, n: int, tn: int,
                    a: seq<int>, sa: int, b: seq<int>, sb: int, k: nat)
    requires TileDone(c, sc, m, tm, 0, n, a, sa, b, sb, k) && TileDone(c, sc, m, tm, n, tn, a, sa, b, sb, k)
    ensures TileDone(c, sc, m, tm, 0, n + tn, a, sa, b, sb, k)
  {
  }

  lemma JoinRows(c: seq<int>, sc: int, m: int, tm: int, n: int, a: seq<int>, sa: int, b: seq<int>, sb: int, k: nat)
    requires TileDone(c, sc, 0, m, 0, n, a, sa, b, sb, k) && TileDone(c, sc, m, tm, 0, n, a, sa, b, sb, k)
    ensures TileDone(c, sc, 0, m + tm, 0, n, a, sa, b, sb, k)
  {
  }

  /**
    The tiled product. For all sizes, and all strides that keep the rows of C apart, it leaves the plain
    product in C and changes no other word of C; a product of no terms, though, is not stored at all.
  */
  method GemmrvMult(M: nat, K: nat, N: nat, a: array<int8>, sa: nat, b: array<int8>, sb: nat,
                    c: array<int>, sc: nat, unit: TileUnit)
    requires unit.Ready() && c != unit.bank && Operands(M, K, N, a, sa, b, sb, c, sc)
    modifies c, unit.bank
    ensures K >= 1 ==> IsProduct(c[..], sc, a[..], sa, b[..], sb, M, K, N)
    ensures K == 0 ==> c[..] == old(c[..])
    ensures forall p | 0 <= p < c.Length && !InMatrix(p, M, N, sc) :: c[p] == old(c[p])
  {
    var m := 0;
    ghost var c0 := c[..];
    ghost var done := 0;
    while m < M
      invariant 0 <= m && done == (if m < M then m else M)
      invariant K >= 1 ==> TileDone(c[..], sc, 0, done, 0, N, a[..], sa, b[..], sb, K)
      invariant SameOutside(c[..], c0, sc, 0, done, 0, N)
      invariant N == 0 || K == 0 ==> c[..] == c0
    {
      var tm := if M - m < TILE then M - m else TILE;
      ghost var before := c[..];
      ProductRow(M, K, N, a, sa, b, sb, c, sc, unit, m, tm);
      if K >= 1 {
        TileKept(c[..], before, sc, 0, m, 0, N, m, tm, 0, N, a[..], sa, b[..], sb, K);
        JoinRows(c[..], sc, m, tm, N, a[..], sa, b[..], sb, K);
      }
      done := m + tm;
      m := m + TILE;
    }
    if sc > 0 {
      OtherWords(c[..], c0, sc, M, N);
    }
  }

  /** Every word of a buffer is a cell, so equal cells outside the matrix are equal words outside it. */
  lemma OtherWords(c: seq<int>, before: seq<int>, sc: int, m: nat, n: nat)
    requires |c| == |before| && 0 < sc && SameOutside(c, before, sc, 0, m, 0, n)
    ensures forall p | 0 <= p < |c| && !InMatrix(p, m, n, sc) :: c[p] == before[p]
  {
    forall p | 0 <= p < |c| && !InMatrix(p, m, n, sc)
      ensures c[p] == before[p]
    {
      var i, j := p / sc, p % sc;
      assert IsCell(p, i, j, sc);
      assert CellAt(c, sc, i, j) == CellAt(before, sc, i, j);
    }
  }
}
