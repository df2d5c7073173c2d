/**
  The steps between and around the matrix products of the network: padded weights, bias and rectifier,
  pooling. A layer is a grid: the sequence of its cells, row after row.
*/
module Layers {
  import opened Arith
  import opened Gemm
  import opened Convolution

  // ---------- grids ----------

  function GridAt(cols: nat, f: (int, int) -> int, p: int): int {
    if cols > 0 then f(p / cols, p % cols) else 0
  }

  function Grid(rows: nat, cols: nat, f: (int, int) -> int): (g: seq<int>)
    ensures |g| == rows * cols
  {
    NonNegative(rows, cols);
    seq(rows * cols, p => GridAt(cols, f, p))
  }

  lemma GridIs(s: seq<int>, rows: nat, cols: nat, f: (int, int) -> int)
    requires rows * cols <= |s|
    requires forall i, j | 0 <= i < rows && 0 <= j < cols :: CellAt(s, cols, i, j) == f(i, j)
    ensures 0 <= rows * cols && s[..rows * cols] == Grid(rows, cols, f)
  {
    NonNegative(rows, cols);
    if cols > 0 {
      forall p | 0 <= p < rows * cols
        ensures s[p] == GridAt(cols, f, p)
      {
        CellOf(p, rows, cols);
        assert CellAt(s, cols, p / cols, p % cols) == s[p];
      }
    } else {
      assert rows * cols == 0;
    }
  }

  lemma CellOf(p: nat, rows: nat, cols: nat)
    requires 0 < cols && p < rows * cols
    ensures 0 <= p / cols < rows && 0 <= p % cols < cols && p / cols * cols + p % cols == p
  {
    LessFactor(p / cols, rows, cols);
  }

  lemma LessFactor(d: nat, rows: nat, cols: nat)
    ensures d * cols < rows * cols ==> d < rows
  {
    if d >= rows {
      NonNegative(d - rows, cols);
      assert (d - rows) * cols == d * cols - rows * cols;
    }
  }

  // ---------- padded weights ----------

  function Padded(src: seq<int>, m: int, k: int, i: int, j: int): int {
    if i < m && j < k then CellAt(src, k, i, j) else 0
  }

  ghost predicate IsPadded(dst: seq<int>, src: seq<int>, m: int, k: int, pm: int, pk: int) {
    forall i, j | 0 <= i < pm && 0 <= j < pk :: CellAt(dst, pk, i, j) == Padded(src, m, k, i, j)
  }

  /** Copies an `m` by `k` matrix into a `pm` by `pk` one and fills up with zeros. */
  method PadAndCopyWeights(dst: array<int8>, src: array<int8>, m: nat, k: nat, pm: nat, pk: nat)
    requires dst != src && m * k <= src.Length && pm * pk <= dst.Length
    modifies dst
    ensures IsPadded(dst[..], src[..], m, k, pm, pk)
  {
    for i := 0 to pm
      invariant IsPadded(dst[..], src[..], m, k, i, pk)
    {
      for j := 0 to pk
        invariant IsPadded(dst[..], src[..], m, k, i, pk)
        invariant forall j' | 0 <= j' < j :: CellAt(dst[..], pk, i, j') == Padded(src[..], m, k, i, j')
      {
        PutPadded(dst, src, m, k, i, j, pm, pk);
      }
    }
  }

  method PutPadded(dst: array<int8>, src: array<int8>, m: nat, k: nat, i: nat, j: nat, pm: nat, pk: nat)
    requires dst != src && m * k <= src.Length && pm * pk <= dst.Length && i < pm && j < pk
    modifies dst
    ensures CellAt(dst[..], pk, i, j) == Padded(src[..], m, k, i, j)
    ensures forall i', j' | 0 <= j' < pk && (i', j') != (i, j) ::
              CellAt(dst[..], pk, i', j') == CellAt(old(dst[..]), pk, i', j')
  {
    ghost var before := dst[..];
    CellInside(i, j, pm, pk);
    var value: int8 := 0;
    if i < m && j < k {
      CellInside(i, j, m, k);
      value := src[i * k + j];
    }
    dst[i * pk + j] := value;
    CellUpdate(dst[..], before, i * pk + j, pk, i, j, value);
  }

  /** Padding never changes a product: the zeros meet whatever lies beyond the real rows. */
  lemma PaddedProduct(dst: seq<int>, src: seq<int>, m: nat, k: nat, pm: nat, pk: nat,
                      i: nat, x: seq<int>, q: int, sx: int)
    requires IsPadded(dst, src, m, k, pm, pk) && i < m <= pm && k <= pk
    ensures Dot(dst, i * pk, x, q, sx, pk) == Dot(src, i * k, x, q, sx, k)
  {
    DotSplit(dst, i * pk, x, q, sx, k, pk - k);
    forall j | 0 <= j < k
      ensures RowAt(dst, i * pk, j) == RowAt(src, i * k, j)
    {
      assert CellAt(dst, pk, i, j) == Padded(src, m, k, i, j);
    }
    DotSame(dst, i * pk, x, q, sx, src, i * k, x, q, sx, k);
    var rest := i * pk + k;
    forall j | 0 <= j < pk - k
      ensures RowAt(dst, rest, j) == 0
    {
      assert CellAt(dst, pk, i, k + j) == Padded(src, m, k, i, k + j);
    }
    DotZeros(dst, rest, x, q + k * sx, sx, pk - k);
  }

  /**
    The product of a layer, by software or by the accelerator. In software, `x` has `sx` columns and so has
    the result. The accelerator pads the weights and takes `n` columns of `x`, of which the first `sx` count:
    with `sx == 1` the columns overlap and only the first is the product.
  */
  method Multiply(useHw: bool, w: array<int8>, m: nat, k: nat, pm: nat, pk: nat, scratch: array<int8>,
                  x: array<int8>, sx: nat, n: nat, y: array<int>, unit: TileUnit)
    requires unit.Ready() && y != unit.bank && scratch != w && scratch != x
    requires m <= pm && 1 <= k <= pk && sx <= n && m * k <= w.Length && pm * pk <= scratch.Length
    requires pm * n <= y.Length && k * sx <= x.Length && TileInside(0, sx, pk, n, x.Length)
    modifies scratch, y, unit.bank
    ensures IsProduct(y[..], if useHw then n else sx, w[..], k, x[..], sx, m, k, sx)
  {
    if useHw {
      PadAndCopyWeights(scratch, w, m, k, pm, pk);
      WholeMatrix(pm, pk, scratch.Length);
      WholeMatrix(pm, n, y.Length);
      GemmrvMult(pm, pk, n, scratch, pk, x, sx, y, n, unit);
      forall i, j | 0 <= i < m && 0 <= j < sx
        ensures CellAt(y[..], n, i, j) == Dot(w[..], i * k, x[..], j, sx, k)
      {
        PaddedProduct(scratch[..], w[..], m, k, pm, pk, i, x[..], j, sx);
      }
    } else {
      SmallerProduct(m, pm, sx, n);
      GemmSw(w, x, y, m, k, sx);
    }
  }

  lemma WholeMatrix(rows: nat, cols: nat, length: nat)
    requires rows * cols <= length
    ensures TileInside(0, cols, rows, cols, length)
  {
    assert rows > 0 ==> (rows - 1) * cols + cols == rows * cols;
  }

  lemma SmallerProduct(a: nat, b: nat, c: nat, d: nat)
    requires a <= b && c <= d
    ensures a * c <= b * d
  {
    NonNegative(b - a, d);
    NonNegative(a, d - c);
    assert (b - a) * d == b * d - a * d;
    assert a * (d - c) == a * d - a * c;
  }

  // ---------- bias, rectifier and scaling ----------

  /** Two's complement addition wraps. */
  function Wrap32(x: int): (r: int)
    ensures FitsInt32(r) && (FitsInt32(x) ==> r == x)
  {
    (x + 0x8000_0000) % 0x1_0000_0000 - 0x8000_0000
  }

  function Rectify(v: int, b: int, shift: nat): (r: int)
    ensures 0 <= r <= 127
  {
    var t := Wrap32(v + b);
    var u := if t < 0 then 0 else t / Pow2(shift);
    ShiftDown(if t < 0 then 0 else t, Pow2(shift));
    if u > 127 then 127 else u
  }

  /** The sum in two's complement, rectified, divided by `d` and cut at 127, said by inequalities. */
  predicate Rectified(v: int, b: int, d: int, r: int) {
    var t := (v + b + 0x8000_0000) % 0x1_0000_0000 - 0x8000_0000;
    && (t < 0 ==> r == 0)
    && (t >= 0 && r < 127 ==> 0 <= r && r * d <= t < (r + 1) * d)
    && (r >= 127 ==> r == 127 && 127 * d <= t)
  }

  /** For the four shifts of the network the divisor is 2048, 4096, 1024 and 256. */
  lemma RectifyMeans(v: int, b: int, shift: nat)
    ensures Rectified(v, b, Pow2(shift), Rectify(v, b, shift))
    ensures Pow2(11) == 2048 && Pow2(12) == 4096 && Pow2(10) == 1024 && Pow2(8) == 256
  {
    hide Pow2;
    var t, d := Wrap32(v + b), Pow2(shift);
    ShiftPowers();
    if t >= 0 {
      DivBounds(t, d);
      Quotient(t, d);
    }
  }

  lemma ShiftPowers()
    ensures Pow2(11) == 2048 && Pow2(12) == 4096 && Pow2(10) == 1024 && Pow2(8) == 256
  {
    assert Pow2(8) == 256;
    assert Pow2(10) == 4 * Pow2(8);
  }

  lemma Quotient(t: nat, d: nat)
    requires d > 0
    ensures t / d * d <= t < (t / d + 1) * d
    ensures t / d >= 127 ==> 127 * d <= t
  {
    DivBounds(t, d);
    assert (t / d + 1) * d == t / d * d + d;
    MulMono(127, t / d, d);
  }

  /** There is only one such byte. */
  lemma RectifiedUnique(v: int, b: int, d: int, r: int, q: int)
    requires d > 0 && Rectified(v, b, d, r) && Rectified(v, b, d, q)
    ensures r == q
  {
    MulMono(r + 1, q, d);
    MulMono(q + 1, r, d);
  }

  lemma ShiftDown(t: nat, d: nat)
    requires d > 0
    ensures 0 <= t / d
  {
  }

  /** Applies bias, rectifier and scaling to an `m` by `n` matrix with rows `py` apart, and closes the gaps. */
  method ApplyBiasReluScale(y: array<int>, out: array<int8>, bias: array<int>, m: nat, n: nat, py: nat, shift: nat)
    requires m <= bias.Length && n <= py && m * py <= y.Length && m * n <= out.Length
    modifies out
    ensures forall i, j | 0 <= i < m && 0 <= j < n ::
              CellAt(out[..], n, i, j) == Rectify(CellAt(y[..], py, i, j), At(bias[..], i), shift)
    ensures forall i, j | 0 <= i < m && 0 <= j < n ::
              Rectified(CellAt(y[..], py, i, j), bias[i], Pow2(shift), CellAt(out[..], n, i, j))
  {
    for i := 0 to m
      invariant forall i', j | 0 <= i' < i && 0 <= j < n ::
                  CellAt(out[..], n, i', j) == Rectify(CellAt(y[..], py, i', j), At(bias[..], i'), shift)
    {
      var b := bias[i];
      for j := 0 to n
        invariant forall i', j' | 0 <= j' < n && (0 <= i' < i || (i' == i && j' < j)) ::
                    CellAt(out[..], n, i', j') == Rectify(CellAt(y[..], py, i', j'), At(bias[..], i'), shift)
      {
        CellInside(i, j, m, py);
        CellInside(i, j, m, n);
        PutByte(out, n, i, j, Rectify(y[i * py + j], b, shift));
      }
    }
    forall i, j | 0 <= i < m && 0 <= j < n
      ensures Rectified(CellAt(y[..], py, i, j), bias[i], Pow2(shift), CellAt(out[..], n, i, j))
    {
      hide Rectified, Rectify, Pow2;
      RectifyMeans(CellAt(y[..], py, i, j), bias[i], shift);
    }
  }

  method PutByte(out: array<int8>, n: nat, i: nat, j: nat, value: int8)
    requires j < n && 0 <= i * n + j < out.Length
    modifies out
    ensures CellAt(out[..], n, i, j) == value
    ensures forall i', j' | 0 <= j' < n && (i', j') != (i, j) ::
              CellAt(out[..], n, i', j') == CellAt(old(out[..]), n, i', j')
  {
    ghost var before := out[..];
    out[i * n + j] := value;
    CellUpdate(out[..], before, i * n + j, n, i, j, value);
  }

  // ---------- pooling ----------

  function Max(a: int, b: int): int {
    if b > a then b else a
  }

  /** Cell `n` of the 2x2 window at `(y, x)`. */
  function WindowCell(fm: seq<int>, h: nat, w: nat, ch: int, y: int, x: int, n: int): int {
    At(fm, ch * (h * w) + (y * 2 + n / 2) * w + (x * 2 + n % 2))
  }

  /** The largest of the first `n` cells of the window. */
  function Best(fm: seq<int>, h: nat, w: nat, ch: int, y: int, x: int, n: nat): int {
    if n == 0 then -128 else Max(Best(fm, h, w, ch, y, x, n - 1), WindowCell(fm, h, w, ch, y, x, n - 1))
  }

  /** Pooling keeps the largest byte of each window: a bound that is attained. */
  lemma BestIsMaximum(fm: seq<int>, h: nat, w: nat, ch: int, y: int, x: int)
    requires Bytes8(fm)
    ensures forall n | 0 <= n < 4 :: WindowCell(fm, h, w, ch, y, x, n) <= Best(fm, h, w, ch, y, x, 4)
    ensures exists n :: 0 <= n < 4 && WindowCell(fm, h, w, ch, y, x, n) == Best(fm, h, w, ch, y, x, 4)
  {
    var c0, c1, c2, c3 := WindowCell(fm, h, w, ch, y, x, 0), WindowCell(fm, h, w, ch, y, x, 1),
      WindowCell(fm, h, w, ch, y, x, 2), WindowCell(fm, h, w, ch, y, x, 3);
    assert Best(fm, h, w, ch, y, x, 1) == c0;
    assert Best(fm, h, w, ch, y, x, 2) == Max(c0, c1);
    assert Best(fm, h, w, ch, y, x, 3) == Max(Max(c0, c1), c2);
    assert Best(fm, h, w, ch, y, x, 4) == Max(Max(Max(c0, c1), c2), c3);
  }

  function PoolCells(fm: seq<int>, h: nat, w: nat): (int, int) -> int {
    (ch, q) => if w / 2 > 0 then Best(fm, h, w, ch, q / (w / 2), q % (w / 2), 4) else 0
  }

  function PoolLayer(fm: seq<int>, c: nat, h: nat, w: nat): seq<int> {
    Grid(c, (h / 2) * (w / 2), PoolCells(fm, h, w))
  }

  lemma WindowInside(c: nat, h: nat, w: nat, ch: nat, y: nat, x: nat, kh: nat, kw: nat)
    requires ch < c && y < h / 2 && x < w / 2 && kh < 2 && kw < 2
    ensures 0 <= ch * (h * w) + (y * 2 + kh) * w + (x * 2 + kw) < c * (h * w)
  {
    NonNegative(ch, h * w);
    NonNegative(y * 2 + kh, w);
    MulStep(y * 2 + kh, h, w);
    MulStep(ch, c, h * w);
  }

  lemma WindowAt(cells: seq<int>, c: nat, h: nat, w: nat, ch: nat, y: nat, x: nat, kh: nat, kw: nat)
    requires ch < c && y < h / 2 && x < w / 2 && kh < 2 && kw < 2 && |cells| == c * (h * w)
    ensures 0 <= ch * (h * w) + (y * 2 + kh) * w + (x * 2 + kw) < |cells|
    ensures Best(cells, h, w, ch, y, x, 2 * kh + kw + 1)
         == Max(Best(cells, h, w, ch, y, x, 2 * kh + kw), cells[ch * (h * w) + (y * 2 + kh) * w + (x * 2 + kw)])
  {
    WindowInside(c, h, w, ch, y, x, kh, kw);
  }

  method PoolWindow(fm: array<int8>, c: nat, h: nat, w: nat, ch: nat, y: nat, x: nat) returns (best: int8)
    requires c * (h * w) <= fm.Length && ch < c && y < h / 2 && x < w / 2
    ensures 0 <= c * (h * w) && best == Best(fm[..c * (h * w)], h, w, ch, y, x, 4)
  {
    NonNegative(h, w);
    NonNegative(c, h * w);
    ghost var cells := fm[..c * (h * w)];
    best := -128;
    for kh := 0 to 2
      invariant best == Best(cells, h, w, ch, y, x, 2 * kh)
    {
      for kw := 0 to 2
        invariant best == Best(cells, h, w, ch, y, x, 2 * kh + kw)
      {
        hide Best;
        WindowAt(cells, c, h, w, ch, y, x, kh, kw);
        var value := fm[ch * (h * w) + (y * 2 + kh) * w + (x * 2 + kw)];
        if value > best {
          best := value;
        }
      }
    }
  }

  /** 2x2 maximum pooling; an odd last row or column is dropped. */
  method MaxPool2d(fm: array<int8>, out: array<int8>, c: nat, h: nat, w: nat)
    requires fm != out && c * (h * w) <= fm.Length && c * ((h / 2) * (w / 2)) <= out.Length
    modifies out
    ensures 0 <= c * (h * w) && 0 <= c * ((h / 2) * (w / 2))
    ensures out[..c * ((h / 2) * (w / 2))] == PoolLayer(fm[..c * (h * w)], c, h, w)
  {
    NonNegative(h, w);
    NonNegative(c, h * w);
    ghost var cells := fm[..c * (h * w)];
    var ph, pw := h / 2, w / 2;
    var area := ph * pw;
    ghost var f := PoolCells(cells, h, w);
    for ch := 0 to c
      invariant forall i, j | 0 <= i < ch && 0 <= j < area :: CellAt(out[..], area, i, j) == f(i, j)
    {
      for y := 0 to ph
        invariant forall i, j | 0 <= j < area && (0 <= i < ch || (i == ch && j < y * pw)) ::
                    CellAt(out[..], area, i, j) == f(i, j)
      {
        for x := 0 to pw
          invariant forall i, j | 0 <= j < area && (0 <= i < ch || (i == ch && j < y * pw + x)) ::
                      CellAt(out[..], area, i, j) == f(i, j)
        {
          var best := PoolWindow(fm, c, h, w, ch, y, x);
          CellInside(y, x, ph, pw);
          CellInside(ch, y * pw + x, c, area);
          DivUnique(y * pw + x, y, pw);
          PutByte(out, area, ch, y * pw + x, best);
        }
        assert (y + 1) * pw == y * pw + pw;
      }
    }
    GridIs(out[..], c, area, f);
  }

  // ---------- the layers as functions ----------

  function ConvCells(w: seq<int>, b: seq<int>, shift: nat, s: ConvShape, img: seq<int>): (int, int) -> int {
    (m, q) => Rectify(Conv(w, img, s, m, q / OutW(s), q % OutW(s)), At(b, m), shift)
  }

  /** A convolution layer with rectified output. */
  function ConvLayer(w: seq<int>, b: seq<int>, shift: nat, s: ConvShape, filters: nat, img: seq<int>): seq<int> {
    Grid(filters, Columns(s), ConvCells(w, b, shift, s, img))
  }

  function DenseCells(w: seq<int>, b: seq<int>, shift: nat, k: nat, x: seq<int>): (int, int) -> int {
    (m, q) => Rectify(Dot(w, m * k, x, 0, 1, k), At(b, m), shift)
  }

  /** A fully connected layer with rectified output. */
  function DenseLayer(w: seq<int>, b: seq<int>, shift: nat, m: nat, k: nat, x: seq<int>): seq<int> {
    Grid(m, 1, DenseCells(w, b, shift, k, x))
  }

  /** What follows the product of an unrolled image is the convolution layer. */
  lemma ConvLayerIs(out: seq<int>, y: seq<int>, x: seq<int>, n: nat, rows: nat, w: seq<int>, b: seq<int>, shift: nat,
                    s: ConvShape, filters: nat, img: seq<int>)
    requires IsUnrolled(x, n, img, s, rows) && Rows(s) <= rows && Columns(s) <= n
    requires IsProduct(y, n, w, Rows(s), x, n, filters, Rows(s), n)
    requires filters * Columns(s) <= |out|
    requires forall i, j | 0 <= i < filters && 0 <= j < Columns(s) ::
               CellAt(out, Columns(s), i, j) == Rectify(CellAt(y, n, i, j), At(b, i), shift)
    ensures 0 <= filters * Columns(s) && out[..filters * Columns(s)] == ConvLayer(w, b, shift, s, filters, img)
  {
    var f := ConvCells(w, b, shift, s, img);
    forall i, j | 0 <= i < filters && 0 <= j < Columns(s)
      ensures CellAt(out, Columns(s), i, j) == f(i, j)
    {
      UnrolledProduct(w, x, n, img, s, rows, i, j);
    }
    GridIs(out, filters, Columns(s), f);
  }

  lemma DenseLayerIs(out: seq<int>, y: seq<int>, py: nat, x: seq<int>, w: seq<int>, b: seq<int>,
                     shift: nat, m: nat, k: nat)
    requires k <= |x| && 1 <= py && m <= |out|
    requires IsProduct(y, py, w, k, x, 1, m, k, 1)
    requires forall i, j | 0 <= i < m && 0 <= j < 1 ::
               CellAt(out, 1, i, j) == Rectify(CellAt(y, py, i, j), At(b, i), shift)
    ensures out[..m] == DenseLayer(w, b, shift, m, k, x[..k])
  {
    var f := DenseCells(w, b, shift, k, x[..k]);
    forall i, j | 0 <= i < m && 0 <= j < 1
      ensures CellAt(out, 1, i, j) == f(i, j)
    {
      DensePrefix(w, i * k, x, k);
    }
    GridIs(out, m, 1, f);
  }

  lemma DensePrefix(w: seq<int>, ra: int, x: seq<int>, k: nat)
    requires k <= |x|
    ensures Dot(w, ra, x, 0, 1, k) == Dot(w, ra, x[..k], 0, 1, k)
  {
    DotSame(w, ra, x, 0, 1, w, ra, x[..k], 0, 1, k);
  }

  // ---------- the layers by indices ----------

  lemma GridCell(rows: nat, cols: nat, f: (int, int) -> int, i: nat, j: nat)
    requires i < rows && j < cols
    ensures 0 <= i * cols + j < |Grid(rows, cols, f)| && Grid(rows, cols, f)[i * cols + j] == f(i, j)
  {
    CellInside(i, j, rows, cols);
    DivUnique(i * cols + j, i, cols);
  }

  /** Cell `(y, x)` of map `ch` is the largest of the four cells of its window. */
  predicate IsPooled(out: seq<int>, fm: seq<int>, h: nat, w: nat, ch: int, y: int, x: int) {
    var r := At(out, ch * ((h / 2) * (w / 2)) + (y * (w / 2) + x));
    var a, b := ch * (h * w) + (2 * y) * w + 2 * x, ch * (h * w) + (2 * y + 1) * w + 2 * x;
    && At(fm, a) <= r && At(fm, a + 1) <= r && At(fm, b) <= r && At(fm, b + 1) <= r
    && (r == At(fm, a) || r == At(fm, a + 1) || r == At(fm, b) || r == At(fm, b + 1))
  }

  /** `out` pools the `c` maps of `h` by `w` cells in `fm`. */
  ghost predicate IsPool(out: seq<int>, fm: seq<int>, c: nat, h: nat, w: nat) {
    forall ch: nat, y: nat, x: nat | ch < c && y < h / 2 && x < w / 2 :: IsPooled(out, fm, h, w, ch, y, x)
  }

  /** Cell `(oh, ow)` of map `m` is the convolution with its filter, with that filter's bias, rectified. */
  predicate IsConvCell(out: seq<int>, w: seq<int>, b: seq<int>, d: int, s: ConvShape, img: seq<int>,
                       m: int, oh: int, ow: int) {
    var height, width := s.height - s.kernel + 1, s.width - s.kernel + 1;
    Rectified(Conv(w, img, s, m, oh, ow), At(b, m), d, At(out, m * (height * width) + (oh * width + ow)))
  }

  /** `out` holds the rectified convolutions of `img` with all filters. */
  ghost predicate IsConv(out: seq<int>, w: seq<int>, b: seq<int>, d: int, s: ConvShape, filters: nat, img: seq<int>) {
    forall m: nat, oh: nat, ow: nat | m < filters && oh <= s.height - s.kernel && ow <= s.width - s.kernel ::
      IsConvCell(out, w, b, d, s, img, m, oh, ow)
  }

  /** `out` holds the products of `m` rows of weights with `x`, with bias, rectified and divided by `d`. */
  ghost predicate IsDense(out: seq<int>, w: seq<int>, b: seq<int>, d: int, m: nat, k: nat, x: seq<int>) {
    forall i: nat | i < m :: Rectified(Dot(w, i * k, x, 0, 1, k), At(b, i), d, At(out, i))
  }

  lemma PoolLayerIs(fm: seq<int>, c: nat, h: nat, w: nat)
    requires Bytes8(fm)
    ensures IsPool(PoolLayer(fm, c, h, w), fm, c, h, w)
  {
    hide IsPooled, PoolLayer;
    forall ch: nat, y: nat, x: nat | ch < c && y < h / 2 && x < w / 2
      ensures IsPooled(PoolLayer(fm, c, h, w), fm, h, w, ch, y, x)
    {
      PoolCell(fm, c, h, w, ch, y, x);
    }
  }

  /** A pooled cell bounds the four cells of its window, and is one of them. */
  lemma PoolCell(fm: seq<int>, c: nat, h: nat, w: nat, ch: nat, y: nat, x: nat)
    requires Bytes8(fm) && ch < c && y < h / 2 && x < w / 2
    ensures IsPooled(PoolLayer(fm, c, h, w), fm, h, w, ch, y, x)
  {
    hide Best;
    var q := y * (w / 2) + x;
    CellInside(y, x, h / 2, w / 2);
    DivUnique(q, y, w / 2);
    GridCell(c, (h / 2) * (w / 2), PoolCells(fm, h, w), ch, q);
    BestIsMaximum(fm, h, w, ch, y, x);
    assert WindowCell(fm, h, w, ch, y, x, 0) == At(fm, ch * (h * w) + (2 * y) * w + 2 * x);
    assert WindowCell(fm, h, w, ch, y, x, 1) == At(fm, ch * (h * w) + (2 * y) * w + 2 * x + 1);
    assert WindowCell(fm, h, w, ch, y, x, 2) == At(fm, ch * (h * w) + (2 * y + 1) * w + 2 * x);
    assert WindowCell(fm, h, w, ch, y, x, 3) == At(fm, ch * (h * w) + (2 * y + 1) * w + 2 * x + 1);
  }

  lemma ConvLayerCell(w: seq<int>, b: seq<int>, shift: nat, s: ConvShape, filters: nat, img: seq<int>,
                      m: nat, oh: nat, ow: nat)
    requires m < filters && oh <= s.height - s.kernel && ow <= s.width - s.kernel
    ensures IsConvCell(ConvLayer(w, b, shift, s, filters, img), w, b, Pow2(shift), s, img, m, oh, ow)
  {
    hide Rectify, Rectified, Conv;
    CellInside(oh, ow, OutH(s), OutW(s));
    DivUnique(oh * OutW(s) + ow, oh, OutW(s));
    GridCell(filters, Columns(s), ConvCells(w, b, shift, s, img), m, oh * OutW(s) + ow);
    RectifyMeans(Conv(w, img, s, m, oh, ow), At(b, m), shift);
  }

  lemma ConvLayerCells(w: seq<int>, b: seq<int>, shift: nat, s: ConvShape, filters: nat, img: seq<int>)
    ensures IsConv(ConvLayer(w, b, shift, s, filters, img), w, b, Pow2(shift), s, filters, img)
  {
    hide IsConvCell, ConvLayer;
    forall m: nat, oh: nat, ow: nat | m < filters && oh <= s.height - s.kernel && ow <= s.width - s.kernel
      ensures IsConvCell(ConvLayer(w, b, shift, s, filters, img), w, b, Pow2(shift), s, img, m, oh, ow)
    {
      ConvLayerCell(w, b, shift, s, filters, img, m, oh, ow);
    }
  }

  lemma ConvLayerBytes(w: seq<int>, b: seq<int>, shift: nat, s: ConvShape, filters: nat, img: seq<int>)
    ensures Bytes8(ConvLayer(w, b, shift, s, filters, img))
  {
    NonNegative(OutH(s), OutW(s));
    GridBytes(filters, Columns(s), ConvCells(w, b, shift, s, img));
  }

  lemma GridBytes(rows: nat, cols: nat, f: (int, int) -> int)
    requires forall i, j :: 0 <= f(i, j) <= 127
    ensures Bytes8(Grid(rows, cols, f))
  {
  }

  lemma DenseLayerCells(w: seq<int>, b: seq<int>, shift: nat, m: nat, k: nat, x: seq<int>)
    ensures IsDense(DenseLayer(w, b, shift, m, k, x), w, b, Pow2(shift), m, k, x)
  {
    hide Rectify, Rectified, Dot;
    forall i: nat | i < m
      ensures Rectified(Dot(w, i * k, x, 0, 1, k), At(b, i), Pow2(shift), At(DenseLayer(w, b, shift, m, k, x), i))
    {
      GridCell(m, 1, DenseCells(w, b, shift, k, x), i, 0);
      RectifyMeans(Dot(w, i * k, x, 0, 1, k), At(b, i), shift);
    }
  }
}
