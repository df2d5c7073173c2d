/**
  Convolution by matrix product: the image is unrolled so that every output cell becomes the product of a
  row of weights and a column of the unrolled image.
*/
module Convolution {
  import opened Arith
  import opened Gemm

  datatype Layout = Layout(channels: nat, height: nat, width: nat, kernel: nat)

  /** Images whose height and width hold the kernel. */
  type ConvShape = s: Layout | 1 <= s.kernel <= s.height && s.kernel <= s.width witness Layout(1, 1, 1, 1)

  function Size(s: ConvShape): nat {
    s.channels * (s.height * s.width)
  }

  function Rows(s: ConvShape): nat {
    s.channels * s.kernel * s.kernel
  }

  function OutH(s: ConvShape): nat {
    s.height - s.kernel + 1
  }

  function OutW(s: ConvShape): nat {
    s.width - s.kernel + 1
  }

  function Columns(s: ConvShape): nat {
    OutH(s) * OutW(s)
  }

  // ---------- direct convolution ----------

  function Pixel(img: seq<int>, s: ConvShape, c: int, y: int, x: int): int {
    At(img, c * (s.height * s.width) + y * s.width + x)
  }

  function Weight(w: seq<int>, s: ConvShape, m: int, c: int, kh: int, kw: int): int {
    At(w, m * Rows(s) + ((c * s.kernel + kh) * s.kernel + kw))
  }

  /** The first `n` terms of kernel row `kh`. */
  function RowSum(w: seq<int>, img: seq<int>, s: ConvShape, m: int, c: int, oh: int, ow: int, kh: int, n: nat): int {
    if n == 0 then 0 else
      RowSum(w, img, s, m, c, oh, ow, kh, n - 1)
      + Weight(w, s, m, c, kh, n - 1) * Pixel(img, s, c, oh + kh, ow + (n - 1))
  }

  /** The first `n` kernel rows of channel `c`. */
  function KernelSum(w: seq<int>, img: seq<int>, s: ConvShape, m: int, c: int, oh: int, ow: int, n: nat): int {
    if n == 0 then 0 else
      KernelSum(w, img, s, m, c, oh, ow, n - 1) + RowSum(w, img, s, m, c, oh, ow, n - 1, s.kernel)
  }

  /** Output cell `(oh, ow)` of filter `m`, over the first `n` channels. */
  function ConvSum(w: seq<int>, img: seq<int>, s: ConvShape, m: int, oh: int, ow: int, n: nat): int {
    if n == 0 then 0 else
      ConvSum(w, img, s, m, oh, ow, n - 1) + KernelSum(w, img, s, m, n - 1, oh, ow, s.kernel)
  }

  function Conv(w: seq<int>, img: seq<int>, s: ConvShape, m: int, oh: int, ow: int): int {
    ConvSum(w, img, s, m, oh, ow, s.channels)
  }

  // ---------- the unrolled image ----------

  /** What row `row` of the column for output cell `(oh, ow)` holds. */
  function Patch(img: seq<int>, s: ConvShape, oh: int, ow: int, row: nat): int {
    if row < Rows(s) then
      Pixel(img, s, row / s.kernel / s.kernel, oh + row / s.kernel % s.kernel, ow + row % s.kernel)
    else 0
  }

  lemma PatchAt(img: seq<int>, s: ConvShape, oh: int, ow: int, c: nat, kh: nat, kw: nat)
    requires c < s.channels && kh < s.kernel && kw < s.kernel
    ensures 0 <= (c * s.kernel + kh) * s.kernel + kw < Rows(s)
    ensures Patch(img, s, oh, ow, (c * s.kernel + kh) * s.kernel + kw) == Pixel(img, s, c, oh + kh, ow + kw)
  {
    var k := s.kernel;
    var r := c * k + kh;
    NonNegative(c, k);
    NonNegative(r, k);
    RowBelow(s, c, kh, kw);
    DivUnique(r * k + kw, r, k);
    DivUnique(r, c, k);
  }

  lemma RowBelow(s: ConvShape, c: nat, kh: nat, kw: nat)
    requires c < s.channels && kh < s.kernel && kw < s.kernel
    ensures 0 <= (c * s.kernel + kh) * s.kernel + kw < Rows(s)
  {
    var k := s.kernel;
    NonNegative(c, k);
    NonNegative(c * k + kh, k);
    MulStep(c, s.channels, k);
    MulStep(c * k + kh, s.channels * k, k);
  }

  /** The first `rows` rows of column `q` are those for output cell `(oh, ow)`. */
  ghost predicate ColumnIs(x: seq<int>, n: int, q: int, img: seq<int>, s: ConvShape, oh: int, ow: int, rows: nat) {
    forall row: nat | row < rows :: CellAt(x, n, row, q) == Patch(img, s, oh, ow, row)
  }

  /** Column `q` of the unrolled image: an output cell, or padding. */
  ghost predicate Unrolled(x: seq<int>, n: nat, q: nat, img: seq<int>, s: ConvShape, rows: nat) {
    if q < Columns(s) then ColumnIs(x, n, q, img, s, q / OutW(s), q % OutW(s), rows)
    else forall row: nat | row < rows :: CellAt(x, n, row, q) == 0
  }

  ghost predicate IsUnrolled(x: seq<int>, n: nat, img: seq<int>, s: ConvShape, rows: nat) {
    forall q: nat | q < n :: Unrolled(x, n, q, img, s, rows)
  }

  // ---------- the product of the unrolled image is the convolution ----------

  lemma {:induction false} DotRow(w: seq<int>, x: seq<int>, n: int, q: int, img: seq<int>, s: ConvShape,
                                  m: int, oh: int, ow: int, c: nat, kh: nat, l: nat)
    requires ColumnIs(x, n, q, img, s, oh, ow, Rows(s)) && c < s.channels && kh < s.kernel && l <= s.kernel
    requires 0 <= (c * s.kernel + kh) * s.kernel
    ensures Dot(w, m * Rows(s), x, q, n, (c * s.kernel + kh) * s.kernel + l)
         == Dot(w, m * Rows(s), x, q, n, (c * s.kernel + kh) * s.kernel) + RowSum(w, img, s, m, c, oh, ow, kh, l)
  {
    if l > 0 {
      DotRow(w, x, n, q, img, s, m, oh, ow, c, kh, l - 1);
      PatchAt(img, s, oh, ow, c, kh, l - 1);
      var row := (c * s.kernel + kh) * s.kernel + (l - 1);
      assert ColAt(x, q, n, row) == CellAt(x, n, row, q) == Patch(img, s, oh, ow, row);
      DotNext(w, m * Rows(s), x, q, n, row);
      assert RowAt(w, m * Rows(s), row) == Weight(w, s, m, c, kh, l - 1);
    }
  }

  lemma DotNext(a: seq<int>, ra: int, b: seq<int>, cb: int, sb: int, k: nat)
    ensures Dot(a, ra, b, cb, sb, k + 1) == Dot(a, ra, b, cb, sb, k) + RowAt(a, ra, k) * ColAt(b, cb, sb, k)
  {
  }

  lemma {:induction false} DotKernel(w: seq<int>, x: seq<int>, n: int, q: int, img: seq<int>, s: ConvShape,
                                     m: int, oh: int, ow: int, c: nat, l: nat)
    requires ColumnIs(x, n, q, img, s, oh, ow, Rows(s)) && c < s.channels && l <= s.kernel
    requires 0 <= c * s.kernel * s.kernel && 0 <= (c * s.kernel + l) * s.kernel
    ensures Dot(w, m * Rows(s), x, q, n, (c * s.kernel + l) * s.kernel)
         == Dot(w, m * Rows(s), x, q, n, c * s.kernel * s.kernel) + KernelSum(w, img, s, m, c, oh, ow, l)
  {
    hide Dot, ColumnIs, RowSum, Rows;
    if l > 0 {
      NonNegative(c, s.kernel);
      NonNegative(c * s.kernel + (l - 1), s.kernel);
      DotKernel(w, x, n, q, img, s, m, oh, ow, c, l - 1);
      DotRow(w, x, n, q, img, s, m, oh, ow, c, l - 1, s.kernel);
      assert (c * s.kernel + l) * s.kernel == (c * s.kernel + (l - 1)) * s.kernel + s.kernel;
    }
  }

  lemma {:induction false} DotChannels(w: seq<int>, x: seq<int>, n: int, q: int, img: seq<int>, s: ConvShape,
                                       m: int, oh: int, ow: int, c: nat)
    requires ColumnIs(x, n, q, img, s, oh, ow, Rows(s)) && c <= s.channels
    requires 0 <= c * s.kernel * s.kernel
    ensures Dot(w, m * Rows(s), x, q, n, c * s.kernel * s.kernel) == ConvSum(w, img, s, m, oh, ow, c)
  {
    hide ColumnIs, RowSum, KernelSum, Rows;
    if c == 0 {
      assert c * s.kernel * s.kernel == 0;
    } else {
      hide Dot;
      NonNegative(c - 1, s.kernel);
      NonNegative((c - 1) * s.kernel, s.kernel);
      DotChannels(w, x, n, q, img, s, m, oh, ow, c - 1);
      assert (c - 1) * s.kernel + s.kernel == c * s.kernel;
      DotKernel(w, x, n, q, img, s, m, oh, ow, c - 1, s.kernel);
    }
  }

  /**
    Unrolling is right: cell `(m, oh * OutW + ow)` of the product is the direct convolution, for all
    channel counts, image and kernel sizes, and paddings.
  */
  lemma UnrolledProduct(w: seq<int>, x: seq<int>, n: nat, img: seq<int>, s: ConvShape, rows: nat, m: int, q: nat)
    requires IsUnrolled(x, n, img, s, rows) && Rows(s) <= rows && q < Columns(s) <= n
    ensures Dot(w, m * Rows(s), x, q, n, Rows(s)) == Conv(w, img, s, m, q / OutW(s), q % OutW(s))
  {
    assert Unrolled(x, n, q, img, s, rows);
    DotChannels(w, x, n, q, img, s, m, q / OutW(s), q % OutW(s), s.channels);
  }

  // ---------- the same by indices ----------

  /** Where the unrolled image holds which pixel: every row and column that is not padding. */
  lemma UnrolledPixel(x: seq<int>, n: nat, img: seq<int>, s: ConvShape, rows: nat,
                      c: nat, kh: nat, kw: nat, oh: nat, ow: nat)
    requires IsUnrolled(x, n, img, s, rows) && Rows(s) <= rows && Columns(s) <= n
    requires c < s.channels && kh < s.kernel && kw < s.kernel
    requires oh <= s.height - s.kernel && ow <= s.width - s.kernel
    ensures At(x, ((c * s.kernel + kh) * s.kernel + kw) * n + (oh * (s.width - s.kernel + 1) + ow))
         == At(img, c * (s.height * s.width) + (oh + kh) * s.width + (ow + kw))
  {
    var q, row := oh * OutW(s) + ow, (c * s.kernel + kh) * s.kernel + kw;
    CellInside(oh, ow, OutH(s), OutW(s));
    DivUnique(q, oh, OutW(s));
    PatchAt(img, s, oh, ow, c, kh, kw);
    assert Unrolled(x, n, q, img, s, rows);
    assert CellAt(x, n, row, q) == Patch(img, s, oh, ow, row);
  }

  /** ... and everything else is zero. */
  lemma UnrolledPadding(x: seq<int>, n: nat, img: seq<int>, s: ConvShape, rows: nat, row: nat, q: nat)
    requires IsUnrolled(x, n, img, s, rows) && row < rows && q < n
    requires row >= s.channels * s.kernel * s.kernel || q >= (s.height - s.kernel + 1) * (s.width - s.kernel + 1)
    ensures At(x, row * n + q) == 0
  {
    assert Unrolled(x, n, q, img, s, rows);
    if q < Columns(s) {
      assert CellAt(x, n, row, q) == Patch(img, s, q / OutW(s), q % OutW(s), row);
    } else {
      assert CellAt(x, n, row, q) == 0;
    }
  }

  lemma {:induction false} RowPicks(w: seq<int>, img: seq<int>, s: ConvShape, m: int, c: nat, oh: int, ow: int,
                                    kh: nat, n: nat, at: int)
    requires n <= s.kernel
    requires forall p :: At(w, p) == if p == at then 1 else 0
    ensures var first := m * Rows(s) + (c * s.kernel + kh) * s.kernel;
            RowSum(w, img, s, m, c, oh, ow, kh, n)
              == if first <= at < first + n then Pixel(img, s, c, oh + kh, ow + (at - first)) else 0
  {
    hide Pixel, Rows;
    if n > 0 {
      RowPicks(w, img, s, m, c, oh, ow, kh, n - 1, at);
    }
  }

  lemma {:induction false} KernelPicks(w: seq<int>, img: seq<int>, s: ConvShape, m: int, d: nat, oh: int, ow: int,
                                       n: nat, at: int, c: nat, kh: nat, kw: nat)
    requires n <= s.kernel && kh < s.kernel && kw < s.kernel && forall p :: At(w, p) == if p == at then 1 else 0
    requires at == m * Rows(s) + (c * s.kernel + kh) * s.kernel + kw
    ensures KernelSum(w, img, s, m, d, oh, ow, n)
         == if d == c && kh < n then Pixel(img, s, c, oh + kh, ow + kw) else 0
  {
    hide Pixel, Rows, RowSum;
    if n > 0 {
      KernelPicks(w, img, s, m, d, oh, ow, n - 1, at, c, kh, kw);
      RowPicks(w, img, s, m, d, oh, ow, n - 1, s.kernel, at);
      Apart(c, d, s.kernel);
      Apart(c * s.kernel + kh, d * s.kernel + (n - 1), s.kernel);
    }
  }

  lemma {:induction false} ChannelsPick(w: seq<int>, img: seq<int>, s: ConvShape, m: int, oh: int, ow: int,
                                        n: nat, at: int, c: nat, kh: nat, kw: nat)
    requires kh < s.kernel && kw < s.kernel && forall p :: At(w, p) == if p == at then 1 else 0
    requires at == m * Rows(s) + (c * s.kernel + kh) * s.kernel + kw
    ensures ConvSum(w, img, s, m, oh, ow, n) == if c < n then Pixel(img, s, c, oh + kh, ow + kw) else 0
  {
    hide Pixel, Rows, KernelSum;
    if n > 0 {
      ChannelsPick(w, img, s, m, oh, ow, n - 1, at, c, kh, kw);
      KernelPicks(w, img, s, m, n - 1, oh, ow, s.kernel, at, c, kh, kw);
    }
  }

  /** A convolution with a single weight of 1 shifts one channel of the image. */
  lemma ConvPicks(w: seq<int>, img: seq<int>, s: ConvShape, m: nat, oh: nat, ow: nat, c: nat, kh: nat, kw: nat)
    requires c < s.channels && kh < s.kernel && kw < s.kernel
    requires var at := m * (s.channels * s.kernel * s.kernel) + (c * s.kernel + kh) * s.kernel + kw;
             0 <= at < |w| && forall p | 0 <= p < |w| :: w[p] == if p == at then 1 else 0
    ensures Conv(w, img, s, m, oh, ow) == At(img, c * (s.height * s.width) + (oh + kh) * s.width + (ow + kw))
  {
    var at := m * (s.channels * s.kernel * s.kernel) + (c * s.kernel + kh) * s.kernel + kw;
    ChannelsPick(w, img, s, m, oh, ow, s.channels, at, c, kh, kw);
  }

  lemma {:induction false} RowLinear(a: seq<int>, b: seq<int>, sum: seq<int>, f: int, img: seq<int>, s: ConvShape,
                                     m: int, c: int, oh: int, ow: int, kh: int, n: nat)
    requires |a| == |b| == |sum| && forall i | 0 <= i < |sum| :: sum[i] == a[i] + f * b[i]
    ensures RowSum(sum, img, s, m, c, oh, ow, kh, n)
         == RowSum(a, img, s, m, c, oh, ow, kh, n) + f * RowSum(b, img, s, m, c, oh, ow, kh, n)
  {
    hide Pixel, Rows;
    if n > 0 {
      RowLinear(a, b, sum, f, img, s, m, c, oh, ow, kh, n - 1);
      Distribute(Weight(a, s, m, c, kh, n - 1), Weight(b, s, m, c, kh, n - 1), f,
                 Pixel(img, s, c, oh + kh, ow + (n - 1)), RowSum(b, img, s, m, c, oh, ow, kh, n - 1));
    }
  }

  lemma {:induction false} KernelLinear(a: seq<int>, b: seq<int>, sum: seq<int>, f: int, img: seq<int>, s: ConvShape,
                                        m: int, c: int, oh: int, ow: int, n: nat)
    requires |a| == |b| == |sum| && forall i | 0 <= i < |sum| :: sum[i] == a[i] + f * b[i]
    ensures KernelSum(sum, img, s, m, c, oh, ow, n)
         == KernelSum(a, img, s, m, c, oh, ow, n) + f * KernelSum(b, img, s, m, c, oh, ow, n)
  {
    hide RowSum;
    if n > 0 {
      KernelLinear(a, b, sum, f, img, s, m, c, oh, ow, n - 1);
      RowLinear(a, b, sum, f, img, s, m, c, oh, ow, n - 1, s.kernel);
      Distribute(0, 1, f, RowSum(b, img, s, m, c, oh, ow, n - 1, s.kernel), KernelSum(b, img, s, m, c, oh, ow, n - 1));
    }
  }

  /** Convolution is linear in the weights, so `ConvPicks` fixes it for all weights. */
  lemma {:induction false} ConvLinear(a: seq<int>, b: seq<int>, sum: seq<int>, f: int, img: seq<int>, s: ConvShape,
                                      m: int, oh: int, ow: int, n: nat)
    requires |a| == |b| == |sum| && forall i | 0 <= i < |sum| :: sum[i] == a[i] + f * b[i]
    ensures ConvSum(sum, img, s, m, oh, ow, n)
         == ConvSum(a, img, s, m, oh, ow, n) + f * ConvSum(b, img, s, m, oh, ow, n)
  {
    hide KernelSum;
    if n > 0 {
      ConvLinear(a, b, sum, f, img, s, m, oh, ow, n - 1);
      KernelLinear(a, b, sum, f, img, s, m, n - 1, oh, ow, s.kernel);
      Distribute(0, 1, f, KernelSum(b, img, s, m, n - 1, oh, ow, s.kernel), ConvSum(b, img, s, m, oh, ow, n - 1));
    }
  }

  /** Rows of a kernel do not overlap. */
  lemma Apart(a: int, b: int, k: nat)
    ensures a < b ==> a * k + k <= b * k
    ensures b < a ==> b * k + k <= a * k
  {
    MulMono(a + 1, b, k);
    MulMono(b + 1, a, k);
    assert (a + 1) * k == a * k + k && (b + 1) * k == b * k + k;
  }

  // ---------- unrolling ----------

  /** Everything is the same but rows below `rows` of column `q`. */
  ghost predicate SameColumns(x: seq<int>, before: seq<int>, n: int, rows: int, q: int) {
    SameOutside(x, before, n, 0, rows, q, 1)
  }

  lemma PixelInside(s: ConvShape, c: nat, y: nat, x: nat, img: seq<int>)
    requires c < s.channels && y < s.height && x < s.width && |img| == Size(s)
    ensures 0 <= c * (s.height * s.width) + y * s.width + x < Size(s)
  {
    var area := s.height * s.width;
    MulStep(c, s.channels, area);
    MulStep(y, s.height, s.width);
    NonNegative(c, area);
    NonNegative(y, s.width);
  }

  method PutPixel(image: array<int8>, x: array<int8>, s: ConvShape, rows: nat, n: nat,
                  oh: nat, ow: nat, q: nat, c: nat, kh: nat, kw: nat, row: nat, ghost img: seq<int>)
    requires image != x && Size(s) <= image.Length && img == image[..Size(s)]
    requires rows * n <= x.Length && q < n && Rows(s) <= rows
    requires oh < OutH(s) && ow < OutW(s) && c < s.channels && kh < s.kernel && kw < s.kernel
    requires row == (c * s.kernel + kh) * s.kernel + kw
    requires ColumnIs(x[..], n, q, img, s, oh, ow, row)
    modifies x
    ensures ColumnIs(x[..], n, q, img, s, oh, ow, row + 1)
    ensures SameColumns(x[..], old(x[..]), n, rows, q)
  {
    ghost var before := x[..];
    PixelInside(s, c, oh + kh, ow + kw, img);
    PatchAt(img, s, oh, ow, c, kh, kw);
    var from := c * (s.height * s.width) + (oh + kh) * s.width + (ow + kw);
    CellInside(row, q, rows, n);
    x[row * n + q] := image[from];
    CellUpdate(x[..], before, row * n + q, n, row, q, image[from]);
    assert image[from] == img[from] == Patch(img, s, oh, ow, row);
  }

  lemma CellInside(row: nat, q: nat, rows: nat, n: nat)
    requires row < rows && q < n
    ensures 0 <= row * n + q < rows * n
  {
    MulStep(row, rows, n);
    NonNegative(row, n);
  }

  method PutZero(x: array<int8>, row: nat, q: nat, rows: nat, n: nat)
    requires row < rows && q < n && rows * n <= x.Length
    modifies x
    ensures CellAt(x[..], n, row, q) == 0
    ensures forall i, j | 0 <= j < n && (i, j) != (row, q) :: CellAt(x[..], n, i, j) == CellAt(old(x[..]), n, i, j)
  {
    ghost var before := x[..];
    CellInside(row, q, rows, n);
    x[row * n + q] := 0;
    CellUpdate(x[..], before, row * n + q, n, row, q, 0);
  }

  /** The column of one output cell, and the padding below it. */
  method UnrollCell(image: array<int8>, x: array<int8>, s: ConvShape, rows: nat, n: nat, oh: nat, ow: nat, q: nat,
                    ghost img: seq<int>)
    requires image != x && Size(s) <= image.Length && img == image[..Size(s)]
    requires rows * n <= x.Length && q < n && Rows(s) <= rows && oh < OutH(s) && ow < OutW(s)
    modifies x
    ensures ColumnIs(x[..], n, q, img, s, oh, ow, rows)
    ensures SameColumns(x[..], old(x[..]), n, rows, q)
  {
    ghost var before := x[..];
    var row := 0;
    for c := 0 to s.channels
      invariant row == c * s.kernel * s.kernel
      invariant ColumnIs(x[..], n, q, img, s, oh, ow, row)
      invariant SameColumns(x[..], before, n, rows, q)
    {
      row := UnrollChannel(image, x, s, rows, n, oh, ow, q, c, row, img);
    }
    for p := row to rows
      invariant ColumnIs(x[..], n, q, img, s, oh, ow, p)
      invariant SameColumns(x[..], before, n, rows, q)
    {
      PutZero(x, p, q, rows, n);
    }
  }

  method UnrollChannel(image: array<int8>, x: array<int8>, s: ConvShape, rows: nat, n: nat, oh: nat, ow: nat, q: nat,
                       c: nat, first: nat, ghost img: seq<int>) returns (row: nat)
    requires image != x && Size(s) <= image.Length && img == image[..Size(s)]
    requires rows * n <= x.Length && q < n && Rows(s) <= rows && oh < OutH(s) && ow < OutW(s)
    requires c < s.channels && first == c * s.kernel * s.kernel && ColumnIs(x[..], n, q, img, s, oh, ow, first)
    modifies x
    ensures row == (c + 1) * s.kernel * s.kernel
    ensures ColumnIs(x[..], n, q, img, s, oh, ow, row)
    ensures SameColumns(x[..], old(x[..]), n, rows, q)
  {
    ghost var before := x[..];
    row := first;
    for kh := 0 to s.kernel
      invariant row == (c * s.kernel + kh) * s.kernel
      invariant ColumnIs(x[..], n, q, img, s, oh, ow, row)
      invariant SameColumns(x[..], before, n, rows, q)
    {
      for kw := 0 to s.kernel
        invariant row == (c * s.kernel + kh) * s.kernel + kw
        invariant ColumnIs(x[..], n, q, img, s, oh, ow, row)
        invariant SameColumns(x[..], before, n, rows, q)
      {
        PutPixel(image, x, s, rows, n, oh, ow, q, c, kh, kw, row, img);
        row := row + 1;
      }
      assert (c * s.kernel + kh) * s.kernel + s.kernel == (c * s.kernel + (kh + 1)) * s.kernel;
    }
    assert c * s.kernel + s.kernel == (c + 1) * s.kernel;
  }

  lemma ColumnKept(x: seq<int>, before: seq<int>, n: nat, rows: nat, q: nat, r: nat, img: seq<int>, s: ConvShape)
    requires SameColumns(x, before, n, rows, r) && q != r && q < n && Unrolled(before, n, q, img, s, rows)
    ensures Unrolled(x, n, q, img, s, rows)
  {
    forall row: nat | row < rows
      ensures CellAt(x, n, row, q) == CellAt(before, n, row, q)
    {
    }
  }

  method UnrollColumn(image: array<int8>, x: array<int8>, s: ConvShape, rows: nat, n: nat, oh: nat, ow: nat, q: nat,
                      ghost img: seq<int>)
    requires image != x && Size(s) <= image.Length && img == image[..Size(s)]
    requires rows * n <= x.Length && q < Columns(s) <= n && Rows(s) <= rows && oh < OutH(s) && ow < OutW(s)
    requires q == oh * OutW(s) + ow && forall p: nat | p < q :: Unrolled(x[..], n, p, img, s, rows)
    modifies x
    ensures forall p: nat | p < q + 1 :: Unrolled(x[..], n, p, img, s, rows)
  {
    ghost var before := x[..];
    UnrollCell(image, x, s, rows, n, oh, ow, q, img);
    DivUnique(q, oh, OutW(s));
    forall p: nat | p < q
      ensures Unrolled(x[..], n, p, img, s, rows)
    {
      ColumnKept(x[..], before, n, rows, p, q, img, s);
    }
  }

  /** Unrolls an image and pads the result to `rows` by `n`. */
  method Im2col(image: array<int8>, x: array<int8>, s: ConvShape, rows: nat, n: nat)
    requires image != x && Size(s) <= image.Length
    requires Rows(s) <= rows && Columns(s) <= n && rows * n <= x.Length
    modifies x
    ensures IsUnrolled(x[..], n, image[..Size(s)], s, rows)
  {
    ghost var img := image[..Size(s)];
    var q := 0;
    for oh := 0 to OutH(s)
      invariant q == oh * OutW(s)
      invariant forall p: nat | p < q :: Unrolled(x[..], n, p, img, s, rows)
    {
      for ow := 0 to OutW(s)
        invariant q == oh * OutW(s) + ow
        invariant forall p: nat | p < q :: Unrolled(x[..], n, p, img, s, rows)
      {
        CellInside(oh, ow, OutH(s), OutW(s));
        UnrollColumn(image, x, s, rows, n, oh, ow, q, img);
        q := q + 1;
      }
      assert oh * OutW(s) + OutW(s) == (oh + 1) * OutW(s);
    }
    PadColumns(x, s, rows, n, img);
  }

  method PadColumns(x: array<int8>, s: ConvShape, rows: nat, n: nat, ghost img: seq<int>)
    requires Columns(s) <= n && rows * n <= x.Length
    requires forall p: nat | p < Columns(s) :: Unrolled(x[..], n, p, img, s, rows)
    modifies x
    ensures IsUnrolled(x[..], n, img, s, rows)
  {
    ghost var before := x[..];
    var width := n - Columns(s);
    for row := 0 to rows
      invariant SameOutside(x[..], before, n, 0, row, Columns(s), width)
      invariant forall r: nat, p: nat | r < row && Columns(s) <= p < n :: CellAt(x[..], n, r, p) == 0
    {
      for p := Columns(s) to n
        invariant SameOutside(x[..], before, n, 0, row + 1, Columns(s), width)
        invariant forall r: nat, p': nat | r < row && Columns(s) <= p' < n :: CellAt(x[..], n, r, p') == 0
        invariant forall p': nat | Columns(s) <= p' < p :: CellAt(x[..], n, row, p') == 0
      {
        PutZero(x, row, p, rows, n);
      }
    }
    forall p: nat | p < n
      ensures Unrolled(x[..], n, p, img, s, rows)
    {
      PaddedColumn(x[..], before, n, rows, p, img, s, width);
    }
  }

  lemma PaddedColumn(x: seq<int>, before: seq<int>, n: nat, rows: nat, p: nat, img: seq<int>, s: ConvShape, width: int)
    requires p < n && Columns(s) <= n && width == n - Columns(s)
    requires SameOutside(x, before, n, 0, rows, Columns(s), width)
    requires p < Columns(s) ==> Unrolled(before, n, p, img, s, rows)
    requires p >= Columns(s) ==> forall r: nat | r < rows :: CellAt(x, n, r, p) == 0
    ensures Unrolled(x, n, p, img, s, rows)
  {
    if p < Columns(s) {
      forall row: nat | row < rows
        ensures CellAt(x, n, row, p) == CellAt(before, n, row, p)
      {
      }
    }
  }
}
