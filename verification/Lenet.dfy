/**
  The LeNet inference: two convolution layers with pooling, two rectified fully connected layers and a
  linear one, run in software or with the tiled product, over four buffers that the layers reuse.
*/
module Lenet {
  import opened Arith
  import opened Gemm
  import opened Convolution
  import opened Layers

  const SHIFT_CONV1 := 11
  const SHIFT_CONV2 := 12
  const SHIFT_FC1 := 10
  const SHIFT_FC2 := 8

  const CLASSES := 23

  const CONV1: ConvShape := Layout(3, 32, 32, 5)
  const CONV2: ConvShape := Layout(6, 14, 14, 5)

  // ---------- the network as a function ----------

  datatype Parameters = Parameters(
    conv1W: seq<int>, conv1B: seq<int>, conv2W: seq<int>, conv2B: seq<int>,
    fc1W: seq<int>, fc1B: seq<int>, fc2W: seq<int>, fc2B: seq<int>, fc3W: seq<int>, fc3B: seq<int>)

  function Stage1(p: Parameters, img: seq<int>): seq<int> {
    PoolLayer(ConvLayer(p.conv1W, p.conv1B, SHIFT_CONV1, CONV1, 6, img), 6, 28, 28)
  }

  function Stage2(p: Parameters, img: seq<int>): seq<int> {
    PoolLayer(ConvLayer(p.conv2W, p.conv2B, SHIFT_CONV2, CONV2, 16, Stage1(p, img)), 16, 10, 10)
  }

  function Hidden1(p: Parameters, img: seq<int>): seq<int> {
    DenseLayer(p.fc1W, p.fc1B, SHIFT_FC1, 120, 400, Stage2(p, img))
  }

  function Hidden2(p: Parameters, img: seq<int>): seq<int> {
    DenseLayer(p.fc2W, p.fc2B, SHIFT_FC2, 84, 120, Hidden1(p, img))
  }

  function Score(p: Parameters, img: seq<int>, i: int): int {
    Wrap32(Dot(p.fc3W, i * 84, Hidden2(p, img), 0, 1, 84) + At(p.fc3B, i))
  }

  function Scores(p: Parameters, img: seq<int>): (s: seq<int>)
    ensures |s| == CLASSES
  {
    seq(CLASSES, i => Score(p, img, i))
  }

  /**
    The network cell by cell: feature maps, pooled maps and hidden vectors that belong to the image, and the
    scores that follow from the last of them.
  */
  lemma NetworkByCells(p: Parameters, img: seq<int>)
      returns (maps1: seq<int>, pooled1: seq<int>, maps2: seq<int>, pooled2: seq<int>,
               hidden1: seq<int>, hidden2: seq<int>)
    ensures IsConv(maps1, p.conv1W, p.conv1B, 2048, Layout(3, 32, 32, 5), 6, img)
    ensures IsPool(pooled1, maps1, 6, 28, 28)
    ensures IsConv(maps2, p.conv2W, p.conv2B, 4096, Layout(6, 14, 14, 5), 16, pooled1)
    ensures IsPool(pooled2, maps2, 16, 10, 10)
    ensures IsDense(hidden1, p.fc1W, p.fc1B, 1024, 120, 400, pooled2)
    ensures IsDense(hidden2, p.fc2W, p.fc2B, 256, 84, 120, hidden1)
    ensures |Scores(p, img)| == 23
    ensures forall i | 0 <= i < 23 ::
              var sum := Dot(p.fc3W, i * 84, hidden2, 0, 1, 84) + At(p.fc3B, i);
              Scores(p, img)[i] == (sum + 0x8000_0000) % 0x1_0000_0000 - 0x8000_0000
  {
    hide ConvLayer, PoolLayer, DenseLayer, Dot, IsConv, IsPool, IsDense, Pow2, Bytes8;
    ShiftPowers();
    maps1 := ConvLayer(p.conv1W, p.conv1B, 11, Layout(3, 32, 32, 5), 6, img);
    ConvLayerCells(p.conv1W, p.conv1B, 11, Layout(3, 32, 32, 5), 6, img);
    ConvLayerBytes(p.conv1W, p.conv1B, 11, Layout(3, 32, 32, 5), 6, img);
    pooled1 := PoolLayer(maps1, 6, 28, 28);
    PoolLayerIs(maps1, 6, 28, 28);
    maps2 := ConvLayer(p.conv2W, p.conv2B, 12, Layout(6, 14, 14, 5), 16, pooled1);
    ConvLayerCells(p.conv2W, p.conv2B, 12, Layout(6, 14, 14, 5), 16, pooled1);
    ConvLayerBytes(p.conv2W, p.conv2B, 12, Layout(6, 14, 14, 5), 16, pooled1);
    pooled2 := PoolLayer(maps2, 16, 10, 10);
    PoolLayerIs(maps2, 16, 10, 10);
    hidden1 := DenseLayer(p.fc1W, p.fc1B, 10, 120, 400, pooled2);
    DenseLayerCells(p.fc1W, p.fc1B, 10, 120, 400, pooled2);
    hidden2 := DenseLayer(p.fc2W, p.fc2B, 8, 84, 120, hidden1);
    DenseLayerCells(p.fc2W, p.fc2B, 8, 84, 120, hidden1);
  }

  /** What the last product and the biases have to do with the scores. */
  lemma ScoresAre(p: Parameters, img: seq<int>, hidden: seq<int>, y: seq<int>, py: nat)
    requires |hidden| >= 84 && hidden[..84] == Hidden2(p, img) && py > 0
    requires IsProduct(y, py, p.fc3W, 84, hidden, 1, CLASSES, 84, 1)
    ensures forall i | 0 <= i < CLASSES :: Scores(p, img)[i] == Wrap32(CellAt(y, py, i, 0) + At(p.fc3B, i))
  {
    forall i | 0 <= i < CLASSES
      ensures Score(p, img, i) == Wrap32(CellAt(y, py, i, 0) + At(p.fc3B, i))
    {
      hide Hidden2;
      DensePrefix(p.fc3W, i * 84, hidden, 84);
      assert CellAt(y, py, i, 0) == Dot(p.fc3W, i * 84, hidden, 0, 1, 84);
    }
  }

  /** The first of the largest scores. */
  ghost predicate IsFirstMax(s: seq<int>, best: int) {
    && 0 <= best < |s|
    && (forall i | 0 <= i < |s| :: s[i] <= s[best])
    && (forall i | 0 <= i < best :: s[i] < s[best])
  }

  lemma FirstMaxUnique(s: seq<int>, a: int, b: int)
    requires IsFirstMax(s, a) && IsFirstMax(s, b)
    ensures a == b
  {
    assert s[a] <= s[b] && s[b] <= s[a];
  }

  // ---------- buffers ----------

  /** A layer's output fits its buffer exactly if the product of its sizes does. */
  lemma OutputFits(m: nat, n: nat, length: nat)
    requires m > 0 && n > 0
    ensures (forall i, j | 0 <= i < m && 0 <= j < n :: CellFits(i, j, n, length)) <==> m * n <= length
  {
    if m * n <= length {
      forall i, j | 0 <= i < m && 0 <= j < n
        ensures CellFits(i, j, n, length)
      {
        CellInside(i, j, m, n);
      }
    } else {
      assert (m - 1) * n + (n - 1) == m * n - 1;
      assert !CellFits(m - 1, n - 1, n, length);
    }
  }

  predicate CellFits(i: int, j: int, n: int, length: nat) {
    0 <= i * n + j < length
  }

  const DECLARED_FMAP := 16 * 14 * 14

  /** The declared feature map buffer does not hold the output of the first convolution. */
  lemma DeclaredFmapTooSmall()
    ensures !forall i, j | 0 <= i < 6 && 0 <= j < Columns(CONV1) :: CellFits(i, j, Columns(CONV1), DECLARED_FMAP)
  {
    OutputFits(6, Columns(CONV1), DECLARED_FMAP);
  }

  /** The weights, the four shared buffers and the accelerator. */
  class Network {
    const conv1W: array<int8>
    const conv2W: array<int8>
    const fc1W: array<int8>
    const fc2W: array<int8>
    const fc3W: array<int8>
    const conv1B: array<int>
    const conv2B: array<int>
    const fc1B: array<int>
    const fc2B: array<int>
    const fc3B: array<int>

    const image: array<int8>
    const x: array<int8>
    const y: array<int>
    const fmapA: array<int8>
    const fmapB: array<int8>
    const unit: TileUnit

    /** The buffers are allocated as declared, but for the first feature map, which has room for its largest use. */
    constructor (image: array<int8>, conv1W: array<int8>, conv1B: array<int>, conv2W: array<int8>, conv2B: array<int>,
                 fc1W: array<int8>, fc1B: array<int>, fc2W: array<int8>, fc2B: array<int>,
                 fc3W: array<int8>, fc3B: array<int>)
      requires conv1W.Length == 6 * 75 && conv1B.Length == 6
      requires conv2W.Length == 16 * 150 && conv2B.Length == 16
      requires fc1W.Length == 120 * 400 && fc1B.Length == 120
      requires fc2W.Length == 84 * 120 && fc2B.Length == 84
      requires fc3W.Length == 23 * 84 && fc3B.Length == 23
      requires image.Length == 3 * 32 * 32
      ensures Valid() && this.image == image
      ensures this.conv1W == conv1W && this.conv1B == conv1B && this.conv2W == conv2W && this.conv2B == conv2B
      ensures this.fc1W == fc1W && this.fc1B == fc1B && this.fc2W == fc2W && this.fc2B == fc2B
      ensures this.fc3W == fc3W && this.fc3B == fc3B
    {
      this.image := image;
      this.conv1W, this.conv1B, this.conv2W, this.conv2B := conv1W, conv1B, conv2W, conv2B;
      this.fc1W, this.fc1B, this.fc2W, this.fc2B, this.fc3W, this.fc3B := fc1W, fc1B, fc2W, fc2B, fc3W, fc3B;
      x := new int8[80 * 784];
      y := new int[16 * 784];
      fmapA := new int8[6 * 784];
      fmapB := new int8[DECLARED_FMAP];
      unit := new TileUnit();
    }

    ghost predicate Valid() {
      && unit.Ready()
      && conv1W.Length == 6 * 75 && conv1B.Length == 6
      && conv2W.Length == 16 * 150 && conv2B.Length == 16
      && fc1W.Length == 120 * 400 && fc1B.Length == 120
      && fc2W.Length == 84 * 120 && fc2B.Length == 84
      && fc3W.Length == 23 * 84 && fc3B.Length == 23
      && image.Length == 3 * 32 * 32
      && x.Length >= 80 * 784 && y.Length >= 16 * 784
      && fmapA.Length >= 6 * 784 && fmapB.Length >= DECLARED_FMAP
      && Separate()
    }

    /** The buffers overlap neither each other nor the weights. */
    ghost predicate Separate() {
      && x != fmapA && x != fmapB && fmapA != fmapB
      && {x, fmapA, fmapB} !! {image, conv1W, conv2W, fc1W, fc2W, fc3W}
      && y != unit.bank
      && {y, unit.bank} !! {conv1B, conv2B, fc1B, fc2B, fc3B}
    }

    ghost function Contents(): Parameters
      reads conv1W, conv2W, fc1W, fc2W, fc3W, conv1B, conv2B, fc1B, fc2B, fc3B
    {
      Parameters(conv1W[..], conv1B[..], conv2W[..], conv2B[..],
                 fc1W[..], fc1B[..], fc2W[..], fc2B[..], fc3W[..], fc3B[..])
    }

    /** Unroll, multiply, rectify. The scratch buffer may be the input: it is unrolled by then. */
    method ConvStep(useHw: bool, input: array<int8>, s: ConvShape, filters: nat, w: array<int8>, b: array<int>,
                    shift: nat, pm: nat, pk: nat, n: nat, scratch: array<int8>, out: array<int8>)
      requires unit.Ready() && y != unit.bank && b != y && b != unit.bank
      requires x != input && x != scratch && x != out && x != w
      requires w != scratch && w != out && out != input && out != scratch
      requires Size(s) <= input.Length && 1 <= Rows(s) <= pk && Columns(s) <= n && pk * n <= x.Length
      requires filters <= pm && filters * Rows(s) <= w.Length && filters <= b.Length && pm * pk <= scratch.Length
      requires pm * n <= y.Length && filters * Columns(s) <= out.Length
      modifies x, y, unit.bank, scratch, out
      ensures 0 <= filters * Columns(s)
      ensures out[..filters * Columns(s)] == ConvLayer(w[..], b[..], shift, s, filters, old(input[..Size(s)]))
    {
      ghost var img := input[..Size(s)];
      Im2col(input, x, s, pk, n);
      SmallerProduct(Rows(s), pk, n, n);
      SmallerProduct(filters, pm, n, n);
      WholeMatrix(pk, n, x.Length);
      Multiply(useHw, w, filters, Rows(s), pm, pk, scratch, x, n, n, y, unit);
      ApplyBiasReluScale(y, out, b, filters, Columns(s), n, shift);
      ConvLayerIs(out[..], y[..], x[..], n, pk, w[..], b[..], shift, s, filters, img);
    }

    /** Multiply by a vector, in software or as eight overlapping columns, and rectify. */
    method DenseStep(useHw: bool, input: array<int8>, m: nat, k: nat, w: array<int8>, b: array<int>,
                     shift: nat, pm: nat, pk: nat, out: array<int8>)
      requires unit.Ready() && y != unit.bank && b != y && b != unit.bank
      requires x != input && x != out && x != w && w != out && out != input
      requires m <= pm && 1 <= k <= pk && m * k <= w.Length && m <= b.Length && pm * pk <= x.Length
      requires pm * 8 <= y.Length && pk + 7 <= input.Length && m <= out.Length
      modifies x, y, unit.bank, out
      ensures out[..m] == DenseLayer(w[..], b[..], shift, m, k, input[..k])
    {
      Multiply(useHw, w, m, k, pm, pk, x, input, 1, 8, y, unit);
      var py := if useHw then 8 else 1;
      ApplyBiasReluScale(y, out, b, m, 1, py, shift);
      DenseLayerIs(out[..], y[..], py, input[..], w[..], b[..], shift, m, k);
    }

    static lemma ScoreAt(y: seq<int>, py: nat, i: nat)
      requires i <= 22 && 22 * py < |y|
      ensures 0 <= i * py < |y| && CellAt(y, py, i, 0) == y[i * py]
    {
      NonNegative(i, py);
      MulMono(i, 22, py);
    }

    /** The scores of the last layer and the first of the largest. */
    method Argmax(py: nat, outScores: array?<int>, ghost scores: seq<int>) returns (best: nat)
      requires py >= 1 && 22 * py < y.Length && fc3B.Length == CLASSES && |scores| == CLASSES
      requires outScores != null ==> outScores != y && outScores != fc3B && outScores.Length >= CLASSES
      requires forall i | 0 <= i < CLASSES :: scores[i] == Wrap32(CellAt(y[..], py, i, 0) + At(fc3B[..], i))
      modifies if outScores == null then {} else {outScores}
      ensures IsFirstMax(scores, best)
      ensures outScores != null ==> outScores[..CLASSES] == scores
    {
      hide Wrap32;
      best := 0;
      assert CellAt(y[..], py, 0, 0) == y[0];
      var bestScore := Wrap32(y[0] + fc3B[0]);
      if outScores != null {
        outScores[0] := bestScore;
      }
      for i := 1 to CLASSES
        invariant 0 <= best < i && bestScore == scores[best]
        invariant forall j | 0 <= j < i :: scores[j] <= scores[best]
        invariant forall j | 0 <= j < best :: scores[j] < scores[best]
        invariant outScores != null ==> forall j | 0 <= j < i :: outScores[j] == scores[j]
      {
        ScoreAt(y[..], py, i);
        var score := Wrap32(y[i * py] + fc3B[i]);
        if outScores != null {
          outScores[i] := score;
        }
        if score > bestScore {
          bestScore := score;
          best := i;
        }
      }
    }

    /** The feature extractor. */
    method Convolve(useHw: bool)
      requires Valid()
      modifies x, y, unit.bank, fmapA, fmapB
      ensures fmapB[..400] == Stage2(Contents(), image[..])
    {
      assert image[..Size(CONV1)] == image[..];
      ConvStep(useHw, image, CONV1, 6, conv1W, conv1B, SHIFT_CONV1, 8, 80, 784, fmapB, fmapA);
      MaxPool2d(fmapA, fmapB, 6, 28, 28);
      assert fmapB[..Size(CONV2)] == Stage1(Contents(), image[..]);
      ConvStep(useHw, fmapB, CONV2, 16, conv2W, conv2B, SHIFT_CONV2, 16, 152, 104, fmapB, fmapA);
      MaxPool2d(fmapA, fmapB, 16, 10, 10);
    }

    /** The two rectified fully connected layers. */
    method Connect(useHw: bool)
      requires Valid() && fmapB[..400] == Stage2(Contents(), image[..])
      modifies x, y, unit.bank, fmapA, fmapB
      ensures fmapB[..84] == Hidden2(Contents(), image[..])
    {
      DenseStep(useHw, fmapB, 120, 400, fc1W, fc1B, SHIFT_FC1, 120, 400, fmapA);
      DenseStep(useHw, fmapA, 84, 120, fc2W, fc2B, SHIFT_FC2, 88, 120, fmapB);
    }

    /** The linear layer and the decision. */
    method Classify(useHw: bool, outScores: array?<int>) returns (best: nat)
      requires Valid() && fmapB[..84] == Hidden2(Contents(), image[..])
      requires outScores != null ==>
                 outScores.Length >= CLASSES && outScores !in {y, unit.bank, conv1B, conv2B, fc1B, fc2B, fc3B}
      modifies x, y, unit.bank, if outScores == null then {} else {outScores}
      ensures IsFirstMax(Scores(Contents(), image[..]), best)
      ensures outScores != null ==> outScores[..CLASSES] == Scores(Contents(), image[..])
    {
      hide Hidden2, Scores, IsProduct, IsFirstMax, Wrap32;
      Multiply(useHw, fc3W, 23, 84, 24, 88, x, fmapB, 1, 8, y, unit);
      var py := if useHw then 8 else 1;
      ghost var scores := Scores(Contents(), image[..]);
      ScoresAre(Contents(), image[..], fmapB[..], y[..], py);
      best := Argmax(py, outScores, scores);
    }

    /**
      The inference. With either path the scores are those of the network as a function of the weights and
      the image, and the class is the first with the largest score.
    */
    method RunInference(useHw: bool, outScores: array?<int>) returns (best: nat)
      requires Valid()
      requires outScores != null ==>
                 outScores.Length >= CLASSES && outScores !in {y, unit.bank, conv1B, conv2B, fc1B, fc2B, fc3B}
      modifies x, y, unit.bank, fmapA, fmapB, if outScores == null then {} else {outScores}
      ensures Contents() == old(Contents()) && image[..] == old(image[..])
      ensures Contents() == Parameters(conv1W[..], conv1B[..], conv2W[..], conv2B[..], fc1W[..], fc1B[..],
                                       fc2W[..], fc2B[..], fc3W[..], fc3B[..])
      ensures IsFirstMax(Scores(Contents(), image[..]), best)
      ensures outScores != null ==> outScores[..CLASSES] == Scores(Contents(), image[..])
    {
      hide Stage2, Hidden2, Scores, IsFirstMax;
      Convolve(useHw);
      Connect(useHw);
      best := Classify(useHw, outScores);
    }

    /** Running both paths on one image gives the same scores and the same class. */
    method Benchmark(swScores: array<int>, hwScores: array<int>) returns (swClass: nat, hwClass: nat, maxDiff: int)
      requires Valid() && swScores != hwScores && swScores.Length >= CLASSES && hwScores.Length >= CLASSES
      requires {swScores, hwScores} !! {y, unit.bank, conv1B, conv2B, fc1B, fc2B, fc3B}
      modifies x, y, unit.bank, fmapA, fmapB, swScores, hwScores
      ensures swClass == hwClass && maxDiff == 0
      ensures swScores[..CLASSES] == hwScores[..CLASSES] == Scores(Contents(), image[..])
    {
      swClass := RunInference(false, swScores);
      hwClass := RunInference(true, hwScores);
      FirstMaxUnique(Scores(Contents(), image[..]), swClass, hwClass);
      maxDiff := 0;
      for i := 0 to CLASSES
        invariant maxDiff == 0
      {
        assert swScores[..CLASSES][i] == hwScores[..CLASSES][i];
        var diff := hwScores[i] - swScores[i];
        if diff < 0 {
          diff := -diff;
        }
        if diff > maxDiff {
          maxDiff := diff;
        }
      }
    }
  }
}
