/**
 * The index arithmetic of error-diffusion dithering, `dither`.
 *
 * `dither` scans the buffer in row-major order. At pixel (i, j) it rounds the
 * pixel and adds the rounding error, times the kernel, to a window of the
 * buffer: rows `i..hii-1` and columns `loj..hij-1`, with the kernel's centre
 * column `mid` over column `j`, clipped at the buffer's edges. The kernel is
 * sliced to the same clipping. This module models which cells each step
 * touches and which kernel entry each one receives; the floating-point
 * values themselves are not modelled.
 */
module Diffusion {

  /** A diffusion kernel: the weight at row `r`, column `c` is
    * `weights[r][c] / denominator`. */
  datatype Kernel = Kernel(weights: seq<seq<int>>, denominator: int)

  const FloydSteinberg := Kernel([[0, 0, 7], [3, 5, 1]], 16)
  const Stucki := Kernel([[0, 0, 0, 8, 4], [2, 4, 8, 4, 2], [1, 2, 4, 2, 1]], 42)
  const Atkinson := Kernel([[0, 0, 0, 1, 1], [0, 1, 1, 1, 0], [0, 0, 1, 0, 0]], 8)

  /** A numpy 2-D array: at least one row, all rows of one length. */
  predicate Rectangular(k: Kernel)
  {
    |k.weights| > 0 && forall r :: 0 <= r < |k.weights| ==> |k.weights[r]| == |k.weights[0]|
  }

  function Rows(k: Kernel): nat
  {
    |k.weights|
  }

  function Cols(k: Kernel): nat
    requires Rectangular(k)
  {
    |k.weights[0]|
  }

  /** The kernel column over the current pixel, `int(shape[1] / 2)`. */
  function Mid(kcols: nat): (m: nat)
    ensures 2 * m <= kcols <= 2 * m + 1
  {
    kcols / 2
  }

  function Max(a: int, b: int): int { if a < b then b else a }
  function Min(a: int, b: int): int { if a < b then a else b }

  /** The buffer window `px[i:hii, loj:hij]` that the step at a pixel adds
    * error to. */
  datatype Window = Window(loj: int, hij: int, hii: int)

  /** `loj`, `hij` and `hii` for the pixel (i, j) of a `height` x `width`
    * buffer and a `krows` x `kcols` kernel. The window holds the pixel itself,
    * stays inside the buffer, and reaches at most `mid` columns to either
    * side and `krows` rows down. */
  function WindowAt(i: int, j: int, height: nat, width: nat, krows: nat, kcols: nat): (w: Window)
    requires 0 <= i < height && 0 <= j < width
    ensures 0 <= w.loj <= j < w.hij <= width
    ensures j - w.loj <= Mid(kcols) && w.hij - 1 - j <= Mid(kcols)
    ensures w.hii <= height && w.hii <= i + krows
    ensures i <= w.hii && (krows > 0 ==> i < w.hii)
  {
    var mid := Mid(kcols);
    Window(Max(0, j - mid), Min(width, j + mid + 1), Min(height, i + krows))
  }

  /** The length of the numpy slice `a[lo:hi]` of an axis of length `n`, for
    * non-negative bounds: both bounds are clipped to `n`, and a slice whose
    * start is past its stop is empty. */
  function SliceLength(lo: int, hi: int, n: nat): (len: nat)
    requires 0 <= lo && 0 <= hi
    ensures len <= n
    ensures lo <= hi <= n ==> len == hi - lo
    ensures lo <= n <= hi ==> len == n - lo
    ensures hi <= lo || n <= lo ==> len == 0
  {
    Max(0, Min(hi, n) - Min(lo, n))
  }

  /** The kernel columns `mid+loj-j .. mid+hij-j` matched with the window. */
  function KernelLo(w: Window, j: int, kcols: nat): int { Mid(kcols) + w.loj - j }
  function KernelHi(w: Window, j: int, kcols: nat): int { Mid(kcols) + w.hij - j }

  /** The kernel slice `matrix[0:hii-i, mid+loj-j:mid+hij-j]` has the shape of
    * the buffer window, so the in-place addition pairs cells one to one. It
    * does exactly when its columns lie inside the kernel: the rows always
    * fit, and a column range that runs past the kernel is clipped short. */
  predicate Aligned(i: int, j: int, height: nat, width: nat, krows: nat, kcols: nat)
    requires 0 <= i < height && 0 <= j < width
    ensures var w := WindowAt(i, j, height, width, krows, kcols);
      Aligned(i, j, height, width, krows, kcols) <==> 0 <= KernelLo(w, j, kcols) && KernelHi(w, j, kcols) <= kcols
  {
    var w := WindowAt(i, j, height, width, krows, kcols);
    KernelLo(w, j, kcols) >= 0 &&
    SliceLength(0, w.hii - i, krows) == w.hii - i &&
    SliceLength(KernelLo(w, j, kcols), KernelHi(w, j, kcols), kcols) == w.hij - w.loj
  }

  /** With an odd number of kernel columns the slice lies inside the kernel
    * and matches the window, at every pixel and for every buffer size. */
  lemma OddKernelAligned(i: int, j: int, height: nat, width: nat, krows: nat, kcols: nat)
    requires 0 <= i < height && 0 <= j < width
    requires kcols % 2 == 1
    ensures var w := WindowAt(i, j, height, width, krows, kcols);
      0 <= KernelLo(w, j, kcols) <= KernelHi(w, j, kcols) <= kcols &&
      KernelHi(w, j, kcols) - KernelLo(w, j, kcols) == w.hij - w.loj
    ensures Aligned(i, j, height, width, krows, kcols)
  {
    var w := WindowAt(i, j, height, width, krows, kcols);
    var lo, hi := KernelLo(w, j, kcols), KernelHi(w, j, kcols);
    assert kcols == 2 * Mid(kcols) + 1;
    assert 0 <= lo <= hi <= kcols;
    assert SliceLength(lo, hi, kcols) == hi - lo;
    assert SliceLength(0, w.hii - i, krows) == w.hii - i;
  }

  /** With an even number of columns the slice runs past the kernel's last
    * column at the first pixel of every row, as soon as the buffer is wider
    * than half the kernel: numpy clips it and the shapes differ. */
  lemma EvenKernelMisaligned(i: int, height: nat, width: nat, krows: nat, kcols: nat)
    requires 0 <= i < height
    requires kcols % 2 == 0 && width > Mid(kcols)
    ensures var w := WindowAt(i, 0, height, width, krows, kcols);
      KernelHi(w, 0, kcols) == kcols + 1
    ensures !Aligned(i, 0, height, width, krows, kcols)
  {
  }

  /** The kernel slice fits every step of the scan exactly when the kernel
    * has an odd number of columns (for buffers wider than half the kernel). */
  lemma AlignedIffOdd(height: nat, width: nat, krows: nat, kcols: nat)
    requires height > 0 && width > Mid(kcols)
    ensures (forall i, j :: 0 <= i < height && 0 <= j < width ==> Aligned(i, j, height, width, krows, kcols))
        <==> kcols % 2 == 1
  {
    if kcols % 2 == 1 {
      forall i, j | 0 <= i < height && 0 <= j < width ensures Aligned(i, j, height, width, krows, kcols) {
        OddKernelAligned(i, j, height, width, krows, kcols);
      }
    } else {
      EvenKernelMisaligned(0, height, width, krows, kcols);
    }
  }

  /** Buffer cell (r, c) of the window of pixel (i, j) receives kernel entry
    * (r - i, mid + c - j): the slice offset `c - loj` lands on that column,
    * and for an odd kernel the entry exists. */
  lemma CellReceivesEntry(i: int, j: int, height: nat, width: nat, krows: nat, kcols: nat, r: int, c: int)
    requires 0 <= i < height && 0 <= j < width
    requires kcols % 2 == 1
    requires var w := WindowAt(i, j, height, width, krows, kcols); i <= r < w.hii && w.loj <= c < w.hij
    ensures var w := WindowAt(i, j, height, width, krows, kcols);
      KernelLo(w, j, kcols) + (c - w.loj) == Mid(kcols) + c - j
    ensures 0 <= r - i < krows && 0 <= Mid(kcols) + c - j < kcols
  {
  }

  /** The kernel gives no weight to the current pixel or to the pixels on its
    * left: row 0, columns 0..mid, are zero. */
  predicate NoBackwardWeights(k: Kernel)
    requires Rectangular(k)
  {
    forall c :: 0 <= c <= Mid(Cols(k)) && c < Cols(k) ==> k.weights[0][c] == 0
  }

  function RowSum(row: seq<int>): int
  {
    if row == [] then 0 else row[0] + RowSum(row[1..])
  }

  function Total(rows: seq<seq<int>>): int
  {
    if rows == [] then 0 else RowSum(rows[0]) + Total(rows[1..])
  }

  /** What `dither` expects of a kernel: rectangular, an odd number of
    * columns, non-negative weights that spread at most the whole error, none
    * of it backwards. */
  predicate WellFormed(k: Kernel)
  {
    Rectangular(k) && Cols(k) % 2 == 1 && k.denominator > 0 &&
    (forall r, c :: 0 <= r < Rows(k) && 0 <= c < Cols(k) ==> k.weights[r][c] >= 0) &&
    Total(k.weights) <= k.denominator &&
    NoBackwardWeights(k)
  }

  /** The sum of a three-row kernel, row by row. */
  lemma TotalOfThreeRows(rows: seq<seq<int>>)
    requires |rows| == 3
    ensures Total(rows) == RowSum(rows[0]) + RowSum(rows[1]) + RowSum(rows[2])
  {
    assert rows[2..][1..] == [];
    assert Total(rows[2..]) == RowSum(rows[2]);
    assert rows[1..][1..] == rows[2..];
    assert Total(rows[1..]) == RowSum(rows[1]) + RowSum(rows[2]);
  }

  lemma RowSumOfFive(row: seq<int>)
    requires |row| == 5
    ensures RowSum(row) == row[0] + row[1] + row[2] + row[3] + row[4]
  {
    assert row[4..][1..] == [];
    assert RowSum(row[4..]) == row[4];
    assert row[3..][1..] == row[4..];
    assert RowSum(row[3..]) == row[3] + row[4];
    assert row[2..][1..] == row[3..];
    assert RowSum(row[2..]) == row[2] + row[3] + row[4];
    assert row[1..][1..] == row[2..];
    assert RowSum(row[1..]) == row[1] + row[2] + row[3] + row[4];
  }

  /** Floyd-Steinberg passes on the whole error (16 sixteenths). */
  lemma FloydSteinbergWellFormed()
    ensures WellFormed(FloydSteinberg) && Total(FloydSteinberg.weights) == FloydSteinberg.denominator
  {
    var fs := FloydSteinberg.weights;
    assert fs[1..][1..] == [];
    assert fs[0][1..][1..][1..] == [] && fs[1][1..][1..][1..] == [];
    assert Total(fs) == 16;
  }

  /** Stucki passes on the whole error (42 forty-seconds). */
  lemma StuckiWellFormed()
    ensures WellFormed(Stucki) && Total(Stucki.weights) == Stucki.denominator
  {
    StuckiTotal();
  }

  /** The Stucki numerators add up to 42. */
  lemma StuckiTotal()
    ensures Total(Stucki.weights) == 42
  {
    var st := Stucki.weights;
    TotalOfThreeRows(st);
    RowSumOfFive(st[0]);
    RowSumOfFive(st[1]);
    RowSumOfFive(st[2]);
  }

  /** Atkinson passes on six eighths of the error and drops the rest. */
  lemma AtkinsonWellFormed()
    ensures WellFormed(Atkinson) && Total(Atkinson.weights) == 6
  {
    AtkinsonTotal();
  }

  /** The Atkinson numerators add up to 6. */
  lemma AtkinsonTotal()
    ensures Total(Atkinson.weights) == 6
  {
    var at := Atkinson.weights;
    TotalOfThreeRows(at);
    RowSumOfFive(at[0]);
    RowSumOfFive(at[1]);
    RowSumOfFive(at[2]);
  }

  lemma {:induction false} MulMonotone(a: int, b: int, w: nat)
    requires a <= b
    ensures a * w <= b * w
    decreases b - a
  {
    if a < b {
      MulMonotone(a + 1, b, w);
      assert (a + 1) * w == a * w + w;
    }
  }

  /** Row-major order: (r, c) comes before (i, j) exactly when its index
    * `r * width + c` is smaller. */
  lemma RowMajorOrder(width: nat, r: int, c: int, i: int, j: int)
    requires 0 <= c < width && 0 <= j < width
    ensures r * width + c < i * width + j <==> r < i || (r == i && c < j)
  {
    if r < i {
      MulMonotone(r + 1, i, width);
      assert (r + 1) * width == r * width + width;
    } else if r > i {
      MulMonotone(i + 1, r, width);
      assert (i + 1) * width == i * width + width;
    }
  }

  /** The frame of one step: of the cells the step at (i, j) touches, those
    * visited already, and (i, j) itself, meet only zero weights, so the
    * step never changes a pixel whose output has been decided. */
  lemma VisitedCellsGetZeroWeight(k: Kernel, height: nat, width: nat, i: int, j: int, r: int, c: int)
    requires WellFormed(k)
    requires 0 <= i < height && 0 <= j < width
    requires var w := WindowAt(i, j, height, width, Rows(k), Cols(k)); i <= r < w.hii && w.loj <= c < w.hij
    requires r * width + c <= i * width + j
    ensures r == i && c <= j
    ensures k.weights[r - i][Mid(Cols(k)) + c - j] == 0
  {
    RowMajorOrder(width, r, c, i, j);
    RowMajorOrder(width, i, j, r, c);
    assert r == i && c <= j;
    CellReceivesEntry(i, j, height, width, Rows(k), Cols(k), r, c);
    assert Mid(Cols(k)) + c - j <= Mid(Cols(k));
  }

  /** One step of the scan: the pixel and the window its error goes to. */
  datatype Step = Step(i: int, j: int, window: Window)

  /** Step number `n` of the scan of a `height` x `width` buffer is the pixel
    * at row-major index `n`, with its window. */
  predicate StepAt(st: Step, n: int, height: nat, width: nat, krows: nat, kcols: nat)
  {
    0 <= st.i < height && 0 <= st.j < width && st.i * width + st.j == n &&
    st.window == WindowAt(st.i, st.j, height, width, krows, kcols)
  }

  predicate Scanned(steps: seq<Step>, height: nat, width: nat, krows: nat, kcols: nat)
  {
    forall n :: 0 <= n < |steps| ==> StepAt(steps[n], n, height, width, krows, kcols)
  }

  lemma ScannedAppend(steps: seq<Step>, st: Step, height: nat, width: nat, krows: nat, kcols: nat)
    requires Scanned(steps, height, width, krows, kcols)
    requires StepAt(st, |steps|, height, width, krows, kcols)
    ensures Scanned(steps + [st], height, width, krows, kcols)
  {
    var s' := steps + [st];
    forall n | 0 <= n < |s'| ensures StepAt(s'[n], n, height, width, krows, kcols) {
      if n < |steps| {
        assert s'[n] == steps[n];
      }
    }
  }

  /** The nested `i`/`j` loop of `dither`, recording each step in turn: step
    * `n` visits the pixel at row-major index `n`, so the scan visits every
    * pixel once, in order, each with its own window. */
  method Scan(height: nat, width: nat, krows: nat, kcols: nat) returns (steps: seq<Step>)
    ensures |steps| == height * width
    ensures Scanned(steps, height, width, krows, kcols)
  {
    steps := [];
    for i := 0 to height
      invariant |steps| == i * width
      invariant Scanned(steps, height, width, krows, kcols)
    {
      for j := 0 to width
        invariant |steps| == i * width + j
        invariant Scanned(steps, height, width, krows, kcols)
      {
        var st := Step(i, j, WindowAt(i, j, height, width, krows, kcols));
        ScannedAppend(steps, st, height, width, krows, kcols);
        steps := steps + [st];
      }
      assert (i + 1) * width == i * width + width;
    }
  }

  /** The row-major index of a pixel is a step number of the scan, and no
    * other pixel has it: each pixel is visited by exactly one step. */
  lemma RowMajorIndex(height: nat, width: nat, i: int, j: int, r: int, c: int)
    requires 0 <= i < height && 0 <= j < width && 0 <= c < width
    ensures 0 <= i * width + j < height * width
    ensures r * width + c == i * width + j ==> r == i && c == j
  {
    MulMonotone(0, i, width);
    MulMonotone(i + 1, height, width);
    assert (i + 1) * width == i * width + width;
    RowMajorOrder(width, r, c, i, j);
    RowMajorOrder(width, i, j, r, c);
  }

  /** The scan visits each pixel exactly once, in row-major order: step
    * `i * width + j` is pixel (i, j), and no other step is. */
  lemma ScanVisitsEachOnce(steps: seq<Step>, height: nat, width: nat, krows: nat, kcols: nat, i: int, j: int)
    requires |steps| == height * width && Scanned(steps, height, width, krows, kcols)
    requires 0 <= i < height && 0 <= j < width
    ensures 0 <= i * width + j < |steps|
    ensures steps[i * width + j].i == i && steps[i * width + j].j == j
    ensures forall m :: 0 <= m < |steps| && steps[m].i == i && steps[m].j == j ==> m == i * width + j
  {
    var n := i * width + j;
    RowMajorIndex(height, width, i, j, i, j);
    var st := steps[n];
    assert StepAt(st, n, height, width, krows, kcols);
    RowMajorIndex(height, width, i, j, st.i, st.j);
    forall m | 0 <= m < |steps| && steps[m].i == i && steps[m].j == j ensures m == n {
      assert StepAt(steps[m], m, height, width, krows, kcols);
    }
  }
}
