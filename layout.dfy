/** Row-major layout arithmetic shared by the codecs: positions of cells in a
    flat buffer, rectangular windows of a word stream, the integer square
    root that replaces the float square roots, and dense matrices. */
module Layout {
  import opened Words

  function Min(a: int, b: int): int {
    if a <= b then a else b
  }

  /** Sum of a shape, summed from the last axis down (so that extending a
      prefix by one axis adds that axis). */
  function Sum(s: seq<nat>): nat {
    if s == [] then 0 else Sum(s[..|s| - 1]) + s[|s| - 1]
  }

  /** Number of elements of a shape (1 for the empty shape, as in numpy). */
  function Product(s: seq<nat>): nat {
    if s == [] then 1 else Product(s[..|s| - 1]) * s[|s| - 1]
  }

  lemma MulMonotone(a: nat, b: nat, c: nat)
    requires a <= b
    ensures a * c <= b * c
  {
  }

  /** Cell (i, j) of a rows×cols buffer lies inside it. */
  lemma RowMajorBound(i: int, j: int, rows: int, cols: int)
    requires 0 <= i < rows && 0 <= j < cols
    ensures 0 <= i * cols + j < rows * cols
  {
    MulMonotone(i + 1, rows, cols);
  }

  /** The row and column of a row-major position are its quotient and
      remainder by the row width. */
  lemma RowMajorSplit(i: int, j: int, cols: int)
    requires 0 <= i && 0 <= j < cols
    ensures (i * cols + j) / cols == i
    ensures (i * cols + j) % cols == j
  {
    var k := i * cols + j;
    var q, r := k / cols, k % cols;
    assert k == q * cols + r;
    assert (i - q) * cols == r - j;
    if i - q >= 1 {
      MulMonotone(1, i - q, cols);
      assert false;
    } else if q - i >= 1 {
      MulMonotone(1, q - i, cols);
      assert false;
    }
  }

  /** Every position of a rows×cols buffer is some cell (k / cols, k % cols). */
  lemma RowMajorCell(k: int, rows: nat, cols: nat)
    requires 0 <= k < rows * cols
    ensures cols > 0
    ensures 0 <= k / cols < rows && 0 <= k % cols < cols
    ensures k == (k / cols) * cols + k % cols
  {
    if k / cols >= rows {
      MulMonotone(rows, k / cols, cols);
      assert false;
    }
  }

  /** The rows×cols window of `s` whose row i starts at position i*stride + offset. */
  function Window<T>(s: seq<T>, stride: nat, offset: nat, rows: nat, cols: nat): (w: seq<T>)
    requires offset + cols <= stride && rows * stride <= |s|
    ensures |w| == rows * cols
  {
    seq(rows * cols, k requires 0 <= k < rows * cols =>
      WindowIndex(k, stride, offset, rows, cols, |s|); s[(k / cols) * stride + offset + k % cols])
  }

  lemma WindowIndex(k: int, stride: nat, offset: nat, rows: nat, cols: nat, len: nat)
    requires offset + cols <= stride && rows * stride <= len
    requires 0 <= k < rows * cols
    ensures cols > 0
    ensures 0 <= (k / cols) * stride + offset + k % cols < len
  {
    RowMajorCell(k, rows, cols);
    RowMajorBound(k / cols, offset + k % cols, rows, stride);
  }

  /** Cell (i, j) of a window is the word at i*stride + offset + j. */
  lemma WindowAt<T>(s: seq<T>, stride: nat, offset: nat, rows: nat, cols: nat, i: nat, j: nat)
    requires offset + cols <= stride && rows * stride <= |s|
    requires i < rows && j < cols
    ensures i * cols + j < rows * cols
    ensures i * stride + offset + j < |s|
    ensures Window(s, stride, offset, rows, cols)[i * cols + j] == s[i * stride + offset + j]
  {
    RowMajorBound(i, j, rows, cols);
    RowMajorSplit(i, j, cols);
    RowMajorBound(i, offset + j, rows, stride);
  }

  /** The (row label, column label) keys of a stacked frame, row-major. */
  function StackKeys(rowLabels: seq<int>, colLabels: seq<int>): (keys: seq<(int, int)>)
    ensures |keys| == |rowLabels| * |colLabels|
  {
    var cols := |colLabels|;
    seq(|rowLabels| * cols, k requires 0 <= k < |rowLabels| * cols =>
      RowMajorCell(k, |rowLabels|, cols); (rowLabels[k / cols], colLabels[k % cols]))
  }

  /** Stacking pairs cell (i, j) with row label i and column label j. */
  lemma StackKeysAt(rowLabels: seq<int>, colLabels: seq<int>, i: nat, j: nat)
    requires i < |rowLabels| && j < |colLabels|
    ensures i * |colLabels| + j < |rowLabels| * |colLabels|
    ensures StackKeys(rowLabels, colLabels)[i * |colLabels| + j] == (rowLabels[i], colLabels[j])
  {
    RowMajorBound(i, j, |rowLabels|, |colLabels|);
    RowMajorSplit(i, j, |colLabels|);
  }

  /** A dense matrix of words in row-major order. */
  datatype Grid = Grid(rows: nat, cols: nat, cells: seq<Word>) {

    predicate Valid() {
      |cells| == rows * cols
    }

    predicate IsSquare() {
      Valid() && rows == cols
    }

    /** Cell (i, j). */
    function At(i: nat, j: nat): Word
      requires Valid() && i < rows && j < cols
    {
      RowMajorBound(i, j, rows, cols);
      cells[i * cols + j]
    }
  }

  lemma SquareMonotone(a: nat, b: nat)
    requires a <= b
    ensures a * a <= b * b
  {
    MulMonotone(a, b, a);
    MulMonotone(a, b, b);
  }

  /** The integer square root: the largest r with r*r <= x. */
  function ISqrt(x: nat): (r: nat)
    ensures r * r <= x < (r + 1) * (r + 1)
  {
    if x == 0 then 0
    else
      var r := ISqrt(x - 1);
      if (r + 1) * (r + 1) <= x then r + 1 else r
  }

  /** The integer square root is the only r with r*r <= x < (r+1)*(r+1). */
  lemma ISqrtUnique(x: nat, r: nat)
    requires r * r <= x < (r + 1) * (r + 1)
    ensures ISqrt(x) == r
  {
    var s := ISqrt(x);
    if s < r {
      SquareMonotone(s + 1, r);
      assert false;
    } else if s > r {
      SquareMonotone(r + 1, s);
      assert false;
    }
  }

  lemma {:induction false} ISqrtOfSquare(n: nat)
    ensures ISqrt(n * n) == n
  {
    assert n * n < (n + 1) * (n + 1);
    ISqrtUnique(n * n, n);
  }
}
