/** The square FORTRAN binary matrix: n rows of n+1 words, each row led by
    the bit pattern of its 1-based ordinal as an int32, stored where a
    float32 is expected (a reinterpretation, not a numeric conversion). */
module Fortran {
  import opened Words
  import opened Outcomes
  import opened Layout
  import opened Common
  import opened Sinks

  /** Words in an n×(n+1) file. */
  function Pronic(n: nat): nat {
    n * (n + 1)
  }

  lemma PronicMonotone(a: nat, b: nat)
    requires a <= b
    ensures Pronic(a) <= Pronic(b)
  {
    MulMonotone(a, b, a + 1);
    MulMonotone(a + 1, b + 1, b);
  }

  /** With s the integer square root of 1 + 4w, (1 + s) / 2 - 1 is the n
      with n(n+1) <= w < (n+1)(n+2). */
  lemma HalfRootBounds(w: nat, s: nat)
    requires s * s <= 1 + 4 * w < (s + 1) * (s + 1)
    ensures s >= 1
    ensures var n := (1 + s) / 2 - 1; n >= 0 && Pronic(n) <= w < Pronic(n + 1)
  {
    if s == 0 {
      assert false;
    }
    var q := s / 2;
    if s % 2 == 1 {
      OddRootBounds(w, q);
    } else {
      EvenRootBounds(w, q);
    }
  }

  /** The root is 2q + 1: w lies in [q(q+1), (q+1)(q+2)). */
  lemma OddRootBounds(w: nat, q: nat)
    requires (2 * q + 1) * (2 * q + 1) <= 1 + 4 * w < (2 * q + 2) * (2 * q + 2)
    ensures Pronic(q) <= w < Pronic(q + 1)
  {
    assert (2 * q + 1) * (2 * q + 1) == 4 * (q * q + q) + 1;
    assert (2 * q + 2) * (2 * q + 2) == 4 * (q * q + 2 * q + 1);
    assert Pronic(q) == q * q + q;
    assert Pronic(q + 1) == q * q + 3 * q + 2;
  }

  /** The root is 2q with q >= 1: w lies in [(q-1)q, q(q+1)). */
  lemma EvenRootBounds(w: nat, q: nat)
    requires q >= 1
    requires (2 * q) * (2 * q) <= 1 + 4 * w < (2 * q + 1) * (2 * q + 1)
    ensures Pronic(q - 1) <= w < Pronic(q)
  {
    assert (2 * q) * (2 * q) == 4 * (q * q);
    assert (2 * q + 1) * (2 * q + 1) == 4 * (q * q + q) + 1;
    assert Pronic(q - 1) == q * q - q;
    assert Pronic(q) == q * q + q;
  }

  /** `_infer_zones`: the row count of a file of `nWords` words, the inverse
      of nWords = n(n+1), with the float square root replaced by the exact
      integer one. For any count it is the largest n with n(n+1) <= nWords. */
  function InferZones(nWords: nat): (n: nat)
    ensures Pronic(n) <= nWords < Pronic(n + 1)
  {
    var s := ISqrt(1 + 4 * nWords);
    HalfRootBounds(nWords, s);
    (1 + s) / 2 - 1
  }

  /** `_infer_zones` inverts n(n+1) for every n. */
  lemma InferZonesInverse(n: nat)
    ensures InferZones(Pronic(n)) == n
  {
    PronicBetween(InferZones(Pronic(n)), n);
  }

  /** Only n itself has n(n+1) between m(m+1) and (m+1)(m+2). */
  lemma PronicBetween(m: nat, n: nat)
    requires Pronic(m) <= Pronic(n) < Pronic(m + 1)
    ensures m == n
  {
    if m < n {
      PronicMonotone(m + 1, n);
    } else if m > n {
      PronicMonotone(n + 1, m);
    }
  }

  /** `_from_binary_matrix`: the reshape to n×(n+1) fails unless the word
      count is exactly n(n+1); the leading index column is dropped. */
  function FromBinaryMatrix(words: seq<Word>): (r: Result<Grid>)
    ensures r.Ok? <==> |words| == Pronic(InferZones(|words|))
    ensures r.Err? ==> r.error == ReshapeError
    ensures r.Ok? ==> r.value.IsSquare() && Pronic(r.value.rows) == |words|
  {
    var n := InferZones(|words|);
    if |words| != n * (n + 1) then Err(ReshapeError)
    else Ok(Grid(n, n, Window(words, n + 1, 1, n, n)))
  }

  /** A word count is decodable exactly when it is n(n+1) for some n. */
  lemma FromBinaryMatrixAccepts(words: seq<Word>)
    ensures FromBinaryMatrix(words).Ok? <==> exists n: nat :: Pronic(n) == |words|
  {
    if n: nat :| Pronic(n) == |words| {
      InferZonesInverse(n);
    }
  }

  /** Entry (i, j) of the decoded matrix is word i*(n+1) + j + 1. */
  lemma FromBinaryMatrixAt(words: seq<Word>, i: nat, j: nat)
    requires FromBinaryMatrix(words).Ok?
    requires i < FromBinaryMatrix(words).value.rows && j < FromBinaryMatrix(words).value.rows
    ensures var n := FromBinaryMatrix(words).value.rows;
      i * (n + 1) + j + 1 < |words| && FromBinaryMatrix(words).value.At(i, j) == words[i * (n + 1) + j + 1]
  {
    var n := InferZones(|words|);
    WindowAt(words, n + 1, 1, n, n, i, j);
  }

  /** The decoded matrix does not depend on the index column at all: two
      files that differ only at positions i*(n+1) decode alike. */
  lemma IndexColumnIgnored(a: seq<Word>, b: seq<Word>)
    requires |a| == |b|
    requires forall k :: 0 <= k < |a| && k % (InferZones(|a|) + 1) != 0 ==> a[k] == b[k]
    ensures FromBinaryMatrix(a) == FromBinaryMatrix(b)
  {
    if FromBinaryMatrix(a).Ok? {
      var ga, gb := FromBinaryMatrix(a).value, FromBinaryMatrix(b).value;
      var n := ga.rows;
      forall k | 0 <= k < n * n
        ensures ga.cells[k] == gb.cells[k]
      {
        RowMajorCell(k, n, n);
        IndexColumnCell(a, b, k / n, k % n);
      }
      assert ga.cells == gb.cells;
    }
  }

  lemma IndexColumnCell(a: seq<Word>, b: seq<Word>, i: nat, j: nat)
    requires |a| == |b|
    requires forall k :: 0 <= k < |a| && k % (InferZones(|a|) + 1) != 0 ==> a[k] == b[k]
    requires FromBinaryMatrix(a).Ok?
    requires i < FromBinaryMatrix(a).value.rows && j < FromBinaryMatrix(a).value.rows
    ensures FromBinaryMatrix(b).Ok?
    ensures var n := FromBinaryMatrix(a).value.rows;
      FromBinaryMatrix(a).value.At(i, j) == FromBinaryMatrix(b).value.At(i, j)
  {
    var n := InferZones(|a|);
    FromBinaryMatrixAt(a, i, j);
    FromBinaryMatrixAt(b, i, j);
    RowMajorSplit(i, 1 + j, n + 1);
  }

  /** The file `_to_binary_matrix` writes for a square matrix: row r is the
      int32 bit pattern of r + 1 followed by row r of the matrix. */
  function BinaryImage(g: Grid): (ws: seq<Word>)
    requires g.IsSquare()
    ensures |ws| == Pronic(g.rows)
  {
    var n := g.rows;
    seq(n * (n + 1), k requires 0 <= k < n * (n + 1) =>
      RowMajorCell(k, n, n + 1);
      var r, c := k / (n + 1), k % (n + 1);
      if c == 0 then Bits32(r + 1) else g.At(r, c - 1))
  }

  /** Word r*(n+1) of the image is the int32 pattern of r + 1, and word
      r*(n+1) + 1 + c is entry (r, c): nothing else lands in the data columns. */
  lemma BinaryImageAt(g: Grid, r: nat, c: nat)
    requires g.IsSquare() && r < g.rows && c < g.rows
    ensures var n := g.rows; r * (n + 1) + 1 + c < Pronic(n)
    ensures var n := g.rows; BinaryImage(g)[r * (n + 1)] == Bits32(r + 1)
    ensures var n := g.rows; BinaryImage(g)[r * (n + 1) + 1 + c] == g.At(r, c)
  {
    var n := g.rows;
    RowMajorBound(r, 1 + c, n, n + 1);
    RowMajorSplit(r, 0, n + 1);
    RowMajorSplit(r, 1 + c, n + 1);
  }

  /** Reading back what `_to_binary_matrix` wrote gives the matrix. */
  lemma BinaryRoundTrip(g: Grid)
    requires g.IsSquare()
    ensures FromBinaryMatrix(BinaryImage(g)) == Ok(g)
  {
    var n := g.rows;
    var img := BinaryImage(g);
    InferZonesInverse(n);
    var w := Window(img, n + 1, 1, n, n);
    forall k | 0 <= k < n * n
      ensures w[k] == g.cells[k]
    {
      RowMajorCell(k, n, n);
      var i, j := k / n, k % n;
      WindowAt(img, n + 1, 1, n, n, i, j);
      BinaryImageAt(g, i, j);
    }
    assert w == g.cells;
  }

  /** The buffer `_to_binary_matrix` fills holds the image at the data
      positions below `dataBound` and the index positions below
      `indexBound`, and zeros elsewhere. */
  ghost predicate Filled(temp: seq<Word>, img: seq<Word>, n: nat, dataBound: int, indexBound: int)
    requires |temp| == |img|
  {
    forall k :: 0 <= k < |temp| ==>
      temp[k] == if (k % (n + 1) != 0 && k < dataBound) || (k % (n + 1) == 0 && k < indexBound) then img[k] else 0
  }

  lemma DataStep(temp: seq<Word>, img: seq<Word>, n: nat, p: nat)
    requires |temp| == |img| && p < |temp| && p % (n + 1) != 0
    requires Filled(temp, img, n, p, 0)
    ensures Filled(temp[p := img[p]], img, n, p + 1, 0)
  {
  }

  lemma SkipIndexPosition(temp: seq<Word>, img: seq<Word>, n: nat, p: nat)
    requires |temp| == |img| && p % (n + 1) == 0
    requires Filled(temp, img, n, p, 0)
    ensures Filled(temp, img, n, p + 1, 0)
  {
  }

  lemma IndexStep(temp: seq<Word>, img: seq<Word>, n: nat, r: nat)
    requires |temp| == |img| == Pronic(n) && r < n
    requires Filled(temp, img, n, Pronic(n), r * (n + 1))
    ensures r * (n + 1) < |temp|
    ensures Filled(temp[r * (n + 1) := img[r * (n + 1)]], img, n, Pronic(n), (r + 1) * (n + 1))
  {
    RowMajorBound(r, 0, n, n + 1);
    var p := r * (n + 1);
    var t := temp[p := img[p]];
    forall k | 0 <= k < |t|
      ensures t[k] == if (k % (n + 1) != 0 && k < Pronic(n)) || (k % (n + 1) == 0 && k < (r + 1) * (n + 1)) then img[k] else 0
    {
      if p < k < (r + 1) * (n + 1) {
        RowMajorSplit(r, k - p, n + 1);
      }
    }
  }

  lemma FilledEverywhere(temp: seq<Word>, img: seq<Word>, n: nat)
    requires |temp| == |img| == Pronic(n)
    requires Filled(temp, img, n, Pronic(n), Pronic(n))
    ensures temp == img
  {
  }

  /** `temp[r, 1:] = array[r]`: row r of the matrix goes to positions
      r*(n+1) + 1 .. r*(n+1) + n. */
  method FillDataRow(temp: array<Word>, g: Grid, ghost img: seq<Word>, r: nat, rowStart: nat)
    requires g.IsSquare() && temp.Length == Pronic(g.rows) && img == BinaryImage(g)
    requires r < g.rows && rowStart == r * (g.rows + 1)
    requires Filled(temp[..], img, g.rows, rowStart, 0)
    modifies temp
    ensures Filled(temp[..], img, g.rows, rowStart + g.rows + 1, 0)
  {
    var n := g.rows;
    RowMajorSplit(r, 0, n + 1);
    SkipIndexPosition(temp[..], img, n, rowStart);
    for c := 0 to n
      invariant Filled(temp[..], img, n, rowStart + 1 + c, 0)
    {
      BinaryImageAt(g, r, c);
      RowMajorSplit(r, 1 + c, n + 1);
      DataStep(temp[..], img, n, rowStart + 1 + c);
      temp[rowStart + 1 + c] := g.At(r, c);
    }
  }

  /** `temp[:, 1:] = array`: the matrix goes to the data columns of a zeroed
      buffer, row after row. */
  method FillDataColumns(temp: array<Word>, g: Grid)
    requires g.IsSquare() && temp.Length == Pronic(g.rows)
    requires forall k :: 0 <= k < temp.Length ==> temp[k] == 0
    modifies temp
    ensures Filled(temp[..], BinaryImage(g), g.rows, Pronic(g.rows), 0)
  {
    var n := g.rows;
    ghost var img := BinaryImage(g);
    var rowStart := 0;
    for r := 0 to n
      invariant rowStart == r * (n + 1)
      invariant Filled(temp[..], img, n, rowStart, 0)
    {
      FillDataRow(temp, g, img, r, rowStart);
      rowStart := rowStart + n + 1;
    }
  }

  /** `temp[:, 0] = index_as_float`: the ordinals 1..n as int32, their bits
      stored unchanged at positions r*(n+1). */
  method FillIndexColumn(temp: array<Word>, g: Grid)
    requires g.IsSquare() && temp.Length == Pronic(g.rows)
    requires Filled(temp[..], BinaryImage(g), g.rows, Pronic(g.rows), 0)
    modifies temp
    ensures temp[..] == BinaryImage(g)
  {
    var n := g.rows;
    ghost var img := BinaryImage(g);
    var index := seq(n, i requires 0 <= i < n => Bits32(i + 1));
    for r := 0 to n
      invariant Filled(temp[..], img, n, Pronic(n), r * (n + 1))
    {
      BinaryImageAt(g, r, 0);
      IndexStep(temp[..], img, n, r);
      temp[r * (n + 1)] := index[r];
    }
    FilledEverywhere(temp[..], img, n);
  }

  /** `_to_binary_matrix` up to the write: a zeroed n×(n+1) buffer whose data
      columns receive the matrix and whose first column receives the row
      ordinals' int32 bit patterns. */
  method BinaryMatrixWords(g: Grid) returns (ws: seq<Word>)
    requires g.IsSquare()
    ensures ws == BinaryImage(g)
  {
    var n := g.rows;
    var temp := new Word[n * (n + 1)](_ => 0);
    FillDataColumns(temp, g);
    FillIndexColumn(temp, g);
    ws := temp[..];
  }

  /** `to_binary_matrix`: the input is coerced, and so checked, before the
      target is opened; a refused input leaves the target as it was. A
      target given by path is emptied when it is opened. */
  method ToBinaryMatrix(m: MatrixInput, sink: Sink, byPath: bool) returns (outcome: Result<()>)
    requires m.WellFormed()
    modifies sink
    ensures outcome.Ok? <==> CoerceMatrix(m, true).Ok?
    ensures outcome.Err? ==> outcome.error == CoerceMatrix(m, true).error
    ensures outcome.Err? ==> sink.contents == old(sink.contents)
    ensures outcome.Ok? ==>
      sink.contents == (if byPath then [] else old(sink.contents)) + BinaryImage(CoerceMatrix(m, true).value)
  {
    var coerced := CoerceMatrix(m, true);
    if coerced.Err? {
      return Err(coerced.error);
    }
    if byPath {
      sink.Truncate();
    }
    var ws := BinaryMatrixWords(coerced.value);
    sink.Append(ws);
    outcome := Ok(());
  }
}
