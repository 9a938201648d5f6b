/** Emme's internal EMX matrix: a headerless square block of float32 words
    whose side is inferred from the word count. */
module EmmeEmx {
  import opened Words
  import opened Outcomes
  import opened Layout
  import opened Common
  import opened Sinks

  /** What `zones` selects: nothing, a leading count, or explicit labels. */
  datatype Zones = AllZones | ZoneCount(k: int) | ZoneLabels(labels: seq<int>)

  /** The four shapes `_from_emx` returns. */
  datatype EmxMatrix =
    | FlatWords(words: seq<Word>)
    | SquareArray(grid: Grid)
    | LabelledGrid(labels: seq<int>, grid: Grid)
    | StackedSeries(keys: seq<(int, int)>, values: seq<Word>)

  /** Where the slice `[:k]` of an axis of length n ends (a negative k counts
      from the end; a k past the end stops at the end). */
  function SliceEnd(k: int, n: nat): (m: nat)
    ensures m <= n
    ensures 0 <= k ==> m == Min(k, n)
    ensures k < 0 ==> m == if n + k >= 0 then n + k else 0
  {
    if k >= 0 then Min(k, n) else if n + k >= 0 then n + k else 0
  }

  /** The leading m×m block of an n×n buffer, row-major. */
  function LeadingBlock(words: seq<Word>, n: nat, m: nat): (b: seq<Word>)
    requires |words| == n * n && m <= n
    ensures |b| == m * m
  {
    MulMonotone(m, n, n);
    Window(words, n, 0, m, m)
  }

  /** Entry (i, j) of the leading block is word i*n + j. */
  lemma LeadingBlockAt(words: seq<Word>, n: nat, m: nat, i: nat, j: nat)
    requires |words| == n * n && m <= n && i < m && j < m
    ensures i * m + j < m * m && i * n + j < n * n
    ensures LeadingBlock(words, n, m)[i * m + j] == words[i * n + j]
  {
    MulMonotone(m, n, n);
    WindowAt(words, n, 0, m, m, i, j);
  }

  lemma {:induction false} LeadingBlockWhole(words: seq<Word>, n: nat)
    requires |words| == n * n
    ensures LeadingBlock(words, n, n) == words
  {
    var b := LeadingBlock(words, n, n);
    forall k | 0 <= k < n * n
      ensures b[k] == words[k]
    {
      RowMajorCell(k, n, n);
      LeadingBlockAt(words, n, n, k / n, k % n);
    }
  }

  /** `_from_emx`. The side n is the integer square root of the word count
      and the count must be n*n. With `flattenByCopy` false this is the code
      as written: flattening a k×k block in place by setting its shape,
      which numpy refuses when the block is not contiguous (1 < k < n). With
      it true the block is flattened into a copy, as the documented result
      requires. */
  function DecodeEmx(words: seq<Word>, zones: Zones, tall: bool, flattenByCopy: bool): (r: Result<EmxMatrix>)
    ensures r.Ok? ==> |words| == ISqrt(|words|) * ISqrt(|words|)
    ensures r.Err? && |words| != ISqrt(|words|) * ISqrt(|words|) ==> r.error == NotSquare
  {
    var n := ISqrt(|words|);
    if |words| != n * n then Err(NotSquare)
    else match zones
      case AllZones =>
        if tall then Ok(FlatWords(words)) else Ok(SquareArray(Grid(n, n, words)))
      case ZoneCount(k) =>
        var m := SliceEnd(k, n);
        var block := LeadingBlock(words, n, m);
        if !tall then Ok(SquareArray(Grid(m, m, block)))
        else if m * m != k * k then Err(ReshapeError)
        else if !flattenByCopy && !(m == n || m <= 1) then Err(InPlaceReshapeError)
        else Ok(FlatWords(block))
      case ZoneLabels(labels) =>
        var m := |labels|;
        if m > n then Err(ReshapeError)
        else
          var block := LeadingBlock(words, n, m);
          if tall then Ok(StackedSeries(StackKeys(labels, labels), block))
          else Ok(LabelledGrid(labels, Grid(m, m, block)))
  }

  /** `_from_emx` as the rest of this model uses it (flattening copies). */
  function FromEmx(words: seq<Word>, zones: Zones, tall: bool): Result<EmxMatrix> {
    DecodeEmx(words, zones, tall, true)
  }

  /** `_from_emx` exactly as written (flattening in place). It parts from
      `FromEmx` only by refusing some tall integer-zone reads. */
  function FromEmxAsWritten(words: seq<Word>, zones: Zones, tall: bool): (r: Result<EmxMatrix>)
    ensures r != FromEmx(words, zones, tall) ==> tall && zones.ZoneCount? && r == Err(InPlaceReshapeError)
  {
    DecodeEmx(words, zones, tall, false)
  }

  /** Every square word count is accepted: without zones the words come back
      flat, or as the n×n matrix. */
  lemma FromEmxSquare(words: seq<Word>, n: nat)
    requires |words| == n * n
    ensures FromEmx(words, AllZones, true) == Ok(FlatWords(words))
    ensures FromEmx(words, AllZones, false) == Ok(SquareArray(Grid(n, n, words)))
  {
    ISqrtOfSquare(n);
  }

  /** A word count that is not a perfect square is refused, whatever is asked. */
  lemma FromEmxNotSquare(words: seq<Word>, zones: Zones, tall: bool)
    requires forall n: nat :: n * n != |words|
    ensures FromEmx(words, zones, tall) == Err(NotSquare)
  {
  }

  /** An integer zone count 0 <= k <= n keeps the leading k×k block, as a
      matrix or, when `tall`, flattened row-major to k*k words. */
  lemma FromEmxZoneCount(words: seq<Word>, n: nat, k: nat)
    requires |words| == n * n && k <= n
    ensures FromEmx(words, ZoneCount(k), false) == Ok(SquareArray(Grid(k, k, LeadingBlock(words, n, k))))
    ensures FromEmx(words, ZoneCount(k), true) == Ok(FlatWords(LeadingBlock(words, n, k)))
  {
    ISqrtOfSquare(n);
  }

  /** A label sequence of length m <= n keeps the leading m×m block and uses
      the labels for both axes; a longer one cannot label the data. */
  lemma FromEmxZoneLabels(words: seq<Word>, n: nat, labels: seq<int>)
    requires |words| == n * n
    ensures |labels| > n ==> FromEmx(words, ZoneLabels(labels), false) == Err(ReshapeError)
    ensures |labels| > n ==> FromEmx(words, ZoneLabels(labels), true) == Err(ReshapeError)
    ensures |labels| <= n ==> (FromEmx(words, ZoneLabels(labels), false) ==
      Ok(LabelledGrid(labels, Grid(|labels|, |labels|, LeadingBlock(words, n, |labels|)))))
    ensures |labels| <= n ==> (FromEmx(words, ZoneLabels(labels), true) ==
      Ok(StackedSeries(StackKeys(labels, labels), LeadingBlock(words, n, |labels|))))
  {
    ISqrtOfSquare(n);
  }

  /** As written, asking for a tall k×k block with 1 < k < n fails: the block
      is a non-contiguous view whose shape cannot be changed in place. */
  lemma AsWrittenFlattenRefused(words: seq<Word>, n: nat, k: nat)
    requires |words| == n * n && 1 < k < n
    ensures FromEmxAsWritten(words, ZoneCount(k), true) == Err(InPlaceReshapeError)
    ensures FromEmx(words, ZoneCount(k), true).Ok?
  {
    ISqrtOfSquare(n);
  }

  /** The smallest case: a 3×3 file asked for its tall 2×2 block. */
  lemma AsWrittenFlattenExample()
    ensures FromEmxAsWritten(seq(9, i => 0), ZoneCount(2), true) == Err(InPlaceReshapeError)
    ensures FromEmx(seq(9, i => 0), ZoneCount(2), true) == Ok(FlatWords(seq(4, i => 0)))
  {
    var w: seq<Word> := seq(9, i => 0);
    AsWrittenFlattenRefused(w, 3, 2);
    FromEmxZoneCount(w, 3, 2);
    var b := LeadingBlock(w, 3, 2);
    assert b == seq(4, i => 0);
  }

  /** The words `_to_emx` writes: a max_zones × max_zones block whose cell
      (i, j) is the matrix's when both are below min(n, max_zones), else 0. */
  function EmxImage(g: Grid, maxZones: nat): (ws: seq<Word>)
    requires g.IsSquare()
    ensures |ws| == maxZones * maxZones
  {
    var m := Min(g.rows, maxZones);
    seq(maxZones * maxZones, k requires 0 <= k < maxZones * maxZones =>
      RowMajorCell(k, maxZones, maxZones);
      var i, j := k / maxZones, k % maxZones;
      if i < m && j < m then g.At(i, j) else ZERO_WORD)
  }

  /** Cell (i, j) of the written block: truncated or zero-padded. */
  lemma EmxImageAt(g: Grid, maxZones: nat, i: nat, j: nat)
    requires g.IsSquare() && i < maxZones && j < maxZones
    ensures i * maxZones + j < maxZones * maxZones
    ensures EmxImage(g, maxZones)[i * maxZones + j] ==
      if i < g.rows && j < g.rows then g.At(i, j) else ZERO_WORD
  {
    RowMajorBound(i, j, maxZones, maxZones);
    RowMajorSplit(i, j, maxZones);
  }

  /** The leading min(n, max_zones) block of the written words is the
      matrix's own leading block of that size. */
  lemma {:induction false} EmxImageBlock(g: Grid, maxZones: nat)
    requires g.IsSquare()
    ensures Min(g.rows, maxZones) <= maxZones && Min(g.rows, maxZones) <= g.rows
    ensures LeadingBlock(EmxImage(g, maxZones), maxZones, Min(g.rows, maxZones)) ==
      LeadingBlock(g.cells, g.rows, Min(g.rows, maxZones))
  {
    var n, m := g.rows, Min(g.rows, maxZones);
    var img := EmxImage(g, maxZones);
    var a, b := LeadingBlock(img, maxZones, m), LeadingBlock(g.cells, n, m);
    forall k | 0 <= k < m * m
      ensures a[k] == b[k]
    {
      RowMajorCell(k, m, m);
      var i, j := k / m, k % m;
      LeadingBlockAt(img, maxZones, m, i, j);
      LeadingBlockAt(g.cells, n, m, i, j);
      EmxImageAt(g, maxZones, i, j);
    }
  }

  /** Reading back a written EMX file with min(n, max_zones) zones gives the
      matrix's leading block of that size: all of it when the file is large
      enough, the truncated part otherwise. */
  lemma EmxRoundTrip(g: Grid, maxZones: nat)
    requires g.IsSquare()
    ensures var m := Min(g.rows, maxZones);
      FromEmx(EmxImage(g, maxZones), ZoneCount(m), false) ==
        Ok(SquareArray(Grid(m, m, LeadingBlock(g.cells, g.rows, m))))
  {
    FromEmxZoneCount(EmxImage(g, maxZones), maxZones, Min(g.rows, maxZones));
    EmxImageBlock(g, maxZones);
  }

  /** With a file sized for at least n zones, the matrix comes back whole. */
  lemma EmxPaddedRoundTrip(g: Grid, maxZones: nat)
    requires g.IsSquare() && g.rows <= maxZones
    ensures FromEmx(EmxImage(g, maxZones), ZoneCount(g.rows), false) == Ok(SquareArray(g))
  {
    EmxRoundTrip(g, maxZones);
    LeadingBlockWhole(g.cells, g.rows);
  }

  /** The buffer `_to_emx` fills: cells of the leading m×m block at positions
      below `bound` are copied from the matrix, all other positions keep what
      they held before. */
  ghost predicate BlockCopied(s: seq<Word>, before: seq<Word>, g: Grid, m: nat, width: nat, bound: int)
    requires g.IsSquare() && m <= g.rows && width > 0 && |s| == |before|
  {
    forall k :: 0 <= k < |s| ==>
      s[k] == if k < bound && k / width < m && k % width < m then g.At(k / width, k % width) else before[k]
  }

  lemma CopyStep(s: seq<Word>, before: seq<Word>, g: Grid, m: nat, width: nat, i: nat, j: nat)
    requires g.IsSquare() && m <= g.rows && m <= width && width > 0 && |s| == |before| == width * width
    requires i < m && j < m
    requires BlockCopied(s, before, g, m, width, i * width + j)
    ensures i * width + j < |s|
    ensures BlockCopied(s[i * width + j := g.At(i, j)], before, g, m, width, i * width + j + 1)
  {
    RowMajorBound(i, j, width, width);
    RowMajorSplit(i, j, width);
  }

  /** Positions m .. width-1 of row i lie outside the block. */
  lemma SkipRowTail(s: seq<Word>, before: seq<Word>, g: Grid, m: nat, width: nat, i: nat)
    requires g.IsSquare() && m <= g.rows && m <= width && width > 0 && |s| == |before| == width * width
    requires BlockCopied(s, before, g, m, width, i * width + m)
    ensures BlockCopied(s, before, g, m, width, i * width + width)
  {
    forall k | 0 <= k < |s|
      ensures s[k] == if k < i * width + width && k / width < m && k % width < m then g.At(k / width, k % width) else before[k]
    {
      if i * width + m <= k < i * width + width {
        RowTail(k, i, m, width);
      }
    }
  }

  lemma RowTail(k: int, i: nat, m: nat, width: nat)
    requires i * width + m <= k < i * width + width
    ensures k % width >= m
  {
    RowMajorSplit(i, k - i * width, width);
  }

  /** A position at or past row m, in a width-wide buffer, is in row m or later. */
  lemma PastRows(k: int, m: nat, width: nat)
    requires width > 0 && m * width <= k
    ensures k / width >= m
  {
    if k / width < m {
      assert k == (k / width) * width + k % width;
      MulMonotone(k / width + 1, m, width);
    }
  }

  /** Once every row of the block is copied, no position past the block's
      last row is in it. */
  lemma BlockComplete(s: seq<Word>, before: seq<Word>, g: Grid, m: nat, width: nat)
    requires g.IsSquare() && m <= g.rows && m <= width && width > 0 && |s| == |before| == width * width
    requires BlockCopied(s, before, g, m, width, m * width)
    ensures BlockCopied(s, before, g, m, width, width * width)
  {
    forall k | 0 <= k < |s|
      ensures s[k] == if k < width * width && k / width < m && k % width < m then g.At(k / width, k % width) else before[k]
    {
      if k >= m * width {
        PastRows(k, m, width);
      }
    }
  }

  /** Row i of the block: `out[i, :m] = data[i, :m]`. */
  method CopyRow(out: array<Word>, ghost before: seq<Word>, g: Grid, m: nat, width: nat, i: nat, rowStart: nat)
    requires g.IsSquare() && m <= g.rows && m <= width && width > 0 && out.Length == |before| == width * width
    requires i < m && rowStart == i * width
    requires BlockCopied(out[..], before, g, m, width, rowStart)
    modifies out
    ensures BlockCopied(out[..], before, g, m, width, rowStart + width)
  {
    for j := 0 to m
      invariant BlockCopied(out[..], before, g, m, width, rowStart + j)
    {
      CopyStep(out[..], before, g, m, width, i, j);
      out[rowStart + j] := g.At(i, j);
    }
    SkipRowTail(out[..], before, g, m, width, i);
  }

  /** `out[:m, :m] = data[:m, :m]`, row after row. */
  method CopyBlock(out: array<Word>, g: Grid, m: nat, width: nat)
    requires g.IsSquare() && m <= g.rows && m <= width && width > 0 && out.Length == width * width
    modifies out
    ensures BlockCopied(out[..], old(out[..]), g, m, width, width * width)
  {
    ghost var before := out[..];
    var rowStart := 0;
    for i := 0 to m
      invariant rowStart == i * width
      invariant BlockCopied(out[..], before, g, m, width, rowStart)
    {
      CopyRow(out, before, g, m, width, i, rowStart);
      rowStart := rowStart + width;
    }
    BlockComplete(out[..], before, g, m, width);
  }

  /** `_to_emx` up to the write: the leading max_zones block of a larger
      matrix, or the matrix placed top-left in a zeroed max_zones block. */
  method EmxWords(g: Grid, maxZones: nat) returns (ws: seq<Word>)
    requires g.IsSquare() && maxZones > 0
    ensures ws == EmxImage(g, maxZones)
  {
    var n := g.rows;
    var out: array<Word>;
    if n > maxZones {
      // data[:max_zones, :max_zones]: every cell comes from the matrix
      out := new Word[maxZones * maxZones];
      CopyBlock(out, g, maxZones, maxZones);
    } else {
      // np.zeros, then out[:n, :n] = data
      out := new Word[maxZones * maxZones](_ => ZERO_WORD);
      CopyBlock(out, g, n, maxZones);
    }
    forall k | 0 <= k < out.Length
      ensures out[k] == EmxImage(g, maxZones)[k]
    {
      RowMajorCell(k, maxZones, maxZones);
      EmxImageAt(g, maxZones, k / maxZones, k % maxZones);
    }
    ws := out[..];
  }

  /** `to_emx`: a non-positive zone count is refused before anything else. A
      target given by path is then opened, and so emptied, before the input
      is coerced: a refused input leaves such a file empty, and leaves a
      handle untouched. */
  method ToEmx(m: MatrixInput, sink: Sink, emmebankZones: int, byPath: bool) returns (outcome: Result<()>)
    requires m.WellFormed()
    modifies sink
    ensures emmebankZones <= 0 ==> outcome == Err(BadZoneCount) && sink.contents == old(sink.contents)
    ensures emmebankZones > 0 ==> (outcome.Ok? <==> CoerceMatrix(m, true).Ok?)
    ensures emmebankZones > 0 && outcome.Err? ==>
      outcome.error == CoerceMatrix(m, true).error && sink.contents == (if byPath then [] else old(sink.contents))
    ensures outcome.Ok? ==>
      sink.contents == (if byPath then [] else old(sink.contents)) + EmxImage(CoerceMatrix(m, true).value, emmebankZones)
  {
    if emmebankZones <= 0 {
      return Err(BadZoneCount);
    }
    if byPath {
      sink.Truncate();
    }
    var coerced := CoerceMatrix(m, true);
    if coerced.Err? {
      return Err(coerced.error);
    }
    var ws := EmxWords(coerced.value, emmebankZones);
    sink.Append(ws);
    outcome := Ok(());
  }
}
