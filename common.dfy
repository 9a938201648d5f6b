/** `coerce_matrix`: turns a labelled table, a two-level series or a raw
    array into one square matrix of float32 words. */
module Common {
  import opened Words
  import opened Outcomes
  import opened Layout

  /** The inputs the normaliser tells apart. A table or a series carries
      integer labels; a raw array carries only its shape. */
  datatype MatrixInput =
      /** A labelled table: row labels, column labels, row-major values. */
    | Table(index: seq<int>, columns: seq<int>, values: seq<Word>)
      /** A series: one key of `nlevels` labels per value. */
    | Series(nlevels: nat, keys: seq<seq<int>>, values: seq<Word>)
      /** An unlabelled array of any rank, row-major. */
    | RawArray(shape: seq<nat>, values: seq<Word>)
  {
    /** The shape invariants every such object keeps. */
    predicate WellFormed() {
      match this
      case Table(index, columns, values) => |values| == |index| * |columns|
      case Series(nlevels, keys, values) =>
        |keys| == |values| && forall k :: 0 <= k < |keys| ==> |keys[k]| == nlevels
      case RawArray(shape, values) => |values| == Product(shape)
    }
  }

  predicate Increasing(s: seq<int>) {
    forall i, j :: 0 <= i < j < |s| ==> s[i] < s[j]
  }

  /** `x` inserted into an increasing sequence, kept increasing and without repeats. */
  function InsertSorted(x: int, s: seq<int>): (r: seq<int>)
    requires Increasing(s)
    ensures Increasing(r)
    ensures forall y :: y in r <==> y == x || y in s
  {
    if s == [] then [x]
    else if x < s[0] then [x] + s
    else if x == s[0] then s
    else
      var rest := InsertSorted(x, s[1..]);
      InsertAfterHead(x, s, rest);
      [s[0]] + rest
  }

  /** Inserting past the head keeps the head first. */
  lemma InsertAfterHead(x: int, s: seq<int>, rest: seq<int>)
    requires Increasing(s) && s != [] && s[0] < x
    requires Increasing(rest) && forall y :: y in rest <==> y == x || y in s[1..]
    ensures Increasing([s[0]] + rest)
    ensures forall y :: y in [s[0]] + rest <==> y == x || y in s
  {
    var r := [s[0]] + rest;
    forall j | 0 < j < |r|
      ensures s[0] < r[j]
    {
      assert r[j] == rest[j - 1];
      assert rest[j - 1] in rest;
      if rest[j - 1] != x {
        var k :| 0 <= k < |s[1..]| && s[1..][k] == rest[j - 1];
        assert s[k + 1] == rest[j - 1];
      }
    }
    forall i, j | 0 <= i < j < |r|
      ensures r[i] < r[j]
    {
      if i > 0 {
        assert r[i] == rest[i - 1] && r[j] == rest[j - 1];
      }
    }
    assert s == [s[0]] + s[1..];
  }

  /** The distinct values of `xs` in increasing order: the order an index
      union of integer labels takes. */
  function SortedDistinct(xs: seq<int>): (r: seq<int>)
    ensures Increasing(r)
    ensures forall y :: y in r <==> y in xs
  {
    if xs == [] then []
    else InsertSorted(xs[|xs| - 1], SortedDistinct(xs[..|xs| - 1]))
  }

  /** The labels of one level of a two-level series index, in key order. */
  function Level(keys: seq<seq<int>>, level: nat): (ls: seq<int>)
    requires forall k :: 0 <= k < |keys| ==> |keys[k]| == 2
    requires level < 2
    ensures |ls| == |keys|
    ensures forall k :: 0 <= k < |keys| ==> ls[k] == keys[k][level]
  {
    seq(|keys|, k requires 0 <= k < |keys| => keys[k][level])
  }

  predicate HasDuplicateKeys(keys: seq<seq<int>>) {
    exists i, j :: 0 <= i < j < |keys| && keys[i] == keys[j]
  }

  /** The value stored under key [a, b], if any (the first one). */
  function Lookup(keys: seq<seq<int>>, values: seq<Word>, a: int, b: int): (v: Option<Word>)
    requires |keys| == |values|
    ensures v.None? <==> forall k :: 0 <= k < |keys| ==> keys[k] != [a, b]
    ensures v.Some? ==> exists k :: 0 <= k < |keys| && keys[k] == [a, b] && values[k] == v.value
  {
    if keys == [] then None
    else if keys[0] == [a, b] then Some(values[0])
    else
      var v := Lookup(keys[1..], values[1..], a, b);
      assert forall k :: 1 <= k < |keys| ==> keys[k] == keys[1..][k - 1];
      v
  }

  /** Cell (a, b) of the unstacked, union-reindexed series: the stored value;
      NaN for a pair of labels that both levels hold but the series lacks
      (unstacking leaves it missing); 0.0 for a row or column that only the
      union brought in. */
  function UnstackedCell(keys: seq<seq<int>>, values: seq<Word>, rowLevel: seq<int>, colLevel: seq<int>,
                         a: int, b: int): Word
    requires |keys| == |values|
  {
    match Lookup(keys, values, a, b)
    case Some(v) => v
    case None => if a in rowLevel && b in colLevel then NAN_WORD else ZERO_WORD
  }

  /** A two-level series unstacked onto the union of its level labels, both
      axes. Returns that union and the square matrix. */
  function CoerceSeries(nlevels: nat, keys: seq<seq<int>>, values: seq<Word>): (r: Result<(seq<int>, Grid)>)
    requires |keys| == |values| && forall k :: 0 <= k < |keys| ==> |keys[k]| == nlevels
    ensures nlevels != 2 ==> r == Err(NotTwoLevels)
    ensures nlevels == 2 && HasDuplicateKeys(keys) ==> r == Err(DuplicateEntries)
    ensures r.Ok? <==> nlevels == 2 && !HasDuplicateKeys(keys)
    ensures r.Ok? ==> Increasing(r.value.0)
    ensures r.Ok? ==> forall x :: x in r.value.0 <==> exists k :: 0 <= k < |keys| && x in keys[k]
    ensures r.Ok? ==> r.value.1.IsSquare() && r.value.1.rows == |r.value.0|
  {
    if nlevels != 2 then Err(NotTwoLevels)
    else if HasDuplicateKeys(keys) then Err(DuplicateEntries)
    else
      var rowLevel := Level(keys, 0);
      var colLevel := Level(keys, 1);
      var union := SortedDistinct(rowLevel + colLevel);
      var n := |union|;
      var cells := seq(n * n, k requires 0 <= k < n * n =>
        RowMajorCell(k, n, n); UnstackedCell(keys, values, rowLevel, colLevel, union[k / n], union[k % n]));
      UnionLabels(keys);
      Ok((union, Grid(n, n, cells)))
  }

  /** The union of a series' level labels holds exactly the labels its keys use. */
  lemma UnionLabels(keys: seq<seq<int>>)
    requires forall k :: 0 <= k < |keys| ==> |keys[k]| == 2
    ensures var union := SortedDistinct(Level(keys, 0) + Level(keys, 1));
      forall x :: x in union <==> exists k :: 0 <= k < |keys| && x in keys[k]
  {
    var rowLevel := Level(keys, 0);
    var colLevel := Level(keys, 1);
    var union := SortedDistinct(rowLevel + colLevel);
    forall x | x in union ensures exists k :: 0 <= k < |keys| && x in keys[k] {
      assert x in rowLevel + colLevel;
      if x in rowLevel {
        var k :| 0 <= k < |keys| && rowLevel[k] == x;
        assert x in keys[k];
      } else {
        var k :| 0 <= k < |keys| && colLevel[k] == x;
        assert x in keys[k];
      }
    }
    forall x, k | 0 <= k < |keys| && x in keys[k] ensures x in union {
      var p :| 0 <= p < 2 && keys[k][p] == x;
      if p == 0 {
        assert (rowLevel + colLevel)[k] == x;
      } else {
        assert (rowLevel + colLevel)[|rowLevel| + k] == x;
      }
    }
  }

  /** The cells of the unstacked series: a stored pair holds its value, a
      pair inside both original levels that the series lacks holds NaN, and
      a row or column added by the union holds 0.0. */
  lemma SeriesCell(keys: seq<seq<int>>, values: seq<Word>, i: nat, j: nat)
    requires |keys| == |values| && forall k :: 0 <= k < |keys| ==> |keys[k]| == 2
    requires CoerceSeries(2, keys, values).Ok?
    requires i < |CoerceSeries(2, keys, values).value.0| && j < |CoerceSeries(2, keys, values).value.0|
    ensures var (labels, g) := CoerceSeries(2, keys, values).value;
      (forall k :: 0 <= k < |keys| && keys[k] == [labels[i], labels[j]] ==> g.At(i, j) == values[k]) &&
      ((forall k :: 0 <= k < |keys| ==> keys[k] != [labels[i], labels[j]]) ==>
         g.At(i, j) == if labels[i] in Level(keys, 0) && labels[j] in Level(keys, 1) then NAN_WORD else ZERO_WORD)
  {
    var (labels, g) := CoerceSeries(2, keys, values).value;
    var n := |labels|;
    RowMajorBound(i, j, n, n);
    RowMajorSplit(i, j, n);
    assert g.At(i, j) == UnstackedCell(keys, values, Level(keys, 0), Level(keys, 1), labels[i], labels[j]);
    forall k | 0 <= k < |keys| && keys[k] == [labels[i], labels[j]]
      ensures g.At(i, j) == values[k]
    {
      var v := Lookup(keys, values, labels[i], labels[j]);
      var k' :| 0 <= k' < |keys| && keys[k'] == [labels[i], labels[j]] && values[k'] == v.value;
      DistinctKeys(keys, k, k');
    }
  }

  /** Without repeated keys, equal keys sit at the same position. */
  lemma DistinctKeys(keys: seq<seq<int>>, k: nat, k': nat)
    requires !HasDuplicateKeys(keys)
    requires k < |keys| && k' < |keys| && keys[k] == keys[k']
    ensures k == k'
  {
    if k < k' {
      assert false;
    } else if k' < k {
      assert false;
    }
  }

  /** `coerce_matrix`: the square matrix an input stands for, or the reason
      it has none. Raw arrays are refused unless `allowRaw`. */
  function CoerceMatrix(m: MatrixInput, allowRaw: bool): (r: Result<Grid>)
    requires m.WellFormed()
    ensures r.Ok? ==> r.value.IsSquare()
    ensures m.Table? ==> (r.Ok? <==> m.index == m.columns)
    ensures m.Table? && r.Ok? ==> r.value.rows == |m.index| && r.value.cells == m.values
    ensures m.Series? ==> (r.Ok? <==> m.nlevels == 2 && !HasDuplicateKeys(m.keys))
    ensures m.Series? && r.Ok? ==> r.value == CoerceSeries(m.nlevels, m.keys, m.values).value.1
    ensures m.RawArray? && !allowRaw ==> r == Err(RawNotAllowed)
    ensures m.RawArray? && allowRaw ==> (r.Ok? <==> |m.shape| == 2 && m.shape[0] == m.shape[1])
    ensures m.RawArray? && r.Ok? ==> r.value.rows == m.shape[0] && r.value.cells == m.values
  {
    match m
    case Table(index, columns, values) =>
      if index != columns then Err(LabelsDiffer)
      else Ok(Grid(|index|, |columns|, values))
    case Series(nlevels, keys, values) =>
      var s := CoerceSeries(nlevels, keys, values);
      if s.Err? then Err(s.error) else Ok(s.value.1)
    case RawArray(shape, values) =>
      if !allowRaw then Err(RawNotAllowed)
      else if |shape| != 2 then Err(NotTwoDimensional)
      else if shape[0] != shape[1] then Err(NotSquare)
      else
        assert Product(shape) == shape[0] * shape[1] by {
          assert shape[..1][..0] == [];
          assert Product(shape[..1]) == shape[0];
        }
        Ok(Grid(shape[0], shape[1], values))
  }

  /** The `allow_raw` gate only concerns raw arrays: labelled inputs are
      coerced the same either way. */
  lemma AllowRawOnlyGatesRaw(m: MatrixInput)
    requires m.WellFormed() && !m.RawArray?
    ensures CoerceMatrix(m, false) == CoerceMatrix(m, true)
  {
  }

  /** The labels a labelled input's matrix carries on both axes: a table's
      own index, or a series' union of level labels. */
  function Axis(m: MatrixInput): (labels: Result<seq<int>>)
    requires m.WellFormed()
    ensures labels.Ok? <==> !m.RawArray? && CoerceMatrix(m, false).Ok?
    ensures labels.Ok? ==> |labels.value| == CoerceMatrix(m, false).value.rows
    ensures m.Table? && labels.Ok? ==> labels.value == m.index
    ensures m.Series? && labels.Ok? ==> labels.value == CoerceSeries(m.nlevels, m.keys, m.values).value.0
  {
    match m
    case Table(index, columns, values) =>
      if index != columns then Err(LabelsDiffer) else Ok(index)
    case Series(nlevels, keys, values) =>
      var s := CoerceSeries(nlevels, keys, values);
      if s.Err? then Err(s.error) else Ok(s.value.0)
    case RawArray(_, _) => Err(RawNotAllowed)
  }
}
