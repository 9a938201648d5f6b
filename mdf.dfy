/** Emme's matrix "binary serialization" (MDF): a four-word header, the
    shape, one int32 label array per axis, then the payload. */
module EmmeMdf {
  import opened Words
  import opened Outcomes
  import opened Layout
  import opened Common
  import opened Sinks

  const MAGIC: Word := 0xC4D4_F1B2
  const VERSION: Word := 1
  /** The dtype tag of float32, the only one the writer emits. */
  const FLOAT32_TAG: Word := 1

  /** The element types dtype tags 1, 2, 3 and 4 stand for. */
  datatype ElemType = Float32 | Float64 | Int32 | UInt32

  function ElemTypeOf(tag: Word): ElemType
    requires 0 < tag <= 4
  {
    if tag == 1 then Float32 else if tag == 2 then Float64 else if tag == 3 then Int32 else UInt32
  }

  /** Words per element: float64 elements take two. */
  function WidthOf(t: ElemType): nat {
    if t == Float64 then 2 else 1
  }

  /** The four conditions the header must meet. */
  predicate HeaderOk(magic: Word, version: Word, tag: Word, ndim: Word) {
    magic == MAGIC && version == VERSION && 0 < tag <= 4 && 0 < ndim <= 2
  }

  /** What a decoded record becomes. Elements are the bit patterns of the
      payload elements: one word, or two words (low word first) for float64. */
  datatype Decoded =
      /** `raw` and `tall`: the payload as read. */
    | FlatArray(elemType: ElemType, elems: seq<nat>)
      /** `raw`: the payload reshaped to the record's shape. */
    | ShapedArray(elemType: ElemType, shape: seq<nat>, elems: seq<nat>)
      /** A one-axis record: a series over its labels. */
    | LabelledSeries(elemType: ElemType, index: seq<int>, elems: seq<nat>)
      /** A two-axis record: a frame, values row-major. */
    | LabelledFrame(elemType: ElemType, index: seq<int>, columns: seq<int>, elems: seq<nat>)
      /** A two-axis record stacked: (row label, column label) keys, row-major. */
    | StackedSeries(elemType: ElemType, keys: seq<(int, int)>, elems: seq<nat>)

  /** A read of up to `count` words at `start`: it stops at the end of the
      stream, and yields nothing once the stream is exhausted. */
  function ReadWords(s: seq<Word>, start: nat, count: nat): (r: seq<Word>)
    ensures |r| == if start >= |s| then 0 else Min(count, |s| - start)
    ensures forall i :: 0 <= i < |r| ==> r[i] == s[start + i]
  {
    if start >= |s| then [] else s[start .. start + Min(count, |s| - start)]
  }

  /** Words grouped into elements of `width` words, low word first; a
      trailing partial element is dropped. */
  function Combine(ws: seq<Word>, width: nat): (es: seq<nat>)
    requires width == 1 || width == 2
    ensures |es| == |ws| / width
  {
    seq(|ws| / width, i requires 0 <= i < |ws| / width =>
      if width == 1 then ws[i] else ws[2 * i] + WORD_MODULUS * ws[2 * i + 1])
  }

  /** Single-word elements are the words themselves. */
  lemma CombineSingle(ws: seq<Word>)
    ensures Combine(ws, 1) == ws
  {
  }

  /** A read of up to `count` elements of `width` words at `start`. */
  function ReadElems(s: seq<Word>, start: nat, count: nat, width: nat): (r: seq<nat>)
    requires width == 1 || width == 2
    ensures |r| <= count
  {
    Combine(ReadWords(s, start, count * width), width)
  }

  /** Where the labels of axis `a` start: after the header, the shape and
      the labels of the axes before it. */
  function LabelStart(shape: seq<nat>, a: nat): nat
    requires a <= |shape|
  {
    4 + |shape| + Sum(shape[..a])
  }

  /** Where the payload starts: after the labels of every axis. */
  function PayloadStart(shape: seq<nat>): nat {
    LabelStart(shape, |shape|)
  }

  /** The labels of axis `a`, as far as the stream holds them. */
  function AxisLabels(s: seq<Word>, shape: seq<nat>, a: nat): (labels: seq<int>)
    requires a < |shape|
    ensures |labels| <= shape[a]
  {
    Int32Labels(ReadWords(s, LabelStart(shape, a), shape[a]))
  }

  /** `_from_mdf`: what reading a record yields, or why it fails. */
  function DecodeMdf(s: seq<Word>, raw: bool, tall: bool): (r: Result<Decoded>)
    ensures |s| < 4 ==> r == Err(ShortHeader)
    ensures |s| >= 4 && !HeaderOk(s[0], s[1], s[2], s[3]) ==> r == Err(HeaderError(s[0], s[1], s[2], s[3]))
    ensures r.Ok? ==> |s| >= 4 && HeaderOk(s[0], s[1], s[2], s[3]) && r.value.elemType == ElemTypeOf(s[2])
    ensures raw && tall ==> (r.Ok? <==> |s| >= 4 && HeaderOk(s[0], s[1], s[2], s[3]))
    ensures r.Ok? && !(raw && tall) ==> |r.value.elems| == Product(ReadWords(s, 4, s[3]))
    ensures r.Ok? ==> (r.value.FlatArray? <==> raw && tall) && (r.value.ShapedArray? <==> raw && !tall)
    ensures r.Ok? && !raw ==> (r.value.LabelledSeries? <==> s[3] == 1) && (r.value.StackedSeries? <==> s[3] == 2 && tall)
  {
    if |s| < 4 then Err(ShortHeader)
    else if !HeaderOk(s[0], s[1], s[2], s[3]) then Err(HeaderError(s[0], s[1], s[2], s[3]))
    else
      var t := ElemTypeOf(s[2]);
      var ndim := s[3];
      var shape: seq<nat> := ReadWords(s, 4, ndim);
      var payload := ReadElems(s, PayloadStart(shape), Product(shape), WidthOf(t));
      if raw && tall then Ok(FlatArray(t, payload))
      else if |payload| != Product(shape) then Err(ReshapeError)
      else if raw then Ok(ShapedArray(t, shape, payload))
      else if |shape| < ndim then Err(MissingAxis)
      else
        var index := AxisLabels(s, shape, 0);
        if ndim == 1 then
          if |index| != shape[0] then Err(ReshapeError) else Ok(LabelledSeries(t, index, payload))
        else
          var columns := AxisLabels(s, shape, 1);
          if |index| != shape[0] || |columns| != shape[1] then Err(ReshapeError)
          else if tall then Ok(StackedSeries(t, StackKeys(index, columns), payload))
          else Ok(LabelledFrame(t, index, columns, payload))
  }

  /** `_from_mdf`, reading with a cursor: the header, the shape, each axis'
      labels in turn, then the payload. */
  method FromMdf(stream: seq<Word>, raw: bool, tall: bool) returns (r: Result<Decoded>)
    ensures r == DecodeMdf(stream, raw, tall)
  {
    var header := ReadWords(stream, 0, 4);
    if |header| < 4 {
      return Err(ShortHeader);
    }
    var magic, version, tag, ndim := header[0], header[1], header[2], header[3];
    if !HeaderOk(magic, version, tag, ndim) {
      return Err(HeaderError(magic, version, tag, ndim));
    }
    var pos := 4;
    var shape: seq<nat> := ReadWords(stream, pos, ndim);
    pos := pos + |shape|;
    var indexList: seq<seq<int>> := [];
    for a := 0 to |shape|
      invariant pos == Min(LabelStart(shape, a), |stream|)
      invariant |indexList| == a
      invariant forall b :: 0 <= b < a ==> indexList[b] == AxisLabels(stream, shape, b)
    {
      var indices := Int32Labels(ReadWords(stream, pos, shape[a]));
      assert shape[..a + 1][..a] == shape[..a];
      indexList := indexList + [indices];
      pos := pos + |indices|;
    }
    var t := ElemTypeOf(tag);
    var flatLength := Product(shape);
    var matrix := ReadElems(stream, pos, flatLength, WidthOf(t));
    if raw && tall {
      return Ok(FlatArray(t, matrix));
    }
    if |matrix| != flatLength {
      return Err(ReshapeError);
    }
    if raw {
      return Ok(ShapedArray(t, shape, matrix));
    }
    if |indexList| < ndim {
      return Err(MissingAxis);
    }
    if ndim == 1 {
      if |indexList[0]| != shape[0] {
        return Err(ReshapeError);
      }
      return Ok(LabelledSeries(t, indexList[0], matrix));
    }
    if |indexList[0]| != shape[0] || |indexList[1]| != shape[1] {
      return Err(ReshapeError);
    }
    if tall {
      return Ok(StackedSeries(t, StackKeys(indexList[0], indexList[1]), matrix));
    }
    return Ok(LabelledFrame(t, indexList[0], indexList[1], matrix));
  }

  /** The label arrays of every axis, one after the other, as int32 words. */
  function LabelWords(labels: seq<seq<int>>): (ws: seq<Word>)
  {
    if labels == [] then [] else Int32Words(labels[0]) + LabelWords(labels[1..])
  }

  /** A record built from its parts: header, shape, labels, payload words. */
  function Record(tag: Word, shape: seq<Word>, labels: seq<seq<int>>, payload: seq<Word>): seq<Word>
    requires |shape| <= 2
  {
    [MAGIC, VERSION, tag, |shape|] + shape + LabelWords(labels) + payload
  }

  /** The value a well-formed record with these parts stands for. */
  function Selected(t: ElemType, shape: seq<nat>, labels: seq<seq<int>>, elems: seq<nat>, raw: bool, tall: bool): Decoded
    requires |labels| == |shape| && 1 <= |shape| <= 2
  {
    if raw && tall then FlatArray(t, elems)
    else if raw then ShapedArray(t, shape, elems)
    else if |shape| == 1 then LabelledSeries(t, labels[0], elems)
    else if tall then StackedSeries(t, StackKeys(labels[0], labels[1]), elems)
    else LabelledFrame(t, labels[0], labels[1], elems)
  }

  /** Every word of a segment is read back at its offset. */
  lemma ReadSegment(s: seq<Word>, pre: seq<Word>, mid: seq<Word>, post: seq<Word>)
    requires s == pre + mid + post
    ensures ReadWords(s, |pre|, |mid|) == mid
  {
    assert s[|pre| .. |pre| + |mid|] == mid;
  }

  lemma LabelWordsPair(l0: seq<int>, l1: seq<int>)
    ensures LabelWords([l0]) == Int32Words(l0)
    ensures LabelWords([l0, l1]) == Int32Words(l0) + Int32Words(l1)
  {
    assert [l0][1..] == [];
    assert [l0, l1][1..] == [l1];
    assert [l1][1..] == [];
  }

  /** The label words of one or two axes, in axis order, and their count. */
  lemma LabelWordsSplit(shape: seq<Word>, labels: seq<seq<int>>)
    requires 1 <= |shape| <= 2 && |labels| == |shape|
    requires forall a :: 0 <= a < |shape| ==> |labels[a]| == shape[a]
    ensures |shape| == 1 ==> LabelWords(labels) == Int32Words(labels[0])
    ensures |shape| == 2 ==> LabelWords(labels) == Int32Words(labels[0]) + Int32Words(labels[1])
    ensures |LabelWords(labels)| == Sum(shape)
    ensures Sum(shape[..0]) == 0 && Sum(shape[..1]) == shape[0]
  {
    assert shape[..1][..0] == [];
    if |shape| == 1 {
      LabelWordsPair(labels[0], []);
      assert labels == [labels[0]];
      assert shape[..1] == shape;
    } else {
      LabelWordsPair(labels[0], labels[1]);
      assert labels == [labels[0], labels[1]];
      assert shape[..2] == shape && shape[..2][..1] == shape[..1];
    }
  }

  /** A record's shape words follow its header. */
  lemma RecordShape(tag: Word, shape: seq<Word>, labels: seq<seq<int>>, payload: seq<Word>, trailer: seq<Word>)
    requires |shape| <= 2
    ensures ReadWords(Record(tag, shape, labels, payload) + trailer, 4, |shape|) == shape
  {
    var head: seq<Word> := [MAGIC, VERSION, tag, |shape|];
    var s := Record(tag, shape, labels, payload) + trailer;
    assert s == head + shape + (LabelWords(labels) + payload + trailer);
    ReadSegment(s, head, shape, LabelWords(labels) + payload + trailer);
  }

  /** Labels written as int32 words amid other words read back at their offset. */
  lemma ReadLabels(s: seq<Word>, pre: seq<Word>, labels: seq<int>, post: seq<Word>)
    requires s == pre + Int32Words(labels) + post
    requires forall i :: 0 <= i < |labels| ==> InInt32(labels[i])
    ensures Int32Labels(ReadWords(s, |pre|, |labels|)) == labels
  {
    ReadSegment(s, pre, Int32Words(labels), post);
    Int32LabelsRoundTrip(labels);
  }

  /** The labels of axis `a` of a record read back as written. */
  lemma RecordAxis(tag: Word, shape: seq<Word>, labels: seq<seq<int>>, payload: seq<Word>, trailer: seq<Word>, a: nat)
    requires 1 <= |shape| <= 2 && |labels| == |shape| && a < |shape|
    requires forall b :: 0 <= b < |shape| ==> |labels[b]| == shape[b]
    requires forall i :: 0 <= i < |labels[a]| ==> InInt32(labels[a][i])
    ensures AxisLabels(Record(tag, shape, labels, payload) + trailer, shape, a) == labels[a]
  {
    var head: seq<Word> := [MAGIC, VERSION, tag, |shape|];
    var s := Record(tag, shape, labels, payload) + trailer;
    LabelWordsSplit(shape, labels);
    var l0 := Int32Words(labels[0]);
    if |shape| == 1 {
      assert s == (head + shape) + l0 + (payload + trailer);
      ReadLabels(s, head + shape, labels[0], payload + trailer);
    } else if a == 0 {
      var l1 := Int32Words(labels[1]);
      assert s == (head + shape) + l0 + (l1 + payload + trailer);
      ReadLabels(s, head + shape, labels[0], l1 + payload + trailer);
    } else {
      var l1 := Int32Words(labels[1]);
      assert s == (head + shape + l0) + l1 + (payload + trailer);
      assert LabelStart(shape, 1) == |head + shape + l0|;
      ReadLabels(s, head + shape + l0, labels[1], payload + trailer);
    }
  }

  /** A record's payload follows the labels of every axis. */
  lemma RecordPayload(tag: Word, shape: seq<Word>, labels: seq<seq<int>>, payload: seq<Word>, trailer: seq<Word>)
    requires 1 <= |shape| <= 2 && |labels| == |shape|
    requires forall a :: 0 <= a < |shape| ==> |labels[a]| == shape[a]
    ensures ReadWords(Record(tag, shape, labels, payload) + trailer, PayloadStart(shape), |payload|) == payload
  {
    var head: seq<Word> := [MAGIC, VERSION, tag, |shape|];
    var s := Record(tag, shape, labels, payload) + trailer;
    LabelWordsSplit(shape, labels);
    assert shape[..|shape|] == shape;
    assert s == (head + shape + LabelWords(labels)) + payload + trailer;
    ReadSegment(s, head + shape + LabelWords(labels), payload, trailer);
  }

  /** The header, shape and payload of a record as the decoder sees them. */
  lemma RecordFields(tag: Word, shape: seq<Word>, labels: seq<seq<int>>, payload: seq<Word>, trailer: seq<Word>)
    requires 0 < tag <= 4 && 1 <= |shape| <= 2 && |labels| == |shape|
    requires forall a :: 0 <= a < |shape| ==> |labels[a]| == shape[a]
    requires |payload| == Product(shape) * WidthOf(ElemTypeOf(tag))
    ensures var s := Record(tag, shape, labels, payload) + trailer;
      |s| >= 4 && s[0] == MAGIC && s[1] == VERSION && s[2] == tag && s[3] == |shape| &&
      ReadWords(s, 4, s[3]) == shape
    ensures var s := Record(tag, shape, labels, payload) + trailer;
      var w := WidthOf(ElemTypeOf(tag));
      ReadElems(s, PayloadStart(shape), Product(shape), w) == Combine(payload, w) &&
      |Combine(payload, w)| == Product(shape)
  {
    var w := WidthOf(ElemTypeOf(tag));
    RecordShape(tag, shape, labels, payload, trailer);
    RecordPayload(tag, shape, labels, payload, trailer);
    assert |Combine(payload, w)| == Product(shape) by {
      if w == 2 {
        assert |payload| == Product(shape) * 2;
      }
    }
  }

  /** The decoder reads exactly what a record holds: `ndim` shape words, the
      labels of each axis in axis order, then `prod(shape)` elements, and
      nothing that follows the record. */
  lemma RecordDecode(tag: Word, shape: seq<Word>, labels: seq<seq<int>>, payload: seq<Word>,
                     trailer: seq<Word>, raw: bool, tall: bool)
    requires 0 < tag <= 4 && 1 <= |shape| <= 2 && |labels| == |shape|
    requires forall a :: 0 <= a < |shape| ==> |labels[a]| == shape[a]
    requires forall a, i :: 0 <= a < |labels| && 0 <= i < |labels[a]| ==> InInt32(labels[a][i])
    requires |payload| == Product(shape) * WidthOf(ElemTypeOf(tag))
    ensures DecodeMdf(Record(tag, shape, labels, payload) + trailer, raw, tall) ==
      Ok(Selected(ElemTypeOf(tag), shape, labels, Combine(payload, WidthOf(ElemTypeOf(tag))), raw, tall))
  {
    RecordFields(tag, shape, labels, payload, trailer);
    if !raw {
      RecordAxis(tag, shape, labels, payload, trailer, 0);
      if |shape| == 2 {
        RecordAxis(tag, shape, labels, payload, trailer, 1);
      }
    }
  }

  /** The record `_to_mdf` writes for a square float32 matrix whose rows and
      columns both carry `labels`. */
  function MdfImage(labels: seq<int>, g: Grid): seq<Word>
    requires g.IsSquare()
  {
    Record(FLOAT32_TAG, [Bits32(g.rows), Bits32(g.cols)], [labels, labels], g.cells)
  }

  /** The words of the record in order: header, shape, row labels, column
      labels, then the cells row-major. */
  lemma MdfImageLayout(labels: seq<int>, g: Grid)
    requires g.IsSquare() && |labels| == g.rows
    ensures MdfImage(labels, g) ==
      [MAGIC, VERSION, FLOAT32_TAG, 2, Bits32(g.rows), Bits32(g.rows)] +
      Int32Words(labels) + Int32Words(labels) + g.cells
    ensures |MdfImage(labels, g)| == 6 + 2 * g.rows + g.rows * g.rows
  {
    LabelWordsPair(labels, labels);
  }

  /** Reading back what `_to_mdf` writes gives the labels and the values
      written; flat or stacked reads see the same cells row-major. */
  lemma MdfRoundTrip(labels: seq<int>, g: Grid, raw: bool, tall: bool)
    requires g.IsSquare() && |labels| == g.rows && g.rows < WORD_MODULUS
    requires forall i :: 0 <= i < |labels| ==> InInt32(labels[i])
    ensures DecodeMdf(MdfImage(labels, g), raw, tall) ==
      Ok(Selected(Float32, [g.rows, g.rows], [labels, labels], g.cells, raw, tall))
    ensures !raw && !tall ==> DecodeMdf(MdfImage(labels, g), raw, tall) == Ok(LabelledFrame(Float32, labels, labels, g.cells))
  {
    var shape := [Bits32(g.rows), Bits32(g.cols)];
    assert Product(shape) == g.rows * g.rows by {
      assert shape[..1][..0] == [];
      assert Product(shape[..1]) == g.rows;
    }
    assert MdfImage(labels, g) + [] == MdfImage(labels, g);
    RecordDecode(FLOAT32_TAG, shape, [labels, labels], g.cells, [], raw, tall);
    CombineSingle(g.cells);
  }

  /** The record `_to_mdf` writes for an input, with the labels its matrix
      carries on both axes, or the reason the input is refused. */
  function MdfFile(m: MatrixInput): (r: Result<seq<Word>>)
    requires m.WellFormed()
    ensures r.Ok? <==> CoerceMatrix(m, false).Ok?
    ensures r.Err? ==> r.error == CoerceMatrix(m, false).error
    ensures r.Ok? ==> Axis(m).Ok? && r.value == MdfImage(Axis(m).value, CoerceMatrix(m, false).value)
    ensures r.Ok? ==> |r.value| == 6 + 2 * CoerceMatrix(m, false).value.rows + CoerceMatrix(m, false).value.rows * CoerceMatrix(m, false).value.rows
  {
    var data := CoerceMatrix(m, false);
    if data.Err? then Err(data.error)
    else
      var labels := Axis(m).value;
      MdfImageLayout(labels, data.value);
      Ok(MdfImage(labels, data.value))
  }

  /** The record `_to_mdf` writes for an input whose labels fit in int32
      reads back as a frame labelled by them on both axes, holding the
      coerced matrix's cells. */
  lemma MdfFileRoundTrip(m: MatrixInput)
    requires m.WellFormed() && MdfFile(m).Ok?
    requires CoerceMatrix(m, false).value.rows < WORD_MODULUS
    requires forall i :: 0 <= i < |Axis(m).value| ==> InInt32(Axis(m).value[i])
    ensures DecodeMdf(MdfFile(m).value, false, false) ==
      Ok(LabelledFrame(Float32, Axis(m).value, Axis(m).value, CoerceMatrix(m, false).value.cells))
  {
    MdfRoundTrip(Axis(m).value, CoerceMatrix(m, false).value, false, false);
  }

  /** `_to_mdf` as written: the matrix is coerced, the header and shape are
      written, then the labels are taken from the input's own `index` and
      `columns`, which only a table has. Returns the words written and the
      outcome. */
  function ToMdfAsWritten(m: MatrixInput): (r: (seq<Word>, Result<()>))
    requires m.WellFormed()
    ensures CoerceMatrix(m, false).Err? ==> r == ([], Err(CoerceMatrix(m, false).error))
    ensures m.Table? ==> r.1.Ok? == MdfFile(m).Ok? && (r.1.Ok? ==> r.0 == MdfFile(m).value)
    ensures m.Series? && CoerceMatrix(m, false).Ok? ==> r.1 == Err(NotATable) && |r.0| == 6
    ensures m.Series? && CoerceMatrix(m, false).Ok? ==> r.0 == MdfFile(m).value[..6]
  {
    var data := CoerceMatrix(m, false);
    if data.Err? then ([], Err(data.error))
    else
      var g := data.value;
      var head := [MAGIC, VERSION, FLOAT32_TAG, 2, Bits32(g.rows), Bits32(g.cols)];
      match m
      case Table(index, columns, _) =>
        MdfImageLayout(index, g);
        (head + Int32Words(index) + Int32Words(columns) + g.cells, Ok(()))
      case Series(_, _, _) => (head, Err(NotATable))
  }

  /** The series {(1, 2): v} has the labels [1, 2] on both axes. */
  lemma OnePairSeries(v: Word)
    ensures Series(2, [[1, 2]], [v]).WellFormed()
    ensures Axis(Series(2, [[1, 2]], [v])) == Ok([1, 2])
  {
    var keys := [[1, 2]];
    assert !HasDuplicateKeys(keys);
    assert Level(keys, 0) + Level(keys, 1) == [1, 2];
    assert [1, 2][..1] == [1] && [1][..0] == [];
    assert SortedDistinct([1]) == [1];
  }

  /** A two-level series: `to_mdf` as written writes only the header and
      shape and then fails, though the series has a square matrix and
      labels whose record reads back intact. */
  lemma SeriesWriteFails()
    ensures var m := Series(2, [[1, 2]], [5]);
      m.WellFormed() && CoerceMatrix(m, false).Ok? &&
      ToMdfAsWritten(m).1 == Err(NotATable) && |ToMdfAsWritten(m).0| == 6 &&
      MdfFile(m).Ok? &&
      DecodeMdf(MdfFile(m).value, false, false) == Ok(LabelledFrame(Float32, [1, 2], [1, 2], CoerceMatrix(m, false).value.cells))
  {
    var m := Series(2, [[1, 2]], [5]);
    OnePairSeries(5);
    MdfRoundTrip([1, 2], CoerceMatrix(m, false).value, false, false);
  }

  lemma Appended(before: seq<Word>, written: seq<Word>, more: seq<Word>)
    ensures before + written + more == before + (written + more)
  {
  }

  /** Writes the record of a labelled square matrix part by part: header,
      shape, row labels, column labels, cells. */
  method WriteRecord(sink: Sink, labels: seq<int>, g: Grid)
    requires g.IsSquare() && |labels| == g.rows
    modifies sink
    ensures sink.contents == old(sink.contents) + MdfImage(labels, g)
  {
    ghost var before := sink.contents;
    var header: seq<Word> := [MAGIC, VERSION, FLOAT32_TAG, 2];
    var shape: seq<Word> := [Bits32(g.rows), Bits32(g.cols)];
    var labelWords := Int32Words(labels);
    sink.Append(header);
    sink.Append(shape);
    Appended(before, header, shape);
    sink.Append(labelWords);
    Appended(before, header + shape, labelWords);
    sink.Append(labelWords);
    Appended(before, header + shape + labelWords, labelWords);
    sink.Append(g.cells);
    Appended(before, header + shape + labelWords + labelWords, g.cells);
    MdfImageLayout(labels, g);
  }

  /** `_to_mdf` with the labels taken from the coerced matrix: a refused
      input writes nothing, any other writes its whole record. */
  method ToMdf(m: MatrixInput, sink: Sink) returns (outcome: Result<()>)
    requires m.WellFormed()
    modifies sink
    ensures MdfFile(m).Err? ==> outcome == Err(MdfFile(m).error) && sink.contents == old(sink.contents)
    ensures MdfFile(m).Ok? ==> outcome == Ok(())
    ensures MdfFile(m).Ok? ==> sink.contents == old(sink.contents) + MdfImage(Axis(m).value, CoerceMatrix(m, false).value)
  {
    var data := CoerceMatrix(m, false);
    if data.Err? {
      return Err(data.error);
    }
    var labels := Axis(m).value;
    WriteRecord(sink, labels, data.value);
    return Ok(());
  }

  /** With `raw` and `tall`, a payload cut short is returned as read: that
      path comes before the reshape that would notice it. */
  lemma RawTallShortPayload()
    ensures DecodeMdf([MAGIC, VERSION, FLOAT32_TAG, 1, 3, 0, 0, 0, 7], true, true) == Ok(FlatArray(Float32, [7]))
    ensures DecodeMdf([MAGIC, VERSION, FLOAT32_TAG, 1, 3, 0, 0, 0, 7], true, false) == Err(ReshapeError)
  {
    var s: seq<Word> := [MAGIC, VERSION, FLOAT32_TAG, 1, 3, 0, 0, 0, 7];
    var shape: seq<nat> := ReadWords(s, 4, 1);
    assert shape == [3];
    assert Product(shape) == 3 by {
      assert shape[..0] == [];
    }
    assert Sum(shape) == 3 by {
      assert shape[..0] == [];
    }
    assert PayloadStart(shape) == 8;
    assert ReadWords(s, 8, 3) == [7];
    CombineSingle([7]);
  }
}
