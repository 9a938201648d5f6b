# matrix_converters in Dafny

A model of the three binary matrix codecs of `matrix_converters` and the
input normaliser they share:

- **Emme MDF** ("binary serialization"). A header `[0xC4D4F1B2, 1, dtype tag, ndim]`
  is followed by the shape, one int32 label array per axis, and the payload.
  The reader validates the header and walks the stream with a cursor. Depending
  on `raw` and `tall` it returns a flat array, a shaped array, a labelled series
  or frame, or a stacked series. The writer emits a rank-2 float32 record.
- **Emme EMX**. A headerless square block of float32 words. The reader infers
  the side n from the word count. It can keep the leading k×k block, attach
  zone labels, or flatten row-major. The writer truncates or zero-pads the
  matrix to exactly `max_zones × max_zones`.
- **FORTRAN binary matrix**. n rows of n+1 words. Each row is led by the bit
  pattern of its 1-based ordinal as an int32, stored where a float32 is
  expected. The reader infers n by inverting w = n(n+1) and drops that column.
- **`coerce_matrix`**. It accepts a labelled table whose row and column labels
  are equal, a two-level series, or a raw square 2-D array (only when
  `allow_raw`). It returns a square matrix.

Matrix values are never computed with. Each value is a 32-bit word: its
float32 bit pattern (`Words.Word`). A stream is a sequence of words. A matrix
is a `Layout.Grid`: a row count, a column count, and the cells in row-major
order.

Files:

- `words.dfy`: words, int32 casts and their inverse.
- `outcomes.dfy`: `Option`, `Result`, and the error each source condition raises.
- `layout.dfy`: row-major arithmetic, windows, `Grid`, and the integer square root.
- `common.dfy`: `coerce_matrix`.
- `sink.dfy`: the output a writer appends to.
- `fortran.dfy`, `emx.dfy`, `mdf.dfy`: the three codecs.

The reading functions are specification functions. Where the source works
step by step, the model is imperative:

- the MDF reader's cursor and label loop (`EmmeMdf.FromMdf`);
- the MDF writer's sequence of writes (`EmmeMdf.WriteRecord`);
- the buffers that `_to_emx` and `_to_binary_matrix` fill in place
  (`EmmeEmx.CopyBlock`, `Fortran.FillDataColumns`, `Fortran.FillIndexColumn`).

Each method is proved equal to its specification function, and the round trips
and layout properties are proved about those functions.

A writer's target is a `Sinks.Sink` object holding the words written so far.
Opening a target by path empties it (`Truncate`). A flag `byPath` says whether
the caller passed a path or an open handle. `to_emx` opens a path *before* it
coerces the input. `to_binary_matrix` coerces first. So an input refused by
`to_emx` still leaves an emptied file behind, while one refused by
`to_binary_matrix` leaves the target untouched.

`coerce_matrix` as written has no `force_square` option. It always demands,
and returns, a square matrix. The model follows the code.

## Model

| member | source | states |
|---|---|---|
| Words.Int32LabelsRoundTrip | matrix_converters/emme.py:84-85 | labels that fit in int32, written as int32 words and read back as int32, are unchanged |
| Layout.ISqrt | matrix_converters/emme.py:138 | the exact integer square root r, with r*r <= x < (r+1)*(r+1); it stands for `int(len(data)**0.5)` |
| Layout.ISqrtUnique | matrix_converters/emme.py:138-139 | the integer square root is the only r with r*r <= x < (r+1)*(r+1) |
| Common.InsertSorted | matrix_converters/common.py:22 | inserting a label into an increasing label list keeps it increasing and adds exactly that label |
| Common.SortedDistinct | matrix_converters/common.py:22 | the index union is increasing and holds exactly the labels given |
| Common.UnionLabels | matrix_converters/common.py:20-22 | the union of the two levels' labels holds exactly the labels that occur in some key |
| Common.CoerceSeries | matrix_converters/common.py:18-24 | a series fails unless it has exactly 2 levels and no repeated key; otherwise it yields increasing union labels and a square matrix with one row and one column per label |
| Common.SeriesCell | matrix_converters/common.py:20-23 | a cell whose (row, column) pair is stored holds its value; a missing pair inside both original levels holds NaN; a row or column brought in only by the union holds 0.0 |
| Common.CoerceMatrix | matrix_converters/common.py:15-34 | a table succeeds iff its row labels equal its column labels, and keeps its values and shape; a series succeeds iff it has 2 levels and no repeated key; a raw array fails when `allow_raw` is false, and otherwise succeeds iff it is 2-D and square, keeping its shape and values; every result is square |
| Common.AllowRawOnlyGatesRaw | matrix_converters/common.py:26-27 | labelled inputs are coerced the same whether or not `allow_raw` is set |
| Common.Axis | matrix_converters/common.py:15-24 | a labelled input's axis labels exist exactly when it coerces, and there is one per row of the coerced matrix; they are a table's own `index`, or a series' sorted union of level labels |
| Fortran.PronicMonotone | matrix_converters/fortran.py:35 | n(n+1) grows with n |
| Fortran.HalfRootBounds | matrix_converters/fortran.py:36 | given s = isqrt(1+4w), the value floor((1+s)/2) - 1 is the n with n(n+1) <= w < (n+1)(n+2) |
| Fortran.InferZones | matrix_converters/fortran.py:34-36 | `_infer_zones(w)` is the largest n with n(n+1) <= w |
| Fortran.InferZonesInverse | matrix_converters/fortran.py:34-36 | `_infer_zones(n*(n+1)) == n` for every n >= 0 |
| Fortran.FromBinaryMatrix | matrix_converters/fortran.py:24-31 | decoding succeeds iff the word count is n(n+1) for the inferred n (otherwise the reshape fails), and yields an n×n matrix |
| Fortran.FromBinaryMatrixAccepts | matrix_converters/fortran.py:26-29 | a file decodes exactly when its word count is n(n+1) for some n |
| Fortran.FromBinaryMatrixAt | matrix_converters/fortran.py:29-31 | entry (i, j) of the decoded matrix is word i*(n+1) + j + 1 |
| Fortran.IndexColumnIgnored | matrix_converters/fortran.py:31 | two files that differ only at the index positions i*(n+1) decode alike |
| Fortran.BinaryImageAt | matrix_converters/fortran.py:60-67 | word r*(n+1) of the written file is the int32 bit pattern of r+1, and word r*(n+1)+1+c is entry (r, c) |
| Fortran.BinaryRoundTrip | matrix_converters/fortran.py:58-69 | reading back what `_to_binary_matrix` writes gives the matrix unchanged, for every square matrix |
| Fortran.FillDataColumns | matrix_converters/fortran.py:61-62 | after `temp[:, 1:] = array` the data positions hold the file's words and the index positions are still zero |
| Fortran.FillIndexColumn | matrix_converters/fortran.py:64-67 | after `temp[:, 0] = index_as_float` the buffer is the whole file |
| Fortran.BinaryMatrixWords | matrix_converters/fortran.py:58-69 | the zeroed n×(n+1) buffer, filled in place, is exactly the file of the matrix |
| Fortran.ToBinaryMatrix | matrix_converters/fortran.py:49-55 | the input is coerced before the target is opened: a refused input leaves the target unchanged; an accepted one leaves it holding the file (after what a handle already held) |
| EmmeEmx.SliceEnd | matrix_converters/emme.py:147 | where `[:k]` ends on an axis of length n: min(k, n) for k >= 0, counted from the end for negative k |
| EmmeEmx.DecodeEmx | matrix_converters/emme.py:135-162 | `_from_emx` succeeds only when the word count is a perfect square n*n |
| EmmeEmx.FromEmxAsWritten | matrix_converters/emme.py:146-152 | the code as written differs from the corrected reader only by refusing some tall integer-zone reads |
| EmmeEmx.FromEmxSquare | matrix_converters/emme.py:136-154 | with no zones, a square file comes back flat when `tall`, and as the n×n matrix otherwise |
| EmmeEmx.FromEmxNotSquare | matrix_converters/emme.py:138-139 | a word count that is not a perfect square is refused whatever is asked |
| EmmeEmx.FromEmxZoneCount | matrix_converters/emme.py:146-152 | an integer zone count 0 <= k <= n keeps the leading k×k block (entry (i, j) is word i*n + j); with `tall` it is flattened row-major to k*k words |
| EmmeEmx.FromEmxZoneLabels | matrix_converters/emme.py:156-162 | m <= n zone labels keep the leading m×m block, labelled by them on both axes, or stacked in (row, column) order when `tall`; more labels than n cannot label the data, whether `tall` or not |
| EmmeEmx.LeadingBlockAt | matrix_converters/emme.py:147 | entry (i, j) of the leading block is word i*n + j |
| EmmeEmx.AsWrittenFlattenRefused | matrix_converters/emme.py:149-151 | as written, a tall read of k zones with 1 < k < n fails, while the corrected reader succeeds |
| EmmeEmx.AsWrittenFlattenExample | matrix_converters/emme.py:149-151 | a 3×3 file read with `zones=2, tall=True` fails as written and gives 4 words when corrected |
| EmmeEmx.EmxImageAt | matrix_converters/emme.py:187-192 | cell (i, j) of the written block is the matrix's cell when i and j are both below min(n, max_zones), and 0 otherwise |
| EmmeEmx.EmxImageBlock | matrix_converters/emme.py:187-192 | the leading min(n, max_zones) block of the written file is the matrix's leading block of that size |
| EmmeEmx.EmxRoundTrip | matrix_converters/emme.py:185-194 | reading back a written file with min(n, max_zones) zones gives the matrix's leading block of that size |
| EmmeEmx.EmxPaddedRoundTrip | matrix_converters/emme.py:190-192 | when n <= max_zones, reading back n zones gives the whole matrix |
| EmmeEmx.CopyBlock | matrix_converters/emme.py:192 | `out[:m, :m] = data[:m, :m]` copies the block and leaves every other cell as it was |
| EmmeEmx.EmxWords | matrix_converters/emme.py:186-193 | the truncated copy or the zero-padded buffer, filled in place, is exactly max_zones² words of the written file |
| EmmeEmx.ToEmx | matrix_converters/emme.py:176-182 | a non-positive zone count is refused before anything else. Otherwise the target is opened (and a path emptied) before the input is coerced. A refused input leaves a path empty and a handle unchanged. An accepted one leaves the file after what was there |
| EmmeMdf.ReadWords | matrix_converters/emme.py:34-43 | a read of `count` words at a position yields the words there, and stops at the end of the stream |
| EmmeMdf.DecodeMdf | matrix_converters/emme.py:27-56 | fewer than four words or a header failing any of magic == 0xC4D4F1B2, version == 1, 0 < tag <= 4, 0 < ndim <= 2 is refused with those four fields. `raw` and `tall` succeed iff the header is good. Other results hold prod(shape) elements and take the shape `raw`, `tall` and ndim select |
| EmmeMdf.FromMdf | matrix_converters/emme.py:27-58 | the cursor-driven reader (header, shape, each axis' labels in turn, payload) returns exactly `DecodeMdf` |
| EmmeMdf.RecordFields | matrix_converters/emme.py:28-43 | in a record, the decoder sees the header fields, then `ndim` shape words, then the payload at the offset after all labels |
| EmmeMdf.RecordAxis | matrix_converters/emme.py:36-39 | the labels of axis a are read at the offset after the shape and the labels of earlier axes, and come back as written |
| EmmeMdf.RecordDecode | matrix_converters/emme.py:34-56 | a record of any dtype with 1 or 2 axes, followed by any words, decodes to its own parts. `raw` and `tall` give the flat payload. `raw` gives it shaped. Otherwise the labels are index_list[0] for rows and index_list[1] for columns, and `tall` stacks in (row, column) order |
| EmmeMdf.MdfImageLayout | matrix_converters/emme.py:81-87 | the record written for an n×n matrix is header [0xC4D4F1B2, 1, 1, 2], then [n, n], row labels, column labels, and the n² cells row-major; it is 6 + 2n + n² words long |
| EmmeMdf.MdfRoundTrip | matrix_converters/emme.py:78-87 | reading back the written record gives the labels and cells unchanged (labels within int32, n < 2^32) |
| EmmeMdf.MdfFile | matrix_converters/emme.py:78-87 | the record exists exactly when the input coerces without `allow_raw`, fails with the same error otherwise, is the record of the coerced matrix labelled on both axes by the input's labels, and has 6 + 2n + n² words |
| EmmeMdf.MdfFileRoundTrip | matrix_converters/emme.py:78-87 | the record written for an input reads back as a frame carrying the input's labels on both axes and the coerced matrix's cells (labels within int32, n < 2^32) |
| EmmeMdf.ToMdfAsWritten | matrix_converters/emme.py:78-87 | as written, a refused input writes nothing. A table writes its whole record. A series that coerces writes only the 6 header and shape words, the first 6 words of its corrected record, then fails |
| EmmeMdf.SeriesWriteFails | matrix_converters/emme.py:84-85 | the series {(1, 2): 5} coerces, yet as written only 6 words are written before the failure; its corrected record reads back with labels [1, 2] |
| EmmeMdf.WriteRecord | matrix_converters/emme.py:81-87 | the five successive writes append exactly the record |
| EmmeMdf.ToMdf | matrix_converters/emme.py:78-87 | a refused input writes nothing and returns its error; any other appends the record of its coerced matrix, labelled on both axes by the input's labels |
| EmmeMdf.RawTallShortPayload | matrix_converters/emme.py:43-49 | with `raw` and `tall`, a payload cut short is returned as read, while `raw` alone fails at the reshape |

## Left out

- Path-versus-handle dispatch and file opening are left out. A target is a `Sink`; `byPath` stands for passing a path.
- `to_mdf` opens a path in `'rb'` mode (emme.py:72), so writing through a path cannot succeed. The model covers writing to a handle only.
- `np.fromfile` and `tofile` are modelled on an abstract word stream. Byte order is the machine's own and is not modelled. A read that runs past the end yields the words that remain, which is how short files are handled.
- Floating point is left out. Values are opaque words, and the `astype(np.float32)` conversions keep them unchanged.
- MDF int32, uint32 and float64 payload elements are kept as bit patterns. A float64 element is low word + 2^32 × high word.
- pandas `stack` drops NaN cells. The model's stacked series keep every cell.
- `Layout.ISqrt` replaces the float square roots (emme.py:138, fortran.py:36). The model does not capture their rounding for counts beyond the precision of a double.
- `Common.SortedDistinct` orders the index union as sorted integer labels; pandas' handling of unsortable or mixed labels is not modelled.
- Labels are integers. Index objects of other types are not modelled.
- `EmmeEmx.EmxWords` requires max_zones > 0, which `to_emx` has already asserted.
- `EmmeMdf.MdfRoundTrip` and `EmmeMdf.MdfFileRoundTrip` assume labels within int32 and n < 2^32. Outside those ranges the int32/uint32 casts wrap and the record does not read back.
- The package's code has no array-expansion helper, no rectangular FORTRAN reader and no `force_square` option, so none is modelled.

## Findings

| source | as written | input that shows it | evidently intended | confidence | as-written member | corrected member |
|---|---|---|---|---|---|---|
| matrix_converters/emme.py:149-151 | `data.shape = zones * zones` on the view `data[:zones, :zones]`; numpy cannot change the shape of a non-contiguous view in place | a 3×3 file (9 words) read with `zones=2, tall=True` | the leading 2×2 block flattened row-major to 4 words, as the docstring promises | not executed | EmmeEmx.FromEmxAsWritten | EmmeEmx.FromEmxZoneCount |
| matrix_converters/emme.py:84-85 | after the header and shape are written, labels are read from the input's own `index` and `columns`: converting a Series' MultiIndex of pairs to int32 (line 84), or else its missing `columns` (line 85), stops the write | `to_mdf` of the two-level series {(1, 2): 5} | a record labelled with the coerced matrix's labels, since the docstring accepts a two-level Series | not executed | EmmeMdf.ToMdfAsWritten | EmmeMdf.ToMdf |
