/** Results and the failures the codecs raise. */
module Outcomes {
  import opened Words

  datatype Option<+T> = None | Some(value: T)

  datatype Result<+T> = Ok(value: T) | Err(error: Error)

  /** Each failure names the condition in the source that raises it. */
  datatype Error =
      /** The MDF header check failed; carries the four header fields. */
    | HeaderError(magic: Word, version: Word, dtypeTag: Word, ndim: Word)
      /** Fewer than four header words could be read, so they cannot be unpacked. */
    | ShortHeader
      /** A table whose row labels are not its column labels. */
    | LabelsDiffer
      /** A series whose index does not have exactly two levels. */
    | NotTwoLevels
      /** A series with a repeated (row, column) pair, which cannot be unstacked. */
    | DuplicateEntries
      /** A raw array given where labels are required. */
    | RawNotAllowed
      /** A raw array that is not two-dimensional. */
    | NotTwoDimensional
      /** A raw array, or an EMX word count, that is not square. */
    | NotSquare
      /** A reshape, or a labelled frame, whose sizes disagree with the data. */
    | ReshapeError
      /** A flat view requested in place of a block that is not contiguous. */
    | InPlaceReshapeError
      /** A label axis asked for that the record does not hold. */
    | MissingAxis
      /** A series given where a table's row and column labels are read. */
    | NotATable
      /** A target zone count that is not positive. */
    | BadZoneCount
}
