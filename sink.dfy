/** The output a writer fills: the words written so far, in order. */
module Sinks {
  import opened Words

  class Sink {
    var contents: seq<Word>

    constructor ()
      ensures contents == []
    {
      contents := [];
    }

    /** Writes words after those already written. */
    method Append(ws: seq<Word>)
      modifies this
      ensures contents == old(contents) + ws
    {
      contents := contents + ws;
    }

    /** Opening a file by path for writing empties it. */
    method Truncate()
      modifies this
      ensures contents == []
    {
      contents := [];
    }
  }
}
