/** 32-bit words: the unit every codec in this model reads and writes.
    Matrix values are never computed with, so a value is just the word that
    holds its bit pattern (the bits of a float32). */
module Words {

  const WORD_MODULUS: int := 0x1_0000_0000
  const INT32_MIN: int := -0x8000_0000
  const INT32_MAX: int := 0x7FFF_FFFF

  /** An unsigned 32-bit word. */
  type Word = x: int | 0 <= x < 0x1_0000_0000

  /** The word holding float32 0.0. */
  const ZERO_WORD: Word := 0
  /** The word numpy produces for a float32 NaN (quiet NaN, sign bit clear). */
  const NAN_WORD: Word := 0x7FC0_0000

  predicate InInt32(x: int) {
    INT32_MIN <= x <= INT32_MAX
  }

  /** The low 32 bits of the two's-complement pattern of `x`: what a cast of
      an integer to int32 or uint32 stores (it wraps). */
  function Bits32(x: int): (w: Word)
    ensures (w - x) % WORD_MODULUS == 0
    ensures 0 <= x < WORD_MODULUS ==> w == x
  {
    x % WORD_MODULUS
  }

  /** A word read back as a signed int32. */
  function AsInt32(w: Word): (x: int)
    ensures InInt32(x)
    ensures Bits32(x) == w
  {
    if w <= INT32_MAX then w else w - WORD_MODULUS
  }

  /** Writing an int32 label and reading it back gives the label. */
  lemma AsInt32OfBits32(x: int)
    requires InInt32(x)
    ensures AsInt32(Bits32(x)) == x
  {
    if x < 0 {
      assert Bits32(x) == x + WORD_MODULUS;
    }
  }

  /** Labels written as int32 words, one word per label. */
  function Int32Words(labels: seq<int>): (ws: seq<Word>)
    ensures |ws| == |labels|
    ensures forall i :: 0 <= i < |labels| ==> ws[i] == Bits32(labels[i])
  {
    seq(|labels|, i requires 0 <= i < |labels| => Bits32(labels[i]))
  }

  /** Words read as int32 labels. */
  function Int32Labels(ws: seq<Word>): (labels: seq<int>)
    ensures |labels| == |ws|
    ensures forall i :: 0 <= i < |ws| ==> labels[i] == AsInt32(ws[i])
  {
    seq(|ws|, i requires 0 <= i < |ws| => AsInt32(ws[i]))
  }

  /** Labels that fit in an int32 survive a write as int32 and a read back. */
  lemma {:induction false} Int32LabelsRoundTrip(labels: seq<int>)
    requires forall i :: 0 <= i < |labels| ==> InInt32(labels[i])
    ensures Int32Labels(Int32Words(labels)) == labels
  {
    var back := Int32Labels(Int32Words(labels));
    forall i | 0 <= i < |labels|
      ensures back[i] == labels[i]
    {
      AsInt32OfBits32(labels[i]);
    }
  }
}
