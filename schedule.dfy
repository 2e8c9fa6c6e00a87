/**
 * The adaptive code width. The compressor keeps it in (bitCount,
 * compressionIncrement), the decompressor in (numBits,
 * decompressionIncrement); both move it with the same two moves: decrement
 * the counter, and, when the counter has reached zero, reload it with
 * 2^width and widen the code by one bit.
 */
module Schedule {
  import opened Common

  /** The width of the next code and the number of codes left before it grows. */
  datatype Width = Width(bits: nat, increment: int)

  /** The compressor's initial (bitCount, compressionIncrement). */
  const CompressorStart: Width := Width(2, 2)

  /** The decompressor's initial (numBits, decompressionIncrement). */
  const DecompressorStart: Width := Width(3, 4)

  /** `increment--` */
  function Decrement(w: Width): Width
  {
    w.(increment := w.increment - 1)
  }

  /** `if (increment === 0) { increment = Math.pow(2, bits); bits++; }` */
  function Widen(w: Width): Width
  {
    if w.increment == 0 then Width(w.bits + 1, Pow2(w.bits)) else w
  }

  /** One step of the schedule: updateCompressionBitcount. */
  function NextWidth(w: Width): (r: Width)
    ensures w.increment >= 1 ==> r.increment >= 1
    ensures w.bits <= r.bits <= w.bits + 1
    ensures r.bits == w.bits + 1 <==> w.increment == 1
  {
    Widen(Decrement(w))
  }

  /** The width after n steps. */
  function Steps(w: Width, n: nat): (r: Width)
  {
    if n == 0 then w else NextWidth(Steps(w, n - 1))
  }

  /** The width never shrinks, whatever the number of steps. */
  lemma {:induction false} StepsMonotone(w: Width, m: nat, n: nat)
    requires m <= n
    ensures Steps(w, m).bits <= Steps(w, n).bits
  {
    if m < n {
      StepsMonotone(w, m, n - 1);
    }
  }

  /**
   * After n steps from the compressor's start, the counter lies in
   * [1, 2^(bits-1)] and n + 2 + counter == 2^bits: the width is the number
   * of binary digits of n + 2.
   */
  lemma {:induction false} StepsFromStart(n: nat)
    ensures var w := Steps(CompressorStart, n);
      && w.bits >= 2
      && 1 <= w.increment <= Pow2(w.bits - 1)
      && n + 2 + w.increment == Pow2(w.bits)
      && Pow2(w.bits - 1) <= n + 2 < Pow2(w.bits)
  {
    if n > 0 {
      StepsFromStart(n - 1);
    }
  }

  /** The decompressor starts where the compressor is after its first literal (two steps). */
  lemma DecompressorStartsAfterFirstLiteral()
    ensures Steps(CompressorStart, 2) == DecompressorStart
  {
  }

  /**
   * The balance the codec keeps between a dictionary of `size` entries and
   * the width: size + counter == 2^bits with a positive counter, so every
   * code up to the size fits in the current width.
   */
  predicate Balanced(w: Width, size: int)
  {
    w.increment >= 1 && size + w.increment == Pow2(w.bits)
  }

  /** One step keeps the balance with one more entry. */
  lemma BalancedStep(w: Width, size: int)
    requires Balanced(w, size)
    ensures Balanced(NextWidth(w), size + 1)
  {
  }
}
