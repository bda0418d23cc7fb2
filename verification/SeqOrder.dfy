/** The order SeqManager<T> puts on sequence numbers, and what it means for 16-bit ones. */
module SeqOrder {
  import opened Bytes

  /** SeqLowerThan of the template; `half` is std::numeric_limits<T>::max() / 2. */
  predicate LowerThan(lhs: int, rhs: int, half: int) {
    || (rhs > lhs && rhs - lhs <= half)
    || (lhs > rhs && lhs - rhs > half)
  }

  predicate HigherThan(lhs: int, rhs: int, half: int) {
    || (lhs > rhs && lhs - rhs <= half)
    || (rhs > lhs && rhs - lhs > half)
  }

  /** Any two numbers are equal or ordered one way, never both. */
  lemma {:induction false} OrderTrichotomy(a: int, b: int, half: int)
    ensures HigherThan(a, b, half) <==> LowerThan(b, a, half)
    ensures HigherThan(a, b, half) <==> a != b && !LowerThan(a, b, half)
  {
  }

  /** SeqManager<uint16_t>::IsSeqHigherThan. */
  predicate SeqHigherThan(lhs: Word, rhs: Word) {
    HigherThan(lhs, rhs, 0x7FFF)
  }

  /** How many sequence numbers FillChunk finds missing between two received ones. */
  function Gap(previous: Word, sequenceNumber: Word): Word {
    Cut16(sequenceNumber - (previous + 1))
  }

  /** "Higher" means at most half the number circle ahead; the number exactly half-way counts only when it is
      numerically lower. */
  lemma {:induction false} HigherIsHalfCircleAhead(a: Word, b: Word)
    ensures SeqHigherThan(a, b) <==>
            var d := (a - b) % 0x1_0000;
            0 < d < 0x8000 || (d == 0x8000 && a < b)
  {
  }
}
