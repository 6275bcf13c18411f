/** Packet sequence numbers: 31-bit numbers that wrap around, and the comparison
    functions the transport uses on them.

    Everything else in the project reasons about unbounded "stream positions" and
    reaches the wrapped numbers through `Wrap`; the lemmas below are what makes that
    sound for positions closer to each other than the comparison threshold. */
module SeqNo {
  const SEQ_NO_TH: int := 0x3FFF_FFFF
  const MAX_SEQ_NO: int := 0x7FFF_FFFF
  const MODULUS: int := MAX_SEQ_NO + 1
  const INT32_MIN: int := -0x8000_0000
  const INT32_MAX: int := 0x7FFF_FFFF

  type SeqNum = s: int | 0 <= s <= MAX_SEQ_NO

  /** The current number of a connection, which is -1 before one that starts with number 0. */
  type CurrNum = s: int | -1 <= s <= MAX_SEQ_NO

  function Abs(x: int): nat {
    if x < 0 then -x else x
  }

  function SeqCmp(seq1: CurrNum, seq2: CurrNum): int {
    if Abs(seq1 - seq2) < SEQ_NO_TH then seq1 - seq2 else seq2 - seq1
  }

  function SeqLen(seq1: SeqNum, seq2: SeqNum): int {
    if seq1 <= seq2 then seq2 - seq1 + 1 else seq2 - seq1 + MAX_SEQ_NO + 2
  }

  function SeqOff(seq1: SeqNum, seq2: SeqNum): int {
    if Abs(seq1 - seq2) < SEQ_NO_TH then seq2 - seq1
    else if seq1 < seq2 then seq2 - seq1 - MAX_SEQ_NO - 1
    else seq2 - seq1 + MAX_SEQ_NO + 1
  }

  function IncSeq(s: CurrNum): SeqNum {
    if s == MAX_SEQ_NO then 0 else s + 1
  }

  function DecSeq(s: SeqNum): SeqNum {
    if s == 0 then MAX_SEQ_NO else s - 1
  }

  function IncSeqBy(s: SeqNum, inc: nat): SeqNum
    requires inc <= MAX_SEQ_NO
  {
    if MAX_SEQ_NO - s >= inc then s + inc else s - MAX_SEQ_NO + inc - 1
  }

  /** The wrapped number of the unbounded stream position `x`. */
  function Wrap(x: int): SeqNum {
    x % MODULUS
  }

  /** The current number at position `x`, which is computed as the initial number minus one. */
  function Curr(x: int): CurrNum
    requires x >= -1
  {
    if x < 0 then x else Wrap(x)
  }

  /** Two positions less than one full circle apart wrap to numbers whose difference
      is their own, up to one circle. */
  lemma WrapDiff(x: int, y: int)
    requires 0 <= y - x < MODULUS
    ensures Wrap(y) - Wrap(x) == y - x || Wrap(y) - Wrap(x) == y - x - MODULUS
  {
    assert x == MODULUS * (x / MODULUS) + Wrap(x);
    assert y == MODULUS * (y / MODULUS) + Wrap(y);
  }

  /** Inside the threshold `SeqOff` recovers the exact distance of two positions. */
  lemma SeqOffIsDistance(x: int, y: int)
    requires -SEQ_NO_TH < y - x < SEQ_NO_TH
    ensures SeqOff(Wrap(x), Wrap(y)) == y - x
  {
    if x <= y { WrapDiff(x, y); } else { WrapDiff(y, x); }
  }

  /** Inside the threshold `SeqCmp` has the sign of the distance, across the wrap too. */
  lemma SeqCmpIsOrder(x: int, y: int)
    requires -SEQ_NO_TH < y - x < SEQ_NO_TH
    ensures SeqCmp(Wrap(x), Wrap(y)) < 0 <==> x < y
    ensures SeqCmp(Wrap(x), Wrap(y)) == 0 <==> x == y
    ensures SeqCmp(Wrap(x), Wrap(y)) > 0 <==> x > y
    ensures Wrap(x) == Wrap(y) <==> x == y
  {
    if x <= y { WrapDiff(x, y); } else { WrapDiff(y, x); }
  }

  /** The window on which `SeqCmp` may be trusted cannot be widened: at the threshold the
      sign already flips when no wrap lies between the two positions. */
  lemma SeqCmpAtThreshold(x: int, y: int)
    requires SEQ_NO_TH <= y - x <= MODULUS - SEQ_NO_TH
    ensures SeqCmp(Wrap(x), Wrap(y)) < 0 <==> Wrap(y) < Wrap(x)
  {
    WrapDiff(x, y);
  }

  /** Less than one circle apart, the later number is taken for the later one exactly inside
      the threshold, and up to two steps beyond it when a wrap lies in between. */
  lemma SeqCmpExactly(x: int, y: int)
    requires 0 < x - y < MODULUS
    ensures SeqCmp(Wrap(x), Wrap(y)) > 0 <==>
      x - y < SEQ_NO_TH || (Wrap(x) < Wrap(y) && x - y <= MODULUS - SEQ_NO_TH)
  {
    WrapDiff(y, x);
  }

  /** `SeqCmp` is not transitive on the whole circle. */
  lemma SeqCmpNotTransitive()
    ensures exists a: SeqNum, b: SeqNum, c: SeqNum ::
              SeqCmp(a, b) < 0 && SeqCmp(b, c) < 0 && SeqCmp(a, c) > 0
  {
    var a: SeqNum, b: SeqNum, c: SeqNum := 0, 0x2000_0000, 0x4000_0000;
    assert SeqCmp(a, b) < 0 && SeqCmp(b, c) < 0 && SeqCmp(a, c) > 0;
  }

  /** `SeqLen` counts the positions from `x` to `y`, both included. */
  lemma SeqLenCounts(x: int, y: int)
    requires 0 <= y - x < MODULUS
    ensures SeqLen(Wrap(x), Wrap(y)) == y - x + 1
  {
    WrapDiff(x, y);
  }

  lemma SeqLenIsOffPlusOne(x: int, y: int)
    requires 0 <= y - x < SEQ_NO_TH
    ensures SeqLen(Wrap(x), Wrap(y)) == SeqOff(Wrap(x), Wrap(y)) + 1
  {
    SeqLenCounts(x, y);
    SeqOffIsDistance(x, y);
  }

  lemma IncWraps(x: int)
    ensures IncSeq(Wrap(x)) == Wrap(x + 1)
    ensures DecSeq(Wrap(x + 1)) == Wrap(x)
  {
    WrapDiff(x, x + 1);
  }

  /** The number -1 before number 0 acts like the number before 0 where the code uses it; only
      against the greatest number does the difference leave 32 bits. */
  lemma CurrActs(x: int, y: int)
    requires x >= -1
    ensures IncSeq(Curr(x)) == Wrap(x + 1)
    ensures -SEQ_NO_TH < y - x < SEQ_NO_TH ==> (SeqCmp(Wrap(y), Curr(x)) > 0 <==> y > x)
    ensures Wrap(y) - Curr(x) > INT32_MAX <==> x == -1 && Wrap(y) == MAX_SEQ_NO
  {
    IncWraps(x);
    if -SEQ_NO_TH < y - x < SEQ_NO_TH {
      SeqCmpIsOrder(y, x);
    }
  }

  /** Incrementing by any amount is addition modulo 2 to the 31. */
  lemma IncByWraps(x: int, inc: nat)
    requires inc <= MAX_SEQ_NO
    ensures IncSeqBy(Wrap(x), inc) == Wrap(x + inc)
  {
    WrapDiff(x, x + inc);
  }

  lemma DecInvertsInc(s: SeqNum)
    ensures DecSeq(IncSeq(s)) == s && IncSeq(DecSeq(s)) == s
  {
  }

  /** Stepping `a` forward by its offset to `b` lands on `b`, whenever `b` is ahead. */
  lemma IncByOffset(a: SeqNum, b: SeqNum)
    requires SeqOff(a, b) >= 0
    ensures IncSeqBy(a, SeqOff(a, b)) == b
  {
  }

  /** No intermediate value of `SeqCmp`, `SeqOff` and the two increments leaves the 32-bit range,
      on any arguments; `SeqLen` leaves it exactly when the range covers the whole circle. */
  lemma NoInt32Overflow(a: SeqNum, b: SeqNum, inc: nat)
    requires inc <= MAX_SEQ_NO
    ensures INT32_MIN <= a - b <= INT32_MAX && INT32_MIN <= b - a <= INT32_MAX
    ensures INT32_MIN <= SeqCmp(a, b) <= INT32_MAX
    ensures a < b ==> INT32_MIN <= b - a - MAX_SEQ_NO <= INT32_MAX
    ensures a > b ==> INT32_MIN <= b - a + MAX_SEQ_NO <= INT32_MAX
    ensures INT32_MIN < SeqOff(a, b) < INT32_MAX
    ensures 0 <= MAX_SEQ_NO - a <= INT32_MAX
    ensures MAX_SEQ_NO - a >= inc ==> a + inc <= INT32_MAX
    ensures MAX_SEQ_NO - a < inc ==> INT32_MIN <= a - MAX_SEQ_NO <= a - MAX_SEQ_NO + inc <= INT32_MAX
    ensures a != MAX_SEQ_NO ==> a + 1 <= INT32_MAX
    ensures SeqLen(a, b) <= INT32_MAX <==> a != IncSeq(b)
  {
  }
}
