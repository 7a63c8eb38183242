/** UDT sequence numbers: 31-bit counters compared across the wrap-around. */
module SeqNo {

  const SEQ_TH := 0x3FFF_FFFF
  const MAX_SEQ_NO := 0x7FFF_FFFF
  const MODULUS := 0x8000_0000

  predicate IsSeqNo(s: int) {
    0 <= s <= MAX_SEQ_NO
  }

  function Abs(x: int): nat {
    if x < 0 then -x else x
  }

  /** Three-way comparison; only the sign of the result is meaningful. */
  function SeqCmp(seq1: int, seq2: int): int {
    if Abs(seq1 - seq2) < SEQ_TH then seq1 - seq2 else seq2 - seq1
  }

  /** Number of sequence numbers from seq1 up to and including seq2. */
  function SeqLen(seq1: int, seq2: int): int {
    if seq1 <= seq2 then seq2 - seq1 + 1 else seq2 - seq1 + MAX_SEQ_NO + 2
  }

  /** Signed distance from seq1 to seq2. */
  function SeqOff(seq1: int, seq2: int): int {
    if Abs(seq1 - seq2) < SEQ_TH then seq2 - seq1
    else if seq1 < seq2 then seq2 - seq1 - MAX_SEQ_NO - 1
    else seq2 - seq1 + MAX_SEQ_NO + 1
  }

  function IncSeq(s: int): int {
    if s == MAX_SEQ_NO then 0 else s + 1
  }

  function DecSeq(s: int): int {
    if s == 0 then MAX_SEQ_NO else s - 1
  }

  /** The 31-bit number that stands for the unbounded packet counter t. */
  function Wrap(t: int): (s: int)
    ensures IsSeqNo(s)
  {
    t % MODULUS
  }

  /** C's remainder, which takes the sign of the dividend. */
  function CRem(a: int, b: int): int
    requires b > 0
  {
    if a >= 0 then a % b else -((-a) % b)
  }

  /** Wrapping commutes with the increment and decrement helpers. */
  lemma WrapStep(t: int)
    ensures IncSeq(Wrap(t)) == Wrap(t + 1)
    ensures DecSeq(Wrap(t)) == Wrap(t - 1)
  {
  }

  /** Two counters less than a full circle apart wrap to the same number only if they are equal. */
  lemma WrapInjective(a: int, b: int)
    requires Abs(a - b) < MODULUS
    ensures Wrap(a) == Wrap(b) <==> a == b
  {
  }

  /** Within the comparison threshold the wrapped helpers compute on the counters themselves. */
  lemma WrapCompare(a: int, b: int)
    requires Abs(a - b) < SEQ_TH
    ensures SeqOff(Wrap(a), Wrap(b)) == b - a
    ensures SeqCmp(Wrap(a), Wrap(b)) < 0 <==> a < b
    ensures SeqCmp(Wrap(a), Wrap(b)) == 0 <==> a == b
    ensures Wrap(a) == Wrap(b) <==> a == b
  {
  }

  /** The length helper needs only that the interval is shorter than a full circle. */
  lemma WrapLength(a: int, b: int)
    requires 0 <= b - a < MODULUS
    ensures SeqLen(Wrap(a), Wrap(b)) == b - a + 1
  {
  }

  /** The threshold is sharp: for counters up to half a circle apart, SeqOff measures the true
      distance exactly when it is below the threshold or the pair straddles the wrap-around. */
  lemma SeqOffExact(a: int, b: int)
    requires Abs(a - b) <= MODULUS / 2
    ensures SeqOff(Wrap(a), Wrap(b)) == b - a
       <==> (Abs(a - b) < SEQ_TH || Wrap(b) - Wrap(a) != b - a)
  {
  }

  /** One number past the threshold the offset comes out with the wrong sign. */
  lemma SeqOffFails()
    ensures SeqOff(Wrap(0), Wrap(SEQ_TH)) == SEQ_TH - MODULUS < 0
  {
  }

  /** What the endpoints take for "a comes after b". */
  predicate Newer(a: int, b: int) {
    SeqCmp(Wrap(a), Wrap(b)) > 0
  }

  /** Exactly which counters are taken to come after b: those less than the threshold ahead on the circle, and
      a few more when the numbers wrap around in between. */
  lemma NewerExact(a: int, b: int)
    ensures var d := (a - b) % MODULUS;
      Newer(a, b) <==> 0 < d < SEQ_TH || (Wrap(a) < Wrap(b) && d <= MODULUS - SEQ_TH)
  {
    var d := (a - b) % MODULUS;
    assert Wrap(a) - Wrap(b) == (if Wrap(a) < Wrap(b) then d - MODULUS else d) by {
      Difference(a, b);
    }
  }

  lemma Difference(a: int, b: int)
    ensures Wrap(a) - Wrap(b) == if Wrap(a) < Wrap(b) then (a - b) % MODULUS - MODULUS else (a - b) % MODULUS
  {
    var qa, qb := a / MODULUS, b / MODULUS;
    assert a - b == (qa - qb) * MODULUS + (Wrap(a) - Wrap(b));
  }

  lemma NewerNear(a: int, b: int)
    ensures -SEQ_TH < a - b < SEQ_TH ==> (Newer(a, b) <==> a > b)
    ensures 0 <= a - b < MODULUS && Newer(a, b) ==> a - b <= MODULUS - SEQ_TH
    ensures 0 <= a - b < MODULUS ==> (Wrap(a) == Wrap(b) <==> a == b)
  {
    NewerExact(a, b);
  }
}
