/** Types that several parts of the model share. */
module Basics {

  type byte = x: int | 0 <= x < 256

  /** The largest value of a 32-bit signed integer. */
  const INT_MAX := 0x7FFF_FFFF

  datatype Option<T> = None | Some(value: T)

  /** How k times n compares with the first multiples of n. */
  lemma Multiple(k: int, n: int)
    requires n > 0
    ensures k >= 0 ==> k * n >= 0
    ensures k >= 1 ==> k * n >= n
    ensures k >= 3 ==> k * n >= 3 * n
    ensures k < 0 ==> k * n <= -n
  {
    if k >= 3 {
      assert (k - 3) * n >= 0;
    } else if k < 0 {
      assert (-1 - k) * n >= 0;
    }
  }
}
