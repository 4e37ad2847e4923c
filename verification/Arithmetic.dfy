/** Multiples and remainders. */
module Arithmetic {

  /** A multiple of `n` by a whole number other than 0 is at least `n` away from 0. */
  lemma MultipleIsFar(n: nat, d: int)
    ensures d >= 1 ==> d * n >= n
    ensures d <= -1 ==> d * n + n <= 0
  {
  }
}
