/**
 * Digit arithmetic on the two-digit values a record holds.
 *
 * The analyzer reads the decimal string of a value: the "stamp" of `v` is the
 * absolute difference of its first and second digit, and the "mirror" of `v`
 * is the integer whose decimal string is that of `v` reversed (so the mirror of
 * 40 is 4, the leading zero being dropped by the integer parse).
 */
module Digits {

  /** A value the analyzer can take apart: exactly two decimal digits, no sign. */
  predicate TwoDigit(v: int) {
    10 <= v <= 99
  }

  /** The first digit of the decimal string of `v`. */
  function Tens(v: int): int
    requires TwoDigit(v)
  {
    v / 10
  }

  /** The second digit of the decimal string of `v`. */
  function Units(v: int): int
    requires TwoDigit(v)
  {
    v % 10
  }

  /** The grouping key of `v`: how far apart its two digits are. */
  function Stamp(v: int): (d: int)
    requires TwoDigit(v)
    ensures 0 <= d <= 9
    ensures d == Tens(v) - Units(v) || d == Units(v) - Tens(v)
  {
    if v / 10 >= v % 10 then v / 10 - v % 10 else v % 10 - v / 10
  }

  /** The value whose decimal string is that of `v` read backwards. */
  function Mirror(v: int): (m: int)
    requires TwoDigit(v)
    ensures 0 <= m <= 99
    ensures m / 10 == Units(v) && m % 10 == Tens(v)
  {
    (v % 10) * 10 + v / 10
  }

  /** Only a multiple of ten has a mirror that is not itself a two-digit value. */
  lemma MirrorTwoDigit(v: int)
    requires TwoDigit(v)
    ensures TwoDigit(Mirror(v)) <==> Units(v) != 0
  {
  }

  /** Reversing twice gives the value back whenever the first reversal stays two-digit. */
  lemma MirrorInvolutive(v: int)
    requires TwoDigit(v) && TwoDigit(Mirror(v))
    ensures Mirror(Mirror(v)) == v
  {
  }

  /** Being each other's mirror is a symmetric relation on two-digit values. */
  lemma MirrorSymmetric(a: int, b: int)
    requires TwoDigit(a) && TwoDigit(b)
    ensures Mirror(a) == b <==> Mirror(b) == a
  {
    if Mirror(a) == b {
      MirrorInvolutive(a);
    }
    if Mirror(b) == a {
      MirrorInvolutive(b);
    }
  }

  /** A value and its mirror always fall under the same stamp. */
  lemma MirrorKeepsStamp(v: int)
    requires TwoDigit(v) && TwoDigit(Mirror(v))
    ensures Stamp(Mirror(v)) == Stamp(v)
  {
  }

  /** A digit palindrome (11, 22, ...) is exactly a value that is its own mirror,
      and exactly a value of stamp 0. */
  lemma PalindromeIff(v: int)
    requires TwoDigit(v)
    ensures Mirror(v) == v <==> Tens(v) == Units(v)
    ensures Stamp(v) == 0 <==> Mirror(v) == v
  {
  }
}
