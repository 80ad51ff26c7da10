/**
  The printable-ASCII alphabet shared by the cipher and the pad-sheet generator:
  the 95 code points 32 (space) through 126 (tilde), in code-point order.
  Text is modelled as a sequence of code points.
 */
module Printable {

  /** First printable code point, the space character. */
  const StartPrintable: int := 32

  /** Last printable code point, the tilde. */
  const EndPrintable: int := 126

  /** Size of the alphabet, and the modulus of the cipher arithmetic. */
  const PrintableLength: int := EndPrintable - StartPrintable + 1

  predicate IsPrintable(c: int) {
    StartPrintable <= c <= EndPrintable
  }

  /** True iff every code point of `s` is printable. */
  predicate AllPrintable(s: seq<int>) {
    forall i :: 0 <= i < |s| ==> IsPrintable(s[i])
  }

  function Min(a: int, b: int): int {
    if a <= b then a else b
  }
}
