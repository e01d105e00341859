/** The surrogates of UTF-16. */
module Surrogates {
  predicate IsHi(c: int) { 0xD800 <= c <= 0xDBFF }

  predicate IsLo(c: int) { 0xDC00 <= c <= 0xDFFF }

  function FromSurrogates(hi: int, lo: int): int {
    65536 + 1024 * (hi % 1024) + lo % 1024
  }
}
