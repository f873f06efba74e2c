/** The decoder's error type (src/error.rs, as constructed in src/lib.rs). */
module Errors {

  /**
   * `InvalidBase32Char` carries the offending character, after the ASCII
   * uppercase fold, as src/lib.rs:141 builds it. The `ToIntError` variant of
   * src/error.rs is never produced by the modelled code and is not part of
   * this model.
   */
  datatype ParseError = InvalidBase32Char(c: char)
}
