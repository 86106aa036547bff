/** The symbols of a feedback pattern, shared by the encoder and the tracker. */
module Symbols {
  /** Right letter, right position. */
  const Green := 'g'
  /** Letter in the target, but elsewhere. */
  const Yellow := 'y'
  /** Letter not credited against the target. */
  const Grey := '-'
}
