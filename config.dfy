/** Compile-time configuration of the Juniper Green player (main.cpp, lines 14-19). */
module Config {
  /** Depth of the look-ahead of the computer player; `minimax` records the root move at this depth. */
  const DEPTH: nat := 7

  /** The largest 32-bit `int`. */
  const INT_MAX: int := 2147483647

  /** The loss sentinel. It is INT_MAX rather than INT_MIN, so that `-MAX_VAL` is representable. */
  const MAX_VAL: int := INT_MAX

  /**
   * The number the game opens with, so that every even number is a legal first move; so is
   * the 1, which divides 2.
   */
  const OPENING_NUMBER: int := 2
}
