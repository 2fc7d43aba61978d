/** The leaf evaluation of the search (`score`, main.cpp:45-48). */
module Evaluation {
  import opened Config

  /**
   * The value of a position for the side to move, given its legal moves: the loss sentinel
   * `-MAX_VAL` when there is none, otherwise their number (a mobility count, not a
   * game-theoretic value). As long as the list is no longer than `MAX_VAL` (the result of
   * `size()` fits in an `int`), the value and its negation lie in `[-MAX_VAL, MAX_VAL]`.
   */
  function Score(possibleMoves: seq<int>): (r: int)
    ensures r == -MAX_VAL <==> possibleMoves == []
    ensures possibleMoves != [] ==> r == |possibleMoves| > 0
    ensures |possibleMoves| <= MAX_VAL ==> -MAX_VAL <= r <= MAX_VAL
  {
    if possibleMoves == [] then -MAX_VAL else |possibleMoves|
  }
}
