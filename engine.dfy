/**
 * The computer player of main.cpp:21-22 and 50-94. The two globals the search updates,
 * `calc_count` and `next_move`, are the fields of a `Computer`; `minimax` and `next` are its
 * methods and are proved equal to the functional search of the alpha-beta module.
 */
module Engine {
  import opened Config
  import opened Rules
  import opened Evaluation
  import opened Oracle
  import opened AlphaBeta

  class Computer {
    /** Nodes visited by the current decision (telemetry only). */
    var calcCount: int
    /** The root move recorded so far; -1 when none. */
    var nextMove: int

    /** The globals as the program starts (main.cpp:21-22). */
    constructor ()
      ensures calcCount == 0 && nextMove == -1
    {
      calcCount := 0;
      nextMove := -1;
    }

    /**
     * `minimax` (main.cpp:50-85). `player` is only negated and passed on, never read. The
     * value and both globals end as `Search` says; against the unpruned negamax value the
     * result is exact inside `(alpha, beta)` and on the correct side of the window outside.
     * That the value stays within `[-MAX_VAL, MAX_VAL]` is `SearchInRange`.
     */
    method Minimax(player: int, depth: nat, numbers: seq<int>, lastMove: int, alpha: int, beta: int)
      returns (v: int)
      requires lastMove != 0
      modifies this
      ensures var o := Search(depth, numbers, lastMove, alpha, beta, old(nextMove), old(calcCount));
        v == o.value && nextMove == o.nextMove && calcCount == o.calcCount
      ensures alpha < beta ==>
        var n := Negamax(depth, numbers, lastMove);
        (alpha < n < beta ==> v == n) && (n <= alpha ==> v <= alpha) && (n >= beta ==> v >= beta)
      decreases depth
    {
      ghost var entryMove, entryCount := nextMove, calcCount;
      calcCount := calcCount + 1;
      var possibleMoves := GetPossibleMoves(numbers, lastMove);
      if depth == 0 || |possibleMoves| == 0 {
        v := Score(possibleMoves);
      } else {
        var maxVal := alpha;
        ghost var total := SearchMoves(depth, numbers, possibleMoves, 0, alpha, beta, nextMove, calcCount);
        var i := 0;
        while i < |possibleMoves|
          invariant 0 <= i <= |possibleMoves|
          invariant SearchMoves(depth, numbers, possibleMoves, i, maxVal, beta, nextMove, calcCount) == total
        {
          var possibleMove := possibleMoves[i];
          var newField := Remove(numbers, possibleMove);
          ghost var c := Child(depth, numbers, possibleMove, maxVal, beta, nextMove, calcCount);
          var r := Minimax(-player, depth - 1, newField, possibleMove, -beta, -maxVal);
          var val := -r;
          if val > maxVal {
            maxVal := val;
            if depth == DEPTH {
              nextMove := possibleMove;
            }
            if maxVal >= beta {
              break;
            }
          }
          i := i + 1;
        }
        v := maxVal;
      }
      if alpha < beta {
        SearchWindow(depth, numbers, lastMove, alpha, beta, entryMove, entryCount);
      }
    }

    /**
     * `next` (main.cpp:87-94): clears the recorded move, searches the full window at the
     * root depth, resets the counter and returns the recorded move. That move is -1 or a
     * legal move; on a field of at most `MAX_VAL` numbers it is the oracle's best move:
     * -1 exactly when there is no legal move or every legal move has value `-MAX_VAL`,
     * otherwise the first legal move of best value.
     */
    method Next(numbers: seq<int>, lastNumber: int) returns (move: int)
      requires lastNumber != 0
      modifies this
      ensures move == nextMove && calcCount == 0
      ensures move == -1 || move in PossibleMoves(numbers, lastNumber)
      ensures |numbers| <= MAX_VAL ==> move == BestMove(numbers, lastNumber)
    {
      nextMove := -1;
      ghost var entryCount := calcCount;
      var score := Minimax(1, DEPTH, numbers, lastNumber, -MAX_VAL, MAX_VAL);
      if |numbers| <= MAX_VAL {
        SearchRootMove(numbers, lastNumber, entryCount);
      }
      if PossibleMoves(numbers, lastNumber) != [] {
        RootRecordsAMove(numbers, PossibleMoves(numbers, lastNumber), 0, -MAX_VAL, MAX_VAL, -1, entryCount + 1);
      }
      calcCount := 0;
      move := nextMove;
    }
  
    /**
     * `next` as evidently intended: when the search finds every legal move losing, it still
     * plays the first legal move instead of reporting -1, so -1 means only that the computer
     * has no move.
     */
    method NextIntended(numbers: seq<int>, lastNumber: int) returns (move: int)
      requires lastNumber != 0
      modifies this
      ensures move == nextMove && calcCount == 0
      ensures move == -1 <==> PossibleMoves(numbers, lastNumber) == []
      ensures move != -1 ==> move in PossibleMoves(numbers, lastNumber)
      ensures |numbers| <= MAX_VAL ==> move == IntendedMove(numbers, lastNumber)
    {
      move := Next(numbers, lastNumber);
      if move == -1 {
        var possibleMoves := GetPossibleMoves(numbers, lastNumber);
        if |possibleMoves| > 0 {
          move := possibleMoves[0];
          nextMove := move;
        }
      }
    }
  }
}
