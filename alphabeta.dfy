/**
 * The search of `minimax` (main.cpp:50-85) as a function. Besides the value it threads the
 * two globals the search writes, `next_move` and `calc_count`, so that the class in the
 * engine module can be proved equal to it; the lemmas relate it to the unpruned negamax.
 */
module AlphaBeta {
  import opened Config
  import opened Rules
  import opened Evaluation
  import opened Oracle

  /** What one call leaves behind: its return value and the new values of the two globals. */
  datatype Outcome = Outcome(value: int, nextMove: int, calcCount: int)

  /**
   * One call `minimax(player, depth, numbers, last, alpha, beta)` entered with globals
   * `nextMove` and `calcCount`. The node is counted, and a leaf (no depth left or no legal
   * move) is scored; otherwise the moves are searched with `max_val` starting at `alpha`.
   */
  function Search(depth: nat, numbers: seq<int>, last: int, alpha: int, beta: int,
                  nextMove: int, calcCount: int): Outcome
    requires last != 0
    decreases depth, 1, 0
  {
    var moves := PossibleMoves(numbers, last);
    if depth == 0 || moves == [] then Outcome(Score(moves), nextMove, calcCount + 1)
    else SearchMoves(depth, numbers, moves, 0, alpha, beta, nextMove, calcCount + 1)
  }

  /**
   * The recursive call of main.cpp:64-66 for move `m`: one ply less, in a copy of the field
   * without `m`, under the negated window `(-beta, -maxVal)`. The caller negates its value.
   */
  function Child(depth: nat, numbers: seq<int>, m: int, maxVal: int, beta: int,
                 nextMove: int, calcCount: int): Outcome
    requires depth > 0 && m != 0
    decreases depth, 0, 0
  {
    Search(depth - 1, Remove(numbers, m), m, -beta, -maxVal, nextMove, calcCount)
  }

  /**
   * The loop of main.cpp:59-82 from the move at index `i` on, with `maxVal` the current
   * `max_val`. A strict improvement raises `maxVal`, is recorded at the root depth, and ends
   * the loop once it reaches `beta`.
   */
  function SearchMoves(depth: nat, numbers: seq<int>, moves: seq<int>, i: nat, maxVal: int, beta: int,
                       nextMove: int, calcCount: int): Outcome
    requires depth > 0 && Positive(moves) && i <= |moves|
    decreases depth, 0, |moves| - i + 1
  {
    if i == |moves| then Outcome(maxVal, nextMove, calcCount)
    else
      var m := moves[i];
      var child := Child(depth, numbers, m, maxVal, beta, nextMove, calcCount);
      var val := -child.value;
      if val > maxVal then
        var recorded := if depth == DEPTH then m else child.nextMove;
        if val >= beta then Outcome(val, recorded, child.calcCount)
        else SearchMoves(depth, numbers, moves, i + 1, val, beta, recorded, child.calcCount)
      else SearchMoves(depth, numbers, moves, i + 1, maxVal, beta, child.nextMove, child.calcCount)
  }

  /**
   * Alpha-beta soundness against the unpruned negamax value `v`, for a window with
   * `alpha < beta`: inside the window the search is exact, at or below `alpha` it reports at
   * most `alpha`, and at or above `beta` it reports at least `beta`.
   */
  lemma {:induction false} SearchWindow(depth: nat, numbers: seq<int>, last: int, alpha: int, beta: int,
                                        nextMove: int, calcCount: int)
    requires last != 0 && alpha < beta
    ensures var v := Negamax(depth, numbers, last);
      var r := Search(depth, numbers, last, alpha, beta, nextMove, calcCount).value;
      (alpha < v < beta ==> r == v) && (v <= alpha ==> r <= alpha) && (v >= beta ==> r >= beta)
    decreases depth, 1, 0
  {
    var moves := PossibleMoves(numbers, last);
    if depth > 0 && moves != [] {
      assert moves[0..] == moves;
      SearchMovesWindow(depth, numbers, moves, 0, alpha, beta, nextMove, calcCount + 1);
    }
  }

  /**
   * The loop from move `i` on returns `max(maxVal, w)` when the best remaining child value
   * `w` is below `beta`, and at least `beta` otherwise (it returns `maxVal` on no moves).
   */
  lemma {:induction false} SearchMovesWindow(depth: nat, numbers: seq<int>, moves: seq<int>, i: nat,
                                             maxVal: int, beta: int, nextMove: int, calcCount: int)
    requires depth > 0 && Positive(moves) && i <= |moves| && maxVal < beta
    ensures var r := SearchMoves(depth, numbers, moves, i, maxVal, beta, nextMove, calcCount).value;
      if i == |moves| then r == maxVal
      else
        var w := BestValue(depth, numbers, moves[i..]);
        (w < beta ==> r == Max(maxVal, w)) && (w >= beta ==> r >= beta)
    decreases depth, 0, |moves| - i + 1
  {
    if i < |moves| {
      var m := moves[i];
      var child := Search(depth - 1, Remove(numbers, m), m, -beta, -maxVal, nextMove, calcCount);
      SearchWindow(depth - 1, Remove(numbers, m), m, -beta, -maxVal, nextMove, calcCount);
      var val := -child.value;
      var c := ChildValue(depth, numbers, m);
      var recorded := if depth == DEPTH then m else child.nextMove;
      assert moves[i..][0] == m && moves[i..][1..] == moves[i + 1..];
      assert BestValue(depth, numbers, moves[i..])
          == if i + 1 == |moves| then c else Max(c, BestValue(depth, numbers, moves[i + 1..]));
      if val > maxVal {
        if val < beta {
          SearchMovesWindow(depth, numbers, moves, i + 1, val, beta, recorded, child.calcCount);
        }
      } else {
        SearchMovesWindow(depth, numbers, moves, i + 1, maxVal, beta, child.nextMove, child.calcCount);
      }
    }
  }

  /**
   * With `alpha` and `beta` in `[-MAX_VAL, MAX_VAL]` and a field of at most `MAX_VAL`
   * numbers, the search returns a value in that range: the negations `-beta`, `-max_val`
   * and `-minimax(...)` of main.cpp:66 never leave the 32-bit range.
   */
  lemma {:induction false} SearchInRange(depth: nat, numbers: seq<int>, last: int, alpha: int, beta: int,
                                         nextMove: int, calcCount: int)
    requires last != 0 && |numbers| <= MAX_VAL
    requires -MAX_VAL <= alpha <= MAX_VAL && -MAX_VAL <= beta <= MAX_VAL
    ensures -MAX_VAL <= Search(depth, numbers, last, alpha, beta, nextMove, calcCount).value <= MAX_VAL
    decreases depth, 1, 0
  {
    var moves := PossibleMoves(numbers, last);
    PossibleMovesLength(numbers, last);
    if depth > 0 && moves != [] {
      SearchMovesInRange(depth, numbers, moves, 0, alpha, beta, nextMove, calcCount + 1);
    }
  }

  lemma {:induction false} SearchMovesInRange(depth: nat, numbers: seq<int>, moves: seq<int>, i: nat,
                                              maxVal: int, beta: int, nextMove: int, calcCount: int)
    requires depth > 0 && Positive(moves) && i <= |moves| && |numbers| <= MAX_VAL
    requires -MAX_VAL <= maxVal <= MAX_VAL && -MAX_VAL <= beta <= MAX_VAL
    ensures -MAX_VAL <= SearchMoves(depth, numbers, moves, i, maxVal, beta, nextMove, calcCount).value <= MAX_VAL
    decreases depth, 0, |moves| - i + 1
  {
    if i < |moves| {
      var m := moves[i];
      var child := Search(depth - 1, Remove(numbers, m), m, -beta, -maxVal, nextMove, calcCount);
      RemoveLength(numbers, m);
      SearchInRange(depth - 1, Remove(numbers, m), m, -beta, -maxVal, nextMove, calcCount);
      var val := -child.value;
      var recorded := if depth == DEPTH then m else child.nextMove;
      if val > maxVal {
        if val < beta {
          SearchMovesInRange(depth, numbers, moves, i + 1, val, beta, recorded, child.calcCount);
        }
      } else {
        SearchMovesInRange(depth, numbers, moves, i + 1, maxVal, beta, child.nextMove, child.calcCount);
      }
    }
  }

  /** Called with the full window `[-MAX_VAL, MAX_VAL]`, as `next` does, the search is exact. */
  lemma FullWindowIsExact(depth: nat, numbers: seq<int>, last: int, nextMove: int, calcCount: int)
    requires last != 0 && |numbers| <= MAX_VAL
    ensures Search(depth, numbers, last, -MAX_VAL, MAX_VAL, nextMove, calcCount).value
         == Negamax(depth, numbers, last)
  {
    SearchWindow(depth, numbers, last, -MAX_VAL, MAX_VAL, nextMove, calcCount);
    SearchInRange(depth, numbers, last, -MAX_VAL, MAX_VAL, nextMove, calcCount);
    NegamaxInRange(depth, numbers, last);
  }

  /** Below the root depth nothing writes `next_move`. */
  lemma {:induction false} SearchBelowRootKeepsMove(depth: nat, numbers: seq<int>, last: int, alpha: int,
                                                    beta: int, nextMove: int, calcCount: int)
    requires last != 0 && depth < DEPTH
    ensures Search(depth, numbers, last, alpha, beta, nextMove, calcCount).nextMove == nextMove
    decreases depth, 1, 0
  {
    var moves := PossibleMoves(numbers, last);
    if depth > 0 && moves != [] {
      SearchMovesBelowRootKeepsMove(depth, numbers, moves, 0, alpha, beta, nextMove, calcCount + 1);
    }
  }

  lemma {:induction false} SearchMovesBelowRootKeepsMove(depth: nat, numbers: seq<int>, moves: seq<int>, i: nat,
                                                         maxVal: int, beta: int, nextMove: int, calcCount: int)
    requires depth > 0 && Positive(moves) && i <= |moves| && depth < DEPTH
    ensures SearchMoves(depth, numbers, moves, i, maxVal, beta, nextMove, calcCount).nextMove == nextMove
    decreases depth, 0, |moves| - i + 1
  {
    if i < |moves| {
      var m := moves[i];
      var child := Search(depth - 1, Remove(numbers, m), m, -beta, -maxVal, nextMove, calcCount);
      SearchBelowRootKeepsMove(depth - 1, Remove(numbers, m), m, -beta, -maxVal, nextMove, calcCount);
      var val := -child.value;
      if val > maxVal {
        if val < beta {
          SearchMovesBelowRootKeepsMove(depth, numbers, moves, i + 1, val, beta, nextMove, child.calcCount);
        }
      } else {
        SearchMovesBelowRootKeepsMove(depth, numbers, moves, i + 1, maxVal, beta, nextMove, child.calcCount);
      }
    }
  }

  /** Every call counts at least its own node. */
  lemma {:induction false} SearchCountsNodes(depth: nat, numbers: seq<int>, last: int, alpha: int, beta: int,
                                             nextMove: int, calcCount: int)
    requires last != 0
    ensures Search(depth, numbers, last, alpha, beta, nextMove, calcCount).calcCount > calcCount
    decreases depth, 1, 0
  {
    var moves := PossibleMoves(numbers, last);
    if depth > 0 && moves != [] {
      SearchMovesCountsNodes(depth, numbers, moves, 0, alpha, beta, nextMove, calcCount + 1);
    }
  }

  /** The loop counts at least one node per move it searches, and it searches at least one. */
  lemma {:induction false} SearchMovesCountsNodes(depth: nat, numbers: seq<int>, moves: seq<int>, i: nat,
                                                  maxVal: int, beta: int, nextMove: int, calcCount: int)
    requires depth > 0 && Positive(moves) && i <= |moves|
    ensures SearchMoves(depth, numbers, moves, i, maxVal, beta, nextMove, calcCount).calcCount
      >= calcCount + (if i < |moves| then 1 else 0)
    decreases depth, 0, |moves| - i + 1
  {
    if i < |moves| {
      var m := moves[i];
      var child := Search(depth - 1, Remove(numbers, m), m, -beta, -maxVal, nextMove, calcCount);
      SearchCountsNodes(depth - 1, Remove(numbers, m), m, -beta, -maxVal, nextMove, calcCount);
      var val := -child.value;
      var recorded := if depth == DEPTH then m else child.nextMove;
      if val > maxVal {
        if val < beta {
          SearchMovesCountsNodes(depth, numbers, moves, i + 1, val, beta, recorded, child.calcCount);
        }
      } else {
        SearchMovesCountsNodes(depth, numbers, moves, i + 1, maxVal, beta, child.nextMove, child.calcCount);
      }
    }
  }

  /**
   * The loop at the root depth, under `beta == MAX_VAL`, leaves `next_move` as it found it
   * when no move from `i` on beats `maxVal`; otherwise it records the first of those moves
   * of best value. Pruning never skips a better move: a cut-off happens only at `MAX_VAL`.
   */
  lemma {:induction false} RootRecordsFirstBest(numbers: seq<int>, moves: seq<int>, i: nat, maxVal: int,
                                                nextMove: int, calcCount: int)
    requires Positive(moves) && i <= |moves| && |numbers| <= MAX_VAL
    requires -MAX_VAL <= maxVal < MAX_VAL
    ensures var r := SearchMoves(DEPTH, numbers, moves, i, maxVal, MAX_VAL, nextMove, calcCount).nextMove;
      if i == |moves| || BestValue(DEPTH, numbers, moves[i..]) <= maxVal then r == nextMove
      else r == FirstWithValue(DEPTH, numbers, moves[i..], BestValue(DEPTH, numbers, moves[i..]))
    decreases |moves| - i
  {
    if i < |moves| {
      var m := moves[i];
      var field := Remove(numbers, m);
      RemoveLength(numbers, m);
      var child := Search(DEPTH - 1, field, m, -MAX_VAL, -maxVal, nextMove, calcCount);
      SearchWindow(DEPTH - 1, field, m, -MAX_VAL, -maxVal, nextMove, calcCount);
      SearchInRange(DEPTH - 1, field, m, -MAX_VAL, -maxVal, nextMove, calcCount);
      SearchBelowRootKeepsMove(DEPTH - 1, field, m, -MAX_VAL, -maxVal, nextMove, calcCount);
      NegamaxInRange(DEPTH - 1, field, m);
      var c := ChildValue(DEPTH, numbers, m);
      var val := -child.value;
      assert c <= maxVal ==> val <= maxVal;
      assert maxVal < c ==> val == c;
      assert moves[i..][0] == m && moves[i..][1..] == moves[i + 1..];
      if i + 1 < |moves| {
        BestValueInRange(DEPTH, numbers, moves[i + 1..]);
        if val > maxVal {
          if val < MAX_VAL {
            RootRecordsFirstBest(numbers, moves, i + 1, val, m, child.calcCount);
          } else {
            assert c == MAX_VAL;
          }
        } else {
          RootRecordsFirstBest(numbers, moves, i + 1, maxVal, nextMove, child.calcCount);
        }
      }
    }
  }

  /**
   * What `next` leaves in `next_move` (main.cpp:88-89): starting from -1 and searching with
   * the full window at the root depth, it ends as the move the oracle designates.
   */
  lemma SearchRootMove(numbers: seq<int>, last: int, calcCount: int)
    requires last != 0 && |numbers| <= MAX_VAL
    ensures Search(DEPTH, numbers, last, -MAX_VAL, MAX_VAL, -1, calcCount).nextMove == BestMove(numbers, last)
  {
    var moves := PossibleMoves(numbers, last);
    NegamaxInRange(DEPTH, numbers, last);
    if moves != [] {
      assert moves[0..] == moves;
      RootRecordsFirstBest(numbers, moves, 0, -MAX_VAL, -1, calcCount + 1);
    }
  }

  /** Whatever the field's size, the root loop only ever records one of its own moves. */
  lemma {:induction false} RootRecordsAMove(numbers: seq<int>, moves: seq<int>, i: nat, maxVal: int, beta: int,
                                            nextMove: int, calcCount: int)
    requires Positive(moves) && i <= |moves|
    ensures var r := SearchMoves(DEPTH, numbers, moves, i, maxVal, beta, nextMove, calcCount).nextMove;
      r == nextMove || r in moves
    decreases |moves| - i
  {
    if i < |moves| {
      var m := moves[i];
      var field := Remove(numbers, m);
      var child := Search(DEPTH - 1, field, m, -beta, -maxVal, nextMove, calcCount);
      SearchBelowRootKeepsMove(DEPTH - 1, field, m, -beta, -maxVal, nextMove, calcCount);
      var val := -child.value;
      if val > maxVal {
        if val < beta {
          RootRecordsAMove(numbers, moves, i + 1, val, beta, m, child.calcCount);
        }
      } else {
        RootRecordsAMove(numbers, moves, i + 1, maxVal, beta, nextMove, child.calcCount);
      }
    }
  }
}
