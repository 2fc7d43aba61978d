/**
 * The value the search of main.cpp:50-85 is meant to compute, written without pruning:
 * full-width negamax over the same move generator and the same leaf evaluation, plus the
 * root move that the engine reports.
 */
module Oracle {
  import opened Config
  import opened Rules
  import opened Evaluation

  function Max(a: int, b: int): int { if a < b then b else a }

  /** Negamax value, `depth` plies deep, of the position `numbers` after `last` was played. */
  function Negamax(depth: nat, numbers: seq<int>, last: int): int
    requires last != 0
    decreases depth, 1, 0
  {
    var moves := PossibleMoves(numbers, last);
    if depth == 0 || moves == [] then Score(moves) else BestValue(depth, numbers, moves)
  }

  /** Value of playing `m` from `numbers`: the opponent's value of the child position, negated. */
  function ChildValue(depth: nat, numbers: seq<int>, m: int): int
    requires depth > 0 && m != 0
    decreases depth, 0, 0
  {
    -Negamax(depth - 1, Remove(numbers, m), m)
  }

  /** The largest child value over a nonempty list of moves. */
  function BestValue(depth: nat, numbers: seq<int>, moves: seq<int>): int
    requires depth > 0 && moves != []
    requires Positive(moves)
    decreases depth, 0, |moves|
  {
    var c := ChildValue(depth, numbers, moves[0]);
    if |moves| == 1 then c else Max(c, BestValue(depth, numbers, moves[1..]))
  }

  /** `BestValue` bounds every child value and is the value of one of the moves. */
  lemma {:induction false} BestValueIsMaximum(depth: nat, numbers: seq<int>, moves: seq<int>)
    requires depth > 0 && moves != []
    requires Positive(moves)
    ensures forall i :: 0 <= i < |moves| ==> ChildValue(depth, numbers, moves[i]) <= BestValue(depth, numbers, moves)
    ensures exists i :: 0 <= i < |moves| && ChildValue(depth, numbers, moves[i]) == BestValue(depth, numbers, moves)
  {
    if |moves| > 1 {
      BestValueIsMaximum(depth, numbers, moves[1..]);
      var v := BestValue(depth, numbers, moves[1..]);
      var i :| 0 <= i < |moves[1..]| && ChildValue(depth, numbers, moves[1..][i]) == v;
      assert moves[1..][i] == moves[i + 1];
      forall j | 1 <= j < |moves| ensures ChildValue(depth, numbers, moves[j]) <= v {
        assert moves[j] == moves[1..][j - 1];
      }
    }
  }

  /**
   * Over a field of at most `MAX_VAL` numbers, every negamax value lies in
   * `[-MAX_VAL, MAX_VAL]`, so negating it cannot overflow a 32-bit `int`.
   */
  lemma {:induction false} NegamaxInRange(depth: nat, numbers: seq<int>, last: int)
    requires last != 0 && |numbers| <= MAX_VAL
    ensures -MAX_VAL <= Negamax(depth, numbers, last) <= MAX_VAL
    decreases depth, 1, 0
  {
    var moves := PossibleMoves(numbers, last);
    PossibleMovesLength(numbers, last);
    if depth > 0 && moves != [] {
      BestValueInRange(depth, numbers, moves);
    }
  }

  lemma {:induction false} BestValueInRange(depth: nat, numbers: seq<int>, moves: seq<int>)
    requires depth > 0 && moves != [] && |numbers| <= MAX_VAL
    requires Positive(moves)
    ensures -MAX_VAL <= BestValue(depth, numbers, moves) <= MAX_VAL
    decreases depth, 0, |moves|
  {
    RemoveLength(numbers, moves[0]);
    NegamaxInRange(depth - 1, Remove(numbers, moves[0]), moves[0]);
    if |moves| > 1 {
      BestValueInRange(depth, numbers, moves[1..]);
    }
  }

  /** The first move of `moves` whose value is `target`, or -1 when there is none. */
  function FirstWithValue(depth: nat, numbers: seq<int>, moves: seq<int>, target: int): int
    requires depth > 0
    requires Positive(moves)
  {
    if moves == [] then -1
    else if ChildValue(depth, numbers, moves[0]) == target then moves[0]
    else FirstWithValue(depth, numbers, moves[1..], target)
  }

  /**
   * The move the engine reports from `numbers` after `last`: the first legal move of best
   * value, or -1 when the position's value is the loss sentinel (every move, if any, loses).
   */
  function BestMove(numbers: seq<int>, last: int): int
    requires last != 0
  {
    var v := Negamax(DEPTH, numbers, last);
    if v == -MAX_VAL then -1 else FirstWithValue(DEPTH, numbers, PossibleMoves(numbers, last), v)
  }

  lemma {:induction false} FirstWithValueFound(depth: nat, numbers: seq<int>, moves: seq<int>, target: int, k: int)
    requires depth > 0
    requires Positive(moves)
    requires 0 <= k < |moves| && ChildValue(depth, numbers, moves[k]) == target
    ensures exists i :: (0 <= i <= k && FirstWithValue(depth, numbers, moves, target) == moves[i]
      && ChildValue(depth, numbers, moves[i]) == target
      && forall j :: 0 <= j < i ==> ChildValue(depth, numbers, moves[j]) != target)
  {
    if ChildValue(depth, numbers, moves[0]) != target {
      assert moves[1..][k - 1] == moves[k];
      FirstWithValueFound(depth, numbers, moves[1..], target, k - 1);
      var i :| 0 <= i <= k - 1 && FirstWithValue(depth, numbers, moves[1..], target) == moves[1..][i]
        && ChildValue(depth, numbers, moves[1..][i]) == target
        && forall j :: 0 <= j < i ==> ChildValue(depth, numbers, moves[1..][j]) != target;
      forall j | 0 <= j < i + 1 ensures ChildValue(depth, numbers, moves[j]) != target {
        if j > 0 { assert moves[j] == moves[1..][j - 1]; }
      }
      assert moves[i + 1] == moves[1..][i];
    }
  }

  /**
   * What `BestMove` means. It is -1 exactly when the position's value is the loss sentinel,
   * which happens when there is no legal move or when every legal move has value
   * `-MAX_VAL`. Otherwise it is a legal move of best value, and every legal move generated
   * before it is strictly worse.
   */
  lemma BestMoveMeaning(numbers: seq<int>, last: int)
    requires last != 0 && |numbers| <= MAX_VAL
    ensures var moves := PossibleMoves(numbers, last);
      BestMove(numbers, last) == -1 <==>
        (moves == [] || forall m :: m in moves ==> ChildValue(DEPTH, numbers, m) == -MAX_VAL)
    ensures var moves := PossibleMoves(numbers, last);
      var v := Negamax(DEPTH, numbers, last);
      BestMove(numbers, last) != -1 ==>
        exists k :: (0 <= k < |moves| && moves[k] == BestMove(numbers, last)
          && ChildValue(DEPTH, numbers, moves[k]) == v
          && forall j :: 0 <= j < k ==> ChildValue(DEPTH, numbers, moves[j]) < v)
  {
    var moves := PossibleMoves(numbers, last);
    var v := Negamax(DEPTH, numbers, last);
    NegamaxInRange(DEPTH, numbers, last);
    if moves != [] {
      BestValueIsMaximum(DEPTH, numbers, moves);
      assert v == BestValue(DEPTH, numbers, moves);
      forall m | m in moves ensures -MAX_VAL <= ChildValue(DEPTH, numbers, m) <= MAX_VAL {
        RemoveLength(numbers, m);
        NegamaxInRange(DEPTH - 1, Remove(numbers, m), m);
      }
      var k :| 0 <= k < |moves| && ChildValue(DEPTH, numbers, moves[k]) == v;
      if v != -MAX_VAL {
        FirstWithValueFound(DEPTH, numbers, moves, v, k);
        assert ChildValue(DEPTH, numbers, moves[k]) != -MAX_VAL;
      } else {
        forall m | m in moves ensures ChildValue(DEPTH, numbers, m) == -MAX_VAL {
          var i :| 0 <= i < |moves| && moves[i] == m;
        }
      }
    }
  }

  /**
   * With legal moves left, `BestMove` can still be -1: in the field `[1, 2]` after a 1 both
   * legal moves lose within three plies, so every child value is `-MAX_VAL`.
   */
  lemma ResignsWithMovesLeft()
    ensures PossibleMoves([1, 2], 1) == [1, 2]
    ensures BestMove([1, 2], 1) == -1
  {
  }

  /** A move whose value is `MAX_VAL` (one that wins outright) makes the position `MAX_VAL`. */
  lemma WinningMove(depth: nat, numbers: seq<int>, last: int, m: int)
    requires last != 0 && depth > 0 && |numbers| <= MAX_VAL
    requires m in PossibleMoves(numbers, last) && ChildValue(depth, numbers, m) == MAX_VAL
    ensures Negamax(depth, numbers, last) == MAX_VAL
  {
    var moves := PossibleMoves(numbers, last);
    BestValueIsMaximum(depth, numbers, moves);
    NegamaxInRange(depth, numbers, last);
    var i :| 0 <= i < |moves| && moves[i] == m;
  }

  /** A position whose every legal move has value `-MAX_VAL` is itself lost. */
  lemma AllMovesLose(depth: nat, numbers: seq<int>, last: int)
    requires last != 0 && depth > 0 && PossibleMoves(numbers, last) != []
    requires forall m :: m in PossibleMoves(numbers, last) ==> ChildValue(depth, numbers, m) == -MAX_VAL
    ensures Negamax(depth, numbers, last) == -MAX_VAL
  {
    var moves := PossibleMoves(numbers, last);
    BestValueIsMaximum(depth, numbers, moves);
    var i :| 0 <= i < |moves| && ChildValue(depth, numbers, moves[i]) == BestValue(depth, numbers, moves);
    assert moves[i] in moves;
  }

  /**
   * The same in the game's own opening on the numbers 1 to 4: after the opening 2 the legal
   * moves are 1, 2 and 4, each of them loses, and the move reported is -1.
   */
  lemma ResignsAtOpening()
    ensures PossibleMoves([1, 2, 3, 4], OPENING_NUMBER) == [1, 2, 4]
    ensures BestMove([1, 2, 3, 4], OPENING_NUMBER) == -1
  {
    OpeningMoves();
    OpeningValue();
  }

  /** The opening moves on 1 to 4 and the fields they leave. */
  lemma OpeningMoves()
    ensures PossibleMoves([1, 2, 3, 4], OPENING_NUMBER) == [1, 2, 4]
    ensures Remove([1, 2, 3, 4], 1) == [2, 3, 4]
    ensures Remove([1, 2, 3, 4], 2) == [1, 3, 4]
    ensures Remove([1, 2, 3, 4], 4) == [1, 2, 3]
  {
  }

  /**
   * The opening position on 1 to 4 is lost for the player to move, because each opening
   * move has a winning reply: after 1 the 3 (no number left is a multiple or divisor of 3),
   * after 2 the 4 and after 4 the 2 (the opponent must then play the 1, and the 3 wins).
   */
  lemma OpeningValue()
    ensures Negamax(DEPTH, [1, 2, 3, 4], OPENING_NUMBER) == -MAX_VAL
  {
    OpeningMoves();
    ReplyToOne();
    ReplyToTwo();
    ReplyToFour();
    AllMovesLose(DEPTH, [1, 2, 3, 4], OPENING_NUMBER);
  }

  lemma ReplyToOne()
    ensures Negamax(DEPTH - 1, [2, 3, 4], 1) == MAX_VAL
  {
    assert Remove([2, 3, 4], 3) == [2, 4] && PossibleMoves([2, 4], 3) == [];
    WinningMove(DEPTH - 1, [2, 3, 4], 1, 3);
  }

  lemma ReplyToTwo()
    ensures Negamax(DEPTH - 1, [1, 3, 4], 2) == MAX_VAL
  {
    ThreeAfterOneWins();
    assert Remove([1, 3, 4], 4) == [1, 3] && PossibleMoves([1, 3], 4) == [1];
    assert Remove([1, 3], 1) == [3];
    AllMovesLose(DEPTH - 2, [1, 3], 4);
    WinningMove(DEPTH - 1, [1, 3, 4], 2, 4);
  }

  lemma ReplyToFour()
    ensures Negamax(DEPTH - 1, [1, 2, 3], 4) == MAX_VAL
  {
    ThreeAfterOneWins();
    assert Remove([1, 2, 3], 2) == [1, 3] && PossibleMoves([1, 3], 2) == [1];
    assert Remove([1, 3], 1) == [3];
    AllMovesLose(DEPTH - 2, [1, 3], 2);
    WinningMove(DEPTH - 1, [1, 2, 3], 4, 2);
  }

  /** With only the 3 left after a 1, the player to move takes it and wins. */
  lemma ThreeAfterOneWins()
    ensures Negamax(DEPTH - 3, [3], 1) == MAX_VAL
  {
    assert Remove([3], 3) == [] && PossibleMoves([], 3) == [];
    WinningMove(DEPTH - 3, [3], 1, 3);
  }

  /**
   * The move a player is meant to make: the first move of best value, falling back to the
   * first legal move when all of them lose. Only a position without legal moves yields -1.
   */
  function IntendedMove(numbers: seq<int>, last: int): int
    requires last != 0
  {
    var moves := PossibleMoves(numbers, last);
    var best := BestMove(numbers, last);
    if best == -1 && moves != [] then moves[0] else best
  }

  /**
   * `IntendedMove` is -1 exactly when there is no legal move; otherwise it is a legal move
   * whose value is the position's negamax value.
   */
  lemma IntendedMoveMeaning(numbers: seq<int>, last: int)
    requires last != 0 && |numbers| <= MAX_VAL
    ensures var moves := PossibleMoves(numbers, last);
      IntendedMove(numbers, last) == -1 <==> moves == []
    ensures var moves := PossibleMoves(numbers, last);
      var m := IntendedMove(numbers, last);
      moves != [] ==> m in moves && ChildValue(DEPTH, numbers, m) == Negamax(DEPTH, numbers, last)
  {
    var moves := PossibleMoves(numbers, last);
    BestMoveMeaning(numbers, last);
    if moves != [] {
      BestValueIsMaximum(DEPTH, numbers, moves);
      var v := Negamax(DEPTH, numbers, last);
      assert v == BestValue(DEPTH, numbers, moves);
      if BestMove(numbers, last) == -1 {
        assert moves[0] in moves;
        var k :| 0 <= k < |moves| && ChildValue(DEPTH, numbers, moves[k]) == v;
        assert moves[k] in moves;
      } else {
        var k :| 0 <= k < |moves| && moves[k] == BestMove(numbers, last)
          && ChildValue(DEPTH, numbers, moves[k]) == v;
        assert -1 !in moves;
      }
    }
  }
}
