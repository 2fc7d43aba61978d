# Juniper Green decision engine

Juniper Green is a two-player game played on the numbers 1 to 50. Each move takes a number that is
still in the field. The number must be a multiple or a divisor of the number played just before it.
A player who has no legal move loses. The game opens with 2 as the "last number", so every even
number (2 included) is a legal first move, and so is the 1, which divides 2.

The computer player of `main.cpp` picks its move with a depth-limited negamax search with alpha-beta
pruning (depth 7). A leaf is scored by mobility: the number of legal replies, or the loss sentinel
`-MAX_VAL = -INT_MAX` when there is none. The search writes two globals: `next_move`, the move chosen
at the root, and `calc_count`, the number of nodes visited.

The model has six modules:

- `Config` (config.dfy): the constants `DEPTH = 7` and `MAX_VAL = INT_MAX`, and the opening number.
- `Rules` (rules.dfy): the move rule `valid`, and a C++ truncating remainder `CRem` to express it.
  Also the move generator `get_possible_moves`, as a function and as the loop method
  `GetPossibleMoves`. Also `std::list::remove`, and the check the driver applies to a human's move.
- `Evaluation` (evaluation.dfy): `score`.
- `Oracle` (oracle.dfy): full-width negamax without pruning over the same generator and evaluation.
  Also the root move the engine reports (`BestMove`) and the corrected choice (`IntendedMove`).
- `AlphaBeta` (alphabeta.dfy): the pruned search as a function `Search`, a loop function
  `SearchMoves` and a call function `Child`. They thread the two globals through an `Outcome`.
  The lemmas relate this search to the oracle.
- `Engine` (engine.dfy): the class `Computer`, whose fields are the two globals. `Minimax` is a
  recursive method with the source's loop and `break`, proved equal to `Search` and sound against
  the oracle. `Next` resets the globals around the root call; `NextIntended` is the corrected `next`.

Some consequences of the code that the model keeps:

- `next_move` and `calc_count` are globals, so they are the fields of `Computer`, updated in place
  by `Minimax`. The functional `Search` threads them explicitly.
- `valid(2, 2)` holds, so after a 2 the 2 itself may be played while it is still in the field
  (`Rules.EvenFollowers`). That is the case at the opening.
- `valid(2, 1)` holds too, so the 1 is a legal opening (`Oracle.ResignsAtOpening`).
- The field is a `std::list<int>`, modelled as `seq<int>`.

## Model

| member | source | states |
|---|---|---|
| Rules.CRemMeaning | main.cpp:32 | C++ `%`: `a - CRem(a, b)` is a multiple of `b`, the remainder is below the divisor's magnitude, and it takes the sign of the dividend |
| Rules.CRemUnique | main.cpp:32 | those three properties determine the remainder: any `r` satisfying them equals `CRem(a, b)` |
| Rules.CRemZeroIffDivides | main.cpp:32 | the C++ remainder is zero exactly when the divisor divides the dividend, for all signs |
| Rules.CRemZeroIffEuclideanZero | main.cpp:32 | the C++ and Euclidean remainders agree on being zero |
| Rules.ValidMeaning | main.cpp:31-33 | `valid(last, x)` holds iff `x > 0` and one of `last`, `x` divides the other |
| Rules.ValidSymmetric | main.cpp:31-33 | for positive numbers `valid` is symmetric |
| Rules.ValidReflexive | main.cpp:31-33 | every positive number may follow itself |
| Rules.EvenFollowers | main.cpp:31-43 | after a 2, the field `[2, 3, 4, 6]` yields the moves `[2, 4, 6]` |
| Rules.GetPossibleMoves | main.cpp:35-43 | the loop returns exactly the filter `PossibleMoves` of the field |
| Rules.PossibleMovesMembers | main.cpp:35-43 | a number is a possible move iff it is in the field and legal after `last` |
| Rules.PossibleMovesConcat | main.cpp:35-43 | the filter keeps order: filtering a concatenation concatenates the filtered parts |
| Rules.PossibleMovesLength | main.cpp:35-43 | there are never more possible moves than numbers in the field |
| Rules.IsAcceptedMove | main.cpp:124 | the driver accepts a typed number iff it is one of the possible moves |
| Rules.RemoveFromDistinct | main.cpp:64-65 | in a field without repeats, removing the move cuts out exactly its position: one shorter, the move gone, the rest in order and still distinct |
| Rules.RemoveCutsOut | main.cpp:64-65 | removing the element at position `k` of a repeat-free list yields the list without position `k` |
| Rules.RemoveMembers | main.cpp:65 | after `remove(x)` the list holds exactly the old elements other than `x` |
| Rules.RemoveLength | main.cpp:65 | `remove` never lengthens the list, and shortens it when `x` was present |
| Rules.RemoveAbsent | main.cpp:65 | removing an absent number leaves the list unchanged |
| Evaluation.Score | main.cpp:45-48 | the score is `-MAX_VAL` iff there is no move, otherwise the number of moves; it lies in `[-MAX_VAL, MAX_VAL]` when that number fits |
| Oracle.BestValueIsMaximum | main.cpp:59-84 | the best child value bounds every child value and is the value of some move |
| Oracle.NegamaxInRange | main.cpp:45-48 | every unpruned negamax value lies in `[-MAX_VAL, MAX_VAL]`, so its negation cannot overflow |
| Oracle.FirstWithValueFound | main.cpp:67-71 | the first move with a given value exists when some move has it, and every earlier move has another value |
| Oracle.BestMoveMeaning | main.cpp:87-93 | the root move `next` reports is -1 iff there is no legal move or every legal move has value `-MAX_VAL`; otherwise it is the first legal move of best value |
| Oracle.ResignsWithMovesLeft | main.cpp:87-93 | the field `[1, 2]` after a 1 has legal moves `[1, 2]`, yet the root move is -1 |
| Oracle.WinningMove | main.cpp:59-84 | a legal move of value `MAX_VAL` makes the position's value `MAX_VAL` |
| Oracle.AllMovesLose | main.cpp:59-84 | when every legal move has value `-MAX_VAL`, so does the position |
| Oracle.ResignsAtOpening | main.cpp:87-104 | in the opening on the numbers 1 to 4 (last number 2) the legal moves are `[1, 2, 4]`, yet the root move is -1 |
| Oracle.IntendedMoveMeaning | main.cpp:87-93 | the corrected move is -1 iff there is no legal move; otherwise it is a legal move of best value |
| AlphaBeta.SearchWindow | main.cpp:50-85 | for `alpha < beta` the pruned value is exact inside the window, at most `alpha` when the true value is at most `alpha`, and at least `beta` when it is at least `beta` |
| AlphaBeta.SearchMovesWindow | main.cpp:59-82 | the move loop yields `max(max_val, best)` when the best remaining value is below `beta`, and at least `beta` otherwise |
| AlphaBeta.SearchInRange | main.cpp:57-68 | with the window and the field size in range, the search value stays in `[-MAX_VAL, MAX_VAL]`, so the negations never overflow |
| AlphaBeta.SearchMovesInRange | main.cpp:59-82 | the move loop keeps `max_val` in `[-MAX_VAL, MAX_VAL]` |
| AlphaBeta.FullWindowIsExact | main.cpp:89 | searched with the full window `[-MAX_VAL, MAX_VAL]`, the pruned value equals the unpruned negamax value |
| AlphaBeta.SearchBelowRootKeepsMove | main.cpp:69-71 | below the root depth the search never changes `next_move` |
| AlphaBeta.SearchMovesBelowRootKeepsMove | main.cpp:69-71 | below the root depth the move loop never changes `next_move` |
| AlphaBeta.SearchCountsNodes | main.cpp:51 | every call increases `calc_count` |
| AlphaBeta.SearchMovesCountsNodes | main.cpp:51 | the move loop counts at least one node when it has a move to search |
| AlphaBeta.RootRecordsFirstBest | main.cpp:67-74 | at the root, with `beta = MAX_VAL`, the loop keeps `next_move` when no remaining move beats `max_val`, and otherwise records the first remaining move of best value |
| AlphaBeta.SearchRootMove | main.cpp:88-89 | starting from -1 with the full window, the root search leaves the oracle's best move in `next_move` |
| AlphaBeta.RootRecordsAMove | main.cpp:69-71 | the root loop only ever records one of its own moves |
| Engine.Computer.constructor | main.cpp:21-22 | the globals start as `calc_count = 0` and `next_move = -1` |
| Engine.Computer.Minimax | main.cpp:50-85 | value, `next_move` and `calc_count` end as `Search` says; for `alpha < beta` the value is exact inside the window and on the correct side of it outside |
| Engine.Computer.Next | main.cpp:87-94 | returns `next_move` with `calc_count` reset to 0; the move is -1 or a legal move, and on a field of at most `MAX_VAL` numbers it is the oracle's best move |
| Engine.Computer.NextIntended | main.cpp:87-94 | the corrected `next`: -1 iff there is no legal move, otherwise a legal move, and the corrected best move on a field of at most `MAX_VAL` numbers |

## Left out

- Console input and output: the banner, the `print` helper, the prompts and the messages of `next` and `main`. None of them affects a value.
- The game loop of `main`: who moves, applying the move to the field, and declaring the winner. Only its acceptance check for a typed number (line 124) is modelled.
- The `DEBUG` progress output and the `std::chrono` timing inside `minimax`. They are output only, and the loop counter `i` serves only that output.
- 32-bit arithmetic: integers are unbounded. Instead, the lemmas `SearchInRange`, `NegamaxInRange` and `Score` show that every value and every negation stays within `[-MAX_VAL, MAX_VAL]` when the field has at most `MAX_VAL` numbers. `calc_count` is unbounded; the source's counter could wrap on an extremely long search.
- Rules.Valid: requires `last != 0`, because `x % 0` is undefined in C++. The game never plays a 0, and only `-1` (after the finding below) or positive numbers reach it.
- `std::list` internals and the copy and `std::move` of the field: the field is a value (`seq<int>`). The copy on line 64 is therefore implicit; aliasing cannot arise.
- The `player` argument of `minimax` is kept in `Engine.Computer.Minimax` but never read, as in the source. The functions of `AlphaBeta` omit it.
- Engine.Computer.Minimax: the range `[-MAX_VAL, MAX_VAL]` of its value is not stated in the method's contract. It is stated about `Search` by `SearchInRange`, which the first `ensures` makes apply to the method.
- Engine.Computer.Next: equality with the oracle's `BestMove` is stated only for fields of at most `MAX_VAL` numbers, the bound under which no value overflows.
- The driver's handling of the returned -1 (it removes nothing and continues with -1 as the last number) is not modelled; the finding below describes it.
- Order preservation of the filter is stated as a concatenation law (`PossibleMovesConcat`) together with the one-number case, not as a subsequence predicate.

## Findings

| source | as written | input that shows it | evidently intended | confidence | as-written member | corrected member |
|---|---|---|---|---|---|---|
| main.cpp:87-93 | `next` returns -1 whenever no root move beats `-MAX_VAL`. That includes positions where legal moves exist but all of them lose; the driver then removes nothing and continues with -1 as the last number, after which every number is legal | the game's opening on the numbers 1 to 4 (last number 2): the legal moves are `[1, 2, 4]`, each has a winning reply, and the returned move is -1; likewise the field `[1, 2]` after a 1 | -1 only when there is no legal move; otherwise play a legal move, the first one when all of them lose | likely, not executed | Engine.Computer.Next, Oracle.ResignsAtOpening, Oracle.ResignsWithMovesLeft | Engine.Computer.NextIntended, Oracle.IntendedMoveMeaning |
