/** The rules of Juniper Green: which numbers may be played after which (main.cpp, lines 31-43). */
module Rules {

  function Abs(a: int): int { if a < 0 then -a else a }

  /** `n` is a multiple of `d`, stated without any remainder operator. */
  ghost predicate Divides(d: int, n: int) {
    exists k :: n == d * k
  }

  /** Euclidean remainder is zero exactly on multiples (any sign of `d`). */
  lemma ZeroRemainderIffDivides(d: int, n: int)
    requires d != 0
    ensures n % d == 0 <==> Divides(d, n)
  {
    var q, r := n / d, n % d;
    assert n == d * q + r;
    if n % d == 0 {
      assert n == d * q;
    }
    if Divides(d, n) {
      var k :| n == d * k;
      assert d * (k - q) == r;
      if k - q >= 1 {
        MulAtLeast(d, k - q);
      } else if k - q <= -1 {
        MulAtLeast(d, q - k);
      }
    }
  }

  /** For a nonzero factor `t`, `|d * t| >= |d|`. */
  lemma MulAtLeast(d: int, t: int)
    requires t >= 1
    ensures d >= 0 ==> d * t >= d
    ensures d < 0 ==> d * t <= d
  {
    if t > 1 {
      MulAtLeast(d, t - 1);
      assert d * t == d * (t - 1) + d;
    }
  }

  /** Remainder of a natural number by a positive one, by repeated subtraction. */
  function NatRem(a: nat, m: int): (r: int)
    requires m > 0
    ensures 0 <= r < m
    decreases a
  {
    if a < m then a else NatRem(a - m, m)
  }

  /** The remainder by repeated subtraction is zero exactly on multiples. */
  lemma {:induction false} NatRemZeroIffDivides(a: nat, m: int)
    requires m > 0
    ensures NatRem(a, m) == 0 <==> Divides(m, a)
    decreases a
  {
    if a < m {
      if Divides(m, a) {
        var k :| a == m * k;
        if k >= 1 {
          MulAtLeast(m, k);
        } else if k <= -1 {
          MulAtLeast(m, -k);
          assert m * k == -(m * -k);
        }
      }
      assert a == 0 ==> a == m * 0;
    } else {
      NatRemZeroIffDivides(a - m, m);
      if Divides(m, a) {
        var k :| a == m * k;
        assert a - m == m * (k - 1);
      }
      if Divides(m, a - m) {
        var k :| a - m == m * k;
        assert a == m * (k + 1);
      }
    }
  }

  /** What the subtraction leaves behind differs from `a` by a multiple of `m`. */
  lemma {:induction false} NatRemCongruent(a: nat, m: int)
    requires m > 0
    ensures Divides(m, a - NatRem(a, m))
    decreases a
  {
    if a < m {
      assert a - NatRem(a, m) == m * 0;
    } else {
      NatRemCongruent(a - m, m);
      var k :| a - m - NatRem(a - m, m) == m * k;
      assert a - NatRem(a, m) == m * (k + 1);
    }
  }

  /** The remainder of C++'s `a % b`, whose quotient truncates toward zero. */
  function CRem(a: int, b: int): int
    requires b != 0
  {
    var m := NatRem(Abs(a), Abs(b));
    if a >= 0 then m else -m
  }

  /**
   * What `CRem` computes: it differs from `a` by a multiple of `b`, takes the sign of the
   * dividend, and its magnitude is below `|b|`. These three facts determine it (`CRemUnique`).
   */
  lemma CRemMeaning(a: int, b: int)
    requires b != 0
    ensures Divides(b, a - CRem(a, b))
    ensures -Abs(b) < CRem(a, b) < Abs(b)
    ensures a >= 0 ==> CRem(a, b) >= 0
    ensures a < 0 ==> CRem(a, b) <= 0
  {
    var m := NatRem(Abs(a), Abs(b));
    NatRemCongruent(Abs(a), Abs(b));
    DividesNegDividend(Abs(b), Abs(a) - m);
    DividesNegDivisor(b, a - CRem(a, b));
  }

  /** Any `r` with those three properties is the C++ remainder. */
  lemma CRemUnique(a: int, b: int, r: int)
    requires b != 0
    requires Divides(b, a - r) && -Abs(b) < r < Abs(b)
    requires (a >= 0 ==> r >= 0) && (a < 0 ==> r <= 0)
    ensures r == CRem(a, b)
  {
    var c := CRem(a, b);
    CRemMeaning(a, b);
    var k1 :| a - r == b * k1;
    var k2 :| a - c == b * k2;
    assert c - r == b * k1 - b * k2;
    assert b * k1 - b * k2 == b * (k1 - k2);
    SmallMultipleIsZero(b, k1 - k2);
  }

  /** The only multiple of `b` strictly between `-|b|` and `|b|` is zero. */
  lemma SmallMultipleIsZero(b: int, d: int)
    requires b != 0 && -Abs(b) < b * d < Abs(b)
    ensures d == 0
  {
    if d >= 1 {
      MulAtLeast(b, d);
    } else if d <= -1 {
      MulAtLeast(b, -d);
    }
  }

  /** The C++ remainder is zero exactly when `b` divides `a`, whatever the signs. */
  lemma CRemZeroIffDivides(a: int, b: int)
    requires b != 0
    ensures CRem(a, b) == 0 <==> Divides(b, a)
  {
    NatRemZeroIffDivides(Abs(a), Abs(b));
    DividesUpToSign(b, a);
  }

  /**
   * Only the zero-ness of a remainder matters to the rules, and there C++'s truncating `%`
   * and Dafny's Euclidean `%` agree.
   */
  lemma CRemZeroIffEuclideanZero(a: int, b: int)
    requires b != 0
    ensures CRem(a, b) == 0 <==> a % b == 0
  {
    CRemZeroIffDivides(a, b);
    ZeroRemainderIffDivides(b, a);
  }

  /** Divisibility does not depend on the signs of the operands. */
  lemma DividesUpToSign(d: int, n: int)
    ensures Divides(d, n) <==> Divides(Abs(d), Abs(n))
  {
    DividesNegDivisor(d, n);
    DividesNegDividend(d, n);
    DividesNegDivisor(d, -n);
    DividesNegDividend(-d, n);
  }

  lemma DividesNegDivisor(d: int, n: int)
    ensures Divides(d, n) <==> Divides(-d, n)
  {
    if Divides(d, n) {
      var k :| n == d * k;
      assert n == (-d) * (-k);
    }
    if Divides(-d, n) {
      var k :| n == (-d) * k;
      assert n == d * (-k);
    }
  }

  lemma DividesNegDividend(d: int, n: int)
    ensures Divides(d, n) <==> Divides(d, -n)
  {
    if Divides(d, n) {
      var k :| n == d * k;
      assert -n == d * (-k);
    }
    if Divides(d, -n) {
      var k :| -n == d * k;
      assert n == d * (-k);
    }
  }

  /**
   * `x` may be played after `last`: one of the two divides the other, and `x` is positive.
   * The C++ evaluates `x % last` first; when `x` is zero that remainder is zero, so the
   * short-circuit never reaches `last % 0`.
   */
  predicate Valid(last: int, x: int)
    requires last != 0
  {
    (CRem(x, last) == 0 || CRem(last, x) == 0) && x > 0
  }

  /** The legality rule in terms of divisibility alone. */
  lemma ValidMeaning(last: int, x: int)
    requires last != 0
    ensures Valid(last, x) <==> x > 0 && (Divides(last, x) || Divides(x, last))
  {
    CRemZeroIffDivides(x, last);
    if x != 0 {
      CRemZeroIffDivides(last, x);
    }
  }

  /** For positive operands the rule is symmetric. */
  lemma ValidSymmetric(a: int, b: int)
    requires a > 0 && b > 0
    ensures Valid(a, b) == Valid(b, a)
  {
  }

  /** Every positive number may follow itself. */
  lemma ValidReflexive(a: int)
    requires a > 0
    ensures Valid(a, a)
  {
    assert a == a * 1;
    ValidMeaning(a, a);
  }

  /** Every element is a positive number, so it may serve as the divisor `last`. */
  predicate Positive(s: seq<int>) {
    forall i :: 0 <= i < |s| ==> s[i] > 0
  }

  /** The numbers of `numbers` that may follow `last`, in their order in `numbers`. */
  function PossibleMoves(numbers: seq<int>, last: int): (moves: seq<int>)
    requires last != 0
    ensures Positive(moves)
  {
    if numbers == [] then []
    else if Valid(last, numbers[0]) then [numbers[0]] + PossibleMoves(numbers[1..], last)
    else PossibleMoves(numbers[1..], last)
  }

  /** There are never more possible moves than numbers left in the field. */
  lemma {:induction false} PossibleMovesLength(numbers: seq<int>, last: int)
    requires last != 0
    ensures |PossibleMoves(numbers, last)| <= |numbers|
  {
    if numbers != [] {
      PossibleMovesLength(numbers[1..], last);
    }
  }

  /** A number is a possible move exactly when it is in the field and may follow `last`. */
  lemma {:induction false} PossibleMovesMembers(numbers: seq<int>, last: int)
    requires last != 0
    ensures forall x :: x in PossibleMoves(numbers, last) <==> x in numbers && Valid(last, x)
  {
    if numbers != [] {
      PossibleMovesMembers(numbers[1..], last);
      assert numbers == [numbers[0]] + numbers[1..];
    }
  }

  /**
   * The filter keeps relative order: the possible moves of a field split in two are those of
   * the first part followed by those of the second. With the one-number case (a number is
   * kept exactly when it may follow `last`) this pins the result down.
   */
  lemma {:induction false} PossibleMovesConcat(a: seq<int>, b: seq<int>, last: int)
    requires last != 0
    ensures PossibleMoves(a + b, last) == PossibleMoves(a, last) + PossibleMoves(b, last)
  {
    if a == [] {
      assert a + b == b;
    } else {
      assert (a + b)[1..] == a[1..] + b;
      PossibleMovesConcat(a[1..], b, last);
    }
  }

  /**
   * The filter on a small field: after a 2, the 2 itself (if still in the field) and the
   * other even numbers may be played, the 3 may not.
   */
  lemma EvenFollowers()
    ensures PossibleMoves([2, 3, 4, 6], 2) == [2, 4, 6]
  {
  }

  /**
   * `get_possible_moves` (main.cpp:35-43): one pass over `numbers`, appending every legal
   * number to the result.
   */
  method GetPossibleMoves(numbers: seq<int>, lastNumber: int) returns (possibleMoves: seq<int>)
    requires lastNumber != 0
    ensures possibleMoves == PossibleMoves(numbers, lastNumber)
  {
    possibleMoves := [];
    var i := 0;
    while i < |numbers|
      invariant 0 <= i <= |numbers|
      invariant possibleMoves == PossibleMoves(numbers[..i], lastNumber)
    {
      var x := numbers[i];
      assert numbers[..i + 1] == numbers[..i] + [x];
      PossibleMovesConcat(numbers[..i], [x], lastNumber);
      if Valid(lastNumber, x) {
        possibleMoves := possibleMoves + [x];
      }
      i := i + 1;
    }
    assert numbers[..i] == numbers;
  }

  /** The check main.cpp:124 applies to a typed-in number: present in the field and legal. */
  function IsAcceptedMove(numbers: seq<int>, last: int, x: int): (ok: bool)
    requires last != 0
    ensures ok <==> x in PossibleMoves(numbers, last)
  {
    PossibleMovesMembers(numbers, last);
    x in numbers && Valid(last, x)
  }

  /** `std::list::remove`: every element equal to `x` is dropped, the others keep their order. */
  function Remove(s: seq<int>, x: int): seq<int>
  {
    if s == [] then []
    else if s[0] == x then Remove(s[1..], x) else [s[0]] + Remove(s[1..], x)
  }

  /** Removal never lengthens the list, and shortens it when `x` was there. */
  lemma {:induction false} RemoveLength(s: seq<int>, x: int)
    ensures |Remove(s, x)| <= |s|
    ensures x in s ==> |Remove(s, x)| < |s|
  {
    if s != [] {
      RemoveLength(s[1..], x);
      assert s == [s[0]] + s[1..];
    }
  }

  /** What survives `Remove`: every element other than `x`, and nothing else. */
  lemma {:induction false} RemoveMembers(s: seq<int>, x: int)
    ensures forall y :: y in Remove(s, x) <==> y in s && y != x
  {
    if s != [] {
      RemoveMembers(s[1..], x);
      assert s == [s[0]] + s[1..];
    }
  }

  ghost predicate Distinct(s: seq<int>) {
    forall i, j :: 0 <= i < j < |s| ==> s[i] != s[j]
  }

  /**
   * On a list without repetitions, removing the element at position `k` gives the list
   * with exactly that position cut out: one shorter, all other elements in order.
   */
  lemma RemoveFromDistinct(s: seq<int>, k: int)
    requires Distinct(s) && 0 <= k < |s|
    ensures Remove(s, s[k]) == s[..k] + s[k + 1..]
    ensures |Remove(s, s[k])| == |s| - 1
    ensures s[k] !in Remove(s, s[k])
    ensures Distinct(Remove(s, s[k]))
  {
    RemoveCutsOut(s, k);
    var r := s[..k] + s[k + 1..];
    forall i | 0 <= i < |r| ensures r[i] == s[if i < k then i else i + 1] {
    }
  }

  lemma {:induction false} RemoveCutsOut(s: seq<int>, k: int)
    requires Distinct(s) && 0 <= k < |s|
    ensures Remove(s, s[k]) == s[..k] + s[k + 1..]
  {
    if k == 0 {
      RemoveAbsent(s[1..], s[0]);
    } else {
      RemoveCutsOut(s[1..], k - 1);
      assert s[1..][k - 1] == s[k];
      assert s[..k] == [s[0]] + s[1..][..k - 1];
      assert s[k + 1..] == s[1..][k..];
    }
  }

  /** Removing a number that is not in the list leaves the list as it was. */
  lemma {:induction false} RemoveAbsent(s: seq<int>, x: int)
    requires x !in s
    ensures Remove(s, x) == s
  {
    if s != [] {
      RemoveAbsent(s[1..], x);
    }
  }
}
