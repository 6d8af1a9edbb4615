/** Move selection (MiniMaxAI.getXMove / getOMove): every empty cell is
    tried, searched to MaxDepth with the widest window, and the extremal move
    is kept; an equal value replaces the kept move when a coin comes up
    heads. The coin is an oracle: coins[i] is the outcome of the flip the
    source would make at cell i (it flips at most once per cell). */
module Selection {
  import opened Cells
  import opened Game
  import opened Evaluation
  import opened Search
  import opened Lines

  /** The engine's value for playing `isX`'s mark on cell i: the opponent
      then moves in a search MaxDepth plies deep with the widest window. */
  function MoveValue(rules: Rules, b: seq<char>, isX: bool, i: nat): int
    requires Fits(rules, b) && i < |b|
  {
    AlphaBeta(rules, b[i := Mark(isX)], MaxDepth, IntMin, IntMax, !isX)
  }

  /** A move value is the plain minimax value of the resulting board, and
      lies within 10 + MaxDepth of zero. */
  lemma MoveValueIsMinimax(rules: Rules, b: seq<char>, isX: bool, i: nat)
    requires Fits(rules, b) && i < |b|
    ensures MoveValue(rules, b, isX, i) == Minimax(rules, b[i := Mark(isX)], MaxDepth, !isX)
    ensures -(10 + MaxDepth) <= MoveValue(rules, b, isX, i) <= 10 + MaxDepth
  {
    AlphaBetaIsMinimax(rules, b[i := Mark(isX)], MaxDepth, !isX);
  }

  /** The selection loop from cell i with the move and value kept so far. */
  function SelectLoop(rules: Rules, b: seq<char>, coins: seq<bool>, isX: bool, i: nat,
                      bestMove: int, bestValue: int): int
    requires Fits(rules, b) && |coins| == |b| && i <= |b|
    decreases |b| - i
  {
    if i == |b| then bestMove
    else if b[i] != Empty then SelectLoop(rules, b, coins, isX, i + 1, bestMove, bestValue)
    else
      var moveValue := MoveValue(rules, b, isX, i);
      if (if isX then moveValue > bestValue else moveValue < bestValue) || (moveValue == bestValue && coins[i])
      then SelectLoop(rules, b, coins, isX, i + 1, i, moveValue)
      else SelectLoop(rules, b, coins, isX, i + 1, bestMove, bestValue)
  }

  /** The value the loop starts from: Integer.MIN_VALUE for X, MAX_VALUE for O. */
  function NoValue(isX: bool): int
  {
    if isX then IntMin else IntMax
  }

  /** Loop invariant: the kept move is -1 with the starting value, or an
      empty cell already visited whose value is kept with it. */
  predicate Kept(rules: Rules, b: seq<char>, isX: bool, i: nat, bestMove: int, bestValue: int)
    requires Fits(rules, b) && i <= |b|
  {
    if bestMove == -1 then bestValue == NoValue(isX)
    else 0 <= bestMove < i && b[bestMove] == Empty && bestValue == MoveValue(rules, b, isX, bestMove)
  }

  /** The loop ends with -1 only when nothing was kept and no empty cell is
      left; otherwise with an empty cell. */
  lemma {:induction false} SelectLoopFound(rules: Rules, b: seq<char>, coins: seq<bool>, isX: bool, i: nat,
                                           bestMove: int, bestValue: int)
    requires Fits(rules, b) && |coins| == |b| && i <= |b|
    requires Kept(rules, b, isX, i, bestMove, bestValue)
    ensures var m := SelectLoop(rules, b, coins, isX, i, bestMove, bestValue);
            && (m == -1 <==> bestMove == -1 && forall j :: i <= j < |b| ==> b[j] != Empty)
            && (m != -1 ==> 0 <= m < |b| && b[m] == Empty)
    decreases |b| - i
  {
    if i < |b| {
      if b[i] != Empty {
        SelectLoopFound(rules, b, coins, isX, i + 1, bestMove, bestValue);
      } else {
        var moveValue := MoveValue(rules, b, isX, i);
        MoveValueIsMinimax(rules, b, isX, i);
        if (if isX then moveValue > bestValue else moveValue < bestValue) || (moveValue == bestValue && coins[i]) {
          assert SelectLoop(rules, b, coins, isX, i, bestMove, bestValue)
                 == SelectLoop(rules, b, coins, isX, i + 1, i, moveValue);
          SelectLoopFound(rules, b, coins, isX, i + 1, i, moveValue);
        } else {
          assert SelectLoop(rules, b, coins, isX, i, bestMove, bestValue)
                 == SelectLoop(rules, b, coins, isX, i + 1, bestMove, bestValue);
          SelectLoopFound(rules, b, coins, isX, i + 1, bestMove, bestValue);
        }
      }
    }
  }

  /** A cell the loop ends with is at least as good as the value kept on
      entry and as every empty cell from i on. */
  lemma {:induction false} SelectLoopBest(rules: Rules, b: seq<char>, coins: seq<bool>, isX: bool, i: nat,
                                          bestMove: int, bestValue: int)
    requires Fits(rules, b) && |coins| == |b| && i <= |b|
    requires Kept(rules, b, isX, i, bestMove, bestValue)
    ensures var m := SelectLoop(rules, b, coins, isX, i, bestMove, bestValue);
            0 <= m < |b| ==>
              && AtLeastAsGood(isX, MoveValue(rules, b, isX, m), bestValue)
              && forall j :: i <= j < |b| && b[j] == Empty
                   ==> AtLeastAsGood(isX, MoveValue(rules, b, isX, m), MoveValue(rules, b, isX, j))
    decreases |b| - i
  {
    if i < |b| {
      if b[i] != Empty {
        SelectLoopBest(rules, b, coins, isX, i + 1, bestMove, bestValue);
      } else {
        var moveValue := MoveValue(rules, b, isX, i);
        if (if isX then moveValue > bestValue else moveValue < bestValue) || (moveValue == bestValue && coins[i]) {
          assert SelectLoop(rules, b, coins, isX, i, bestMove, bestValue)
                 == SelectLoop(rules, b, coins, isX, i + 1, i, moveValue);
          SelectLoopBest(rules, b, coins, isX, i + 1, i, moveValue);
        } else {
          assert SelectLoop(rules, b, coins, isX, i, bestMove, bestValue)
                 == SelectLoop(rules, b, coins, isX, i + 1, bestMove, bestValue);
          SelectLoopBest(rules, b, coins, isX, i + 1, bestMove, bestValue);
        }
      }
    }
  }

  /** MiniMaxAI.getXMove: -1 exactly when no cell is empty; otherwise, for
      every outcome of the coin flips, an empty cell whose move value is the
      largest over all empty cells. */
  function GetXMove(rules: Rules, b: seq<char>, coins: seq<bool>): (m: int)
    requires Fits(rules, b) && |coins| == |b|
    ensures m == -1 <==> Empty !in b
    ensures m != -1 ==> 0 <= m < |b| && b[m] == Empty
    ensures m != -1 ==> forall j :: 0 <= j < |b| && b[j] == Empty
                           ==> MoveValue(rules, b, true, j) <= MoveValue(rules, b, true, m)
  {
    SelectLoopFound(rules, b, coins, true, 0, -1, IntMin);
    SelectLoopBest(rules, b, coins, true, 0, -1, IntMin);
    SelectLoop(rules, b, coins, true, 0, -1, IntMin)
  }

  /** MiniMaxAI.getOMove: the mirror image, keeping the smallest value. */
  function GetOMove(rules: Rules, b: seq<char>, coins: seq<bool>): (m: int)
    requires Fits(rules, b) && |coins| == |b|
    ensures m == -1 <==> Empty !in b
    ensures m != -1 ==> 0 <= m < |b| && b[m] == Empty
    ensures m != -1 ==> forall j :: 0 <= j < |b| && b[j] == Empty
                           ==> MoveValue(rules, b, false, j) >= MoveValue(rules, b, false, m)
  {
    SelectLoopFound(rules, b, coins, false, 0, -1, IntMax);
    SelectLoopBest(rules, b, coins, false, 0, -1, IntMax);
    SelectLoop(rules, b, coins, false, 0, -1, IntMax)
  }

  /** A move no other empty cell beats for the side `isX`. */
  predicate IsBestMove(rules: Rules, b: seq<char>, isX: bool, m: nat)
    requires Fits(rules, b)
  {
    && m < |b| && b[m] == Empty
    && forall j :: 0 <= j < |b| && b[j] == Empty
         ==> AtLeastAsGood(isX, MoveValue(rules, b, isX, m), MoveValue(rules, b, isX, j))
  }

  /** The coin outcomes that favour cell m: heads there, tails elsewhere. */
  function HeadsOnlyAt(n: nat, m: nat): (coins: seq<bool>)
    ensures |coins| == n && forall j :: 0 <= j < n ==> (coins[j] <==> j == m)
  {
    seq(n, j => j == m)
  }

  lemma {:induction false} SelectKeepsBest(rules: Rules, b: seq<char>, isX: bool, m: nat, i: nat)
    requires Fits(rules, b) && m < i <= |b| && IsBestMove(rules, b, isX, m)
    ensures SelectLoop(rules, b, HeadsOnlyAt(|b|, m), isX, i, m, MoveValue(rules, b, isX, m)) == m
    decreases |b| - i
  {
    if i < |b| {
      SelectKeepsBest(rules, b, isX, m, i + 1);
    }
  }

  lemma {:induction false} SelectReachesBest(rules: Rules, b: seq<char>, isX: bool, m: nat, i: nat,
                                             bestMove: int, bestValue: int)
    requires Fits(rules, b) && i <= m && IsBestMove(rules, b, isX, m)
    requires Kept(rules, b, isX, i, bestMove, bestValue)
    ensures SelectLoop(rules, b, HeadsOnlyAt(|b|, m), isX, i, bestMove, bestValue) == m
    decreases |b| - i
  {
    var coins := HeadsOnlyAt(|b|, m);
    if i == m {
      SelectTakesBest(rules, b, isX, m, bestMove, bestValue);
    } else if b[i] != Empty {
      SelectReachesBest(rules, b, isX, m, i + 1, bestMove, bestValue);
    } else {
      var moveValue := MoveValue(rules, b, isX, i);
      assert !coins[i];
      if if isX then moveValue > bestValue else moveValue < bestValue {
        SelectReachesBest(rules, b, isX, m, i + 1, i, moveValue);
      } else {
        SelectReachesBest(rules, b, isX, m, i + 1, bestMove, bestValue);
      }
    }
  }

  lemma SelectTakesBest(rules: Rules, b: seq<char>, isX: bool, m: nat, bestMove: int, bestValue: int)
    requires Fits(rules, b) && IsBestMove(rules, b, isX, m)
    requires Kept(rules, b, isX, m, bestMove, bestValue)
    ensures SelectLoop(rules, b, HeadsOnlyAt(|b|, m), isX, m, bestMove, bestValue) == m
  {
    var coins := HeadsOnlyAt(|b|, m);
    var moveValue := MoveValue(rules, b, isX, m);
    MoveValueIsMinimax(rules, b, isX, m);
    assert coins[m];
    assert (if isX then moveValue > bestValue else moveValue < bestValue) || moveValue == bestValue;
    assert SelectLoop(rules, b, coins, isX, m, bestMove, bestValue)
           == SelectLoop(rules, b, coins, isX, m + 1, m, moveValue);
    SelectKeepsBest(rules, b, isX, m, m + 1);
  }

  /** The coin can reach every best move: a best move is returned when the
      flip at its cell comes up heads and every other flip tails. */
  lemma EveryBestMoveCanBeChosen(rules: Rules, b: seq<char>, isX: bool, m: nat)
    requires Fits(rules, b) && IsBestMove(rules, b, isX, m)
    ensures isX ==> GetXMove(rules, b, HeadsOnlyAt(|b|, m)) == m
    ensures !isX ==> GetOMove(rules, b, HeadsOnlyAt(|b|, m)) == m
  {
    SelectReachesBest(rules, b, isX, m, 0, -1, NoValue(isX));
  }

  /** Placing mark c cannot complete a line of another mark d. */
  lemma PlacingKeepsOthersLines(rules: Rules, b: seq<char>, i: nat, c: char, d: char)
    requires Fits(rules, b) && i < |b| && c != d
    ensures Fits(rules, b[i := c])
    ensures FullLine(rules, b[i := c], d) ==> FullLine(rules, b, d)
  {
    var w := rules.width;
    if FullLine(rules, b[i := c], d) {
      var l :| ValidLine(w, l) && forall k :: 0 <= k < w ==> b[i := c][CellAt(w, l, k)] == d;
      assert forall k :: 0 <= k < w ==> b[CellAt(w, l, k)] == d;
    }
  }

  /** Value of a move that completes a line for the mover: the board it
      leaves is decided, so the search stops at once and scores it
      +-(10 + MaxDepth). A move worth that much is such a move. */
  lemma WinningMoveValue(rules: Rules, b: seq<char>, isX: bool, i: nat)
    requires Fits(rules, b) && SumEncoded(rules) && rules.width <= 15
    requires forall j :: 0 <= j < |b| ==> IsCell(b[j])
    requires !FullLine(rules, b, Mark(!isX))
    requires i < |b| && b[i] == Empty
    ensures FullLine(rules, b[i := Mark(isX)], Mark(isX))
            <==> MoveValue(rules, b, isX, i) == (if isX then 10 + MaxDepth else -(10 + MaxDepth))
  {
    var b' := b[i := Mark(isX)];
    PlacingKeepsOthersLines(rules, b, i, Mark(isX), Mark(!isX));
    assert forall j :: 0 <= j < |b'| ==> IsCell(b'[j]);
    EvaluateDetectsFullLines(rules, b', MaxDepth);
    AlphaBetaRange(rules, b', MaxDepth, IntMin, IntMax, !isX);
  }

  /** If some empty cell completes a line for the mover, and the opponent
      holds no line yet, the selector returns a cell that completes a line,
      whatever the coins say. */
  lemma ImmediateWinIsChosen(rules: Rules, b: seq<char>, coins: seq<bool>, isX: bool, i: nat)
    requires Fits(rules, b) && |coins| == |b| && SumEncoded(rules) && rules.width <= 15
    requires forall j :: 0 <= j < |b| ==> IsCell(b[j])
    requires !FullLine(rules, b, Mark(!isX))
    requires i < |b| && b[i] == Empty && FullLine(rules, b[i := Mark(isX)], Mark(isX))
    ensures var m := if isX then GetXMove(rules, b, coins) else GetOMove(rules, b, coins);
            && 0 <= m < |b| && b[m] == Empty
            && FullLine(rules, b[m := Mark(isX)], Mark(isX))
  {
    var m := if isX then GetXMove(rules, b, coins) else GetOMove(rules, b, coins);
    WinningMoveValue(rules, b, isX, i);
    MoveValueIsMinimax(rules, b, isX, m);
    WinningMoveValue(rules, b, isX, m);
  }
}
