/** The search as the source runs it: on one shared mutable board, placing a
    trial mark, recursing and undoing the mark again on every path, including
    the pruning return. Each method is proved to leave the board as it found
    it and to compute the pure function of the Search and Selection modules. */
module Engine {
  import opened Cells
  import opened Game
  import opened Evaluation
  import opened Search
  import Selection

  /** MiniMaxAI.miniMax over a shared board. */
  method MiniMax(rules: Rules, board: array<char>, depth: int, alpha: int, beta: int, isMax: bool) returns (v: int)
    requires Fits(rules, board[..])
    modifies board
    ensures board[..] == old(board[..])
    ensures v == AlphaBeta(rules, old(board[..]), depth, alpha, beta, isMax)
    ensures Terminal(rules, old(board[..]), depth) ==> v == EvaluateBoard(rules, old(board[..]), depth)
    decreases Empties(board[..]), 1
  {
    ghost var b0 := board[..];
    var boardVal := EvaluateBoardLoop(rules, board[..], depth);
    var anyMovesAvailable := AnyMovesAvailable(board);
    if boardVal != 0 || depth == 0 || !anyMovesAvailable {
      return boardVal;
    }
    assert !Terminal(rules, b0, depth);
    if isMax {
      v := MaximiseInPlace(rules, board, depth, alpha, beta);
    } else {
      v := MinimiseInPlace(rules, board, depth, alpha, beta);
    }
  }

  /** The scan for an empty cell that opens MiniMaxAI.miniMax; it stops at
      the first one. */
  method AnyMovesAvailable(board: array<char>) returns (found: bool)
    ensures found <==> Empty in board[..]
  {
    found := false;
    var k := 0;
    while k < board.Length
      invariant 0 <= k <= board.Length
      invariant forall j :: 0 <= j < k ==> board[j] != Empty
    {
      if board[k] == Empty {
        assert board[..][k] == Empty;
        return true;
      }
      k := k + 1;
    }
  }

  /** The maximising branch of MiniMaxAI.miniMax: X is placed on each empty
      cell in turn, searched and taken back, until alpha meets beta. */
  method MaximiseInPlace(rules: Rules, board: array<char>, depth: int, alpha: int, beta: int) returns (highestVal: int)
    requires Fits(rules, board[..])
    modifies board
    ensures board[..] == old(board[..])
    ensures highestVal == MaxLoop(rules, old(board[..]), depth, alpha, beta, 0, IntMin)
    decreases Empties(board[..]), 0
  {
    ghost var b0 := board[..];
    highestVal := IntMin;
    var a := alpha;
    for i := 0 to board.Length
      invariant board[..] == b0
      invariant MaxLoop(rules, b0, depth, a, beta, i, highestVal) == MaxLoop(rules, b0, depth, alpha, beta, 0, IntMin)
    {
      if board[i] != Empty {
        continue;
      }
      board[i] := X;
      Place(rules, b0, i, X);
      var childVal := MiniMax(rules, board, depth - 1, a, beta, false);
      highestVal := Max(highestVal, childVal);
      board[i] := Empty;
      assert board[..] == b0[i := X][i := Empty];
      a := Max(a, highestVal);
      if a >= beta {
        return;
      }
    }
  }

  /** The minimising branch of MiniMaxAI.miniMax: O is placed on each empty
      cell in turn, searched and taken back, until beta meets alpha. */
  method MinimiseInPlace(rules: Rules, board: array<char>, depth: int, alpha: int, beta: int) returns (lowestVal: int)
    requires Fits(rules, board[..])
    modifies board
    ensures board[..] == old(board[..])
    ensures lowestVal == MinLoop(rules, old(board[..]), depth, alpha, beta, 0, IntMax)
    decreases Empties(board[..]), 0
  {
    ghost var b0 := board[..];
    lowestVal := IntMax;
    var b := beta;
    for i := 0 to board.Length
      invariant board[..] == b0
      invariant MinLoop(rules, b0, depth, alpha, b, i, lowestVal) == MinLoop(rules, b0, depth, alpha, beta, 0, IntMax)
    {
      if board[i] != Empty {
        continue;
      }
      board[i] := O;
      Place(rules, b0, i, O);
      var childVal := MiniMax(rules, board, depth - 1, alpha, b, true);
      lowestVal := Min(lowestVal, childVal);
      board[i] := Empty;
      assert board[..] == b0[i := O][i := Empty];
      b := Min(b, lowestVal);
      if b <= alpha {
        return;
      }
    }
  }

  /** MiniMaxAI.getXMove over a shared board, with coins[i] standing for the
      coin flip the source makes at cell i. */
  method GetXMove(rules: Rules, board: array<char>, coins: seq<bool>) returns (bestMove: int)
    requires Fits(rules, board[..]) && |coins| == board.Length
    modifies board
    ensures board[..] == old(board[..])
    ensures bestMove == Selection.GetXMove(rules, old(board[..]), coins)
  {
    bestMove := SelectInPlace(rules, board, coins, true);
  }

  /** MiniMaxAI.getOMove over a shared board. */
  method GetOMove(rules: Rules, board: array<char>, coins: seq<bool>) returns (bestMove: int)
    requires Fits(rules, board[..]) && |coins| == board.Length
    modifies board
    ensures board[..] == old(board[..])
    ensures bestMove == Selection.GetOMove(rules, old(board[..]), coins)
  {
    bestMove := SelectInPlace(rules, board, coins, false);
  }

  /** The loop the two selectors share, X's with isX and O's without. */
  method SelectInPlace(rules: Rules, board: array<char>, coins: seq<bool>, isX: bool) returns (bestMove: int)
    requires Fits(rules, board[..]) && |coins| == board.Length
    modifies board
    ensures board[..] == old(board[..])
    ensures bestMove == Selection.SelectLoop(rules, old(board[..]), coins, isX, 0, -1, Selection.NoValue(isX))
  {
    ghost var b0 := board[..];
    bestMove := -1;
    var bestValue := Selection.NoValue(isX);
    for i := 0 to board.Length
      invariant board[..] == b0
      invariant Selection.SelectLoop(rules, b0, coins, isX, i, bestMove, bestValue)
                == Selection.SelectLoop(rules, b0, coins, isX, 0, -1, Selection.NoValue(isX))
    {
      if board[i] != Empty {
        continue;
      }
      board[i] := Mark(isX);
      var moveValue := MiniMax(rules, board, MaxDepth, IntMin, IntMax, !isX);
      board[i] := Empty;
      assert board[..] == b0[i := Mark(isX)][i := Empty];
      if (if isX then moveValue > bestValue else moveValue < bestValue) || (moveValue == bestValue && coins[i]) {
        bestMove := i;
        bestValue := moveValue;
      }
    }
  }
}
