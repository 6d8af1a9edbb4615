/** Static evaluation of a board (MiniMaxAI.evaluateBoard): the line-sum win
    test, scored +(10 + depth) for X, -(10 + depth) for O and 0 otherwise. */
module Evaluation {
  import opened Cells
  import opened Game
  import opened Lines

  /** The evaluation loop from step `row` on: row `row` and column `row`
      are compared with X's sentinel, then O's; after the last row the two
      diagonals are compared the same way. */
  function ScanLines(rules: Rules, b: seq<char>, depth: int, row: nat): (r: int)
    requires Fits(rules, b) && row <= rules.width
    ensures r == 10 + depth || r == -10 - depth || r == 0
    decreases rules.width - row
  {
    if row == rules.width then
      if Sum(rules, b, Diag) == rules.xWin || Sum(rules, b, Anti) == rules.xWin then 10 + depth
      else if Sum(rules, b, Diag) == rules.oWin || Sum(rules, b, Anti) == rules.oWin then -10 - depth
      else 0
    else if Sum(rules, b, Row(row)) == rules.xWin || Sum(rules, b, Col(row)) == rules.xWin then 10 + depth
    else if Sum(rules, b, Row(row)) == rules.oWin || Sum(rules, b, Col(row)) == rules.oWin then -10 - depth
    else ScanLines(rules, b, depth, row + 1)
  }

  /** Value of a board at `depth` plies of remaining search. */
  function EvaluateBoard(rules: Rules, b: seq<char>, depth: int): (r: int)
    requires Fits(rules, b)
    ensures r == 10 + depth || r == -10 - depth || r == 0
  {
    ScanLines(rules, b, depth, 0)
  }

  /** The evaluation as the source's loops compute it: per row, the sums of
      that row and of the column with the same index are compared, and the two
      diagonals are accumulated one cell per row and compared at the end. */
  method EvaluateBoardLoop(rules: Rules, board: seq<char>, depth: int) returns (r: int)
    requires Fits(rules, board)
    ensures r == EvaluateBoard(rules, board, depth)
  {
    var w := rules.width;
    var tlbrDigSum, trblDigSum := 0, 0;
    var row := 0;
    while row < w
      invariant 0 <= row <= w
      invariant tlbrDigSum == PartialSum(board, w, Diag, row)
      invariant trblDigSum == PartialSum(board, w, Anti, row)
      invariant ScanLines(rules, board, depth, row) == EvaluateBoard(rules, board, depth)
    {
      var rowSum, colSum := RowAndColumnSums(rules, board, row);
      ScanStep(rules, board, depth, row);
      if rowSum == rules.xWin || colSum == rules.xWin {
        return 10 + depth;
      } else if rowSum == rules.oWin || colSum == rules.oWin {
        return -10 - depth;
      }
      DiagonalSteps(board, w, row);
      tlbrDigSum := tlbrDigSum + board[row * w + row] as int;
      trblDigSum := trblDigSum + board[row * w + (w - 1 - row)] as int;
      row := row + 1;
    }
    ScanStep(rules, board, depth, w);
    if tlbrDigSum == rules.xWin || trblDigSum == rules.xWin {
      r := 10 + depth;
    } else if tlbrDigSum == rules.oWin || trblDigSum == rules.oWin {
      r := -10 - depth;
    } else {
      r := 0;
    }
  }

  /** One step of the scan, stated with the step predicates of the lines. */
  lemma ScanStep(rules: Rules, b: seq<char>, depth: int, row: nat)
    requires Fits(rules, b) && row <= rules.width
    ensures ScanLines(rules, b, depth, row)
            == if StepHits(rules, b, row, rules.xWin) then 10 + depth
               else if StepHits(rules, b, row, rules.oWin) then -10 - depth
               else if row == rules.width then 0
               else ScanLines(rules, b, depth, row + 1)
  {
  }

  /** The first deciding step decides which of XFirst and OFirst holds. */
  lemma FirstStep(rules: Rules, b: seq<char>, row: nat)
    requires Fits(rules, b) && row <= rules.width
    requires forall j :: 0 <= j < row ==> !StepDecides(rules, b, j)
    requires StepDecides(rules, b, row)
    ensures XFirst(rules, b) <==> StepHits(rules, b, row, rules.xWin)
    ensures OFirst(rules, b) <==> !StepHits(rules, b, row, rules.xWin)
  {
    var w := rules.width;
    if k :| 0 <= k <= w && (forall j :: 0 <= j < k ==> !StepDecides(rules, b, j))
            && StepHits(rules, b, k, rules.xWin) {
      SingleFirstStep(rules, b, k, row);
    }
    if k :| 0 <= k <= w && (forall j :: 0 <= j < k ==> !StepDecides(rules, b, j))
            && !StepHits(rules, b, k, rules.xWin) && StepHits(rules, b, k, rules.oWin) {
      SingleFirstStep(rules, b, k, row);
    }
  }

  /** At most one step is the first deciding one. */
  lemma SingleFirstStep(rules: Rules, b: seq<char>, k: nat, row: nat)
    requires Fits(rules, b) && k <= rules.width && row <= rules.width
    requires forall j :: 0 <= j < row ==> !StepDecides(rules, b, j)
    requires forall j :: 0 <= j < k ==> !StepDecides(rules, b, j)
    requires StepDecides(rules, b, row) && StepDecides(rules, b, k)
    ensures k == row
  {
  }

  /** When no step decides, neither player is credited. */
  lemma NoStep(rules: Rules, b: seq<char>)
    requires Fits(rules, b)
    requires forall j :: 0 <= j <= rules.width ==> !StepDecides(rules, b, j)
    ensures !XFirst(rules, b) && !OFirst(rules, b)
  {
    var w := rules.width;
    if XFirst(rules, b) {
      var k :| 0 <= k <= w && (forall j :: 0 <= j < k ==> !StepDecides(rules, b, j))
               && StepHits(rules, b, k, rules.xWin);
      assert StepDecides(rules, b, k);
    }
    if OFirst(rules, b) {
      var k :| 0 <= k <= w && (forall j :: 0 <= j < k ==> !StepDecides(rules, b, j))
               && !StepHits(rules, b, k, rules.xWin) && StepHits(rules, b, k, rules.oWin);
      assert StepDecides(rules, b, k);
    }
  }

  /** The inner loop of the evaluation: the sums of row `row` (cells
      row * w + col) and of column `row` (cells row + col * w). */
  method RowAndColumnSums(rules: Rules, board: seq<char>, row: nat) returns (rowSum: int, colSum: int)
    requires Fits(rules, board) && row < rules.width
    ensures rowSum == Sum(rules, board, Row(row)) && colSum == Sum(rules, board, Col(row))
  {
    var w := rules.width;
    rowSum, colSum := 0, 0;
    var col := 0;
    while col < w
      invariant 0 <= col <= w
      invariant rowSum == PartialSum(board, w, Row(row), col)
      invariant colSum == PartialSum(board, w, Col(row), col)
    {
      LineCells(w, row, col);
      rowSum := rowSum + board[row * w + col] as int;
      colSum := colSum + board[row + col * w] as int;
      col := col + 1;
    }
  }

  lemma {:induction false} ScanFollowsSteps(rules: Rules, b: seq<char>, depth: int, row: nat)
    requires Fits(rules, b) && row <= rules.width
    requires forall j :: 0 <= j < row ==> !StepDecides(rules, b, j)
    ensures ScanLines(rules, b, depth, row)
            == if XFirst(rules, b) then 10 + depth else if OFirst(rules, b) then -10 - depth else 0
    decreases rules.width - row
  {
    ScanStep(rules, b, depth, row);
    if StepDecides(rules, b, row) {
      FirstStep(rules, b, row);
    } else if row == rules.width {
      NoStep(rules, b);
    } else {
      ScanFollowsSteps(rules, b, depth, row + 1);
    }
  }

  /** The evaluation credits the player whose sentinel line is met first in
      scan order: rows and columns before diagonals, and within a step X
      before O. The credited player does not depend on the depth. */
  lemma EvaluateFollowsScanOrder(rules: Rules, b: seq<char>, depth: int)
    requires Fits(rules, b)
    ensures !(XFirst(rules, b) && OFirst(rules, b))
    ensures EvaluateBoard(rules, b, depth)
            == if XFirst(rules, b) then 10 + depth else if OFirst(rules, b) then -10 - depth else 0
  {
    ScanFollowsSteps(rules, b, depth, 0);
    if XFirst(rules, b) && OFirst(rules, b) {
      var k :| 0 <= k <= rules.width && (forall j :: 0 <= j < k ==> !StepDecides(rules, b, j))
               && StepHits(rules, b, k, rules.xWin);
      FirstStep(rules, b, k);
    }
  }

  lemma {:induction false} ScanFindsAnyStep(rules: Rules, b: seq<char>, depth: int, row: nat)
    requires Fits(rules, b) && row <= rules.width && depth != -10
    ensures ScanLines(rules, b, depth, row) != 0
            <==> exists k :: row <= k <= rules.width && StepDecides(rules, b, k)
    decreases rules.width - row
  {
    ScanStep(rules, b, depth, row);
    if StepDecides(rules, b, row) {
      assert row <= row <= rules.width && StepDecides(rules, b, row);
    } else if row < rules.width {
      ScanFindsAnyStep(rules, b, depth, row + 1);
      if k :| row <= k <= rules.width && StepDecides(rules, b, k) {
        assert k != row;
      }
    }
  }

  /** For every depth the search reaches, the evaluation is non-zero exactly
      when some row, column or diagonal sums to a sentinel. */
  lemma EvaluateNonZeroIffWon(rules: Rules, b: seq<char>, depth: int)
    requires Fits(rules, b) && depth >= 0
    ensures EvaluateBoard(rules, b, depth) != 0 <==> AnyLineWon(rules, b)
  {
    ScanFindsAnyStep(rules, b, depth, 0);
    StepsCoverLines(rules, b);
  }

  /** A decided board is worth strictly more, in magnitude, when it is met with
      more search depth left, and the sign does not change with the depth. */
  lemma DepthWeighting(rules: Rules, b: seq<char>, d1: int, d2: int)
    requires Fits(rules, b) && 0 <= d2 < d1
    ensures EvaluateBoard(rules, b, d2) > 0 <==> EvaluateBoard(rules, b, d1) > 0
    ensures EvaluateBoard(rules, b, d2) < 0 <==> EvaluateBoard(rules, b, d1) < 0
    ensures EvaluateBoard(rules, b, d2) > 0 ==> EvaluateBoard(rules, b, d1) > EvaluateBoard(rules, b, d2)
    ensures EvaluateBoard(rules, b, d2) < 0 ==> EvaluateBoard(rules, b, d1) < EvaluateBoard(rules, b, d2)
  {
    EvaluateFollowsScanOrder(rules, b, d1);
    EvaluateFollowsScanOrder(rules, b, d2);
  }

  /** On boards of X, O and '_' cells with the sum-encoded sentinels, a
      positive evaluation means X holds a whole line, a negative one that O
      does, and the evaluation is non-zero exactly when one of them does. */
  lemma EvaluateDetectsFullLines(rules: Rules, b: seq<char>, depth: int)
    requires Fits(rules, b) && SumEncoded(rules) && rules.width <= 15 && depth >= 0
    requires forall i :: 0 <= i < |b| ==> IsCell(b[i])
    ensures EvaluateBoard(rules, b, depth) > 0 ==> FullLine(rules, b, X)
    ensures EvaluateBoard(rules, b, depth) < 0 ==> FullLine(rules, b, O)
    ensures EvaluateBoard(rules, b, depth) != 0 <==> FullLine(rules, b, X) || FullLine(rules, b, O)
  {
    var w := rules.width;
    EvaluateFollowsScanOrder(rules, b, depth);
    EvaluateNonZeroIffWon(rules, b, depth);
    if XFirst(rules, b) {
      var k :| 0 <= k <= w && (forall j :: 0 <= j < k ==> !StepDecides(rules, b, j))
               && StepHits(rules, b, k, rules.xWin);
      var l := StepLine(rules, b, k, rules.xWin);
      SentinelMeansFullLine(rules, b, l);
    }
    if OFirst(rules, b) {
      var k :| 0 <= k <= w && (forall j :: 0 <= j < k ==> !StepDecides(rules, b, j))
               && !StepHits(rules, b, k, rules.xWin) && StepHits(rules, b, k, rules.oWin);
      var l := StepLine(rules, b, k, rules.oWin);
      SentinelMeansFullLine(rules, b, l);
    }
    if FullLine(rules, b, X) {
      var l :| ValidLine(w, l) && forall k :: 0 <= k < w ==> b[CellAt(w, l, k)] == X;
      SentinelMeansFullLine(rules, b, l);
    }
    if FullLine(rules, b, O) {
      var l :| ValidLine(w, l) && forall k :: 0 <= k < w ==> b[CellAt(w, l, k)] == O;
      SentinelMeansFullLine(rules, b, l);
    }
  }
}
