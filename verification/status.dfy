/** The game loop's win test (Main.checkStatus): the same line sums as the
    evaluation, compared against the set of the two sentinels. */
module Status {
  import opened Cells
  import opened Game
  import opened Lines
  import opened Evaluation

  /** Stepping j by w from 0 visits c * w for c = 0, 1, ...; it stays below
      w * w exactly while c < w, and j / w recovers c. */
  lemma Stride(w: nat, c: nat)
    requires w >= 1
    ensures c * w < w * w <==> c < w
    ensures (c * w) / w == c
    ensures (c + 1) * w == c * w + w
  {
    assert (c + 1) * w == c * w + w;
    if c < w {
      MulMonotone(c + 1, w, w);
    } else {
      MulMonotone(w, c, w);
    }
    var q, r := (c * w) / w, (c * w) % w;
    assert c * w == q * w + r && 0 <= r < w;
    assert (c - q) * w == r;
    MulSign(c - q, w);
  }

  /** A non-zero multiple of w is at least w away from zero. */
  lemma MulSign(a: int, w: int)
    requires w >= 1
    ensures a >= 1 ==> a * w >= w
    ensures a <= -1 ==> a * w <= -w
  {
    if a >= 1 {
      MulMonotone(1, a, w);
    } else if a <= -1 {
      MulMonotone(1, -a, w);
      assert a * w == -((-a) * w);
    }
  }

  /** The cells pass i reads at offset j = c * w: its row's c-th cell and its
      column's c-th cell. */
  lemma PassCells(w: nat, i: nat, c: nat, j: int)
    requires i < w && c < w && j == c * w
    ensures i * w + j / w == CellAt(w, Row(i), c)
    ensures i + j == CellAt(w, Col(i), c)
  {
    Stride(w, c);
  }

  /** True while the game may go on: no row, column or diagonal sums to one of
      the sentinels. Pass i sums row i through cells i * w + j / w and column i
      through cells i + j, for j = 0, w, 2w, ... below the board length, then
      adds cell i * w + i to one diagonal and i * w + w - 1 - i to the other. */
  method CheckStatus(rules: Rules, board: seq<char>) returns (active: bool)
    requires Fits(rules, board)
    ensures active <==> !AnyLineWon(rules, board)
    ensures forall depth :: depth >= 0 ==> (active <==> EvaluateBoard(rules, board, depth) == 0)
  {
    StepsCoverLines(rules, board);
    SameLineTest(rules, board);
    var w := rules.width;
    var rowSum, colSum := 0, 0;
    var leftToRightDiagonal, rightToLeftDiagonal := 0, 0;
    var i := 0;
    while i < w
      invariant 0 <= i <= w
      invariant rowSum == 0 && colSum == 0
      invariant leftToRightDiagonal == PartialSum(board, w, Diag, i)
      invariant rightToLeftDiagonal == PartialSum(board, w, Anti, i)
      invariant forall k :: 0 <= k < i ==> !StepDecides(rules, board, k)
    {
      rowSum, colSum := StridedSums(rules, board, i);
      if IsSentinel(rules, rowSum) || IsSentinel(rules, colSum) {
        assert StepDecides(rules, board, i);
        return false;
      }
      rowSum, colSum := 0, 0;
      DiagonalSteps(board, w, i);
      leftToRightDiagonal := leftToRightDiagonal + board[(i * w) + i] as int;
      rightToLeftDiagonal := rightToLeftDiagonal + board[(i * w) + (w - 1 - i)] as int;
      i := i + 1;
    }
    active := !IsSentinel(rules, leftToRightDiagonal) && !IsSentinel(rules, rightToLeftDiagonal);
    assert active <==> !StepDecides(rules, board, w);
  }

  /** Pass i's inner loop: j runs over 0, w, 2w, ... below the board length,
      adding cell i * w + j / w to the row sum and cell i + j to the column sum;
      the two sums are those of row i and column i. */
  method StridedSums(rules: Rules, board: seq<char>, i: nat) returns (rowSum: int, colSum: int)
    requires Fits(rules, board) && i < rules.width
    ensures rowSum == Sum(rules, board, Row(i)) && colSum == Sum(rules, board, Col(i))
  {
    var w := rules.width;
    rowSum, colSum := 0, 0;
    var j := 0;
    ghost var c: nat := 0;
    while j < |board|
      invariant c <= w && j == c * w
      invariant rowSum == PartialSum(board, w, Row(i), c)
      invariant colSum == PartialSum(board, w, Col(i), c)
      decreases w - c
    {
      Stride(w, c);
      PassCells(w, i, c, j);
      rowSum := rowSum + board[i * w + j / w] as int;
      colSum := colSum + board[i + j] as int;
      j := j + w;
      c := c + 1;
    }
    Stride(w, c);
    assert c == w;
  }

  /** The game loop's test and the engine's evaluation agree at every depth
      the search reaches. */
  lemma SameLineTest(rules: Rules, board: seq<char>)
    requires Fits(rules, board)
    ensures forall depth :: depth >= 0 ==> (AnyLineWon(rules, board) <==> EvaluateBoard(rules, board, depth) != 0)
  {
    forall depth | depth >= 0
      ensures AnyLineWon(rules, board) <==> EvaluateBoard(rules, board, depth) != 0
    {
      EvaluateNonZeroIffWon(rules, board, depth);
    }
  }

  lemma {:induction false} EmptyLineSum(b: seq<char>, w: nat, l: Line, n: nat)
    requires |b| == w * w && ValidLine(w, l) && n <= w
    requires forall i :: 0 <= i < |b| ==> b[i] == Empty
    ensures PartialSum(b, w, l, n) == 95 * n
  {
    if n > 0 {
      EmptyLineSum(b, w, l, n - 1);
    }
  }

  /** A freshly created game may go on: every line of the empty board sums to
      95 * w, which is neither sentinel, so no line is won and the board
      evaluates to 0 at every depth. */
  lemma NewGameUndecided(is4by4: bool, depth: int)
    ensures var g := CreateNewGame(is4by4);
            && !AnyLineWon(g.rules, g.board)
            && EvaluateBoard(g.rules, g.board, depth) == 0
  {
    var g := CreateNewGame(is4by4);
    var w := g.rules.width;
    forall l: Line | ValidLine(w, l)
      ensures !IsSentinel(g.rules, Sum(g.rules, g.board, l))
    {
      EmptyLineSum(g.board, w, l, w);
    }
    EvaluateNonZeroIffWon(g.rules, g.board, 0);
    EvaluateFollowsScanOrder(g.rules, g.board, 0);
    EvaluateFollowsScanOrder(g.rules, g.board, depth);
  }
}
