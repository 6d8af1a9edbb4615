/** The game settings the engine reads: the board width and the two line
    sums that mean "won", set up once per new game. */
module Game {
  import opened Cells

  /** Width of the board and the win sentinels for X and O. The source keeps
      these as global fields; here they travel as an explicit value. */
  datatype Rules = Rules(width: nat, xWin: int, oWin: int)

  /** A fresh game: its rules and an all-empty board. */
  datatype NewGame = NewGame(rules: Rules, board: seq<char>)

  /** The board belongs to the rules: a non-empty square of side `width`. */
  predicate Fits(rules: Rules, b: seq<char>)
  {
    rules.width >= 1 && |b| == rules.width * rules.width
  }

  /** The sentinels are the sums of `width` copies of a mark's code. */
  predicate SumEncoded(rules: Rules)
  {
    rules.xWin == X as int * rules.width && rules.oWin == O as int * rules.width
  }

  /** Is `s` one of the two win sentinels (the source's `winConditions.contains`). */
  predicate IsSentinel(rules: Rules, s: int)
  {
    s == rules.xWin || s == rules.oWin
  }

  /** The non-GUI part of starting a game: pick the width, derive the two
      sentinels and lay out an empty board of width * width cells. */
  function CreateNewGame(is4by4: bool): (g: NewGame)
    ensures g.rules.width == (if is4by4 then 4 else 3)
    ensures Fits(g.rules, g.board)
    ensures forall i :: 0 <= i < |g.board| ==> g.board[i] == Empty
    ensures Empties(g.board) == |g.board|
    ensures SumEncoded(g.rules)
  {
    var w := if is4by4 then 4 else 3;
    var board := seq(w * w, _ => Empty);
    AllEmptyCount(board);
    NewGame(Rules(w, X as int * w, O as int * w), board)
  }

  /** A board whose every cell is empty has as many empty cells as cells. */
  lemma {:induction false} AllEmptyCount(b: seq<char>)
    requires forall i :: 0 <= i < |b| ==> b[i] == Empty
    ensures multiset(b)[Empty] == |b|
  {
    if |b| > 0 {
      assert b == b[..|b| - 1] + [b[|b| - 1]];
      AllEmptyCount(b[..|b| - 1]);
    }
  }
}
