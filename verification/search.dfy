/** The game-tree search of MiniMaxAI.miniMax: a depth-limited minimax with
    alpha-beta pruning, and the plain minimax it must agree with. Both are
    pure functions of the board; the in-place place/undo version lives in the
    Engine module and is proved equal to AlphaBeta. */
module Search {
  import opened Cells
  import opened Game
  import opened Evaluation

  /** Java's Integer.MIN_VALUE and Integer.MAX_VALUE, the initial "worst
      so far" of the maximising and minimising loops. */
  const IntMin: int := -0x8000_0000
  const IntMax: int := 0x7fff_ffff

  /** MiniMaxAI.MAX_DEPTH, the depth every move is searched to. */
  const MaxDepth: int := 12

  function Max(a: int, b: int): int
  {
    if a >= b then a else b
  }

  function Min(a: int, b: int): int
  {
    if a <= b then a else b
  }

  /** Depths whose scores 10 + depth fit a Java int, as every depth from 0
      to MaxDepth does. */
  predicate ScoreFits(depth: int)
  {
    0 <= depth && 10 + depth <= IntMax
  }

  /** A node is a leaf when the board is decided, no depth is left or no
      cell is empty; its value is then the static evaluation. */
  predicate Terminal(rules: Rules, b: seq<char>, depth: int)
    requires Fits(rules, b)
  {
    EvaluateBoard(rules, b, depth) != 0 || depth == 0 || Empty !in b
  }

  /** Placing a mark on an empty cell leaves one empty cell fewer. */
  lemma Place(rules: Rules, b: seq<char>, i: int, m: char)
    requires Fits(rules, b) && 0 <= i < |b| && b[i] == Empty && m != Empty
    ensures Fits(rules, b[i := m])
    ensures Empties(b[i := m]) == Empties(b) - 1
  {
  }

  // ---------------------------------------------------------------------
  // Plain minimax: every empty cell is tried, nothing is pruned.
  // ---------------------------------------------------------------------

  /** Value of the board for the side to move (X when isMax), searched
      `depth` plies deep without pruning. */
  function Minimax(rules: Rules, b: seq<char>, depth: int, isMax: bool): int
    requires Fits(rules, b)
    decreases Empties(b), 1
  {
    if Terminal(rules, b, depth) then EvaluateBoard(rules, b, depth)
    else MinimaxLoop(rules, b, depth, isMax, 0, if isMax then IntMin else IntMax)
  }

  /** The loop over cells i, i + 1, ... of a node, folding the children's
      values into `best` by max (X to move) or min (O to move). */
  function MinimaxLoop(rules: Rules, b: seq<char>, depth: int, isMax: bool, i: nat, best: int): int
    requires Fits(rules, b) && i <= |b|
    decreases Empties(b), 0, |b| - i
  {
    if i == |b| then best
    else if b[i] != Empty then MinimaxLoop(rules, b, depth, isMax, i + 1, best)
    else
      Place(rules, b, i, Mark(isMax));
      var v := Minimax(rules, b[i := Mark(isMax)], depth - 1, !isMax);
      MinimaxLoop(rules, b, depth, isMax, i + 1, if isMax then Max(best, v) else Min(best, v))
  }

  // ---------------------------------------------------------------------
  // Alpha-beta: the source's loops, with pruning.
  // ---------------------------------------------------------------------

  /** MiniMaxAI.miniMax as a function of the board contents. */
  function AlphaBeta(rules: Rules, b: seq<char>, depth: int, alpha: int, beta: int, isMax: bool): int
    requires Fits(rules, b)
    decreases Empties(b), 1
  {
    if Terminal(rules, b, depth) then EvaluateBoard(rules, b, depth)
    else if isMax then MaxLoop(rules, b, depth, alpha, beta, 0, IntMin)
    else MinLoop(rules, b, depth, alpha, beta, 0, IntMax)
  }

  /** The maximising loop from cell i: X is tried on each empty cell, the
      running highest value raises alpha, and the loop stops with the running
      highest value once alpha >= beta. */
  function MaxLoop(rules: Rules, b: seq<char>, depth: int, alpha: int, beta: int, i: nat, highestVal: int): (r: int)
    requires Fits(rules, b) && i <= |b|
    ensures r >= highestVal
    decreases Empties(b), 0, |b| - i
  {
    if i == |b| then highestVal
    else if b[i] != Empty then MaxLoop(rules, b, depth, alpha, beta, i + 1, highestVal)
    else
      Place(rules, b, i, X);
      var highest := Max(highestVal, AlphaBeta(rules, b[i := X], depth - 1, alpha, beta, false));
      var alpha' := Max(alpha, highest);
      if alpha' >= beta then highest
      else MaxLoop(rules, b, depth, alpha', beta, i + 1, highest)
  }

  /** The minimising loop from cell i: O is tried on each empty cell, the
      running lowest value lowers beta, and the loop stops with the running
      lowest value once beta <= alpha. */
  function MinLoop(rules: Rules, b: seq<char>, depth: int, alpha: int, beta: int, i: nat, lowestVal: int): (r: int)
    requires Fits(rules, b) && i <= |b|
    ensures r <= lowestVal
    decreases Empties(b), 0, |b| - i
  {
    if i == |b| then lowestVal
    else if b[i] != Empty then MinLoop(rules, b, depth, alpha, beta, i + 1, lowestVal)
    else
      Place(rules, b, i, O);
      var lowest := Min(lowestVal, AlphaBeta(rules, b[i := O], depth - 1, alpha, beta, true));
      var beta' := Min(beta, lowest);
      if beta' <= alpha then lowest
      else MinLoop(rules, b, depth, alpha, beta', i + 1, lowest)
  }

  // ---------------------------------------------------------------------
  // Alpha-beta agrees with plain minimax.
  // ---------------------------------------------------------------------

  /** The fail-soft relation between a pruned result r and the true value v
      for the window (alpha, beta): inside the window they agree, a fail low
      bounds v from above and a fail high bounds it from below. */
  predicate FailSoft(r: int, v: int, alpha: int, beta: int)
  {
    && (r <= alpha ==> v <= r)
    && (r >= beta ==> v >= r)
    && (alpha < r < beta ==> v == r)
  }

  /** Folding more children never lowers a running max nor raises a
      running min. */
  lemma {:induction false} MinimaxLoopMonotone(rules: Rules, b: seq<char>, depth: int, isMax: bool, i: nat, best: int)
    requires Fits(rules, b) && i <= |b|
    ensures isMax ==> MinimaxLoop(rules, b, depth, isMax, i, best) >= best
    ensures !isMax ==> MinimaxLoop(rules, b, depth, isMax, i, best) <= best
    decreases |b| - i
  {
    if i < |b| {
      if b[i] != Empty {
        MinimaxLoopMonotone(rules, b, depth, isMax, i + 1, best);
      } else {
        Place(rules, b, i, Mark(isMax));
        var v := Minimax(rules, b[i := Mark(isMax)], depth - 1, !isMax);
        MinimaxLoopMonotone(rules, b, depth, isMax, i + 1, if isMax then Max(best, v) else Min(best, v));
      }
    }
  }

  /** Alpha-beta is fail-soft with respect to plain minimax for every
      non-empty window. */
  lemma {:induction false} AlphaBetaFailSoft(rules: Rules, b: seq<char>, depth: int, alpha: int, beta: int, isMax: bool)
    requires Fits(rules, b) && alpha < beta
    ensures FailSoft(AlphaBeta(rules, b, depth, alpha, beta, isMax), Minimax(rules, b, depth, isMax), alpha, beta)
    decreases Empties(b), 1
  {
    if !Terminal(rules, b, depth) {
      if isMax {
        MaxLoopFailSoft(rules, b, depth, alpha, alpha, beta, 0, IntMin, IntMin);
      } else {
        MinLoopFailSoft(rules, b, depth, alpha, beta, beta, 0, IntMax, IntMax);
      }
    }
  }

  /** Loop invariant of the maximising loop: `alpha` has only been raised to
      the running highest value, which bounds the unpruned running max and
      equals it once it exceeds the entry alpha0. */
  lemma {:induction false} MaxLoopFailSoft(rules: Rules, b: seq<char>, depth: int, alpha0: int, alpha: int, beta: int,
                                           i: nat, best: int, highest: int)
    requires Fits(rules, b) && i <= |b|
    requires alpha0 <= alpha < beta
    requires alpha == alpha0 || alpha == highest
    requires best <= highest
    requires highest > alpha0 ==> best == highest
    ensures FailSoft(MaxLoop(rules, b, depth, alpha, beta, i, highest),
                     MinimaxLoop(rules, b, depth, true, i, best), alpha0, beta)
    decreases Empties(b), 0, |b| - i
  {
    if i < |b| {
      if b[i] != Empty {
        MaxLoopFailSoft(rules, b, depth, alpha0, alpha, beta, i + 1, best, highest);
      } else {
        Place(rules, b, i, X);
        var child := b[i := X];
        var r := AlphaBeta(rules, child, depth - 1, alpha, beta, false);
        var c := Minimax(rules, child, depth - 1, false);
        AlphaBetaFailSoft(rules, child, depth - 1, alpha, beta, false);
        var highest' := Max(highest, r);
        var alpha' := Max(alpha, highest');
        if alpha' >= beta {
          MinimaxLoopMonotone(rules, b, depth, true, i + 1, Max(best, c));
        } else {
          MaxLoopFailSoft(rules, b, depth, alpha0, alpha', beta, i + 1, Max(best, c), highest');
        }
      }
    }
  }

  /** Loop invariant of the minimising loop, the mirror image of
      MaxLoopFailSoft with beta lowered towards the running lowest value. */
  lemma {:induction false} MinLoopFailSoft(rules: Rules, b: seq<char>, depth: int, alpha: int, beta0: int, beta: int,
                                           i: nat, best: int, lowest: int)
    requires Fits(rules, b) && i <= |b|
    requires alpha < beta <= beta0
    requires beta == beta0 || beta == lowest
    requires best >= lowest
    requires lowest < beta0 ==> best == lowest
    ensures FailSoft(MinLoop(rules, b, depth, alpha, beta, i, lowest),
                     MinimaxLoop(rules, b, depth, false, i, best), alpha, beta0)
    decreases Empties(b), 0, |b| - i
  {
    if i < |b| {
      if b[i] != Empty {
        MinLoopFailSoft(rules, b, depth, alpha, beta0, beta, i + 1, best, lowest);
      } else {
        Place(rules, b, i, O);
        var child := b[i := O];
        var r := AlphaBeta(rules, child, depth - 1, alpha, beta, true);
        var c := Minimax(rules, child, depth - 1, true);
        AlphaBetaFailSoft(rules, child, depth - 1, alpha, beta, true);
        var lowest' := Min(lowest, r);
        var beta' := Min(beta, lowest');
        if beta' <= alpha {
          MinimaxLoopMonotone(rules, b, depth, false, i + 1, Min(best, c));
        } else {
          MinLoopFailSoft(rules, b, depth, alpha, beta0, beta', i + 1, Min(best, c), lowest');
        }
      }
    }
  }

  // ---------------------------------------------------------------------
  // Score bounds.
  // ---------------------------------------------------------------------

  /** A search value lies within 10 + depth of zero whatever the window: a
      leaf is a static evaluation, and an inner node explores at least one
      empty cell, so the Integer.MIN_VALUE / MAX_VALUE starting values never
      come back. */
  lemma {:induction false} AlphaBetaRange(rules: Rules, b: seq<char>, depth: int, alpha: int, beta: int, isMax: bool)
    requires Fits(rules, b) && ScoreFits(depth)
    ensures -(10 + depth) <= AlphaBeta(rules, b, depth, alpha, beta, isMax) <= 10 + depth
    ensures !Terminal(rules, b, depth) ==> -(9 + depth) <= AlphaBeta(rules, b, depth, alpha, beta, isMax) <= 9 + depth
    decreases Empties(b), 1
  {
    if !Terminal(rules, b, depth) {
      assert exists j :: 0 <= j < |b| && b[j] == Empty;
      if isMax {
        MaxLoopRange(rules, b, depth, alpha, beta, 0, IntMin);
      } else {
        MinLoopRange(rules, b, depth, alpha, beta, 0, IntMax);
      }
    }
  }

  lemma {:induction false} MaxLoopRange(rules: Rules, b: seq<char>, depth: int, alpha: int, beta: int, i: nat, highest: int)
    requires Fits(rules, b) && i <= |b| && ScoreFits(depth) && depth != 0
    requires || (highest == IntMin && exists j :: i <= j < |b| && b[j] == Empty)
             || -(9 + depth) <= highest <= 9 + depth
    ensures -(9 + depth) <= MaxLoop(rules, b, depth, alpha, beta, i, highest) <= 9 + depth
    decreases Empties(b), 0, |b| - i
  {
    if i < |b| {
      if b[i] != Empty {
        MaxLoopRange(rules, b, depth, alpha, beta, i + 1, highest);
      } else {
        Place(rules, b, i, X);
        AlphaBetaRange(rules, b[i := X], depth - 1, alpha, beta, false);
        var highest' := Max(highest, AlphaBeta(rules, b[i := X], depth - 1, alpha, beta, false));
        if Max(alpha, highest') < beta {
          MaxLoopRange(rules, b, depth, Max(alpha, highest'), beta, i + 1, highest');
        }
      }
    }
  }

  lemma {:induction false} MinLoopRange(rules: Rules, b: seq<char>, depth: int, alpha: int, beta: int, i: nat, lowest: int)
    requires Fits(rules, b) && i <= |b| && ScoreFits(depth) && depth != 0
    requires || (lowest == IntMax && exists j :: i <= j < |b| && b[j] == Empty)
             || -(9 + depth) <= lowest <= 9 + depth
    ensures -(9 + depth) <= MinLoop(rules, b, depth, alpha, beta, i, lowest) <= 9 + depth
    decreases Empties(b), 0, |b| - i
  {
    if i < |b| {
      if b[i] != Empty {
        MinLoopRange(rules, b, depth, alpha, beta, i + 1, lowest);
      } else {
        Place(rules, b, i, O);
        AlphaBetaRange(rules, b[i := O], depth - 1, alpha, beta, true);
        var lowest' := Min(lowest, AlphaBeta(rules, b[i := O], depth - 1, alpha, beta, true));
        if alpha < Min(beta, lowest') {
          MinLoopRange(rules, b, depth, alpha, Min(beta, lowest'), i + 1, lowest');
        }
      }
    }
  }

  /** Called with the widest window, as every move selection calls it,
      alpha-beta returns exactly the plain minimax value, and that value is
      within 10 + depth of zero. */
  lemma AlphaBetaIsMinimax(rules: Rules, b: seq<char>, depth: int, isMax: bool)
    requires Fits(rules, b) && ScoreFits(depth)
    ensures AlphaBeta(rules, b, depth, IntMin, IntMax, isMax) == Minimax(rules, b, depth, isMax)
    ensures -(10 + depth) <= Minimax(rules, b, depth, isMax) <= 10 + depth
  {
    AlphaBetaFailSoft(rules, b, depth, IntMin, IntMax, isMax);
    AlphaBetaRange(rules, b, depth, IntMin, IntMax, isMax);
  }

  // ---------------------------------------------------------------------
  // What a minimax value means.
  // ---------------------------------------------------------------------

  /** Value of playing the side-to-move's mark on cell i and searching on. */
  function ChildValue(rules: Rules, b: seq<char>, depth: int, isMax: bool, i: nat): int
    requires Fits(rules, b) && i < |b|
  {
    Minimax(rules, b[i := Mark(isMax)], depth - 1, !isMax)
  }

  /** `a` is at least as good as `c` for the side to move. */
  predicate AtLeastAsGood(isMax: bool, a: int, c: int)
  {
    if isMax then a >= c else a <= c
  }

  lemma {:induction false} MinimaxLoopPicksChild(rules: Rules, b: seq<char>, depth: int, isMax: bool, i: nat, best: int)
    requires Fits(rules, b) && i <= |b|
    ensures var r := MinimaxLoop(rules, b, depth, isMax, i, best);
            && AtLeastAsGood(isMax, r, best)
            && (r == best || exists j :: i <= j < |b| && b[j] == Empty && r == ChildValue(rules, b, depth, isMax, j))
            && forall j :: i <= j < |b| && b[j] == Empty ==> AtLeastAsGood(isMax, r, ChildValue(rules, b, depth, isMax, j))
    decreases |b| - i
  {
    if i < |b| {
      if b[i] != Empty {
        MinimaxLoopPicksChild(rules, b, depth, isMax, i + 1, best);
      } else {
        var v := ChildValue(rules, b, depth, isMax, i);
        MinimaxLoopPicksChild(rules, b, depth, isMax, i + 1, if isMax then Max(best, v) else Min(best, v));
      }
    }
  }

  /** The minimax value of an undecided node with depth left and an empty
      cell is the value of one of its moves, and no move is better for the
      side to move; a leaf is worth its static evaluation. */
  lemma MinimaxIsBestMove(rules: Rules, b: seq<char>, depth: int, isMax: bool)
    requires Fits(rules, b) && ScoreFits(depth)
    ensures Terminal(rules, b, depth) ==> Minimax(rules, b, depth, isMax) == EvaluateBoard(rules, b, depth)
    ensures !Terminal(rules, b, depth) ==>
              && (exists i :: 0 <= i < |b| && b[i] == Empty
                              && Minimax(rules, b, depth, isMax) == ChildValue(rules, b, depth, isMax, i))
              && (forall i :: 0 <= i < |b| && b[i] == Empty
                              ==> AtLeastAsGood(isMax, Minimax(rules, b, depth, isMax), ChildValue(rules, b, depth, isMax, i)))
  {
    if !Terminal(rules, b, depth) {
      var init := if isMax then IntMin else IntMax;
      var r := MinimaxLoop(rules, b, depth, isMax, 0, init);
      assert Minimax(rules, b, depth, isMax) == r;
      MinimaxLoopPicksChild(rules, b, depth, isMax, 0, init);
      var j :| 0 <= j < |b| && b[j] == Empty;
      ChildValueRange(rules, b, depth, isMax, j);
      assert AtLeastAsGood(isMax, r, ChildValue(rules, b, depth, isMax, j));
      assert r != init;
    }
  }

  /** With depth left, every move's value lies within 9 + depth of zero. */
  lemma ChildValueRange(rules: Rules, b: seq<char>, depth: int, isMax: bool, j: nat)
    requires Fits(rules, b) && ScoreFits(depth) && depth != 0
    requires j < |b| && b[j] == Empty
    ensures -(9 + depth) <= ChildValue(rules, b, depth, isMax, j) <= 9 + depth
  {
    Place(rules, b, j, Mark(isMax));
    AlphaBetaIsMinimax(rules, b[j := Mark(isMax)], depth - 1, !isMax);
  }
}
