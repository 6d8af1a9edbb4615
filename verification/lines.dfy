/** Line geometry of a row-major board of width w, and the sum of the
    character codes of a line, which is how both win tests detect a line
    held by one player. */
module Lines {
  import opened Cells
  import opened Game

  /** The 2w + 2 lines: rows, columns, the top-left to bottom-right
      diagonal and the top-right to bottom-left one. */
  datatype Line = Row(i: nat) | Col(i: nat) | Diag | Anti

  predicate ValidLine(w: nat, l: Line)
  {
    match l
    case Row(i) => i < w
    case Col(i) => i < w
    case Diag => true
    case Anti => true
  }

  /** Index in the flat board of the k-th cell of line `l`. */
  function CellAt(w: nat, l: Line, k: nat): (c: nat)
    requires ValidLine(w, l) && k < w
    ensures c < w * w
  {
    match l
    case Row(i) => RowMajor(w, i, k); i * w + k
    case Col(i) => RowMajor(w, k, i); i + k * w
    case Diag => RowMajor(w, k, k); k * w + k
    case Anti => RowMajor(w, k, w - 1 - k); k * w + (w - 1 - k)
  }

  /** Row-major layout: cell (r, c) of a w-wide board lies inside it. */
  lemma RowMajor(w: nat, r: nat, c: nat)
    requires r < w && c < w
    ensures 0 <= r * w + c < w * w
  {
    MulMonotone(0, r, w);
    MulMonotone(r + 1, w, w);
    assert (r + 1) * w == r * w + w;
  }

  lemma MulMonotone(a: nat, b: nat, c: nat)
    requires a <= b
    ensures a * c <= b * c
  {
    assert b * c == a * c + (b - a) * c;
  }

  /** The cells of each line, spelled out in row-major coordinates. */
  lemma LineCells(w: nat, i: nat, k: nat)
    requires i < w && k < w
    ensures CellAt(w, Row(i), k) == i * w + k
    ensures CellAt(w, Col(i), k) == i + k * w
    ensures CellAt(w, Diag, i) == i * w + i
    ensures CellAt(w, Anti, i) == i * w + (w - 1 - i)
  {
  }

  /** Sum of the codes of the first n cells of line `l`. */
  function PartialSum(b: seq<char>, w: nat, l: Line, n: nat): int
    requires |b| == w * w && ValidLine(w, l) && n <= w
  {
    if n == 0 then 0 else PartialSum(b, w, l, n - 1) + b[CellAt(w, l, n - 1)] as int
  }

  /** Pass i of a scan adds cell i * w + i to the main diagonal and cell
      i * w + w - 1 - i to the anti-diagonal. */
  lemma DiagonalSteps(b: seq<char>, w: nat, i: nat)
    requires |b| == w * w && i < w
    ensures i * w + i < |b| && i * w + (w - 1 - i) < |b|
    ensures PartialSum(b, w, Diag, i + 1) == PartialSum(b, w, Diag, i) + b[i * w + i] as int
    ensures PartialSum(b, w, Anti, i + 1) == PartialSum(b, w, Anti, i) + b[i * w + (w - 1 - i)] as int
  {
    LineCells(w, i, 0);
    RowMajor(w, i, i);
    RowMajor(w, i, w - 1 - i);
  }

  /** Sum of the codes of all cells of line `l`. */
  function Sum(rules: Rules, b: seq<char>, l: Line): int
    requires Fits(rules, b) && ValidLine(rules.width, l)
  {
    PartialSum(b, rules.width, l, rules.width)
  }

  /** Some row, column or diagonal sums to a sentinel. */
  ghost predicate AnyLineWon(rules: Rules, b: seq<char>)
    requires Fits(rules, b)
  {
    exists l: Line :: ValidLine(rules.width, l) && IsSentinel(rules, Sum(rules, b, l))
  }

  /** The scan order of both win tests: step i < w looks at row i and
      column i together, step w at the two diagonals. */
  predicate StepHits(rules: Rules, b: seq<char>, k: nat, s: int)
    requires Fits(rules, b) && k <= rules.width
  {
    if k < rules.width then Sum(rules, b, Row(k)) == s || Sum(rules, b, Col(k)) == s
    else Sum(rules, b, Diag) == s || Sum(rules, b, Anti) == s
  }

  predicate StepDecides(rules: Rules, b: seq<char>, k: nat)
    requires Fits(rules, b) && k <= rules.width
  {
    StepHits(rules, b, k, rules.xWin) || StepHits(rules, b, k, rules.oWin)
  }

  /** The first deciding step holds an X sentinel line. */
  predicate XFirst(rules: Rules, b: seq<char>)
    requires Fits(rules, b)
  {
    exists k :: 0 <= k <= rules.width
                && (forall j :: 0 <= j < k ==> !StepDecides(rules, b, j))
                && StepHits(rules, b, k, rules.xWin)
  }

  /** The first deciding step holds an O sentinel line and no X one. */
  predicate OFirst(rules: Rules, b: seq<char>)
    requires Fits(rules, b)
  {
    exists k :: 0 <= k <= rules.width
                && (forall j :: 0 <= j < k ==> !StepDecides(rules, b, j))
                && !StepHits(rules, b, k, rules.xWin)
                && StepHits(rules, b, k, rules.oWin)
  }

  /** Some line is held entirely by mark c. */
  ghost predicate FullLine(rules: Rules, b: seq<char>, c: char)
    requires Fits(rules, b)
  {
    exists l: Line :: ValidLine(rules.width, l)
                      && forall k :: 0 <= k < rules.width ==> b[CellAt(rules.width, l, k)] == c
  }

  /** A line of step k that sums to s. */
  function StepLine(rules: Rules, b: seq<char>, k: nat, s: int): (l: Line)
    requires Fits(rules, b) && k <= rules.width && StepHits(rules, b, k, s)
    ensures ValidLine(rules.width, l) && Sum(rules, b, l) == s
  {
    if k < rules.width then (if Sum(rules, b, Row(k)) == s then Row(k) else Col(k))
    else if Sum(rules, b, Diag) == s then Diag else Anti
  }

  /** Lines as scanned by steps are exactly all lines. */
  lemma StepsCoverLines(rules: Rules, b: seq<char>)
    requires Fits(rules, b)
    ensures AnyLineWon(rules, b) <==> exists k :: 0 <= k <= rules.width && StepDecides(rules, b, k)
  {
    var w := rules.width;
    if AnyLineWon(rules, b) {
      var l: Line :| ValidLine(w, l) && IsSentinel(rules, Sum(rules, b, l));
      match l
      case Row(i) => assert StepDecides(rules, b, i);
      case Col(i) => assert StepDecides(rules, b, i);
      case Diag => assert StepDecides(rules, b, w);
      case Anti => assert StepDecides(rules, b, w);
    }
    if k :| 0 <= k <= w && StepDecides(rules, b, k) {
      if k < w {
        assert ValidLine(w, Row(k)) && ValidLine(w, Col(k));
        assert IsSentinel(rules, Sum(rules, b, Row(k))) || IsSentinel(rules, Sum(rules, b, Col(k)));
      } else {
        assert IsSentinel(rules, Sum(rules, b, Diag)) || IsSentinel(rules, Sum(rules, b, Anti));
      }
    }
  }

  /** Number of the first n cells of line `l` holding mark `c`. */
  function CountOn(b: seq<char>, w: nat, l: Line, n: nat, c: char): nat
    requires |b| == w * w && ValidLine(w, l) && n <= w
  {
    if n == 0 then 0
    else CountOn(b, w, l, n - 1, c) + (if b[CellAt(w, l, n - 1)] == c then 1 else 0)
  }

  /** A line sum is the count-weighted sum of the three codes, and a line is
      all one mark exactly when that mark's count is the line's length. */
  lemma {:induction false} SumByCounts(b: seq<char>, w: nat, l: Line, n: nat)
    requires |b| == w * w && ValidLine(w, l) && n <= w
    requires forall k :: 0 <= k < n ==> IsCell(b[CellAt(w, l, k)])
    ensures CountOn(b, w, l, n, X) + CountOn(b, w, l, n, O) + CountOn(b, w, l, n, Empty) == n
    ensures PartialSum(b, w, l, n)
            == 88 * CountOn(b, w, l, n, X) + 79 * CountOn(b, w, l, n, O) + 95 * CountOn(b, w, l, n, Empty)
    ensures (forall k :: 0 <= k < n ==> b[CellAt(w, l, k)] == X) <==> CountOn(b, w, l, n, X) == n
    ensures (forall k :: 0 <= k < n ==> b[CellAt(w, l, k)] == O) <==> CountOn(b, w, l, n, O) == n
  {
    CountsAddUp(b, w, l, n);
    FullCount(b, w, l, n, X);
    FullCount(b, w, l, n, O);
  }

  lemma {:induction false} CountsAddUp(b: seq<char>, w: nat, l: Line, n: nat)
    requires |b| == w * w && ValidLine(w, l) && n <= w
    requires forall k :: 0 <= k < n ==> IsCell(b[CellAt(w, l, k)])
    ensures CountOn(b, w, l, n, X) + CountOn(b, w, l, n, O) + CountOn(b, w, l, n, Empty) == n
    ensures PartialSum(b, w, l, n)
            == 88 * CountOn(b, w, l, n, X) + 79 * CountOn(b, w, l, n, O) + 95 * CountOn(b, w, l, n, Empty)
  {
    if n > 0 {
      CountsAddUp(b, w, l, n - 1);
    }
  }

  /** The count of mark c reaches the line's length exactly when every cell
      so far holds c. */
  lemma {:induction false} FullCount(b: seq<char>, w: nat, l: Line, n: nat, c: char)
    requires |b| == w * w && ValidLine(w, l) && n <= w
    ensures CountOn(b, w, l, n, c) <= n
    ensures (forall k :: 0 <= k < n ==> b[CellAt(w, l, k)] == c) <==> CountOn(b, w, l, n, c) == n
  {
    if n > 0 {
      FullCount(b, w, l, n - 1, c);
    }
  }

  /** With cells drawn from X, O and '_', a line sums to the O sentinel
      exactly when all its cells are O, on any width, and to the X sentinel
      exactly when all its cells are X, on every width up to 15. The supported
      widths 3 and 4 are well inside that range. */
  lemma SentinelMeansFullLine(rules: Rules, b: seq<char>, l: Line)
    requires Fits(rules, b) && SumEncoded(rules) && ValidLine(rules.width, l)
    requires forall i :: 0 <= i < |b| ==> IsCell(b[i])
    ensures Sum(rules, b, l) == rules.oWin
            <==> forall k :: 0 <= k < rules.width ==> b[CellAt(rules.width, l, k)] == O
    ensures rules.width <= 15 ==>
              (Sum(rules, b, l) == rules.xWin
               <==> forall k :: 0 <= k < rules.width ==> b[CellAt(rules.width, l, k)] == X)
  {
    var w := rules.width;
    SumByCounts(b, w, l, w);
    CodeArithmetic(CountOn(b, w, l, w, X), CountOn(b, w, l, w, O), CountOn(b, w, l, w, Empty), w);
  }

  /** The arithmetic behind the encoding: with cx X cells, co O cells and ce
      empty cells on a line of w cells, the sum 88cx + 79co + 95ce is 79w only
      when co = w, and 88w only when cx = w as long as w is at most 15. */
  lemma CodeArithmetic(cx: nat, co: nat, ce: nat, w: nat)
    requires cx + co + ce == w
    ensures 88 * cx + 79 * co + 95 * ce == 79 * w <==> co == w
    ensures w <= 15 ==> (88 * cx + 79 * co + 95 * ce == 88 * w <==> cx == w)
  {
    assert 88 * cx + 79 * co + 95 * ce - 79 * w == 9 * cx + 16 * ce;
    assert 88 * cx + 79 * co + 95 * ce - 88 * w == 7 * ce - 9 * co;
  }

  /** The X encoding stops being unique at width 16: seven O cells and nine
      empty cells sum to 7 * 79 + 9 * 95 = 1408 = 16 * 88. */
  lemma XSentinelCollidesAtWidth16(b: seq<char>, l: Line)
    requires |b| == 16 * 16 && ValidLine(16, l)
    requires forall k :: 0 <= k < 7 ==> b[CellAt(16, l, k)] == O
    requires forall k :: 7 <= k < 16 ==> b[CellAt(16, l, k)] == Empty
    ensures PartialSum(b, 16, l, 16) == X as int * 16
    ensures b[CellAt(16, l, 0)] != X
  {
    CollidingPrefix(b, l, 16);
  }

  lemma {:induction false} CollidingPrefix(b: seq<char>, l: Line, n: nat)
    requires |b| == 16 * 16 && ValidLine(16, l) && n <= 16
    requires forall k :: 0 <= k < 7 ==> b[CellAt(16, l, k)] == O
    requires forall k :: 7 <= k < 16 ==> b[CellAt(16, l, k)] == Empty
    ensures PartialSum(b, 16, l, n) == if n <= 7 then 79 * n else 553 + 95 * (n - 7)
  {
    if n > 0 {
      CollidingPrefix(b, l, n - 1);
    }
  }
}
