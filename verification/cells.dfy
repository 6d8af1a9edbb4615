/** Cell marks of the flat, row-major game board. The engine works on the
    raw character codes of the marks, so a board is a sequence of chars. */
module Cells {

  const X: char := 'X'
  const O: char := 'O'
  const Empty: char := '_'

  /** The mark placed by the side to move: X maximises, O minimises. */
  function Mark(isMax: bool): char
  {
    if isMax then X else O
  }

  /** The three values a cell of a game board takes. */
  predicate IsCell(c: char)
  {
    c == X || c == O || c == Empty
  }

  /** Number of empty cells; every trial placement removes one, which is
      what bounds the depth of the search. */
  function Empties(b: seq<char>): nat
  {
    multiset(b)[Empty]
  }
}
