/**
 * The 3x3 board of the game: nine cells in row-major order, each empty or
 * holding a player's mark, and the fixed table of the eight winning lines.
 */
module Board {

  /** The two players; X always moves first. */
  datatype Player = X | O

  /** A cell is empty (the empty string in the game) or holds a mark. */
  datatype Cell = Empty | Mark(player: Player)

  /** A cell position, 0..8, row-major. */
  type Index = i: nat | i < 9

  /** A board always has exactly nine cells. */
  type Board = b: seq<Cell> | |b| == 9
    witness [Empty, Empty, Empty, Empty, Empty, Empty, Empty, Empty, Empty]

  /** A line of three cell positions. */
  datatype Line = Line(a: Index, b: Index, c: Index)

  /** The eight winning lines, in the order the game scans them:
      three rows, three columns, then the two diagonals. */
  const WinningLines: seq<Line> := [
    Line(0, 1, 2),
    Line(3, 4, 5),
    Line(6, 7, 8),
    Line(0, 3, 6),
    Line(1, 4, 7),
    Line(2, 5, 8),
    Line(0, 4, 8),
    Line(2, 4, 6)
  ]

  /** The all-empty board a new or reset game starts from. */
  const EmptyBoard: Board := [Empty, Empty, Empty, Empty, Empty, Empty, Empty, Empty, Empty]

  function Opponent(p: Player): (q: Player)
    ensures q != p
  {
    if p == X then O else X
  }

  /** A line is complete when its first cell is non-empty and the other two
      cells hold the same mark. */
  predicate LineComplete(b: Board, l: Line) {
    b[l.a] != Empty && b[l.a] == b[l.b] && b[l.a] == b[l.c]
  }

  /** Some line of the table is complete on `b`. */
  predicate SomeLineComplete(b: Board) {
    exists k :: 0 <= k < |WinningLines| && LineComplete(b, WinningLines[k])
  }

  /** The number of cells holding `c`. */
  function CountOf(b: Board, c: Cell): nat {
    multiset(b)[c]
  }

  /** The number of empty cells; the search terminates on this measure. */
  function EmptyCount(b: Board): nat {
    CountOf(b, Empty)
  }

  /** Writing a mark into an empty cell: that cell holds the mark and every
      other cell is unchanged. */
  function Place(b: Board, i: Index, p: Player): (r: Board)
    requires b[i] == Empty
    ensures r[i] == Mark(p)
    ensures forall j :: 0 <= j < 9 && j != i ==> r[j] == b[j]
  {
    b[i := Mark(p)]
  }

  /** Filling an empty cell leaves one empty cell fewer and one more of the
      mark placed, and the other player's count as it was. */
  lemma PlaceCounts(b: Board, i: Index, p: Player)
    requires b[i] == Empty
    ensures EmptyCount(Place(b, i, p)) + 1 == EmptyCount(b)
    ensures CountOf(Place(b, i, p), Mark(p)) == CountOf(b, Mark(p)) + 1
    ensures CountOf(Place(b, i, p), Mark(Opponent(p))) == CountOf(b, Mark(Opponent(p)))
  {
  }

  /** Undoing a tentative move gives back the board it was made on. */
  lemma UndoRestores(b: Board, i: Index, p: Player)
    requires b[i] == Empty
    ensures Place(b, i, p)[i := Empty] == b
  {
  }
}
