/** Cells, coordinates and boards shared by every part of the game.
    A board is a list of rows that the game updates in place; it is modelled
    as an object whose `rows` field holds the current contents and is
    reassigned on every write. */
module Boards {

  /** One square of a board.  `Hidden` is the blank " " (not yet revealed on
      the player's board, not yet counted on the true board), `Mine` is the
      "X" marker and `Count(n)` is a neighbour-mine count. */
  datatype Cell = Hidden | Mine | Count(n: int)

  /** A (row, column) coordinate. */
  datatype Pos = Pos(row: int, col: int)

  /** The contents of a board, row by row. */
  type Grid = seq<seq<Cell>>

  /** `valid_index` on integer coordinates, for a board of n rows: the
      coordinate is valid exactly when it names one of the board's cells. */
  predicate ValidIndex(n: int, row: int, col: int): (b: bool)
    ensures b <==> Pos(row, col) in AllCells(n)
  {
    0 <= row < n && 0 <= col < n
  }

  /** `is_mine`: the cell holds the mine marker; on a square board that
      means it belongs to the board's mine set. */
  predicate IsMine(board: Grid, row: int, col: int): (b: bool)
    requires 0 <= row < |board| && 0 <= col < |board[row]|
    ensures IsSquare(board, |board|) ==> (b <==> Pos(row, col) in Mines(board))
  {
    board[row][col] == Mine
  }

  /** q is one of the eight cells around p (offsets in {-1, 0, 1}, not both 0). */
  predicate Adjacent(p: Pos, q: Pos) {
    p != q && -1 <= q.row - p.row <= 1 && -1 <= q.col - p.col <= 1
  }

  ghost predicate IsSquare(g: Grid, n: int) {
    |g| == n && forall r :: 0 <= r < n ==> |g[r]| == n
  }

  /** The cell at p; positions off the grid read as Hidden (every use is
      guarded by ValidIndex). */
  function At(g: Grid, p: Pos): Cell {
    if 0 <= p.row < |g| && 0 <= p.col < |g[p.row]| then g[p.row][p.col] else Hidden
  }

  /** Every coordinate of an n-by-n board. */
  ghost function AllCells(n: int): (s: set<Pos>)
    ensures forall q :: q in s <==> 0 <= q.row < n && 0 <= q.col < n
  {
    set r, c | 0 <= r < n && 0 <= c < n :: Pos(r, c)
  }

  /** A board of the game: a list of rows of cells, shared by reference and
      written one cell at a time. */
  class Board {
    var rows: Grid

    constructor (contents: Grid)
      ensures rows == contents
    {
      rows := contents;
    }
  }

  /** The n-by-n grid of blank cells, `[[" " for i in range(n)] for i in range(n)]`. */
  function Blank(n: nat): (g: Grid)
    ensures IsSquare(g, n)
    ensures forall q: Pos :: ValidIndex(n, q.row, q.col) ==> At(g, q) == Hidden
  {
    seq(n, _ => seq(n, _ => Hidden))
  }

  /** The grid g with the cell at p replaced by v. */
  function Update(g: Grid, p: Pos, v: Cell): Grid
    requires 0 <= p.row < |g| && 0 <= p.col < |g[p.row]|
  {
    g[p.row := g[p.row][p.col := v]]
  }

  /** The mine cells of a board. */
  ghost function Mines(g: Grid): set<Pos> {
    set q | q in AllCells(|g|) && At(g, q) == Mine
  }

  /** The blank cells of a board. */
  ghost function HiddenCells(g: Grid): set<Pos> {
    set q | q in AllCells(|g|) && At(g, q) == Hidden
  }

  /** The mines among the (at most eight) in-bounds cells around p. */
  ghost function MineNeighbours(g: Grid, p: Pos): set<Pos> {
    set q | q in AllCells(|g|) && Adjacent(p, q) && At(g, q) == Mine
  }

  /** A generated true board: every cell is a mine or holds the number of
      mines around it. */
  ghost predicate IsTrueBoard(g: Grid) {
    forall q: Pos :: ValidIndex(|g|, q.row, q.col) ==>
      At(g, q) == Mine || At(g, q) == Count(|MineNeighbours(g, q)|)
  }

  /** A subset is no larger than its superset. */
  lemma SubsetCard<T>(a: set<T>, b: set<T>)
    requires a <= b
    ensures |a| <= |b|
  {
    assert b == a + (b - a);
    assert a * (b - a) == {};
  }

  /** Two square grids that agree on every cell are equal. */
  lemma GridExt(g1: Grid, g2: Grid, n: int)
    requires IsSquare(g1, n) && IsSquare(g2, n)
    requires forall q: Pos :: ValidIndex(n, q.row, q.col) ==> At(g1, q) == At(g2, q)
    ensures g1 == g2
  {
    forall r | 0 <= r < n
      ensures g1[r] == g2[r]
    {
      forall c | 0 <= c < n
        ensures g1[r][c] == g2[r][c]
      {
        assert At(g1, Pos(r, c)) == At(g2, Pos(r, c));
      }
    }
  }

  /** The update touches the one cell at p. */
  lemma UpdateAt(g: Grid, n: int, p: Pos, v: Cell)
    requires IsSquare(g, n) && ValidIndex(n, p.row, p.col)
    ensures IsSquare(Update(g, p, v), n)
    ensures forall q: Pos :: ValidIndex(n, q.row, q.col) ==>
      At(Update(g, p, v), q) == if q == p then v else At(g, q)
  {
  }
}
