/** `count_neighbors`: the number of mines in the Moore neighbourhood of a
    cell, skipping the cells that fall off the board. */
module Neighbours {
  import opened Boards

  /** The mines around p whose offset (i, j) from p comes before (i0, j0) in
      the order the counting loops visit offsets. */
  ghost function MinesBefore(g: Grid, p: Pos, i0: int, j0: int): set<Pos> {
    set q | q in MineNeighbours(g, p) && (q.row - p.row < i0 || (q.row - p.row == i0 && q.col - p.col < j0))
  }

  /** Visiting offset (i, j) adds the cell there exactly when it is an
      on-board mine other than p itself. */
  lemma MinesBeforeStep(g: Grid, p: Pos, i: int, j: int)
    requires -1 <= i <= 1 && -1 <= j <= 1
    ensures Pos(p.row + i, p.col + j) !in MinesBefore(g, p, i, j)
    ensures MinesBefore(g, p, i, j + 1) ==
      if (i != 0 || j != 0) && ValidIndex(|g|, p.row + i, p.col + j) && At(g, Pos(p.row + i, p.col + j)) == Mine
      then MinesBefore(g, p, i, j) + {Pos(p.row + i, p.col + j)}
      else MinesBefore(g, p, i, j)
  {
  }

  /** The count after offset (i, j) in the terms of the inner loop's test. */
  lemma MinesBeforeCount(g: Grid, p: Pos, i: int, j: int)
    requires IsSquare(g, |g|)
    requires -1 <= i <= 1 && -1 <= j <= 1
    ensures |MinesBefore(g, p, i, j + 1)| == |MinesBefore(g, p, i, j)| +
      if (i != 0 || j != 0) && ValidIndex(|g|, p.row + i, p.col + j) && IsMine(g, p.row + i, p.col + j) then 1 else 0
  {
    MinesBeforeStep(g, p, i, j);
    var q := Pos(p.row + i, p.col + j);
    if (i != 0 || j != 0) && ValidIndex(|g|, q.row, q.col) {
      assert IsMine(g, q.row, q.col) <==> At(g, q) == Mine;
    }
  }

  /** Finishing the offsets of row i is starting row i + 1; after row 1
      every neighbour has been visited. */
  lemma MinesBeforeRowEnd(g: Grid, p: Pos, i: int)
    ensures MinesBefore(g, p, i, 2) == MinesBefore(g, p, i + 1, -1)
    ensures i == 2 ==> MinesBefore(g, p, i, -1) == MineNeighbours(g, p)
  {
  }

  /** The two nested loops over the offsets -1, 0, 1 count exactly the mines
      around (row, col) that lie on the board. */
  method CountNeighbors(board: Board, row: int, col: int) returns (count: nat)
    requires IsSquare(board.rows, |board.rows|)
    ensures count == |MineNeighbours(board.rows, Pos(row, col))|
    ensures count <= 8
  {
    count := 0;
    for i := -1 to 2
      invariant count == |MinesBefore(board.rows, Pos(row, col), i, -1)|
    {
      for j := -1 to 2
        invariant count == |MinesBefore(board.rows, Pos(row, col), i, j)|
      {
        MinesBeforeCount(board.rows, Pos(row, col), i, j);
        if i != 0 || j != 0 {
          if ValidIndex(|board.rows|, row + i, col + j) && IsMine(board.rows, row + i, col + j) {
            count := count + 1;
          }
        }
      }
      MinesBeforeRowEnd(board.rows, Pos(row, col), i);
    }
    MinesBeforeRowEnd(board.rows, Pos(row, col), 2);
    NeighbourCountBound(board.rows, Pos(row, col));
  }

  /** A cell has at most eight mine neighbours. */
  lemma NeighbourCountBound(g: Grid, p: Pos)
    ensures 0 <= |MineNeighbours(g, p)| <= 8
  {
    var Pos(r, c) := p;
    var moore := {Pos(r - 1, c - 1), Pos(r - 1, c), Pos(r - 1, c + 1), Pos(r, c - 1),
                  Pos(r, c + 1), Pos(r + 1, c - 1), Pos(r + 1, c), Pos(r + 1, c + 1)};
    assert MineNeighbours(g, p) <= moore;
    SubsetCard(MineNeighbours(g, p), moore);
  }

  /** The neighbour-mine count depends only on where the mines are. */
  lemma SameMinesSameCounts(g1: Grid, g2: Grid, n: int, p: Pos)
    requires |g1| == n && |g2| == n
    requires forall q: Pos :: ValidIndex(n, q.row, q.col) ==> (At(g1, q) == Mine <==> At(g2, q) == Mine)
    ensures MineNeighbours(g1, p) == MineNeighbours(g2, p)
  {
  }
}
