/** `is_win` and one move of `play`: the player picks a cell; a mine loses
    the game, a zero floods the player's board, any other count is shown on
    its own; after a safe move the game is won when the blank cells left on
    the player's board are as many as the mines. */
module Game {
  import opened Boards
  import opened Reveal
  import opened Generate

  /** Where the game stands after a move: `endGame` false, won or lost. */
  datatype Status = Playing | Won | Lost

  /** The outcome of one move: the status and the player's board afterwards. */
  datatype Move = Move(status: Status, board: Grid)

  /** `row.count(" ")`: the blank cells of one row. */
  function CountHidden(row: seq<Cell>): (k: nat)
    ensures k <= |row|
  {
    if |row| == 0 then 0
    else CountHidden(row[..|row| - 1]) + if row[|row| - 1] == Hidden then 1 else 0
  }

  /** The sum `is_win` accumulates: the blank cells of all rows. */
  function Spaces(g: Grid): nat {
    if |g| == 0 then 0 else Spaces(g[..|g| - 1]) + CountHidden(g[|g| - 1])
  }

  /** `is_win(user_board, mine_num)`: the loop over the rows adds up the blank
      cells, and the game is won when their number is mine_num. */
  method IsWin(userBoard: Board, mineNum: int) returns (win: bool)
    ensures win <==> Spaces(userBoard.rows) == mineNum
    ensures IsSquare(userBoard.rows, |userBoard.rows|) ==>
      (win <==> |HiddenCells(userBoard.rows)| == mineNum)
  {
    var spaces := 0;
    for r := 0 to |userBoard.rows|
      invariant spaces == Spaces(userBoard.rows[..r])
    {
      assert userBoard.rows[..r + 1][..r] == userBoard.rows[..r];
      spaces := spaces + CountHidden(userBoard.rows[r]);
    }
    assert userBoard.rows[..|userBoard.rows|] == userBoard.rows;
    win := spaces == mineNum;
    if IsSquare(userBoard.rows, |userBoard.rows|) {
      SpacesAreHiddenCells(userBoard.rows, |userBoard.rows|);
    }
  }

  /** The hidden cells of row r in the columns before cols. */
  ghost function HiddenInRow(g: Grid, r: int, cols: int): set<Pos> {
    set q | q in AllCells(|g|) && q.row == r && q.col < cols && At(g, q) == Hidden
  }

  /** The hidden cells in the rows before rows. */
  ghost function HiddenBelow(g: Grid, rows: int): set<Pos> {
    set q | q in AllCells(|g|) && q.row < rows && At(g, q) == Hidden
  }

  lemma {:induction false} RowCount(g: Grid, n: nat, r: int, cols: nat)
    requires IsSquare(g, n) && 0 <= r < n && cols <= n
    ensures CountHidden(g[r][..cols]) == |HiddenInRow(g, r, cols)|
  {
    if cols > 0 {
      RowCount(g, n, r, cols - 1);
      assert g[r][..cols][..cols - 1] == g[r][..cols - 1];
      if g[r][cols - 1] == Hidden {
        assert HiddenInRow(g, r, cols) == HiddenInRow(g, r, cols - 1) + {Pos(r, cols - 1)};
      } else {
        assert HiddenInRow(g, r, cols) == HiddenInRow(g, r, cols - 1);
      }
    } else {
      assert HiddenInRow(g, r, cols) == {};
    }
  }

  lemma {:induction false} SpacesBelow(g: Grid, n: nat, rows: nat)
    requires IsSquare(g, n) && rows <= n
    ensures Spaces(g[..rows]) == |HiddenBelow(g, rows)|
  {
    if rows > 0 {
      SpacesBelow(g, n, rows - 1);
      RowCount(g, n, rows - 1, n);
      assert g[..rows][..rows - 1] == g[..rows - 1];
      assert g[rows - 1][..n] == g[rows - 1];
      assert HiddenBelow(g, rows) == HiddenBelow(g, rows - 1) + HiddenInRow(g, rows - 1, n);
      assert HiddenBelow(g, rows - 1) * HiddenInRow(g, rows - 1, n) == {};
    } else {
      assert HiddenBelow(g, rows) == {};
    }
  }

  /** On a square board the blanks `is_win` counts are the hidden cells. */
  lemma SpacesAreHiddenCells(g: Grid, n: nat)
    requires IsSquare(g, n)
    ensures Spaces(g) == |HiddenCells(g)|
  {
    SpacesBelow(g, n, n);
    assert g[..n] == g;
    assert HiddenBelow(g, n) == HiddenCells(g);
  }

  /** One pass of `play`'s loop at the chosen cell p: the move is lost
      exactly when p is a mine, and then the player's board is left as it
      was; the board stays square. */
  ghost function Step(truth: Grid, u: Grid, mineNum: int, p: Pos): (m: Move)
    requires IsSquare(truth, |truth|) && IsSquare(u, |truth|) && ValidIndex(|truth|, p.row, p.col)
    ensures IsSquare(m.board, |truth|)
    ensures m.status == Lost <==> At(truth, p) == Mine
    ensures m.status == Lost ==> m.board == u
  {
    if At(truth, p) == Mine then Move(Lost, u)
    else
      var v := if At(truth, p) == Count(0) then RevealAt(truth, u, p) else Update(u, p, At(truth, p));
      Move(if Spaces(v) == mineNum then Won else Playing, v)
  }

  /** One move of `play` at the cell (row, col) that `player_choose` returns. */
  method PlayMove(realBoard: Board, userBoard: Board, mineNum: int, row: int, col: int) returns (status: Status)
    requires realBoard != userBoard
    requires IsSquare(realBoard.rows, |realBoard.rows|) && IsSquare(userBoard.rows, |realBoard.rows|)
    requires ValidIndex(|realBoard.rows|, row, col)
    modifies userBoard
    ensures Move(status, userBoard.rows) == Step(realBoard.rows, old(userBoard.rows), mineNum, Pos(row, col))
  {
    if IsMine(realBoard.rows, row, col) {
      status := Lost;
    } else if realBoard.rows[row][col] == Count(0) {
      RevealZeros(realBoard.rows, userBoard, row, col);
      var win := IsWin(userBoard, mineNum);
      status := if win then Won else Playing;
    } else {
      userBoard.rows := Update(userBoard.rows, Pos(row, col), realBoard.rows[row][col]);
      var win := IsWin(userBoard, mineNum);
      status := if win then Won else Playing;
    }
  }

  /** The player's board agrees with the true board: every cell is blank or
      shows the true value of a cell that is not a mine. */
  ghost predicate Consistent(truth: Grid, u: Grid) {
    IsSquare(truth, |truth|) && IsSquare(u, |truth|) &&
    forall q: Pos :: ValidIndex(|truth|, q.row, q.col) ==>
      At(u, q) == Hidden || (At(u, q) == At(truth, q) && At(truth, q) != Mine)
  }

  /** A fresh pair of boards is consistent. */
  lemma NewBoardsConsistent(truth: Grid, u: Grid)
    requires IsSquare(truth, |truth|) && IsSquare(u, |truth|)
    requires HiddenCells(u) == AllCells(|truth|)
    ensures Consistent(truth, u)
  {
    forall q: Pos | ValidIndex(|truth|, q.row, q.col)
      ensures At(u, q) == Hidden
    {
      assert q in HiddenCells(u);
    }
  }

  /** Choosing a mine loses and leaves the player's board alone. */
  lemma StepMine(truth: Grid, u: Grid, mineNum: int, p: Pos)
    requires IsSquare(truth, |truth|) && IsSquare(u, |truth|) && ValidIndex(|truth|, p.row, p.col)
    requires At(truth, p) == Mine
    ensures Step(truth, u, mineNum, p) == Move(Lost, u)
  {
  }

  /** Choosing a zero floods the player's board from it and then asks `is_win`. */
  lemma StepZero(truth: Grid, u: Grid, mineNum: int, p: Pos)
    requires IsSquare(truth, |truth|) && IsSquare(u, |truth|) && ValidIndex(|truth|, p.row, p.col)
    requires At(truth, p) == Count(0)
    ensures Step(truth, u, mineNum, p).board == Flood(truth, u, p)
    ensures Step(truth, u, mineNum, p).status == if |HiddenCells(Flood(truth, u, p))| == mineNum then Won else Playing
  {
    RevealIsFlood(truth, u, p);
    SpacesAreHiddenCells(RevealAt(truth, u, p), |truth|);
  }

  /** Choosing any other count shows that one cell and then asks `is_win`. */
  lemma StepCount(truth: Grid, u: Grid, mineNum: int, p: Pos)
    requires IsSquare(truth, |truth|) && IsSquare(u, |truth|) && ValidIndex(|truth|, p.row, p.col)
    requires At(truth, p) != Count(0) && At(truth, p) != Mine
    ensures forall q: Pos :: ValidIndex(|truth|, q.row, q.col) ==>
      At(Step(truth, u, mineNum, p).board, q) == if q == p then At(truth, p) else At(u, q)
    ensures Step(truth, u, mineNum, p).status ==
      if |HiddenCells(Step(truth, u, mineNum, p).board)| == mineNum then Won else Playing
  {
    UpdateAt(u, |truth|, p, At(truth, p));
    SpacesAreHiddenCells(Update(u, p, At(truth, p)), |truth|);
  }

  /** A move keeps the player's board consistent with the true board. */
  lemma StepConsistent(truth: Grid, u: Grid, mineNum: int, p: Pos)
    requires Consistent(truth, u) && ValidIndex(|truth|, p.row, p.col)
    ensures Consistent(truth, Step(truth, u, mineNum, p).board)
  {
    if At(truth, p) == Count(0) {
      RevealWritesTruth(truth, u, p);
    } else if At(truth, p) != Mine {
      UpdateAt(u, |truth|, p, At(truth, p));
    }
  }

  /** On a consistent board the blank cells number the mines exactly when
      every cell that is not a mine has been revealed. */
  lemma WinIffCleared(truth: Grid, u: Grid)
    requires Consistent(truth, u)
    ensures |HiddenCells(u)| == |Mines(truth)| <==>
      forall q: Pos :: ValidIndex(|truth|, q.row, q.col) && At(truth, q) != Mine ==> At(u, q) != Hidden
  {
    assert Mines(truth) <= HiddenCells(u);
    var extra := HiddenCells(u) - Mines(truth);
    assert HiddenCells(u) == Mines(truth) + extra;
    assert Mines(truth) * extra == {};
    if forall q: Pos :: ValidIndex(|truth|, q.row, q.col) && At(truth, q) != Mine ==> At(u, q) != Hidden {
      assert extra == {};
    } else {
      var q: Pos :| ValidIndex(|truth|, q.row, q.col) && At(truth, q) != Mine && At(u, q) == Hidden;
      assert q in extra;
    }
  }

  /** On a generated true board that the game announces with its own mine
      count, a safe move wins exactly when every safe cell then shows its
      true value. */
  lemma StepWins(truth: Grid, u: Grid, p: Pos)
    requires Consistent(truth, u) && IsTrueBoard(truth) && ValidIndex(|truth|, p.row, p.col)
    requires At(truth, p) != Mine
    ensures var m := Step(truth, u, |Mines(truth)|, p);
      m.status == Won <==>
      forall q: Pos :: ValidIndex(|truth|, q.row, q.col) && At(truth, q) != Mine ==> At(m.board, q) == At(truth, q)
  {
    var m := Step(truth, u, |Mines(truth)|, p);
    StepConsistent(truth, u, |Mines(truth)|, p);
    SpacesAreHiddenCells(m.board, |truth|);
    WinIffCleared(truth, m.board);
    forall q: Pos | ValidIndex(|truth|, q.row, q.col) && At(truth, q) != Mine
      ensures At(m.board, q) != Hidden <==> At(m.board, q) == At(truth, q)
    {
      assert At(truth, q) == Count(|MineNeighbours(truth, q)|);
    }
  }

  /** The setup test of `main` as written: a size from 3 to 9 and at most
      twice the size in mines, with no lower bound on the mines.  Every
      accepted mine count fits on the board. */
  predicate SetupAccepted(size: int, mineNum: int): (b: bool)
    ensures b ==> 9 <= size * size && mineNum <= size * size
  {
    3 <= size <= 9 && mineNum <= 2 * size
  }

  /** The setup test as intended: the test as written, and the mine count
      is not negative. */
  predicate SetupValid(size: int, mineNum: int): (b: bool)
    ensures b <==> SetupAccepted(size, mineNum) && 0 <= mineNum
  {
    3 <= size <= 9 && 0 <= mineNum <= 2 * size
  }

  /** As written, `main` accepts a negative mine count, and then no move can
      ever win: `is_win` compares a count of blank cells with a negative
      number. */
  lemma NegativeMinesNeverWin(truth: Grid, u: Grid, p: Pos)
    requires IsSquare(truth, |truth|) && IsSquare(u, |truth|) && ValidIndex(|truth|, p.row, p.col)
    ensures SetupAccepted(3, -1)
    ensures Step(truth, u, -1, p).status != Won
  {
  }

  /** With the intended test the mines fit on the board, so some draws let
      the placement loop finish, and `is_win`'s target is the number of
      mines placed. */
  lemma ValidSetupFits(size: nat, mineNum: int)
    requires SetupValid(size, mineNum)
    ensures mineNum <= size * size
    ensures Enough(size, mineNum, ListOf(AllCells(size)))
    ensures Placed(mineNum) == mineNum
  {
    DrawsSuffice(size, mineNum);
  }

  /** `main`'s setup with the intended test: generate the boards and start a
      game whose boards are consistent and whose announced mine count is the
      number of mines on the true board. */
  method NewGame(size: nat, mineNum: int, draws: seq<Pos>) returns (realBoard: Board, userBoard: Board)
    requires SetupValid(size, mineNum)
    requires Enough(size, mineNum, draws)
    ensures fresh(realBoard) && fresh(userBoard) && realBoard != userBoard
    ensures |realBoard.rows| == size
    ensures Consistent(realBoard.rows, userBoard.rows)
    ensures IsTrueBoard(realBoard.rows)
    ensures |Mines(realBoard.rows)| == mineNum
    ensures HiddenCells(userBoard.rows) == AllCells(size)
  {
    var used;
    realBoard, userBoard, used := CreateBoards(size, mineNum, draws);
    NewBoardsConsistent(realBoard.rows, userBoard.rows);
  }
}
