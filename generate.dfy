/** `create_boards`: a blank player's board and a true board with mines at
    randomly drawn cells and a neighbour count in every other cell.  The
    random source is a parameter: the sequence of (row, column) pairs that
    the two `randint(0, size - 1)` calls return, one pair per pass of the
    placement loop. */
module Generate {
  import opened Boards
  import opened Neighbours

  /** Every draw is a cell of the board, as `randint(0, size - 1)` guarantees. */
  ghost predicate InRange(size: int, draws: seq<Pos>) {
    forall k :: 0 <= k < |draws| ==> ValidIndex(size, draws[k].row, draws[k].col)
  }

  /** The distinct cells among the draws. */
  ghost function Drawn(draws: seq<Pos>): set<Pos> {
    set q | q in draws
  }

  /** The draws describe a run of the placement loop that ends: they lie on
      the board and hold at least mineNum distinct cells. */
  ghost predicate Enough(size: int, mineNum: int, draws: seq<Pos>) {
    InRange(size, draws) && mineNum <= |Drawn(draws)|
  }

  /** The number of mines the placement loop puts down. */
  function Placed(mineNum: int): nat {
    if mineNum < 0 then 0 else mineNum
  }

  /** `create_boards(size, mine_num)`.  The placement loop consumes draws
      until mine_num distinct cells hold a mine, skipping draws that hit a
      mine already placed; `used` is the number of draws it consumed.  The
      counting pass then writes into every other cell the number of mines
      around it, reading the board it is rewriting. */
  method CreateBoards(size: nat, mineNum: int, draws: seq<Pos>) returns (realBoard: Board, userBoard: Board, used: nat)
    requires Enough(size, mineNum, draws)
    ensures fresh(realBoard) && fresh(userBoard) && realBoard != userBoard
    ensures IsSquare(realBoard.rows, size) && IsSquare(userBoard.rows, size)
    ensures HiddenCells(userBoard.rows) == AllCells(size)
    ensures used <= |draws|
    ensures Mines(realBoard.rows) == Drawn(draws[..used])
    ensures |Mines(realBoard.rows)| == Placed(mineNum)
    ensures IsTrueBoard(realBoard.rows)
  {
    realBoard := new Board(Blank(size));
    userBoard := new Board(Blank(size));
    HiddenBlank(size);
    used := PlaceMines(realBoard, size, mineNum, draws);
    label placed:
    CountingPass(realBoard, size);
    SameMinesSameSet(realBoard.rows, old@placed(realBoard.rows), size);
  }

  /** The placement loop of `create_boards` on a blank board: it consumes
      draws until mine_num distinct cells hold a mine, skipping a draw that
      hits a mine already placed.  Afterwards every drawn cell is a mine and
      every other cell is still blank. */
  method PlaceMines(realBoard: Board, size: nat, mineNum: int, draws: seq<Pos>) returns (used: nat)
    requires Enough(size, mineNum, draws)
    requires IsSquare(realBoard.rows, size)
    requires forall q: Pos :: ValidIndex(size, q.row, q.col) ==> At(realBoard.rows, q) == Hidden
    modifies realBoard
    ensures IsSquare(realBoard.rows, size)
    ensures used <= |draws|
    ensures PlacedUpTo(realBoard.rows, draws, used, size)
    ensures Mines(realBoard.rows) == Drawn(draws[..used])
    ensures |Mines(realBoard.rows)| == Placed(mineNum)
  {
    assert draws[..0] == [];
    var i := 0;
    used := 0;
    while i < mineNum
      invariant used <= |draws|
      invariant PlacedUpTo(realBoard.rows, draws, used, size)
      invariant i == |Drawn(draws[..used])| <= Placed(mineNum)
      decreases |draws| - used
    {
      assert draws[..|draws|] == draws;
      assert used < |draws|;
      label before:
      var Pos(r1, r2) := draws[used];
      if realBoard.rows[r1][r2] != Mine {
        realBoard.rows := Update(realBoard.rows, Pos(r1, r2), Mine);
        i := i + 1;
      }
      DrawStep(draws, used, old@before(realBoard.rows), realBoard.rows, size);
      used := used + 1;
    }
    MinesOfPlacement(realBoard.rows, draws, used, size);
  }

  /** The counting pass of `create_boards`: every cell that is not a mine
      gets `count_neighbors` of the board as it stands, and the mines stay
      where they are. */
  method CountingPass(realBoard: Board, size: nat)
    requires IsSquare(realBoard.rows, size)
    modifies realBoard
    ensures IsSquare(realBoard.rows, size)
    ensures forall q: Pos :: ValidIndex(size, q.row, q.col) ==>
      (At(realBoard.rows, q) == Mine <==> At(old(realBoard.rows), q) == Mine)
    ensures IsTrueBoard(realBoard.rows)
  {
    for r := 0 to size
      invariant IsSquare(realBoard.rows, size)
      invariant forall q: Pos :: ValidIndex(size, q.row, q.col) ==>
        (At(realBoard.rows, q) == Mine <==> At(old(realBoard.rows), q) == Mine)
      invariant forall q: Pos :: ValidIndex(size, q.row, q.col) && q.row < r && At(realBoard.rows, q) != Mine ==>
        At(realBoard.rows, q) == Count(|MineNeighbours(old(realBoard.rows), q)|)
    {
      for c := 0 to size
        invariant IsSquare(realBoard.rows, size)
        invariant forall q: Pos :: ValidIndex(size, q.row, q.col) ==>
          (At(realBoard.rows, q) == Mine <==> At(old(realBoard.rows), q) == Mine)
        invariant forall q: Pos ::
          (ValidIndex(size, q.row, q.col) && (q.row < r || (q.row == r && q.col < c)) && At(realBoard.rows, q) != Mine) ==>
          At(realBoard.rows, q) == Count(|MineNeighbours(old(realBoard.rows), q)|)
      {
        if realBoard.rows[r][c] != Mine {
          var count := CountNeighbors(realBoard, r, c);
          SameMinesSameCounts(realBoard.rows, old(realBoard.rows), size, Pos(r, c));
          UpdateAt(realBoard.rows, size, Pos(r, c), Count(count));
          realBoard.rows := Update(realBoard.rows, Pos(r, c), Count(count));
        }
      }
    }
    forall q: Pos | ValidIndex(size, q.row, q.col)
      ensures At(realBoard.rows, q) == Mine || At(realBoard.rows, q) == Count(|MineNeighbours(realBoard.rows, q)|)
    {
      SameMinesSameCounts(realBoard.rows, old(realBoard.rows), size, q);
    }
  }

  /** The board after the placement loop has consumed k draws: a mine at
      each cell drawn so far and blanks elsewhere. */
  ghost predicate PlacedUpTo(g: Grid, draws: seq<Pos>, k: nat, size: nat) {
    k <= |draws| && IsSquare(g, size) &&
    forall q: Pos :: ValidIndex(size, q.row, q.col) ==> At(g, q) == if q in draws[..k] then Mine else Hidden
  }

  /** One pass of the placement loop: the drawn cell becomes a mine, and the
      drawn set grows exactly when it was not one yet. */
  lemma DrawStep(draws: seq<Pos>, k: nat, g: Grid, h: Grid, size: nat)
    requires k < |draws| && InRange(size, draws) && PlacedUpTo(g, draws, k, size)
    requires h == if g[draws[k].row][draws[k].col] != Mine then Update(g, draws[k], Mine) else g
    ensures PlacedUpTo(h, draws, k + 1, size)
    ensures |Drawn(draws[..k + 1])| == |Drawn(draws[..k])| + if g[draws[k].row][draws[k].col] != Mine then 1 else 0
  {
    assert draws[..k + 1] == draws[..k] + [draws[k]];
    assert At(g, draws[k]) == g[draws[k].row][draws[k].col];
    assert Drawn(draws[..k + 1]) == Drawn(draws[..k]) + {draws[k]};
    if g[draws[k].row][draws[k].col] != Mine {
      assert draws[k] !in Drawn(draws[..k]);
      UpdateAt(g, size, draws[k], Mine);
    } else {
      assert draws[k] in draws[..k];
      assert Drawn(draws[..k + 1]) == Drawn(draws[..k]);
      forall q: Pos | ValidIndex(size, q.row, q.col)
        ensures At(h, q) == if q in draws[..k + 1] then Mine else Hidden
      {
        assert q in draws[..k + 1] <==> q in draws[..k] || q == draws[k];
      }
    }
  }

  /** After the placement loop the mines are exactly the cells drawn so far. */
  lemma MinesOfPlacement(g: Grid, draws: seq<Pos>, k: nat, size: nat)
    requires InRange(size, draws) && PlacedUpTo(g, draws, k, size)
    ensures Mines(g) == Drawn(draws[..k])
  {
  }

  /** Two boards with their mines in the same cells have the same mine set. */
  lemma SameMinesSameSet(g1: Grid, g2: Grid, size: nat)
    requires IsSquare(g1, size) && IsSquare(g2, size)
    requires forall q: Pos :: ValidIndex(size, q.row, q.col) ==> (At(g1, q) == Mine <==> At(g2, q) == Mine)
    ensures Mines(g1) == Mines(g2)
  {
  }

  /** Every cell of a blank board is hidden. */
  lemma HiddenBlank(size: nat)
    ensures HiddenCells(Blank(size)) == AllCells(size)
  {
  }

  /** The cells (r, c) with r < rows and 0 <= c < n: rows * n of them. */
  ghost function CellsBelow(rows: int, n: int): set<Pos> {
    set r, c | 0 <= r < rows && 0 <= c < n :: Pos(r, c)
  }

  /** The cells (r, c) of one row with c < cols. */
  ghost function RowCells(r: int, cols: int): set<Pos> {
    set c | 0 <= c < cols :: Pos(r, c)
  }

  lemma {:induction false} RowCellsCard(r: int, cols: nat)
    ensures |RowCells(r, cols)| == cols
  {
    if cols > 0 {
      RowCellsCard(r, cols - 1);
      assert RowCells(r, cols) == RowCells(r, cols - 1) + {Pos(r, cols - 1)};
    } else {
      assert RowCells(r, cols) == {};
    }
  }

  lemma {:induction false} CellsBelowCard(rows: nat, n: nat)
    ensures |CellsBelow(rows, n)| == rows * n
  {
    if rows > 0 {
      CellsBelowCard(rows - 1, n);
      RowCellsCard(rows - 1, n);
      assert (rows - 1) * n + n == rows * n;
      assert CellsBelow(rows, n) == CellsBelow(rows - 1, n) + RowCells(rows - 1, n);
      assert CellsBelow(rows - 1, n) * RowCells(rows - 1, n) == {};
    } else {
      assert CellsBelow(rows, n) == {};
    }
  }

  /** An n-by-n board has n * n cells. */
  lemma AllCellsCard(n: nat)
    ensures |AllCells(n)| == n * n
  {
    CellsBelowCard(n, n);
    assert AllCells(n) == CellsBelow(n, n);
  }

  /** A list of the elements of a set, each once. */
  ghost function ListOf(s: set<Pos>): (l: seq<Pos>)
    ensures |l| == |s|
    ensures forall q :: q in l <==> q in s
  {
    if s == {} then [] else
      var x :| x in s;
      [x] + ListOf(s - {x})
  }

  /** The placement loop can finish exactly when the mines fit on the board:
      some draws on the board hold mine_num distinct cells if and only if
      mine_num <= size * size. */
  lemma DrawsSuffice(size: nat, mineNum: int)
    requires mineNum <= size * size
    ensures Enough(size, mineNum, ListOf(AllCells(size)))
  {
    var l := ListOf(AllCells(size));
    AllCellsCard(size);
    assert Drawn(l) == AllCells(size);
  }

  lemma DrawsFallShort(size: nat, mineNum: int, draws: seq<Pos>)
    requires size * size < mineNum
    ensures !Enough(size, mineNum, draws)
  {
    if InRange(size, draws) {
      assert Drawn(draws) <= AllCells(size);
      SubsetCard(Drawn(draws), AllCells(size));
      AllCellsCard(size);
    }
  }
}
