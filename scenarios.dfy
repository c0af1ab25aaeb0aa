/** Concrete moves on 3-by-3 boards: a board without mines, and the layout
    with one mine in the top-left corner
        X 1 0
        1 1 0
        0 0 0 */
module Scenarios {
  import opened Boards
  import opened Reveal
  import opened Game

  const Layout: Grid := [[Mine, Count(1), Count(0)], [Count(1), Count(1), Count(0)], [Count(0), Count(0), Count(0)]]

  /** Layout as the player sees it once every safe cell is shown. */
  const Cleared: Grid := [[Hidden, Count(1), Count(0)], [Count(1), Count(1), Count(0)], [Count(0), Count(0), Count(0)]]

  /** A 3-by-3 player's board before the first move. */
  const Unseen: Grid := [[Hidden, Hidden, Hidden], [Hidden, Hidden, Hidden], [Hidden, Hidden, Hidden]]

  /** The 3-by-3 board without mines. */
  const Zeros: Grid := [[Count(0), Count(0), Count(0)], [Count(0), Count(0), Count(0)], [Count(0), Count(0), Count(0)]]

  /** A walk of one hidden zero cell reaches all its neighbours. */
  lemma TouchedNext(truth: Grid, u: Grid, p: Pos, q: Pos)
    requires HiddenZero(truth, u, p) && Adjacent(p, q)
    ensures Touched(truth, u, p, q)
  {
    assert WalkTo(truth, u, p, q, [p]);
  }

  /** A walk of two hidden zero cells reaches the neighbours of the second. */
  lemma TouchedNextNext(truth: Grid, u: Grid, p: Pos, m: Pos, q: Pos)
    requires HiddenZero(truth, u, p) && HiddenZero(truth, u, m) && Adjacent(p, m) && Adjacent(m, q)
    ensures Touched(truth, u, p, q)
  {
    assert WalkTo(truth, u, p, q, [p, m]);
  }

  /** Without mines a move at p reaches every cell of the board. */
  lemma ZerosReached(p: Pos, q: Pos)
    requires ValidIndex(3, p.row, p.col) && ValidIndex(3, q.row, q.col)
    ensures At(Flood(Zeros, Unseen, p), q) == Count(0)
  {
    assert At(Flood(Zeros, Unseen, p), q) == FloodAt(Zeros, Unseen, p, q);
    if q != p {
      if Adjacent(p, q) {
        TouchedNext(Zeros, Unseen, p, q);
      } else {
        TouchedNextNext(Zeros, Unseen, p, Pos(1, 1), q);
      }
    }
  }

  lemma ZerosFlood(p: Pos)
    requires ValidIndex(3, p.row, p.col)
    ensures Flood(Zeros, Unseen, p) == Zeros
  {
    forall q: Pos | ValidIndex(3, q.row, q.col)
      ensures At(Flood(Zeros, Unseen, p), q) == At(Zeros, q)
    {
      ZerosReached(p, q);
    }
    FloodGrows(Zeros, Unseen, p, 3);
    GridExt(Flood(Zeros, Unseen, p), Zeros, 3);
  }

  lemma ZerosHideNothing()
    ensures HiddenCells(Zeros) == {}
  {
  }

  lemma ClearedHidesMine()
    ensures HiddenCells(Cleared) == {Pos(0, 0)}
  {
    assert Pos(0, 0) in HiddenCells(Cleared);
  }

  /** Without mines, the first move floods the whole board and wins. */
  lemma NoMinesFirstMoveWins(p: Pos)
    requires ValidIndex(3, p.row, p.col)
    ensures Step(Zeros, Unseen, 0, p) == Move(Won, Zeros)
  {
    ZerosFlood(p);
    ZerosHideNothing();
    StepZero(Zeros, Unseen, 0, p);
  }

  /** From the bottom-right zero the flood reaches every cell but the mine. */
  lemma CornerReached(q: Pos)
    requires ValidIndex(3, q.row, q.col)
    ensures At(Flood(Layout, Unseen, Pos(2, 2)), q) == At(Cleared, q)
  {
    var p := Pos(2, 2);
    assert At(Flood(Layout, Unseen, p), q) == FloodAt(Layout, Unseen, p, q);
    if q == Pos(0, 0) || q == p {
    } else if Adjacent(p, q) {
      TouchedNext(Layout, Unseen, p, q);
    } else if q.row == 0 {
      TouchedNextNext(Layout, Unseen, p, Pos(1, 2), q);
    } else {
      TouchedNextNext(Layout, Unseen, p, Pos(2, 1), q);
    }
  }

  lemma CornerFlood()
    ensures Flood(Layout, Unseen, Pos(2, 2)) == Cleared
  {
    forall q: Pos | ValidIndex(3, q.row, q.col)
      ensures At(Flood(Layout, Unseen, Pos(2, 2)), q) == At(Cleared, q)
    {
      CornerReached(q);
    }
    FloodGrows(Layout, Unseen, Pos(2, 2), 3);
    GridExt(Flood(Layout, Unseen, Pos(2, 2)), Cleared, 3);
  }

  /** A move on the bottom-right zero shows every cell but the
      mine, and wins. */
  lemma CornerZeroWins()
    ensures Step(Layout, Unseen, 1, Pos(2, 2)) == Move(Won, Cleared)
  {
    CornerFlood();
    ClearedHidesMine();
    StepZero(Layout, Unseen, 1, Pos(2, 2));
  }

  /** Choosing the mine loses at once. */
  lemma MineLoses(u: Grid)
    requires IsSquare(u, 3)
    ensures Step(Layout, u, 1, Pos(0, 0)).status == Lost
  {
  }

  /** Choosing the 1 next to the mine shows that cell alone and
      the game goes on. */
  lemma CountShowsOneCell()
    ensures Step(Layout, Unseen, 1, Pos(0, 1)) ==
      Move(Playing, [[Hidden, Count(1), Hidden], [Hidden, Hidden, Hidden], [Hidden, Hidden, Hidden]])
  {
    var v := [[Hidden, Count(1), Hidden], [Hidden, Hidden, Hidden], [Hidden, Hidden, Hidden]];
    assert IsSquare(Unseen, 3);
    StepCount(Layout, Unseen, 1, Pos(0, 1));
    GridExt(Step(Layout, Unseen, 1, Pos(0, 1)).board, v, 3);
    assert Pos(0, 0) in HiddenCells(v) && Pos(1, 1) in HiddenCells(v);
    SubsetCard({Pos(0, 0), Pos(1, 1)}, HiddenCells(v));
  }
}
