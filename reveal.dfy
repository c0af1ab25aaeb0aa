/** `reveal_zeros`: the recursive flood reveal of the player's board.
    The result of one call is specified by `Flood`, which says, cell by cell,
    what the player's board holds afterwards; the method is proved against it. */
module Reveal {
  import opened Boards

  /** q is a zero cell of the true board that the player's board still hides. */
  ghost predicate HiddenZero(truth: Grid, u: Grid, q: Pos) {
    ValidIndex(|truth|, q.row, q.col) && At(truth, q) == Count(0) && At(u, q) == Hidden
  }

  /** An 8-connected walk through hidden zero cells. */
  ghost predicate ZeroPath(truth: Grid, u: Grid, path: seq<Pos>) {
    (forall k :: 0 <= k < |path| ==> HiddenZero(truth, u, path[k])) &&
    (forall k :: 0 <= k < |path| - 1 ==> Adjacent(path[k], path[k + 1]))
  }

  /** path is a walk through hidden zero cells from p whose last cell borders q. */
  ghost predicate WalkTo(truth: Grid, u: Grid, p: Pos, q: Pos, path: seq<Pos>) {
    ZeroPath(truth, u, path) && |path| > 0 && path[0] == p && Adjacent(path[|path| - 1], q)
  }

  /** A call at p reaches q: q is p itself, or q borders the end of a walk
      through hidden zero cells that starts at p. */
  ghost predicate Touched(truth: Grid, u: Grid, p: Pos, q: Pos) {
    q == p || exists path :: WalkTo(truth, u, p, q, path)
  }

  /** A reached cell is overwritten with its true value unless it is a mine
      or a zero the player already sees (the two tests of the source). */
  predicate Writable(truth: Grid, u: Grid, q: Pos) {
    At(truth, q) != Mine && (At(truth, q) != Count(0) || At(u, q) == Hidden)
  }

  /** Revealing q would not change it. */
  predicate Settled(truth: Grid, u: Grid, q: Pos) {
    !Writable(truth, u, q) || At(u, q) == At(truth, q)
  }

  /** Every on-board neighbour of q is settled. */
  ghost predicate Expanded(truth: Grid, u: Grid, q: Pos) {
    forall m: Pos :: ValidIndex(|truth|, m.row, m.col) && Adjacent(q, m) ==> Settled(truth, u, m)
  }

  /** The player's board after a reveal at p, at cell q. */
  ghost function FloodAt(truth: Grid, u: Grid, p: Pos, q: Pos): Cell {
    if Touched(truth, u, p, q) && Writable(truth, u, q) then At(truth, q) else At(u, q)
  }

  /** The player's board after a reveal at p. */
  ghost function Flood(truth: Grid, u: Grid, p: Pos): (v: Grid)
    ensures |v| == |u| && forall r :: 0 <= r < |u| ==> |v[r]| == |u[r]|
    ensures forall q: Pos :: 0 <= q.row < |u| && 0 <= q.col < |u[q.row]| ==> At(v, q) == FloodAt(truth, u, p, q)
  {
    seq(|u|, r requires 0 <= r < |u| =>
      seq(|u[r]|, c requires 0 <= c < |u[r]| => FloodAt(truth, u, p, Pos(r, c))))
  }

  /** The hidden zero cells: the measure that every productive expansion shrinks. */
  ghost function HiddenZeros(truth: Grid, u: Grid): set<Pos> {
    set q | q in AllCells(|truth|) && HiddenZero(truth, u, q)
  }

  /** From ua to ub cells only change to their true value, and only where
      that was writable. */
  ghost predicate Grows(truth: Grid, ua: Grid, ub: Grid) {
    forall q: Pos :: ValidIndex(|truth|, q.row, q.col) && At(ub, q) != At(ua, q) ==>
      At(ub, q) == At(truth, q) && Writable(truth, ua, q)
  }

  /** What holds in the middle of a zero expansion at p that started from u0:
      every change so far is one the finished call makes, and every hidden
      zero revealed so far (other than p) is already expanded. */
  ghost predicate RevealInv(truth: Grid, u0: Grid, u: Grid, p: Pos) {
    (forall q: Pos :: ValidIndex(|truth|, q.row, q.col) && At(u, q) != At(u0, q) ==>
       At(u, q) == At(truth, q) && Touched(truth, u0, p, q) && Writable(truth, u0, q)) &&
    (forall q: Pos :: q != p && HiddenZero(truth, u0, q) && At(u, q) != Hidden ==> Expanded(truth, u, q))
  }

  lemma GrowsKeeps(truth: Grid, ua: Grid, ub: Grid)
    requires Grows(truth, ua, ub)
    ensures forall q: Pos :: ValidIndex(|truth|, q.row, q.col) && Settled(truth, ua, q) ==> Settled(truth, ub, q)
    ensures forall q: Pos :: Expanded(truth, ua, q) ==> Expanded(truth, ub, q)
    ensures forall q: Pos :: HiddenZero(truth, ub, q) ==> HiddenZero(truth, ua, q)
    ensures forall q: Pos :: ValidIndex(|truth|, q.row, q.col) && Writable(truth, ub, q) ==> Writable(truth, ua, q)
    ensures HiddenZeros(truth, ub) <= HiddenZeros(truth, ua)
  {
  }

  /** A flood only writes true values where writable. */
  lemma FloodGrows(truth: Grid, u: Grid, p: Pos, n: int)
    requires IsSquare(truth, n) && IsSquare(u, n)
    ensures IsSquare(Flood(truth, u, p), n)
    ensures Grows(truth, u, Flood(truth, u, p))
  {
  }

  /** Extending a zero walk by one more hidden zero cell. */
  lemma ZeroPathExtend(truth: Grid, u: Grid, path: seq<Pos>, q: Pos)
    requires ZeroPath(truth, u, path) && |path| > 0 && Adjacent(path[|path| - 1], q)
    requires HiddenZero(truth, u, q)
    ensures ZeroPath(truth, u, path + [q])
  {
    var ext := path + [q];
    forall k | 0 <= k < |ext| ensures HiddenZero(truth, u, ext[k]) {
      if k < |path| { assert ext[k] == path[k]; }
    }
    forall k | 0 <= k < |ext| - 1 ensures Adjacent(ext[k], ext[k + 1]) {
      assert ext[k] == path[k];
      if k + 1 < |path| { assert ext[k + 1] == path[k + 1]; }
    }
  }

  /** The end of a walk from p reaches its neighbours. */
  lemma WalkTouches(truth: Grid, u: Grid, p: Pos, path: seq<Pos>, m: Pos)
    requires ZeroPath(truth, u, path) && |path| > 0 && path[0] == p && Adjacent(path[|path| - 1], m)
    ensures Touched(truth, u, p, m)
  {
    assert WalkTo(truth, u, p, m, path);
  }

  /** A hidden zero that a call at p reaches extends a walk from p, so a
      flood from p settles all its neighbours. */
  lemma ReachedZeroExpanded(truth: Grid, u: Grid, p: Pos, q: Pos, n: int)
    requires IsSquare(truth, n) && IsSquare(u, n)
    requires HiddenZero(truth, u, q) && Touched(truth, u, p, q)
    ensures Expanded(truth, Flood(truth, u, p), q)
  {
    var v := Flood(truth, u, p);
    var ext: seq<Pos>;
    if q == p {
      ext := [p];
    } else {
      var path :| WalkTo(truth, u, p, q, path);
      ZeroPathExtend(truth, u, path, q);
      ext := path + [q];
    }
    assert ZeroPath(truth, u, ext) && |ext| > 0 && ext[0] == p && ext[|ext| - 1] == q;
    forall m: Pos | ValidIndex(n, m.row, m.col) && Adjacent(q, m)
      ensures Settled(truth, v, m)
    {
      WalkTouches(truth, u, p, ext, m);
      assert At(Flood(truth, u, p), m) == FloodAt(truth, u, p, m);
    }
  }

  /** The zero region a flood reveals is closed: every hidden zero it
      reveals has all its on-board neighbours settled, and p itself is settled. */
  lemma FloodClosed(truth: Grid, u: Grid, p: Pos, n: int)
    requires IsSquare(truth, n) && IsSquare(u, n)
    ensures forall q: Pos :: HiddenZero(truth, u, q) && At(Flood(truth, u, p), q) != Hidden ==>
      Expanded(truth, Flood(truth, u, p), q)
    ensures ValidIndex(n, p.row, p.col) ==> Settled(truth, Flood(truth, u, p), p)
  {
    var v := Flood(truth, u, p);
    forall q: Pos | HiddenZero(truth, u, q) && At(v, q) != Hidden
      ensures Expanded(truth, v, q)
    {
      assert At(v, q) == FloodAt(truth, u, p, q);
      ReachedZeroExpanded(truth, u, p, q, n);
    }
    if ValidIndex(n, p.row, p.col) {
      assert At(v, p) == FloodAt(truth, u, p, p);
    }
  }

  /** A call at m inside the expansion at p reaches only cells the call at p reaches. */
  lemma TouchedTransfer(truth: Grid, u0: Grid, uk: Grid, p: Pos, m: Pos, q: Pos)
    requires Grows(truth, u0, uk)
    requires HiddenZero(truth, u0, p) && Adjacent(p, m)
    requires Touched(truth, uk, m, q)
    ensures Touched(truth, u0, p, q)
  {
    GrowsKeeps(truth, u0, uk);
    if q == m {
      assert WalkTo(truth, u0, p, q, [p]);
    } else {
      var path :| WalkTo(truth, uk, m, q, path);
      var ext := [p] + path;
      forall k | 0 <= k < |ext| ensures HiddenZero(truth, u0, ext[k]) {
        if k > 0 { assert ext[k] == path[k - 1]; }
      }
      forall k | 0 <= k < |ext| - 1 ensures Adjacent(ext[k], ext[k + 1]) {
        assert ext[k + 1] == path[k];
        if k > 0 { assert ext[k] == path[k - 1]; }
      }
      assert ZeroPath(truth, u0, ext) && ext[|ext| - 1] == path[|path| - 1];
      assert WalkTo(truth, u0, p, q, ext);
    }
  }

  /** Revealing the zero p starts the expansion. */
  lemma ExpansionStart(truth: Grid, u0: Grid, u: Grid, p: Pos, n: int)
    requires IsSquare(truth, n) && IsSquare(u0, n) && IsSquare(u, n)
    requires HiddenZero(truth, u0, p)
    requires forall q: Pos :: ValidIndex(n, q.row, q.col) ==> At(u, q) == if q == p then Count(0) else At(u0, q)
    ensures RevealInv(truth, u0, u, p)
  {
  }

  /** One recursive call at the neighbour m keeps the expansion invariant,
      never hides a settled cell again and settles m. */
  lemma ExpansionStep(truth: Grid, u0: Grid, uk: Grid, p: Pos, m: Pos, n: int)
    requires IsSquare(truth, n) && IsSquare(u0, n) && IsSquare(uk, n)
    requires RevealInv(truth, u0, uk, p) && HiddenZero(truth, u0, p) && Adjacent(p, m)
    ensures RevealInv(truth, u0, Flood(truth, uk, m), p)
    ensures Grows(truth, uk, Flood(truth, uk, m))
    ensures ValidIndex(n, m.row, m.col) ==> Settled(truth, Flood(truth, uk, m), m)
  {
    var v := Flood(truth, uk, m);
    FloodGrows(truth, uk, m, n);
    FloodClosed(truth, uk, m, n);
    GrowsKeeps(truth, u0, uk);
    GrowsKeeps(truth, uk, v);
    forall q: Pos | ValidIndex(n, q.row, q.col) && At(v, q) != At(u0, q)
      ensures At(v, q) == At(truth, q) && Touched(truth, u0, p, q) && Writable(truth, u0, q)
    {
      if At(v, q) != At(uk, q) {
        assert Touched(truth, uk, m, q) && Writable(truth, uk, q);
        TouchedTransfer(truth, u0, uk, p, m, q);
      }
    }
    forall q: Pos | q != p && HiddenZero(truth, u0, q) && At(v, q) != Hidden
      ensures Expanded(truth, v, q)
    {
      if At(uk, q) != Hidden {
        assert Expanded(truth, uk, q);
      } else {
        assert HiddenZero(truth, uk, q);
      }
    }
  }

  /** Along a zero walk from p every cell is revealed and expanded once the
      expansion at p has settled all of p's neighbours. */
  lemma {:induction false} WalkExpanded(truth: Grid, u0: Grid, u: Grid, p: Pos, path: seq<Pos>, k: nat, n: int)
    requires IsSquare(truth, n)
    requires RevealInv(truth, u0, u, p) && At(u, p) == Count(0) && Expanded(truth, u, p)
    requires ZeroPath(truth, u0, path) && |path| > 0 && path[0] == p && k < |path|
    ensures Expanded(truth, u, path[k])
  {
    if k > 0 {
      WalkExpanded(truth, u0, u, p, path, k - 1, n);
      var x := path[k];
      assert HiddenZero(truth, u0, x) && Adjacent(path[k - 1], x);
      assert Settled(truth, u, x);
      assert At(u, x) != Hidden;
    }
  }

  /** A cell the call at p reaches and may write holds its true value once
      the expansion at p has settled all of p's neighbours. */
  lemma ExpansionReaches(truth: Grid, u0: Grid, u: Grid, p: Pos, q: Pos, n: int)
    requires IsSquare(truth, n) && IsSquare(u0, n) && IsSquare(u, n)
    requires RevealInv(truth, u0, u, p) && HiddenZero(truth, u0, p)
    requires At(u, p) == Count(0) && Expanded(truth, u, p)
    requires ValidIndex(n, q.row, q.col) && Touched(truth, u0, p, q) && Writable(truth, u0, q)
    ensures At(u, q) == At(truth, q)
  {
    if q != p {
      var path :| WalkTo(truth, u0, p, q, path);
      WalkExpanded(truth, u0, u, p, path, |path| - 1, n);
      assert Settled(truth, u, q);
    }
  }

  /** The expansion at p, once all neighbours of p are settled, has produced
      exactly Flood(truth, u0, p). */
  lemma ExpansionDone(truth: Grid, u0: Grid, u: Grid, p: Pos, n: int)
    requires IsSquare(truth, n) && IsSquare(u0, n) && IsSquare(u, n)
    requires RevealInv(truth, u0, u, p) && HiddenZero(truth, u0, p)
    requires At(u, p) == Count(0) && Expanded(truth, u, p)
    ensures u == Flood(truth, u0, p)
  {
    var v := Flood(truth, u0, p);
    forall q: Pos | ValidIndex(n, q.row, q.col)
      ensures At(u, q) == At(v, q)
    {
      assert At(v, q) == FloodAt(truth, u0, p, q);
      if Touched(truth, u0, p, q) && Writable(truth, u0, q) {
        ExpansionReaches(truth, u0, u, p, q, n);
      }
    }
    GridExt(u, v, n);
  }

  /** When p is not a hidden zero nothing is reached but p itself. */
  lemma FloodNoExpansion(truth: Grid, u: Grid, p: Pos, n: int)
    requires IsSquare(truth, n) && IsSquare(u, n)
    requires !HiddenZero(truth, u, p)
    ensures forall q: Pos :: ValidIndex(n, q.row, q.col) ==>
      At(Flood(truth, u, p), q) == if q == p && Writable(truth, u, p) then At(truth, p) else At(u, q)
  {
    forall path: seq<Pos> | ZeroPath(truth, u, path) && |path| > 0
      ensures path[0] != p
    {
      assert HiddenZero(truth, u, path[0]);
    }
  }

  /** The neighbours of p at offsets before (i, j), in the order of the
      two loops, are settled. */
  ghost predicate PrefixSettled(truth: Grid, u: Grid, p: Pos, i: int, j: int) {
    forall m: Pos ::
      (ValidIndex(|truth|, m.row, m.col) && Adjacent(p, m) && (m.row - p.row < i || (m.row - p.row == i && m.col - p.col < j))) ==>
      Settled(truth, u, m)
  }

  /** The loop invariant of the expansion at p, at offset (i, j). */
  ghost predicate Expanding(truth: Grid, u0: Grid, u: Grid, p: Pos, i: int, j: int) {
    IsSquare(truth, |truth|) && IsSquare(u0, |truth|) && IsSquare(u, |truth|) &&
    HiddenZero(truth, u0, p) && RevealInv(truth, u0, u, p) && At(u, p) == Count(0) &&
    PrefixSettled(truth, u, p, i, j)
  }

  /** Revealing p opens the expansion at offset (-1, -1). */
  lemma ExpansionOpen(truth: Grid, u0: Grid, u: Grid, p: Pos, n: int)
    requires IsSquare(truth, n) && IsSquare(u0, n) && IsSquare(u, n)
    requires HiddenZero(truth, u0, p)
    requires forall q: Pos :: ValidIndex(n, q.row, q.col) ==> At(u, q) == if q == p then Count(0) else At(u0, q)
    ensures Expanding(truth, u0, u, p, -1, -1)
  {
    ExpansionStart(truth, u0, u, p, n);
  }

  /** The loop body at offset (i, j): a recursive call at that neighbour
      (skipping p itself) moves the invariant to the next offset. */
  lemma ExpansionNext(truth: Grid, u0: Grid, uk: Grid, v: Grid, p: Pos, i: int, j: int)
    requires -1 <= i <= 1 && -1 <= j <= 1
    requires Expanding(truth, u0, uk, p, i, j)
    requires v == if i != 0 || j != 0 then Flood(truth, uk, Pos(p.row + i, p.col + j)) else uk
    ensures Expanding(truth, u0, v, p, i, j + 1)
  {
    var n := |truth|;
    if i != 0 || j != 0 {
      var m := Pos(p.row + i, p.col + j);
      ExpansionStep(truth, u0, uk, p, m, n);
      FloodGrows(truth, uk, m, n);
      GrowsKeeps(truth, uk, v);
      assert At(v, p) == Count(0);
      forall q: Pos | ValidIndex(n, q.row, q.col) && Adjacent(p, q) && (q.row - p.row < i || (q.row - p.row == i && q.col - p.col < j + 1))
        ensures Settled(truth, v, q)
      {
        if q.row - p.row == i && q.col - p.col == j {
          assert q == m;
        } else {
          assert Settled(truth, uk, q);
        }
      }
    }
  }

  /** Finishing a row of offsets starts the next one. */
  lemma ExpansionRow(truth: Grid, u0: Grid, u: Grid, p: Pos, i: int)
    requires Expanding(truth, u0, u, p, i, 2)
    ensures Expanding(truth, u0, u, p, i + 1, -1)
  {
  }

  /** Once all offsets are done, the player's board is the flood from p. */
  lemma ExpansionClose(truth: Grid, u0: Grid, u: Grid, p: Pos)
    requires Expanding(truth, u0, u, p, 2, -1)
    ensures u == Flood(truth, u0, p)
  {
    assert Expanded(truth, u, p);
    ExpansionDone(truth, u0, u, p, |truth|);
  }

  /** Writing the true value of a writable cell changes that cell alone and
      is such a change; writing the zero at a hidden zero removes that
      hidden zero. */
  lemma RevealOne(truth: Grid, u: Grid, p: Pos)
    requires IsSquare(truth, |truth|) && IsSquare(u, |truth|) && ValidIndex(|truth|, p.row, p.col)
    requires Writable(truth, u, p)
    ensures IsSquare(Update(u, p, At(truth, p)), |truth|)
    ensures forall q: Pos :: ValidIndex(|truth|, q.row, q.col) ==>
      At(Update(u, p, At(truth, p)), q) == if q == p then At(truth, p) else At(u, q)
    ensures Grows(truth, u, Update(u, p, At(truth, p)))
    ensures HiddenZero(truth, u, p) ==> HiddenZeros(truth, Update(u, p, At(truth, p))) < HiddenZeros(truth, u)
  {
    var v := Update(u, p, At(truth, p));
    UpdateAt(u, |truth|, p, At(truth, p));
    GrowsKeeps(truth, u, v);
    if HiddenZero(truth, u, p) {
      assert p in HiddenZeros(truth, u) && p !in HiddenZeros(truth, v);
    }
  }

  /** Revealing a hidden zero removes it from the hidden zeros and keeps the
      board square. */
  lemma RevealZeroShrinks(truth: Grid, u: Grid, p: Pos)
    requires IsSquare(truth, |truth|) && IsSquare(u, |truth|) && ValidIndex(|truth|, p.row, p.col)
    requires HiddenZero(truth, u, p)
    ensures IsSquare(Update(u, p, At(truth, p)), |truth|)
    ensures HiddenZeros(truth, Update(u, p, At(truth, p))) < HiddenZeros(truth, u)
  {
    RevealOne(truth, u, p);
  }

  /** The player's board after `reveal_zeros` at p, following the source's
      recursion step by step: off the board nothing happens; a hidden zero is
      revealed and the call recurs on its eight neighbours in row-major
      order; any other non-mine non-zero cell is revealed. */
  ghost function RevealAt(truth: Grid, u: Grid, p: Pos): (r: Grid)
    requires IsSquare(truth, |truth|) && IsSquare(u, |truth|)
    ensures IsSquare(r, |truth|)
    ensures HiddenZeros(truth, r) <= HiddenZeros(truth, u)
    decreases HiddenZeros(truth, u), 1, 0, 0
  {
    if !ValidIndex(|truth|, p.row, p.col) then u
    else if At(truth, p) == Count(0) && At(u, p) == Hidden then
      RevealZeroShrinks(truth, u, p);
      RevealAround(truth, u, Update(u, p, At(truth, p)), p, -1, -1)
    else if At(truth, p) != Count(0) && At(truth, p) != Mine then
      RevealOne(truth, u, p);
      Update(u, p, At(truth, p))
    else u
  }

  /** The body of the inner loop at offset (i, j): a recursive call at that
      neighbour, except at offset (0, 0). */
  ghost function Visit(truth: Grid, u: Grid, p: Pos, i: int, j: int): (r: Grid)
    requires IsSquare(truth, |truth|) && IsSquare(u, |truth|)
    ensures IsSquare(r, |truth|)
    ensures HiddenZeros(truth, r) <= HiddenZeros(truth, u)
    decreases HiddenZeros(truth, u), 1, 1, 0
  {
    if i != 0 || j != 0 then RevealAt(truth, u, Pos(p.row + i, p.col + j)) else u
  }

  /** The two loops of `reveal_zeros` at p from offset (i, j) on, where u0 is
      the board the call at p started from and u the current board. */
  ghost function RevealAround(truth: Grid, u0: Grid, u: Grid, p: Pos, i: int, j: int): (r: Grid)
    requires -1 <= i <= 2 && -1 <= j <= 2
    requires IsSquare(truth, |truth|) && IsSquare(u, |truth|)
    requires HiddenZeros(truth, u) < HiddenZeros(truth, u0)
    ensures IsSquare(r, |truth|)
    ensures HiddenZeros(truth, r) <= HiddenZeros(truth, u)
    decreases HiddenZeros(truth, u0), 0, 2 - i, 2 - j
  {
    if i == 2 then u
    else if j == 2 then RevealAround(truth, u0, u, p, i + 1, -1)
    else RevealAround(truth, u0, Visit(truth, u, p, i, j), p, i, j + 1)
  }

  /** The loops of the call at p, begun from board u0, have reached offset
      (i, j) with board u, and finishing them yields target. */
  ghost predicate AroundFrom(truth: Grid, u0: Grid, u: Grid, p: Pos, i: int, j: int, target: Grid) {
    -1 <= i <= 2 && -1 <= j <= 2 && IsSquare(truth, |truth|) && IsSquare(u, |truth|) &&
    HiddenZeros(truth, u) < HiddenZeros(truth, u0) &&
    RevealAround(truth, u0, u, p, i, j) == target
  }

  /** One step of the loops: visit offset (i, j), then go on from the next one. */
  lemma AroundStep(truth: Grid, u0: Grid, u: Grid, p: Pos, i: int, j: int, v: Grid)
    requires -1 <= i <= 1 && -1 <= j <= 1
    requires IsSquare(truth, |truth|) && IsSquare(u, |truth|)
    requires HiddenZeros(truth, u) < HiddenZeros(truth, u0)
    requires if i != 0 || j != 0 then v == RevealAt(truth, u, Pos(p.row + i, p.col + j)) else v == u
    ensures IsSquare(v, |truth|)
    ensures HiddenZeros(truth, v) < HiddenZeros(truth, u0)
    ensures RevealAround(truth, u0, u, p, i, j) == RevealAround(truth, u0, v, p, i, j + 1)
  {
    assert v == Visit(truth, u, p, i, j);
  }

  /** The step-by-step reveal produces exactly the flood from p. */
  lemma RevealIsFlood(truth: Grid, u: Grid, p: Pos)
    requires IsSquare(truth, |truth|) && IsSquare(u, |truth|)
    ensures RevealAt(truth, u, p) == Flood(truth, u, p)
    decreases HiddenZeros(truth, u), 1, 0, 0
  {
    var n := |truth|;
    if ValidIndex(n, p.row, p.col) && At(truth, p) == Count(0) && At(u, p) == Hidden {
      var u1 := Update(u, p, At(truth, p));
      RevealOne(truth, u, p);
      UpdateAt(u, n, p, At(truth, p));
      ExpansionOpen(truth, u, u1, p, n);
      AroundExpands(truth, u, u1, p, -1, -1);
      ExpansionClose(truth, u, RevealAround(truth, u, u1, p, -1, -1), p);
    } else {
      FloodNoExpansion(truth, u, p, n);
      if ValidIndex(n, p.row, p.col) && At(truth, p) != Count(0) && At(truth, p) != Mine {
        UpdateAt(u, n, p, At(truth, p));
      }
      GridExt(RevealAt(truth, u, p), Flood(truth, u, p), n);
    }
  }

  /** The loops from offset (i, j) on complete the expansion at p. */
  lemma AroundExpands(truth: Grid, u0: Grid, u: Grid, p: Pos, i: int, j: int)
    requires -1 <= i <= 2 && -1 <= j <= 2
    requires Expanding(truth, u0, u, p, i, j)
    requires HiddenZeros(truth, u) < HiddenZeros(truth, u0)
    ensures Expanding(truth, u0, RevealAround(truth, u0, u, p, i, j), p, 2, -1)
    decreases HiddenZeros(truth, u0), 0, 2 - i, 2 - j
  {
    if i == 2 {
      assert RevealAround(truth, u0, u, p, i, j) == u;
    } else if j == 2 {
      ExpansionRow(truth, u0, u, p, i);
      AroundExpands(truth, u0, u, p, i + 1, -1);
      assert RevealAround(truth, u0, u, p, i, j) == RevealAround(truth, u0, u, p, i + 1, -1);
    } else {
      var v := Visit(truth, u, p, i, j);
      if i != 0 || j != 0 {
        RevealIsFlood(truth, u, Pos(p.row + i, p.col + j));
      }
      ExpansionNext(truth, u0, u, v, p, i, j);
      AroundStep(truth, u0, u, p, i, j, v);
      AroundExpands(truth, u0, v, p, i, j + 1);
    }
  }

  /** A call off the board returns at once: neither the step-by-step reveal
      nor the flood changes anything. */
  lemma RevealOffBoard(truth: Grid, u: Grid, p: Pos)
    requires IsSquare(truth, |truth|) && IsSquare(u, |truth|)
    requires !ValidIndex(|truth|, p.row, p.col)
    ensures RevealAt(truth, u, p) == u
    ensures Flood(truth, u, p) == u
  {
    RevealIsFlood(truth, u, p);
  }

  /** A reveal only ever copies true values onto the player's board, never a
      mine, and never rewrites a zero the player already sees. */
  lemma RevealWritesTruth(truth: Grid, u: Grid, p: Pos)
    requires IsSquare(truth, |truth|) && IsSquare(u, |truth|)
    ensures Grows(truth, u, RevealAt(truth, u, p))
    ensures forall q: Pos :: ValidIndex(|truth|, q.row, q.col) ==>
      At(RevealAt(truth, u, p), q) == At(u, q) ||
      (At(RevealAt(truth, u, p), q) == At(truth, q) && At(truth, q) != Mine)
  {
    RevealIsFlood(truth, u, p);
    FloodGrows(truth, u, p, |truth|);
  }

  /** On a non-zero cell that is not a mine the call writes that one cell. */
  lemma RevealSingle(truth: Grid, u: Grid, p: Pos)
    requires IsSquare(truth, |truth|) && IsSquare(u, |truth|) && ValidIndex(|truth|, p.row, p.col)
    requires At(truth, p) != Count(0) && At(truth, p) != Mine
    ensures forall q: Pos :: ValidIndex(|truth|, q.row, q.col) ==>
      At(RevealAt(truth, u, p), q) == if q == p then At(truth, p) else At(u, q)
  {
    UpdateAt(u, |truth|, p, At(truth, p));
  }

  /** Calling `reveal_zeros` a second time at the same cell changes nothing. */
  lemma RevealIdempotent(truth: Grid, u: Grid, p: Pos)
    requires IsSquare(truth, |truth|) && IsSquare(u, |truth|)
    ensures RevealAt(truth, RevealAt(truth, u, p), p) == RevealAt(truth, u, p)
  {
    var r := RevealAt(truth, u, p);
    if ValidIndex(|truth|, p.row, p.col) {
      RevealIsFlood(truth, u, p);
      FloodClosed(truth, u, p, |truth|);
      assert Settled(truth, r, p);
      if At(truth, p) != Count(0) && At(truth, p) != Mine {
        UpdateAt(r, |truth|, p, At(truth, p));
        GridExt(Update(r, p, At(truth, p)), r, |truth|);
      }
    }
  }

  /** `reveal_zeros(real_board, user_board, row, col)`: the player's board
      afterwards is the step-by-step reveal, and so the flood, from (row, col).
      The true board is only read, so its contents are passed as a value. */
  method RevealZeros(realBoard: Grid, userBoard: Board, row: int, col: int)
    requires |realBoard| > 0
    requires IsSquare(realBoard, |realBoard|) && IsSquare(userBoard.rows, |realBoard|)
    modifies userBoard
    ensures userBoard.rows == RevealAt(realBoard, old(userBoard.rows), Pos(row, col))
    decreases HiddenZeros(realBoard, userBoard.rows)
  {
    if row >= |realBoard[0]| || col >= |realBoard[0]| || row < 0 || col < 0 {
      return;
    }

    if realBoard[row][col] == Count(0) && userBoard.rows[row][col] == Hidden {
      userBoard.rows := Update(userBoard.rows, Pos(row, col), realBoard[row][col]);
      RevealZeroShrinks(realBoard, old(userBoard.rows), Pos(row, col));
      for i := -1 to 2
        invariant AroundFrom(realBoard, old(userBoard.rows), userBoard.rows, Pos(row, col), i, -1,
          RevealAt(realBoard, old(userBoard.rows), Pos(row, col)))
      {
        for j := -1 to 2
          invariant AroundFrom(realBoard, old(userBoard.rows), userBoard.rows, Pos(row, col), i, j,
            RevealAt(realBoard, old(userBoard.rows), Pos(row, col)))
        {
          label before:
          if i != 0 || j != 0 {
            RevealZeros(realBoard, userBoard, row + i, col + j);
          }
          AroundStep(realBoard, old(userBoard.rows), old@before(userBoard.rows), Pos(row, col), i, j, userBoard.rows);
        }
      }
    }

    if realBoard[row][col] != Count(0) && !IsMine(realBoard, row, col) {
      userBoard.rows := Update(userBoard.rows, Pos(row, col), realBoard[row][col]);
    }
  }
}
