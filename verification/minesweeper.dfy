/** The Minesweeper game state and its transitions: the recursive flood-fill
    reveal (`openCell`), left and right clicks, and the win check. */
module Minesweeper {
  import opened MineBoard
  import opened MinePlacement

  /** The game's globals: the board, the flag counter shown as "mines left",
      the number of opened cells, and the two phase flags. */
  datatype Game = Game(board: Board, mineCount: int, cellsOpened: int, gameOver: bool, firstClick: bool)

  /** `initGame`. */
  function InitGame(): (g: Game)
    ensures WellFormed(g.board)
    ensures forall i, j :: InGrid(i, j) ==> g.board[i][j] == FreshCell(i, j)
    ensures g.mineCount == Mines && g.cellsOpened == 0 && !g.gameOver && g.firstClick
  {
    Game(FreshBoard(), Mines, 0, false, true)
  }

  // ---------------------------------------------------------------------------
  // What a reveal may do

  /** `b'` only opens cells of `b`: every other field stays, open cells stay open. */
  ghost predicate OnlyOpens(b: Board, b': Board)
    requires WellFormed(b) && WellFormed(b')
  {
    forall i, j :: InGrid(i, j) ==>
      b'[i][j] == b[i][j].(isOpen := b'[i][j].isOpen) && (b[i][j].isOpen ==> b'[i][j].isOpen)
  }

  /** No newly opened cell is flagged, and none is a mine unless it is in `except`. */
  ghost predicate SafelyOpened(b: Board, b': Board, except: set<Pos>)
    requires WellFormed(b) && WellFormed(b')
  {
    forall i, j :: InGrid(i, j) && b'[i][j].isOpen && !b[i][j].isOpen ==>
      !b[i][j].isFlagged && (b[i][j].isMine ==> (i, j) in except)
  }

  /** The `k`-th neighbour of `(i, j)`, if it exists and is neither a mine nor
      flagged, is open. */
  ghost predicate Settled(b: Board, i: int, j: int, k: int)
    requires WellFormed(b) && 0 <= k < 8
  {
    var (ni, nj) := Neighbor(i, j, k);
    InGrid(ni, nj) && !b[ni][nj].isMine && !b[ni][nj].isFlagged ==> b[ni][nj].isOpen
  }

  ghost predicate AroundOpen(b: Board, i: int, j: int)
    requires WellFormed(b)
  {
    forall k :: 0 <= k < 8 ==> Settled(b, i, j, k)
  }

  /** `openCell` carries on into the neighbours of a cell whose count is not
      positive, i.e. of a cell with no neighbouring mines. */
  predicate Spreads(c: Cell) {
    c.neighborMines <= 0
  }

  /** Flood-fill closure: around every newly opened cell with no neighbouring
      mines, every neighbour that is neither a mine nor flagged is open. */
  ghost predicate FloodClosed(b: Board, b': Board)
    requires WellFormed(b) && WellFormed(b')
  {
    forall i, j :: InGrid(i, j) && b'[i][j].isOpen && !b[i][j].isOpen && Spreads(b'[i][j]) ==>
      AroundOpen(b', i, j)
  }

  /** A chain of adjacent cells along which the flood fill can travel on `b`:
      every cell but the last has no neighbouring mines, and every cell after
      the first is closed, unflagged and not a mine. */
  ghost predicate IsPath(b: Board, p: seq<Pos>)
    requires WellFormed(b)
  {
    |p| >= 1
    && (forall k :: 0 <= k < |p| ==> InGrid(p[k].0, p[k].1))
    && (forall k :: 0 < k < |p| ==>
          Adjacent(p[k - 1].0, p[k - 1].1, p[k].0, p[k].1)
          && !b[p[k].0][p[k].1].isOpen && !b[p[k].0][p[k].1].isMine && !b[p[k].0][p[k].1].isFlagged)
    && (forall k :: 0 <= k < |p| - 1 ==> Spreads(b[p[k].0][p[k].1]))
  }

  /** The flood fill can travel on `b` from `(x, y)` to `(i, j)`. */
  ghost predicate Reaches(b: Board, x: int, y: int, i: int, j: int)
    requires WellFormed(b)
  {
    exists p :: IsPath(b, p) && p[0] == (x, y) && p[|p| - 1] == (i, j)
  }

  /** Flood-fill support: every cell newly opened in `b'` is reached from
      `(x, y)` on `b`. */
  ghost predicate ReachedFrom(b: Board, b': Board, x: int, y: int)
    requires WellFormed(b) && WellFormed(b')
  {
    forall i, j :: InGrid(i, j) && b'[i][j].isOpen && !b[i][j].isOpen ==> Reaches(b, x, y, i, j)
  }

  /** Everything a reveal promises about its result `g'`. */
  ghost predicate Revealed(g: Game, g': Game, except: set<Pos>)
    requires WellFormed(g.board)
  {
    WellFormed(g'.board)
    && g' == g.(board := g'.board, cellsOpened := g'.cellsOpened)
    && OnlyOpens(g.board, g'.board)
    && SafelyOpened(g.board, g'.board, except)
    && FloodClosed(g.board, g'.board)
    && g'.cellsOpened - g.cellsOpened == |CellsWith(g'.board, Opened)| - |CellsWith(g.board, Opened)|
  }

  // ---------------------------------------------------------------------------
  // The flood fill

  /** `openCell(x, y)`: nothing happens on an open or flagged cell; otherwise
      the cell is opened and counted, and when it has no neighbouring mines
      its closed, mine-free neighbours are opened in turn. */
  function OpenCell(g: Game, x: int, y: int): (r: Game)
    requires WellFormed(g.board) && InGrid(x, y)
    ensures Revealed(g, r, {(x, y)})
    ensures g.board[x][y].isOpen || g.board[x][y].isFlagged ==> r == g
    ensures !g.board[x][y].isFlagged ==> r.board[x][y].isOpen
    ensures ReachedFrom(g.board, r.board, x, y)
    ensures !g.board[x][y].isOpen && !g.board[x][y].isFlagged && !Spreads(g.board[x][y]) ==>
      r.cellsOpened == g.cellsOpened + 1
      && forall i, j :: InGrid(i, j) && (i, j) != (x, y) ==> r.board[i][j] == g.board[i][j]
    decreases ClosedCells(g.board), 0, 0
  {
    var c := g.board[x][y];
    if c.isOpen || c.isFlagged then
      RevealedNothing(g, {(x, y)});
      g
    else
      var g1 := g.(board := SetCell(g.board, x, y, c.(isOpen := true)), cellsOpened := g.cellsOpened + 1);
      OpenOne(g, g1, x, y);
      OpenOneReach(g.board, g1.board, x, y);
      if c.neighborMines > 0 then
        g1
      else
        var r := OpenNeighbors(g1, x, y, 0);
        AfterNeighbors(g, g1, r, x, y);
        AfterNeighborsReach(g, g1, r, x, y);
        r
  }

  /** The double loop of `openCell` over the neighbours of `(x, y)`, from
      offset `k` on: each neighbour inside the grid that is neither open nor
      a mine is passed to `OpenCell`. */
  function OpenNeighbors(g: Game, x: int, y: int, k: int): (r: Game)
    requires WellFormed(g.board) && InGrid(x, y) && 0 <= k <= 8
    requires Spreads(g.board[x][y])
    ensures NeighborsOpened(g, r, x, y, k)
    ensures ReachedFrom(g.board, r.board, x, y)
    decreases ClosedCells(g.board), 1, 8 - k
  {
    if k == 8 then
      RevealedNothing(g, {});
      g
    else
      var (nx, ny) := Neighbor(x, y, k);
      if InGrid(nx, ny) && !g.board[nx][ny].isOpen && !g.board[nx][ny].isMine then
        var g2 := OpenCell(g, nx, ny);
        OpenedNeighbor(g, g2, nx, ny);
        var r := OpenNeighbors(g2, x, y, k + 1);
        OpenedStep(g, g2, r, x, y, k);
        OpenedStepReach(g, g2, r, x, y, k);
        r
      else
        var r := OpenNeighbors(g, x, y, k + 1);
        SkippedStep(g, r, x, y, k);
        r
  }

  /** What the loop from offset `k` achieves: a reveal that opens no mine,
      after which neighbours `k` to 7 are settled. */
  ghost predicate NeighborsOpened(g: Game, r: Game, x: int, y: int, k: int)
    requires WellFormed(g.board) && 0 <= k <= 8
  {
    Revealed(g, r, {}) && forall l :: k <= l < 8 ==> Settled(r.board, x, y, l)
  }

  /** Neighbour `k` was handed to `OpenCell`, which opened it unless flagged. */
  lemma OpenedStep(g: Game, g2: Game, r: Game, x: int, y: int, k: int)
    requires WellFormed(g.board) && WellFormed(g2.board) && 0 <= k < 8
    requires InGrid(Neighbor(x, y, k).0, Neighbor(x, y, k).1)
    requires var (nx, ny) := Neighbor(x, y, k);
      !g2.board[nx][ny].isFlagged ==> g2.board[nx][ny].isOpen
    requires Revealed(g, g2, {})
    requires NeighborsOpened(g2, r, x, y, k + 1)
    ensures NeighborsOpened(g, r, x, y, k)
  {
    RevealedTrans(g, g2, r);
    SettledKept(g2.board, r.board, x, y, k);
  }

  /** Neighbour `k` was outside the grid, open or a mine: nothing to do. */
  lemma SkippedStep(g: Game, r: Game, x: int, y: int, k: int)
    requires WellFormed(g.board) && 0 <= k < 8
    requires var (nx, ny) := Neighbor(x, y, k);
      !InGrid(nx, ny) || g.board[nx][ny].isOpen || g.board[nx][ny].isMine
    requires NeighborsOpened(g, r, x, y, k + 1)
    ensures NeighborsOpened(g, r, x, y, k)
  {
    SettledKept(g.board, r.board, x, y, k);
  }

  /** The cells opened through neighbour `k` are reached from `(x, y)` by
      way of that neighbour; later ones were reached already. */
  lemma OpenedStepReach(g: Game, g2: Game, r: Game, x: int, y: int, k: int)
    requires WellFormed(g.board) && WellFormed(g2.board) && WellFormed(r.board)
    requires InGrid(x, y) && Spreads(g.board[x][y]) && 0 <= k < 8
    requires InGrid(Neighbor(x, y, k).0, Neighbor(x, y, k).1)
    requires var (nx, ny) := Neighbor(x, y, k);
      !g.board[nx][ny].isOpen && !g.board[nx][ny].isMine && (g.board[nx][ny].isFlagged ==> g2 == g)
    requires OnlyOpens(g.board, g2.board) && OnlyOpens(g2.board, r.board)
    requires ReachedFrom(g.board, g2.board, Neighbor(x, y, k).0, Neighbor(x, y, k).1)
    requires ReachedFrom(g2.board, r.board, x, y)
    ensures ReachedFrom(g.board, r.board, x, y)
  {
    var (nx, ny) := Neighbor(x, y, k);
    OffsetsAreNeighbours(x, y, nx, ny);
    forall i, j | InGrid(i, j) && r.board[i][j].isOpen && !g.board[i][j].isOpen
      ensures Reaches(g.board, x, y, i, j)
    {
      if g2.board[i][j].isOpen {
        assert g2 != g;
        ReachExtend(g.board, x, y, nx, ny, i, j);
      } else {
        ReachWeaken(g.board, g2.board, x, y, i, j);
      }
    }
  }

  lemma ReachExtend(b: Board, x: int, y: int, nx: int, ny: int, i: int, j: int)
    requires WellFormed(b) && InGrid(x, y) && Spreads(b[x][y]) && InGrid(nx, ny)
    requires Adjacent(x, y, nx, ny)
    requires !b[nx][ny].isOpen && !b[nx][ny].isMine && !b[nx][ny].isFlagged
    requires Reaches(b, nx, ny, i, j)
    ensures Reaches(b, x, y, i, j)
  {
    var q :| IsPath(b, q) && q[0] == (nx, ny) && q[|q| - 1] == (i, j);
    PathCons(b, x, y, q);
    assert ([(x, y)] + q)[|q|] == (i, j);
  }

  lemma ReachWeaken(b: Board, b1: Board, x: int, y: int, i: int, j: int)
    requires WellFormed(b) && WellFormed(b1) && OnlyOpens(b, b1)
    requires Reaches(b1, x, y, i, j)
    ensures Reaches(b, x, y, i, j)
  {
    var q :| IsPath(b1, q) && q[0] == (x, y) && q[|q| - 1] == (i, j);
    PathWeaken(b, b1, q);
  }

  /** A path on a board is a path on any board that had fewer cells open. */
  lemma PathWeaken(b: Board, b1: Board, p: seq<Pos>)
    requires WellFormed(b) && WellFormed(b1) && OnlyOpens(b, b1) && IsPath(b1, p)
    ensures IsPath(b, p)
  {
    forall k | 0 <= k < |p|
      ensures b1[p[k].0][p[k].1] == b[p[k].0][p[k].1].(isOpen := b1[p[k].0][p[k].1].isOpen)
    {
    }
  }

  /** A path may be extended backwards through a cell with no neighbouring mines. */
  lemma PathCons(b: Board, x: int, y: int, q: seq<Pos>)
    requires WellFormed(b) && InGrid(x, y) && Spreads(b[x][y]) && IsPath(b, q)
    requires Adjacent(x, y, q[0].0, q[0].1)
    requires !b[q[0].0][q[0].1].isOpen && !b[q[0].0][q[0].1].isMine && !b[q[0].0][q[0].1].isFlagged
    ensures IsPath(b, [(x, y)] + q)
  {
    var p := [(x, y)] + q;
    forall k | 0 < k < |p|
      ensures p[k] == q[k - 1]
    {
    }
  }

  lemma RevealedNothing(g: Game, except: set<Pos>)
    requires WellFormed(g.board)
    ensures Revealed(g, g, except)
  {
  }

  /** Opening the single cell `(x, y)`. */
  lemma OpenOne(g: Game, g1: Game, x: int, y: int)
    requires WellFormed(g.board) && InGrid(x, y)
    requires !g.board[x][y].isOpen && !g.board[x][y].isFlagged
    requires g1 == g.(board := SetCell(g.board, x, y, g.board[x][y].(isOpen := true)),
                      cellsOpened := g.cellsOpened + 1)
    ensures WellFormed(g1.board) && g1.board[x][y].isOpen
    ensures ClosedCells(g1.board) < ClosedCells(g.board)
    ensures g1 == g.(board := g1.board, cellsOpened := g1.cellsOpened)
    ensures OnlyOpens(g.board, g1.board)
    ensures SafelyOpened(g.board, g1.board, {(x, y)})
    ensures g1.cellsOpened - g.cellsOpened == |CellsWith(g1.board, Opened)| - |CellsWith(g.board, Opened)|
    ensures forall i, j :: InGrid(i, j) && (i, j) != (x, y) ==> g1.board[i][j] == g.board[i][j]
    ensures g.board[x][y].neighborMines > 0 ==> Revealed(g, g1, {(x, y)})
  {
    CellsWithAdd(g.board, g1.board, x, y, Opened);
    assert (x, y) in ClosedCells(g.board) - ClosedCells(g1.board);
  }

  /** The one cell opened by itself is reached trivially. */
  lemma OpenOneReach(b: Board, b1: Board, x: int, y: int)
    requires WellFormed(b) && WellFormed(b1) && InGrid(x, y)
    requires forall i, j :: InGrid(i, j) && (i, j) != (x, y) ==> b1[i][j] == b[i][j]
    ensures ReachedFrom(b, b1, x, y)
  {
    assert IsPath(b, [(x, y)]);
  }

  /** A zero cell followed by the reveal of its neighbours. */
  lemma AfterNeighbors(g: Game, g1: Game, r: Game, x: int, y: int)
    requires WellFormed(g.board) && WellFormed(g1.board) && InGrid(x, y)
    requires !g.board[x][y].isOpen && g1.board[x][y].isOpen
    requires g1 == g.(board := g1.board, cellsOpened := g1.cellsOpened)
    requires OnlyOpens(g.board, g1.board)
    requires SafelyOpened(g.board, g1.board, {(x, y)})
    requires g1.cellsOpened - g.cellsOpened == |CellsWith(g1.board, Opened)| - |CellsWith(g.board, Opened)|
    requires forall i, j :: InGrid(i, j) && (i, j) != (x, y) ==> g1.board[i][j] == g.board[i][j]
    requires NeighborsOpened(g1, r, x, y, 0)
    ensures Revealed(g, r, {(x, y)})
  {
    OnlyOpensTrans(g.board, g1.board, r.board);
    forall i, j | InGrid(i, j) && r.board[i][j].isOpen && !g.board[i][j].isOpen
      ensures !g.board[i][j].isFlagged && (g.board[i][j].isMine ==> (i, j) in {(x, y)})
    {
      if (i, j) != (x, y) {
        assert !g1.board[i][j].isOpen;
      }
    }
    forall i, j | InGrid(i, j) && r.board[i][j].isOpen && !g.board[i][j].isOpen && Spreads(r.board[i][j])
      ensures AroundOpen(r.board, i, j)
    {
      if (i, j) != (x, y) {
        assert !g1.board[i][j].isOpen;
      }
    }
  }

  /** After the zero cell `(x, y)` itself, everything its neighbours' reveal
      opened is reached from it. */
  lemma AfterNeighborsReach(g: Game, g1: Game, r: Game, x: int, y: int)
    requires WellFormed(g.board) && WellFormed(g1.board) && WellFormed(r.board) && InGrid(x, y)
    requires OnlyOpens(g.board, g1.board)
    requires forall i, j :: InGrid(i, j) && (i, j) != (x, y) ==> g1.board[i][j] == g.board[i][j]
    requires ReachedFrom(g1.board, r.board, x, y)
    ensures ReachedFrom(g.board, r.board, x, y)
  {
    forall i, j | InGrid(i, j) && r.board[i][j].isOpen && !g.board[i][j].isOpen
      ensures Reaches(g.board, x, y, i, j)
    {
      if (i, j) == (x, y) {
        assert IsPath(g.board, [(x, y)]);
      } else {
        assert !g1.board[i][j].isOpen;
        ReachWeaken(g.board, g1.board, x, y, i, j);
      }
    }
  }

  /** A neighbour handed to `OpenCell` is not a mine, so the reveal opens no mine. */
  lemma OpenedNeighbor(g: Game, g2: Game, nx: int, ny: int)
    requires WellFormed(g.board) && InGrid(nx, ny) && !g.board[nx][ny].isMine
    requires Revealed(g, g2, {(nx, ny)})
    ensures Revealed(g, g2, {})
    ensures ClosedCells(g2.board) <= ClosedCells(g.board)
  {
    OnlyOpensShrinks(g.board, g2.board);
  }

  lemma OnlyOpensShrinks(b: Board, b': Board)
    requires WellFormed(b) && WellFormed(b') && OnlyOpens(b, b')
    ensures ClosedCells(b') <= ClosedCells(b)
  {
    forall p | p in CellsWith(b, Opened)
      ensures p in CellsWith(b', Opened)
    {
      assert Has(b'[p.0][p.1], Opened);
    }
  }

  lemma OnlyOpensTrans(b1: Board, b2: Board, b3: Board)
    requires WellFormed(b1) && WellFormed(b2) && WellFormed(b3)
    requires OnlyOpens(b1, b2) && OnlyOpens(b2, b3)
    ensures OnlyOpens(b1, b3)
  {
    forall i, j | InGrid(i, j)
      ensures b3[i][j] == b1[i][j].(isOpen := b3[i][j].isOpen)
    {
      assert b2[i][j] == b1[i][j].(isOpen := b2[i][j].isOpen);
    }
  }

  /** Once settled, a neighbour stays settled: reveals only open more cells. */
  lemma SettledKept(b: Board, b': Board, x: int, y: int, k: int)
    requires WellFormed(b) && WellFormed(b') && 0 <= k < 8 && OnlyOpens(b, b')
    requires Settled(b, x, y, k) || (var (nx, ny) := Neighbor(x, y, k);
      !InGrid(nx, ny) || b[nx][ny].isOpen || b[nx][ny].isMine)
    ensures Settled(b', x, y, k)
  {
  }

  lemma AroundOpenKept(b: Board, b': Board, x: int, y: int)
    requires WellFormed(b) && WellFormed(b') && OnlyOpens(b, b') && AroundOpen(b, x, y)
    ensures AroundOpen(b', x, y)
  {
    forall k | 0 <= k < 8
      ensures Settled(b', x, y, k)
    {
      SettledKept(b, b', x, y, k);
    }
  }

  /** Two reveals in a row are one reveal. */
  lemma RevealedTrans(g: Game, g1: Game, g2: Game)
    requires WellFormed(g.board) && WellFormed(g1.board)
    requires Revealed(g, g1, {}) && Revealed(g1, g2, {})
    ensures Revealed(g, g2, {})
  {
    OnlyOpensTrans(g.board, g1.board, g2.board);
    forall i, j | InGrid(i, j) && g2.board[i][j].isOpen && !g.board[i][j].isOpen && Spreads(g2.board[i][j])
      ensures AroundOpen(g2.board, i, j)
    {
      assert g2.board[i][j] == g1.board[i][j].(isOpen := g2.board[i][j].isOpen);
      if g1.board[i][j].isOpen {
        assert Spreads(g1.board[i][j]);
        assert AroundOpen(g1.board, i, j);
        AroundOpenKept(g1.board, g2.board, i, j);
      } else {
        assert AroundOpen(g2.board, i, j);
      }
    }
  }

  // ---------------------------------------------------------------------------
  // Clicks

  /** `checkWin`: the game ends in a win once all 71 safe cells are open. */
  function CheckWin(g: Game): (r: Game)
    ensures r.gameOver <==> g.gameOver || g.cellsOpened == Rows * Cols - Mines
    ensures r == g.(gameOver := r.gameOver)
  {
    if g.cellsOpened == Rows * Cols - Mines && !g.gameOver then g.(gameOver := true) else g
  }

  /** The game as the left click sees it once the first-click block has run:
      mines placed around `(x, y)` on the first click, unchanged otherwise.
      The first click never lands on a mine it placed itself, and the
      placement touches neither the open/flag state nor the counters. */
  function Armed(g: Game, x: int, y: int, picks: seq<Pos>): (g1: Game)
    requires WellFormed(g.board) && InGrid(x, y) && ValidPicks(picks)
    ensures WellFormed(g1.board) && !g1.firstClick
    ensures !g.firstClick ==> g1 == g
    ensures g.firstClick ==> g1 == g.(board := PlaceMines(g.board, picks, x, y), firstClick := false)
    ensures g.firstClick ==>
      g1.mineCount == g.mineCount && g1.cellsOpened == g.cellsOpened && g1.gameOver == g.gameOver
    ensures g.firstClick ==> Annotated(g1.board)
    ensures g.firstClick ==> forall i, j :: InGrid(i, j) ==>
      g1.board[i][j].isOpen == g.board[i][j].isOpen && g1.board[i][j].isFlagged == g.board[i][j].isFlagged
      && (g.board[i][j].isMine ==> g1.board[i][j].isMine)
    ensures g.firstClick && !g.board[x][y].isMine ==> !g1.board[x][y].isMine
    ensures g.firstClick && CellsWith(g.board, Mined) == {} && |Eligible(picks, x, y)| >= Mines ==>
      |CellsWith(g1.board, Mined)| == Mines
  {
    assert (x, y) !in Eligible(picks, x, y);
    if g.firstClick then g.(board := PlaceMines(g.board, picks, x, y), firstClick := false) else g
  }

  /** `onCellLeftClick` on `(x, y)`; `picks` are the random draws the first
      click's mine placement consumes. */
  function LeftClick(g: Game, x: int, y: int, picks: seq<Pos>): (r: Game)
    requires WellFormed(g.board) && InGrid(x, y) && ValidPicks(picks)
    ensures WellFormed(r.board)
    ensures g.gameOver ==> r == g
    ensures !g.gameOver ==> !r.firstClick
    ensures !g.gameOver && !g.firstClick && g.board[x][y].isMine
            && !g.board[x][y].isFlagged && !g.board[x][y].isOpen ==>
      r == g.(gameOver := true)
    ensures !g.gameOver && !g.firstClick && !g.board[x][y].isMine && !g.board[x][y].isFlagged ==>
      r.board[x][y].isOpen
    ensures var g1 := Armed(g, x, y, picks); var c := g1.board[x][y];
      !g.gameOver && (c.isFlagged || c.isOpen) ==> r == g1
    ensures var g1 := Armed(g, x, y, picks); var c := g1.board[x][y];
      !g.gameOver && !c.isFlagged && !c.isOpen && c.isMine ==> r == g1.(gameOver := true)
    ensures var g1 := Armed(g, x, y, picks); var c := g1.board[x][y];
      !g.gameOver && !c.isFlagged && !c.isOpen && !c.isMine ==>
        Revealed(g1, r.(gameOver := false), {(x, y)})
        && ReachedFrom(g1.board, r.board, x, y)
        && r.board[x][y].isOpen
        && (r.gameOver <==> r.cellsOpened == Rows * Cols - Mines)
  {
    if g.gameOver then g
    else
      var g1 := Armed(g, x, y, picks);
      var c := g1.board[x][y];
      if c.isFlagged || c.isOpen then g1
      else if c.isMine then g1.(gameOver := true)
      else CheckWin(OpenCell(g1, x, y))
  }

  /** `onCellRightClick` on `(x, y)`: toggle the flag and adjust the counter. */
  function RightClick(g: Game, x: int, y: int): (r: Game)
    requires WellFormed(g.board) && InGrid(x, y)
    ensures WellFormed(r.board)
    ensures g.gameOver || g.firstClick || g.board[x][y].isOpen ==> r == g
    ensures !(g.gameOver || g.firstClick || g.board[x][y].isOpen) ==>
      r.board[x][y] == g.board[x][y].(isFlagged := !g.board[x][y].isFlagged)
      && (forall i, j :: InGrid(i, j) && (i, j) != (x, y) ==> r.board[i][j] == g.board[i][j])
      && r == g.(board := r.board, mineCount := r.mineCount)
    ensures r.mineCount + |CellsWith(r.board, Flagged)| == g.mineCount + |CellsWith(g.board, Flagged)|
  {
    if g.gameOver || g.firstClick then g
    else
      var c := g.board[x][y];
      if c.isOpen then g
      else if c.isFlagged then
        var b := SetCell(g.board, x, y, c.(isFlagged := false));
        CellsWithRemove(g.board, b, x, y, Flagged);
        g.(board := b, mineCount := g.mineCount + 1)
      else
        var b := SetCell(g.board, x, y, c.(isFlagged := true));
        CellsWithAdd(g.board, b, x, y, Flagged);
        g.(board := b, mineCount := g.mineCount - 1)
  }

  /** Flagging a cell twice gives back the game exactly. */
  lemma RightClickTwice(g: Game, x: int, y: int)
    requires WellFormed(g.board) && InGrid(x, y)
    ensures RightClick(RightClick(g, x, y), x, y) == g
  {
    var r := RightClick(g, x, y);
    if !(g.gameOver || g.firstClick || g.board[x][y].isOpen) {
      var r2 := RightClick(r, x, y);
      assert r2.board[x] == g.board[x];
      assert r2.board == g.board;
    }
  }

  // ---------------------------------------------------------------------------
  // The game invariant

  /** No cell is both open and flagged, and no open cell is a mine. */
  ghost predicate CellsConsistent(b: Board)
    requires WellFormed(b)
  {
    forall i, j :: InGrid(i, j) && b[i][j].isOpen ==> !b[i][j].isFlagged && !b[i][j].isMine
  }

  /** The counters agree with the board. */
  ghost predicate CountersAgree(g: Game)
    requires WellFormed(g.board)
  {
    g.cellsOpened == |CellsWith(g.board, Opened)|
    && g.mineCount + |CellsWith(g.board, Flagged)| == Mines
  }

  /** Before the first click the board is as built; after it, it holds ten
      mines and every safe cell shows its neighbour count. */
  ghost predicate Phase(g: Game)
    requires WellFormed(g.board)
  {
    (g.firstClick ==> !g.gameOver && forall i, j :: InGrid(i, j) ==> g.board[i][j] == FreshCell(i, j))
    && (!g.firstClick ==> |CellsWith(g.board, Mined)| == Mines && Annotated(g.board))
  }

  ghost predicate GameInv(g: Game) {
    WellFormed(g.board) && CellsConsistent(g.board) && CountersAgree(g) && Phase(g)
  }

  lemma InitGameInv()
    ensures GameInv(InitGame())
  {
    FreshSets(InitGame().board);
  }

  /** A fresh board has no mines, no open cells and no flags. */
  lemma FreshSets(b: Board)
    requires WellFormed(b) && forall i, j :: InGrid(i, j) ==> b[i][j] == FreshCell(i, j)
    ensures CellsWith(b, Mined) == {} && CellsWith(b, Opened) == {} && CellsWith(b, Flagged) == {}
  {
    assert forall p :: p !in CellsWith(b, Mined);
    assert forall p :: p !in CellsWith(b, Opened);
    assert forall p :: p !in CellsWith(b, Flagged);
  }

  /** A reveal from a safe cell keeps the game invariant. */
  lemma OpenCellKeepsInv(g: Game, x: int, y: int)
    requires GameInv(g) && !g.firstClick && InGrid(x, y) && !g.board[x][y].isMine
    ensures GameInv(OpenCell(g, x, y))
  {
    RevealKeepsInv(g, OpenCell(g, x, y), x, y);
  }

  lemma RevealKeepsInv(g: Game, r: Game, x: int, y: int)
    requires GameInv(g) && !g.firstClick && InGrid(x, y) && !g.board[x][y].isMine
    requires Revealed(g, r, {(x, y)})
    ensures GameInv(r)
  {
    forall i, j | InGrid(i, j)
      ensures r.board[i][j].isMine == g.board[i][j].isMine
      ensures r.board[i][j].isFlagged == g.board[i][j].isFlagged
      ensures r.board[i][j].neighborMines == g.board[i][j].neighborMines
    {
      assert r.board[i][j] == g.board[i][j].(isOpen := r.board[i][j].isOpen);
    }
    CellsWithSame(g.board, r.board, Flagged);
    CellsWithSame(g.board, r.board, Mined);
    SameMinesSameCounts(g.board, r.board);
    forall i, j | InGrid(i, j) && r.board[i][j].isOpen
      ensures !r.board[i][j].isFlagged && !r.board[i][j].isMine
    {
      if !g.board[i][j].isOpen {
        assert (g.board[i][j].isMine ==> (i, j) in {(x, y)});
      }
    }
  }

  /** The first click's placement: ten mines, none on the clicked cell,
      nothing open or flagged yet. */
  lemma FirstPlacementInv(g: Game, x: int, y: int, picks: seq<Pos>)
    requires GameInv(g) && g.firstClick && InGrid(x, y) && ValidPicks(picks)
    requires |Eligible(picks, x, y)| >= Mines
    ensures var g1 := g.(board := PlaceMines(g.board, picks, x, y), firstClick := false);
      GameInv(g1) && !g1.gameOver
      && !g1.board[x][y].isMine && !g1.board[x][y].isOpen && !g1.board[x][y].isFlagged
  {
    FreshSets(g.board);
    var b1 := PlaceMines(g.board, picks, x, y);
    assert (x, y) !in Eligible(picks, x, y);
    CellsWithSame(g.board, b1, Opened);
    CellsWithSame(g.board, b1, Flagged);
  }

  /** `onCellLeftClick` keeps the game invariant, given enough usable draws
      for the first click's placement. */
  lemma LeftClickKeepsInv(g: Game, x: int, y: int, picks: seq<Pos>)
    requires GameInv(g) && InGrid(x, y) && ValidPicks(picks)
    requires g.firstClick ==> |Eligible(picks, x, y)| >= Mines
    ensures GameInv(LeftClick(g, x, y, picks))
  {
    if !g.gameOver {
      var g1 := Armed(g, x, y, picks);
      if g.firstClick {
        FirstPlacementInv(g, x, y, picks);
      }
      var c := g1.board[x][y];
      if !(c.isFlagged || c.isOpen || c.isMine) {
        OpenCellKeepsInv(g1, x, y);
      }
    }
  }

  /** `onCellRightClick` keeps the game invariant. */
  lemma RightClickKeepsInv(g: Game, x: int, y: int)
    requires GameInv(g) && InGrid(x, y)
    ensures GameInv(RightClick(g, x, y))
  {
    var r := RightClick(g, x, y);
    if !(g.gameOver || g.firstClick || g.board[x][y].isOpen) {
      CellsWithSame(g.board, r.board, Opened);
      CellsWithSame(g.board, r.board, Mined);
      SameMinesSameCounts(g.board, r.board);
    }
  }

  /** A left click that opens a safe cell ends the game exactly when every
      safe cell is then open. */
  lemma SafeClickWinsIffAllSafeOpen(g: Game, x: int, y: int, picks: seq<Pos>)
    requires GameInv(g) && InGrid(x, y) && ValidPicks(picks)
    requires g.firstClick ==> |Eligible(picks, x, y)| >= Mines
    requires !g.gameOver
    requires var c := Armed(g, x, y, picks).board[x][y]; !c.isFlagged && !c.isOpen && !c.isMine
    ensures var r := LeftClick(g, x, y, picks);
      r.gameOver <==> CellsWith(r.board, Opened) == SafeCells(r.board)
  {
    LeftClickKeepsInv(g, x, y, picks);
    WinMeansAllSafeOpen(LeftClick(g, x, y, picks));
  }

  /** The first left click never hits a mine: the clicked cell ends up open
      and safe, and the game can only be over because it was won. */
  lemma FirstClickIsSafe(g: Game, x: int, y: int, picks: seq<Pos>)
    requires GameInv(g) && g.firstClick && InGrid(x, y) && ValidPicks(picks)
    requires |Eligible(picks, x, y)| >= Mines
    ensures var r := LeftClick(g, x, y, picks);
      r.board[x][y].isOpen && !r.board[x][y].isMine
      && (r.gameOver ==> CellsWith(r.board, Opened) == SafeCells(r.board))
  {
    FirstPlacementInv(g, x, y, picks);
    LeftClickKeepsInv(g, x, y, picks);
    var g1 := g.(board := PlaceMines(g.board, picks, x, y), firstClick := false);
    var o := OpenCell(g1, x, y);
    assert o.board[x][y] == g1.board[x][y].(isOpen := o.board[x][y].isOpen);
    WinMeansAllSafeOpen(LeftClick(g, x, y, picks));
  }

  /** `checkWin`'s counter test is exactly "every safe cell is open". */
  lemma WinMeansAllSafeOpen(g: Game)
    requires GameInv(g) && !g.firstClick
    ensures g.cellsOpened == Rows * Cols - Mines <==> CellsWith(g.board, Opened) == SafeCells(g.board)
  {
    AllCellsCount();
    DiffCard(AllCells(), CellsWith(g.board, Mined));
    assert CellsWith(g.board, Opened) <= SafeCells(g.board);
    if g.cellsOpened == Rows * Cols - Mines {
      SubsetSameCard(CellsWith(g.board, Opened), SafeCells(g.board));
    }
  }

  lemma DiffCard<T>(a: set<T>, b: set<T>)
    requires b <= a
    ensures |a - b| == |a| - |b|
  {
    assert a == (a - b) + b;
    assert (a - b) * b == {};
  }

  lemma SubsetSameCard<T>(a: set<T>, b: set<T>)
    requires a <= b && |a| == |b|
    ensures a == b
  {
    DiffCard(b, a);
    assert b - a == {};
  }

  /** The flood fill opens exactly the cells it can travel to from the
      clicked cell: nothing beyond them (`ReachedFrom`), and every one of them. */
  lemma FloodIsExact(g: Game, x: int, y: int, i: int, j: int)
    requires WellFormed(g.board) && InGrid(x, y) && InGrid(i, j)
    requires !g.board[x][y].isOpen && !g.board[x][y].isFlagged
    ensures var r := OpenCell(g, x, y);
      r.board[i][j].isOpen && !g.board[i][j].isOpen <==> Reaches(g.board, x, y, i, j)
  {
    var r := OpenCell(g, x, y);
    if Reaches(g.board, x, y, i, j) {
      var p: seq<Pos> :| IsPath(g.board, p) && p[0] == (x, y) && p[|p| - 1] == (i, j);
      PathOpened(g.board, r.board, p);
      if |p| > 1 {
        assert !g.board[p[|p| - 1].0][p[|p| - 1].1].isOpen;
      }
    }
  }

  /** Along a path from a newly opened cell, a flood-closed reveal opens
      every cell. */
  lemma {:induction false} PathOpened(b: Board, b': Board, p: seq<Pos>)
    requires WellFormed(b) && WellFormed(b') && OnlyOpens(b, b') && FloodClosed(b, b')
    requires IsPath(b, p)
    requires b'[p[0].0][p[0].1].isOpen && !b[p[0].0][p[0].1].isOpen
    ensures b'[p[|p| - 1].0][p[|p| - 1].1].isOpen
    decreases |p|
  {
    if |p| > 1 {
      var p' := p[..|p| - 1];
      assert forall k :: 0 <= k < |p'| ==> p'[k] == p[k];
      assert IsPath(b, p');
      PathOpened(b, b', p');
      var (qi, qj) := p[|p| - 2];
      var (ti, tj) := p[|p| - 1];
      assert b'[qi][qj] == b[qi][qj].(isOpen := b'[qi][qj].isOpen);
      assert b'[ti][tj] == b[ti][tj].(isOpen := b'[ti][tj].isOpen);
      assert AroundOpen(b', qi, qj);
      OffsetsAreNeighbours(qi, qj, ti, tj);
      var k :| 0 <= k < 8 && Neighbor(qi, qj, k) == (ti, tj);
      assert Settled(b', qi, qj, k);
    }
  }
}
