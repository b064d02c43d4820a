/** The 9x9 Minesweeper field: a grid of cell records indexed `board[row][col]`,
    the eight neighbours of a cell, and the sets of open, mined and flagged
    cells that the game's counters track. */
module MineBoard {

  const Rows: int := 9
  const Cols: int := 9
  const Mines: int := 10

  /** A grid position `(row, col)`. */
  type Pos = (int, int)

  /** One cell record as built by `initGame` (the DOM `element` is not modelled). */
  datatype Cell = Cell(row: int, col: int, isMine: bool, isOpen: bool, isFlagged: bool, neighborMines: int)

  type Board = seq<seq<Cell>>

  predicate InGrid(x: int, y: int) {
    0 <= x < Rows && 0 <= y < Cols
  }

  /** Nine rows of nine cells, each cell knowing its own coordinates. */
  predicate WellFormed(b: Board) {
    |b| == Rows
    && (forall x :: 0 <= x < Rows ==> |b[x]| == Cols)
    && (forall x, y :: 0 <= x < Rows && 0 <= y < Cols ==> b[x][y].row == x && b[x][y].col == y)
  }

  /** The cell `initGame` creates at `(x, y)`. */
  function FreshCell(x: int, y: int): Cell {
    Cell(x, y, false, false, false, 0)
  }

  /** The board `initGame` builds: every cell closed, unflagged, mine-free. */
  function FreshBoard(): (b: Board)
    ensures WellFormed(b)
    ensures forall x, y :: InGrid(x, y) ==> b[x][y] == FreshCell(x, y)
  {
    seq(Rows, x => seq(Cols, y => FreshCell(x, y)))
  }

  /** Replace the cell at `(x, y)`. */
  function SetCell(b: Board, x: int, y: int, c: Cell): (r: Board)
    requires WellFormed(b) && InGrid(x, y)
    requires c.row == x && c.col == y
    ensures WellFormed(r)
    ensures r[x][y] == c
    ensures forall i, j :: InGrid(i, j) && (i, j) != (x, y) ==> r[i][j] == b[i][j]
  {
    b[x := b[x][y := c]]
  }

  // ---------------------------------------------------------------------------
  // Neighbours

  /** The `k`-th neighbour offset, `0 <= k < 8`, in the order of the double
      loop `for dr in -1..1, for dc in -1..1`, skipping `(0, 0)`. */
  function Offset(k: int): (d: (int, int))
    requires 0 <= k < 8
    ensures -1 <= d.0 <= 1 && -1 <= d.1 <= 1 && d != (0, 0)
  {
    var n := if k < 4 then k else k + 1;
    (n / 3 - 1, n % 3 - 1)
  }

  function Neighbor(x: int, y: int, k: int): Pos
    requires 0 <= k < 8
  {
    (x + Offset(k).0, y + Offset(k).1)
  }

  /** Two positions touch: distinct, and at most one step apart in each direction. */
  predicate Adjacent(x: int, y: int, i: int, j: int) {
    (i, j) != (x, y) && -1 <= i - x <= 1 && -1 <= j - y <= 1
  }

  /** The eight offsets are exactly the adjacent positions, each met once. */
  lemma OffsetsAreNeighbours(x: int, y: int, i: int, j: int)
    ensures Adjacent(x, y, i, j) <==> exists k :: 0 <= k < 8 && Neighbor(x, y, k) == (i, j)
  {
    if Adjacent(x, y, i, j) {
      var n := (i - x + 1) * 3 + (j - y + 1);
      var k := if n < 4 then n else n - 1;
      assert Neighbor(x, y, k) == (i, j);
    }
  }

  lemma OffsetInjective(k: int, l: int)
    requires 0 <= k < 8 && 0 <= l < 8 && k != l
    ensures Offset(k) != Offset(l)
  {
  }

  // ---------------------------------------------------------------------------
  // Counting neighbour mines

  /** Mined cells adjacent to `(x, y)`, described geometrically. */
  function NeighborMineSet(b: Board, x: int, y: int): set<Pos>
    requires WellFormed(b)
  {
    set i, j | 0 <= i < Rows && 0 <= j < Cols && Adjacent(x, y, i, j) && b[i][j].isMine :: (i, j)
  }

  /** Whether the `k`-th neighbour of `(x, y)` exists and holds a mine. */
  predicate MinedNeighbor(b: Board, x: int, y: int, k: int)
    requires WellFormed(b) && 0 <= k < 8
  {
    var (i, j) := Neighbor(x, y, k);
    InGrid(i, j) && b[i][j].isMine
  }

  /** Mined neighbours among offsets `k..7`. */
  function MinedFrom(b: Board, x: int, y: int, k: int): set<Pos>
    requires WellFormed(b) && 0 <= k <= 8
  {
    set l | k <= l < 8 && MinedNeighbor(b, x, y, l) :: Neighbor(x, y, l)
  }

  /** The inner part of `countNeighborMines`, from offset `k` on. */
  function CountFrom(b: Board, x: int, y: int, k: int): (n: int)
    requires WellFormed(b) && 0 <= k <= 8
    ensures n == |MinedFrom(b, x, y, k)|
    decreases 8 - k
  {
    if k == 8 then
      assert MinedFrom(b, x, y, k) == {};
      0
    else
      var rest := CountFrom(b, x, y, k + 1);
      MinedFromStep(b, x, y, k);
      (if MinedNeighbor(b, x, y, k) then 1 else 0) + rest
  }

  lemma MinedFromStep(b: Board, x: int, y: int, k: int)
    requires WellFormed(b) && 0 <= k < 8
    ensures MinedNeighbor(b, x, y, k) ==>
      MinedFrom(b, x, y, k) == MinedFrom(b, x, y, k + 1) + {Neighbor(x, y, k)}
      && Neighbor(x, y, k) !in MinedFrom(b, x, y, k + 1)
    ensures !MinedNeighbor(b, x, y, k) ==> MinedFrom(b, x, y, k) == MinedFrom(b, x, y, k + 1)
  {
    forall l | k < l < 8
      ensures Neighbor(x, y, l) != Neighbor(x, y, k)
    {
      OffsetInjective(k, l);
    }
  }

  /** `countNeighborMines`: how many of the eight surrounding cells inside
      the grid are mines. */
  function CountNeighborMines(b: Board, x: int, y: int): (n: int)
    requires WellFormed(b)
    ensures n == |NeighborMineSet(b, x, y)|
    ensures 0 <= n <= 8
  {
    MinedFromIsNeighborMines(b, x, y);
    MinedFromAtMost(b, x, y, 0);
    CountFrom(b, x, y, 0)
  }

  lemma MinedFromIsNeighborMines(b: Board, x: int, y: int)
    requires WellFormed(b)
    ensures MinedFrom(b, x, y, 0) == NeighborMineSet(b, x, y)
  {
    forall p | p in NeighborMineSet(b, x, y)
      ensures p in MinedFrom(b, x, y, 0)
    {
      OffsetsAreNeighbours(x, y, p.0, p.1);
      var k :| 0 <= k < 8 && Neighbor(x, y, k) == p;
      assert MinedNeighbor(b, x, y, k);
    }
    forall p | p in MinedFrom(b, x, y, 0)
      ensures p in NeighborMineSet(b, x, y)
    {
      var k :| 0 <= k < 8 && MinedNeighbor(b, x, y, k) && Neighbor(x, y, k) == p;
      OffsetsAreNeighbours(x, y, p.0, p.1);
    }
  }

  lemma {:induction false} MinedFromAtMost(b: Board, x: int, y: int, k: int)
    requires WellFormed(b) && 0 <= k <= 8
    ensures |MinedFrom(b, x, y, k)| <= 8 - k
    decreases 8 - k
  {
    if k == 8 {
      assert MinedFrom(b, x, y, k) == {};
    } else {
      MinedFromStep(b, x, y, k);
      MinedFromAtMost(b, x, y, k + 1);
    }
  }

  // ---------------------------------------------------------------------------
  // Sets of cells

  /** The three cell flags the game's counters follow. */
  datatype Kind = Opened | Mined | Flagged

  predicate Has(c: Cell, k: Kind) {
    match k
    case Opened => c.isOpen
    case Mined => c.isMine
    case Flagged => c.isFlagged
  }

  function AllCells(): set<Pos> {
    set x, y | 0 <= x < Rows && 0 <= y < Cols :: (x, y)
  }

  /** The positions whose cell carries flag `k`. */
  function CellsWith(b: Board, k: Kind): (s: set<Pos>)
    requires WellFormed(b)
    ensures s <= AllCells()
  {
    set x, y | 0 <= x < Rows && 0 <= y < Cols && Has(b[x][y], k) :: (x, y)
  }

  /** Cells not yet opened: the measure that shrinks as the flood fill runs. */
  function ClosedCells(b: Board): set<Pos>
    requires WellFormed(b)
  {
    AllCells() - CellsWith(b, Opened)
  }

  /** Safe cells: every cell that is not a mine. */
  function SafeCells(b: Board): set<Pos>
    requires WellFormed(b)
  {
    AllCells() - CellsWith(b, Mined)
  }

  /** Switching flag `k` on at one cell, leaving it alone elsewhere, adds
      exactly that cell to the set. */
  lemma CellsWithAdd(b: Board, b': Board, x: int, y: int, k: Kind)
    requires WellFormed(b) && WellFormed(b') && InGrid(x, y)
    requires !Has(b[x][y], k) && Has(b'[x][y], k)
    requires forall i, j :: InGrid(i, j) && (i, j) != (x, y) ==> Has(b'[i][j], k) == Has(b[i][j], k)
    ensures CellsWith(b', k) == CellsWith(b, k) + {(x, y)}
    ensures (x, y) !in CellsWith(b, k)
    ensures |CellsWith(b', k)| == |CellsWith(b, k)| + 1
  {
    CellsWithGrow(b, b', x, y, k);
    CellsWithShrink(b, b', x, y, k);
  }

  lemma CellsWithGrow(b: Board, b': Board, x: int, y: int, k: Kind)
    requires WellFormed(b) && WellFormed(b') && InGrid(x, y)
    requires Has(b'[x][y], k)
    requires forall i, j :: InGrid(i, j) && (i, j) != (x, y) ==> Has(b'[i][j], k) == Has(b[i][j], k)
    ensures CellsWith(b, k) + {(x, y)} <= CellsWith(b', k)
  {
    forall p | p in CellsWith(b, k) + {(x, y)}
      ensures p in CellsWith(b', k)
    {
      var (i, j) := p;
      assert Has(b'[i][j], k);
    }
  }

  lemma CellsWithShrink(b: Board, b': Board, x: int, y: int, k: Kind)
    requires WellFormed(b) && WellFormed(b') && InGrid(x, y)
    requires !Has(b[x][y], k)
    requires forall i, j :: InGrid(i, j) && (i, j) != (x, y) ==> Has(b'[i][j], k) == Has(b[i][j], k)
    ensures CellsWith(b', k) <= CellsWith(b, k) + {(x, y)}
    ensures (x, y) !in CellsWith(b, k)
  {
    forall p | p in CellsWith(b', k)
      ensures p in CellsWith(b, k) + {(x, y)}
    {
      var (i, j) := p;
      assert Has(b'[i][j], k);
    }
  }

  /** Switching flag `k` off at one cell removes exactly that cell. */
  lemma CellsWithRemove(b: Board, b': Board, x: int, y: int, k: Kind)
    requires WellFormed(b) && WellFormed(b') && InGrid(x, y)
    requires Has(b[x][y], k) && !Has(b'[x][y], k)
    requires forall i, j :: InGrid(i, j) && (i, j) != (x, y) ==> Has(b'[i][j], k) == Has(b[i][j], k)
    ensures CellsWith(b, k) == CellsWith(b', k) + {(x, y)}
    ensures |CellsWith(b', k)| == |CellsWith(b, k)| - 1
  {
    CellsWithAdd(b', b, x, y, k);
  }

  /** Boards that agree on flag `k` everywhere have the same set. */
  lemma CellsWithSame(b: Board, b': Board, k: Kind)
    requires WellFormed(b) && WellFormed(b')
    requires forall i, j :: InGrid(i, j) ==> Has(b'[i][j], k) == Has(b[i][j], k)
    ensures CellsWith(b', k) == CellsWith(b, k)
  {
  }

  /** The grid has 81 cells. */
  lemma AllCellsCount()
    ensures |AllCells()| == Rows * Cols
  {
    RowsUpToCount(Rows);
    assert AllCells() == RowsUpTo(Rows);
  }

  function RowsUpTo(n: int): set<Pos> {
    set x, y | 0 <= x < n && 0 <= y < Cols :: (x, y)
  }

  function ColsUpTo(x: int, n: int): set<Pos> {
    set y | 0 <= y < n :: (x, y)
  }

  lemma {:induction false} ColsUpToCount(x: int, n: nat)
    ensures |ColsUpTo(x, n)| == n
  {
    if n > 0 {
      ColsUpToCount(x, n - 1);
      assert ColsUpTo(x, n) == ColsUpTo(x, n - 1) + {(x, n - 1)};
    } else {
      assert ColsUpTo(x, n) == {};
    }
  }

  lemma {:induction false} RowsUpToCount(n: nat)
    ensures |RowsUpTo(n)| == n * Cols
  {
    if n > 0 {
      RowsUpToCount(n - 1);
      ColsUpToCount(n - 1, Cols);
      assert RowsUpTo(n) == RowsUpTo(n - 1) + ColsUpTo(n - 1, Cols);
      assert RowsUpTo(n - 1) !! ColsUpTo(n - 1, Cols);
    } else {
      assert RowsUpTo(n) == {};
    }
  }
}
