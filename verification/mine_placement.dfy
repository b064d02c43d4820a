/** Deferred mine placement (`placeMines`): after the first click, ten mines
    are dropped on cells drawn at random, never on the clicked cell, and every
    safe cell is then labelled with its number of neighbouring mines. The
    random draws are a supplied sequence of positions. */
module MinePlacement {
  import opened MineBoard

  /** Each draw is `(floor(random * 9), floor(random * 9))`, so inside the grid. */
  predicate ValidPicks(picks: seq<Pos>) {
    forall i :: 0 <= i < |picks| ==> InGrid(picks[i].0, picks[i].1)
  }

  /** The distinct drawn positions other than the excluded (first-clicked) cell. */
  function Eligible(picks: seq<Pos>, ex: int, ey: int): set<Pos> {
    set i | 0 <= i < |picks| && picks[i] != (ex, ey) :: picks[i]
  }

  /** `b'` differs from `b` only by mines added at positions in `allowed`. */
  ghost predicate MinesAdded(b: Board, b': Board, allowed: set<Pos>)
    requires WellFormed(b) && WellFormed(b')
  {
    forall i, j :: InGrid(i, j) ==>
      b'[i][j] == b[i][j].(isMine := b'[i][j].isMine)
      && (b[i][j].isMine ==> b'[i][j].isMine)
      && (b'[i][j].isMine && !b[i][j].isMine ==> (i, j) in allowed)
  }

  datatype Placed = Placed(board: Board, placed: int)

  /** The `while (placed < MINES)` loop, consuming one draw per iteration:
      a draw that is already a mine or is the excluded cell is skipped. The
      loop also stops if the supplied draws run out. */
  function PlaceLoop(b: Board, picks: seq<Pos>, placed: int, ex: int, ey: int): (r: Placed)
    requires WellFormed(b) && ValidPicks(picks) && 0 <= placed <= Mines
    ensures WellFormed(r.board)
    ensures placed <= r.placed <= Mines
    decreases |picks|
  {
    if placed >= Mines || |picks| == 0 then
      Placed(b, placed)
    else
      var (x, y) := picks[0];
      if b[x][y].isMine || (x == ex && y == ey) then
        PlaceLoop(b, picks[1..], placed, ex, ey)
      else
        PlaceLoop(SetCell(b, x, y, b[x][y].(isMine := true)), picks[1..], placed + 1, ex, ey)
  }

  /** What the loop achieves: mines are only added, only at drawn cells other
      than the excluded one, one per count of `placed`; and if it stops short
      of ten, every usable draw already holds a mine. */
  ghost predicate LoopOutcome(b: Board, picks: seq<Pos>, placed: int, ex: int, ey: int, r: Placed)
    requires WellFormed(b) && WellFormed(r.board)
  {
    MinesAdded(b, r.board, Eligible(picks, ex, ey))
    && |CellsWith(r.board, Mined)| == |CellsWith(b, Mined)| + (r.placed - placed)
    && (r.placed < Mines ==> Eligible(picks, ex, ey) <= CellsWith(r.board, Mined))
  }

  lemma {:induction false} PlaceLoopSpec(b: Board, picks: seq<Pos>, placed: int, ex: int, ey: int)
    requires WellFormed(b) && ValidPicks(picks) && 0 <= placed <= Mines
    ensures LoopOutcome(b, picks, placed, ex, ey, PlaceLoop(b, picks, placed, ex, ey))
    decreases |picks|
  {
    if placed >= Mines || |picks| == 0 {
      assert |picks| == 0 ==> Eligible(picks, ex, ey) == {};
    } else {
      var (x, y) := picks[0];
      if b[x][y].isMine || (x == ex && y == ey) {
        PlaceLoopSpec(b, picks[1..], placed, ex, ey);
        SkipStep(b, picks, placed, ex, ey, PlaceLoop(b, picks[1..], placed, ex, ey));
      } else {
        var b1 := SetCell(b, x, y, b[x][y].(isMine := true));
        PlaceLoopSpec(b1, picks[1..], placed + 1, ex, ey);
        MineStep(b, b1, picks, placed, ex, ey, PlaceLoop(b1, picks[1..], placed + 1, ex, ey));
      }
    }
  }

  /** A skipped draw: the outcome for the remaining draws is the outcome for all. */
  lemma SkipStep(b: Board, picks: seq<Pos>, placed: int, ex: int, ey: int, r: Placed)
    requires WellFormed(b) && WellFormed(r.board) && |picks| > 0 && InGrid(picks[0].0, picks[0].1)
    requires b[picks[0].0][picks[0].1].isMine || picks[0] == (ex, ey)
    requires LoopOutcome(b, picks[1..], placed, ex, ey, r)
    ensures LoopOutcome(b, picks, placed, ex, ey, r)
  {
    EligibleCons(picks, ex, ey);
    MinesAddedWiden(b, r.board, Eligible(picks[1..], ex, ey), Eligible(picks, ex, ey));
  }

  /** A placed draw: one more mine, then the outcome for the remaining draws. */
  lemma MineStep(b: Board, b1: Board, picks: seq<Pos>, placed: int, ex: int, ey: int, r: Placed)
    requires WellFormed(b) && WellFormed(r.board) && |picks| > 0
    requires InGrid(picks[0].0, picks[0].1) && picks[0] != (ex, ey)
    requires !b[picks[0].0][picks[0].1].isMine
    requires b1 == SetCell(b, picks[0].0, picks[0].1, b[picks[0].0][picks[0].1].(isMine := true))
    requires LoopOutcome(b1, picks[1..], placed + 1, ex, ey, r)
    ensures LoopOutcome(b, picks, placed, ex, ey, r)
  {
    var (x, y) := picks[0];
    EligibleCons(picks, ex, ey);
    CellsWithAdd(b, b1, x, y, Mined);
    assert MinesAdded(b, b1, Eligible(picks, ex, ey));
    MinesAddedWiden(b1, r.board, Eligible(picks[1..], ex, ey), Eligible(picks, ex, ey));
    MinesAddedTrans(b, b1, r.board, Eligible(picks, ex, ey));
  }

  /** The usable draws of `picks` are its first one (unless excluded) and
      those of the rest. */
  lemma EligibleCons(picks: seq<Pos>, ex: int, ey: int)
    requires |picks| > 0
    ensures Eligible(picks, ex, ey) ==
      Eligible(picks[1..], ex, ey) + (if picks[0] != (ex, ey) then {picks[0]} else {})
  {
    forall p | p in Eligible(picks, ex, ey)
      ensures p in Eligible(picks[1..], ex, ey) || (p == picks[0] && p != (ex, ey))
    {
      var i :| 0 <= i < |picks| && picks[i] != (ex, ey) && picks[i] == p;
      if i > 0 {
        assert picks[1..][i - 1] == p;
      }
    }
    forall p | p in Eligible(picks[1..], ex, ey)
      ensures p in Eligible(picks, ex, ey)
    {
      var i :| 0 <= i < |picks[1..]| && picks[1..][i] != (ex, ey) && picks[1..][i] == p;
      assert picks[i + 1] == p;
    }
  }

  lemma MinesAddedWiden(b: Board, b': Board, a: set<Pos>, a': set<Pos>)
    requires WellFormed(b) && WellFormed(b') && a <= a'
    requires MinesAdded(b, b', a)
    ensures MinesAdded(b, b', a')
  {
  }

  lemma MinesAddedTrans(b: Board, b1: Board, b2: Board, a: set<Pos>)
    requires WellFormed(b) && WellFormed(b1) && WellFormed(b2)
    requires MinesAdded(b, b1, a) && MinesAdded(b1, b2, a)
    ensures MinesAdded(b, b2, a)
  {
    forall i, j | InGrid(i, j)
      ensures b2[i][j] == b[i][j].(isMine := b2[i][j].isMine)
    {
      assert b1[i][j] == b[i][j].(isMine := b1[i][j].isMine);
    }
  }

  /** Label every cell that is not a mine with its count of neighbouring
      mines, as the second loop of `placeMines` does; mine cells keep their
      old count. */
  function Annotate(b: Board): (r: Board)
    requires WellFormed(b)
    ensures WellFormed(r)
    ensures forall i, j :: InGrid(i, j) ==> r[i][j].(neighborMines := b[i][j].neighborMines) == b[i][j]
    ensures forall i, j :: InGrid(i, j) && r[i][j].isMine ==> r[i][j] == b[i][j]
    ensures Annotated(r)
  {
    var r := seq(Rows, i requires 0 <= i < Rows => seq(Cols, j requires 0 <= j < Cols =>
      if b[i][j].isMine then b[i][j] else b[i][j].(neighborMines := CountNeighborMines(b, i, j))));
    assert forall i, j :: InGrid(i, j) ==> r[i][j].isMine == b[i][j].isMine;
    SameMinesSameCounts(b, r);
    r
  }

  /** Every safe cell shows the number of mines around it. */
  ghost predicate Annotated(b: Board)
    requires WellFormed(b)
  {
    forall i, j :: InGrid(i, j) && !b[i][j].isMine ==> b[i][j].neighborMines == |NeighborMineSet(b, i, j)|
  }

  /** Neighbour counts depend on nothing but where the mines are. */
  lemma SameMinesSameCounts(b: Board, b': Board)
    requires WellFormed(b) && WellFormed(b')
    requires forall i, j :: InGrid(i, j) ==> b'[i][j].isMine == b[i][j].isMine
    ensures forall i, j :: NeighborMineSet(b', i, j) == NeighborMineSet(b, i, j)
  {
  }

  /** `placeMines(ex, ey)`. */
  function PlaceMines(b: Board, picks: seq<Pos>, ex: int, ey: int): (r: Board)
    requires WellFormed(b) && ValidPicks(picks)
    ensures WellFormed(r)
    ensures Annotated(r)
    ensures forall i, j :: InGrid(i, j) ==>
      r[i][j].isOpen == b[i][j].isOpen && r[i][j].isFlagged == b[i][j].isFlagged
      && (b[i][j].isMine ==> r[i][j].isMine)
      && (r[i][j].isMine && !b[i][j].isMine ==> (i, j) in Eligible(picks, ex, ey))
    ensures CellsWith(b, Mined) == {} && |Eligible(picks, ex, ey)| >= Mines ==>
      |CellsWith(r, Mined)| == Mines
  {
    var p := PlaceLoop(b, picks, 0, ex, ey);
    PlaceLoopSpec(b, picks, 0, ex, ey);
    var r := Annotate(p.board);
    CellsWithSame(p.board, r, Mined);
    EnoughPicksPlaceAll(b, picks, ex, ey);
    r
  }

  /** With ten distinct usable draws on a mine-free board, the loop places
      all ten mines. */
  lemma EnoughPicksPlaceAll(b: Board, picks: seq<Pos>, ex: int, ey: int)
    requires WellFormed(b) && ValidPicks(picks)
    ensures CellsWith(b, Mined) == {} && |Eligible(picks, ex, ey)| >= Mines ==>
      PlaceLoop(b, picks, 0, ex, ey).placed == Mines
      && |CellsWith(PlaceLoop(b, picks, 0, ex, ey).board, Mined)| == Mines
  {
    var r := PlaceLoop(b, picks, 0, ex, ey);
    PlaceLoopSpec(b, picks, 0, ex, ey);
    if CellsWith(b, Mined) == {} && |Eligible(picks, ex, ey)| >= Mines && r.placed < Mines {
      SubsetCard(Eligible(picks, ex, ey), CellsWith(r.board, Mined));
      assert false;
    }
  }

  lemma {:induction false} SubsetCard<T>(a: set<T>, b: set<T>)
    requires a <= b
    ensures |a| <= |b|
    decreases |b|
  {
    if a != {} {
      var x :| x in a;
      SubsetCard(a - {x}, b - {x});
    }
  }
}
