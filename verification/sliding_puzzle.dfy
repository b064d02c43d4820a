/** The 15-puzzle engine of Lab02/script.js: move legality, the tile click,
    the solved test, the parity-based solvability test as written, and the
    shuffle-and-reject board generator. */
module SlidingPuzzle {
  import opened Wrappers
  import opened PuzzleBoard
  import opened Inversions

  /** Game state: the tiles and the number of accepted moves. */
  datatype Puzzle = Puzzle(tiles: seq<int>, movesCount: nat)

  /** What a click reports: the new state, whether the move was accepted and
      whether it completed the puzzle. */
  datatype ClickResult = ClickResult(puzzle: Puzzle, accepted: bool, won: bool)

  function Abs(x: int): nat { if x < 0 then -x else x }

  /** `canMove`: the tile is orthogonally adjacent to the blank, i.e. the
      Manhattan distance of the two grid positions is exactly one. */
  function CanMove(tileIndex: Index, emptyIndex: Index): (r: bool)
    ensures r <==> ((Row(tileIndex) == Row(emptyIndex) && Abs(tileIndex - emptyIndex) == 1)
                    || Abs(tileIndex - emptyIndex) == Width)
  {
    var rowDiff := Abs(Row(tileIndex) - Row(emptyIndex));
    var colDiff := Abs(Col(tileIndex) - Col(emptyIndex));
    rowDiff + colDiff == 1
  }

  /** Adjacency is symmetric and no position is adjacent to itself. */
  lemma CanMoveSymmetricIrreflexive(t: Index, e: Index)
    ensures CanMove(t, e) == CanMove(e, t)
    ensures !CanMove(t, t)
  {
  }

  /** The loop of `isSolved` / `isAlreadySolved` from position `i` on. */
  function SolvedFrom(arr: seq<int>, i: int): (r: bool)
    requires |arr| == Cells && 0 <= i <= Cells - 1
    ensures r <==> (forall k :: i <= k < Cells - 1 ==> arr[k] == k + 1) && arr[Cells - 1] == 0
    decreases Cells - i
  {
    if i == Cells - 1 then arr[Cells - 1] == 0
    else if arr[i] != i + 1 then false
    else SolvedFrom(arr, i + 1)
  }

  /** `isSolved` (on the current tiles) and `isAlreadySolved` (on an argument)
      run the same loop; it accepts exactly the goal board. */
  function IsSolved(arr: seq<int>): (r: bool)
    requires |arr| == Cells
    ensures r <==> arr == Goal()
  {
    var r := SolvedFrom(arr, 0);
    assert r ==> arr == Goal();
    r
  }

  /** `4 - Math.floor(emptyIndex / 4)`; Dafny's `/` by a positive divisor is
      the floor, so this agrees with script.js even when `indexOf` gives -1. */
  function EmptyRowFromBottom(arr: seq<int>): (r: int)
    ensures IsPermutation(arr) ==> 1 <= r <= Width && r == Width - Row(Blank(arr))
  {
    var e := IndexOf(arr, 0);
    assert IsPermutation(arr) ==> e == Blank(arr) && 0 <= e < Cells;
    Width - e / Width
  }

  /** The quantity `isSolvable` tests: inversions plus the blank's row counted
      from the bottom, modulo 2. */
  function Parity(arr: seq<int>): int
  {
    (Inv(arr) + EmptyRowFromBottom(arr)) % 2
  }

  /** `isSolvable` as written: the nested loop counts inverted non-blank pairs,
      and the board is reported solvable when that count plus the blank's row
      from the bottom is even. */
  method IsSolvable(arr: seq<int>) returns (solvable: bool)
    requires |arr| == Cells
    ensures solvable <==> (|InversionPairs(arr)| + EmptyRowFromBottom(arr)) % 2 == 0
    ensures solvable <==> Parity(arr) == 0
  {
    var inversions := 0;
    var i := 0;
    while i < Cells
      invariant 0 <= i <= Cells
      invariant inversions + Inv(arr[i..]) == Inv(arr)
    {
      assert arr[i..][1..] == arr[i + 1..];
      if arr[i] != 0 {
        var j := i + 1;
        while j < Cells
          invariant i + 1 <= j <= Cells
          invariant inversions + Cnt(arr[i], arr[j..]) + Inv(arr[i + 1..]) == Inv(arr)
        {
          assert arr[j..][1..] == arr[j + 1..];
          if arr[j] != 0 && arr[i] > arr[j] {
            inversions := inversions + 1;
          }
          j := j + 1;
        }
      }
      i := i + 1;
    }
    var emptyIndex := IndexOf(arr, 0);
    var emptyRowFromBottom := Width - emptyIndex / Width;
    InvCountsPairs(arr);
    solvable := (inversions + emptyRowFromBottom) % 2 == 0;
  }

  /** The tile click of `onTileClick`: when the clicked tile is adjacent to the
      blank the two are swapped and the move counted, and the result reports
      whether the board is now solved; otherwise nothing changes. */
  function Click(p: Puzzle, index: Index): (r: ClickResult)
    requires IsPermutation(p.tiles)
    ensures IsPermutation(r.puzzle.tiles)
    ensures r.accepted <==> CanMove(index, Blank(p.tiles))
    ensures r.accepted ==>
              && r.puzzle.tiles[index] == 0
              && r.puzzle.tiles[Blank(p.tiles)] == p.tiles[index]
              && (forall k :: 0 <= k < Cells && k != index && k != Blank(p.tiles) ==>
                    r.puzzle.tiles[k] == p.tiles[k])
              && r.puzzle.movesCount == p.movesCount + 1
              && Blank(r.puzzle.tiles) == index
    ensures !r.accepted ==> r.puzzle == p
    ensures r.won <==> r.accepted && r.puzzle.tiles == Goal()
  {
    var emptyIndex := Blank(p.tiles);
    if CanMove(index, emptyIndex) then
      var tiles := Swap(p.tiles, index, emptyIndex);
      SwapKeepsPermutation(p.tiles, index, emptyIndex);
      ClickResult(Puzzle(tiles, p.movesCount + 1), true, IsSolved(tiles))
    else
      ClickResult(p, false, false)
  }

  /** Undoing a move: clicking the square the blank came from restores the
      tiles, at the price of a second counted move. */
  lemma ClickIsReversible(p: Puzzle, index: Index)
    requires IsPermutation(p.tiles)
    requires Click(p, index).accepted
    ensures Click(Click(p, index).puzzle, Blank(p.tiles)).accepted
    ensures Click(Click(p, index).puzzle, Blank(p.tiles)).puzzle
         == Puzzle(p.tiles, p.movesCount + 2)
  {
    var e := Blank(p.tiles);
    var q := Click(p, index).puzzle;
    CanMoveSymmetricIrreflexive(index, e);
    var r := Click(q, e).puzzle;
    assert r.tiles == p.tiles;
  }

  /** Every accepted move keeps `(inversions + emptyRowFromBottom) % 2`: a
      sideways move leaves the order of the tiles unchanged, a vertical move
      carries one tile past three others (an odd change in inversions) while
      the blank changes row by one. */
  lemma MovePreservesParity(b: seq<int>, t: Index)
    requires IsPermutation(b)
    requires CanMove(t, Blank(b))
    ensures IsPermutation(Swap(b, t, Blank(b)))
    ensures Parity(Swap(b, t, Blank(b))) == Parity(b)
  {
    var e := Blank(b);
    var b' := Swap(b, t, e);
    SwapKeepsPermutation(b, t, e);
    PermutationDistinct(b);
    var d := Abs(t - e) - 1;
    var w := MoveInversionParity(b, t, e, d);
    var rb, rb' := EmptyRowFromBottom(b), EmptyRowFromBottom(b');
    var v := RowParity(t, e, rb, rb', d);
    ParityStep(b, b', d, w, v);
  }

  /** The inversion count changes by the parity of the number of tiles the
      moved tile passes over: the two counts and that number add up to an
      even total `2 * w`. */
  lemma MoveInversionParity(b: seq<int>, t: Index, e: Index, d: int) returns (w: int)
    requires |b| == Cells && Distinct(b) && b[e] == 0
    requires CanMove(t, e) && d == Abs(t - e) - 1
    ensures Inv(b) + Inv(Swap(b, t, e)) + d == 2 * w
  {
    CanMoveSymmetricIrreflexive(t, e);
    var lo := if t < e then t else e;
    var hi := if t < e then e else t;
    assert Swap(b, t, e) == Swap(b, lo, hi);
    w := SwapInversionParity(b, lo, hi, d);
  }

  /** The blank's row from the bottom changes by the parity of the number of
      tiles a move passes over: not at all sideways, by one when vertical. */
  lemma RowParity(t: Index, e: Index, re: int, rt: int, d: int) returns (v: int)
    requires CanMove(t, e) && d == Abs(t - e) - 1
    requires re == Width - Row(e) && rt == Width - Row(t)
    ensures re + rt + d == 2 * v
  {
    RowChange(t, e);
    if Abs(t - e) == 1 {
      v := re;
    } else if Row(e) == Row(t) + 1 {
      v := rt + 1;
    } else {
      v := re + 1;
    }
  }

  /** Two boards whose inversion counts and blank rows each change by the
      same parity have the same solvability parity. */
  lemma ParityStep(b: seq<int>, b': seq<int>, d: int, w: int, v: int)
    requires Inv(b) + Inv(b') + d == 2 * w
    requires EmptyRowFromBottom(b) + EmptyRowFromBottom(b') + d == 2 * v
    ensures Parity(b) == Parity(b')
  {
    var x, y := Inv(b) + EmptyRowFromBottom(b), Inv(b') + EmptyRowFromBottom(b');
    EvenShift(x, y, w + v - y - d);
  }

  lemma EvenShift(x: int, y: int, k: int)
    requires x == y + 2 * k
    ensures x % 2 == y % 2
  {
  }

  /** A legal move is either sideways within a row or vertical by one row. */
  lemma RowChange(t: Index, e: Index)
    requires CanMove(t, e)
    ensures Abs(t - e) == 1 ==> Row(t) == Row(e)
    ensures Abs(t - e) != 1 ==> Abs(t - e) == Width && Abs(Row(t) - Row(e)) == 1
  {
  }

  /** Exchanging the blank with the tile `hi - lo` positions away changes the
      inversion count by an amount of the same parity as `hi - lo - 1`, the
      number of tiles passed over. */
  lemma SwapInversionParity(b: seq<int>, lo: int, hi: int, d: int) returns (w: int)
    requires Distinct(b)
    requires 0 <= lo < hi < |b| && d == hi - lo - 1
    requires b[lo] == 0 || b[hi] == 0
    ensures Inv(b) + Inv(Swap(b, lo, hi)) + d == 2 * w
  {
    PassedOverTiles(b, lo, hi, b[lo + 1..hi]);
    w := EndSwapParity(b, lo, hi, b[lo + 1..hi], d);
  }

  /** The same fact once the tiles passed over are known to differ from both ends. */
  lemma EndSwapParity(b: seq<int>, lo: int, hi: int, m: seq<int>, d: int) returns (w: int)
    requires 0 <= lo < hi < |b| && m == b[lo + 1..hi] && d == hi - lo - 1
    requires (b[lo] == 0) != (b[hi] == 0)
    requires forall k :: 0 <= k < |m| ==> m[k] != 0 && m[k] != b[lo] && m[k] != b[hi]
    ensures Inv(b) + Inv(Swap(b, lo, hi)) + d == 2 * w
  {
    var p, q := SplitAround(b, lo, hi, m);
    w := BlankSwapParity(p, b[lo], m, b[hi], q, d);
  }

  /** Cutting the board around positions `lo` and `hi`. */
  lemma SplitAround(b: seq<int>, lo: int, hi: int, m: seq<int>) returns (p: seq<int>, q: seq<int>)
    requires 0 <= lo < hi < |b| && m == b[lo + 1..hi]
    ensures Inv(b) == Inv(p + [b[lo]] + m + [b[hi]] + q)
    ensures Inv(Swap(b, lo, hi)) == Inv(p + [b[hi]] + m + [b[lo]] + q)
  {
    p, q := b[..lo], b[hi + 1..];
    assert b == p + [b[lo]] + m + [b[hi]] + q;
    assert Swap(b, lo, hi) == p + [b[hi]] + m + [b[lo]] + q;
  }

  /** On a board without repeated values, with the blank at one end of the
      stretch `lo..hi`, the tiles strictly between are neither the blank nor
      the tile at the other end. */
  lemma PassedOverTiles(b: seq<int>, lo: int, hi: int, m: seq<int>)
    requires Distinct(b)
    requires 0 <= lo < hi < |b| && m == b[lo + 1..hi]
    requires b[lo] == 0 || b[hi] == 0
    ensures (b[lo] == 0) != (b[hi] == 0)
    ensures forall k :: 0 <= k < |m| ==> m[k] != 0 && m[k] != b[lo] && m[k] != b[hi]
  {
    forall k | 0 <= k < |m|
      ensures m[k] != 0 && m[k] != b[lo] && m[k] != b[hi]
    {
      assert m[k] == b[lo + 1 + k];
    }
  }

  /** The same fact on a board written as `p + [a] + m + [c] + q`. */
  lemma BlankSwapParity(p: seq<int>, a: int, m: seq<int>, c: int, q: seq<int>, d: int) returns (w: int)
    requires d == |m|
    requires (a == 0) != (c == 0)
    requires forall k :: 0 <= k < |m| ==> m[k] != 0 && m[k] != a && m[k] != c
    ensures Inv(p + [a] + m + [c] + q) + Inv(p + [c] + m + [a] + q) + d == 2 * w
  {
    var r1, r2 := Inv([a] + m + [c]), Inv([c] + m + [a]);
    BlockExchange(p, a, m, c, q);
    if a == 0 {
      BlankExchange(c, m);
    } else {
      BlankExchange(a, m);
    }
    w := Inv(p + [c] + m + [a] + q) + r1 - Inv(m);
  }

  /** A sequence of clicks, each handled by `Click`. */
  function Play(p: Puzzle, clicks: seq<Index>): (r: Puzzle)
    requires IsPermutation(p.tiles)
    ensures IsPermutation(r.tiles)
    ensures r.movesCount <= p.movesCount + |clicks|
    decreases |clicks|
  {
    if |clicks| == 0 then p
    else Play(Click(p, clicks[0]).puzzle, clicks[1..])
  }

  /** No sequence of clicks changes the parity. */
  lemma {:induction false} PlayPreservesParity(p: Puzzle, clicks: seq<Index>)
    requires IsPermutation(p.tiles)
    ensures Parity(Play(p, clicks).tiles) == Parity(p.tiles)
    decreases |clicks|
  {
    if |clicks| != 0 {
      var r := Click(p, clicks[0]);
      if r.accepted {
        MovePreservesParity(p.tiles, clicks[0]);
      }
      PlayPreservesParity(r.puzzle, clicks[1..]);
    }
  }

  /** The goal board has no inversion and its blank in the bottom row, so its
      parity is odd and `isSolvable` rejects it. */
  lemma GoalParityIsOdd()
    ensures Parity(Goal()) == 1
    ensures IsPermutation(Goal())
  {
    GoalIsPermutation();
    SolvedShapeParity(Goal());
  }

  lemma SolvedShapeParity(g: seq<int>)
    requires IsPermutation(g)
    requires forall i :: 0 <= i < Cells - 1 ==> g[i] == i + 1
    requires g[Cells - 1] == 0
    ensures Parity(g) == 1
  {
    NoInversions(g);
    var e := Blank(g);
    assert e == Cells - 1;
  }

  lemma GoalIsPermutation()
    ensures IsPermutation(Goal())
  {
    var g := Goal();
    var id := Identity();
    assert g == id[1..] + [0];
    assert id == [0] + id[1..];
  }

  /** The board 1, 2, ..., 11, blank, 13, 14, 15, 12: the goal with tile 12
      moved down one row. */
  function OneMoveFromGoal(): (b: seq<int>)
    ensures |b| == Cells
    ensures b[11] == 0 && b[15] == 12
    ensures forall i :: 0 <= i < Cells && i != 11 && i != 15 ==> b[i] == i + 1
  {
    seq(Cells, i => if i == 11 then 0 else if i == 15 then 12 else i + 1)
  }

  /** Concrete witness of the parity mistake: the board one move from the goal
      is reported unsolvable, and yet clicking tile 12 solves it. */
  lemma OneMoveFromGoalRejected()
    ensures IsPermutation(OneMoveFromGoal())
    ensures Parity(OneMoveFromGoal()) == 1
    ensures Click(Puzzle(OneMoveFromGoal(), 0), 15).won
  {
    GoalParityIsOdd();
    OneMoveFromSolved(Goal(), OneMoveFromGoal());
  }

  lemma OneMoveFromSolved(g: seq<int>, b: seq<int>)
    requires IsPermutation(g) && Parity(g) == 1 && g == Goal()
    requires |b| == Cells && b[11] == 0 && b[15] == 12
    requires forall i :: 0 <= i < Cells && i != 11 && i != 15 ==> b[i] == i + 1
    ensures IsPermutation(b) && Parity(b) == 1
    ensures Click(Puzzle(b, 0), 15).won
  {
    assert Blank(g) == 15;
    assert CanMove(11, 15);
    MovePreservesParity(g, 11);
    assert Swap(g, 11, 15) == b;
    assert Blank(b) == 11;
    assert CanMove(15, 11);
    assert Swap(b, 15, 11) == g;
  }

  /** Finding, as written: a board that `isSolvable` accepts can never be
      brought to the goal, whatever is clicked. */
  lemma AcceptedBoardNeverReachesGoal(p: Puzzle, clicks: seq<Index>)
    requires IsPermutation(p.tiles)
    requires Parity(p.tiles) == 0
    ensures Play(p, clicks).tiles != Goal()
  {
    PlayPreservesParity(p, clicks);
    GoalParityIsOdd();
  }

  /** The intended solvability test for width 4: inversions plus the blank's
      row from the bottom must be odd. */
  function IsSolvableIntended(arr: seq<int>): (r: bool)
    requires IsPermutation(arr)
    ensures r <==> (|InversionPairs(arr)| + EmptyRowFromBottom(arr)) % 2 == 1
  {
    InvCountsPairs(arr);
    Parity(arr) == 1
  }

  /** Corrected: every board from which some click sequence reaches the goal
      passes the intended test. */
  lemma ReachesGoalOnlyIfIntended(p: Puzzle, clicks: seq<Index>)
    requires IsPermutation(p.tiles)
    requires Play(p, clicks).tiles == Goal()
    ensures IsSolvableIntended(p.tiles)
  {
    PlayPreservesParity(p, clicks);
    GoalParityIsOdd();
  }

  /** A well-formed supply of random draws for one shuffle: at step `k` the
      loop index is `15 - k` and `Math.floor(Math.random() * (i + 1))` lies in
      `0..i`. */
  predicate ValidRolls(rolls: seq<int>)
  {
    |rolls| == Cells - 1 && forall k :: 0 <= k < |rolls| ==> 0 <= rolls[k] <= Cells - 1 - k
  }

  /** The Fisher-Yates loop from index `i` down to 1, the draw for each index
      taken from `rolls`. */
  function FisherYates(arr: seq<int>, i: int, rolls: seq<int>): (r: seq<int>)
    requires 0 <= i < |arr|
    requires |rolls| == i && forall k :: 0 <= k < i ==> 0 <= rolls[k] <= i - k
    ensures |r| == |arr|
    ensures multiset(r) == multiset(arr)
    ensures forall k :: i < k < |arr| ==> r[k] == arr[k]
    decreases i
  {
    if i == 0 then arr
    else
      SwapMultiset(arr, i, rolls[0]);
      FisherYates(Swap(arr, i, rolls[0]), i - 1, rolls[1..])
  }

  /** One shuffle of the identity array. */
  function Shuffle(rolls: seq<int>): (r: seq<int>)
    requires ValidRolls(rolls)
    ensures IsPermutation(r)
  {
    FisherYates(Identity(), |rolls|, rolls)
  }

  /** The exit condition of the generator's do-while. */
  predicate Accepted(arr: seq<int>)
  {
    |arr| == Cells && Parity(arr) == 0 && arr != Goal()
  }

  /** The board the do-while settles on when its rounds of draws are taken
      from `rounds[k..]`: the first shuffle that meets the exit condition. */
  function FirstAccepted(rounds: seq<seq<int>>, k: nat): (r: Option<seq<int>>)
    requires k <= |rounds|
    requires forall i :: 0 <= i < |rounds| ==> ValidRolls(rounds[i])
    ensures r.Some? ==> Accepted(r.value)
    ensures r.Some? ==> exists i :: k <= i < |rounds| && r.value == Shuffle(rounds[i])
    decreases |rounds| - k
  {
    if k == |rounds| then None
    else
      var b := Shuffle(rounds[k]);
      if Accepted(b) then Some(b) else FirstAccepted(rounds, k + 1)
  }

  /** The generator gives up only when no supplied round is accepted. */
  lemma {:induction false} NoneMeansAllRejected(rounds: seq<seq<int>>, k: nat, i: nat)
    requires k <= i < |rounds|
    requires forall j :: 0 <= j < |rounds| ==> ValidRolls(rounds[j])
    requires FirstAccepted(rounds, k).None?
    ensures !Accepted(Shuffle(rounds[i]))
    decreases i - k
  {
    var b := Shuffle(rounds[k]);
    assert !Accepted(b);
    if k < i {
      NoneMeansAllRejected(rounds, k + 1, i);
    }
  }

  /** `generateSolvableBoard`: shuffle, and repeat until the board passes
      `isSolvable` and is not already solved. Each round's draws come from
      `rounds`; `None` means the supplied rounds ran out first. */
  method GenerateSolvableBoard(rounds: seq<seq<int>>) returns (board: Option<seq<int>>)
    requires forall k :: 0 <= k < |rounds| ==> ValidRolls(rounds[k])
    ensures board == FirstAccepted(rounds, 0)
    ensures board.Some? ==> IsPermutation(board.value) && Accepted(board.value)
  {
    ghost var first := FirstAccepted(rounds, 0);
    var k := 0;
    while k < |rounds|
      invariant 0 <= k <= |rounds|
      invariant FirstAccepted(rounds, k) == FirstAccepted(rounds, 0)
    {
      var arr := Shuffle(rounds[k]);
      var solvable := IsSolvable(arr);
      var solved := IsSolved(arr);
      if solvable && !solved {
        return Some(arr);
      }
      assert !Accepted(arr);
      k := k + 1;
    }
    return None;
  }

  /** What the generator's exit condition guarantees, in the terms of script.js:
      an even count of inverted pairs plus blank row, and not the goal. */
  lemma AcceptedMeans(arr: seq<int>)
    requires Accepted(arr)
    ensures (|InversionPairs(arr)| + EmptyRowFromBottom(arr)) % 2 == 0
    ensures arr != Goal()
  {
    InvCountsPairs(arr);
  }

  /** A new game: a generated board and a zero move counter. */
  method NewGame(rounds: seq<seq<int>>) returns (game: Option<Puzzle>)
    requires forall k :: 0 <= k < |rounds| ==> ValidRolls(rounds[k])
    ensures game == (if FirstAccepted(rounds, 0).Some? then Some(Puzzle(FirstAccepted(rounds, 0).value, 0)) else None)
    ensures game.Some? ==> IsPermutation(game.value.tiles) && game.value.movesCount == 0
    ensures game.Some? ==> forall clicks :: Play(game.value, clicks).tiles != Goal()
  {
    var board := GenerateSolvableBoard(rounds);
    if board.None? {
      return None;
    }
    var p := Puzzle(board.value, 0);
    forall clicks: seq<Index>
      ensures Play(p, clicks).tiles != Goal()
    {
      AcceptedBoardNeverReachesGoal(p, clicks);
    }
    return Some(p);
  }
}
