/** Inversion counting for the sliding puzzle, in the shape of the nested
    loop of `isSolvable`: the outer loop walks the board from the front and
    skips the blank, the inner loop counts the later non-blank tiles that are
    smaller. The lemmas here are the algebra that the move-parity argument
    needs, and the link between this recursive count and the set of inverted
    position pairs. */
module Inversions {

  /** Number of non-blank entries of `t` smaller than `x` (the inner loop). */
  function Cnt(x: int, t: seq<int>): nat
  {
    if |t| == 0 then 0
    else (if t[0] != 0 && x > t[0] then 1 else 0) + Cnt(x, t[1..])
  }

  /** What one outer-loop iteration adds: nothing for the blank. */
  function Head(x: int, t: seq<int>): nat
  {
    if x == 0 then 0 else Cnt(x, t)
  }

  /** Number of inversions among the non-blank entries of `s`. */
  function Inv(s: seq<int>): nat
  {
    if |s| == 0 then 0 else Head(s[0], s[1..]) + Inv(s[1..])
  }

  /** Inversions between an entry of `s` and an entry of `t`, when `s` comes
      before `t`. */
  function Cross(s: seq<int>, t: seq<int>): nat
  {
    if |s| == 0 then 0 else Head(s[0], t) + Cross(s[1..], t)
  }

  /** The inverted position pairs `i < j` of `s`: both entries non-blank and
      the earlier one larger. */
  function InversionPairs(s: seq<int>): set<(int, int)>
  {
    set i, j | 0 <= i < j < |s| && s[i] != 0 && s[j] != 0 && s[i] > s[j] :: (i, j)
  }

  lemma {:induction false} CntAppend(x: int, a: seq<int>, b: seq<int>)
    ensures Cnt(x, a + b) == Cnt(x, a) + Cnt(x, b)
  {
    if |a| == 0 {
      assert a + b == b;
    } else {
      assert (a + b)[1..] == a[1..] + b;
      CntAppend(x, a[1..], b);
    }
  }

  lemma HeadAppend(x: int, a: seq<int>, b: seq<int>)
    ensures Head(x, a + b) == Head(x, a) + Head(x, b)
  {
    CntAppend(x, a, b);
  }

  /** Inversions of a concatenation: those inside each part plus those across. */
  lemma {:induction false} InvAppend(s: seq<int>, t: seq<int>)
    ensures Inv(s + t) == Inv(s) + Cross(s, t) + Inv(t)
  {
    if |s| == 0 {
      assert s + t == t;
    } else {
      assert (s + t)[0] == s[0];
      assert (s + t)[1..] == s[1..] + t;
      HeadAppend(s[0], s[1..], t);
      InvAppend(s[1..], t);
    }
  }

  lemma {:induction false} CrossAppendLeft(s1: seq<int>, s2: seq<int>, t: seq<int>)
    ensures Cross(s1 + s2, t) == Cross(s1, t) + Cross(s2, t)
  {
    if |s1| == 0 {
      assert s1 + s2 == s2;
    } else {
      assert (s1 + s2)[0] == s1[0];
      assert (s1 + s2)[1..] == s1[1..] + s2;
      CrossAppendLeft(s1[1..], s2, t);
    }
  }

  lemma {:induction false} CrossAppendRight(s: seq<int>, t1: seq<int>, t2: seq<int>)
    ensures Cross(s, t1 + t2) == Cross(s, t1) + Cross(s, t2)
  {
    if |s| != 0 {
      HeadAppend(s[0], t1, t2);
      CrossAppendRight(s[1..], t1, t2);
    }
  }

  /** Exchanging the two ends `a` and `c` of a block `[a] + m + [c]` changes the
      inversion count of the whole board exactly as it changes the count of the
      block alone: pairs with one entry outside the block are unaffected. */
  lemma BlockExchange(p: seq<int>, a: int, m: seq<int>, c: int, q: seq<int>)
    ensures Inv(p + [a] + m + [c] + q) + Inv([c] + m + [a])
         == Inv(p + [c] + m + [a] + q) + Inv([a] + m + [c])
  {
    var r1 := [a] + m + [c];
    var r2 := [c] + m + [a];
    assert p + [a] + m + [c] + q == p + (r1 + q);
    assert p + [c] + m + [a] + q == p + (r2 + q);
    InvAppend(p, r1 + q);
    InvAppend(p, r2 + q);
    InvAppend(r1, q);
    InvAppend(r2, q);
    CrossAppendRight(p, r1, q);
    CrossAppendRight(p, r2, q);
    CrossAppendRight(p, [a] + m, [c]);
    CrossAppendRight(p, [a], m);
    CrossAppendRight(p, [c] + m, [a]);
    CrossAppendRight(p, [c], m);
    CrossAppendLeft([a] + m, [c], q);
    CrossAppendLeft([a], m, q);
    CrossAppendLeft([c] + m, [a], q);
    CrossAppendLeft([c], m, q);
  }

  /** For a non-blank `x` distinct from every entry of `m` (none of them the
      blank), each entry of `m` is either larger or smaller than `x`. */
  lemma {:induction false} CrossCntComplement(m: seq<int>, x: int)
    requires x != 0
    requires forall k :: 0 <= k < |m| ==> m[k] != 0 && m[k] != x
    ensures Cross(m, [x]) + Cnt(x, m) == |m|
  {
    if |m| != 0 {
      assert [x][1..] == [];
      assert Cnt(m[0], [x]) == (if m[0] > x then 1 else 0) + Cnt(m[0], []);
      assert Cross(m, [x]) == Head(m[0], [x]) + Cross(m[1..], [x]);
      assert Cnt(x, m) == (if x > m[0] then 1 else 0) + Cnt(x, m[1..]);
      CrossCntComplement(m[1..], x);
    }
  }

  /** Moving tile `x` across the block `m` into the blank's place: the two
      inversion counts add up to `2 * Inv(m) + |m|`, so they differ by an odd
      amount exactly when `|m|` is odd. */
  lemma BlankExchange(x: int, m: seq<int>)
    requires x != 0
    requires forall k :: 0 <= k < |m| ==> m[k] != 0 && m[k] != x
    ensures Inv([0] + m + [x]) + Inv([x] + m + [0]) == 2 * Inv(m) + |m|
  {
    assert ([0] + m + [x])[1..] == m + [x];
    assert ([x] + m + [0])[1..] == m + [0];
    InvAppend(m, [x]);
    InvAppend(m, [0]);
    CntAppend(x, m, [0]);
    CrossZero(m);
    CrossCntComplement(m, x);
  }

  /** The blank never takes part in an inversion. */
  lemma {:induction false} CrossZero(m: seq<int>)
    ensures Cross(m, [0]) == 0
  {
    if |m| != 0 {
      assert [0][1..] == [];
      assert Cnt(m[0], [0]) == Cnt(m[0], []);
      CrossZero(m[1..]);
    }
  }

  /** A sequence in which every later non-blank entry is at least every earlier
      entry has no inversion. */
  lemma {:induction false} NoInversions(s: seq<int>)
    requires forall i, j :: 0 <= i < j < |s| ==> s[j] == 0 || s[i] <= s[j]
    ensures Inv(s) == 0
  {
    if |s| != 0 {
      CntNone(s[0], s[1..]);
      NoInversions(s[1..]);
    }
  }

  lemma {:induction false} CntNone(x: int, t: seq<int>)
    requires forall k :: 0 <= k < |t| ==> t[k] == 0 || x <= t[k]
    ensures Cnt(x, t) == 0
  {
    if |t| != 0 {
      CntNone(x, t[1..]);
    }
  }

  /** The pairs `(i, j)` with `lo <= j` that an inner loop over `s[lo..]`
      counts for the tile at `i`. */
  function RowPairs(s: seq<int>, i: int, lo: int): set<(int, int)>
    requires 0 <= i < |s| && 0 <= lo <= |s|
  {
    set j | lo <= j < |s| && s[j] != 0 && s[i] > s[j] :: (i, j)
  }

  /** The inverted pairs whose first position is at least `lo`. */
  function PairsFrom(s: seq<int>, lo: int): set<(int, int)>
    requires 0 <= lo <= |s|
  {
    set i, j | lo <= i < j < |s| && s[i] != 0 && s[j] != 0 && s[i] > s[j] :: (i, j)
  }

  lemma {:induction false} RowPairsCount(s: seq<int>, i: int, lo: int)
    requires 0 <= i < |s| && 0 <= lo <= |s|
    ensures |RowPairs(s, i, lo)| == Cnt(s[i], s[lo..])
    decreases |s| - lo
  {
    if lo == |s| {
      assert RowPairs(s, i, lo) == {};
    } else {
      RowPairsCount(s, i, lo + 1);
      assert s[lo..][1..] == s[lo + 1..];
      assert (i, lo) !in RowPairs(s, i, lo + 1);
      if s[lo] != 0 && s[i] > s[lo] {
        assert RowPairs(s, i, lo) == {(i, lo)} + RowPairs(s, i, lo + 1);
      } else {
        assert RowPairs(s, i, lo) == RowPairs(s, i, lo + 1);
      }
    }
  }

  lemma {:induction false} PairsFromCount(s: seq<int>, lo: int)
    requires 0 <= lo <= |s|
    ensures |PairsFrom(s, lo)| == Inv(s[lo..])
    decreases |s| - lo
  {
    if lo == |s| {
      assert PairsFrom(s, lo) == {};
    } else {
      PairsFromCount(s, lo + 1);
      assert s[lo..][1..] == s[lo + 1..];
      assert s[lo..][0] == s[lo];
      var row := if s[lo] != 0 then RowPairs(s, lo, lo + 1) else {};
      if s[lo] != 0 {
        RowPairsCount(s, lo, lo + 1);
      }
      assert PairsFrom(s, lo) == row + PairsFrom(s, lo + 1);
      assert row !! PairsFrom(s, lo + 1);
    }
  }

  /** The recursive count is the number of inverted position pairs. */
  lemma InvCountsPairs(s: seq<int>)
    ensures Inv(s) == |InversionPairs(s)|
  {
    PairsFromCount(s, 0);
    assert s[0..] == s;
    assert PairsFrom(s, 0) == InversionPairs(s);
  }
}
