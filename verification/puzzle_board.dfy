/** The 4x4 board of the sliding puzzle: a sequence of 16 tiles holding a
    permutation of 0..15, where 0 is the blank. Position `i` lies at row
    `i / 4` and column `i % 4`. */
module PuzzleBoard {

  const Width: int := 4
  const Cells: int := 16

  /** A position on the board (the `dataset.index` of a tile cell). */
  type Index = i: int | 0 <= i < 16

  function Row(i: Index): int { i / Width }
  function Col(i: Index): int { i % Width }

  /** The array the shuffle starts from: 0, 1, ..., 15 in order. */
  function Identity(): (s: seq<int>)
    ensures |s| == Cells
    ensures forall i :: 0 <= i < Cells ==> s[i] == i
  {
    seq(Cells, i => i)
  }

  /** The goal configuration 1, 2, ..., 15 followed by the blank. */
  function Goal(): (s: seq<int>)
    ensures |s| == Cells
    ensures forall i :: 0 <= i < Cells - 1 ==> s[i] == i + 1
    ensures s[Cells - 1] == 0
  {
    seq(Cells, i => if i < Cells - 1 then i + 1 else 0)
  }

  /** The board invariant: 16 tiles that are a rearrangement of 0..15. */
  predicate IsPermutation(b: seq<int>) {
    |b| == Cells && multiset(b) == multiset(Identity())
  }

  /** Exchange the entries at positions `i` and `j` (a destructuring swap). */
  function Swap(s: seq<int>, i: int, j: int): (r: seq<int>)
    requires 0 <= i < |s| && 0 <= j < |s|
    ensures |r| == |s|
    ensures r[i] == s[j] && r[j] == s[i]
    ensures forall k :: 0 <= k < |s| && k != i && k != j ==> r[k] == s[k]
  {
    s[i := s[j]][j := s[i]]
  }

  lemma SwapMultiset(s: seq<int>, i: int, j: int)
    requires 0 <= i < |s| && 0 <= j < |s|
    ensures multiset(Swap(s, i, j)) == multiset(s)
  {
    assert i != j ==> s == s[i := s[i]][j := s[j]];
  }

  /** No value occurs twice. */
  predicate Distinct(b: seq<int>) {
    forall i, j :: 0 <= i < j < |b| ==> b[i] != b[j]
  }

  /** `Array.prototype.indexOf`: the first position holding `v`, or -1. */
  function IndexOf(s: seq<int>, v: int): (r: int)
    ensures -1 <= r < |s|
    ensures r == -1 <==> v !in s
    ensures r >= 0 ==> s[r] == v && forall k :: 0 <= k < r ==> s[k] != v
  {
    if |s| == 0 then -1
    else if s[0] == v then 0
    else
      var k := IndexOf(s[1..], v);
      assert v in s[1..] ==> v in s;
      assert v in s ==> v == s[0] || v in s[1..];
      if k == -1 then -1 else k + 1
  }

  /** Every tile value of a permutation board lies in 0..15. */
  lemma PermutationRange(b: seq<int>)
    requires IsPermutation(b)
    ensures forall i :: 0 <= i < Cells ==> 0 <= b[i] < Cells
  {
    forall i | 0 <= i < Cells
      ensures 0 <= b[i] < Cells
    {
      assert b[i] in multiset(b);
      assert b[i] in Identity();
    }
  }

  /** Each value occurs exactly once in the identity array. */
  lemma IdentityOnce(v: int)
    requires 0 <= v < Cells
    ensures multiset(Identity())[v] == 1
  {
    var id := Identity();
    assert id == id[..v] + [v] + id[v + 1..];
    assert v !in id[..v];
    assert v !in id[v + 1..];
    assert multiset(id) == multiset(id[..v]) + multiset{v} + multiset(id[v + 1..]);
  }

  /** A permutation board holds no value twice. */
  lemma PermutationDistinct(b: seq<int>)
    requires IsPermutation(b)
    ensures Distinct(b)
  {
    PermutationRange(b);
    forall i, j | 0 <= i < j < Cells
      ensures b[i] != b[j]
    {
      IdentityOnce(b[i]);
      assert b == b[..i] + [b[i]] + b[i + 1..];
      assert b[i + 1..][j - i - 1] == b[j];
    }
  }

  /** The blank (0) is on every permutation board. */
  lemma PermutationHasBlank(b: seq<int>)
    requires IsPermutation(b)
    ensures 0 in b
  {
    assert Identity()[0] == 0;
    assert 0 in multiset(Identity());
  }

  /** Position of the blank on a permutation board (`tiles.indexOf(0)`). */
  function Blank(b: seq<int>): (e: Index)
    requires IsPermutation(b)
    ensures e == IndexOf(b, 0)
    ensures b[e] == 0
    ensures forall k :: 0 <= k < Cells && k != e ==> b[k] != 0
  {
    PermutationHasBlank(b);
    PermutationDistinct(b);
    IndexOf(b, 0)
  }

  /** Swapping two positions keeps a board a permutation, and when one of them
      held the blank the blank is found at the other one afterwards. */
  lemma SwapKeepsPermutation(b: seq<int>, t: Index, e: Index)
    requires IsPermutation(b) && b[e] == 0
    ensures IsPermutation(Swap(b, t, e))
    ensures Blank(Swap(b, t, e)) == t
  {
    var r := Swap(b, t, e);
    SwapMultiset(b, t, e);
    PermutationDistinct(r);
  }
}
