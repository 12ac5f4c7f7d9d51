// The grid shuffle of the game component: a Fisher–Yates shuffle of
// [1..25] done in place, from the last index down to 1.
//
// The random index drawn at step i is an oracle input: picks[i] is the
// j chosen at step i, with 0 <= j <= i.  picks[0] is never drawn (the loop
// stops at 1) and is ignored.

module Shuffle {

  /** Number of tiles: the array built by the shuffle has this length. */
  const Size: nat := 25

  /** The array [1, 2, ..., Size] the shuffle starts from. */
  function Ascending(): (r: seq<int>)
    ensures |r| == Size && r[0] == 1 && r[Size - 1] == Size
  {
    seq(Size, k => k + 1)
  }

  /** Ascending() is strictly increasing; with its ends 1 and Size, it is exactly 1, 2, ..., Size. */
  lemma AscendingIncreasing()
    ensures forall i, j :: 0 <= i < j < Size ==> Ascending()[i] < Ascending()[j]
  {
  }

  /** An index oracle: at every step i in 1..Size-1 the drawn j is in [0, i]. */
  predicate ValidPicks(picks: seq<int>)
  {
    |picks| == Size && forall i :: 1 <= i < Size ==> 0 <= picks[i] <= i
  }

  /** The sequence after exchanging the elements at i and j. */
  function Swap(s: seq<int>, i: nat, j: nat): (r: seq<int>)
    requires i < |s| && j < |s|
    ensures |r| == |s|
    ensures r[i] == s[j] && r[j] == s[i]
    ensures forall k :: 0 <= k < |s| && k != i && k != j ==> r[k] == s[k]
  {
    s[i := s[j]][j := s[i]]
  }

  /** The steps i, i-1, ..., 1 of the shuffle applied to s. */
  function Steps(s: seq<int>, picks: seq<int>, i: nat): (r: seq<int>)
    requires ValidPicks(picks) && |s| == Size && i < Size
    ensures |r| == Size
    decreases i
  {
    if i == 0 then s else Steps(Swap(s, i, picks[i]), picks, i - 1)
  }

  /** The grid the shuffle produces for the index choices picks: whatever they are, a permutation of 1..Size. */
  function FisherYates(picks: seq<int>): (r: seq<int>)
    requires ValidPicks(picks)
    ensures IsPermutation(r)
  {
    StepsPermutes(Ascending(), picks, Size - 1);
    Steps(Ascending(), picks, Size - 1)
  }

  /** s holds exactly the numbers 1..Size, each once. */
  predicate IsPermutation(s: seq<int>)
  {
    multiset(s) == multiset(Ascending())
  }

  /** One swap keeps the multiset of elements. */
  lemma SwapPermutes(s: seq<int>, i: nat, j: nat)
    requires i < |s| && j < |s|
    ensures multiset(Swap(s, i, j)) == multiset(s)
  {
  }

  /** The shuffle steps only rearrange elements. */
  lemma {:induction false} StepsPermutes(s: seq<int>, picks: seq<int>, i: nat)
    requires ValidPicks(picks) && |s| == Size && i < Size
    ensures multiset(Steps(s, picks, i)) == multiset(s)
    decreases i
  {
    if i > 0 {
      SwapPermutes(s, i, picks[i]);
      StepsPermutes(Swap(s, i, picks[i]), picks, i - 1);
    }
  }

  /** Once step i is reached, the positions above i are never touched again. */
  lemma {:induction false} StepsKeepAbove(s: seq<int>, picks: seq<int>, i: nat)
    requires ValidPicks(picks) && |s| == Size && i < Size
    ensures forall k :: i < k < Size ==> Steps(s, picks, i)[k] == s[k]
    decreases i
  {
    if i > 0 {
      StepsKeepAbove(Swap(s, i, picks[i]), picks, i - 1);
    }
  }

  /** In the first n numbers of Ascending(), v occurs once if 1 <= v <= n and never otherwise. */
  lemma {:induction false} AscendingPrefixCount(n: nat, v: int)
    requires n <= Size
    ensures multiset(Ascending()[..n])[v] == if 1 <= v <= n then 1 else 0
  {
    if n > 0 {
      AscendingPrefixCount(n - 1, v);
      assert Ascending()[..n] == Ascending()[..n - 1] + [n];
    }
  }

  /** Ascending() holds each of 1..Size exactly once and nothing else. */
  lemma AscendingCount(v: int)
    ensures multiset(Ascending())[v] == if 1 <= v <= Size then 1 else 0
  {
    AscendingPrefixCount(Size, v);
    assert Ascending()[..Size] == Ascending();
  }

  /** Being a permutation means: every v in 1..Size occurs exactly once, anything else never. */
  lemma EachExactlyOnce(s: seq<int>)
    ensures IsPermutation(s) <==>
            forall v :: multiset(s)[v] == if 1 <= v <= Size then 1 else 0
  {
    if IsPermutation(s) {
      forall v ensures multiset(s)[v] == if 1 <= v <= Size then 1 else 0 {
        AscendingCount(v);
      }
    }
    if forall v :: multiset(s)[v] == if 1 <= v <= Size then 1 else 0 {
      forall v ensures multiset(s)[v] == multiset(Ascending())[v] {
        AscendingCount(v);
      }
      assert multiset(s) == multiset(Ascending());
    }
  }

  /** An element that occurs at two positions occurs twice in the multiset. */
  lemma TwoPositions(s: seq<int>, i: nat, j: nat)
    requires i < j < |s| && s[i] == s[j]
    ensures multiset(s)[s[i]] >= 2
  {
    assert s == s[..i] + [s[i]] + s[i + 1..j] + [s[j]] + s[j + 1..];
  }

  /** A permutation grid is 25 long, holds only tile numbers, none twice, and every tile. */
  lemma PermutationFacts(s: seq<int>)
    requires IsPermutation(s)
    ensures |s| == Size
    ensures forall k :: 0 <= k < |s| ==> 1 <= s[k] <= Size
    ensures forall i, j :: 0 <= i < j < |s| ==> s[i] != s[j]
    ensures forall v :: 1 <= v <= Size ==> v in s
  {
    assert |multiset(s)| == |multiset(Ascending())|;
    EachExactlyOnce(s);
    forall k | 0 <= k < |s| ensures 1 <= s[k] <= Size {
      assert s[k] in multiset(s);
    }
    forall i, j | 0 <= i < j < |s| ensures s[i] != s[j] {
      if s[i] == s[j] {
        TwoPositions(s, i, j);
      }
    }
    forall v | 1 <= v <= Size ensures v in s {
      assert v in multiset(s);
    }
  }

  /** One iteration of the loop: swapping at i and moving to i - 1 keeps the remaining steps' result, the multiset, and settles position i. */
  lemma LoopStep(a: seq<int>, picks: seq<int>, i: nat)
    requires ValidPicks(picks) && |a| == Size && 0 < i < Size
    ensures var b := Swap(a, i, picks[i]);
            Steps(b, picks, i - 1) == Steps(a, picks, i) &&
            multiset(b) == multiset(a) &&
            b[i] == Steps(a, picks, i)[i]
  {
    SwapPermutes(a, i, picks[i]);
    StepsKeepAbove(Swap(a, i, picks[i]), picks, i - 1);
  }

  /** shuffleArray: build [1..Size] and swap in place from the last index down to 1. */
  method ShuffleArray(picks: seq<int>) returns (grid: seq<int>)
    requires ValidPicks(picks)
    ensures grid == FisherYates(picks)
    ensures IsPermutation(grid)
  {
    ghost var target := FisherYates(picks);
    ghost var start := Ascending();
    var arr := new int[Size](k => k + 1);
    assert arr[..] == start;
    var i := arr.Length - 1;
    while i > 0
      invariant 0 <= i < Size == arr.Length
      invariant Steps(arr[..], picks, i) == target
      invariant multiset(arr[..]) == multiset(start)
      invariant arr[i + 1..] == target[i + 1..]
      decreases i
    {
      var j := picks[i];
      LoopStep(arr[..], picks, i);
      assert arr[..][i := arr[j]][j := arr[i]] == Swap(arr[..], i, j);
      arr[i], arr[j] := arr[j], arr[i];
      i := i - 1;
    }
    grid := arr[..];
  }
}
