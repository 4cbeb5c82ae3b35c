// The Fisher-Yates (Knuth) shuffle of a deck's ids. The random draws are an
// input: `picks[i]` is the index drawn when `i + 1` ids are still unplaced.
module Shuffle {
  import opened Cards

  /** Draws a shuffle of `n` ids may use: the draw for `i + 1` unplaced ids lies in `[0, i]`. */
  ghost predicate ValidPicks(picks: seq<int>, n: int)
  {
    |picks| == n && forall i | 0 <= i < |picks| :: 0 <= picks[i] <= i
  }

  /** `s` with the entries at `i` and `j` exchanged. */
  function Swap(s: seq<string>, i: nat, j: nat): (r: seq<string>)
    requires i < |s| && j < |s|
    ensures |r| == |s| && r[i] == s[j] && r[j] == s[i]
    ensures forall k | 0 <= k < |s| && k != i && k != j :: r[k] == s[k]
  {
    s[i := s[j]][j := s[i]]
  }

  lemma SwapPermutes(s: seq<string>, i: nat, j: nat)
    requires i < |s| && j < |s|
    ensures multiset(Swap(s, i, j)) == multiset(s)
  {
  }

  /**
   * What the shuffle loop leaves in `s` when `n` ids are still unplaced: place
   * `picks[n - 1]` at position `n - 1`, then shuffle the first `n - 1`.
   */
  function FisherYates(s: seq<string>, picks: seq<int>, n: nat): (r: seq<string>)
    requires n <= |s| && ValidPicks(picks, |s|)
    ensures |r| == |s|
    ensures forall k | n <= k < |s| :: r[k] == s[k]
    decreases n
  {
    if n == 0 then s
    else FisherYates(Swap(s, n - 1, picks[n - 1]), picks, n - 1)
  }

  /** The shuffle never drops or duplicates an id: the result is a permutation. */
  lemma {:induction false} FisherYatesPermutes(s: seq<string>, picks: seq<int>, n: nat)
    requires n <= |s| && ValidPicks(picks, |s|)
    ensures |FisherYates(s, picks, n)| == |s|
    ensures multiset(FisherYates(s, picks, n)) == multiset(s)
    decreases n
  {
    if n > 0 {
      SwapPermutes(s, n - 1, picks[n - 1]);
      FisherYatesPermutes(Swap(s, n - 1, picks[n - 1]), picks, n - 1);
    }
  }

  /** The destructuring swap of two array entries, in place. */
  method SwapInPlace(a: array<string>, i: nat, j: nat)
    requires i < a.Length && j < a.Length
    modifies a
    ensures a[..] == Swap(old(a[..]), i, j)
  {
    a[i], a[j] := a[j], a[i];
  }

  /**
   * `shuffleCardOrder`: copy the deck's ids into an array and run the loop of
   * swaps over it in place. The result is the Fisher-Yates shuffle of the ids
   * under `picks`, hence a permutation of the deck's ids.
   */
  method ShuffleCardOrder(flashCards: seq<FlashCard>, picks: seq<int>) returns (order: seq<string>)
    requires ValidPicks(picks, |flashCards|)
    ensures order == FisherYates(Ids(flashCards), picks, |flashCards|)
    ensures |order| == |flashCards|
    ensures multiset(order) == multiset(Ids(flashCards))
  {
    var ids := new string[|flashCards|](i requires 0 <= i < |flashCards| => flashCards[i].id);
    assert ids[..] == Ids(flashCards);
    var currentIdx := ids.Length;
    while currentIdx != 0
      invariant 0 <= currentIdx <= ids.Length
      invariant FisherYates(ids[..], picks, currentIdx) == FisherYates(Ids(flashCards), picks, |flashCards|)
      invariant multiset(ids[..]) == multiset(Ids(flashCards))
    {
      var randomIdx := picks[currentIdx - 1];
      currentIdx := currentIdx - 1;
      ghost var before := ids[..];
      SwapInPlace(ids, currentIdx, randomIdx);
      SwapPermutes(before, currentIdx, randomIdx);
    }
    order := ids[..];
    FisherYatesPermutes(Ids(flashCards), picks, |flashCards|);
  }
}
