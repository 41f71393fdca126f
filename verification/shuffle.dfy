/**
 * In-place shuffle (shuffleDeck, server/gameLogic.js:26-32): a Fisher-Yates
 * pass from the last position down to position 1, swapping each position i
 * with a position j drawn from 0 .. i.
 *
 * The random number generator is not modelled: the draws are a parameter, one
 * per position, and all that is known of them is what
 * `Math.floor(Math.random() * (i + 1))` guarantees, namely 0 <= j <= i.
 */
module Shuffle {
  import opened Cards

  /** One draw per deck position; the draw for position i lies in 0 .. i. */
  predicate ValidDraws(picks: seq<nat>, len: nat)
  {
    |picks| == len && forall i :: 0 <= i < len ==> picks[i] <= i
  }

  /** `s` with the elements at i and j exchanged. */
  function Swap<T>(s: seq<T>, i: nat, j: nat): (r: seq<T>)
    requires i < |s| && j < |s|
    ensures |r| == |s|
  {
    s[i := s[j]][j := s[i]]
  }

  /** A swap keeps the multiset of elements. */
  lemma SwapPermutes<T>(s: seq<T>, i: nat, j: nat)
    requires i < |s| && j < |s|
    ensures multiset(Swap(s, i, j)) == multiset(s)
  {
    if i != j {
      assert multiset(s[i := s[j]]) == multiset(s) - multiset{s[i]} + multiset{s[j]};
    }
  }

  /** The deck after the swap steps for positions i, i - 1, .., 1. */
  function FisherYates(s: seq<Card>, picks: seq<nat>, i: nat): seq<Card>
    requires i < |s| && ValidDraws(picks, |s|)
    decreases i
  {
    if i == 0 then s else FisherYates(Swap(s, i, picks[i]), picks, i - 1)
  }

  /** The deck that shuffleDeck leaves behind for the given draws. */
  function Shuffled(s: seq<Card>, picks: seq<nat>): seq<Card>
    requires ValidDraws(picks, |s|)
  {
    if s == [] then s else FisherYates(s, picks, |s| - 1)
  }

  /** shuffleDeck: the descending swap loop, in place on the array. */
  method ShuffleDeck(deck: array<Card>, picks: seq<nat>)
    requires ValidDraws(picks, deck.Length)
    modifies deck
    ensures deck[..] == Shuffled(old(deck[..]), picks)
  {
    ghost var goal := Shuffled(deck[..], picks);
    var i := deck.Length - 1;
    while i > 0
      invariant -1 <= i < deck.Length
      invariant i == -1 ==> deck.Length == 0 && deck[..] == goal
      invariant i >= 0 ==> FisherYates(deck[..], picks, i) == goal
    {
      var j := picks[i];
      ghost var before := deck[..];
      deck[i], deck[j] := deck[j], deck[i];
      ghost var after := deck[..];
      assert after == Swap(before, i, j);
      assert FisherYates(after, picks, i - 1) == goal;
      i := i - 1;
    }
  }

  /** Each pass of swaps keeps the length and the multiset of cards. */
  lemma {:induction false} FisherYatesPermutes(s: seq<Card>, picks: seq<nat>, i: nat)
    requires i < |s| && ValidDraws(picks, |s|)
    ensures |FisherYates(s, picks, i)| == |s|
    ensures multiset(FisherYates(s, picks, i)) == multiset(s)
    decreases i
  {
    if i > 0 {
      SwapPermutes(s, i, picks[i]);
      FisherYatesPermutes(Swap(s, i, picks[i]), picks, i - 1);
    }
  }

  /** Whatever the draws, the shuffled deck is a permutation of the deck. */
  lemma ShufflePermutes(s: seq<Card>, picks: seq<nat>)
    requires ValidDraws(picks, |s|)
    ensures |Shuffled(s, picks)| == |s|
    ensures multiset(Shuffled(s, picks)) == multiset(s)
  {
    if s != [] {
      FisherYatesPermutes(s, picks, |s| - 1);
    }
  }
}
