/**
 * Round-robin dealer (dealCards, server/gameLogic.js:35-49): build the deck for
 * the number of players, shuffle it, give every player an empty hand, then pop
 * cards off the end of the deck one at a time, the card popped at step t going
 * to seat t % n, until the deck is empty.
 */
module Dealer {
  import opened Cards
  import opened Seqs
  import opened Deck
  import opened Shuffle

  // ---------------------------------------------------------------------------
  // Arithmetic of the seat counter `(currentPlayer + 1) % playerIds.length`

  lemma {:induction false} MulGap(d: int, n: int)
    requires n > 0 && d >= 1
    ensures d * n >= n
  {
    if d > 1 { MulGap(d - 1, n); }
  }

  /** Quotient and remainder are the only ones with a remainder in 0 .. n - 1. */
  lemma DivModUnique(x: int, n: int, q: int, r: int)
    requires n > 0 && 0 <= r < n && x == q * n + r
    ensures x / n == q && x % n == r
  {
    var q', r' := x / n, x % n;
    assert x == q' * n + r';
    if q' > q { MulGap(q' - q, n); }
    else if q > q' { MulGap(q - q', n); }
  }

  /** One more step moves the seat forward by one, wrapping to 0 after the last seat. */
  lemma ModStep(t: nat, n: nat)
    requires n > 0
    ensures (t + 1) % n == (if t % n == n - 1 then 0 else t % n + 1)
    ensures (t + 1) / n == (if t % n == n - 1 then t / n + 1 else t / n)
  {
    var q, r := t / n, t % n;
    assert t == q * n + r;
    if r == n - 1 {
      DivModUnique(t + 1, n, q + 1, 0);
    } else {
      DivModUnique(t + 1, n, q, r + 1);
    }
  }

  // ---------------------------------------------------------------------------
  // Specification of the deal

  /** The order in which the loop pops the cards: the last card of the deck first. */
  function Popped(deck: seq<Card>): seq<Card>
  {
    seq(|deck|, t requires 0 <= t < |deck| => deck[|deck| - 1 - t])
  }

  /**
   * The hand of `id` once the cards `popped` have been handed out, the card of
   * step t going to the player at seat t % |ids|. With a repeated id, every
   * seat holding it feeds the same hand, as the source's `hands[id]` does.
   */
  function HandOf(popped: seq<Card>, ids: seq<PlayerId>, id: PlayerId): seq<Card>
    requires |ids| > 0
  {
    if popped == [] then []
    else
      var t := |popped| - 1;
      HandOf(popped[..t], ids, id) + (if ids[t % |ids|] == id then [popped[t]] else [])
  }

  /** The hands of `seats` put together. */
  function Collected(popped: seq<Card>, ids: seq<PlayerId>, seats: seq<PlayerId>): multiset<Card>
    requires |ids| > 0
  {
    if seats == [] then multiset{}
    else multiset(HandOf(popped, ids, seats[0])) + Collected(popped, ids, seats[1..])
  }

  /** The sum of the lengths of the hands of `seats`. */
  function TotalDealt(popped: seq<Card>, ids: seq<PlayerId>, seats: seq<PlayerId>): nat
    requires |ids| > 0
  {
    if seats == [] then 0
    else |HandOf(popped, ids, seats[0])| + TotalDealt(popped, ids, seats[1..])
  }

  /** Cards per seat for the table sizes the deck trimming is made for. */
  function CardsPerSeat(playerCount: int): nat
  {
    match playerCount
    case 4 => 13
    case 6 => 8
    case 8 => 6
    case 10 => 5
    case 12 => 4
    case _ => 0
  }

  // ---------------------------------------------------------------------------
  // The dealer

  /**
   * dealCards: the draws `picks` stand for the random numbers of the shuffle.
   * Every id gets a hand; with no ids at all the dealing loop never runs and
   * the result is empty.
   */
  method DealCards(playerIds: seq<PlayerId>, picks: seq<nat>) returns (hands: map<PlayerId, seq<Card>>)
    requires ValidDraws(picks, |DeckFor(|playerIds|)|)
    ensures hands.Keys == set id | id in playerIds
    ensures playerIds == [] ==> hands == map[]
    ensures |playerIds| > 0 ==>
      forall id :: id in hands ==>
        hands[id] == HandOf(Popped(Shuffled(DeckFor(|playerIds|), picks)), playerIds, id)
  {
    var built := CreateDeck(|playerIds|);
    var arr := new Card[|built|](i requires 0 <= i < |built| => built[i]);
    assert arr[..] == built;
    ShuffleDeck(arr, picks);
    hands := DealRoundRobin(arr[..], playerIds);
  }

  /**
   * The dealing loop of dealCards on an already shuffled deck: pop the last
   * card, push it onto the hand of the current player, move to the next seat.
   */
  method DealRoundRobin(shuffled: seq<Card>, playerIds: seq<PlayerId>) returns (hands: map<PlayerId, seq<Card>>)
    ensures hands.Keys == set id | id in playerIds
    ensures playerIds == [] ==> hands == map[]
    ensures |playerIds| > 0 ==>
      forall id :: id in hands ==> hands[id] == HandOf(Popped(shuffled), playerIds, id)
  {
    var playerCount := |playerIds|;
    var deck := shuffled;
    hands := map id | id in playerIds :: [];
    ghost var t: nat := 0;

    var currentPlayer := 0;
    while |deck| > 0 && currentPlayer < playerCount
      invariant forall id :: id in hands <==> id in playerIds
      invariant t + |deck| == |shuffled| && deck == shuffled[..|deck|]
      invariant 0 <= currentPlayer && (playerCount > 0 ==> currentPlayer == t % playerCount)
      invariant playerCount == 0 ==> t == 0
      invariant playerCount > 0 ==>
        forall id :: id in hands ==> hands[id] == HandOf(Popped(shuffled)[..t], playerIds, id)
      decreases |deck|
    {
      var card := deck[|deck| - 1];
      deck := deck[..|deck| - 1];
      var id := playerIds[currentPlayer];
      hands := hands[id := hands[id] + [card]];

      assert Popped(shuffled)[..t + 1][..t] == Popped(shuffled)[..t];
      assert Popped(shuffled)[..t + 1][t] == card;
      t := t + 1;

      ModStep(t - 1, playerCount);
      DivModUnique(currentPlayer + 1, playerCount,
                   if currentPlayer + 1 == playerCount then 1 else 0,
                   if currentPlayer + 1 == playerCount then 0 else currentPlayer + 1);
      currentPlayer := (currentPlayer + 1) % playerCount;
    }
    assert playerCount > 0 ==> Popped(shuffled)[..t] == Popped(shuffled);
  }

  // ---------------------------------------------------------------------------
  // Properties of the deal

  /** How many of the first x steps go to seat k of n: x / n, plus one when k is below x % n. */
  function SeatCount(x: nat, n: nat, k: nat): nat
    requires n > 0
  {
    x / n + (if k < x % n then 1 else 0)
  }

  /** Step t adds one card to seat k exactly when t % n == k, and that card is then the seat's next. */
  lemma SeatCountStep(t: nat, n: nat, k: nat)
    requires n > 0 && k < n
    ensures SeatCount(t + 1, n, k) == SeatCount(t, n, k) + (if t % n == k then 1 else 0)
    ensures t % n == k ==> k + SeatCount(t, n, k) * n == t
  {
    ModStep(t, n);
    assert t == (t / n) * n + t % n;
  }

  /** With distinct ids, seat k holds SeatCount(|popped|, n, k) cards. */
  lemma {:induction false} RoundRobinCount(popped: seq<Card>, ids: seq<PlayerId>, k: nat)
    requires |ids| > 0 && Distinct(ids) && k < |ids|
    ensures |HandOf(popped, ids, ids[k])| == SeatCount(|popped|, |ids|, k)
  {
    var n := |ids|;
    if popped == [] {
      DivModUnique(0, n, 0, 0);
    } else {
      var t := |popped| - 1;
      RoundRobinCount(popped[..t], ids, k);
      SeatCountStep(t, n, k);
      assert ids[t % n] == ids[k] <==> t % n == k;
    }
  }

  /**
   * Round robin: with distinct ids, seat k receives the cards popped at steps
   * k, k + n, k + 2n, ..., and so holds SeatCount(|popped|, n, k) of them.
   */
  lemma {:induction false} RoundRobin(popped: seq<Card>, ids: seq<PlayerId>, k: nat)
    requires |ids| > 0 && Distinct(ids) && k < |ids|
    ensures |HandOf(popped, ids, ids[k])| == SeatCount(|popped|, |ids|, k)
    ensures forall m :: 0 <= m < |HandOf(popped, ids, ids[k])| ==>
      k + m * |ids| < |popped| && HandOf(popped, ids, ids[k])[m] == popped[k + m * |ids|]
  {
    RoundRobinCount(popped, ids, k);
    if popped != [] {
      var n := |ids|;
      var t := |popped| - 1;
      var prev := popped[..t];
      RoundRobin(prev, ids, k);
      SeatCountStep(t, n, k);
      var h, h' := HandOf(popped, ids, ids[k]), HandOf(prev, ids, ids[k]);
      assert ids[t % n] == ids[k] <==> t % n == k;
      assert h == h' + (if t % n == k then [popped[t]] else []);
      forall m | 0 <= m < |h|
        ensures k + m * n < |popped| && h[m] == popped[k + m * n]
      {
        if m < |h'| {
          assert h[m] == h'[m] && prev[k + m * n] == popped[k + m * n];
        } else {
          assert m == |h'| && h[m] == popped[t];
        }
      }
    }
  }

  /** Hand lengths differ by at most one, and the earlier seats get the extra cards. */
  lemma HandsBalanced(popped: seq<Card>, ids: seq<PlayerId>, j: nat, k: nat)
    requires |ids| > 0 && Distinct(ids) && j < k < |ids|
    ensures |HandOf(popped, ids, ids[k])| <= |HandOf(popped, ids, ids[j])| <= |HandOf(popped, ids, ids[k])| + 1
  {
    RoundRobin(popped, ids, j);
    RoundRobin(popped, ids, k);
  }

  /** The hands of distinct seats grow by the one card of the step's seat. */
  lemma {:induction false} CollectedStep(popped: seq<Card>, ids: seq<PlayerId>, seats: seq<PlayerId>)
    requires |ids| > 0 && |popped| > 0 && Distinct(seats)
    ensures var t := |popped| - 1;
      Collected(popped, ids, seats) == Collected(popped[..t], ids, seats)
        + (if ids[t % |ids|] in seats then multiset{popped[t]} else multiset{})
  {
    if seats != [] {
      DistinctTail(seats);
      CollectedStep(popped, ids, seats[1..]);
      var t := |popped| - 1;
      var who := ids[t % |ids|];
      assert HandOf(popped, ids, seats[0]) ==
        HandOf(popped[..t], ids, seats[0]) + (if who == seats[0] then [popped[t]] else []);
      assert who in seats <==> who == seats[0] || who in seats[1..];
    }
  }

  /** Before the first step every hand is empty. */
  lemma {:induction false} NothingDealt(ids: seq<PlayerId>, seats: seq<PlayerId>)
    requires |ids| > 0
    ensures Collected([], ids, seats) == multiset{}
  {
    if seats != [] {
      NothingDealt(ids, seats[1..]);
    }
  }

  /** The length of the collected hands is the sum of the hand lengths. */
  lemma {:induction false} CollectedSize(popped: seq<Card>, ids: seq<PlayerId>, seats: seq<PlayerId>)
    requires |ids| > 0
    ensures |Collected(popped, ids, seats)| == TotalDealt(popped, ids, seats)
  {
    if seats != [] {
      CollectedSize(popped, ids, seats[1..]);
    }
  }

  /** With distinct ids the hands partition the popped cards: together they are exactly those cards. */
  lemma {:induction false} DealPartition(popped: seq<Card>, ids: seq<PlayerId>)
    requires |ids| > 0 && Distinct(ids)
    ensures Collected(popped, ids, ids) == multiset(popped)
    ensures TotalDealt(popped, ids, ids) == |popped|
  {
    if popped != [] {
      var t := |popped| - 1;
      var prev := popped[..t];
      DealPartition(prev, ids);
      CollectedStep(popped, ids, ids);
      assert ids[t % |ids|] in ids;
      assert Collected(popped, ids, ids) == Collected(prev, ids, ids) + multiset{popped[t]};
      assert popped == prev + [popped[t]];
      assert multiset(popped) == multiset(prev) + multiset{popped[t]};
    } else {
      NothingDealt(ids, ids);
    }
    CollectedSize(popped, ids, ids);
  }

  /** Popping every card takes each card of the deck once. */
  lemma {:induction false} PoppedPermutes(deck: seq<Card>)
    ensures |Popped(deck)| == |deck|
    ensures multiset(Popped(deck)) == multiset(deck)
  {
    if deck != [] {
      var init := deck[..|deck| - 1];
      PoppedPermutes(init);
      assert Popped(deck) == [deck[|deck| - 1]] + Popped(init);
      assert deck == init + [deck[|deck| - 1]];
    }
  }

  /**
   * dealCards with distinct ids: every card of the deck for that many players
   * lands in exactly one hand, exactly once, no other card is dealt, and the
   * hand lengths add up to the deck size.
   */
  lemma DealtDeck(ids: seq<PlayerId>, picks: seq<nat>)
    requires |ids| > 0 && Distinct(ids) && ValidDraws(picks, |DeckFor(|ids|)|)
    ensures var popped := Popped(Shuffled(DeckFor(|ids|), picks));
      forall c :: Collected(popped, ids, ids)[c] == if c in DeckFor(|ids|) then 1 else 0
    ensures TotalDealt(Popped(Shuffled(DeckFor(|ids|), picks)), ids, ids) == |DeckFor(|ids|)|
  {
    var deck := DeckFor(|ids|);
    var shuffled := Shuffled(deck, picks);
    ShufflePermutes(deck, picks);
    PoppedPermutes(shuffled);
    DealPartition(Popped(shuffled), ids);
    DeckDistinct(|ids|);
    forall c ensures multiset(deck)[c] == if c in deck then 1 else 0 {
      DistinctMultiplicity(deck, c);
    }
  }

  /** A deck that splits evenly into n seats gives every seat the same count. */
  lemma EvenSeatCount(x: nat, n: nat, k: nat, c: nat)
    requires n > 0 && k < n && x == c * n
    ensures SeatCount(x, n, k) == c
  {
    DivModUnique(x, n, c, 0);
  }

  /** At 4, 6, 8, 10 or 12 distinct players every hand has the same size: 13, 8, 6, 5 or 4 cards. */
  lemma EvenDeal(ids: seq<PlayerId>, picks: seq<nat>, k: nat)
    requires |ids| in {4, 6, 8, 10, 12} && Distinct(ids) && k < |ids|
    requires ValidDraws(picks, |DeckFor(|ids|)|)
    ensures |HandOf(Popped(Shuffled(DeckFor(|ids|), picks)), ids, ids[k])| == CardsPerSeat(|ids|)
  {
    var n := |ids|;
    var deck := DeckFor(n);
    var popped := Popped(Shuffled(deck, picks));
    DeckSize(n);
    ShufflePermutes(deck, picks);
    PoppedPermutes(Shuffled(deck, picks));
    assert |popped| == CardsPerSeat(n) * n;
    EvenSeatCount(|popped|, n, k, CardsPerSeat(n));
    RoundRobin(popped, ids, k);
  }
}
