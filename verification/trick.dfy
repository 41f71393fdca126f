/**
 * Trick evaluator (evaluateTrick, server/gameLogic.js:63-100): the first card
 * sets the lead suit; a trump card, once on the table, beats every non-trump
 * card and can only be beaten by a higher trump; otherwise the highest card of
 * the lead suit wins. Ties keep the earlier card, because every comparison is
 * a strict `>`. The trump suit is given by the caller and may be missing, in
 * which case no card is a trump.
 */
module Trick {
  import opened Cards

  /** A card belongs to `suit` when that suit is present and is the card's suit. */
  predicate Matches(c: PlayedCard, suit: Option<Suit>)
  {
    suit == Some(c.suit)
  }

  function Value(c: PlayedCard): int
  {
    GetCardValue(c.value)
  }

  /**
   * The highest card of `suit` on the table, the earliest one among equals;
   * None when no card of the table is of that suit.
   */
  function Leader(table: seq<PlayedCard>, suit: Option<Suit>): (r: Option<nat>)
    ensures r.None? <==> forall i :: 0 <= i < |table| ==> !Matches(table[i], suit)
    ensures r.Some? ==> r.value < |table| && Matches(table[r.value], suit)
  {
    if table == [] then None
    else
      var last := |table| - 1;
      var prefix := table[..last];
      var best := Leader(prefix, suit);
      assert forall i :: 0 <= i < last ==> prefix[i] == table[i];
      if Matches(table[last], suit) && (best.None? || Value(table[last]) > Value(table[best.value]))
      then Some(last)
      else best
  }

  /**
   * The leader is no lower than any card of its suit on the table, and
   * strictly higher than every earlier card of its suit.
   */
  lemma {:induction false} LeaderHighest(table: seq<PlayedCard>, suit: Option<Suit>)
    ensures var r := Leader(table, suit);
      r.Some? ==> forall i :: 0 <= i < |table| && Matches(table[i], suit) ==>
        Value(table[i]) <= Value(table[r.value])
    ensures var r := Leader(table, suit);
      r.Some? ==> forall i :: 0 <= i < r.value && Matches(table[i], suit) ==>
        Value(table[i]) < Value(table[r.value])
  {
    if table != [] {
      var last := |table| - 1;
      var prefix := table[..last];
      LeaderHighest(prefix, suit);
      assert forall i :: 0 <= i < last ==> prefix[i] == table[i];
    }
  }

  /** Whether any card on the table is a trump. */
  predicate TrumpPlayed(table: seq<PlayedCard>, trumpSuit: Option<Suit>)
  {
    exists i :: 0 <= i < |table| && Matches(table[i], trumpSuit)
  }

  /** The suit that decides the trick: the trump suit once a trump is on the table, else the lead suit. */
  function DecidingSuit(table: seq<PlayedCard>, trumpSuit: Option<Suit>): Option<Suit>
    requires |table| > 0
  {
    if TrumpPlayed(table, trumpSuit) then trumpSuit else Some(table[0].suit)
  }

  /**
   * Position w holds the winning card: a card of the deciding suit, no lower
   * than any other card of that suit, and strictly higher than every earlier one.
   */
  predicate IsWinner(table: seq<PlayedCard>, trumpSuit: Option<Suit>, w: nat)
    requires |table| > 0
  {
    var suit := DecidingSuit(table, trumpSuit);
    w < |table| && Matches(table[w], suit) &&
    (forall i :: 0 <= i < |table| && Matches(table[i], suit) ==> Value(table[i]) <= Value(table[w])) &&
    (forall i :: 0 <= i < w && Matches(table[i], suit) ==> Value(table[i]) < Value(table[w]))
  }

  /** The position of the winning card. */
  function WinnerIndex(table: seq<PlayedCard>, trumpSuit: Option<Suit>): (w: nat)
    requires |table| > 0
    ensures w < |table| && IsWinner(table, trumpSuit, w)
  {
    LeaderHighest(table, trumpSuit);
    LeaderHighest(table, Some(table[0].suit));
    match Leader(table, trumpSuit)
    case Some(i) => i
    case None =>
      assert Matches(table[0], Some(table[0].suit));
      Leader(table, Some(table[0].suit)).value
  }

  /** One more card on the table: it leads its suit when it is strictly higher than the leader so far. */
  lemma LeaderStep(table: seq<PlayedCard>, suit: Option<Suit>, i: nat)
    requires i < |table|
    ensures var best := Leader(table[..i], suit);
      Leader(table[..i + 1], suit) ==
        if Matches(table[i], suit) && (best.None? || Value(table[i]) > Value(table[best.value]))
        then Some(i) else best
  {
    assert table[..i + 1][..i] == table[..i];
  }

  /**
   * evaluateTrick: one pass over the table keeping the winning card, its value
   * and whether a trump is winning. The source fails on an empty table.
   */
  method EvaluateTrick(tableCards: seq<PlayedCard>, trumpSuit: Option<Suit>) returns (winner: PlayerId)
    requires |tableCards| > 0
    ensures winner == tableCards[WinnerIndex(tableCards, trumpSuit)].playerId
  {
    var leadSuit := tableCards[0].suit;
    var winningCard := 0;
    var highestValue := GetCardValue(tableCards[0].value);
    var trumpPlayed := Matches(tableCards[0], trumpSuit);
    assert tableCards[..1][..0] == [];

    var i := 1;
    while i < |tableCards|
      invariant 1 <= i <= |tableCards|
      invariant trumpPlayed <==> Leader(tableCards[..i], trumpSuit).Some?
      invariant trumpPlayed ==> winningCard == Leader(tableCards[..i], trumpSuit).value
      invariant !trumpPlayed ==> Leader(tableCards[..i], Some(leadSuit)) == Some(winningCard)
      invariant highestValue == Value(tableCards[winningCard])
    {
      var card := tableCards[i];
      var val := GetCardValue(card.value);
      LeaderStep(tableCards, trumpSuit, i);
      LeaderStep(tableCards, Some(leadSuit), i);

      if trumpPlayed {
        if Matches(card, trumpSuit) && val > highestValue {
          highestValue := val;
          winningCard := i;
        }
      } else {
        if Matches(card, trumpSuit) {
          trumpPlayed := true;
          highestValue := val;
          winningCard := i;
        } else if card.suit == leadSuit && val > highestValue {
          highestValue := val;
          winningCard := i;
        }
      }
      i := i + 1;
    }
    assert tableCards[..i] == tableCards;
    winner := tableCards[winningCard].playerId;
  }

  /** A card that is neither of the lead suit nor a trump never changes the winner. */
  lemma OffSuitIgnored(table: seq<PlayedCard>, c: PlayedCard, trumpSuit: Option<Suit>)
    requires |table| > 0
    requires c.suit != table[0].suit && !Matches(c, trumpSuit)
    ensures WinnerIndex(table + [c], trumpSuit) == WinnerIndex(table, trumpSuit)
  {
    var t := table + [c];
    assert t[..|table|] == table;
    assert t[0] == table[0];
    assert Leader(t, trumpSuit) == Leader(table, trumpSuit);
    assert Leader(t, Some(table[0].suit)) == Leader(table, Some(table[0].suit));
  }

  /** Exactly one position satisfies the winning property, and it is WinnerIndex. */
  lemma WinnerUnique(table: seq<PlayedCard>, trumpSuit: Option<Suit>, w: nat)
    requires |table| > 0
    ensures IsWinner(table, trumpSuit, w) <==> w == WinnerIndex(table, trumpSuit)
  {
    var r := WinnerIndex(table, trumpSuit);
    assert IsWinner(table, trumpSuit, r);
  }

  /** With no trump given, the winning card is always of the lead suit. */
  lemma NoTrumpLeadSuit(table: seq<PlayedCard>)
    requires |table| > 0
    ensures table[WinnerIndex(table, None)].suit == table[0].suit
  {
    assert !TrumpPlayed(table, None);
  }

  /**
   * The evaluator does not declare trump: with no trump given, an Ace of the
   * lead suit beats a two of another suit; with that suit as trump the two wins.
   */
  lemma NoTrumpNoCut()
    ensures var table := [PlayedCard(Hearts, Ace, "P1"), PlayedCard(Spades, Two, "P2")];
      table[WinnerIndex(table, None)].playerId == "P1" &&
      table[WinnerIndex(table, Some(Spades))].playerId == "P2"
  {
    var table := [PlayedCard(Hearts, Ace, "P1"), PlayedCard(Spades, Two, "P2")];
    WinnerUnique(table, None, 0);
    assert TrumpPlayed(table, Some(Spades)) by { assert Matches(table[1], Some(Spades)); }
    WinnerUnique(table, Some(Spades), 1);
  }
}
