/**
 * Cards of the Mendicot engine: the four suits and thirteen values of
 * server/gameLogic.js, the cards built from them, the cards as they lie on the
 * table (with the id of the player who threw them), and the numeric value used
 * to compare two cards (Ace high).
 */
module Cards {

  datatype Option<T> = None | Some(value: T)

  /** A player is identified by the id of their connection. */
  type PlayerId = string

  datatype Suit = Hearts | Diamonds | Clubs | Spades

  /** The thirteen values; the source spells them '2' .. '10', 'J', 'Q', 'K', 'A'. */
  datatype Rank = Two | Three | Four | Five | Six | Seven | Eight | Nine | Ten
                | Jack | Queen | King | Ace

  datatype Card = Card(suit: Suit, value: Rank)

  /** A card on the table remembers who threw it. */
  datatype PlayedCard = PlayedCard(suit: Suit, value: Rank, playerId: PlayerId)

  /** The suit table, in the order the deck is built. */
  const Suits: seq<Suit> := [Hearts, Diamonds, Clubs, Spades]

  /** The value table, lowest first. */
  const Values: seq<Rank> := [Two, Three, Four, Five, Six, Seven, Eight, Nine, Ten,
                              Jack, Queen, King, Ace]

  /** What `parseInt` yields on each numeral label ('2' .. '10'); a court card has none. */
  function NumeralValue(v: Rank): Option<int>
  {
    match v
    case Two => Some(2)
    case Three => Some(3)
    case Four => Some(4)
    case Five => Some(5)
    case Six => Some(6)
    case Seven => Some(7)
    case Eight => Some(8)
    case Nine => Some(9)
    case Ten => Some(10)
    case _ => None
  }

  /** The comparison value of a card value: court cards by name, numerals by their number. */
  function GetCardValue(v: Rank): (r: int)
    ensures 2 <= r <= 14
    ensures NumeralValue(v).Some? ==> r == NumeralValue(v).value && r <= 10
  {
    if v == Ace then 14
    else if v == King then 13
    else if v == Queen then 12
    else if v == Jack then 11
    else NumeralValue(v).value
  }

  /** Every suit and every value occurs in its table. */
  lemma TablesComplete(c: Card)
    ensures c.suit in Suits && c.value in Values
  {
    match c.suit {
    case Hearts => assert Suits[0] == Hearts;
    case Diamonds => assert Suits[1] == Diamonds;
    case Clubs => assert Suits[2] == Clubs;
    case Spades => assert Suits[3] == Spades;
    }
    match c.value {
    case Two => assert Values[0] == Two;
    case Three => assert Values[1] == Three;
    case Four => assert Values[2] == Four;
    case Five => assert Values[3] == Five;
    case Six => assert Values[4] == Six;
    case Seven => assert Values[5] == Seven;
    case Eight => assert Values[6] == Eight;
    case Nine => assert Values[7] == Nine;
    case Ten => assert Values[8] == Ten;
    case Jack => assert Values[9] == Jack;
    case Queen => assert Values[10] == Queen;
    case King => assert Values[11] == King;
    case Ace => assert Values[12] == Ace;
    }
  }

  /** The value at position i of the value table is worth i + 2. */
  lemma CardValueAt(i: nat)
    requires i < |Values|
    ensures GetCardValue(Values[i]) == i + 2
  {
  }

  /** Card values strictly increase along the value table, so the table has no repeats. */
  lemma CardValueIncreasing(i: nat, j: nat)
    requires i < j < |Values|
    ensures GetCardValue(Values[i]) < GetCardValue(Values[j])
    ensures Values[i] != Values[j]
  {
    CardValueAt(i);
    CardValueAt(j);
  }

  /** The suit table lists four different suits. */
  lemma SuitsDistinct(i: nat, j: nat)
    requires i < j < |Suits|
    ensures Suits[i] != Suits[j]
  {
  }
}
