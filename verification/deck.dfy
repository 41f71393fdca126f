/**
 * Deck builder (createDeck, server/gameLogic.js:7-23): the 52 cards are laid
 * out suit by suit, each suit in value order, and then the twos are trimmed
 * according to the number of players so that every seat gets the same number
 * of cards.
 */
module Deck {
  import opened Cards
  import opened Seqs

  /** The thirteen cards of one suit, in value order. */
  function SuitBlock(s: Suit): seq<Card>
  {
    seq(|Values|, i requires 0 <= i < |Values| => Card(s, Values[i]))
  }

  /** The cards of the suits `ss`, one suit after the other. */
  function BlocksOf(ss: seq<Suit>): seq<Card>
  {
    if ss == [] then [] else BlocksOf(ss[..|ss| - 1]) + SuitBlock(ss[|ss| - 1])
  }

  /** The untrimmed deck: every suit of the suit table, in its order. */
  function BaseDeck(): seq<Card>
  {
    BlocksOf(Suits)
  }

  /** Filter of the 6-, 8- and 12-player deck (line 17): no twos. */
  predicate NotTwo(c: Card)
  {
    c.value != Two
  }

  /** Filter of the 10-player deck (line 19): no two of clubs or of diamonds. */
  predicate NotMinorTwo(c: Card)
  {
    !(c.value == Two && (c.suit == Clubs || c.suit == Diamonds))
  }

  /** The deck that createDeck returns for a given player count. */
  function DeckFor(playerCount: int): seq<Card>
  {
    if playerCount == 6 || playerCount == 8 || playerCount == 12 then Filter(BaseDeck(), NotTwo)
    else if playerCount == 10 then Filter(BaseDeck(), NotMinorTwo)
    else BaseDeck()
  }

  /** The trimming rule stated as a table: which cards a game of that size is played without. */
  predicate Removed(playerCount: int, c: Card)
  {
    c.value == Two && (playerCount in {6, 8, 12} || (playerCount == 10 && c.suit in {Clubs, Diamonds}))
  }

  /** createDeck: nested loops push every (suit, value) pair, then the trim for the player count. */
  method CreateDeck(playerCount: int) returns (deck: seq<Card>)
    ensures deck == DeckFor(playerCount)
  {
    deck := [];
    var si := 0;
    while si < |Suits|
      invariant 0 <= si <= |Suits|
      invariant deck == BlocksOf(Suits[..si])
    {
      var suit := Suits[si];
      var vi := 0;
      while vi < |Values|
        invariant 0 <= vi <= |Values|
        invariant deck == BlocksOf(Suits[..si]) + SuitBlock(suit)[..vi]
      {
        assert SuitBlock(suit)[..vi + 1] == SuitBlock(suit)[..vi] + [Card(suit, Values[vi])];
        deck := deck + [Card(suit, Values[vi])];
        vi := vi + 1;
      }
      assert Suits[..si + 1][..si] == Suits[..si];
      si := si + 1;
    }
    assert Suits[..|Suits|] == Suits;

    if playerCount == 6 || playerCount == 8 || playerCount == 12 {
      deck := Filter(deck, NotTwo);
    } else if playerCount == 10 {
      deck := Filter(deck, NotMinorTwo);
    }
  }

  /** Position 13 * s + v of the blocks holds value v of the s-th suit. */
  lemma {:induction false} BlocksAt(ss: seq<Suit>, s: nat, v: nat)
    requires s < |ss| && v < 13
    ensures |BlocksOf(ss)| == 13 * |ss|
    ensures BlocksOf(ss)[13 * s + v] == Card(ss[s], Values[v])
  {
    var init, last := ss[..|ss| - 1], ss[|ss| - 1];
    assert BlocksOf(ss) == BlocksOf(init) + SuitBlock(last);
    if s < |ss| - 1 {
      BlocksAt(init, s, v);
      assert init[s] == ss[s];
    } else {
      if init != [] {
        BlocksAt(init, 0, 0);
      }
      assert |BlocksOf(init)| == 13 * s;
      assert SuitBlock(last)[v] == Card(last, Values[v]);
    }
  }

  /** The base deck has 52 cards ordered suit-major, then by value. */
  lemma BaseDeckOrder(s: nat, v: nat)
    requires s < |Suits| && v < |Values|
    ensures |BaseDeck()| == 52
    ensures BaseDeck()[13 * s + v] == Card(Suits[s], Values[v])
  {
    BlocksAt(Suits, s, v);
  }

  /** A card lies in the blocks exactly when its suit is one of theirs. */
  lemma {:induction false} BlocksMembership(ss: seq<Suit>, c: Card)
    ensures c in BlocksOf(ss) <==> c.suit in ss
  {
    if ss != [] {
      var init, last := ss[..|ss| - 1], ss[|ss| - 1];
      assert ss == init + [last];
      BlocksMembership(init, c);
      if c.suit == last {
        TablesComplete(c);
        var i :| 0 <= i < |Values| && Values[i] == c.value;
        assert SuitBlock(last)[i] == c;
      }
    }
  }

  /** Blocks of different suits hold no card twice. */
  lemma {:induction false} BlocksDistinct(ss: seq<Suit>)
    requires Distinct(ss)
    ensures Distinct(BlocksOf(ss))
  {
    if ss != [] {
      var init, last := ss[..|ss| - 1], ss[|ss| - 1];
      BlocksDistinct(init);
      var a, b := BlocksOf(init), SuitBlock(last);
      var r := BlocksOf(ss);
      assert r == a + b;
      forall i, j | 0 <= i < j < |r| ensures r[i] != r[j] {
        if j < |a| {
          assert r[i] == a[i] && r[j] == a[j];
        } else if i >= |a| {
          assert r[i] == b[i - |a|] && r[j] == b[j - |a|];
          CardValueIncreasing(i - |a|, j - |a|);
        } else {
          assert r[i] == a[i] && r[i] in a;
          BlocksMembership(init, r[i]);
          assert r[j].suit == last;
          assert last !in init by {
            forall k | 0 <= k < |init| ensures init[k] != last {
              assert init[k] == ss[k];
            }
          }
        }
      }
    }
  }

  /** Every card of the deck for any player count is different from every other. */
  lemma DeckDistinct(playerCount: int)
    ensures Distinct(DeckFor(playerCount))
  {
    assert Distinct(Suits) by {
      forall i, j | 0 <= i < j < |Suits| ensures Suits[i] != Suits[j] {
        SuitsDistinct(i, j);
      }
    }
    BlocksDistinct(Suits);
    FilterDistinct(BaseDeck(), NotTwo);
    FilterDistinct(BaseDeck(), NotMinorTwo);
  }

  /** Every card is in the base deck. */
  lemma InBaseDeck(c: Card)
    ensures c in BaseDeck()
  {
    TablesComplete(c);
    BlocksMembership(Suits, c);
  }

  /** The trim of a filter keeps exactly the cards the filter accepts. */
  lemma TrimContents(keep: Card -> bool, c: Card)
    ensures c in Filter(BaseDeck(), keep) <==> keep(c)
  {
    InBaseDeck(c);
    FilterMembers(BaseDeck(), keep, c);
  }

  /**
   * The deck holds exactly the cards the trimming table keeps: for 6, 8 or 12
   * players no two at all, for 10 players every card but the two of clubs and
   * the two of diamonds, otherwise the full 52.
   */
  lemma DeckContents(playerCount: int, c: Card)
    ensures c in DeckFor(playerCount) <==> !Removed(playerCount, c)
    ensures playerCount !in {6, 8, 10, 12} ==> DeckFor(playerCount) == BaseDeck()
  {
    if playerCount == 6 || playerCount == 8 || playerCount == 12 {
      TrimContents(NotTwo, c);
    } else if playerCount == 10 {
      TrimContents(NotMinorTwo, c);
    } else {
      InBaseDeck(c);
    }
  }

  /** How many cards `keep` lets through, suit block by suit block. */
  function KeptPerSuit(ss: seq<Suit>, keep: Card -> bool): nat
  {
    if ss == [] then 0 else KeptPerSuit(ss[..|ss| - 1], keep) + |Filter(SuitBlock(ss[|ss| - 1]), keep)|
  }

  /** Filtering the blocks filters each suit block separately. */
  lemma {:induction false} BlocksFilter(ss: seq<Suit>, keep: Card -> bool)
    ensures |Filter(BlocksOf(ss), keep)| == KeptPerSuit(ss, keep)
  {
    if ss != [] {
      var init := ss[..|ss| - 1];
      BlocksFilter(init, keep);
      FilterConcat(BlocksOf(init), SuitBlock(ss[|ss| - 1]), keep);
    }
  }

  /** A filter that rejects the two of a suit and nothing else of it leaves twelve cards. */
  lemma BlockWithoutTwo(s: Suit, keep: Card -> bool)
    requires !keep(Card(s, Two))
    requires forall i :: 1 <= i < |Values| ==> keep(Card(s, Values[i]))
    ensures |Filter(SuitBlock(s), keep)| == 12
  {
    var b := SuitBlock(s);
    assert b == [b[0]] + b[1..];
    FilterKeepsAll(b[1..], keep);
  }

  /** A filter that keeps every card of a suit leaves all thirteen. */
  lemma BlockKept(s: Suit, keep: Card -> bool)
    requires forall i :: 0 <= i < |Values| ==> keep(Card(s, Values[i]))
    ensures |Filter(SuitBlock(s), keep)| == 13
  {
    FilterKeepsAll(SuitBlock(s), keep);
  }

  /** Only the first card of a suit block is a two. */
  lemma OnlyFirstIsTwo()
    ensures forall i :: 1 <= i < |Values| ==> Values[i] != Two
  {
    forall i | 1 <= i < |Values| ensures Values[i] != Two {
      CardValueIncreasing(0, i);
    }
  }

  /** The per-suit sum over the suit table, written out. */
  lemma KeptPerSuitFour(keep: Card -> bool)
    ensures KeptPerSuit(Suits, keep) == |Filter(SuitBlock(Hearts), keep)| + |Filter(SuitBlock(Diamonds), keep)|
      + |Filter(SuitBlock(Clubs), keep)| + |Filter(SuitBlock(Spades), keep)|
  {
    var s3, s2, s1 := [Hearts, Diamonds, Clubs], [Hearts, Diamonds], [Hearts];
    assert Suits[..3] == s3;
    assert s3[..2] == s2;
    assert s2[..1] == s1;
    assert s1[..0] == [];
  }

  /** The kept cards of the base deck, summed over the four suits. */
  lemma BaseDeckKept(keep: Card -> bool, h: nat, d: nat, c: nat, s: nat)
    requires |Filter(SuitBlock(Hearts), keep)| == h && |Filter(SuitBlock(Diamonds), keep)| == d
    requires |Filter(SuitBlock(Clubs), keep)| == c && |Filter(SuitBlock(Spades), keep)| == s
    ensures |Filter(BaseDeck(), keep)| == h + d + c + s
  {
    BlocksFilter(Suits, keep);
    KeptPerSuitFour(keep);
  }

  /** The 10-player trim leaves 50 cards. */
  lemma TenPlayerDeckSize()
    ensures |Filter(BaseDeck(), NotMinorTwo)| == 50
  {
    OnlyFirstIsTwo();
    BlockKept(Hearts, NotMinorTwo);
    BlockWithoutTwo(Diamonds, NotMinorTwo);
    BlockWithoutTwo(Clubs, NotMinorTwo);
    BlockKept(Spades, NotMinorTwo);
    BaseDeckKept(NotMinorTwo, 13, 12, 12, 13);
  }

  /** Dropping every two leaves 48 cards. */
  lemma NoTwosDeckSize()
    ensures |Filter(BaseDeck(), NotTwo)| == 48
  {
    OnlyFirstIsTwo();
    BlockWithoutTwo(Hearts, NotTwo);
    BlockWithoutTwo(Diamonds, NotTwo);
    BlockWithoutTwo(Clubs, NotTwo);
    BlockWithoutTwo(Spades, NotTwo);
    BaseDeckKept(NotTwo, 12, 12, 12, 12);
  }

  /** 48 cards for 6, 8 or 12 players, 50 for 10 players, 52 for any other count. */
  lemma DeckSize(playerCount: int)
    ensures |DeckFor(playerCount)| ==
      if playerCount in {6, 8, 12} then 48 else if playerCount == 10 then 50 else 52
  {
    BaseDeckOrder(0, 0);
    TenPlayerDeckSize();
    NoTwosDeckSize();
  }
}
