# Mendicot card engine, modelled in Dafny

This project models the card engine of the Mendicot game server
(`server/gameLogic.js`). It covers the four parts of that file and proves what
they promise:

- **Deck builder** (`createDeck`). It lays out the 52 cards suit by suit, each suit
  in value order. It then drops the twos that the player count calls for: all four
  twos for 6, 8 or 12 players, and the two of clubs and the two of diamonds for 10
  players.
- **Shuffle** (`shuffleDeck`). A Fisher–Yates pass over an array, swapping in place.
- **Dealer** (`dealCards`). It builds and shuffles the deck, then pops cards off
  its end and gives them out one at a time, seat after seat.
- **Trick evaluator** (`evaluateTrick`, using `getCardValue`). It picks the
  winning card of a trick: the highest trump if a trump was played, otherwise
  the highest card of the lead suit. Aces are high, and the earlier card wins a
  tie.

Files, one module each: `cards.dfy` (suits, values, cards, `getCardValue`),
`seqs.dfy` (array `filter`, distinctness), `deck.dfy`, `shuffle.dfy`,
`dealer.dfy`, `trick.dfy`.

The random numbers of the shuffle are a parameter. `picks[i]` is the index that
`Math.floor(Math.random() * (i + 1))` produced at step `i`. The only thing known
about it is what that expression guarantees: `0 <= picks[i] <= i`. Every run of
the source corresponds to some such sequence. The model allows every such sequence,
a superset of what a real generator yields.
Once the draws are fixed, `dealCards` is a function of the player ids.

Where the code departs from the game's intended rules, the model follows the code:

- `evaluateTrick` never declares trump. It uses the trump suit it is given. With no
  trump, a card of another suit never wins, even though the game's rules treat such a card
  as a trump "cut" (see `Trick.NoTrumpNoCut`).
- `createDeck` accepts every player count, including 0 and negative numbers. It
  returns the full 52 cards for any count it has no rule for. It never fails.
- The shuffle is not proved uniform. Only the permutation property is proved.
- Rooms, turn order, trump declaration, scoring, host migration and round
  timers are not in `server/gameLogic.js`. `server/index.js` only holds
  placeholder comments for them, so they are not modelled.

## Model

| member | source | states |
|---|---|---|
| `Cards.GetCardValue` | server/gameLogic.js:54-60 | The value lies between 2 and 14. Each numeral gets the number `parseInt` reads from its label, which is at most 10. |
| `Cards.CardValueAt` | server/gameLogic.js:54-60 | The value at position i of the value table `'2'..'A'` is i + 2, so J=11, Q=12, K=13, A=14. |
| `Cards.CardValueIncreasing` | server/gameLogic.js:54-60 | Card values strictly increase along the value table (Ace high), so no value appears twice. |
| `Cards.TablesComplete` | server/gameLogic.js:3-4 | Every suit is in the suit table and every value is in the value table. |
| `Seqs.Filter` | server/gameLogic.js:17-19 | `filter` never makes the sequence longer. |
| `Seqs.FilterMembers` | server/gameLogic.js:17-19 | An element is in the filtered sequence exactly when it is in the input and the predicate accepts it. |
| `Deck.CreateDeck` | server/gameLogic.js:7-23 | The nested loops plus the trim return `DeckFor(playerCount)`. The loop invariants say the deck so far is the finished suits plus the first values of the current suit. |
| `Deck.BaseDeckOrder` | server/gameLogic.js:8-13 | The untrimmed deck has 52 cards. Position 13·s + v holds value v of suit s (suit-major, then by value). |
| `Deck.DeckSize` | server/gameLogic.js:15-20 | The deck has 48 cards for 6, 8 or 12 players, 50 for 10 players, and 52 for every other count, including 4, 0 and negative counts. |
| `Deck.InBaseDeck` | server/gameLogic.js:8-13 | Every card of every suit and value is in the untrimmed deck. |
| `Deck.TrimContents` | server/gameLogic.js:16-20 | A trim of the untrimmed deck keeps exactly the cards its filter accepts. |
| `Deck.DeckContents` | server/gameLogic.js:16-20 | A card is in the deck exactly when the trim rule does not remove it. 6, 8 or 12 players: no twos. 10 players: every card except 2♣ and 2♦, so 2♥ and 2♠ stay. Any other count: the untrimmed deck. |
| `Deck.DeckDistinct` | server/gameLogic.js:7-22 | No card appears twice in the deck, whatever the player count. |
| `Shuffle.ShuffleDeck` | server/gameLogic.js:26-32 | The descending swap loop leaves the array holding `Shuffled(old contents, draws)`. |
| `Shuffle.ShufflePermutes` | server/gameLogic.js:27-30 | For any draws with 0 ≤ j ≤ i, the shuffled deck has the same length and the same multiset of cards: it is a permutation. |
| `Shuffle.FisherYatesPermutes` | server/gameLogic.js:27-30 | Each suffix of swap steps keeps the length and the multiset of cards. |
| `Dealer.DealCards` | server/gameLogic.js:35-49 | Every id gets a hand, and no other key appears. An empty id list gives an empty map. Each hand is the round-robin share (`HandOf`) of the shuffled deck for that many players. |
| `Dealer.DealRoundRobin` | server/gameLogic.js:40-48 | The pop/push/advance loop gives the card popped at step t to seat t mod n, stopping when the deck is empty. It never runs when there are no ids. |
| `Dealer.RoundRobin` | server/gameLogic.js:42-46 | With distinct ids, seat k holds exactly the cards popped at steps k, k+n, k+2n, and so on. That is ⌊total/n⌋ cards, plus one if k < total mod n. |
| `Dealer.HandsBalanced` | server/gameLogic.js:42-46 | Hand lengths differ by at most one, and the earlier seats get the extra cards. |
| `Dealer.DealPartition` | server/gameLogic.js:40-47 | With distinct ids, the hands together are exactly the popped cards (as a multiset), and their lengths sum to the number of cards popped. |
| `Dealer.PoppedPermutes` | server/gameLogic.js:43-44 | Popping from the end until the deck is empty takes every card of the deck exactly once. |
| `Dealer.DealtDeck` | server/gameLogic.js:35-47 | With distinct ids, every card of `createDeck(n)` lands in exactly one hand, once. No other card is dealt. The hand sizes sum to the deck size. |
| `Dealer.EvenDeal` | server/gameLogic.js:35-46 | With 4, 6, 8, 10 or 12 distinct players, every hand has 13, 8, 6, 5 or 4 cards respectively. |
| `Dealer.SeatCountStep` | server/gameLogic.js:45 | Advancing `currentPlayer` modulo n gives a card to seat k exactly at the steps congruent to k mod n. |
| `Trick.Leader` | server/gameLogic.js:77-94 | Returns None exactly when no card of the suit is on the table. Otherwise it returns the position of a card of that suit. |
| `Trick.LeaderHighest` | server/gameLogic.js:77-94 | The leader of a suit is no lower than any card of that suit on the table, and strictly above every earlier card of the suit. |
| `Trick.WinnerIndex` | server/gameLogic.js:63-99 | The winning position holds the highest trump when any card matches the trump suit, otherwise the highest lead-suit card. It is the earliest among equal values. |
| `Trick.EvaluateTrick` | server/gameLogic.js:63-100 | The scan with its trump-winning flag returns the player id of the card at `WinnerIndex`, which is one of the table's cards. |
| `Trick.OffSuitIgnored` | server/gameLogic.js:84-95 | A card that is neither of the lead suit nor a trump never changes the winner. |
| `Trick.WinnerUnique` | server/gameLogic.js:77-94 | Exactly one position has the winning property, so the strict `>` makes the earliest of equal cards the winner. |
| `Trick.NoTrumpLeadSuit` | server/gameLogic.js:70-90 | With no trump given, whatever the table, the winning card is of the lead suit. |
| `Trick.NoTrumpNoCut` | server/gameLogic.js:70-90 | With no trump given, A♥ led and 2♠ played goes to the A♥. With spades as trump, the 2♠ wins. |

## Left out

- `server/index.js` and `client/src/App.jsx`: the web server, the socket wiring and the UI are I/O with no game logic. Also left out: room-code generation with `Math.random` and the seat layout in floating point.
- Room registry, turn scheduling, trump declaration, scoring, host migration and round timers: none of these is in `server/gameLogic.js`.
- `Shuffle.ShuffleDeck`: the uniform distribution of `Math.random` is not modelled. The draws are a caller-supplied parameter, and only the permutation property is proved.
- `Cards.GetCardValue`: `parseInt` is modelled only on the nine numeral labels of the value table, and values are a datatype rather than strings.
- `Deck.CreateDeck`: the player count is an integer. JavaScript's `===` on a non-number argument (a string `'6'`, say) always takes the no-trim branch, and that case is not modelled.
- `Trick.EvaluateTrick`: on an empty table the source throws a TypeError when it reads `tableCards[0].suit`. The model requires a non-empty table.
- `Dealer.DealCards`: with a repeated id the source merges those seats into one hand. `HandOf` models that, but the round-robin, balance and partition lemmas are stated for distinct ids only.
- `Dealer.DealCards`: the deck array that `dealCards` empties by popping is local to the call. The model works on a sequence copy of the shuffled array and does not return it.
- `Dealer.DealCards`: player ids are modelled as map keys, not as keys of a JavaScript object literal. For the id `"__proto__"` the source's `hands[id] = []` sets the object's prototype instead of adding a key, so the returned object has no own key for it; the model returns a map with that key and its hand.
