# ACE card game engine, modelled in Dafny

This project models the game engine of the ACE trick-taking card game, as
implemented in the React component `src/components/room.js`. The room holds
a list of players, each with a name, a hand and an elimination order. It
also holds the running flag, the pool of cards played in the current trick
together with its suit, whose turn it is, a play counter, and the
elimination order of the players.

Players join while no game is running. `startGame` shuffles a fresh 52-card
deck and deals it round-robin. The holder of the Ace of Spade leads. Each
play must follow the pool suit when the player can. When a trick is
complete, one of two things happens:

- **Punishment.** Some player broke suit. The player of the highest pool-suit
  card (the victim) takes the whole pool into their hand.
- **Normal resolution.** Nobody broke suit. The pool is discarded.

Either way, the player after the victim or winner who still holds cards
leads next. Newly empty-handed players are recorded in elimination order.
The game stops when at most one player holds cards.

Every React `setState` updater becomes one Dafny member from the old state
to the new state. It is a method where the source loops: `createDeck`,
`shuffle`, the deal, the next-player search and the elimination `forEach`.
It is a function where the source is pure.

Modules:

- `Wrappers` holds `Option`.
- `Arith` holds division and remainder facts.
- `Seqs` holds sequences without duplicates and multiset cancellation.
- `Cards` holds suits, ranks, `rankWeight` and the hand test behind `playerHasSuit`.
- `Deck` holds `createDeck` and `shuffle`.
- `GameState` holds the room state, `playerHasSuit`, the cards in play and the state invariant.
- `Trick` holds trick resolution.
- `Engine` holds `playCard`.
- `Lobby` holds `addPlayer`, `startGame` and `resetRoom`.
- `Scenarios` holds two worked tricks.

The central invariant is `GameState.Inv`. It says:

- the pool suit is set exactly when the pool is non-empty, and it is the
  suit of the first pool card;
- the play counter equals the pool size;
- the elimination order has no repeats;
- every entry of the elimination order is a player with an empty hand whose
  `eliminatedOrder` is that entry's 1-based position;
- no eliminated player has a card in the pool.

`Engine.PlayCard` keeps this invariant, and `Lobby.StartGame` and
`Lobby.AddPlayer` establish or keep it.

Card conservation is stated with `GameState.AllCards`, the multiset of all
cards in the hands and in the pool. The move of a legal play
(`Engine.AfterPlayConserves`) leaves it unchanged. Resolving a punished
trick leaves it unchanged. Resolving a normal trick removes exactly the
pool cards from it.

## Model

| member | source | states |
|---|---|---|
| Cards.RankWeight | src/components/room.js:33-35 | the weight is the first index of the rank in `RANKS` (A = 0 heaviest, 2 = 12 lightest) |
| Cards.SuitIndex | src/components/room.js:14 | the index is the first position of the suit in `SUITS`, the order `createDeck` iterates suits in |
| Cards.HandHasSuit | src/components/room.js:36-38 | true exactly when some card of the hand has the suit |
| GameState.PlayerHasSuit | src/components/room.js:36-38 | `playerHasSuit`: true exactly when some card in the player's hand has the suit |
| Deck.CreateDeck | src/components/room.js:17-25 | 52 cards, card i is (SUITS[i / 13], RANKS[i % 13]), and every (suit, rank) pair occurs exactly once |
| Deck.DeckOrder | src/components/room.js:17-25 | the 52 cards in push order: card i is suit i / 13 and rank i % 13; `CreateDeck` is proved to return exactly this sequence |
| Deck.DeckPositionInjective | src/components/room.js:17-25 | two cards pushed at the same position of the nested loop are equal |
| Deck.Shuffle | src/components/room.js:26-32 | the array after the in-place descending swap loop equals `FisherYates` of the old contents, and its multiset is unchanged |
| Deck.FisherYatesPermutes | src/components/room.js:26-32 | for every choice of swap indices j in 0..i, the shuffle is a permutation of its input |
| Deck.SwapPermutes | src/components/room.js:29 | a swap `[a[i], a[j]] = [a[j], a[i]]` leaves the multiset of elements unchanged |
| Deck.Swap | src/components/room.js:29 | the destructuring swap: positions i and j exchange their elements, every other position is kept |
| Deck.FisherYates | src/components/room.js:26-32 | the swaps of positions i, i-1, ..., 1 with `js[i]`, `js[i-1]`, ..., applied in that order; the length is kept |
| GameState.CountAlive | src/components/room.js:243-244 | the number of players holding cards; 0 exactly when every hand is empty; at most 1 exactly when no two different players hold cards (also the `activeCount` of line 166 and the loop guards of lines 206, 226 and 252) |
| GameState.CardsOfUpdate | src/components/room.js:196-198 | replacing one hand changes the cards held by exactly the difference of the two hands |
| GameState.CardsOfMember | src/components/room.js:125 | a card is held exactly when some player's hand contains it |
| GameState.CardsOfSize | src/components/room.js:117-122 | the number of cards held is the sum of the hand sizes |
| GameState.CardsOfAppendEmpty | src/components/room.js:109 | a newly seated player with an empty hand adds no card |
| GameState.CardsOfEmpty | src/components/room.js:117 | hands that are all empty hold no card |
| GameState.Collected | src/components/room.js:195 | `pool.map(x => x.card)`: the pool cards, in pool order |
| GameState.Inv | src/components/room.js:75-84 | the invariant of the room state: pool suit set exactly when the pool is non-empty and equal to the first pool card's suit, play counter equal to the pool size, pool and turn indices in range, and the elimination order without repeats, naming empty-handed players stamped with their 1-based position, none of them in the pool |
| Lobby.EmptyRoom | src/components/room.js:262-271 | the initial and the reset room has no players, is not running, holds no card and satisfies the state invariant (the initial state at lines 75-84 is the same) |
| Lobby.AddPlayer | src/components/room.js:105-111 | an empty name or a running game leaves the state unchanged; otherwise exactly one player `{name, hand: [], eliminatedOrder: null}` is appended, the existing players and all other fields are kept, no card moves, and the invariant is kept |
| Lobby.Deal | src/components/room.js:117-122 | the hands are `Dealt(deck, n, |deck|)`, the result of giving card i to hand i % n |
| Lobby.Dealt | src/components/room.js:119-121 | the hands after the first i cards of the deck are dealt, card i - 1 being pushed onto hand (i - 1) % n; there are n hands |
| Lobby.DealtSizeAt | src/components/room.js:119-121 | with i written as q * n + m (0 <= m < n), after the first i cards hand j holds q cards, plus one when j < m |
| Lobby.DealtSizesBy | src/components/room.js:119-121 | the same for all hands at once |
| Lobby.DealtStep | src/components/room.js:120 | pushing card i - 1 changes only the last place of hand (i - 1) % n; a card not held before is that card, at place k with k * n + j == i - 1 |
| Lobby.DealtSizes | src/components/room.js:119-121 | after i cards, hand j holds i / n cards, plus one when j < i % n |
| Lobby.DealtAt | src/components/room.js:119-121 | after the first i cards are dealt to n hands, card k of hand j is card k * n + j of the deck, one of the first i |
| Lobby.DealtCards | src/components/room.js:119-121 | dealing the first i cards hands out exactly the multiset of those cards |
| Lobby.DealtOneMore | src/components/room.js:120 | pushing card i - 1 adds exactly that card to the cards held |
| Lobby.GiveCard | src/components/room.js:120 | pushing a card onto one hand adds exactly that card to the cards held |
| Lobby.DealtBalanced | src/components/room.js:119-121 | after a round-robin deal, hand sizes differ by at most one |
| Lobby.FindHolder | src/components/room.js:125 | `findIndex`: -1 exactly when no player from `from` on holds the card, otherwise the first player who holds it |
| Lobby.Seated | src/components/room.js:123 | names are kept, each player gets hand `hands[idx]` and no elimination order |
| Lobby.StartedFromDeal | src/components/room.js:123-137 | seating the players around a round-robin deal of a full deck yields `Started` and the invariant |
| Lobby.StartGame | src/components/room.js:113-139 | fewer than two players: unchanged; otherwise the game runs with empty deck, pool, pool suit, play counter and elimination order; names are kept, elimination orders cleared; each of the 52 cards is held exactly once; hand sizes sum to 52 and differ by at most one; the first holder of the Ace of Spade (fallback 0) leads; the invariant holds; and the hands are exactly the round-robin deal `Dealt` of `FisherYates(DeckOrder(), js, 51)`, the `createDeck` order shuffled with the choices `js` |
| Engine.RemoveAt | src/components/room.js:157 | `splice(i, 1)` removes exactly the i-th card; the others keep their order |
| Engine.Rejected | src/components/room.js:143-154 | the four early returns: the game is not running, it is not this player's turn, there is no card at `cardIndex`, or a pool suit is set, the player holds it and the card is of another suit |
| Engine.TrickComplete | src/components/room.js:166-178 | the plays reach the number of players holding cards after this play, or every player when nobody does |
| Engine.PoolReadable | src/components/room.js:181 | pool entries must name players only when a legal play completes the trick, the only path on which room.js reads `s.players[p.playerIndex]` |
| Engine.Played | src/components/room.js:156-256 | the outcome of a legal play: `Resolved` when the trick completes; otherwise the state after the play with the turn at the next player after `playerIndex` who holds cards |
| Engine.AfterPlay | src/components/room.js:156-175 | the player count and the running flag are kept, the pool is non-empty with a suit set, and pool indices stay in range |
| Engine.AfterPlayConserves | src/components/room.js:156-159 | a legal play only moves the card from the hand to the pool, so the cards in play are the same |
| Engine.PlayCard | src/components/room.js:141-259 | a rejected command (not started, not this player's turn, no such card, or off-suit while holding the pool suit) returns the state unchanged, which makes rejection idempotent; a legal play gives `Played`; index facts and the invariant are kept |
| Engine.PlayLegal | src/components/room.js:156-256 | the part after the rejection checks yields exactly the `Played` outcome |
| Engine.PlayedKeepsInv | src/components/room.js:156-256 | a legal play from a state whose pool entries name players keeps the index facts, and from an invariant state it keeps the invariant |
| Engine.PlayKeepsInv | src/components/room.js:156-175 | the state right after a legal play satisfies the invariant, and players other than the one who played are unchanged |
| Engine.PlayWithinTrick | src/components/room.js:249-256 | a legal play that does not complete the trick moves the card from the hand to the end of the pool, keeps or sets the pool suit, adds one play, changes nothing else, conserves the cards, and gives the turn to the next player after `playerIndex` who holds cards |
| Engine.PlayCompletesTrick | src/components/room.js:178-248 | a legal play that completes the trick resolves it as `Resolved` describes |
| Engine.WinnerIsHighest | src/components/room.js:185-193 | the victim or winner played the pool-suit card of least rank weight, the earliest one among equals; when no pool card has the pool suit, they played the first pool card (the same selection for the winner at lines 216-223) |
| Engine.EliminatedCannotPlay | src/components/room.js:233-240 | under the invariant, any play by an eliminated player is rejected |
| Engine.StoppedRejectsAll | src/components/room.js:243-246 | when the game is not running, whether not yet started or over, every play is rejected |
| Engine.ResolveKeepsInv | src/components/room.js:180-246 | resolving a complete trick keeps the invariant |
| Trick.Heaviest | src/components/room.js:185-193 | a pool position whose card is of the pool suit when one exists, of least rank weight, strictly lighter than every earlier pool-suit card (the stable `sort(...)[0]`); 0 when there is none |
| Trick.Punishes | src/components/room.js:180-182 | some pool card is off the pool suit while its player, with the hand before the final play plus that card, holds no card of the pool suit |
| Trick.Collect | src/components/room.js:195-198 | the victim's hand gains all pool cards in pool order, the other players are unchanged, and the cards held grow by exactly the pool |
| Trick.NextAlive | src/components/room.js:204-209 | the first index at or after `from`, cyclically, whose hand is non-empty; `from` itself when every hand is empty (the same loop at lines 225-229 and 251-255) |
| Trick.NextAliveHere | src/components/room.js:206-208 | when the player at `from` holds cards, the search stops there |
| Trick.NextAliveByHands | src/components/room.js:206-208 | the search depends only on the hands |
| Trick.MarkEliminated | src/components/room.js:233-240 | `Marked`: hands and names are kept; the new order extends the old one with, in ascending index order, exactly the empty-handed players not yet listed; each gets its 1-based position; the others keep theirs |
| Trick.MarkStep | src/components/room.js:235-238 | one step of the `forEach` keeps the partial bookkeeping predicate |
| Trick.MarkDone | src/components/room.js:233-240 | the completed loop establishes `Marked` |
| Trick.MarkedKeepsOrder | src/components/room.js:233-240 | the bookkeeping keeps an elimination order without repeats, each entry empty-handed and stamped with its 1-based position |
| Trick.MarkedExactlyOnce | src/components/room.js:233-240 | after the bookkeeping, each player appears in the elimination order once when their hand is empty, and never otherwise |
| Trick.MarkedIdempotent | src/components/room.js:233-240 | running the bookkeeping again without a play in between changes nothing |
| Trick.Winner | src/components/room.js:185-193 | the victim or winner index names a player |
| Trick.ResolvedPlayers | src/components/room.js:180-198 | the player count is kept |
| Trick.Resolved | src/components/room.js:178-248 | the resolved state: pool, pool suit and play counter cleared, deck kept, the turn at the next player after the victim or winner who holds cards, the elimination bookkeeping `Marked` over `ResolvedPlayers`, and the game running exactly when it ran and two or more players hold cards |
| Trick.ResolveTrick | src/components/room.js:178-248 | the resolved state satisfies `Resolved`: pool, pool suit and play counter are cleared; the victim collects the pool under punishment, otherwise the pool is discarded; the next leader follows the victim or winner; elimination is marked; the game stops when at most one player holds cards |
| Trick.ResolvedIntro | src/components/room.js:178-248 | the computed pieces together give `Resolved` |
| Trick.ResolvedOutcome | src/components/room.js:180-246 | under punishment the victim's hand is its hand plus the pool cards, other hands are unchanged and the cards in play are conserved; otherwise all hands are unchanged and exactly the pool cards leave play; the turn goes to the next player after the victim or winner who holds cards; a running game goes on exactly when two or more players hold cards |
| Trick.ResolvedCards | src/components/room.js:180-214 | under punishment the pool cards stay in play; otherwise they leave it |
| Trick.ResolvedKeepsOrder | src/components/room.js:195-198 | the victim played in the trick and so is not eliminated; collecting leaves the elimination order valid |
| Scenarios.PunishingTrick | src/components/room.js:141-259 | the three-player Diamond trick before the last play satisfies the invariant |
| Scenarios.PunishingTrickPlay | src/components/room.js:141-178 | the Ace of Diamond is a legal last play and completes the trick |
| Scenarios.PunishingTrickVictim | src/components/room.js:180-193 | the Clover sloughed by a player without Diamond triggers punishment, and the victim is the Ace's player, 2 |
| Scenarios.PunishedHand | src/components/room.js:195-198 | the victim's hand after collecting |
| Scenarios.PunishingTrickHands | src/components/room.js:195-209 | after resolution, the victim holds its card and then the pool in order; the others are unchanged |
| Scenarios.PunishingTrickLead | src/components/room.js:204-209 | player 0 leads next and the game goes on |
| Scenarios.PunishingTrickOutcome | src/components/room.js:141-259 | the whole punished trick: the victim collects the three pool cards, player 0 leads, the game goes on |
| Scenarios.NormalTrick | src/components/room.js:141-259 | the two-player Spade trick before the last play satisfies the invariant |
| Scenarios.NormalTrickPlay | src/components/room.js:141-178 | the Three of Spade is a legal last play and completes the trick |
| Scenarios.NormalTrickWinner | src/components/room.js:216-223 | nobody broke suit, and the King's player, 0, wins |
| Scenarios.NormalDiscard | src/components/room.js:211-214 | the discarded cards are the King and the Three |
| Scenarios.NormalTrickHands | src/components/room.js:211-214 | after resolution, the hands are unchanged |
| Scenarios.NormalTrickLead | src/components/room.js:225-229 | player 1 leads next and the game goes on |
| Scenarios.NormalTrickDiscards | src/components/room.js:211-214 | the two pool cards leave play |
| Scenarios.NormalTrickOutcome | src/components/room.js:141-259 | the whole normal trick: both pool cards are discarded, hands are otherwise unchanged, player 1 leads |
| Seqs.NoDupCount | src/components/room.js:235 | in a sequence without repeats every element occurs exactly once (the `includes` guard) |
| Arith.ModSucc | src/components/room.js:204-207 | `(x + 1) % n` steps an index of 0..n-1 forward cyclically |

## Notes on the model

- The trick is complete when the plays reach the number of players who hold
  cards after this play, or all players when nobody does (lines 166-178). The
  model keeps this rule as written. The source comment calls it an
  approximation. A player who empties their hand mid-trick lowers the
  target, so a trick can end before every player has played.
- Punishment is tested against the hands as they were before the final play,
  plus the card each player put in the pool (line 181). `Trick.Punishes`
  models exactly that.
- `sort(...)[0]` over the pool-suit cards is modelled as the first pool
  entry of least rank weight, since JavaScript's sort is stable.
- The `started` flag is not checked by `startGame` (lines 113-139), so a
  running game can be restarted. `Lobby.StartGame` does the same.

## Left out

- Persistence is left out: `localStorage`, the remote fetch calls and the
  effects that run them (lines 39-71 and 85-103). These are I/O outside the
  game logic. Likewise the `localStorage.removeItem` of `resetRoom`.
- `Math.random` in `shuffle` becomes the input `js`, with `js[i]` in 0..i.
  `js[0]` is never used, as step 0 does not run.
- The card `id` field (line 21) is left out. Nothing reads it: the React
  keys in the rendering are indices.
- `activePlayers` (line 163) is computed but never used.
- The JSX rendering, the room selector and the other files of the
  repository are left out. `home.js`, `joinGame.js` and `App.js` are not
  part of this model.
- End-of-game scoring (rule 8 of the game) is left out. The source does not
  implement it either (lines 245-247).
- The asynchronous React `setState` is left out. Each updater is modelled
  as one step from the state it receives, so concurrent updates are out of
  scope.
- Engine.PlayCard: requires `CanRead` and `PoolReadable`. When it is the
  turn of an index that names no player, room.js throws a TypeError at
  line 146 instead of returning a state. When a legal play completes the
  trick, line 181 reads `s.players[p.playerIndex]` for the off-suit pool
  entries, in pool order, until one punishes (`some` stops at the first
  true), and throws if one of those indices names no player. `PoolReadable`
  asks more: on that path every pool entry must name a player, whether it
  is off-suit or not and whether it comes before or after the first
  punishing entry. Rejected commands and plays that do not complete the trick need
  nothing of the pool. None of this excludes a reachable state: `Inv`
  includes both index facts, `Lobby.EmptyRoom` establishes it, and
  `Lobby.AddPlayer`, `Lobby.StartGame` and `Engine.PlayCard` keep it.
- Engine.AfterPlay: its contract states only the shape of the new state.
  The conservation of cards is stated separately by
  Engine.AfterPlayConserves, and the card's move by Engine.PlayWithinTrick.
- The order of the cards within a hand is stated for `splice`
  (Engine.RemoveAt) and for collecting the pool (Trick.Collect). For the
  deal it is stated by Lobby.DealtAt. The shuffled order itself is
  fixed only through `FisherYates` of the swap choices.
