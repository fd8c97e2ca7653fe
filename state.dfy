/**
 * The room state that the `setState` updaters of room.js (lines 75-84)
 * transform: players with their hands, the pool of the current trick, the
 * turn pointer and the elimination order.
 */
module GameState {
  import opened Wrappers
  import opened Cards
  import opened Seqs

  /** `{name, hand, eliminatedOrder}`; `eliminatedOrder` is `null` until the player is out. */
  datatype Player = Player(name: string, hand: seq<Card>, eliminatedOrder: Option<nat>)

  /** A card played into the current trick, tagged with the index of its player. */
  datatype PoolEntry = PoolEntry(playerIndex: nat, card: Card)

  datatype State = State(
    players: seq<Player>,
    started: bool,
    deck: seq<Card>,
    pool: seq<PoolEntry>,
    poolSuit: Option<Suit>,
    currentPlayer: int,
    playsThisTrick: int,
    eliminatedSeq: seq<nat>)

  /** `playerHasSuit`: some card in the player's hand has the suit. */
  function PlayerHasSuit(p: Player, suit: Suit): (b: bool)
    ensures b <==> exists i :: 0 <= i < |p.hand| && p.hand[i].suit == suit
  {
    HandHasSuit(p.hand, suit)
  }

  /**
   * The number of players whose hand is not empty (`filter(p => p.hand.length > 0).length`);
   * it is zero exactly when every hand is empty and at most one exactly when
   * no two different players hold cards.
   */
  function CountAlive(players: seq<Player>): (k: nat)
    ensures k <= |players|
    ensures k == 0 <==> forall i :: 0 <= i < |players| ==> players[i].hand == []
    ensures k <= 1 <==> forall i, j :: 0 <= i < |players| && 0 <= j < |players| && players[i].hand != [] && players[j].hand != [] ==> i == j
  {
    if players == [] then 0
    else
      var init := players[..|players| - 1];
      var k' := CountAlive(init);
      assert forall i :: 0 <= i < |init| ==> init[i] == players[i];
      k' + if players[|players| - 1].hand != [] then 1 else 0
  }

  function HandsOf(players: seq<Player>): (hands: seq<seq<Card>>)
    ensures |hands| == |players|
    ensures forall i :: 0 <= i < |players| ==> hands[i] == players[i].hand
  {
    seq(|players|, i requires 0 <= i < |players| => players[i].hand)
  }

  /** All cards held in the given hands, with multiplicity. */
  function CardsOf(hands: seq<seq<Card>>): multiset<Card> {
    if hands == [] then multiset{} else multiset(hands[0]) + CardsOf(hands[1..])
  }

  /** The sum of the hand sizes. */
  function HandSizes(hands: seq<seq<Card>>): nat {
    if hands == [] then 0 else |hands[0]| + HandSizes(hands[1..])
  }

  lemma {:induction false} CardsOfSize(hands: seq<seq<Card>>)
    ensures |CardsOf(hands)| == HandSizes(hands)
  {
    if hands != [] {
      CardsOfSize(hands[1..]);
    }
  }

  /** A seat with an empty hand adds no card. */
  lemma {:induction false} CardsOfAppendEmpty(hands: seq<seq<Card>>)
    ensures CardsOf(hands + [[]]) == CardsOf(hands)
  {
    if hands != [] {
      assert (hands + [[]])[1..] == hands[1..] + [[]];
      CardsOfAppendEmpty(hands[1..]);
    }
  }

  /** Empty hands hold no card. */
  lemma {:induction false} CardsOfEmpty(hands: seq<seq<Card>>)
    requires forall j :: 0 <= j < |hands| ==> hands[j] == []
    ensures CardsOf(hands) == multiset{}
  {
    if hands != [] {
      CardsOfEmpty(hands[1..]);
    }
  }

  /** A card is among the held cards exactly when some hand contains it. */
  lemma {:induction false} CardsOfMember(hands: seq<seq<Card>>, c: Card)
    ensures c in CardsOf(hands) <==> exists i :: 0 <= i < |hands| && c in hands[i]
  {
    if hands != [] {
      CardsOfMember(hands[1..], c);
      if c in CardsOf(hands[1..]) {
        var i :| 0 <= i < |hands[1..]| && c in hands[1..][i];
        assert c in hands[i + 1];
      }
      if exists i :: 0 <= i < |hands| && c in hands[i] {
        var i :| 0 <= i < |hands| && c in hands[i];
        if i > 0 {
          assert c in hands[1..][i - 1];
        }
      }
    }
  }

  /** Replacing one hand changes the held cards by exactly the difference of the two hands. */
  lemma {:induction false} CardsOfUpdate(hands: seq<seq<Card>>, k: nat, h: seq<Card>)
    requires k < |hands|
    ensures CardsOf(hands[k := h]) + multiset(hands[k]) == CardsOf(hands) + multiset(h)
  {
    if k == 0 {
      assert hands[k := h][1..] == hands[1..];
    } else {
      var updated := hands[k := h];
      assert updated[0] == hands[0] && updated[1..] == hands[1..][k - 1 := h];
      assert hands[1..][k - 1] == hands[k];
      CardsOfUpdate(hands[1..], k - 1, h);
      calc {
        CardsOf(updated) + multiset(hands[k]);
        multiset(hands[0]) + CardsOf(hands[1..][k - 1 := h]) + multiset(hands[k]);
        multiset(hands[0]) + (CardsOf(hands[1..][k - 1 := h]) + multiset(hands[1..][k - 1]));
        multiset(hands[0]) + (CardsOf(hands[1..]) + multiset(h));
        CardsOf(hands) + multiset(h);
      }
    }
  }

  /** `pool.map(x => x.card)`. */
  function Collected(pool: seq<PoolEntry>): (cards: seq<Card>)
    ensures |cards| == |pool|
    ensures forall i :: 0 <= i < |pool| ==> cards[i] == pool[i].card
  {
    seq(|pool|, i requires 0 <= i < |pool| => pool[i].card)
  }

  /** Every card in play: the players' hands and the pool. */
  function AllCards(s: State): multiset<Card> {
    CardsOf(HandsOf(s.players)) + multiset(Collected(s.pool))
  }

  /** Every pool entry names an existing player. */
  predicate PoolInRange(s: State) {
    forall k :: 0 <= k < |s.pool| ==> s.pool[k].playerIndex < |s.players|
  }

  /**
   * The index facts room.js relies on without checking them: while the game
   * runs the turn pointer names a player, and every pool entry does.
   */
  predicate Wf(s: State) {
    (s.started ==> 0 <= s.currentPlayer < |s.players|) && PoolInRange(s)
  }

  /**
   * The elimination order is well kept: no index twice, every entry names an
   * empty-handed player whose `eliminatedOrder` is its 1-based position.
   */
  ghost predicate EliminationOrder(players: seq<Player>, elim: seq<nat>) {
    && NoDup(elim)
    && forall k :: 0 <= k < |elim| ==>
         elim[k] < |players| && players[elim[k]].hand == [] && players[elim[k]].eliminatedOrder == Some(k + 1)
  }

  /**
   * The state invariant the transitions keep: the pool suit is set exactly
   * when the pool is non-empty and is the suit of the pool's first card; the
   * play counter is the pool size; the elimination order has no repetition,
   * names players whose hands are empty and whose `eliminatedOrder` is their
   * 1-based position in it, and none of them has a card in the pool.
   */
  ghost predicate Inv(s: State) {
    && Wf(s)
    && (s.pool == [] <==> s.poolSuit == None)
    && (s.pool != [] ==> s.poolSuit == Some(s.pool[0].card.suit))
    && s.playsThisTrick == |s.pool|
    && EliminationOrder(s.players, s.eliminatedSeq)
    && (forall k :: 0 <= k < |s.pool| ==> s.pool[k].playerIndex !in s.eliminatedSeq)
  }
}
