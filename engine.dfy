/**
 * `playCard` (room.js lines 141-259): the rejection rules, moving the card
 * into the pool, trick completion, and the hand-over to the trick resolver.
 */
module Engine {
  import opened Wrappers
  import opened Cards
  import opened Seqs
  import opened GameState
  import opened Trick

  /**
   * What `playCard` needs of its caller to read `s.players[playerIndex]`: when
   * the game runs and it is that index's turn, the index names a player
   * (otherwise room.js throws a TypeError).
   */
  predicate CanRead(s: State, playerIndex: int) {
    s.started && s.currentPlayer == playerIndex ==> 0 <= playerIndex < |s.players|
  }

  /**
   * The four rejection rules: the game has not started, it is not this
   * player's turn, there is no card at `cardIndex`, or a pool suit is set, the
   * player holds that suit and the chosen card is of another suit.
   */
  predicate Rejected(s: State, playerIndex: int, cardIndex: int)
    requires CanRead(s, playerIndex)
  {
    || !s.started
    || s.currentPlayer != playerIndex
    || !(0 <= cardIndex < |s.players[playerIndex].hand|)
    || (s.poolSuit.Some? && PlayerHasSuit(s.players[playerIndex], s.poolSuit.value)
        && s.players[playerIndex].hand[cardIndex].suit != s.poolSuit.value)
  }

  /** `hand.splice(i, 1)`: exactly that one card leaves, the others keep their order. */
  function RemoveAt(hand: seq<Card>, i: int): (r: seq<Card>)
    requires 0 <= i < |hand|
    ensures |r| == |hand| - 1
    ensures multiset(r) + multiset{hand[i]} == multiset(hand)
    ensures forall k :: 0 <= k < i ==> r[k] == hand[k]
    ensures forall k :: i <= k < |r| ==> r[k] == hand[k + 1]
  {
    assert hand == hand[..i] + [hand[i]] + hand[i + 1..];
    hand[..i] + hand[i + 1..]
  }

  /**
   * The state after a legal play, before any resolution (`nextState` at
   * room.js lines 156-175). `AfterPlayConserves` shows that the card moves
   * from the hand to the pool, so the cards in play are exactly the same.
   */
  function AfterPlay(s: State, playerIndex: int, cardIndex: int): (t: State)
    requires CanRead(s, playerIndex) && !Rejected(s, playerIndex, cardIndex)
    ensures |t.players| == |s.players| && t.started
    ensures t.pool != [] && t.poolSuit.Some? && (PoolInRange(s) ==> PoolInRange(t))
  {
    var p := s.players[playerIndex];
    var card := p.hand[cardIndex];
    s.(players := s.players[playerIndex := p.(hand := RemoveAt(p.hand, cardIndex))],
       pool := s.pool + [PoolEntry(playerIndex, card)],
       poolSuit := Some(if s.poolSuit.Some? then s.poolSuit.value else card.suit),
       playsThisTrick := s.playsThisTrick + 1)
  }

  /** A legal play only moves the card from the player's hand to the pool. */
  lemma AfterPlayConserves(s: State, playerIndex: int, cardIndex: int)
    requires CanRead(s, playerIndex) && !Rejected(s, playerIndex, cardIndex)
    ensures AllCards(AfterPlay(s, playerIndex, cardIndex)) == AllCards(s)
  {
    var t := AfterPlay(s, playerIndex, cardIndex);
    var p := s.players[playerIndex];
    var card := p.hand[cardIndex];
    var h := RemoveAt(p.hand, cardIndex);
    assert HandsOf(t.players) == HandsOf(s.players)[playerIndex := h];
    CardsOfUpdate(HandsOf(s.players), playerIndex, h);
    assert Collected(t.pool) == Collected(s.pool) + [card];
    MultisetCancel(CardsOf(HandsOf(t.players)) + multiset{card}, CardsOf(HandsOf(s.players)), multiset(h));
  }

  /**
   * The trick is complete once the plays reach the number of players whose
   * hand is non-empty after this play (all players if none is).
   */
  predicate TrickComplete(t: State) {
    var active := CountAlive(t.players);
    t.playsThisTrick >= if active == 0 then |t.players| else active
  }

  /**
   * What `playCard` needs to read the players of the pool entries: room.js
   * reads `s.players[p.playerIndex]` (line 181) only when a legal play
   * completes the trick, so only then must every pool entry name a player.
   */
  predicate PoolReadable(s: State, playerIndex: int, cardIndex: int)
    requires CanRead(s, playerIndex)
  {
    !Rejected(s, playerIndex, cardIndex) && TrickComplete(AfterPlay(s, playerIndex, cardIndex)) ==> PoolInRange(s)
  }

  /**
   * The outcome of a legal play: if it completes the trick, the trick is
   * resolved; otherwise the card waits in the pool and the turn passes to the
   * first player after `playerIndex`, cyclically, who holds cards, nothing
   * else changing.
   */
  ghost predicate Played(s: State, playerIndex: int, cardIndex: int, r: State)
    requires CanRead(s, playerIndex) && !Rejected(s, playerIndex, cardIndex) && PoolReadable(s, playerIndex, cardIndex)
  {
    var t := AfterPlay(s, playerIndex, cardIndex);
    if TrickComplete(t) then Resolved(s.players, t, r)
    else
      && r == t.(currentPlayer := r.currentPlayer)
      && IsNextAlive(t.players, (playerIndex + 1) % |s.players|, r.currentPlayer)
  }

  /**
   * `playCard`: a rejected command returns the state unchanged; a legal play
   * gives the `Played` outcome. Both keep the index facts and the state invariant.
   */
  method PlayCard(s: State, playerIndex: int, cardIndex: int) returns (r: State)
    requires CanRead(s, playerIndex) && PoolReadable(s, playerIndex, cardIndex)
    ensures Rejected(s, playerIndex, cardIndex) ==> r == s
    ensures !Rejected(s, playerIndex, cardIndex) ==> Played(s, playerIndex, cardIndex, r)
    ensures Wf(s) ==> Wf(r)
    ensures Inv(s) ==> Inv(r)
  {
    if !s.started {
      return s;
    }
    if s.currentPlayer != playerIndex {
      return s;
    }
    var player := s.players[playerIndex];
    if !(0 <= cardIndex < |player.hand|) {
      return s;
    }
    var card := player.hand[cardIndex];
    if s.poolSuit.Some? && PlayerHasSuit(player, s.poolSuit.value) && card.suit != s.poolSuit.value {
      return s;
    }
    r := PlayLegal(s, playerIndex, cardIndex);
    PlayedKeepsInv(s, playerIndex, cardIndex, r);
  }

  /** The part of `playCard` after the rejection checks (room.js lines 156-258). */
  method PlayLegal(s: State, playerIndex: int, cardIndex: int) returns (r: State)
    requires CanRead(s, playerIndex) && !Rejected(s, playerIndex, cardIndex) && PoolReadable(s, playerIndex, cardIndex)
    ensures Played(s, playerIndex, cardIndex, r)
  {
    var t := AfterPlay(s, playerIndex, cardIndex);
    if TrickComplete(t) {
      r := ResolveTrick(s.players, t);
    } else {
      var next := NextAlive(t.players, (playerIndex + 1) % |t.players|);
      r := t.(currentPlayer := next);
    }
  }

  /** Every legal play keeps the index facts and the state invariant. */
  lemma PlayedKeepsInv(s: State, playerIndex: int, cardIndex: int, r: State)
    requires CanRead(s, playerIndex) && !Rejected(s, playerIndex, cardIndex) && PoolReadable(s, playerIndex, cardIndex)
    requires Played(s, playerIndex, cardIndex, r)
    ensures PoolInRange(s) ==> Wf(r)
    ensures Inv(s) ==> Inv(r)
  {
    var t := AfterPlay(s, playerIndex, cardIndex);
    if Inv(s) {
      PlayKeepsInv(s, playerIndex, cardIndex);
      if TrickComplete(t) {
        ResolveKeepsInv(s.players, t, r);
      }
    }
  }

  /**
   * A legal play that does not complete the trick: the card leaves the
   * player's hand, the remaining cards keeping their order, and joins the end
   * of the pool; the pool suit is kept, or set to the card's suit by the
   * leader; the play counter grows by one; no other player and no other field
   * changes, so the cards in play are the same; the turn passes to the first
   * player after `playerIndex`, cyclically, who holds cards.
   */
  lemma PlayWithinTrick(s: State, playerIndex: int, cardIndex: int, r: State)
    requires CanRead(s, playerIndex) && !Rejected(s, playerIndex, cardIndex) && PoolReadable(s, playerIndex, cardIndex)
    requires Played(s, playerIndex, cardIndex, r) && !TrickComplete(AfterPlay(s, playerIndex, cardIndex))
    ensures var card := s.players[playerIndex].hand[cardIndex];
      && |r.players| == |s.players|
      && r.players[playerIndex] == s.players[playerIndex].(hand := RemoveAt(s.players[playerIndex].hand, cardIndex))
      && (forall j :: 0 <= j < |s.players| && j != playerIndex ==> r.players[j] == s.players[j])
      && r.pool == s.pool + [PoolEntry(playerIndex, card)]
      && r.poolSuit == Some(if s.poolSuit.Some? then s.poolSuit.value else card.suit)
      && r.playsThisTrick == s.playsThisTrick + 1
      && r.started && r.deck == s.deck && r.eliminatedSeq == s.eliminatedSeq
    ensures AllCards(r) == AllCards(s)
    ensures IsNextAlive(r.players, (playerIndex + 1) % |s.players|, r.currentPlayer)
  {
    AfterPlayConserves(s, playerIndex, cardIndex);
  }

  /** A legal play that completes the trick hands the trick to the resolver, as `Resolved` describes. */
  lemma PlayCompletesTrick(s: State, playerIndex: int, cardIndex: int, r: State)
    requires CanRead(s, playerIndex) && !Rejected(s, playerIndex, cardIndex) && PoolReadable(s, playerIndex, cardIndex)
    requires Played(s, playerIndex, cardIndex, r) && TrickComplete(AfterPlay(s, playerIndex, cardIndex))
    ensures Resolvable(s.players, AfterPlay(s, playerIndex, cardIndex))
    ensures Resolved(s.players, AfterPlay(s, playerIndex, cardIndex), r)
    ensures AfterPlay(s, playerIndex, cardIndex).started
  {
  }

  /**
   * The victim or winner is the player of the highest card of the pool suit
   * (least rank weight, the earliest among equals), or of the first pool card
   * when no pool card has the pool suit.
   */
  lemma WinnerIsHighest(before: seq<Player>, t: State)
    requires Resolvable(before, t)
    ensures var suit := t.poolSuit.value;
      exists k :: 0 <= k < |t.pool| && t.pool[k].playerIndex == Winner(before, t)
        && ((exists j :: 0 <= j < |t.pool| && t.pool[j].card.suit == suit) ==>
              && t.pool[k].card.suit == suit
              && (forall j :: 0 <= j < |t.pool| && t.pool[j].card.suit == suit ==> RankWeight(t.pool[k].card.rank) <= RankWeight(t.pool[j].card.rank))
              && (forall j :: 0 <= j < k && t.pool[j].card.suit == suit ==> RankWeight(t.pool[k].card.rank) < RankWeight(t.pool[j].card.rank)))
        && ((forall j :: 0 <= j < |t.pool| ==> t.pool[j].card.suit != suit) ==> k == 0)
  {
    var k := Heaviest(t.pool, t.poolSuit.value);
    assert t.pool[k].playerIndex == Winner(before, t);
  }

  /** An eliminated player can never play: every command of theirs is rejected. */
  lemma EliminatedCannotPlay(s: State, playerIndex: int, cardIndex: int)
    requires Inv(s) && playerIndex in s.eliminatedSeq
    ensures CanRead(s, playerIndex) && Rejected(s, playerIndex, cardIndex)
  {
    var k :| 0 <= k < |s.eliminatedSeq| && s.eliminatedSeq[k] == playerIndex;
  }

  /** Once the game is over (or before it starts) every command is rejected. */
  lemma StoppedRejectsAll(s: State, playerIndex: int, cardIndex: int)
    requires !s.started
    ensures CanRead(s, playerIndex) && Rejected(s, playerIndex, cardIndex)
  {
  }

  /** A legal play keeps the state invariant (before any resolution). */
  lemma PlayKeepsInv(s: State, playerIndex: int, cardIndex: int)
    requires Inv(s) && CanRead(s, playerIndex) && !Rejected(s, playerIndex, cardIndex)
    ensures Inv(AfterPlay(s, playerIndex, cardIndex))
    ensures forall j :: 0 <= j < |s.players| && j != playerIndex ==> AfterPlay(s, playerIndex, cardIndex).players[j] == s.players[j]
  {
    var t := AfterPlay(s, playerIndex, cardIndex);
    assert playerIndex !in s.eliminatedSeq;
    assert t.pool == s.pool + [PoolEntry(playerIndex, s.players[playerIndex].hand[cardIndex])];
  }

  /**
   * Resolving a complete trick keeps the state invariant: the victim or
   * winner played in this trick, so it is not an eliminated player, and the
   * bookkeeping only adds empty-handed players with their positions.
   */
  lemma ResolveKeepsInv(before: seq<Player>, t: State, r: State)
    requires Inv(t) && Resolvable(before, t) && Resolved(before, t, r)
    ensures Inv(r)
  {
    ResolvedKeepsOrder(before, t);
    MarkedKeepsOrder(ResolvedPlayers(before, t), t.eliminatedSeq, r.players, r.eliminatedSeq);
  }
}
