/**
 * Two complete tricks worked through the model: one that punishes and one
 * that resolves normally.
 */
module Scenarios {
  import opened Wrappers
  import opened Cards
  import opened GameState
  import opened Trick
  import opened Engine

  /**
   * Three players, Diamond led: player 0 led the Seven of Diamond, player 1,
   * holding no Diamond, sloughed the Three of Clover, and player 2 is about
   * to play the Ace of Diamond (card 0 of their hand).
   */
  function PunishingTrick(): (s: State)
    ensures Inv(s)
  {
    State(
      [ Player("ann", [Card(Spade, Two)], None),
        Player("bob", [Card(Spade, Three)], None),
        Player("cy", [Card(Diamond, Ace), Card(Hearts, Five)], None) ],
      true, [],
      [PoolEntry(0, Card(Diamond, Seven)), PoolEntry(1, Card(Clover, Three))],
      Some(Diamond), 2, 2, [])
  }

  /** The state once the Ace is in the pool, before the trick is resolved. */
  function PunishingTrickFull(): State {
    State(
      [ Player("ann", [Card(Spade, Two)], None),
        Player("bob", [Card(Spade, Three)], None),
        Player("cy", [Card(Hearts, Five)], None) ],
      true, [],
      [PoolEntry(0, Card(Diamond, Seven)), PoolEntry(1, Card(Clover, Three)), PoolEntry(2, Card(Diamond, Ace))],
      Some(Diamond), 2, 3, [])
  }

  /** Playing the Ace is legal, puts it in the pool and completes the trick. */
  lemma PunishingTrickPlay()
    ensures CanRead(PunishingTrick(), 2) && PoolInRange(PunishingTrick()) && !Rejected(PunishingTrick(), 2, 0)
    ensures AfterPlay(PunishingTrick(), 2, 0) == PunishingTrickFull()
    ensures TrickComplete(PunishingTrickFull())
  {
    var s := PunishingTrick();
    assert RemoveAt(s.players[2].hand, 0) == [Card(Hearts, Five)];
    assert CountAlive(PunishingTrickFull().players) == 3 by {
      var ps := PunishingTrickFull().players;
      assert ps[0].hand != [] && ps[1].hand != [] && ps[2].hand != [];
    }
  }

  /** Player 1's Clover breaks suit without holding Diamond, and player 2 holds the highest Diamond. */
  lemma PunishingTrickVictim()
    ensures Resolvable(PunishingTrick().players, PunishingTrickFull())
    ensures Punishes(PunishingTrick().players, PunishingTrickFull().pool, Diamond)
    ensures Winner(PunishingTrick().players, PunishingTrickFull()) == 2
    ensures (Winner(PunishingTrick().players, PunishingTrickFull()) + 1) % |PunishingTrickFull().players| == 0
  {
    var pool := PunishingTrickFull().pool;
    assert !HandHasSuit(PunishingTrick().players[1].hand + [Card(Clover, Three)], Diamond);
    var k := Heaviest(pool, Diamond);
    assert pool[k].card.suit == Diamond;
    assert k != 0 by {
      assert Weight(pool[2]) < Weight(pool[0]);
    }
  }

  /** The victim's hand once it has collected the pool. */
  lemma PunishedHand()
    ensures PunishingTrickFull().players[2].hand + Collected(PunishingTrickFull().pool)
            == [Card(Hearts, Five), Card(Diamond, Seven), Card(Clover, Three), Card(Diamond, Ace)]
  {
    var pool := PunishingTrickFull().pool;
    assert Collected(pool) == [Card(Diamond, Seven), Card(Clover, Three), Card(Diamond, Ace)];
  }

  /**
   * After the Diamond trick the victim holds the pool cards behind its own,
   * and the search for the next leader starts at player 0, right after the
   * victim.
   */
  lemma PunishingTrickHands(r: State)
    requires Resolvable(PunishingTrick().players, PunishingTrickFull()) && Resolved(PunishingTrick().players, PunishingTrickFull(), r)
    ensures |r.players| == 3
    ensures r.players[2].hand == [Card(Hearts, Five), Card(Diamond, Seven), Card(Clover, Three), Card(Diamond, Ace)]
    ensures r.players[0].hand == [Card(Spade, Two)] && r.players[1].hand == [Card(Spade, Three)]
    ensures r.pool == [] && r.poolSuit == None && (r.started <==> CountAlive(r.players) > 1)
    ensures IsNextAlive(r.players, 0, r.currentPlayer)
  {
    PunishingTrickVictim();
    ResolvedOutcome(PunishingTrick().players, PunishingTrickFull(), r);
    PunishedHand();
  }

  /** Player 0 holds cards, so they lead, and with three players holding cards the game goes on. */
  lemma PunishingTrickLead(r: State)
    requires |r.players| == 3 && r.players[0].hand == [Card(Spade, Two)] && r.players[1].hand == [Card(Spade, Three)]
    requires (r.started <==> CountAlive(r.players) > 1) && IsNextAlive(r.players, 0, r.currentPlayer)
    ensures r.currentPlayer == 0 && r.started
  {
    NextAliveHere(r.players, 0, r.currentPlayer);
    assert CountAlive(r.players) > 1 by {
      assert r.players[0].hand != [] && r.players[1].hand != [];
    }
  }

  /**
   * The Ace completes the trick; player 1's off-suit card triggers the
   * punishment; the victim is player 2, holder of the highest Diamond, who
   * collects the three pool cards in pool order; player 0 leads next.
   */
  lemma PunishingTrickOutcome(r: State)
    requires CanRead(PunishingTrick(), 2) && PoolInRange(PunishingTrick())
    requires !Rejected(PunishingTrick(), 2, 0) && Played(PunishingTrick(), 2, 0, r)
    ensures r.players[2].hand == [Card(Hearts, Five), Card(Diamond, Seven), Card(Clover, Three), Card(Diamond, Ace)]
    ensures r.players[0].hand == [Card(Spade, Two)] && r.players[1].hand == [Card(Spade, Three)]
    ensures r.currentPlayer == 0 && r.pool == [] && r.poolSuit == None && r.started
  {
    PunishingTrickPlay();
    PlayCompletesTrick(PunishingTrick(), 2, 0, r);
    PunishingTrickHands(r);
    PunishingTrickLead(r);
  }

  /**
   * Two players, Spade led: player 0 led the King of Spade and player 1 is
   * about to follow with the Three of Spade (card 0 of their hand).
   */
  function NormalTrick(): (s: State)
    ensures Inv(s)
  {
    State(
      [ Player("ann", [Card(Hearts, Two)], None),
        Player("bob", [Card(Spade, Three), Card(Diamond, Four)], None) ],
      true, [],
      [PoolEntry(0, Card(Spade, King))],
      Some(Spade), 1, 1, [])
  }

  /** The state once the Three is in the pool, before the trick is resolved. */
  function NormalTrickFull(): State {
    State(
      [ Player("ann", [Card(Hearts, Two)], None),
        Player("bob", [Card(Diamond, Four)], None) ],
      true, [],
      [PoolEntry(0, Card(Spade, King)), PoolEntry(1, Card(Spade, Three))],
      Some(Spade), 1, 2, [])
  }

  /** Following with the Three is legal, puts it in the pool and completes the trick. */
  lemma NormalTrickPlay()
    ensures CanRead(NormalTrick(), 1) && PoolInRange(NormalTrick()) && !Rejected(NormalTrick(), 1, 0)
    ensures AfterPlay(NormalTrick(), 1, 0) == NormalTrickFull()
    ensures TrickComplete(NormalTrickFull())
  {
    var s := NormalTrick();
    assert RemoveAt(s.players[1].hand, 0) == [Card(Diamond, Four)];
    assert CountAlive(NormalTrickFull().players) == 2 by {
      var ps := NormalTrickFull().players;
      assert ps[0].hand != [] && ps[1].hand != [];
    }
  }

  /** Nobody broke suit, and the King outranks the Three. */
  lemma NormalTrickWinner()
    ensures Resolvable(NormalTrick().players, NormalTrickFull())
    ensures !Punishes(NormalTrick().players, NormalTrickFull().pool, Spade)
    ensures Winner(NormalTrick().players, NormalTrickFull()) == 0
    ensures (Winner(NormalTrick().players, NormalTrickFull()) + 1) % |NormalTrickFull().players| == 1
  {
    var pool := NormalTrickFull().pool;
    var k := Heaviest(pool, Spade);
    assert k != 1 by {
      assert Weight(pool[0]) < Weight(pool[1]);
    }
  }

  /** The cards the trick discards. */
  lemma NormalDiscard()
    ensures multiset(Collected(NormalTrickFull().pool)) == multiset{Card(Spade, King), Card(Spade, Three)}
  {
    assert Collected(NormalTrickFull().pool) == [Card(Spade, King), Card(Spade, Three)];
  }

  /**
   * After the Spade trick the hands are as they were once the Three was
   * played, and the search for the next leader starts at player 1, right
   * after the winner.
   */
  lemma NormalTrickHands(r: State)
    requires Resolvable(NormalTrick().players, NormalTrickFull()) && Resolved(NormalTrick().players, NormalTrickFull(), r)
    ensures |r.players| == 2 && r.players[0].hand == [Card(Hearts, Two)] && r.players[1].hand == [Card(Diamond, Four)]
    ensures r.pool == [] && (r.started <==> CountAlive(r.players) > 1)
    ensures IsNextAlive(r.players, 1, r.currentPlayer)
  {
    NormalTrickWinner();
    ResolvedOutcome(NormalTrick().players, NormalTrickFull(), r);
  }

  /** Player 1 holds cards, so they lead, and with two players holding cards the game goes on. */
  lemma NormalTrickLead(r: State)
    requires |r.players| == 2 && r.players[0].hand == [Card(Hearts, Two)] && r.players[1].hand == [Card(Diamond, Four)]
    requires (r.started <==> CountAlive(r.players) > 1) && IsNextAlive(r.players, 1, r.currentPlayer)
    ensures r.currentPlayer == 1 && r.started
  {
    NextAliveHere(r.players, 1, r.currentPlayer);
    assert CountAlive(r.players) > 1 by {
      assert r.players[0].hand != [] && r.players[1].hand != [];
    }
  }

  /** The Spade trick discards its two cards. */
  lemma NormalTrickDiscards(r: State)
    requires Resolvable(NormalTrick().players, NormalTrickFull()) && Resolved(NormalTrick().players, NormalTrickFull(), r)
    ensures AllCards(r) + multiset{Card(Spade, King), Card(Spade, Three)} == AllCards(NormalTrickFull())
  {
    NormalTrickWinner();
    ResolvedOutcome(NormalTrick().players, NormalTrickFull(), r);
    NormalDiscard();
  }

  /**
   * Both followed suit, so nobody is punished: player 0 wins with the King,
   * the two cards leave play, the hands stay as they are, and player 1 leads next.
   */
  lemma NormalTrickOutcome(r: State)
    requires CanRead(NormalTrick(), 1) && PoolInRange(NormalTrick())
    requires !Rejected(NormalTrick(), 1, 0) && Played(NormalTrick(), 1, 0, r)
    ensures r.players[0].hand == [Card(Hearts, Two)] && r.players[1].hand == [Card(Diamond, Four)]
    ensures r.currentPlayer == 1 && r.pool == [] && r.started
    ensures AllCards(r) + multiset{Card(Spade, King), Card(Spade, Three)} == AllCards(NormalTrick())
  {
    NormalTrickPlay();
    PlayCompletesTrick(NormalTrick(), 1, 0, r);
    NormalTrickHands(r);
    NormalTrickLead(r);
    NormalTrickDiscards(r);
    AfterPlayConserves(NormalTrick(), 1, 0);
  }
}
