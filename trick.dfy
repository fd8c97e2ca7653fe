/**
 * The trick resolver of `playCard` (room.js lines 178-248): punishment
 * detection, the victim or winner, collecting the pool, the cyclic search for
 * the next player who still holds cards, and elimination bookkeeping.
 */
module Trick {
  import opened Wrappers
  import opened Cards
  import opened Seqs
  import opened Arith
  import opened GameState

  function Weight(e: PoolEntry): nat {
    RankWeight(e.card.rank)
  }

  /**
   * The pool position whose player is the victim (or the winner): the
   * pool-suit card of least rank weight, the earliest one among equals, as
   * `poolSuitCards.sort(...)[0]` gives with a stable sort; position 0 when no
   * pool card has the pool suit.
   */
  function Heaviest(pool: seq<PoolEntry>, suit: Suit): (k: nat)
    requires pool != []
    ensures k < |pool|
    ensures (exists j :: 0 <= j < |pool| && pool[j].card.suit == suit) ==> pool[k].card.suit == suit
    ensures (forall j :: 0 <= j < |pool| ==> pool[j].card.suit != suit) ==> k == 0
    ensures forall j :: 0 <= j < |pool| && pool[j].card.suit == suit ==> Weight(pool[k]) <= Weight(pool[j])
    ensures forall j :: 0 <= j < k && pool[j].card.suit == suit ==> Weight(pool[k]) < Weight(pool[j])
  {
    if |pool| == 1 then 0
    else
      var last := |pool| - 1;
      var k' := Heaviest(pool[..last], suit);
      assert forall j :: 0 <= j < last ==> pool[..last][j] == pool[j];
      if pool[last].card.suit == suit && (pool[k'].card.suit != suit || Weight(pool[last]) < Weight(pool[k'])) then last
      else k'
  }

  /**
   * Punishment: some pool card is off the pool suit although its player, with
   * the hand `before` the final play plus that card, holds no card of the pool suit.
   */
  predicate Punishes(before: seq<Player>, pool: seq<PoolEntry>, suit: Suit)
    requires forall k :: 0 <= k < |pool| ==> pool[k].playerIndex < |before|
  {
    exists k :: 0 <= k < |pool| && pool[k].card.suit != suit
                && !HandHasSuit(before[pool[k].playerIndex].hand + [pool[k].card], suit)
  }

  /** The victim's hand receives every pool card; nothing else changes, so no card is lost. */
  function Collect(players: seq<Player>, victim: nat, pool: seq<PoolEntry>): (r: seq<Player>)
    requires victim < |players|
    ensures |r| == |players|
    ensures r[victim] == players[victim].(hand := players[victim].hand + Collected(pool))
    ensures forall i :: 0 <= i < |players| && i != victim ==> r[i] == players[i]
    ensures CardsOf(HandsOf(r)) == CardsOf(HandsOf(players)) + multiset(Collected(pool))
  {
    var h := players[victim].hand + Collected(pool);
    var r := players[victim := players[victim].(hand := h)];
    assert HandsOf(r) == HandsOf(players)[victim := h];
    CardsOfUpdate(HandsOf(players), victim, h);
    calc {
      CardsOf(HandsOf(r)) + multiset(players[victim].hand);
      CardsOf(HandsOf(players)) + multiset(h);
      CardsOf(HandsOf(players)) + multiset(Collected(pool)) + multiset(players[victim].hand);
    }
    MultisetCancel(CardsOf(HandsOf(r)), CardsOf(HandsOf(players)) + multiset(Collected(pool)), multiset(players[victim].hand));
    r
  }

  /** How many steps forward, cyclically, index j lies from index `from`. */
  function CyclicDistance(from: nat, j: nat, n: nat): nat
    requires from < n && j < n
  {
    if j >= from then j - from else j + n - from
  }

  /**
   * r is the first index at or after `from`, in cyclic order, whose hand is
   * non-empty; `from` itself when every hand is empty.
   */
  ghost predicate IsNextAlive(players: seq<Player>, from: nat, r: int)
    requires from < |players|
  {
    && 0 <= r < |players|
    && (CountAlive(players) == 0 ==> r == from)
    && (CountAlive(players) > 0 ==>
          && players[r].hand != []
          && forall j :: 0 <= j < |players| && CyclicDistance(from, j, |players|) < CyclicDistance(from, r, |players|) ==> players[j].hand == [])
  }

  /** The `while (players[nextIdx].hand.length === 0 && ...)` search for the next player to act. */
  method NextAlive(players: seq<Player>, from: nat) returns (r: nat)
    requires from < |players|
    ensures IsNextAlive(players, from, r)
  {
    var n := |players|;
    r := from;
    ghost var steps := 0;
    while players[r].hand == [] && CountAlive(players) > 0
      invariant steps < n && r < n
      invariant CountAlive(players) == 0 ==> steps == 0
      invariant CyclicDistance(from, r, n) == steps
      invariant forall j :: 0 <= j < n && CyclicDistance(from, j, n) < steps ==> players[j].hand == []
      decreases n - steps
    {
      ModSucc(r, n);
      r := (r + 1) % n;
      steps := steps + 1;
    }
  }

  /**
   * The elimination bookkeeping from `before`/`elim` to `after`/`elim'`: hands
   * and names are kept; `elim'` extends `elim` with, in ascending order, exactly
   * the players whose hand is empty and who are not yet in `elim`; each of them
   * gets their 1-based position as `eliminatedOrder`, every other player keeps theirs.
   */
  ghost predicate Marked(before: seq<Player>, elim: seq<nat>, after: seq<Player>, elim': seq<nat>) {
    && |after| == |before|
    && (forall i :: 0 <= i < |before| ==> after[i].name == before[i].name && after[i].hand == before[i].hand)
    && |elim| <= |elim'| && elim'[..|elim|] == elim
    && (forall k :: |elim| <= k < |elim'| ==> elim'[k] < |before| && before[elim'[k]].hand == [] && elim'[k] !in elim)
    && (forall k, l :: |elim| <= k < l < |elim'| ==> elim'[k] < elim'[l])
    && (forall i :: 0 <= i < |before| && before[i].hand == [] && i !in elim ==> i in elim'[|elim|..])
    && (forall k :: |elim| <= k < |elim'| ==> after[elim'[k]].eliminatedOrder == Some(k + 1))
    && (forall i :: 0 <= i < |before| && i !in elim'[|elim|..] ==> after[i].eliminatedOrder == before[i].eliminatedOrder)
  }

  /**
   * The bookkeeping done over players 0..idx-1: `added` lists, in ascending
   * order, the empty-handed players below idx not in `elim`, each stamped with
   * its 1-based position after `elim`; nothing else changed.
   */
  ghost predicate MarkedUpTo(before: seq<Player>, elim: seq<nat>, after: seq<Player>, added: seq<nat>, idx: nat) {
    && idx <= |before| && |after| == |before|
    && (forall i :: 0 <= i < |before| ==> after[i].name == before[i].name && after[i].hand == before[i].hand)
    && (forall k :: 0 <= k < |added| ==> added[k] < idx && before[added[k]].hand == [] && added[k] !in elim)
    && (forall k, l :: 0 <= k < l < |added| ==> added[k] < added[l])
    && (forall i :: 0 <= i < idx && before[i].hand == [] && i !in elim ==> i in added)
    && (forall k :: 0 <= k < |added| ==> after[added[k]].eliminatedOrder == Some(|elim| + k + 1))
    && (forall i :: 0 <= i < |before| && i !in added ==> after[i].eliminatedOrder == before[i].eliminatedOrder)
  }

  lemma MarkStep(before: seq<Player>, elim: seq<nat>, after: seq<Player>, added: seq<nat>, idx: nat)
    requires MarkedUpTo(before, elim, after, added, idx) && idx < |before|
    ensures before[idx].hand == [] && idx !in elim + added ==>
      MarkedUpTo(before, elim, after[idx := after[idx].(eliminatedOrder := Some(|elim| + |added| + 1))], added + [idx], idx + 1)
    ensures !(before[idx].hand == [] && idx !in elim + added) ==> MarkedUpTo(before, elim, after, added, idx + 1)
  {
  }

  lemma MarkDone(before: seq<Player>, elim: seq<nat>, after: seq<Player>, added: seq<nat>)
    requires MarkedUpTo(before, elim, after, added, |before|)
    ensures Marked(before, elim, after, elim + added)
  {
    assert (elim + added)[..|elim|] == elim && (elim + added)[|elim|..] == added;
  }

  /** The `forEach` that appends newly empty-handed players to `eliminatedSeq`. */
  method MarkEliminated(before: seq<Player>, elim: seq<nat>) returns (after: seq<Player>, elim': seq<nat>)
    ensures Marked(before, elim, after, elim')
  {
    after, elim' := before, elim;
    ghost var added: seq<nat> := [];
    for idx := 0 to |before|
      invariant elim' == elim + added
      invariant MarkedUpTo(before, elim, after, added, idx)
    {
      MarkStep(before, elim, after, added, idx);
      if after[idx].hand == [] && idx !in elim' {
        elim' := elim' + [idx];
        added := added + [idx];
        after := after[idx := after[idx].(eliminatedOrder := Some(|elim'|))];
      }
    }
    MarkDone(before, elim, after, added);
  }

  /** The bookkeeping keeps a well-kept elimination order well kept. */
  lemma MarkedKeepsOrder(before: seq<Player>, elim: seq<nat>, after: seq<Player>, elim': seq<nat>)
    requires EliminationOrder(before, elim) && Marked(before, elim, after, elim')
    ensures EliminationOrder(after, elim')
  {
    forall k | 0 <= k < |elim'|
      ensures elim'[k] < |after| && after[elim'[k]].hand == [] && after[elim'[k]].eliminatedOrder == Some(k + 1)
    {
      if k < |elim| {
        assert elim'[k] == elim[k];
        assert elim[k] !in elim'[|elim|..];
      }
    }
    assert NoDup(elim') by {
      forall i, j | 0 <= i < j < |elim'| ensures elim'[i] != elim'[j] {
        if j < |elim| {
          assert elim'[i] == elim[i] && elim'[j] == elim[j];
        } else if i < |elim| {
          assert elim'[i] == elim[i];
        }
      }
    }
  }

  /**
   * After the bookkeeping, starting from a well-kept order, a player is listed
   * exactly when their hand is empty, and then exactly once.
   */
  lemma MarkedExactlyOnce(before: seq<Player>, elim: seq<nat>, after: seq<Player>, elim': seq<nat>, i: nat)
    requires EliminationOrder(before, elim) && Marked(before, elim, after, elim') && i < |after|
    ensures multiset(elim')[i] == (if after[i].hand == [] then 1 else 0)
  {
    MarkedKeepsOrder(before, elim, after, elim');
    NoDupCount(elim', i);
    if after[i].hand == [] && i !in elim {
      var k :| 0 <= k < |elim'[|elim|..]| && elim'[|elim|..][k] == i;
      assert elim'[|elim| + k] == i;
    }
    if i in elim {
      var k :| 0 <= k < |elim| && elim[k] == i;
      assert elim'[k] == i;
    }
  }

  /** Running the bookkeeping a second time, without any play in between, changes nothing. */
  lemma MarkedIdempotent(before: seq<Player>, elim: seq<nat>, after: seq<Player>, elim': seq<nat>, after2: seq<Player>, elim'': seq<nat>)
    requires EliminationOrder(before, elim) && Marked(before, elim, after, elim') && Marked(after, elim', after2, elim'')
    ensures elim'' == elim' && after2 == after
  {
    MarkedKeepsOrder(before, elim, after, elim');
    if |elim''| > |elim'| {
      var x := elim''[|elim'|];
      assert after[x].hand == [] && x !in elim';
      MarkedExactlyOnce(before, elim, after, elim', x);
      NoDupCount(elim', x);
      assert false;
    }
    assert elim'' == elim';
    forall i | 0 <= i < |after| ensures after2[i] == after[i] {
      assert i !in elim''[|elim'|..];
    }
  }

  /** The trick's pool is complete and names existing players. */
  predicate Resolvable(before: seq<Player>, t: State) {
    t.pool != [] && t.poolSuit.Some? && |t.players| > 0 && |before| == |t.players| && PoolInRange(t)
  }

  /** `victimIndex` / `winnerIndex`: the player of the heaviest pool-suit card (else of the first card). */
  function Winner(before: seq<Player>, t: State): (w: nat)
    requires Resolvable(before, t)
    ensures w < |t.players|
  {
    t.pool[Heaviest(t.pool, t.poolSuit.value)].playerIndex
  }

  /** The players once the pool is handled: collected by the victim under punishment, else discarded. */
  function ResolvedPlayers(before: seq<Player>, t: State): (ps: seq<Player>)
    requires Resolvable(before, t)
    ensures |ps| == |t.players|
  {
    if Punishes(before, t.pool, t.poolSuit.value) then Collect(t.players, Winner(before, t), t.pool) else t.players
  }

  /**
   * What resolving the complete trick of `t` gives (`before` are the players
   * as they were before the final play): pool, pool suit and play counter are
   * cleared; under punishment the victim's hand gains every pool card and the
   * cards in play stay the same, otherwise the pool cards leave play; the turn
   * goes to the first player holding cards after the victim or winner; the
   * elimination bookkeeping runs; the game stops when at most one player holds cards.
   */
  ghost predicate Resolved(before: seq<Player>, t: State, r: State)
    requires Resolvable(before, t)
  {
    && r.pool == [] && r.poolSuit == None && r.playsThisTrick == 0 && r.deck == t.deck
    && IsNextAlive(ResolvedPlayers(before, t), (Winner(before, t) + 1) % |t.players|, r.currentPlayer)
    && Marked(ResolvedPlayers(before, t), t.eliminatedSeq, r.players, r.eliminatedSeq)
    && r.started == (t.started && CountAlive(r.players) > 1)
    && (Punishes(before, t.pool, t.poolSuit.value) ==> AllCards(r) == AllCards(t))
    && (!Punishes(before, t.pool, t.poolSuit.value) ==> AllCards(r) + multiset(Collected(t.pool)) == AllCards(t))
  }

  /** The resolution branch of `playCard` (room.js lines 180-248). */
  method ResolveTrick(before: seq<Player>, t: State) returns (r: State)
    requires Resolvable(before, t)
    ensures Resolved(before, t, r)
  {
    var n := |t.players|;
    var winner := Winner(before, t);
    var resolved := ResolvedPlayers(before, t);
    var next := NextAlive(resolved, (winner + 1) % n);
    var players, elim := MarkEliminated(resolved, t.eliminatedSeq);
    var started := t.started;
    if CountAlive(players) <= 1 {
      started := false;
    }
    r := State(players, started, t.deck, [], None, next, 0, elim);
    ResolvedIntro(before, t, r);
  }

  /** The pieces the resolution computes assemble into `Resolved`. */
  lemma ResolvedIntro(before: seq<Player>, t: State, r: State)
    requires Resolvable(before, t)
    requires IsNextAlive(ResolvedPlayers(before, t), (Winner(before, t) + 1) % |t.players|, r.currentPlayer)
    requires Marked(ResolvedPlayers(before, t), t.eliminatedSeq, r.players, r.eliminatedSeq)
    requires r.pool == [] && r.poolSuit == None && r.playsThisTrick == 0 && r.deck == t.deck
    requires r.started == (t.started && CountAlive(r.players) > 1)
    ensures Resolved(before, t, r)
  {
    var resolved := ResolvedPlayers(before, t);
    assert AllCards(r) == CardsOf(HandsOf(resolved)) by {
      assert HandsOf(r.players) == HandsOf(resolved);
      assert Collected(r.pool) == [];
    }
    ResolvedCards(before, t);
  }

  /** When the player at `from` holds cards, the search stops there at once. */
  lemma NextAliveHere(players: seq<Player>, from: nat, r: int)
    requires from < |players| && players[from].hand != [] && IsNextAlive(players, from, r)
    ensures r == from
  {
    assert CyclicDistance(from, from, |players|) == 0;
  }

  /** Two player lists with the same hands agree on who acts next. */
  lemma NextAliveByHands(a: seq<Player>, b: seq<Player>, from: nat, r: int)
    requires HandsOf(a) == HandsOf(b) && from < |a| && IsNextAlive(a, from, r)
    ensures IsNextAlive(b, from, r)
  {
    assert forall i :: 0 <= i < |a| ==> a[i].hand == HandsOf(a)[i] == HandsOf(b)[i] == b[i].hand;
  }

  /**
   * Resolving a complete trick, in full. The pool is emptied, the pool suit
   * and the play counter cleared. Under punishment the victim's hand gains
   * every pool card, in pool order, and the cards in play stay the same;
   * otherwise every hand stays as it is and the pool cards leave play. The
   * turn goes to the first player after the victim or winner, cyclically, who
   * holds cards, and a running game goes on exactly when two or more players
   * still hold cards.
   */
  lemma ResolvedOutcome(before: seq<Player>, t: State, r: State)
    requires Resolvable(before, t) && Resolved(before, t, r)
    ensures r.pool == [] && r.poolSuit == None && r.playsThisTrick == 0 && r.deck == t.deck
    ensures |r.players| == |t.players|
    ensures Punishes(before, t.pool, t.poolSuit.value) ==>
      && r.players[Winner(before, t)].hand == t.players[Winner(before, t)].hand + Collected(t.pool)
      && (forall j :: 0 <= j < |r.players| && j != Winner(before, t) ==> r.players[j].hand == t.players[j].hand)
      && AllCards(r) == AllCards(t)
    ensures !Punishes(before, t.pool, t.poolSuit.value) ==>
      && (forall j :: 0 <= j < |r.players| ==> r.players[j].hand == t.players[j].hand)
      && AllCards(r) + multiset(Collected(t.pool)) == AllCards(t)
    ensures IsNextAlive(r.players, (Winner(before, t) + 1) % |t.players|, r.currentPlayer)
    ensures t.started ==> (r.started <==> CountAlive(r.players) > 1)
  {
    var resolved := ResolvedPlayers(before, t);
    assert HandsOf(resolved) == HandsOf(r.players);
    NextAliveByHands(resolved, r.players, (Winner(before, t) + 1) % |t.players|, r.currentPlayer);
  }

  /**
   * The victim played in this trick, so it is not eliminated: collecting the
   * pool leaves every eliminated player as they were.
   */
  lemma ResolvedKeepsOrder(before: seq<Player>, t: State)
    requires Resolvable(before, t) && EliminationOrder(t.players, t.eliminatedSeq)
    requires forall k :: 0 <= k < |t.pool| ==> t.pool[k].playerIndex !in t.eliminatedSeq
    ensures EliminationOrder(ResolvedPlayers(before, t), t.eliminatedSeq)
  {
    var resolved := ResolvedPlayers(before, t);
    assert Winner(before, t) !in t.eliminatedSeq;
    assert forall k :: 0 <= k < |t.eliminatedSeq| ==> resolved[t.eliminatedSeq[k]] == t.players[t.eliminatedSeq[k]];
  }

  /** Under punishment the pool cards stay in play, with the victim; otherwise they leave it. */
  lemma ResolvedCards(before: seq<Player>, t: State)
    requires Resolvable(before, t)
    ensures Punishes(before, t.pool, t.poolSuit.value) ==> CardsOf(HandsOf(ResolvedPlayers(before, t))) == AllCards(t)
    ensures !Punishes(before, t.pool, t.poolSuit.value) ==>
      CardsOf(HandsOf(ResolvedPlayers(before, t))) + multiset(Collected(t.pool)) == AllCards(t)
  {
  }
}
