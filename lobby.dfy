/**
 * The lobby transitions of room.js: `addPlayer` (lines 105-111),
 * `startGame` with its round-robin deal (lines 113-139) and `resetRoom`
 * (lines 262-272).
 */
module Lobby {
  import opened Wrappers
  import opened Cards
  import opened Seqs
  import opened Arith
  import opened Deck
  import opened GameState

  /**
   * The empty room that `resetRoom` installs (and the initial `useState`
   * value): no players, no game running, no card anywhere.
   */
  function EmptyRoom(): (s: State)
    ensures Inv(s) && !s.started && s.players == [] && AllCards(s) == multiset{}
  {
    State([], false, [], [], None, 0, 0, [])
  }

  /**
   * `addPlayer`: an empty name or a running game leaves the state as it is;
   * otherwise exactly one player, with an empty hand and no elimination order,
   * joins at the end and every other part of the state is unchanged.
   */
  function AddPlayer(s: State, name: string): (r: State)
    ensures name == [] || s.started ==> r == s
    ensures name != [] && !s.started ==>
      && |r.players| == |s.players| + 1
      && r.players[..|s.players|] == s.players
      && r.players[|s.players|] == Player(name, [], None)
      && r == s.(players := r.players)
    ensures AllCards(r) == AllCards(s)
    ensures Inv(s) ==> Inv(r)
  {
    if name == [] then s
    else if s.started then s
    else
      var r := s.(players := s.players + [Player(name, [], None)]);
      assert HandsOf(r.players) == HandsOf(s.players) + [[]];
      CardsOfAppendEmpty(HandsOf(s.players));
      r
  }

  /** n empty hands. */
  function NoHands(n: nat): (hands: seq<seq<Card>>)
    ensures |hands| == n && forall j :: 0 <= j < n ==> hands[j] == []
  {
    seq(n, _ => [])
  }

  /** The hands after the first i cards of the deck have been dealt round-robin to n players. */
  function Dealt(deck: seq<Card>, n: nat, i: nat): (hands: seq<seq<Card>>)
    requires n > 0 && i <= |deck|
    ensures |hands| == n
  {
    if i == 0 then NoHands(n)
    else
      var prev := Dealt(deck, n, i - 1);
      prev[(i - 1) % n := prev[(i - 1) % n] + [deck[i - 1]]]
  }

  /**
   * With i written as q * n + m (0 <= m < n), hand j holds q cards after the
   * first i have been dealt, one more when it is among the first m hands.
   */
  lemma {:induction false} DealtSizeAt(deck: seq<Card>, n: nat, i: nat, q: nat, m: nat, j: nat)
    requires n > 0 && i <= |deck| && m < n && i == q * n + m && j < n
    ensures |Dealt(deck, n, i)[j]| == q + (if j < m then 1 else 0)
  {
    DecompPrev(i, n, q, m);
    if i == 0 {
    } else if m > 0 {
      DealtSizeAt(deck, n, i - 1, q, m - 1, j);
    } else {
      DealtSizeAt(deck, n, i - 1, q - 1, n - 1, j);
    }
  }

  /** The sizes of all hands, with i written as q * n + m. */
  lemma DealtSizesBy(deck: seq<Card>, n: nat, i: nat, q: nat, m: nat)
    requires n > 0 && i <= |deck| && m < n && i == q * n + m
    ensures forall j :: 0 <= j < n ==> |Dealt(deck, n, i)[j]| == q + (if j < m then 1 else 0)
  {
    forall j | 0 <= j < n
      ensures |Dealt(deck, n, i)[j]| == q + (if j < m then 1 else 0)
    {
      DealtSizeAt(deck, n, i, q, m, j);
    }
  }

  /** Hand j holds i / n cards, one more for the first i % n hands. */
  lemma DealtSizes(deck: seq<Card>, n: nat, i: nat)
    requires n > 0 && i <= |deck|
    ensures forall j :: 0 <= j < n ==> |Dealt(deck, n, i)[j]| == i / n + (if j < i % n then 1 else 0)
  {
    DealtSizesBy(deck, n, i, i / n, i % n);
  }

  /** Card k of hand j, after the first i cards have been dealt, is card k * n + j of the deck. */
  lemma {:induction false} DealtAt(deck: seq<Card>, n: nat, i: nat, j: nat, k: nat)
    requires n > 0 && i <= |deck| && j < n && k < |Dealt(deck, n, i)[j]|
    ensures k * n + j < i && Dealt(deck, n, i)[j][k] == deck[k * n + j]
  {
    if i > 0 {
      DealtStep(deck, n, i, j, k);
      if k < |Dealt(deck, n, i - 1)[j]| {
        DealtAt(deck, n, i - 1, j, k);
      }
    }
  }

  /**
   * Dealing card i - 1 changes only hand (i - 1) % n, and appends the card
   * there: a card of hand j not yet held is that card, at place k with
   * k * n + j == i - 1.
   */
  lemma DealtStep(deck: seq<Card>, n: nat, i: nat, j: nat, k: nat)
    requires n > 0 && 0 < i <= |deck| && j < n && k < |Dealt(deck, n, i)[j]|
    ensures k < |Dealt(deck, n, i - 1)[j]| ==> Dealt(deck, n, i)[j][k] == Dealt(deck, n, i - 1)[j][k]
    ensures k >= |Dealt(deck, n, i - 1)[j]| ==> k * n + j == i - 1 && Dealt(deck, n, i)[j][k] == deck[i - 1]
  {
    var prev := Dealt(deck, n, i - 1);
    var q, m := (i - 1) / n, (i - 1) % n;
    DividesAs(i - 1, n);
    DealtSizeAt(deck, n, i - 1, q, m, m);
    assert Dealt(deck, n, i) == prev[m := prev[m] + [deck[i - 1]]];
  }

  /** Dealing the first i cards hands out exactly those cards. */
  lemma {:induction false} DealtCards(deck: seq<Card>, n: nat, i: nat)
    requires n > 0 && i <= |deck|
    ensures CardsOf(Dealt(deck, n, i)) == multiset(deck[..i])
  {
    if i == 0 {
      CardsOfEmpty(NoHands(n));
      assert deck[..i] == [];
    } else {
      DealtOneMore(deck, n, i);
      assert multiset(deck[..i]) == multiset(deck[..i - 1]) + multiset{deck[i - 1]} by {
        assert deck[..i] == deck[..i - 1] + [deck[i - 1]];
      }
      DealtCards(deck, n, i - 1);
    }
  }

  /** Dealing card i - 1 adds exactly that card to the held cards. */
  lemma DealtOneMore(deck: seq<Card>, n: nat, i: nat)
    requires n > 0 && 0 < i <= |deck|
    ensures CardsOf(Dealt(deck, n, i)) == CardsOf(Dealt(deck, n, i - 1)) + multiset{deck[i - 1]}
  {
    var prev := Dealt(deck, n, i - 1);
    var m := (i - 1) % n;
    assert Dealt(deck, n, i) == prev[m := prev[m] + [deck[i - 1]]];
    GiveCard(prev, m, deck[i - 1]);
  }

  /** Appending a card to one hand adds exactly that card to the held cards. */
  lemma GiveCard(hands: seq<seq<Card>>, m: nat, c: Card)
    requires m < |hands|
    ensures CardsOf(hands[m := hands[m] + [c]]) == CardsOf(hands) + multiset{c}
  {
    var x := multiset(hands[m]);
    CardsOfUpdate(hands, m, hands[m] + [c]);
    assert multiset(hands[m] + [c]) == x + multiset{c};
    MultisetCancel(CardsOf(hands[m := hands[m] + [c]]), CardsOf(hands) + multiset{c}, x);
  }

  /**
   * The `while (deck.length)` loop of `startGame`: card i of the deck goes
   * to hand i % n. Hand j receives the cards at positions j, j + n, j + 2n,
   * ... in that order, so its size is |deck| / n, plus one for the first
   * |deck| % n hands, and every card of the deck is dealt.
   */
  method Deal(deck: seq<Card>, n: nat) returns (hands: seq<seq<Card>>)
    requires n > 0
    ensures hands == Dealt(deck, n, |deck|)
  {
    hands := NoHands(n);
    var rest := deck;
    var i := 0;
    while |rest| > 0
      invariant 0 <= i <= |deck| && rest == deck[i..]
      invariant hands == Dealt(deck, n, i)
    {
      var m := i % n;
      hands := hands[m := hands[m] + [rest[0]]];
      rest := rest[1..];
      i := i + 1;
    }
  }

  /** `findIndex` from position `from`: the first player holding the card, or -1. */
  function FindHolder(players: seq<Player>, c: Card, from: nat): (k: int)
    requires from <= |players|
    ensures k == -1 <==> forall j :: from <= j < |players| ==> c !in players[j].hand
    ensures k != -1 ==> from <= k < |players| && c in players[k].hand
    ensures k != -1 ==> forall j :: from <= j < k ==> c !in players[j].hand
    decreases |players| - from
  {
    if from == |players| then -1
    else if c in players[from].hand then from
    else FindHolder(players, c, from + 1)
  }

  /** The players as `startGame` seats them: each keeps its name, takes the hand dealt to its index and loses any elimination order. */
  function Seated(players: seq<Player>, hands: seq<seq<Card>>): (r: seq<Player>)
    requires |hands| == |players|
    ensures |r| == |players| && HandsOf(r) == hands
    ensures forall i :: 0 <= i < |r| ==> r[i].name == players[i].name && r[i].eliminatedOrder == None
  {
    var r := seq(|players|, idx requires 0 <= idx < |players| => players[idx].(hand := hands[idx], eliminatedOrder := None));
    assert HandsOf(r) == hands;
    r
  }

  /** Every one of the 52 cards, each exactly once. */
  ghost predicate FullDeck(deck: seq<Card>) {
    forall c: Card :: multiset(deck)[c] == 1
  }

  /**
   * What a successful `startGame` establishes: the game runs with an empty
   * pool, no pool suit, no plays and no eliminations; names are kept and
   * elimination orders cleared; every card of the 52 is held by exactly one
   * player, exactly once; hand sizes sum to 52 and differ by at most one;
   * and the first holder of the Ace of Spade leads.
   */
  ghost predicate Started(s: State, r: State) {
    && r.started && r.deck == [] && r.pool == [] && r.poolSuit == None
    && r.playsThisTrick == 0 && r.eliminatedSeq == []
    && |r.players| == |s.players|
    && (forall i :: 0 <= i < |r.players| ==> r.players[i].name == s.players[i].name && r.players[i].eliminatedOrder == None)
    && (forall c: Card :: CardsOf(HandsOf(r.players))[c] == 1)
    && HandSizes(HandsOf(r.players)) == 52
    && (forall i, j :: 0 <= i < |r.players| && 0 <= j < |r.players| ==> |r.players[i].hand| <= |r.players[j].hand| + 1)
    && 0 <= r.currentPlayer < |r.players|
    && Card(Spade, Ace) in r.players[r.currentPlayer].hand
    && (forall k :: 0 <= k < r.currentPlayer ==> Card(Spade, Ace) !in r.players[k].hand)
  }

  /** A round-robin deal gives hand sizes that differ by at most one. */
  lemma DealtBalanced(deck: seq<Card>, n: nat)
    requires n > 0
    ensures forall i, j :: 0 <= i < n && 0 <= j < n ==>
      |Dealt(deck, n, |deck|)[i]| <= |Dealt(deck, n, |deck|)[j]| + 1
  {
    DealtSizesBy(deck, n, |deck|, |deck| / n, |deck| % n);
  }

  /** Seating the players around a round-robin deal of a full deck yields a started game. */
  lemma StartedFromDeal(s: State, deck: seq<Card>, r: State)
    requires |s.players| >= 2 && |deck| == 52 && FullDeck(deck)
    requires r.players == Seated(s.players, Dealt(deck, |s.players|, |deck|))
    requires r.currentPlayer == (var k := FindHolder(r.players, Card(Spade, Ace), 0); if k == -1 then 0 else k)
    requires r == State(r.players, true, [], [], None, r.currentPlayer, 0, [])
    ensures Started(s, r) && Inv(r)
  {
    var hands := Dealt(deck, |s.players|, |deck|);
    DealtCards(deck, |s.players|, |deck|);
    assert deck[..|deck|] == deck;
    DealtBalanced(deck, |s.players|);
    CardsOfSize(hands);
    assert Card(Spade, Ace) in CardsOf(hands);
    CardsOfMember(hands, Card(Spade, Ace));
  }

  /**
   * `startGame` with the shuffle's swap choices `js`. With fewer than two
   * players nothing changes; otherwise the deck of `createDeck`, shuffled
   * with the choices `js`, is dealt round-robin and the game starts as
   * `Started` describes.
   */
  method StartGame(s: State, js: seq<nat>) returns (r: State)
    requires ValidSwaps(js, 52)
    ensures |s.players| < 2 ==> r == s
    ensures |s.players| >= 2 ==> Started(s, r) && Inv(r)
    ensures |s.players| >= 2 ==> HandsOf(r.players) == Dealt(FisherYates(DeckOrder(), js, 51), |s.players|, 52)
  {
    if |s.players| < 2 {
      return s;
    }
    var created := CreateDeck();
    var a := new Card[|created|](i requires 0 <= i < |created| => created[i]);
    assert a[..] == created;
    Shuffle(a, js);
    var deck := a[..];
    var hands := Deal(deck, |s.players|);
    var players := Seated(s.players, hands);
    var startIndex := FindHolder(players, Card(Spade, Ace), 0);
    if startIndex == -1 {
      startIndex := 0;
    }
    r := State(players, true, [], [], None, startIndex, 0, []);
    assert FullDeck(deck) by {
      forall c: Card ensures multiset(deck)[c] == 1 {
        assert multiset(deck)[c] == multiset(created)[c];
      }
    }
    StartedFromDeal(s, deck, r);
  }
}
