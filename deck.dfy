/**
 * The deck builder: `createDeck` and `shuffle` (room.js lines 17-32).
 * The random swap index of `shuffle` is an input: `js[i]` is the index drawn
 * in the step that handles position `i`, and it must lie in `0..i`.
 */
module Deck {
  import opened Cards
  import opened Seqs

  /** Where a card stands in the order `createDeck` pushes them: suit-major, then rank. */
  function DeckPosition(c: Card): nat {
    |Ranks| * SuitIndex(c.suit) + RankWeight(c.rank)
  }

  lemma DeckPositionInjective(c: Card, d: Card)
    requires DeckPosition(c) == DeckPosition(d)
    ensures c == d
  {
    assert SuitIndex(c.suit) == SuitIndex(d.suit);
    assert RankWeight(c.rank) == RankWeight(d.rank);
  }

  /** The 52 cards in the order `createDeck` pushes them: card i is suit i / 13, rank i % 13. */
  function DeckOrder(): (deck: seq<Card>)
    ensures |deck| == 52
  {
    seq(52, i requires 0 <= i < 52 => Card(Suits[i / 13], Ranks[i % 13]))
  }

  /**
   * `createDeck`: all 52 cards, suit by suit in the order of `Suits`, and within
   * a suit in the order of `Ranks`; every (suit, rank) pair exactly once.
   */
  method CreateDeck() returns (deck: seq<Card>)
    ensures |deck| == |Suits| * |Ranks| == 52
    ensures forall i :: 0 <= i < |deck| ==> deck[i] == Card(Suits[i / |Ranks|], Ranks[i % |Ranks|])
    ensures forall c: Card :: multiset(deck)[c] == 1
    ensures deck == DeckOrder()
  {
    deck := [];
    for si := 0 to |Suits|
      invariant |deck| == |Ranks| * si
      invariant forall i :: 0 <= i < |deck| ==> DeckPosition(deck[i]) == i
    {
      var suit := Suits[si];
      for ri := 0 to |Ranks|
        invariant |deck| == |Ranks| * si + ri
        invariant forall i :: 0 <= i < |deck| ==> DeckPosition(deck[i]) == i
      {
        var rank := Ranks[ri];
        SuitIndexAt(si);
        RankWeightAt(ri);
        deck := deck + [Card(suit, rank)];
      }
    }
    forall i | 0 <= i < |deck|
      ensures deck[i] == Card(Suits[i / |Ranks|], Ranks[i % |Ranks|])
    {
      var c := deck[i];
      assert i == |Ranks| * SuitIndex(c.suit) + RankWeight(c.rank);
      assert i / |Ranks| == SuitIndex(c.suit) && i % |Ranks| == RankWeight(c.rank);
    }
    assert NoDup(deck) by {
      forall i, j | 0 <= i < j < |deck| ensures deck[i] != deck[j] {
        assert DeckPosition(deck[i]) != DeckPosition(deck[j]);
      }
    }
    forall c: Card ensures multiset(deck)[c] == 1 {
      var p := DeckPosition(c);
      assert p < |deck|;
      DeckPositionInjective(deck[p], c);
      NoDupCount(deck, c);
    }
  }

  /** Exchanges the elements at positions i and j. */
  function Swap<T>(s: seq<T>, i: nat, j: nat): (r: seq<T>)
    requires i < |s| && j < |s|
    ensures |r| == |s| && r[i] == s[j] && r[j] == s[i]
    ensures forall k :: 0 <= k < |s| && k != i && k != j ==> r[k] == s[k]
  {
    s[i := s[j]][j := s[i]]
  }

  lemma SwapPermutes<T>(s: seq<T>, i: nat, j: nat)
    requires i < |s| && j < |s|
    ensures multiset(Swap(s, i, j)) == multiset(s)
  {
    assert multiset(s[i := s[j]]) == multiset(s) - multiset{s[i]} + multiset{s[j]};
  }

  /** Swap choices a Fisher-Yates run over n positions can draw: step i picks from 0..i. */
  predicate ValidSwaps(js: seq<nat>, n: nat) {
    |js| == n && forall i :: 0 <= i < n ==> js[i] <= i
  }

  /** The result of the swaps of steps i, i-1, ..., 1, in that order. */
  function FisherYates<T>(s: seq<T>, js: seq<nat>, i: int): (r: seq<T>)
    requires ValidSwaps(js, |s|) && i < |s|
    ensures |r| == |s|
    decreases i
  {
    if i <= 0 then s else FisherYates(Swap(s, i, js[i]), js, i - 1)
  }

  /** Whatever the choices, the swaps only rearrange: the result is a permutation of the input. */
  lemma {:induction false} FisherYatesPermutes<T>(s: seq<T>, js: seq<nat>, i: int)
    requires ValidSwaps(js, |s|) && i < |s|
    ensures multiset(FisherYates(s, js, i)) == multiset(s)
    decreases i
  {
    if i > 0 {
      SwapPermutes(s, i, js[i]);
      FisherYatesPermutes(Swap(s, i, js[i]), js, i - 1);
    }
  }

  /** `shuffle`: the in-place descending swap loop. */
  method Shuffle<T>(a: array<T>, js: seq<nat>)
    requires ValidSwaps(js, a.Length)
    modifies a
    ensures a[..] == FisherYates(old(a[..]), js, a.Length - 1)
    ensures multiset(a[..]) == multiset(old(a[..]))
  {
    var i := a.Length - 1;
    while i > 0
      invariant -1 <= i < a.Length
      invariant a.Length > 0 ==> 0 <= i
      invariant FisherYates(a[..], js, i) == FisherYates(old(a[..]), js, a.Length - 1)
    {
      var j := js[i];
      ghost var after := Swap(a[..], i, j);
      var t := a[i];
      a[i] := a[j];
      a[j] := t;
      assert a[..] == after;
      i := i - 1;
    }
    FisherYatesPermutes(old(a[..]), js, a.Length - 1);
  }
}
