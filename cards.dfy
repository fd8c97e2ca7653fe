/**
 * Suits, ranks and cards of the ACE game (room.js lines 14-15 and 33-38).
 * The order of `Ranks` is the weight order: the Ace is heaviest (weight 0),
 * the Two is lightest (weight 12).
 */
module Cards {

  datatype Suit = Spade | Diamond | Clover | Hearts

  datatype Rank = Ace | King | Queen | Jack | Ten | Nine | Eight | Seven | Six | Five | Four | Three | Two

  datatype Card = Card(suit: Suit, rank: Rank)

  const Suits: seq<Suit> := [Spade, Diamond, Clover, Hearts]

  const Ranks: seq<Rank> := [Ace, King, Queen, Jack, Ten, Nine, Eight, Seven, Six, Five, Four, Three, Two]

  /** The position of a suit in `Suits`. */
  function SuitIndex(s: Suit): (k: nat)
    ensures k < |Suits| && Suits[k] == s
    ensures forall j :: 0 <= j < k ==> Suits[j] != s
  {
    match s
    case Spade => 0
    case Diamond => 1
    case Clover => 2
    case Hearts => 3
  }

  /** `rankWeight`: the first index of the rank in `Ranks`; smaller is heavier. */
  function RankWeight(r: Rank): (w: nat)
    ensures w < |Ranks| && Ranks[w] == r
    ensures forall j :: 0 <= j < w ==> Ranks[j] != r
  {
    match r
    case Ace => 0
    case King => 1
    case Queen => 2
    case Jack => 3
    case Ten => 4
    case Nine => 5
    case Eight => 6
    case Seven => 7
    case Six => 8
    case Five => 9
    case Four => 10
    case Three => 11
    case Two => 12
  }

  lemma SuitIndexAt(k: nat)
    requires k < |Suits|
    ensures SuitIndex(Suits[k]) == k
  {
  }

  lemma RankWeightAt(k: nat)
    requires k < |Ranks|
    ensures RankWeight(Ranks[k]) == k
  {
  }

  /** Whether some card of the hand has the given suit (the `some` in `playerHasSuit`). */
  function HandHasSuit(hand: seq<Card>, suit: Suit): (b: bool)
    ensures b <==> exists i :: 0 <= i < |hand| && hand[i].suit == suit
  {
    if hand == [] then false
    else if hand[0].suit == suit then true
    else
      var b' := HandHasSuit(hand[1..], suit);
      assert b' ==> exists i :: 0 <= i < |hand| && hand[i].suit == suit by {
        if b' {
          var i :| 0 <= i < |hand[1..]| && hand[1..][i].suit == suit;
          assert hand[i + 1].suit == suit;
        }
      }
      assert (exists i :: 0 <= i < |hand| && hand[i].suit == suit) ==> b' by {
        if exists i :: 0 <= i < |hand| && hand[i].suit == suit {
          var i :| 0 <= i < |hand| && hand[i].suit == suit;
          assert i > 0 && hand[1..][i - 1].suit == suit;
        }
      }
      b'
  }
}
