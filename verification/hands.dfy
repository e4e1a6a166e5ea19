/** The fixed table of poker hands the tracker scores, and the session constants. */
module Hands {

  /** One case per entry of the hand table, in declaration order. */
  datatype Hand = Flush | FourOfAKind | FullHouse | ThreeOfAKind | TwoPair | Spectrum | Pair

  /** Number of hand plays a session allows. */
  const TotalRounds: nat := 10

  /** Magnitude of the manual +/- score adjustment. */
  const ScoreAdjustment: int := 50

  /** The hands in the order the table declares them; analysis ties keep this order. */
  const Declared: seq<Hand> := [Flush, FourOfAKind, FullHouse, ThreeOfAKind, TwoPair, Spectrum, Pair]

  function Name(h: Hand): string
  {
    match h
    case Flush => "Flush"
    case FourOfAKind => "4 of a Kind"
    case FullHouse => "Full House"
    case ThreeOfAKind => "3 of a Kind"
    case TwoPair => "2 Pair"
    case Spectrum => "Spectrum"
    case Pair => "Pair"
  }

  /** Points a hand is worth; every hand is worth something. */
  function Points(h: Hand): (p: nat)
    ensures p > 0
  {
    match h
    case Flush => 750
    case FourOfAKind => 500
    case FullHouse => 350
    case ThreeOfAKind => 200
    case TwoPair => 150
    case Spectrum => 100
    case Pair => 50
  }

  /** Position of a hand in the declared table. */
  function Rank(h: Hand): (i: nat)
    ensures i < |Declared| && Declared[i] == h
  {
    match h
    case Flush => 0
    case FourOfAKind => 1
    case FullHouse => 2
    case ThreeOfAKind => 3
    case TwoPair => 4
    case Spectrum => 5
    case Pair => 6
  }

  /** The table lists every hand exactly once. */
  lemma DeclaredOnce()
    ensures forall i, j :: 0 <= i < j < |Declared| ==> Declared[i] != Declared[j]
    ensures forall h: Hand :: h in Declared
  {
    forall h: Hand ensures h in Declared {
      assert Declared[Rank(h)] == h;
    }
  }

  /** Points strictly decrease along the declared order, so every hand has a distinct value. */
  lemma PointsDescending()
    ensures forall i, j :: 0 <= i < j < |Declared| ==> Points(Declared[i]) > Points(Declared[j])
  {
  }

  /** Distinct hands have distinct display names, so a ledger name identifies its hand. */
  lemma NamesDistinct(h: Hand, k: Hand)
    ensures Name(h) == Name(k) <==> h == k
  {
  }
}
