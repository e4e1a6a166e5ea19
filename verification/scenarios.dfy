/** Worked sessions of the tracker, stated on the specification functions. */
module Scenarios {
  import opened Hands
  import opened Projection
  import opened Session

  /** Target 3000 from nothing with all ten rounds: Flush is listed with 4 plays for
      exactly 3000 points, and Pair, which would need 60 plays, is not listed. */
  lemma ThreeThousandFromZero()
    ensures var r := RemainingHands(3000, 0, 10).value;
      Lists(r, Flush) && !Lists(r, Pair)
      && forall c :: c in r && c.hand == Flush ==> c.quantity == 4 && c.totalNeeded == 3000
  {
    CeilDivExact(3000, 750, 4);
    CeilDivExact(3000, 50, 60);
    RemainingHandsComplete(3000, 0, 10, Flush);
    RemainingHandsComplete(3000, 0, 10, Pair);
    RemainingHandsSound(3000, 0, 10);
  }

  /** Three Flushes towards 3000 leave the session live at 2250 points with seven rounds
      left and three ledger lines. */
  lemma ThreeFlushesReach2250()
    ensures var r := Run(Started(3000), [Play(Flush), Play(Flush), Play(Flush)]);
      r.outcome == AwaitingInput && r.used == 3 && r.final.targetScore == 3000
      && r.final.currentScore == 2250 && r.final.round == 7 && |r.final.handsHistory| == 3
  {
  }

  /** At the record ThreeFlushesReach2250 arrives at (2250 of 3000, seven rounds left) the
      analysis screen lists one more Flush first: ceil(750 / 750) = 1. */
  lemma TopEntryAfterThreeFlushes()
    ensures var v := Analyze(3000, 2250, 7);
      v.Best? && v.shown[0] == MakeCombination(750, Flush) && v.shown[0].quantity == 1
  {
    CeilDivExact(750, 750, 1);
    RemainingHandsInDeclaredOrder(3000, 2250, 7);
    var cs := Combine(750);
    assert cs[0] == MakeCombination(750, Flush);
    assert KeepFitting(cs, 7) == [cs[0]] + KeepFitting(cs[1..], 7);
  }

  /** Five Flushes offered towards 3000: the fourth reaches the target, the session is
      won there and the fifth choice is never read. */
  lemma FlushesWinOnTheFourth()
    ensures var r := Run(Started(3000), [Play(Flush), Play(Flush), Play(Flush), Play(Flush), Play(Flush)]);
      r.outcome == Won && r.used == 4 && r.final.currentScore == 3000 && r.final.round == 6
  {
  }

  /** Ten Pairs towards 1000 use every round and leave the score at 500: the session ends
      without reaching the target. */
  lemma PairsRunOutOfRounds()
    ensures var r := Run(Started(1000), seq(10, _ => Play(Pair)));
      r.outcome == Ended && r.used == 10 && r.final.currentScore == 500 && r.final.round == 0
  {
    RepeatedPlayEnds(Started(1000), Pair, 10);
  }
}
