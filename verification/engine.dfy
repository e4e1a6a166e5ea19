/** The session record as the mutable object the tracker keeps, with the operations that
    update it in place and the game loop that drives them from the player's choices. */
module Engine {
  import opened Hands
  import opened Projection
  import opened Session

  class Game {
    var targetScore: int
    var currentScore: int
    var round: int
    var handsHistory: seq<HistoryEntry>

    /** The record as a value. */
    function State(): GameState
      reads this
    {
      GameState(targetScore, currentScore, round, handsHistory)
    }

    /** The record as first declared: no target yet, all rounds, empty ledger. */
    constructor ()
      ensures State() == Initial()
    {
      targetScore, currentScore, round, handsHistory := 0, 0, TotalRounds, [];
    }

    /** Starts a session once the player has entered a positive target. */
    method InitGame(target: int)
      requires target > 0
      modifies this
      ensures State() == Started(target)
    {
      targetScore := target;
      currentScore := 0;
      round := TotalRounds;
      handsHistory := [];
    }

    /** Discards the finished session before a replay. */
    method ResetGameState()
      modifies this
      ensures State() == Initial()
    {
      targetScore, currentScore, round, handsHistory := 0, 0, TotalRounds, [];
    }

    /** Records a hand play: appends the ledger line, adds the points, uses a round. */
    method AddHand(h: Hand)
      modifies this
      ensures State() == AfterHand(old(State()), h)
      ensures old(Valid(State())) && old(round) > 0 ==> Valid(State())
    {
      ghost var before := State();
      var newScore := currentScore + Points(h);
      handsHistory := handsHistory + [HistoryEntry(Name(h), Points(h), newScore)];
      currentScore := newScore;
      round := round - 1;
      if Valid(before) && before.round > 0 {
        AfterHandValid(before, h);
      }
    }

    /** Moves the score by `amount`, floored at zero; rounds and ledger are untouched. */
    method AdjustScore(amount: int)
      modifies this
      ensures State() == AfterAdjust(old(State()), amount)
      ensures old(Valid(State())) ==> Valid(State())
    {
      var moved := currentScore + amount;
      currentScore := if moved < 0 then 0 else moved;
    }

    /** Reads choices from `actions` while rounds remain and acts on each; returns how the
        loop ended, how many choices it read and the analysis screens it showed. */
    method GameLoop(actions: seq<Action>) returns (outcome: Outcome, used: nat, views: seq<AnalysisView>)
      modifies this
      ensures Run(old(State()), actions) == RunResult(outcome, State(), used, views)
      ensures old(Valid(State())) ==> Valid(State())
    {
      ghost var start := State();
      if Valid(start) {
        RunValid(start, actions);
      }
      var i := 0;
      views := [];
      assert actions[i..] == actions;
      assert [] + Run(start, actions).views == Run(start, actions).views;
      while round > 0
        invariant 0 <= i <= |actions|
        invariant Run(start, actions) == After(Run(State(), actions[i..]), i, views)
        decreases |actions| - i
      {
        if i == |actions| {
          assert views + [] == views;
          return AwaitingInput, i, views;
        }
        ghost var s, seen := State(), views;
        var a := actions[i];
        match a {
          case Quit =>
            RunStops(Run(start, actions), s, actions, i, seen);
            return Quitted, i + 1, views;
          case Analysis =>
            views := views + [View(State())];
            assert StepOf(s, a) == Continue(State(), [View(s)]);
          case Plus =>
            AdjustScore(ScoreAdjustment);
            assert StepOf(s, a) == Continue(State(), []);
          case Minus =>
            AdjustScore(-ScoreAdjustment);
            assert StepOf(s, a) == Continue(State(), []);
          case Play(h) =>
            AddHand(h);
            if currentScore >= targetScore {
              RunStops(Run(start, actions), s, actions, i, seen);
              return Won, i + 1, views;
            }
            if round <= 0 {
              RunStops(Run(start, actions), s, actions, i, seen);
              return Ended, i + 1, views;
            }
            assert StepOf(s, a) == Continue(State(), []);
        }
        RunContinues(Run(start, actions), s, actions, i, seen);
        assert seen + StepOf(s, a).shown == views;
        i := i + 1;
      }
      assert views + [] == views;
      return FellThrough, i, views;
    }

    /** One session: set the target, then run the loop on the player's choices. */
    method PlaySession(target: int, actions: seq<Action>) returns (outcome: Outcome, used: nat, views: seq<AnalysisView>)
      requires target > 0
      modifies this
      ensures Run(Started(target), actions) == RunResult(outcome, State(), used, views)
      ensures Valid(State()) && outcome != FellThrough
    {
      InitGame(target);
      RunOutcome(State(), actions);
      outcome, used, views := GameLoop(actions);
    }
  }
}
