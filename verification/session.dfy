/** The session record as a value, the transitions that change it, and the game loop as a
    function of the starting record and the player's choices. The class in module Engine
    updates the same record in place and is proved against these definitions. */
module Session {
  import opened Hands
  import opened Projection

  /** One ledger line: the hand's display name, the points it gave and the score after it. */
  datatype HistoryEntry = HistoryEntry(hand: string, points: int, totalAfter: int)

  datatype GameState = GameState(targetScore: int, currentScore: int, round: int, handsHistory: seq<HistoryEntry>)

  /** A menu choice: play a hand, show the analysis, adjust by +50 or -50, or quit. */
  datatype Action = Play(hand: Hand) | Analysis | Plus | Minus | Quit

  /** How the loop ended: quit, target reached, rounds used up, loop condition false on
      entry (the loop then returns nothing), or no further choice supplied. */
  datatype Outcome = Quitted | Won | Ended | FellThrough | AwaitingInput

  /** The loop's result: its outcome, the final record, how many choices it read and
      the analysis screens it showed, in order. */
  datatype RunResult = RunResult(outcome: Outcome, final: GameState, used: nat, views: seq<AnalysisView>)

  /** A ledger line was written by a play of some hand, from a non-negative score. */
  predicate Recorded(e: HistoryEntry)
  {
    (exists h: Hand :: e.hand == Name(h) && e.points == Points(h)) && e.totalAfter >= e.points
  }

  /** The session invariant: score never negative, rounds in [0, TotalRounds] with one
      ledger line per round used, and every ledger line written by a hand play. */
  predicate Valid(s: GameState)
  {
    s.currentScore >= 0 && 0 <= s.round && s.round + |s.handsHistory| == TotalRounds
    && forall i :: 0 <= i < |s.handsHistory| ==> Recorded(s.handsHistory[i])
  }

  /** The record before any target is asked for, and after a reset. */
  function Initial(): (s: GameState)
    ensures Valid(s) && s.round == TotalRounds && s.currentScore == 0 && s.handsHistory == []
  {
    GameState(0, 0, TotalRounds, [])
  }

  /** The record once the player has entered a target. */
  function Started(targetScore: int): (s: GameState)
    requires targetScore > 0
    ensures Valid(s) && s.targetScore == targetScore && s.round == TotalRounds
    ensures s.currentScore == 0 && s.handsHistory == []
  {
    GameState(targetScore, 0, TotalRounds, [])
  }

  /** A hand play: one ledger line appended, the hand's points added, one round used. */
  function AfterHand(s: GameState, h: Hand): (r: GameState)
    ensures r.targetScore == s.targetScore
    ensures r.currentScore == s.currentScore + Points(h) && r.round == s.round - 1
    ensures |r.handsHistory| == |s.handsHistory| + 1 && r.handsHistory[..|s.handsHistory|] == s.handsHistory
    ensures r.handsHistory[|s.handsHistory|] == HistoryEntry(Name(h), Points(h), r.currentScore)
  {
    var newScore := s.currentScore + Points(h);
    GameState(s.targetScore, newScore, s.round - 1, s.handsHistory + [HistoryEntry(Name(h), Points(h), newScore)])
  }

  /** A manual adjustment: the score moves by `amount` but never below zero. */
  function AfterAdjust(s: GameState, amount: int): (r: GameState)
    ensures r.currentScore >= 0
    ensures r.currentScore == s.currentScore + amount || (r.currentScore == 0 && s.currentScore + amount < 0)
    ensures r.targetScore == s.targetScore && r.round == s.round && r.handsHistory == s.handsHistory
  {
    var moved := s.currentScore + amount;
    s.(currentScore := if moved < 0 then 0 else moved)
  }

  /** The analysis screen for a record. */
  function View(s: GameState): AnalysisView
  {
    Analyze(s.targetScore, s.currentScore, s.round)
  }

  /** One pass of the loop body: either the loop goes on from `next` after showing
      `shown`, or it returns `outcome` with the record `final`. */
  datatype Step = Continue(next: GameState, shown: seq<AnalysisView>) | Stop(outcome: Outcome, final: GameState)

  /** The loop body for choice `a`. Quit returns at once; the analysis shows the screen
      for the unchanged record; +50 and -50 only adjust the score (so, by the contract of
      AfterAdjust, no round is used and the ledger is untouched); after a hand play the win
      check comes before the end-of-rounds check. */
  function StepOf(s: GameState, a: Action): (st: Step)
    ensures a == Quit ==> st == Stop(Quitted, s)
    ensures a == Analysis ==> st == Continue(s, [View(s)])
    ensures a == Plus ==> st == Continue(AfterAdjust(s, ScoreAdjustment), [])
    ensures a == Minus ==> st == Continue(AfterAdjust(s, -ScoreAdjustment), [])
    ensures a.Play? ==>
      var t := AfterHand(s, a.hand);
      if t.currentScore >= t.targetScore then st == Stop(Won, t)
      else if t.round <= 0 then st == Stop(Ended, t)
      else st == Continue(t, [])
  {
    match a
    case Quit => Stop(Quitted, s)
    case Analysis => Continue(s, [View(s)])
    case Plus => Continue(AfterAdjust(s, ScoreAdjustment), [])
    case Minus => Continue(AfterAdjust(s, -ScoreAdjustment), [])
    case Play(h) =>
      var t := AfterHand(s, h);
      if t.currentScore >= t.targetScore then Stop(Won, t)
      else if t.round <= 0 then Stop(Ended, t)
      else Continue(t, [])
  }

  /** The result of a run that read `read` more choices and showed `views` before it. */
  function After(r: RunResult, read: nat, views: seq<AnalysisView>): RunResult
  {
    r.(used := r.used + read, views := views + r.views)
  }

  /** Reading in two steps is reading once: counts add and screens concatenate. */
  lemma AfterAfter(r: RunResult, m: nat, n: nat, first: seq<AnalysisView>, second: seq<AnalysisView>)
    ensures After(After(r, m, second), n, first) == After(r, m + n, first + second)
  {
    assert first + (second + r.views) == (first + second) + r.views;
  }

  /** The game loop: while rounds remain, read a choice and run the loop body on it. */
  function Run(s: GameState, actions: seq<Action>): (r: RunResult)
    ensures r.used <= |actions|
    ensures r.final.targetScore == s.targetScore
    ensures r.final.round <= s.round
    ensures r.final.round + |r.final.handsHistory| == s.round + |s.handsHistory|
    decreases |actions|
  {
    if s.round <= 0 then RunResult(FellThrough, s, 0, [])
    else if actions == [] then RunResult(AwaitingInput, s, 0, [])
    else
      match StepOf(s, actions[0])
      case Stop(outcome, final) => RunResult(outcome, final, 1, [])
      case Continue(next, shown) => After(Run(next, actions[1..]), 1, shown)
  }

  /** One more pass of the loop that goes on: the whole run is the run from the new
      record on the remaining choices, with the count and screens carried over. */
  lemma RunContinues(whole: RunResult, s: GameState, actions: seq<Action>, i: nat, seen: seq<AnalysisView>)
    requires i < |actions| && s.round > 0 && StepOf(s, actions[i]).Continue?
    requires whole == After(Run(s, actions[i..]), i, seen)
    ensures var st := StepOf(s, actions[i]);
      whole == After(Run(st.next, actions[i + 1..]), i + 1, seen + st.shown)
  {
    var st := StepOf(s, actions[i]);
    assert actions[i..][1..] == actions[i + 1..];
    AfterAfter(Run(st.next, actions[i + 1..]), 1, i, seen, st.shown);
  }

  /** One more pass of the loop that returns: the whole run ends there. */
  lemma RunStops(whole: RunResult, s: GameState, actions: seq<Action>, i: nat, seen: seq<AnalysisView>)
    requires i < |actions| && s.round > 0 && StepOf(s, actions[i]).Stop?
    requires whole == After(Run(s, actions[i..]), i, seen)
    ensures var st := StepOf(s, actions[i]);
      whole == RunResult(st.outcome, st.final, i + 1, seen)
  {
  }

  // ---------------------------------------------------------------------------
  // The invariant.

  /** A hand play from a live session keeps the invariant. */
  lemma AfterHandValid(s: GameState, h: Hand)
    requires Valid(s) && s.round > 0
    ensures Valid(AfterHand(s, h))
  {
    var r := AfterHand(s, h);
    forall i | 0 <= i < |r.handsHistory| ensures Recorded(r.handsHistory[i]) {
      if i < |s.handsHistory| {
        assert r.handsHistory[i] == r.handsHistory[..|s.handsHistory|][i];
      } else {
        assert r.handsHistory[i].hand == Name(h) && r.handsHistory[i].points == Points(h);
      }
    }
  }

  /** An adjustment keeps the invariant. */
  lemma AfterAdjustValid(s: GameState, amount: int)
    requires Valid(s)
    ensures Valid(AfterAdjust(s, amount))
  {
  }

  /** A whole run keeps the invariant, so the score never goes negative, rounds never go
      below zero and there is always one ledger line per round used. */
  lemma {:induction false} RunValid(s: GameState, actions: seq<Action>)
    requires Valid(s)
    ensures Valid(Run(s, actions).final)
    decreases |actions|
  {
    if s.round > 0 && actions != [] {
      match actions[0]
      case Quit =>
      case Analysis => RunValid(s, actions[1..]);
      case Plus => RunValid(AfterAdjust(s, ScoreAdjustment), actions[1..]);
      case Minus => RunValid(AfterAdjust(s, -ScoreAdjustment), actions[1..]);
      case Play(h) =>
        AfterHandValid(s, h);
        var t := AfterHand(s, h);
        if t.currentScore < t.targetScore && t.round > 0 {
          RunValid(t, actions[1..]);
        }
    }
  }

  /** The ledger is append-only: a run only adds lines after the existing ones. */
  lemma {:induction false} RunAppendsLedger(s: GameState, actions: seq<Action>)
    ensures var h := Run(s, actions).final.handsHistory;
      |s.handsHistory| <= |h| && forall i :: 0 <= i < |s.handsHistory| ==> h[i] == s.handsHistory[i]
    decreases |actions|
  {
    if s.round > 0 && actions != [] {
      match actions[0]
      case Quit =>
      case Analysis => RunAppendsLedger(s, actions[1..]);
      case Plus => RunAppendsLedger(AfterAdjust(s, ScoreAdjustment), actions[1..]);
      case Minus => RunAppendsLedger(AfterAdjust(s, -ScoreAdjustment), actions[1..]);
      case Play(h) =>
        var t := AfterHand(s, h);
        assert forall i :: 0 <= i < |s.handsHistory| ==> t.handsHistory[i] == t.handsHistory[..|s.handsHistory|][i];
        if t.currentScore < t.targetScore && t.round > 0 {
          RunAppendsLedger(t, actions[1..]);
        }
    }
  }

  // ---------------------------------------------------------------------------
  // Outcomes.

  /** How each outcome leaves the record: a win meets the target (whatever the rounds),
      an end has no rounds left and misses the target, quitting or waiting leaves a live
      session, and the loop falls through only when it is entered with no rounds. */
  lemma {:induction false} RunOutcome(s: GameState, actions: seq<Action>)
    ensures var r := Run(s, actions);
      (r.outcome == Won ==> r.final.currentScore >= r.final.targetScore)
      && (r.outcome == Ended ==> r.final.currentScore < r.final.targetScore && r.final.round <= 0)
      && (r.outcome in {Quitted, AwaitingInput} ==> r.final.round > 0)
      && (r.outcome == FellThrough <==> s.round <= 0)
      && (r.outcome == AwaitingInput ==> r.used == |actions|)
    decreases |actions|
  {
    if s.round > 0 && actions != [] {
      match actions[0]
      case Quit =>
      case Analysis => RunOutcome(s, actions[1..]);
      case Plus => RunOutcome(AfterAdjust(s, ScoreAdjustment), actions[1..]);
      case Minus => RunOutcome(AfterAdjust(s, -ScoreAdjustment), actions[1..]);
      case Play(h) =>
        var t := AfterHand(s, h);
        if t.currentScore < t.targetScore && t.round > 0 {
          RunOutcome(t, actions[1..]);
        }
    }
  }

  /** Quit ends the session at once and changes nothing. */
  lemma QuitEndsAtOnce(s: GameState, rest: seq<Action>)
    requires s.round > 0
    ensures Run(s, [Quit] + rest) == RunResult(Quitted, s, 1, [])
  {
  }

  /** The win check comes first: a play that reaches the target wins even when it uses
      the last round. */
  lemma WinBeforeEnd(s: GameState, h: Hand, rest: seq<Action>)
    requires s.round > 0 && s.currentScore + Points(h) >= s.targetScore
    ensures Run(s, [Play(h)] + rest).outcome == Won
    ensures Run(s, [Play(h)] + rest).final == AfterHand(s, h)
  {
  }

  /** Playing the same hand over and over when even every remaining round of it falls
      short: the session ends with no rounds left, having used one choice per round, and
      the score has grown by that hand's points each round. */
  lemma {:induction false} RepeatedPlayEnds(s: GameState, h: Hand, n: nat)
    requires 0 < s.round <= n && s.currentScore + s.round * Points(h) < s.targetScore
    ensures var r := Run(s, seq(n, _ => Play(h)));
      r.outcome == Ended && r.used == s.round && r.final.round == 0
      && r.final.currentScore == s.currentScore + s.round * Points(h)
    decreases s.round
  {
    var actions := seq(n, _ => Play(h));
    var t := AfterHand(s, h);
    assert s.round * Points(h) == t.round * Points(h) + Points(h) by {
      assert s.round * Points(h) == (t.round + 1) * Points(h);
    }
    assert StepOf(s, actions[0]) == (if t.round <= 0 then Stop(Ended, t) else Continue(t, []));
    if t.round > 0 {
      assert actions[1..] == seq(n - 1, _ => Play(h));
      RepeatedPlayEnds(t, h, n - 1);
    }
  }

  /** A session that starts with all its rounds and only plays hands never falls through:
      after at most TotalRounds plays it has won or ended. */
  lemma {:induction false} PlaysFinish(s: GameState, hands: seq<Hand>)
    requires Valid(s) && s.round > 0 && |hands| >= s.round
    ensures var r := Run(s, seq(|hands|, i requires 0 <= i < |hands| => Play(hands[i])));
      r.outcome in {Won, Ended} && r.used <= s.round
    decreases s.round
  {
    var actions := seq(|hands|, i requires 0 <= i < |hands| => Play(hands[i]));
    var t := AfterHand(s, hands[0]);
    AfterHandValid(s, hands[0]);
    if t.currentScore < t.targetScore && t.round > 0 {
      var tail := hands[1..];
      assert actions[1..] == seq(|tail|, i requires 0 <= i < |tail| => Play(tail[i]));
      PlaysFinish(t, tail);
    }
  }
}
