# Bejeweled 3 poker score tracker — a Dafny model

This project models the core of a small terminal helper for the poker mode of
Bejeweled 3. The player enters a target score. For up to ten rounds they then record
which poker hand each round produced. Each hand adds its fixed points to the score and
appends a line to the session ledger. The player can also nudge the score by +50 or -50
(never below zero), ask for an analysis screen, or quit. The session is won as soon as
a play brings the score to the target. It ends when the last round is used without
reaching the target.

The analysis screen answers one question: which single hand type, played repeatedly,
still reaches the target in the rounds left, and how many plays does each need? For
every hand the quantity is the ceiling of (missing points / hand points). Hands whose
quantity exceeds the rounds left are dropped. The rest are sorted by quantity, and the
screen lists the first five.

The model is split by what the program does:

- `hands.dfy` (module `Hands`): the fixed hand table, the ten-round limit and the 50-point
  adjustment.
- `projection.dfy` (module `Projection`): the remaining-hands projection and the analysis
  screen, as pure functions. The sort is modelled as a stable insertion sort, as the
  JavaScript `Array.prototype.sort` is stable.
- `session.dfy` (module `Session`): the session record as a value, its transitions, the
  session invariant, and the game loop as a function `Run` of the starting record and the
  sequence of menu choices.
- `engine.dfy` (module `Engine`): the mutable session record as a class `Game`. Its methods
  update the fields in place, and the game loop is a `while` loop. Every method is proved
  against the functions of `Session`.
- `scenarios.dfy` (module `Scenarios`): worked sessions stated on those functions.

A main result of the projection part: points strictly decrease along the table's
declaration order, and the ceiling quotient can only grow as the divisor shrinks. So the
candidate list is already in ascending quantity before the sort. The sort therefore
changes nothing, and the fitting hands are always the first k declared hands. Ties in
quantity keep declaration order (`RemainingHandsInDeclaredOrder`, `RemainingHandsOrder`).

## Model

| member | source | states |
|---|---|---|
| Hands.Points | src/cli.js:9-17 | every hand in the table is worth a positive number of points |
| Hands.Rank | src/cli.js:9-17 | each hand has a position in the table's declaration order, and the table holds that hand there |
| Hands.DeclaredOnce | src/cli.js:9-17 | the table lists every hand, and lists each exactly once |
| Hands.PointsDescending | src/cli.js:10-16 | points strictly decrease along the declaration order (750, 500, 350, 200, 150, 100, 50) |
| Hands.NamesDistinct | src/cli.js:10-16 | two hands have the same display name exactly when they are the same hand, so a ledger name identifies its hand |
| Projection.CeilDiv | src/cli.js:75 | the quantity for a positive shortfall is at least 1, reaches the shortfall, and one play fewer would not |
| Projection.CeilDivLeast | src/cli.js:75 | no smaller number of plays than the quantity reaches the shortfall |
| Projection.CeilDivExact | src/cli.js:75 | the quantity is the one number q with q plays reaching the shortfall and q - 1 not |
| Projection.CeilDivAntitone | src/cli.js:75 | a hand worth more never needs more plays than a hand worth less |
| Projection.MakeCombination | src/cli.js:74-83 | a candidate carries its hand's name and points, a quantity of at least 1, a total of quantity × points that covers the shortfall, and a total that one play fewer would not cover |
| Projection.CombineAll | src/cli.js:74-83 | one candidate per hand, in the order of the hands given |
| Projection.Combine | src/cli.js:74-83 | the candidate list has one entry per declared hand, and entry i is the candidate of the i-th declared hand |
| Projection.KeepFitting | src/cli.js:86 | the filter never lengthens the list (which entries it keeps, and in what order: KeepFittingMembers, KeepFittingPrefix) |
| Projection.Insert | src/cli.js:87 | inserting one entry lengthens the list by exactly one (where it goes: InsertSorted, InsertPermutes, InsertWithQuantity) |
| Projection.SortByQuantity | src/cli.js:87 | the sort keeps the length of the list (order, contents and stability: SortSorted, SortPermutes, SortStable) |
| Projection.KeepFittingMembers | src/cli.js:86 | an entry survives the filter exactly when it was there and its quantity is at most the rounds left |
| Projection.KeepFittingPrefix | src/cli.js:85-86 | filtering a list ascending in quantity keeps a prefix of it |
| Projection.KeepFittingNone | src/cli.js:86 | when every entry needs more plays than there are rounds, the filter keeps nothing |
| Projection.InsertSorted | src/cli.js:87 | inserting into a list ascending in quantity keeps it ascending |
| Projection.InsertWithQuantity | src/cli.js:87 | inserting an entry keeps the order of the entries of every quantity, and puts the new entry before those of its own quantity |
| Projection.InsertPermutes | src/cli.js:87 | insertion adds exactly the new entry to the multiset of entries |
| Projection.SortSorted | src/cli.js:87 | the sorted list is ascending by quantity |
| Projection.SortPermutes | src/cli.js:87 | the sorted list is a permutation of its input |
| Projection.SortStable | src/cli.js:87 | the sort is stable: for every quantity, the entries with that quantity keep their input order |
| Projection.SortOfSorted | src/cli.js:87 | sorting a list that is already ascending by quantity changes nothing |
| Projection.CombineSorted | src/cli.js:74-87 | the candidate list in table order is already ascending by quantity |
| Projection.SortOfFittingPrefix | src/cli.js:85-87 | for an ascending list, sorting the fitting entries changes nothing, and they are a prefix of the list |
| Projection.TableFitting | src/cli.js:74-87 | on the hand table the sort is the identity, and the fitting candidates are the first k candidates |
| Projection.CombineEntries | src/cli.js:74-83 | entry i of the candidate list is the candidate of the i-th declared hand |
| Projection.TableFittingSound | src/cli.js:74-86 | every fitting candidate is its own hand's candidate and fits in the rounds left |
| Projection.TableFittingDistinct | src/cli.js:74-86 | no hand is listed twice among the fitting candidates |
| Projection.CombineHasCandidate | src/cli.js:74-83 | every hand's candidate is in the list, and it is the only entry for that hand |
| Projection.FittingHasHand | src/cli.js:86 | if a hand has one entry in a list, the filter keeps an entry for that hand exactly when that entry fits |
| Projection.TableFittingComplete | src/cli.js:74-86 | a hand is among the fitting candidates exactly when its quantity is at most the rounds left |
| Projection.TableFittingOrder | src/cli.js:74-87 | the fitting candidates ascend by quantity, with ties in declaration order |
| Projection.RemainingHands | src/cli.js:69-72 | the projection is null exactly when the score already meets the target |
| Projection.RemainingHandsInDeclaredOrder | src/cli.js:69-88 | when points are missing, the projection is the fitting candidates in table order (the sort changes nothing) |
| Projection.RemainingHandsSound | src/cli.js:69-88 | every listed entry is its hand's candidate for the shortfall (its least sufficient quantity) and fits in the rounds left |
| Projection.RemainingHandsComplete | src/cli.js:69-88 | a hand is listed exactly when the ceiling of shortfall over its points is at most the rounds left, and at most once |
| Projection.RemainingHandsOrder | src/cli.js:85-87 | listed entries ascend by quantity, with ties in declaration order |
| Projection.Analyze | src/cli.js:94-113 | success exactly when the score meets the target; "impossible" exactly when the projection is empty; otherwise the screen shows the first min(5, length) entries of the projection |
| Session.Initial | src/cli.js:26-31 | the record at start-up has a zero score, all ten rounds, an empty ledger, and satisfies the session invariant |
| Session.Started | src/cli.js:181-184 | after the target is entered, the record holds that target, a zero score, ten rounds and an empty ledger, and satisfies the invariant |
| Session.AfterHand | src/cli.js:118-130 | a play keeps the target, adds the hand's points, uses one round, keeps every old ledger line, and appends a line with the hand's name, points and new score |
| Session.AfterAdjust | src/cli.js:132-133 | an adjustment moves the score by the amount unless that would go negative, in which case the score becomes 0; rounds, target and ledger are unchanged |
| Session.AfterHandValid | src/cli.js:118-130 | a play in a live session keeps the session invariant |
| Session.AfterAdjustValid | src/cli.js:132-133 | an adjustment keeps the session invariant |
| Session.StepOf | src/cli.js:191-229 | quit stops at once with the record unchanged; analysis goes on with the record unchanged and shows the analysis screen of that record; +50 and -50 go on with the score adjusted as `adjustScore` does (so no round used, ledger untouched); after a play the win check (score ≥ target) comes before the end check (no rounds left) |
| Session.Run | src/cli.js:187-232 | the loop reads at most the choices given, keeps the target, never gains rounds, and uses one round per ledger line it adds |
| Session.RunContinues | src/cli.js:188-230 | a loop pass that goes on leaves the whole run equal to the run from the new record on the remaining choices |
| Session.RunStops | src/cli.js:192-227 | a loop pass that returns fixes the outcome, the final record and the number of choices read |
| Session.RunValid | src/cli.js:187-232 | a whole session keeps the invariant: score never negative, rounds in [0, 10], one ledger line per round used, each line written by a play |
| Session.RunAppendsLedger | src/cli.js:122-126 | the ledger is append-only: a session only adds lines after the existing ones |
| Session.RunOutcome | src/cli.js:187-232 | a win meets the target; an end misses it with no rounds left; quitting leaves rounds; the loop returns nothing exactly when entered with no rounds |
| Session.QuitEndsAtOnce | src/cli.js:192-194 | quitting ends the session on that choice and changes nothing |
| Session.WinBeforeEnd | src/cli.js:213-227 | a play that reaches the target wins even when it uses the last round |
| Session.RepeatedPlayEnds | src/cli.js:213-227 | playing one hand every remaining round while falling short ends the session with no rounds left and the score grown by the hand's points each round |
| Session.PlaysFinish | src/cli.js:187-232 | a session of hand plays only is won or ended within the rounds it had |
| Engine.Game.constructor | src/cli.js:26-31 | a new record is the start-up record |
| Engine.Game.InitGame | src/cli.js:165-185 | with a positive target, the record becomes the started record for that target |
| Engine.Game.ResetGameState | src/cli.js:234-241 | the record goes back to the start-up record |
| Engine.Game.AddHand | src/cli.js:118-130 | the fields become the record after that play, and the invariant is kept when a round was left |
| Engine.Game.AdjustScore | src/cli.js:132-135 | the fields become the record after that adjustment, and the invariant is kept |
| Engine.Game.GameLoop | src/cli.js:187-232 | the in-place loop returns the outcome, final record, number of choices read and screens shown that `Run` gives for the starting record, and keeps the invariant |
| Engine.Game.PlaySession | src/cli.js:243-246 | a session entered with a positive target ends as `Run` from the started record says, satisfies the invariant, and never falls through the loop |
| Scenarios.ThreeThousandFromZero | src/cli.js:69-88 | with target 3000, score 0 and 10 rounds, Flush is listed with quantity 4 (total 3000) and Pair (60 plays) is not listed |
| Scenarios.ThreeFlushesReach2250 | src/cli.js:118-130 | three Flushes towards 3000 leave the session live at 2250 points, seven rounds left, three ledger lines |
| Scenarios.TopEntryAfterThreeFlushes | src/cli.js:94-113 | at score 2250 of 3000 with 7 rounds left, the first entry on the analysis screen is 1 × Flush |
| Scenarios.FlushesWinOnTheFourth | src/cli.js:211-220 | five Flushes offered towards 3000: the fourth wins with 6 rounds left, and the fifth is never read |
| Scenarios.PairsRunOutOfRounds | src/cli.js:222-227 | ten Pairs towards 1000 end the session with score 500 and no rounds left |

## Left out

- Terminal I/O is not modelled: the header, the status lines, the progress percentage, the ledger printout and the "press Enter" pauses only print. The model keeps what the analysis screen shows (`AnalysisView`) and drops the wording.
- Choices are read from a prompt in the program. Here the player's choices are a finite sequence of `Action` values given to the loop. When the sequence runs out with rounds left, the loop returns `AwaitingInput`, which the program has no counterpart for: it would wait for the next choice.
- The target prompt and its validation are not modelled. The program converts the input with `Number` and accepts anything greater than 0, which includes fractions and `Infinity` (with an infinite target no hand is ever listed and the session cannot be won). The model takes the target as an `int` with `target > 0` as a precondition, so non-integer and non-finite targets are not modelled.
- Numbers are JavaScript doubles in the program. The model uses unbounded integers, so `Math.ceil` on a floating quotient becomes an exact integer ceiling. Scores and targets that would lose precision as doubles are out of scope.
- `main` is not modelled beyond one session: the replay prompt, the recursive restart and the `try`/`catch` that prints an error and exits are I/O and process control. `PlaySession` models one `initGame` followed by `gameLoop`, and `ResetGameState` models the reset done before a replay.
- `async`/`await` sequencing is dropped; each step runs to completion in order.
- The hand keys (`flush`, `fourOfAKind`, ...) are not modelled as strings; a closed datatype `Hand` replaces them, so an unknown key cannot reach `addHand`.
- When the loop is entered with no rounds, the program's loop returns nothing; the model names that outcome `FellThrough`.
