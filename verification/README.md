# MasterMind in Dafny

A model of the console game MasterMind (`MasterMind.java`, `PegArray.java`).
The computer draws a hidden master code of four pegs. Each peg is one of the
letters A to F, and letters may repeat. The player has ten guesses. After
each guess the whole board is scored: every row that holds a guess is
compared with the master. The comparison counts exact matches (the same
letter in the same slot) and partial matches. The game is won when a row has
four exact matches. It is lost when the turn counter passes ten.

The project has three modules:

- `Scoring` (`scoring.dfy`) holds pure functions that say what a score is.
  `Exact` counts the exact matches. `Unmatched` lists the guess letters in
  non-exact slots. `Partial` sums, over A to F, the smaller of two counts:
  the letter in the master, and the letter among the unmatched guess
  letters. `StandardPartial` is the usual Mastermind rule. It is the same,
  except that it counts only the master letters in non-exact slots. The
  lemmas state what these functions promise, and they also state the step
  facts that the loops of `PegArray` are proved with.
- `Pegs` (`peg_array.dfy`) holds class `PegArray`. It is one row of pegs,
  kept in an `array<char>`. Its methods are proved against `Exact` and
  `Partial`. `GetPartialMatches` keeps the six-entry frequency
  table `freq2`. The loop invariant says that the table equals `Remaining`:
  the master's letter counts minus the entries consumed so far.
- `Game` (`master_mind.dfy`) holds class `MasterMind`, the input check,
  and the turn loop. Two ghost fields, `rows` and `scores`, mirror what the
  guess rows hold (predicate `Coupled`). Three predicates describe the
  game. `Valid` says the board has ten rows that share no object. `Consistent`
  says what the turn loop preserves: played rows, blank rows, scores, and the
  won and lost flags. `History` is the list of guesses stored so far.

A peg is modelled by its letter. A fresh peg holds `' '`. The dice rolls
and the typed lines are parameters. `PlayGame(rolls, inputs)` plays the
whole game on them. It stops when the game is won or lost, or when the
typed lines run out.

## The class comment and the code disagree

The class comment of `MasterMind.java` (lines 11-13) uses the master ABDC
and the guess DBBF as an example. It says this guess has one exact match
(B) and one partial match (D). The code does not compute that.
`getPartialMatches` fills its frequency table with every master letter,
including the letters that were already matched exactly. So the second B of
the guess takes the master's only B, even though the first B already matched
it exactly. The code reports two partial matches. The model follows the
code. Lemma `Scoring.DocExampleAsWritten` proves that the code gives 1 exact
and 2 partial matches for this example, while the standard rule gives 1
partial match. Lemma `Scoring.StandardAtMostPartial` proves that the code
never reports fewer partial matches than the standard rule.
`Scoring.DisplacedExample` and `Scoring.MatchedOnceExample` show two cases
with repeated letters where the code and the standard rule agree.

## Model

| member | source | states |
|---|---|---|
| Pegs.PegArray.constructor | PegArray.java:28-36 | the row has numPegs pegs, all blank, in a fresh array |
| Pegs.PegArray.GetPeg | PegArray.java:43-45 | returns the peg in slot n |
| Pegs.PegArray.SetPeg | PegArray.java:97-99 | slot ind holds p and every other slot keeps its peg |
| Pegs.PegArray.GetExactMatches | PegArray.java:52-58 | exactMatches becomes the number of slots where this row and the master hold the same letter, at most pegnumber |
| Pegs.PegArray.TallyMaster | PegArray.java:68-74 | the fresh table counts, for each letter A..F, its occurrences among the master's first pegnumber pegs |
| Pegs.PegArray.GetPartialMatches | PegArray.java:66-85 | partialMatches becomes Partial of the row against the master: the sum over A..F of min(master count, count among the guess letters in non-exact slots) |
| Pegs.PegArray.GetExact | PegArray.java:89 | returns the stored exact count |
| Pegs.PegArray.GetPartial | PegArray.java:90 | returns the stored partial count |
| Scoring.Exact | PegArray.java:52-58 | the number of slots where the guess and the master hold the same letter, at most the number of pegs; the count getExactMatches stores |
| Scoring.Partial | PegArray.java:66-85 | the partial count as getPartialMatches computes it: over A..F, the smaller of the letter's count in the master's first pegs (exact slots included) and among the guess letters in non-exact slots; its bounds, self-score and relation to the standard rule are the lemmas below |
| Scoring.StandardPartial | MasterMind.java:9-13 | the partial count the class comment describes: as Partial, but counting only the master letters in non-exact slots |
| Scoring.Unmatched | PegArray.java:76-77 | the unmatched guess letters plus the exact matches account for every peg, and they are peg letters when the guess is a code |
| Scoring.ExactPrefix | PegArray.java:54-55 | scoring reads only the first pegnumber pegs of the master |
| Scoring.ExactSymmetric | PegArray.java:54-55 | the exact count is the same whichever row is taken as the master |
| Scoring.ExactAllIff | PegArray.java:52-58 | all pegs are exact matches exactly when the guess equals the master's prefix |
| Scoring.CountSplit | PegArray.java:76-77 | each occurrence of a letter in the guess is an exact match or an unmatched letter |
| Scoring.TallyStep | PegArray.java:72-74 | counting the master peg in slot i raises its table entry by one |
| Scoring.UnmatchedStep | PegArray.java:76-77 | slot i adds its guess letter to the unmatched ones exactly when it differs from the master's |
| Scoring.RemainingEmpty | PegArray.java:67-74 | before the consuming loop the table is the master tally and the count is 0 |
| Scoring.RemainingSnoc | PegArray.java:77-80 | an unmatched letter takes one entry of its letter when one is left, and then the partial count grows by one; entries never go negative |
| Scoring.RemainingTableSnoc | PegArray.java:79 | consuming a letter lowers only that letter's entry, and only while the master holds more of it |
| Scoring.ConsumeStep | PegArray.java:76-81 | one pass of the consuming loop gives the next table and count: an entry is taken exactly when the letter misses its slot and an entry is left |
| Scoring.MinSumSnoc | PegArray.java:77-79 | one more unmatched letter raises the partial sum by one exactly when fewer of it were consumed than the master holds |
| Scoring.ExactPlusPartialBound | PegArray.java:52-85 | exact plus partial matches never exceed the number of pegs |
| Scoring.PartialOfBound | PegArray.java:72-80 | the partial matches of a letter are at most its count in the master and at most its unmatched count in the guess |
| Scoring.SelfScore | PegArray.java:52-85 | a code scored against itself has all pegs exact and no partial match |
| Scoring.StandardLetterTotal | MasterMind.java:9-13 | under the standard rule, a letter's exact plus partial matches equal the smaller of its counts in guess and master |
| Scoring.StandardAtMostPartial | PegArray.java:66-85 | the code's partial count is never below the standard rule's |
| Scoring.DocExampleAsWritten | MasterMind.java:11-13 | for master ABDC and guess DBBF the code gives 1 exact and 2 partial matches, the standard rule 1 partial, and B is credited twice although the master holds one B |
| Scoring.DisplacedExample | PegArray.java:66-85 | master AABB, guess BBAA: 0 exact and 4 partial matches, as the standard rule also gives |
| Scoring.MatchedOnceExample | PegArray.java:66-85 | master AAAA, guess ABBB: 1 exact and 0 partial matches, as the standard rule also gives |
| Scoring.MinSumAlphabet | PegArray.java:68-70 | the sum over the table runs over exactly the six letters A..F |
| Game.CheckInput | MasterMind.java:201-213 | a line is accepted exactly when it has four characters whose lower-case forms lie in a..f, which is exactly when the line has four characters and its upper-cased form is a code; the stored line is the upper-cased input |
| Game.ValidGuess | MasterMind.java:206-211 | the input check: four characters, each lower-cased into a..f |
| Game.ValidGuessIff | MasterMind.java:206-213 | the lower-case check on each character agrees with the upper-cased line being a code |
| Game.Accepted | MasterMind.java:201-217 | the stored guesses are at most as many as the typed lines, and each is a four-letter code |
| Game.AcceptedStep | MasterMind.java:203-216 | one more typed line adds its upper-cased form to the stored guesses exactly when it is accepted |
| Game.MasterCode | MasterMind.java:128-135 | four rolls in 1..6 give a code of four peg letters |
| Game.Scorable | MasterMind.java:177-178 | a row is scored when its first peg is one of the letters A..F |
| Game.Rescore | MasterMind.java:159-163 | scoring the board yields one score per row |
| Game.ConsistentScorable | MasterMind.java:174-184 | in a game in play every row other than the current one that starts with a letter is a full code, so it can be scored |
| Game.AcceptKeepsConsistent | MasterMind.java:75-83 | an accepted guess in a game in play keeps the board consistent, appends the guess to the history, and wins exactly when the guess is the code |
| Game.RescoreAfterStore | MasterMind.java:159-163 | rescoring after one row changed gives each row its own score |
| Game.WonAfterStore | MasterMind.java:193-195 | some row has four exact matches exactly when the latest guess is the code |
| Game.ConsistentOutcome | MasterMind.java:75-88 | a game that stopped was won on its last guess, or lost after ten guesses none of which was the code |
| Game.Outcome | MasterMind.java:75-88 | what a finished game reports about its guesses: rows hold them in order and the rest stay blank with (0, 0); each played row holds its score against the code; won exactly when some guess is the code, which is then the last one, with turn equal to the number of guesses, otherwise turn is one past them; lost exactly when ten guesses were played |
| Game.FinalBoard | MasterMind.java:85-87 | the board after the win decrement meets Outcome for the rows before the turn |
| Game.InitialConsistent | MasterMind.java:47-51 | a fresh board at turn 1 with blank rows is consistent, whatever the code |
| Game.NewRows | MasterMind.java:49-50 | n blank rows of four pegs, no two sharing an object |
| Game.MasterMind.constructor | MasterMind.java:47-51 | a blank master, ten distinct blank rows, turn 1, neither won nor lost |
| Game.MasterMind.GenMasterCode | MasterMind.java:128-135 | the master holds the letter with code roll + 64 for each roll, and no guess row changes |
| Game.MasterMind.PlayTurn | MasterMind.java:223-228 | row turn - 1 holds the first four characters of the stored input, and no other row changes |
| Game.MasterMind.ScoreRow | MasterMind.java:174-196 | a row starting with a letter gets its score against the master, other rows keep theirs; the game is won when the row has four exact matches |
| Game.MasterMind.ScoreBoard | MasterMind.java:140-168 | every row is rescored in order, and the game is won when some row has four exact matches |
| Game.MasterMind.Accept | MasterMind.java:77-82 | the guess is stored and the board scored, the turn advances, and the game is lost once the turn passes ten |
| Game.MasterMind.PlayAccepted | MasterMind.java:75-83 | an accepted guess extends the history by itself, keeps the game consistent, and wins exactly when it is the master |
| Game.MasterMind.Step | MasterMind.java:75-83 | one pass of the loop: the line is checked and stored upper-cased; a rejected line changes no row, score or turn |
| Game.MasterMind.PlayTurns | MasterMind.java:75-83 | the loop stops only when the game is won or lost or the lines run out, and the history is the accepted lines in order |
| Game.MasterMind.Finish | MasterMind.java:85-87 | on a win the turn steps back to the number of guesses used, otherwise it is unchanged; the board then meets Outcome for the guesses played: final scores, blank unplayed rows, won exactly when some guess (the last) is the master, lost exactly after ten guesses |
| Game.MasterMind.PlayGame | MasterMind.java:67-89 | the master comes from the rolls and the game meets Outcome for the accepted lines: those rows hold the lines with their scores against the master, the other rows stay blank with (0, 0), the game is won exactly when some line is the master and stops at the first such line with turn equal to the number of guesses, otherwise turn is one past them, and it is lost exactly when ten guesses were played |

## Left out

- Console output is not modelled: the introduction, the board printout, and the win and loss messages. Only the scoring done while the board is printed (`printGuess`) is kept, as `ScoreRow` and `ScoreBoard`.
- The `reveal` flag and `printPegs` only affect output and are not modelled.
- The initial `printBoard` before the master is drawn is not modelled. It scores nothing, because every row is blank.
- `Prompt.getString` is not part of this model. The typed lines are the parameter `inputs`. Inside a turn, `userInput` asks again after a rejected line. The model handles this by letting `Step` reject the line and the loop move on to the next one.
- `Dice` is not part of this model. The four rolls are the parameter `rolls`, each in 1..6.
- `main` and `FileUtils.java` are not modelled.
- `Game.MasterMind.PlayGame`: it also stops when the typed lines run out. `playGame` would wait for more input.
- `Game.ToLower` and `Game.ToUpper`: `Character.toLowerCase` and `String.toUpperCase` are modelled on the ASCII letters only. The other Unicode case mappings are not modelled.
- `Peg` objects are modelled by their letters. `setPeg` stores a new `Peg` object, and `getPeg` hands out the object itself. So the aliasing of `Peg` objects between rows is not modelled.
- `Pegs.PegArray.GetPartialMatches`: it requires the row and the master to hold letters A..F. With any other letter, the table index `letter - 65` of `getPartialMatches` falls outside the table. The game scores only rows whose first peg is a letter, and it stores only checked input.
- `Pegs.PegArray.TallyMaster`: the first two loops of `getPartialMatches` are a separate method. They run exactly as in `PegArray.java`.
- `Game.MasterMind.constructor`: it states the blank board. The turn-loop invariant (`Consistent`) is established by `PlayGame` once the master is drawn.
