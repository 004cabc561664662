# wordlebot in Dafny

This project models the solver engine of `wordlebot.cpp`, a Wordle bot. It covers five parts:

- **Words** (`words.dfy`). The `FiveLetterWord` struct and its `WordHint` alias. A word is a five-character `seq<char>`. The hint marks `DOES_NOT_EXIST`, `EXISTS_IN_DIFFERENT_SPOT` and `CORRECT` are the characters 0, 1 and 2. A consumed letter is overwritten with 0, as in the source. The module also holds the length-checked constructor, `==`/`!=`, `is_correct`, `to_score`, `to_squares` and `from_hint`.
- **Feedback** (`feedback.dfy`). `evaluate_guess` has a green pass and then a yellow pass over a private copy of the solution. Each matched letter in that copy is consumed.
- **Consistency** (`consistency.dfy`).
  - `IsWordPossible` checks greens, then yellows, then greys, over a copy of the candidate.
  - `FilterWordList` and `FilteredWordListSize` apply that check to a list.
- **Selection** (`selection.dfy`).
  - `BestGuess_Simple` keeps the first guess with the largest summed `to_score`.
  - `BestGuess_Complex` scores each guess by the summed size of the filtered solution list. It keeps a strict `<` minimum for each stride of sixteen guesses, then reduces the sixteen slots with `<=`.
  - `BestGuess` returns the only solution when exactly one remains.
- **Game** (`game.dfy`). `WordleGame` plays the bot against a known solution, starting from ROATE. It counts the guesses and reports 9999 when the bot proposes the guess it has just made.

Each loop of the source is a `method` with its loops and invariants. Each method is proved equal to a specification function that follows the same pass:

- `Greens`/`Yellows`/`Evaluate` for `evaluate_guess`;
- `CheckYellows`/`Possible` for `IsWordPossible`;
- `Filter`, `SimpleTotal`, `PartitionTotal` and `Choice` for the list operations and the selection;
- `Play` for the game.

The properties are proved about those functions. Some of them state properties of the game as a whole:

- The filter is sound: it accepts the evaluator's own hint for the real solution (`EvaluateIsPossible`). It is not complete: it can accept a word under a hint the evaluator would never give for that word (`FilterAcceptsUnreachedHint`).
- On ties between strides, the reduction's `<=` lets the highest stride win. Its second disjunct, which compares indices, can never change the outcome. So the pick is not the lowest-indexed best guess (`TiesGoToHigherStride`).
- `BestGuess_Complex` counts a partition by its plain size. It adds no penalty for an empty partition.

## Model

| member | source | states |
|---|---|---|
| Words.MakeWord | wordlebot.cpp:20-23 | the constructor succeeds exactly on a five-character string and copies it; any other length fails with the offending string |
| Words.Same | wordlebot.cpp:27 | `==` holds exactly when the two words are equal |
| Words.Differ | wordlebot.cpp:28 | `!=` holds exactly when the two words differ |
| Words.IsCorrect | wordlebot.cpp:46-52 | `is_correct` holds exactly when the hint is all CORRECT |
| Words.ToScore | wordlebot.cpp:54-58 | `to_score` returns the sum of the slot values |
| Words.ScoreBounds | wordlebot.cpp:54-58 | a hint made of marks scores between 0 and 10, and scores 10 exactly when it is all CORRECT |
| Words.ToSquares | wordlebot.cpp:34-44 | `to_squares` returns x/Y/G per marked slot and nothing for an unmarked slot |
| Words.SquaresRoundTrip | wordlebot.cpp:34-44 | printing a hint made of marks gives five squares, and `from_hint` reads them back as the same hint |
| Words.FromHint | wordlebot.cpp:63-71 | `from_hint` maps x/X, y/Y and g/G to the three marks, slot by slot, and leaves the default ' ' for any other character |
| Words.HintRoundTrip | wordlebot.cpp:63-71 | reading a hint string over xXyYgG and printing it gives back the string in its printed spelling (x, Y, G) |
| Feedback.Find | wordlebot.cpp:87-93 | the inner search stops at the first unconsumed copy of the letter, or runs off the end when there is none |
| Feedback.EvaluateGuess | wordlebot.cpp:73-98 | `evaluate_guess` returns the hint that the green pass and then the yellow pass (first unconsumed copy, consumed on use) define |
| Feedback.EvaluateMarks | wordlebot.cpp:73-98 | each slot of an evaluation is a mark, and it is CORRECT exactly when guess and solution agree there |
| Feedback.EvaluateSolved | wordlebot.cpp:46-98 | `is_correct(evaluate_guess(g, s))` holds exactly when g equals s |
| Feedback.YellowsCount | wordlebot.cpp:84-95 | every mark handed out consumes one copy of its letter: marked letters plus unconsumed letters equal the solution's letters |
| Feedback.EvaluateLetterMarks | wordlebot.cpp:73-98 | a letter gets as many CORRECT or Present marks as the smaller of its counts in guess and solution, never more than the solution has |
| Consistency.IsWordPossible | wordlebot.cpp:101-137 | `IsWordPossible` rejects a CORRECT slot with a different letter; a Present slot whose letter still sits at that slot of the working copy; a Present slot with no unconsumed copy; and an Absent slot whose letter is still unconsumed. It accepts otherwise |
| Consistency.RejectionSticks | wordlebot.cpp:110-124 | once the yellow pass has rejected, later slots cannot undo it, which is the early return |
| Consistency.FilterTracksEvaluator | wordlebot.cpp:101-124 | under the evaluator's own hint, the filter's working copy equals the evaluator's consumed copy after every slot |
| Consistency.EvaluateIsPossible | wordlebot.cpp:101-137 | soundness: `IsWordPossible(evaluate_guess(g, w), g, w)` holds whenever g has no 0 letter |
| Consistency.CheckYellowsInv | wordlebot.cpp:103-124 | while the filter has not rejected, its copy holds each candidate letter or 0, and marked plus unconsumed letters equal the candidate's letters |
| Consistency.PossibleMeans | wordlebot.cpp:101-137 | an accepted candidate matches every CORRECT slot, has each Present letter at another non-CORRECT position, has each marked letter at least as often as it is marked, and exactly that often when the letter is also under an Absent slot |
| Consistency.UnmarkedSlotIgnored | wordlebot.cpp:101-137 | a hint slot holding no mark (from_hint's ' ') constrains nothing: changing the guess letter there does not change the answer |
| Consistency.FilterAcceptsUnreachedHint | wordlebot.cpp:110-133 | incompleteness: for any letters a, b, c, d, z, q as in AABCD/ZAAQQ/ZZAAZ, the candidate zaaqq passes hint YYxxx for guess aabcd, a hint evaluate_guess gives for solution zzaaz but not for zaaqq |
| Consistency.Filter | wordlebot.cpp:139-147 | the filtered list is never longer than the input |
| Consistency.FilterSelects | wordlebot.cpp:139-147 | the filtered list is an order-preserving subsequence holding every copy of each accepted word and nothing else |
| Consistency.FilterIdempotent | wordlebot.cpp:139-147 | filtering twice with the same hint and guess is filtering once |
| Consistency.FilterKeepsAll | wordlebot.cpp:139-147 | the filter keeps the whole list exactly when it accepts every word |
| Consistency.SolutionSurvives | wordlebot.cpp:139-147 | the solution survives the filter built from its own evaluation |
| Consistency.FilterWordList | wordlebot.cpp:139-147 | `FilterWordList` returns the filtered list |
| Consistency.FilteredWordListSize | wordlebot.cpp:149-157 | `FilteredWordListSize` returns the filtered list's length |
| Selection.SimpleTotalOf | wordlebot.cpp:165-169 | the inner loop sums `to_score` of the evaluation against each solution |
| Selection.SimpleTotalBounds | wordlebot.cpp:165-169 | a guess's total lies between 0 and 10 per solution |
| Selection.BestGuessSimple | wordlebot.cpp:159-178 | returns the blank word when no total is positive; otherwise the first guess whose total is strictly the largest |
| Selection.PartitionTotalOf | wordlebot.cpp:196-205 | the inner loop sums the filtered-list size over the solutions different from the guess |
| Selection.PartitionTotalBounds | wordlebot.cpp:196-205 | a guess's score is at most solutions squared; each solution other than the guess adds at least 1 |
| Selection.FirstRankedBeats | wordlebot.cpp:231-238 | the reference choice ranks before every other index: smaller score, else higher stride, else smaller index |
| Selection.Choice | wordlebot.cpp:180-242 | the picked index has the smallest score, the highest stride among those, and the first index within that stride |
| Selection.ChoiceUnique | wordlebot.cpp:180-242 | those three properties determine the index |
| Selection.TiesGoToHigherStride | wordlebot.cpp:234 | with two equally scored guesses, the second one is picked |
| Selection.ScanStep | wordlebot.cpp:207-210 | one guess of a stride's scan keeps the first minimum of the stride so far (strict `<`) |
| Selection.ScanMeets | wordlebot.cpp:194-210 | after a stride's scan has visited its first n guesses, the slot holds the first of them with the smallest score, or INT_MAX when it has visited none |
| Selection.ScanStride | wordlebot.cpp:194-213 | one thread's loop leaves in its slot the first smallest-scoring guess of its stride (or INT_MAX and the untouched index when the stride is empty) and leaves the other slots alone |
| Selection.ReductionPicksChoice | wordlebot.cpp:230-238 | the reduction's survivor is the reference choice |
| Selection.BestGuessComplex | wordlebot.cpp:180-242 | `BestGuess_Complex` returns the guess at the reference choice |
| Selection.BestGuess | wordlebot.cpp:255-259 | `BestGuess` returns the single solution when one remains, otherwise a guess whose score no other guess beats |
| Game.WordleGame | wordlebot.cpp:306-343 | the loop returns the outcome of the round-by-round game: the guess count at the first all-CORRECT hint, 9999 when the next guess repeats the last |
| Game.OpeningWins | wordlebot.cpp:306-316 | the game takes one guess exactly when the solution is ROATE |
| Game.PlayCountBound | wordlebot.cpp:306-343 | a finished game's count is 9999 or lies between the guesses already made plus one and the rounds the fuel allows |
| Game.SolutionNeverFiltered | wordlebot.cpp:319-324 | a solution among the candidates stays in every list the game filters down to, so no such list is empty |
| Game.LastCandidateWins | wordlebot.cpp:306-343 | when the filter leaves a single candidate and the solution was among them, the game ends on this guess or the next |

## Left out

- `LoadWordList` (wordlebot.cpp:244-253): file input and upper-casing; the word lists are parameters.
- `WordleBot` (wordlebot.cpp:261-304): the interactive console loop. It reads hints from standard input and prints results. Note its order: it aborts on an empty list before it checks for the solved hint.
- `WordleBenchmark` and `main` (wordlebot.cpp:345-377): console output and a floating-point average.
- Threads, atomic counters and the progress loop of `BestGuess_Complex` (wordlebot.cpp:188-228). Each thread writes only its own slot, so the strides run one after the other in the model.
- All console output of `WordleGame` (its `output` flag) and of the selection functions (`show_progress`).
- Selection.BestGuessComplex: requires a non-empty guess list, because the source reads an uninitialised index slot when there is no guess. It also requires solutions squared below INT_MAX, so that no score overflows `int`; scores are unbounded integers.
- Selection.BestGuess: carries the same two requirements when more than one solution remains.
- Selection.BestGuessSimple: scores are unbounded integers, so `int` overflow of the summed totals is not modelled.
- Words.FromHint: requires at least five characters. For a four-character string the source reads the terminating character at index 4 and leaves slot 4 blank; strings shorter than four characters are undefined behaviour. The only caller (wordlebot.cpp:282) passes exactly five, having checked the length at wordlebot.cpp:278.
- Game.WordleGame: the source loop has no bound and need not terminate. The model plays at most fuel + 1 rounds and reports OutOfFuel beyond that. It also requires the solutions-squared bound of BestGuess for the initial list, and a non-empty guess list even for games the source finishes without consulting it (the solution is ROATE, or every filtered list holds a single word).
- Characters are unbounded code points here. The source's signed `char` is not modelled. The marks 0, 1 and 2 and the consumed 0 are the same values in both.
- Consistency.EvaluateIsPossible: only the direction "evaluator's hint ⇒ accepted" holds. The converse fails, as `FilterAcceptsUnreachedHint` shows.
