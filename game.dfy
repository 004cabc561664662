/** WordleGame: plays the bot against a known solution, starting from ROATE,
    and counts the guesses. */
module Game {
  import opened Words
  import opened Feedback
  import opened Consistency
  import opened Selection

  /** The fixed opening guess. */
  const Opening: Word := "ROATE"

  /** The count reported when the bot proposes the guess it has just made. */
  const Stalled: int := 9999

  /** How a game ends: with a number of guesses, or with the fuel bound spent
      (the source's loop has no bound of its own). */
  datatype Outcome = Took(guesses: int) | OutOfFuel

  /** The game from a given guess on: guesses made so far, the current pool of
      candidate solutions, and the fuel left for further rounds. */
  function Play(solution: Word, allWords: seq<Word>, guess: Word, pool: seq<Word>, guesses: nat, fuel: nat): Outcome
    requires |allWords| > 0
    decreases fuel
  {
    var n := guesses + 1;
    var hint := Evaluate(guess, solution);
    if hint == AllGreen then Took(n)
    else
      var remaining := Filter(hint, guess, pool);
      var next := Pick(allWords, remaining);
      if next == guess then Took(Stalled)
      else if fuel == 0 then OutOfFuel
      else Play(solution, allWords, next, remaining, n, fuel - 1)
  }

  /** A whole game: ROATE first, every solution a candidate. */
  function Game(solution: Word, allWords: seq<Word>, possibleWords: seq<Word>, fuel: nat): Outcome
    requires |allWords| > 0
  {
    Play(solution, allWords, Opening, possibleWords, 0, fuel)
  }

  /** The candidate lists the game filters down to, one per round that
      reaches the filter. */
  function Pools(solution: Word, allWords: seq<Word>, guess: Word, pool: seq<Word>, fuel: nat): seq<seq<Word>>
    requires |allWords| > 0
    decreases fuel
  {
    var hint := Evaluate(guess, solution);
    if hint == AllGreen then []
    else
      var remaining := Filter(hint, guess, pool);
      var next := Pick(allWords, remaining);
      if next == guess || fuel == 0 then [remaining]
      else [remaining] + Pools(solution, allWords, next, remaining, fuel - 1)
  }

  /** A solution among the candidates is never filtered out, so no list the
      game filters down to is empty. */
  lemma {:induction false} SolutionNeverFiltered(solution: Word, allWords: seq<Word>, guess: Word, pool: seq<Word>, fuel: nat)
    requires |allWords| > 0 && NonNul(guess) && solution in pool
    requires forall w | w in allWords :: NonNul(w)
    requires forall w | w in pool :: NonNul(w)
    decreases fuel
    ensures forall p | p in Pools(solution, allWords, guess, pool, fuel) :: solution in p
  {
    var hint := Evaluate(guess, solution);
    if hint != AllGreen {
      var remaining := Filter(hint, guess, pool);
      var next := Pick(allWords, remaining);
      SolutionSurvives(guess, solution, pool);
      FilterSelects(hint, guess, pool);
      assert forall w | w in remaining :: w in pool by {
        forall w | w in remaining ensures w in pool {
          assert multiset(remaining)[w] > 0;
        }
      }
      if next != guess && fuel > 0 {
        if |remaining| == 1 {
          assert next in remaining;
        } else {
          assert next in allWords;
        }
        SolutionNeverFiltered(solution, allWords, next, remaining, fuel - 1);
      }
    }
  }

  lemma SquareMono(a: nat, b: nat)
    requires a <= b
    ensures a * a <= b * b
  {
    assert a * a <= a * b;
  }

  /** One round of Play that neither wins nor stalls. */
  lemma PlayRound(solution: Word, allWords: seq<Word>, guess: Word, pool: seq<Word>, guesses: nat, fuel: nat,
                  remaining: seq<Word>, next: Word, nextGuesses: nat, nextFuel: nat)
    requires |allWords| > 0 && fuel == nextFuel + 1 && nextGuesses == guesses + 1
    requires Evaluate(guess, solution) != AllGreen
    requires remaining == Filter(Evaluate(guess, solution), guess, pool)
    requires next == Pick(allWords, remaining) && next != guess
    ensures Play(solution, allWords, guess, pool, guesses, fuel) == Play(solution, allWords, next, remaining, nextGuesses, nextFuel)
  {
  }

  /** WordleGame, with at most fuel + 1 rounds. */
  method WordleGame(solution: Word, allWords: seq<Word>, possibleWords: seq<Word>, fuel: nat) returns (outcome: Outcome)
    requires |allWords| > 0 && |possibleWords| * |possibleWords| < IntMax
    ensures outcome == Game(solution, allWords, possibleWords, fuel)
  {
    var guess := Opening;
    var solutions: seq<Word> := [];
    var guesses := 0;
    var f := fuel;
    ghost var pool := possibleWords;
    ghost var target := Game(solution, allWords, possibleWords, fuel);
    while true
      invariant 0 <= guesses
      invariant guesses > 0 ==> pool == solutions
      invariant guesses == 0 ==> pool == possibleWords
      invariant |pool| <= |possibleWords|
      invariant Play(solution, allWords, guess, pool, guesses, f) == target
      decreases f
    {
      ghost var round, fuelLeft := guesses, f;
      guesses := guesses + 1;
      var hint := EvaluateGuess(guess, solution);
      var solved := IsCorrect(hint);
      if solved {
        return Took(guesses);
      }
      if guesses == 1 {
        solutions := FilterWordList(hint, guess, possibleWords);
      } else {
        solutions := FilterWordList(hint, guess, solutions);
      }
      assert solutions == Filter(hint, guess, pool);
      SquareMono(|solutions|, |possibleWords|);
      var newGuess := BestGuess(allWords, solutions);
      if Same(newGuess, guess) {
        return Took(Stalled);
      }
      if f == 0 {
        return OutOfFuel;
      }
      f := f - 1;
      PlayRound(solution, allWords, guess, pool, round, fuelLeft, solutions, newGuess, guesses, f);
      guess := newGuess;
      pool := solutions;
    }
  }

  /** The game ends on the first guess exactly when the solution is ROATE. */
  lemma OpeningWins(solution: Word, allWords: seq<Word>, possibleWords: seq<Word>, fuel: nat)
    requires |allWords| > 0
    ensures Game(solution, allWords, possibleWords, fuel) == Took(1) <==> solution == Opening
  {
    EvaluateSolved(Opening, solution);
    if fuel > 0 {
      var remaining := Filter(Evaluate(Opening, solution), Opening, possibleWords);
      PlayCountBound(solution, allWords, Pick(allWords, remaining), remaining, 1, fuel - 1);
    }
  }

  /** A finished game counts one guess per round played, at most one more than
      the rounds the fuel allows, unless it stalled. */
  lemma {:induction false} PlayCountBound(solution: Word, allWords: seq<Word>, guess: Word, pool: seq<Word>, guesses: nat, fuel: nat)
    requires |allWords| > 0
    decreases fuel
    ensures Play(solution, allWords, guess, pool, guesses, fuel).Took? ==>
      var n := Play(solution, allWords, guess, pool, guesses, fuel).guesses;
      n == Stalled || guesses < n <= guesses + fuel + 1
  {
    if fuel > 0 {
      var hint := Evaluate(guess, solution);
      var remaining := Filter(hint, guess, pool);
      PlayCountBound(solution, allWords, Pick(allWords, remaining), remaining, guesses + 1, fuel - 1);
    }
  }

  /** When the solution is a candidate and the filter leaves a single word,
      the game ends on this guess or the next: the survivor is the solution. */
  lemma LastCandidateWins(solution: Word, allWords: seq<Word>, guess: Word, pool: seq<Word>, guesses: nat, fuel: nat)
    requires |allWords| > 0 && fuel > 0
    requires NonNul(guess) && solution in pool
    requires |Filter(Evaluate(guess, solution), guess, pool)| == 1
    ensures Play(solution, allWords, guess, pool, guesses, fuel) ==
      if guess == solution then Took(guesses + 1) else Took(guesses + 2)
  {
    var hint := Evaluate(guess, solution);
    EvaluateSolved(guess, solution);
    var remaining := Filter(hint, guess, pool);
    SolutionSurvives(guess, solution, pool);
    assert remaining == [solution];
    EvaluateSolved(solution, solution);
  }
}
