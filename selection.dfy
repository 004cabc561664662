/** Guess selection: BestGuess_Simple (largest summed to_score),
    BestGuess_Complex (smallest summed partition size, computed per stride of
    sixteen and then reduced) and BestGuess, which short-circuits on a single
    remaining solution. */
module Selection {
  import opened Words
  import opened Feedback
  import opened Consistency

  /** The number of strides BestGuess_Complex splits the guesses into. */
  const Threads: nat := 16

  /** INT_MAX, the sentinel score of a stride that has seen no guess. */
  const IntMax: int := 0x7fff_ffff

  // ---------------------------------------------------------------------------
  // BestGuess_Simple

  /** The sum, over the solutions, of to_score of the guess's evaluation. */
  function SimpleTotal(guess: Word, solutions: seq<Word>): int
  {
    if solutions == [] then 0
    else
      var n := |solutions| - 1;
      SimpleTotal(guess, solutions[..n]) + Score(Evaluate(guess, solutions[n]))
  }

  function SimpleTotals(guesses: seq<Word>, solutions: seq<Word>): seq<int>
  {
    seq(|guesses|, i requires 0 <= i < |guesses| => SimpleTotal(guesses[i], solutions))
  }

  /** Each solution adds between 0 and 10. */
  lemma {:induction false} SimpleTotalBounds(guess: Word, solutions: seq<Word>)
    ensures 0 <= SimpleTotal(guess, solutions) <= 10 * |solutions|
  {
    if solutions != [] {
      var n := |solutions| - 1;
      SimpleTotalBounds(guess, solutions[..n]);
      EvaluateMarks(guess, solutions[n]);
      ScoreBounds(Evaluate(guess, solutions[n]));
    }
  }

  /** The inner loop of BestGuess_Simple. */
  method SimpleTotalOf(guess: Word, solutions: seq<Word>) returns (total: int)
    ensures total == SimpleTotal(guess, solutions)
  {
    total := 0;
    for j := 0 to |solutions|
      invariant total == SimpleTotal(guess, solutions[..j])
    {
      assert solutions[..j + 1][..j] == solutions[..j];
      var hint := EvaluateGuess(guess, solutions[j]);
      var score := ToScore(hint);
      total := total + score;
    }
    assert solutions[..|solutions|] == solutions;
  }

  /** k is the first index holding the largest total, and that total is positive. */
  predicate IsSimpleChoice(totals: seq<int>, k: int)
  {
    0 <= k < |totals| && totals[k] > 0 &&
    (forall j | 0 <= j < |totals| :: totals[j] <= totals[k]) &&
    (forall j | 0 <= j < k :: totals[j] < totals[k])
  }

  /** BestGuess_Simple: keeps the first guess whose total strictly beats the
      best so far, starting from 0 and the blank word. */
  method BestGuessSimple(guesses: seq<Word>, solutions: seq<Word>) returns (best: Word)
    ensures (forall i | 0 <= i < |guesses| :: SimpleTotal(guesses[i], solutions) <= 0) ==> best == Blank
    ensures (exists i | 0 <= i < |guesses| :: SimpleTotal(guesses[i], solutions) > 0) ==>
      exists k :: IsSimpleChoice(SimpleTotals(guesses, solutions), k) && best == guesses[k]
  {
    ghost var totals := SimpleTotals(guesses, solutions);
    ghost var bestK := -1;
    var bestScore := 0;
    best := Blank;
    for i := 0 to |guesses|
      invariant bestK == -1 ==> bestScore == 0 && best == Blank && forall j | 0 <= j < i :: totals[j] <= 0
      invariant bestK != -1 ==>
        0 <= bestK < i && best == guesses[bestK] && bestScore == totals[bestK] > 0 &&
        (forall j | 0 <= j < i :: totals[j] <= bestScore) &&
        (forall j | 0 <= j < bestK :: totals[j] < bestScore)
    {
      var score := SimpleTotalOf(guesses[i], solutions);
      if score > bestScore {
        bestScore := score;
        best := guesses[i];
        bestK := i;
      }
    }
    if bestK != -1 {
      assert IsSimpleChoice(totals, bestK);
    }
  }

  // ---------------------------------------------------------------------------
  // BestGuess_Complex

  /** The sum, over the hypothesised solutions that differ from the guess, of
      how many words of the pool survive the guess's evaluation against them. */
  function PartitionTotal(guess: Word, hypotheses: seq<Word>, pool: seq<Word>): int
  {
    if hypotheses == [] then 0
    else
      var n := |hypotheses| - 1;
      var actual := hypotheses[n];
      PartitionTotal(guess, hypotheses[..n], pool) +
        (if Differ(guess, actual) then |Filter(Evaluate(guess, actual), guess, pool)| else 0)
  }

  /** The score BestGuess_Complex gives each guess. */
  function ComplexScores(guesses: seq<Word>, solutions: seq<Word>): (r: seq<int>)
    ensures |r| == |guesses|
  {
    if guesses == [] then []
    else
      var n := |guesses| - 1;
      ComplexScores(guesses[..n], solutions) + [PartitionTotal(guesses[n], solutions, solutions)]
  }

  /** Entry i is the score of guess i. */
  lemma {:induction false} ComplexScoresAt(guesses: seq<Word>, solutions: seq<Word>, i: nat)
    requires i < |guesses|
    ensures ComplexScores(guesses, solutions)[i] == PartitionTotal(guesses[i], solutions, solutions)
  {
    var n := |guesses| - 1;
    if i < n {
      ComplexScoresAt(guesses[..n], solutions, i);
    }
  }

  /** Every hypothesis other than the guess adds at least 1 (the hypothesis
      survives its own filter) and at most the pool's size. */
  lemma {:induction false} PartitionTotalBounds(guess: Word, hypotheses: seq<Word>, pool: seq<Word>)
    ensures 0 <= PartitionTotal(guess, hypotheses, pool) <= |hypotheses| * |pool|
    ensures NonNul(guess) && (forall h | h in hypotheses :: h in pool) ==>
      |hypotheses| - multiset(hypotheses)[guess] <= PartitionTotal(guess, hypotheses, pool)
  {
    if hypotheses != [] {
      var n := |hypotheses| - 1;
      var actual := hypotheses[n];
      PartitionTotalBounds(guess, hypotheses[..n], pool);
      assert hypotheses == hypotheses[..n] + [actual];
      assert (n + 1) * |pool| == n * |pool| + |pool|;
      if NonNul(guess) && (forall h | h in hypotheses :: h in pool) && actual != guess {
        SolutionSurvives(guess, actual, pool);
      }
    }
  }

  /** No score reaches the INT_MAX sentinel while solutions squared stays below it. */
  lemma ScoreFits(guess: Word, solutions: seq<Word>)
    requires |solutions| * |solutions| < IntMax
    ensures PartitionTotal(guess, solutions, solutions) < IntMax
  {
    PartitionTotalBounds(guess, solutions, solutions);
  }

  /** The inner loop of BestGuess_Complex for one guess. */
  method PartitionTotalOf(guess: Word, solutions: seq<Word>) returns (total: int)
    ensures total == PartitionTotal(guess, solutions, solutions)
  {
    total := 0;
    for j := 0 to |solutions|
      invariant total == PartitionTotal(guess, solutions[..j], solutions)
    {
      assert solutions[..j + 1][..j] == solutions[..j];
      var actual := solutions[j];
      if Differ(guess, actual) {
        var hint := EvaluateGuess(guess, actual);
        var score := FilteredWordListSize(hint, guess, solutions);
        total := total + score;
      }
    }
    assert solutions[..|solutions|] == solutions;
  }

  /** a comes before b when ranking guesses: smaller score first, then the
      higher stride, then the smaller index. */
  predicate RanksBefore(scores: seq<int>, a: nat, b: nat)
    requires a < |scores| && b < |scores|
  {
    scores[a] < scores[b] ||
    (scores[a] == scores[b] &&
     (a % Threads > b % Threads || (a % Threads == b % Threads && a < b)))
  }

  /** The index ranked first among 0..n-1. */
  function FirstRanked(scores: seq<int>, n: nat): (k: nat)
    requires 0 < n <= |scores|
    ensures k < n
  {
    if n == 1 then 0
    else
      var k := FirstRanked(scores, n - 1);
      if RanksBefore(scores, n - 1, k) then n - 1 else k
  }

  /** FirstRanked ranks before every other index below n. */
  lemma {:induction false} FirstRankedBeats(scores: seq<int>, n: nat)
    requires 0 < n <= |scores|
    ensures forall j | 0 <= j < n && j != FirstRanked(scores, n) ::
      var k := FirstRanked(scores, n);
      scores[k] < scores[j] ||
      (scores[k] == scores[j] && (k % Threads > j % Threads || (k % Threads == j % Threads && k < j)))
  {
    if n > 1 {
      FirstRankedBeats(scores, n - 1);
      var k := FirstRanked(scores, n);
      forall j | 0 <= j < n && j != k
        ensures RanksBefore(scores, k, j)
      {
      }
    }
  }

  /** The index BestGuess_Complex picks: a smallest score; among those, the
      highest stride; within that stride, the first index. */
  function Choice(scores: seq<int>): (k: nat)
    requires |scores| > 0
    ensures k < |scores|
    ensures forall j | 0 <= j < |scores| :: scores[k] <= scores[j]
    ensures forall j | 0 <= j < |scores| && scores[j] == scores[k] :: j % Threads <= k % Threads
    ensures forall j | 0 <= j < |scores| && scores[j] == scores[k] && j % Threads == k % Threads :: k <= j
  {
    FirstRankedBeats(scores, |scores|);
    FirstRanked(scores, |scores|)
  }

  /** Those three properties single out one index. */
  lemma ChoiceUnique(scores: seq<int>, k: nat)
    requires k < |scores|
    requires forall j | 0 <= j < |scores| :: scores[k] <= scores[j]
    requires forall j | 0 <= j < |scores| && scores[j] == scores[k] :: j % Threads <= k % Threads
    requires forall j | 0 <= j < |scores| && scores[j] == scores[k] && j % Threads == k % Threads :: k <= j
    ensures k == Choice(scores)
  {
  }

  /** Two guesses with equal scores: the reduction's <= lets the second
      stride win, so the later guess is picked. */
  lemma TiesGoToHigherStride(score: int)
    ensures Choice([score, score]) == 1
  {
    ChoiceUnique([score, score], 1);
  }

  /** Slot u after the scan of stride u has visited the indices u, u + 16, ...
      below lim: the first index of smallest score among them, or the INT_MAX
      sentinel while there is none. */
  ghost predicate Scanned(scores: seq<int>, u: nat, lim: nat, score: int, index: int)
    requires lim <= |scores|
  {
    if u < lim then
      u <= index < lim && index % Threads == u && scores[index] == score < IntMax &&
      (forall j | u <= j < lim && j % Threads == u :: score <= scores[j]) &&
      (forall j | u <= j < index && j % Threads == u :: score < scores[j])
    else score == IntMax
  }

  /** One guess of a stride's scan, with the strict < of the source: the slot
      moves from (score, index), covering the indices below i, to
      (next, nextIndex), covering those below lim. */
  lemma ScanStep(scores: seq<int>, u: nat, i: nat, lim: nat, score: int, index: int, next: int, nextIndex: int)
    requires u < Threads && u <= i < |scores| && i % Threads == u && scores[i] < IntMax
    requires lim == if i + Threads < |scores| then i + Threads else |scores|
    requires Scanned(scores, u, i, score, index)
    requires if scores[i] < score then next == scores[i] && nextIndex == i else next == score && nextIndex == index
    ensures Scanned(scores, u, lim, next, nextIndex)
  {
    forall j | i <= j < lim && j % Threads == u
      ensures j == i
    {
    }
  }

  /** A thread's slot: the best score so far and its guess index. */
  datatype Slot = Slot(score: int, index: int)

  /** The slot once the scan of stride u has visited its first n guesses
      u, u + 16, ..., starting from the INT_MAX sentinel and the index init,
      and replacing the slot only on a strictly smaller score. */
  function Scan(scores: seq<int>, u: nat, n: nat, init: int): Slot
    requires n == 0 || u + Threads * (n - 1) < |scores|
  {
    if n == 0 then Slot(IntMax, init)
    else
      var i := u + Threads * (n - 1);
      var prev := Scan(scores, u, n - 1, init);
      if scores[i] < prev.score then Slot(scores[i], i) else prev
  }

  /** The scan leaves the first index of smallest score among the guesses of
      its stride it has visited, or the sentinel while it has visited none. */
  lemma {:induction false} ScanMeets(scores: seq<int>, u: nat, n: nat, init: int)
    requires u < Threads && (n == 0 || u + Threads * (n - 1) < |scores|)
    requires forall j | 0 <= j < |scores| :: scores[j] < IntMax
    ensures var lim := if u + Threads * n < |scores| then u + Threads * n else |scores|;
      Scanned(scores, u, lim, Scan(scores, u, n, init).score, Scan(scores, u, n, init).index)
  {
    if n > 0 {
      var i := u + Threads * (n - 1);
      var lim := if u + Threads * n < |scores| then u + Threads * n else |scores|;
      var prev := Scan(scores, u, n - 1, init);
      var next := Scan(scores, u, n, init);
      ScanMeets(scores, u, n - 1, init);
      assert Scanned(scores, u, i, prev.score, prev.index);
      assert i % Threads == u;
      ScanStep(scores, u, i, lim, prev.score, prev.index, next.score, next.index);
    }
  }

  /** No guess's score reaches the INT_MAX sentinel. */
  lemma AllScoresFit(guesses: seq<Word>, solutions: seq<Word>)
    requires |solutions| * |solutions| < IntMax
    ensures forall j | 0 <= j < |guesses| :: ComplexScores(guesses, solutions)[j] < IntMax
  {
    forall j | 0 <= j < |guesses|
      ensures ComplexScores(guesses, solutions)[j] < IntMax
    {
      ComplexScoresAt(guesses, solutions, j);
      ScoreFits(guesses[j], solutions);
    }
  }

  /** The reduction's outcome: an index whose slot holds the smallest slot
      score, from the highest slot among those holding it, is the Choice. */
  lemma ReductionPicksChoice(scores: seq<int>, slotScores: seq<int>, slotIndices: seq<int>, k: nat)
    requires |slotScores| == Threads && |slotIndices| == Threads
    requires forall u | 0 <= u < Threads :: Scanned(scores, u, |scores|, slotScores[u], slotIndices[u])
    requires k < |scores| && slotIndices[k % Threads] == k && slotScores[k % Threads] == scores[k]
    requires forall u | 0 <= u < Threads :: scores[k] <= slotScores[u]
    requires forall u | 0 <= u < Threads && slotScores[u] == scores[k] :: u <= k % Threads
    ensures k == Choice(scores)
  {
    forall j | 0 <= j < |scores|
      ensures scores[k] <= scores[j]
      ensures scores[j] == scores[k] ==> j % Threads <= k % Threads
      ensures scores[j] == scores[k] && j % Threads == k % Threads ==> k <= j
    {
      var u := j % Threads;
      assert Scanned(scores, u, |scores|, slotScores[u], slotIndices[u]);
    }
    ChoiceUnique(scores, k);
  }

  /** One thread of BestGuess_Complex: visits the guesses t, t + 16, ... and
      keeps in slot t the first of smallest score, leaving the other slots alone. */
  method ScanStride(guesses: seq<Word>, solutions: seq<Word>, t: nat, bestScore: array<int>, bestIndex: array<int>)
    requires t < Threads && bestScore.Length == Threads && bestIndex.Length == Threads && bestScore != bestIndex
    requires |solutions| * |solutions| < IntMax
    requires bestScore[t] == IntMax
    modifies bestScore, bestIndex
    ensures Scanned(ComplexScores(guesses, solutions), t, |guesses|, bestScore[t], bestIndex[t])
    ensures t >= |guesses| ==> bestIndex[t] == old(bestIndex[t])
    ensures forall u | 0 <= u < Threads && u != t ::
      bestScore[u] == old(bestScore[u]) && bestIndex[u] == old(bestIndex[u])
  {
    ghost var scores := ComplexScores(guesses, solutions);
    ghost var init := bestIndex[t];
    ghost var n := 0;
    var i := t;
    while i < |guesses|
      invariant i == t + Threads * n
      invariant n == 0 || i - Threads < |guesses|
      invariant Slot(bestScore[t], bestIndex[t]) == Scan(scores, t, n, init)
      invariant forall u | 0 <= u < Threads && u != t ::
        bestScore[u] == old(bestScore[u]) && bestIndex[u] == old(bestIndex[u])
      decreases |guesses| - i
    {
      var score := PartitionTotalOf(guesses[i], solutions);
      ComplexScoresAt(guesses, solutions, i);
      if score < bestScore[t] {
        bestScore[t] := score;
        bestIndex[t] := i;
      }
      i := i + Threads;
      n := n + 1;
    }
    AllScoresFit(guesses, solutions);
    ScanMeets(scores, t, n, init);
  }

  /** BestGuess_Complex: the sixteen strides of guesses scanned one after the
      other, each keeping its own minimum, then the reduction over the slots
      with <=. */
  method BestGuessComplex(guesses: seq<Word>, solutions: seq<Word>) returns (best: Word)
    requires |guesses| > 0
    requires |solutions| * |solutions| < IntMax
    ensures best == guesses[Choice(ComplexScores(guesses, solutions))]
  {
    ghost var scores := ComplexScores(guesses, solutions);
    var bestScore := new int[Threads];
    var bestIndex := new int[Threads];
    for t := 0 to Threads
      invariant forall u | 0 <= u < t :: bestScore[u] == IntMax
    {
      bestScore[t] := IntMax;
    }

    for t := 0 to Threads
      invariant forall u | 0 <= u < t :: Scanned(scores, u, |scores|, bestScore[u], bestIndex[u])
      invariant forall u | t <= u < Threads :: bestScore[u] == IntMax
    {
      ScanStride(guesses, solutions, t, bestScore, bestIndex);
    }

    var bestI := bestIndex[0];
    var bestS := bestScore[0];
    for t := 1 to Threads
      invariant 0 <= bestI < |scores| && scores[bestI] == bestS < IntMax
      invariant bestI % Threads < t
      invariant bestIndex[bestI % Threads] == bestI && bestScore[bestI % Threads] == bestS
      invariant forall u | 0 <= u < t :: bestS <= bestScore[u]
      invariant forall u | 0 <= u < t && bestScore[u] == bestS :: u <= bestI % Threads
    {
      var slotScore, slotIndex := bestScore[t], bestIndex[t];
      if slotScore <= bestS || (slotScore == bestS && slotIndex < bestI) {
        bestI := slotIndex;
        bestS := slotScore;
      }
    }
    ReductionPicksChoice(scores, bestScore[..], bestIndex[..], bestI);
    best := guesses[bestI];
  }

  // ---------------------------------------------------------------------------
  // BestGuess

  /** What BestGuess returns. */
  function Pick(guesses: seq<Word>, solutions: seq<Word>): Word
    requires |solutions| == 1 || |guesses| > 0
  {
    if |solutions| == 1 then solutions[0]
    else guesses[Choice(ComplexScores(guesses, solutions))]
  }

  /** BestGuess: the only solution when exactly one remains, otherwise the
      guess BestGuess_Complex picks, whose score no other guess beats. */
  method BestGuess(guesses: seq<Word>, solutions: seq<Word>) returns (r: Word)
    requires |solutions| == 1 || (|guesses| > 0 && |solutions| * |solutions| < IntMax)
    ensures r == Pick(guesses, solutions)
    ensures |solutions| == 1 ==> r == solutions[0]
    ensures |solutions| != 1 ==>
      exists k | 0 <= k < |guesses| :: r == guesses[k] &&
        forall j | 0 <= j < |guesses| :: ComplexScores(guesses, solutions)[k] <= ComplexScores(guesses, solutions)[j]
  {
    if |solutions| == 1 {
      return solutions[0];
    }
    r := BestGuessComplex(guesses, solutions);
  }
}
