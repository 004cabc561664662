/** The consistency filter: IsWordPossible checks one candidate against a
    (hint, guess) pair in three passes over a copy of the candidate;
    FilterWordList and FilteredWordListSize lift it to a word list. */
module Consistency {
  import opened Words
  import opened Feedback

  /** The candidate with the letters under Correct slots 0..n-1 consumed. */
  function ConsumeGreens(hint: Word, word: Word, n: nat): Word
    requires n <= 5
  {
    seq(5, k requires 0 <= k < 5 => if k < n && hint[k] == Correct then Nul else word[k])
  }

  /** Every Correct slot shows the candidate's own letter. */
  predicate GreensMatch(hint: Word, guess: Word, word: Word)
  {
    forall k | 0 <= k < 5 && hint[k] == Correct :: guess[k] == word[k]
  }

  /** One Present slot: the candidate must not hold the letter at this very
      slot, and must hold an unconsumed copy elsewhere, which is consumed.
      None means the candidate was rejected. */
  function CheckYellow(hint: Word, guess: Word, w: Word, i: nat): Option<Word>
    requires i < 5
  {
    if hint[i] != Present then Some(w)
    else if guess[i] == w[i] then None
    else
      var j := Find(guess[i], w);
      if j < 5 then Some(w[j := Nul]) else None
  }

  /** The filter's working copy once the green pass and slots 0..n-1 of the
      yellow pass are done, or None once it has rejected. */
  function CheckYellows(hint: Word, guess: Word, word: Word, n: nat): Option<Word>
    requires n <= 5
  {
    if n == 0 then
      if GreensMatch(hint, guess, word) then Some(ConsumeGreens(hint, word, 5)) else None
    else
      match CheckYellows(hint, guess, word, n - 1)
      case None => None
      case Some(w) => CheckYellow(hint, guess, w, n - 1)
  }

  /** No Absent slot's letter is left among the unconsumed letters. */
  predicate GreysClear(hint: Word, guess: Word, w: Word)
  {
    forall i | 0 <= i < 5 && hint[i] == Absent :: guess[i] !in w
  }

  /** What IsWordPossible answers. */
  predicate Possible(hint: Word, guess: Word, word: Word)
  {
    match CheckYellows(hint, guess, word, 5)
    case None => false
    case Some(w) => GreysClear(hint, guess, w)
  }

  /** Once the yellow pass has rejected, it stays rejected. */
  lemma {:induction false} RejectionSticks(hint: Word, guess: Word, word: Word, m: nat, n: nat)
    requires m <= n <= 5
    requires CheckYellows(hint, guess, word, m) == None
    ensures CheckYellows(hint, guess, word, n) == None
  {
    if m < n {
      RejectionSticks(hint, guess, word, m, n - 1);
    }
  }

  /** IsWordPossible: greens, then yellows, then greys, with an early
      return false at the first violation. */
  method IsWordPossible(hint: Word, guess: Word, word: Word) returns (ok: bool)
    ensures ok == Possible(hint, guess, word)
  {
    var w := word;

    // greens
    for i := 0 to 5
      invariant w == ConsumeGreens(hint, word, i)
      invariant forall k | 0 <= k < i && hint[k] == Correct :: guess[k] == word[k]
    {
      if hint[i] == Correct {
        if guess[i] != w[i] {
          RejectionSticks(hint, guess, word, 0, 5);
          return false;
        }
        w := w[i := Nul];
      }
    }

    // yellows
    for i := 0 to 5
      invariant CheckYellows(hint, guess, word, i) == Some(w)
    {
      if hint[i] == Present {
        if guess[i] == w[i] {
          RejectionSticks(hint, guess, word, i + 1, 5);
          return false;
        }
        ghost var before := w;
        var found := false;
        for j := 0 to 5
          invariant !found && w == before
          invariant forall k | 0 <= k < j :: w[k] != guess[i]
        {
          if guess[i] == w[j] {
            assert Find(guess[i], before) == j;
            found := true;
            w := w[j := Nul];
            break;
          }
        }
        if !found {
          RejectionSticks(hint, guess, word, i + 1, 5);
          return false;
        }
      }
    }

    // greys
    for i := 0 to 5
      invariant forall k | 0 <= k < i && hint[k] == Absent :: guess[k] !in w
    {
      if hint[i] == Absent {
        for j := 0 to 5
          invariant forall m | 0 <= m < j :: w[m] != guess[i]
        {
          if guess[i] == w[j] {
            return false;
          }
        }
      }
    }
    return true;
  }

  // ---------------------------------------------------------------------------
  // Soundness: the filter accepts the true pair

  /** With the hint the evaluator gives for (guess, word), the filter's working
      copy follows the evaluator's copy of the solution slot for slot. */
  lemma {:induction false} FilterTracksEvaluator(guess: Word, word: Word, n: nat)
    requires NonNul(guess) && n <= 5
    ensures CheckYellows(Evaluate(guess, word), guess, word, n) == Some(Yellows(guess, word, n).rest)
  {
    var h := Evaluate(guess, word);
    EvaluateMarks(guess, word);
    if n == 0 {
      assert ConsumeGreens(h, word, 5) == Greens(guess, word, 5).rest;
    } else {
      var i := n - 1;
      FilterTracksEvaluator(guess, word, i);
      var e := Yellows(guess, word, i);
      YellowsInv(guess, word, i);
      YellowsKeepSlot(guess, word, i, 5);
      assert guess[i] in guess;
    }
  }

  /** IsWordPossible(evaluate_guess(g, w), g, w) always holds. */
  lemma EvaluateIsPossible(guess: Word, word: Word)
    requires NonNul(guess)
    ensures Possible(Evaluate(guess, word), guess, word)
  {
    var h := Evaluate(guess, word);
    var last := Yellows(guess, word, 5);
    FilterTracksEvaluator(guess, word, 5);
    forall i | 0 <= i < 5 && h[i] == Absent
      ensures guess[i] !in last.rest
    {
      var e := Yellows(guess, word, i);
      YellowsInv(guess, word, i);
      YellowsKeepSlot(guess, word, i, 5);
      YellowsOnlyConsume(guess, word, i, 5);
      assert guess[i] in guess;
      assert Find(guess[i], e.rest) == 5;
      forall k | 0 <= k < 5 ensures last.rest[k] != guess[i] {
      }
    }
  }

  // ---------------------------------------------------------------------------
  // What an accepted candidate satisfies

  /** The guess letters of Correct slots and of Present slots before n, Nul elsewhere. */
  function MarkedThrough(guess: Word, hint: Word, n: nat): Word
  {
    seq(5, k requires 0 <= k < 5 =>
      if hint[k] == Correct || (k < n && hint[k] == Present) then guess[k] else Nul)
  }

  /** Facts about the filter's working copy after the yellow pass visited 0..n-1. */
  ghost predicate FilterInv(hint: Word, guess: Word, word: Word, w: Word, n: nat)
  {
    GreensMatch(hint, guess, word) &&
    (forall k | 0 <= k < 5 :: w[k] == word[k] || w[k] == Nul) &&
    (forall k | 0 <= k < 5 && hint[k] == Correct :: w[k] == Nul) &&
    (forall c | c != Nul :: Count(c, MarkedThrough(guess, hint, n)) + Count(c, w) == Count(c, word))
  }

  lemma {:induction false} CheckYellowsInv(hint: Word, guess: Word, word: Word, n: nat)
    requires n <= 5
    ensures CheckYellows(hint, guess, word, n).Some? ==> FilterInv(hint, guess, word, CheckYellows(hint, guess, word, n).value, n)
  {
    if n == 0 {
      if GreensMatch(hint, guess, word) {
        var w := ConsumeGreens(hint, word, 5);
        forall c | c != Nul
          ensures Count(c, MarkedThrough(guess, hint, 0)) + Count(c, w) == Count(c, word)
        {
          SplitCount(MarkedThrough(guess, hint, 0), w, word, c);
        }
      }
    } else {
      var i := n - 1;
      CheckYellowsInv(hint, guess, word, i);
      var prev := CheckYellows(hint, guess, word, i);
      if prev.Some? && CheckYellows(hint, guess, word, n).Some? {
        var w := prev.value;
        if hint[i] == Present {
          var j := Find(guess[i], w);
          assert MarkedThrough(guess, hint, n) == MarkedThrough(guess, hint, i)[i := guess[i]];
        } else {
          assert MarkedThrough(guess, hint, n) == MarkedThrough(guess, hint, i);
        }
      }
    }
  }

  /** An accepted candidate agrees with every Correct slot; holds each Present
      slot's letter at some other slot that is not Correct; and holds each
      letter at least as often as the guess has it under Correct or Present
      slots, and exactly that often when the letter also sits under an Absent
      slot. */
  lemma PossibleMeans(hint: Word, guess: Word, word: Word)
    requires Possible(hint, guess, word)
    ensures forall i | 0 <= i < 5 && hint[i] == Correct :: guess[i] == word[i]
    ensures forall i | 0 <= i < 5 && hint[i] == Present && guess[i] != Nul ::
      exists j | 0 <= j < 5 :: j != i && hint[j] != Correct && word[j] == guess[i]
    ensures forall c | c != Nul :: Count(c, Marked(guess, hint)) <= Count(c, word)
    ensures forall i | 0 <= i < 5 && hint[i] == Absent && guess[i] != Nul ::
      Count(guess[i], Marked(guess, hint)) == Count(guess[i], word)
  {
    var last := CheckYellows(hint, guess, word, 5).value;
    CheckYellowsInv(hint, guess, word, 5);
    assert MarkedThrough(guess, hint, 5) == Marked(guess, hint);
    forall i | 0 <= i < 5 && hint[i] == Present && guess[i] != Nul
      ensures exists j | 0 <= j < 5 :: j != i && hint[j] != Correct && word[j] == guess[i]
    {
      if CheckYellows(hint, guess, word, i) == None {
        RejectionSticks(hint, guess, word, i, 5);
      }
      if CheckYellows(hint, guess, word, i + 1) == None {
        RejectionSticks(hint, guess, word, i + 1, 5);
      }
      CheckYellowsInv(hint, guess, word, i);
      var w := CheckYellows(hint, guess, word, i).value;
      var j := Find(guess[i], w);
      assert j < 5 && j != i && word[j] == guess[i];
    }
    forall i | 0 <= i < 5 && hint[i] == Absent && guess[i] != Nul
      ensures Count(guess[i], Marked(guess, hint)) == Count(guess[i], word)
    {
      assert guess[i] !in last;
    }
  }

  /** A slot whose hint character is not a mark (from_hint leaves ' ' there for
      an unknown character) constrains nothing: the guess letter at that slot
      does not matter. */
  lemma UnmarkedSlotIgnored(hint: Word, guess: Word, word: Word, i: nat, x: char)
    requires i < 5 && !IsMark(hint[i])
    ensures Possible(hint, guess[i := x], word) == Possible(hint, guess, word)
  {
    var other: Word := guess[i := x];
    SameChecks(hint, guess, other, word, i, 5);
  }

  lemma {:induction false} SameChecks(hint: Word, guess: Word, other: Word, word: Word, i: nat, n: nat)
    requires i < 5 && !IsMark(hint[i]) && n <= 5
    requires forall k | 0 <= k < 5 && k != i :: other[k] == guess[k]
    ensures CheckYellows(hint, other, word, n) == CheckYellows(hint, guess, word, n)
  {
    if n > 0 {
      SameChecks(hint, guess, other, word, i, n - 1);
    }
  }

  // ---------------------------------------------------------------------------
  // The filter is not complete

  /** The hint YYxxx: the guess's first two letters are present elsewhere. */
  const TwoElsewhere: Word := [Present, Present, Absent, Absent, Absent]

  /** Letters for the example below: a is the guess's doubled letter, b, c and
      d its other letters, z and q fillers (AABCD, ZAAQQ and ZZAAZ, say). */
  predicate ExampleLetters(a: char, b: char, c: char, d: char, z: char, q: char)
  {
    Nul !in [a, b, c, d, z, q] && a != z && b !in [a, z, q] && c !in [a, z, q] && d !in [a, z, q]
  }

  /** The filter accepts zaaqq for guess aabcd and hint YYxxx: the first
      Present slot consumes the a at the candidate's second position, so the
      second Present slot no longer sees the a at its own position. */
  lemma FilterAcceptsRepeatedYellow(a: char, b: char, c: char, d: char, z: char, q: char)
    requires ExampleLetters(a, b, c, d, z, q)
    ensures Possible(TwoElsewhere, [a, a, b, c, d], [z, a, a, q, q])
  {
    var guess: Word := [a, a, b, c, d];
    var w0: Word := [z, a, a, q, q];
    assert ConsumeGreens(TwoElsewhere, w0, 5) == w0;
    assert CheckYellows(TwoElsewhere, guess, w0, 0) == Some(w0);
    assert Find(a, w0) == 1;
    var w1: Word := [z, Nul, a, q, q];
    assert w0[1 := Nul] == w1;
    assert CheckYellows(TwoElsewhere, guess, w0, 1) == Some(w1);
    assert w1[1..][1..] == [a, q, q];
    assert Find(a, w1[1..]) == 1;
    assert Find(a, w1) == 2;
    var w2: Word := [z, Nul, Nul, q, q];
    assert w1[2 := Nul] == w2;
    assert CheckYellows(TwoElsewhere, guess, w0, 2) == Some(w2);
    assert CheckYellows(TwoElsewhere, guess, w0, 3) == Some(w2);
    assert CheckYellows(TwoElsewhere, guess, w0, 4) == Some(w2);
    assert CheckYellows(TwoElsewhere, guess, w0, 5) == Some(w2);
    assert GreysClear(TwoElsewhere, guess, w2);
  }

  /** The evaluator's state on guess aabcd and solution zzaaz after its green
      pass and the first slot of its yellow pass. */
  lemma EvaluatorFirstSlot(a: char, b: char, c: char, d: char, z: char, q: char)
    requires ExampleLetters(a, b, c, d, z, q)
    ensures Yellows([a, a, b, c, d], [z, z, a, a, z], 1) ==
      Eval([Present, Absent, Absent, Absent, Absent], [z, z, Nul, a, z])
  {
    var s: Word := [z, z, a, a, z];
    var none: Word := [Absent, Absent, Absent, Absent, Absent];
    assert Greens([a, a, b, c, d], s, 5) == Eval(none, s);
    assert Find(a, s[1..]) == 1;
    assert Find(a, s) == 2;
  }

  /** ... and after the second slot, which marks the other a. */
  lemma EvaluatorSecondSlot(a: char, b: char, c: char, d: char, z: char, q: char)
    requires ExampleLetters(a, b, c, d, z, q)
    ensures Yellows([a, a, b, c, d], [z, z, a, a, z], 2) == Eval(TwoElsewhere, [z, z, Nul, Nul, z])
  {
    var r1: Word := [z, z, Nul, a, z];
    EvaluatorFirstSlot(a, b, c, d, z, q);
    assert r1[2..][1..] == [a, z];
    assert Find(a, r1[2..]) == 1;
    assert Find(a, r1) == 3;
    assert r1[3 := Nul] == [z, z, Nul, Nul, z];
    assert [Present, Absent, Absent, Absent, Absent][1 := Present] == TwoElsewhere;
  }

  /** YYxxx is a hint the evaluator does give for guess aabcd, with solution zzaaz:
      b, c and d find nothing left to mark. */
  lemma EvaluatorGivesTwoElsewhere(a: char, b: char, c: char, d: char, z: char, q: char)
    requires ExampleLetters(a, b, c, d, z, q)
    ensures Evaluate([a, a, b, c, d], [z, z, a, a, z]) == TwoElsewhere
  {
    var guess: Word := [a, a, b, c, d];
    var s: Word := [z, z, a, a, z];
    var r2: Word := [z, z, Nul, Nul, z];
    EvaluatorSecondSlot(a, b, c, d, z, q);
    assert b !in r2 && c !in r2 && d !in r2;
    assert Yellows(guess, s, 3) == Eval(TwoElsewhere, r2);
    assert Yellows(guess, s, 4) == Eval(TwoElsewhere, r2);
  }

  /** The filter is not complete: it accepts a candidate for a hint that the
      evaluator does produce for some solution but not for that candidate
      (the evaluator marks the candidate's second slot Correct). */
  lemma FilterAcceptsUnreachedHint(a: char, b: char, c: char, d: char, z: char, q: char)
    requires ExampleLetters(a, b, c, d, z, q)
    ensures Possible(TwoElsewhere, [a, a, b, c, d], [z, a, a, q, q])
    ensures Evaluate([a, a, b, c, d], [z, z, a, a, z]) == TwoElsewhere
    ensures Evaluate([a, a, b, c, d], [z, a, a, q, q]) != TwoElsewhere
  {
    FilterAcceptsRepeatedYellow(a, b, c, d, z, q);
    EvaluatorGivesTwoElsewhere(a, b, c, d, z, q);
    EvaluateMarks([a, a, b, c, d], [z, a, a, q, q]);
    assert Evaluate([a, a, b, c, d], [z, a, a, q, q])[1] == Correct;
  }

  // ---------------------------------------------------------------------------
  // Lists

  /** IsSubsequence(a, b): a is b with some elements deleted. */
  predicate IsSubsequence<T(==)>(a: seq<T>, b: seq<T>)
    decreases |b|
  {
    a == [] ||
    (b != [] &&
     (IsSubsequence(a, b[..|b| - 1]) ||
      (a[|a| - 1] == b[|b| - 1] && IsSubsequence(a[..|a| - 1], b[..|b| - 1]))))
  }

  /** The order-preserving sublist of the words IsWordPossible accepts. */
  function Filter(hint: Word, guess: Word, words: seq<Word>): (r: seq<Word>)
    ensures |r| <= |words|
    decreases |words|
  {
    if words == [] then []
    else
      var n := |words| - 1;
      var kept := Filter(hint, guess, words[..n]);
      if Possible(hint, guess, words[n]) then kept + [words[n]] else kept
  }

  /** The filter keeps, in their order, all copies of the accepted words and
      nothing else. */
  lemma {:induction false} FilterSelects(hint: Word, guess: Word, words: seq<Word>)
    ensures IsSubsequence(Filter(hint, guess, words), words)
    ensures forall w :: multiset(Filter(hint, guess, words))[w]
                     == if Possible(hint, guess, w) then multiset(words)[w] else 0
    decreases |words|
  {
    if words != [] {
      var n := |words| - 1;
      var kept := Filter(hint, guess, words[..n]);
      FilterSelects(hint, guess, words[..n]);
      assert words == words[..n] + [words[n]];
      if Possible(hint, guess, words[n]) {
        assert (kept + [words[n]])[..|kept|] == kept;
      }
    }
  }

  /** Filtering an already filtered list with the same hint and guess changes nothing. */
  lemma {:induction false} FilterIdempotent(hint: Word, guess: Word, words: seq<Word>)
    ensures Filter(hint, guess, Filter(hint, guess, words)) == Filter(hint, guess, words)
    decreases |words|
  {
    if words != [] {
      var n := |words| - 1;
      var kept := Filter(hint, guess, words[..n]);
      FilterIdempotent(hint, guess, words[..n]);
      if Possible(hint, guess, words[n]) {
        assert (kept + [words[n]])[..|kept|] == kept;
      }
    }
  }

  /** The filter keeps the whole list exactly when it accepts every word. */
  lemma {:induction false} FilterKeepsAll(hint: Word, guess: Word, words: seq<Word>)
    ensures |Filter(hint, guess, words)| == |words| <==> forall w | w in words :: Possible(hint, guess, w)
    decreases |words|
  {
    if words != [] {
      var n := |words| - 1;
      FilterKeepsAll(hint, guess, words[..n]);
      assert words == words[..n] + [words[n]];
      if !Possible(hint, guess, words[n]) {
        assert |Filter(hint, guess, words)| <= n;
      }
    }
  }

  /** The solution survives the filter built from its own evaluation. */
  lemma SolutionSurvives(guess: Word, solution: Word, words: seq<Word>)
    requires NonNul(guess) && solution in words
    ensures solution in Filter(Evaluate(guess, solution), guess, words)
  {
    EvaluateIsPossible(guess, solution);
    FilterSelects(Evaluate(guess, solution), guess, words);
    assert multiset(words)[solution] > 0;
  }

  /** FilterWordList: push_back of every accepted word. */
  method FilterWordList(hint: Word, guess: Word, wordlist: seq<Word>) returns (res: seq<Word>)
    ensures res == Filter(hint, guess, wordlist)
  {
    res := [];
    for i := 0 to |wordlist|
      invariant res == Filter(hint, guess, wordlist[..i])
    {
      assert wordlist[..i + 1][..i] == wordlist[..i];
      var ok := IsWordPossible(hint, guess, wordlist[i]);
      if ok {
        res := res + [wordlist[i]];
      }
    }
    assert wordlist[..|wordlist|] == wordlist;
  }

  /** FilteredWordListSize: counts the accepted words. */
  method FilteredWordListSize(hint: Word, guess: Word, wordlist: seq<Word>) returns (res: int)
    ensures res == |Filter(hint, guess, wordlist)|
  {
    res := 0;
    for i := 0 to |wordlist|
      invariant res == |Filter(hint, guess, wordlist[..i])|
    {
      assert wordlist[..i + 1][..i] == wordlist[..i];
      ghost var kept := Filter(hint, guess, wordlist[..i]);
      var ok := IsWordPossible(hint, guess, wordlist[i]);
      assert Filter(hint, guess, wordlist[..i + 1]) == if ok then kept + [wordlist[i]] else kept;
      if ok {
        res := res + 1;
      }
    }
    assert wordlist[..|wordlist|] == wordlist;
  }
}
