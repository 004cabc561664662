/** The feedback evaluator (evaluate_guess): a green pass, then a yellow pass,
    over a private copy of the solution whose matched letters are consumed. */
module Feedback {
  import opened Words

  /** The evaluator's working state: the hint built so far, and the copy of the
      solution in which every matched letter has been overwritten with Nul. */
  datatype Eval = Eval(hint: Word, rest: Word)

  /** The first position of c in w, or |w| when c does not occur. */
  function Find(c: char, w: seq<char>): (j: nat)
    ensures j <= |w|
    ensures j < |w| ==> w[j] == c
    ensures forall k | 0 <= k < j :: w[k] != c
  {
    if w == [] then 0 else if w[0] == c then 0 else 1 + Find(c, w[1..])
  }

  /** State once the green pass has visited slots 0..n-1. */
  function Greens(guess: Word, actual: Word, n: nat): Eval
    requires n <= 5
  {
    Eval(seq(5, k requires 0 <= k < 5 => if k < n && guess[k] == actual[k] then Correct else Absent),
         seq(5, k requires 0 <= k < 5 => if k < n && guess[k] == actual[k] then Nul else actual[k]))
  }

  /** One slot of the yellow pass: a slot not already Correct takes the first
      unconsumed copy of its letter, if there is one. */
  function YellowStep(guess: Word, e: Eval, i: nat): Eval
    requires i < 5
  {
    if e.hint[i] == Correct then e
    else
      var j := Find(guess[i], e.rest);
      if j < 5 then Eval(e.hint[i := Present], e.rest[j := Nul]) else e
  }

  /** State once the yellow pass has visited slots 0..n-1. */
  function Yellows(guess: Word, actual: Word, n: nat): Eval
    requires n <= 5
  {
    if n == 0 then Greens(guess, actual, 5)
    else YellowStep(guess, Yellows(guess, actual, n - 1), n - 1)
  }

  /** The hint evaluate_guess returns. */
  function Evaluate(guess: Word, actual: Word): Word
  {
    Yellows(guess, actual, 5).hint
  }

  /** evaluate_guess, with its two passes and the inner search with break. */
  method EvaluateGuess(guess: Word, actual: Word) returns (result: Word)
    ensures result == Evaluate(guess, actual)
  {
    result := [Absent, Absent, Absent, Absent, Absent];
    var rest := actual;

    // green squares
    for i := 0 to 5
      invariant Eval(result, rest) == Greens(guess, actual, i)
    {
      if guess[i] == rest[i] {
        result := result[i := Correct];
        rest := rest[i := Nul];
      }
    }

    // yellow squares
    for i := 0 to 5
      invariant Eval(result, rest) == Yellows(guess, actual, i)
    {
      if result[i] != Correct {
        ghost var before := rest;
        for j := 0 to 5
          invariant rest == before
          invariant forall k | 0 <= k < j :: rest[k] != guess[i]
        {
          if guess[i] == rest[j] {
            assert Find(guess[i], before) == j;
            result := result[i := Present];
            rest := rest[j := Nul];
            break;
          }
        }
      }
    }
  }

  // ---------------------------------------------------------------------------
  // What the passes keep true

  /** Facts about the evaluator's state after the yellow pass visited 0..n-1. */
  ghost predicate Inv(guess: Word, actual: Word, e: Eval, n: nat)
  {
    (forall k | 0 <= k < 5 :: e.hint[k] == Correct <==> guess[k] == actual[k]) &&
    (forall k | 0 <= k < 5 :: IsMark(e.hint[k])) &&
    (forall k | n <= k < 5 :: e.hint[k] == Correct || e.hint[k] == Absent) &&
    (forall k | 0 <= k < 5 :: e.rest[k] == actual[k] || e.rest[k] == Nul) &&
    (forall k | 0 <= k < 5 && guess[k] == actual[k] :: e.rest[k] == Nul)
  }

  lemma {:induction false} YellowsInv(guess: Word, actual: Word, n: nat)
    requires n <= 5
    ensures Inv(guess, actual, Yellows(guess, actual, n), n)
  {
    if n > 0 {
      YellowsInv(guess, actual, n - 1);
    }
  }

  /** Later slots of the yellow pass leave an earlier slot's mark alone. */
  lemma {:induction false} YellowsKeepSlot(guess: Word, actual: Word, i: nat, n: nat)
    requires i < n <= 5
    ensures Yellows(guess, actual, n).hint[i] == Yellows(guess, actual, i + 1).hint[i]
  {
    if n > i + 1 {
      YellowsKeepSlot(guess, actual, i, n - 1);
    }
  }

  /** The yellow pass only ever consumes letters. */
  lemma {:induction false} YellowsOnlyConsume(guess: Word, actual: Word, m: nat, n: nat)
    requires m <= n <= 5
    ensures forall k | 0 <= k < 5 ::
      Yellows(guess, actual, n).rest[k] == Yellows(guess, actual, m).rest[k] || Yellows(guess, actual, n).rest[k] == Nul
  {
    if m < n {
      YellowsOnlyConsume(guess, actual, m, n - 1);
    }
  }

  /** A slot of the result is Correct exactly when the guess and the solution
      agree there, and every slot holds one of the three marks. */
  lemma EvaluateMarks(guess: Word, actual: Word)
    ensures ValidHint(Evaluate(guess, actual))
    ensures forall i | 0 <= i < 5 :: Evaluate(guess, actual)[i] == Correct <==> guess[i] == actual[i]
  {
    YellowsInv(guess, actual, 5);
  }

  /** is_correct holds of the evaluation exactly when the guess is the solution. */
  lemma EvaluateSolved(guess: Word, actual: Word)
    ensures Evaluate(guess, actual) == AllGreen <==> guess == actual
  {
    EvaluateMarks(guess, actual);
    var h := Evaluate(guess, actual);
    if guess != actual {
      var k :| 0 <= k < 5 && guess[k] != actual[k];
      assert h[k] != AllGreen[k];
    } else {
      assert forall i | 0 <= i < 5 :: h[i] == AllGreen[i];
    }
  }

  // ---------------------------------------------------------------------------
  // Letter counts

  /** How many times c occurs in s. */
  function Count(c: char, s: seq<char>): nat
  {
    multiset(s)[c]
  }

  /** The guess letters whose slots are marked Correct or Present, Nul elsewhere. */
  function Marked(guess: Word, hint: Word): Word
  {
    seq(5, k requires 0 <= k < 5 => if hint[k] == Correct || hint[k] == Present then guess[k] else Nul)
  }

  /** When each position of w went either to a or to b (the other getting Nul),
      the occurrences of a letter other than Nul split between a and b. */
  lemma {:induction false} SplitCount(a: seq<char>, b: seq<char>, w: seq<char>, c: char)
    requires |a| == |b| == |w| && c != Nul
    requires forall k | 0 <= k < |w| :: (a[k] == w[k] && b[k] == Nul) || (a[k] == Nul && b[k] == w[k])
    ensures Count(c, a) + Count(c, b) == Count(c, w)
  {
    if |w| > 0 {
      var n := |w| - 1;
      SplitCount(a[..n], b[..n], w[..n], c);
      assert a == a[..n] + [a[n]];
      assert b == b[..n] + [b[n]];
      assert w == w[..n] + [w[n]];
    }
  }

  /** Two sequences that hold c at the same positions hold it equally often;
      one that holds c at fewer positions holds it no more often. */
  lemma {:induction false} CountCompare(a: seq<char>, b: seq<char>, c: char)
    requires |a| == |b|
    requires forall k | 0 <= k < |a| :: b[k] == c ==> a[k] == c
    ensures Count(c, b) <= Count(c, a)
    ensures (forall k | 0 <= k < |a| :: a[k] == c ==> b[k] == c) ==> Count(c, b) == Count(c, a)
  {
    if |a| > 0 {
      var n := |a| - 1;
      CountCompare(a[..n], b[..n], c);
      assert a == a[..n] + [a[n]];
      assert b == b[..n] + [b[n]];
    }
  }

  /** Overwriting one position changes a letter's count by what left and what came in. */
  lemma CountUpdate(s: seq<char>, i: nat, x: char, c: char)
    requires i < |s|
    ensures Count(c, s[i := x]) == Count(c, s) - (if s[i] == c then 1 else 0) + (if x == c then 1 else 0)
  {
    assert multiset(s[i := x]) == multiset(s) - multiset{s[i]} + multiset{x};
  }

  /** Every mark the evaluator hands out consumes one copy of its letter. */
  lemma {:induction false} YellowsCount(guess: Word, actual: Word, n: nat, c: char)
    requires n <= 5 && c != Nul
    ensures Count(c, Marked(guess, Yellows(guess, actual, n).hint)) + Count(c, Yellows(guess, actual, n).rest)
         == Count(c, actual)
  {
    if n == 0 {
      var e := Greens(guess, actual, 5);
      SplitCount(Marked(guess, e.hint), e.rest, actual, c);
    } else {
      var i := n - 1;
      var e := Yellows(guess, actual, i);
      YellowsCount(guess, actual, i, c);
      YellowsInv(guess, actual, i);
      if e.hint[i] != Correct {
        var j := Find(guess[i], e.rest);
        if j < 5 {
          var m := Marked(guess, e.hint);
          assert Marked(guess, e.hint[i := Present]) == m[i := guess[i]];
          CountUpdate(m, i, guess[i], c);
          CountUpdate(e.rest, j, Nul, c);
        }
      }
    }
  }

  /** The number of marked slots for a letter is the smaller of its count in the
      guess and its count in the solution: a repeated letter never gets more
      marks than the solution has copies of it. */
  lemma EvaluateLetterMarks(guess: Word, actual: Word, c: char)
    requires c != Nul
    ensures Count(c, Marked(guess, Evaluate(guess, actual)))
         == if Count(c, guess) <= Count(c, actual) then Count(c, guess) else Count(c, actual)
  {
    var h := Evaluate(guess, actual);
    var m := Marked(guess, h);
    var last := Yellows(guess, actual, 5);
    YellowsCount(guess, actual, 5, c);
    YellowsInv(guess, actual, 5);
    CountCompare(guess, m, c);
    if i :| 0 <= i < 5 && guess[i] == c && h[i] == Absent {
      var e := Yellows(guess, actual, i);
      YellowsInv(guess, actual, i);
      YellowsKeepSlot(guess, actual, i, 5);
      assert Find(c, e.rest) == 5;
      YellowsOnlyConsume(guess, actual, i, 5);
      assert c !in last.rest by {
        forall k | 0 <= k < 5 ensures last.rest[k] != c {
        }
      }
    } else {
      assert forall k | 0 <= k < 5 :: guess[k] == c ==> m[k] == c;
    }
  }
}
