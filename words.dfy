/** Five-letter words and five-slot hints (the FiveLetterWord struct and its
    WordHint alias), with the hint helpers is_correct, to_score, to_squares and
    from_hint. */
module Words {

  /** A word or a hint: exactly five characters (the struct's char word[5]). */
  type Word = w: seq<char> | |w| == 5 witness "     "

  /** The value a matched letter is overwritten with when it is consumed. */
  const Nul: char := 0 as char

  /** The three hint marks (the GuessResult enumeration). */
  const Absent: char := 0 as char
  const Present: char := 1 as char
  const Correct: char := 2 as char

  /** The default-constructed word. */
  const Blank: Word := "     "

  /** The hint that ends a game. */
  const AllGreen: Word := [Correct, Correct, Correct, Correct, Correct]

  datatype Option<+T> = None | Some(value: T)

  datatype Error = NotFiveLetters(input: string)

  datatype Result<+T> = Ok(value: T) | Failure(error: Error)

  /** A word none of whose letters is the consumed marker. */
  predicate NonNul(w: Word) {
    Nul !in w
  }

  predicate IsMark(c: char) {
    c == Absent || c == Present || c == Correct
  }

  /** A hint whose every slot holds one of the three marks. */
  predicate ValidHint(h: Word) {
    forall i | 0 <= i < 5 :: IsMark(h[i])
  }

  /** The constructor: copies a five-character string, and fails on any other length. */
  method MakeWord(s: string) returns (r: Result<Word>)
    ensures r.Ok? <==> |s| == 5
    ensures r.Ok? ==> r.value == s
    ensures r.Failure? ==> r.error == NotFiveLetters(s)
  {
    if |s| != 5 {
      return Failure(NotFiveLetters(s));
    }
    var w: Word := Blank;
    for i := 0 to 5
      invariant w[..i] == s[..i]
    {
      w := w[i := s[i]];
    }
    assert w == w[..5];
    return Ok(w);
  }

  /** operator== : slot-by-slot comparison. */
  function Same(a: Word, b: Word): (r: bool)
    ensures r <==> a == b
  {
    a[0] == b[0] && a[1] == b[1] && a[2] == b[2] && a[3] == b[3] && a[4] == b[4]
  }

  /** operator!= : true when some slot differs. */
  function Differ(a: Word, b: Word): (r: bool)
    ensures r <==> a != b
  {
    a[0] != b[0] || a[1] != b[1] || a[2] != b[2] || a[3] != b[3] || a[4] != b[4]
  }

  /** is_correct: every slot is marked Correct. */
  method IsCorrect(h: Word) returns (b: bool)
    ensures b <==> h == AllGreen
  {
    for i := 0 to 5
      invariant forall k | 0 <= k < i :: h[k] == Correct
    {
      if h[i] != Correct {
        assert AllGreen[i] == Correct;
        return false;
      }
    }
    return true;
  }

  /** The sum of the slots' character codes. */
  function Score(h: seq<char>): int
  {
    if h == [] then 0 else Score(h[..|h| - 1]) + h[|h| - 1] as int
  }

  /** to_score: adds up the slots. */
  method ToScore(h: Word) returns (r: int)
    ensures r == Score(h)
  {
    r := 0;
    for i := 0 to 5
      invariant r == Score(h[..i])
    {
      assert h[..i + 1][..i] == h[..i];
      r := r + h[i] as int;
    }
    assert h[..5] == h;
  }

  lemma {:induction false} ScorePrefix(h: Word, n: nat)
    requires n <= 5 && ValidHint(h)
    ensures 0 <= Score(h[..n]) <= 2 * n
    ensures Score(h[..n]) == 2 * n <==> forall k | 0 <= k < n :: h[k] == Correct
  {
    if n > 0 {
      assert h[..n][..n - 1] == h[..n - 1];
      ScorePrefix(h, n - 1);
    }
  }

  /** The score of a hint made of marks lies in 0..10, and is 10 exactly for the winning hint. */
  lemma ScoreBounds(h: Word)
    requires ValidHint(h)
    ensures 0 <= Score(h) <= 10
    ensures Score(h) == 10 <==> h == AllGreen
  {
    ScorePrefix(h, 5);
    assert h[..5] == h;
    if Score(h) != 10 {
      assert exists k | 0 <= k < 5 :: h[k] != Correct;
      var k :| 0 <= k < 5 && h[k] != Correct;
      assert AllGreen[k] == Correct;
    }
  }

  /** The square printed for one slot; nothing for a slot that holds no mark. */
  function SquareOf(c: char): string
  {
    if c == Absent then "x" else if c == Present then "Y" else if c == Correct then "G" else ""
  }

  function Squares(h: seq<char>): string
  {
    if h == [] then "" else Squares(h[..|h| - 1]) + SquareOf(h[|h| - 1])
  }

  /** to_squares: the hint as a string of x, Y and G. */
  method ToSquares(h: Word) returns (r: string)
    ensures r == Squares(h)
  {
    r := "";
    for i := 0 to 5
      invariant r == Squares(h[..i])
    {
      assert h[..i + 1][..i] == h[..i];
      if h[i] == Absent { r := r + "x"; }
      if h[i] == Present { r := r + "Y"; }
      if h[i] == Correct { r := r + "G"; }
    }
    assert h[..5] == h;
  }

  /** The mark a hint character stands for; ' ' (the default slot) for any other character. */
  function MarkOf(c: char): char
  {
    if c == 'x' || c == 'X' then Absent
    else if c == 'y' || c == 'Y' then Present
    else if c == 'g' || c == 'G' then Correct
    else ' '
  }

  function Hint(s: string): Word
    requires |s| >= 5
  {
    seq(5, i requires 0 <= i < 5 => MarkOf(s[i]))
  }

  /** from_hint: reads the first five characters of a hint string. */
  method FromHint(hint: string) returns (res: Word)
    requires |hint| >= 5
    ensures res == Hint(hint)
  {
    res := Blank;
    for i := 0 to 5
      invariant forall k | 0 <= k < i :: res[k] == MarkOf(hint[k])
      invariant forall k | i <= k < 5 :: res[k] == ' '
    {
      if hint[i] == 'x' || hint[i] == 'X' { res := res[i := Absent]; }
      if hint[i] == 'y' || hint[i] == 'Y' { res := res[i := Present]; }
      if hint[i] == 'g' || hint[i] == 'G' { res := res[i := Correct]; }
    }
  }

  lemma {:induction false} SquaresPrefix(h: Word, n: nat)
    requires n <= 5 && ValidHint(h)
    ensures |Squares(h[..n])| == n
    ensures forall k | 0 <= k < n :: Squares(h[..n])[k] == SquareOf(h[k])[0]
  {
    if n > 0 {
      assert h[..n][..n - 1] == h[..n - 1];
      SquaresPrefix(h, n - 1);
    }
  }

  /** Printing a hint made of marks and reading it back gives the same hint. */
  lemma SquaresRoundTrip(h: Word)
    requires ValidHint(h)
    ensures |Squares(h)| == 5 && Hint(Squares(h)) == h
  {
    SquaresPrefix(h, 5);
    assert h[..5] == h;
  }

  /** A hint character in its printed spelling: x, Y or G. */
  function Canonical(c: char): char
  {
    if c == 'x' || c == 'X' then 'x' else if c == 'y' || c == 'Y' then 'Y' else 'G'
  }

  /** Reading a well-formed hint string and printing it back gives the string in
      its printed spelling. */
  lemma HintRoundTrip(s: string)
    requires |s| >= 5
    requires forall i | 0 <= i < 5 :: s[i] in "xXyYgG"
    ensures Squares(Hint(s)) == seq(5, i requires 0 <= i < 5 => Canonical(s[i]))
  {
    var h := Hint(s);
    SquaresPrefix(h, 5);
    assert h[..5] == h;
  }
}
