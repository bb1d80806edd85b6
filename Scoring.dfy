/** The guess evaluator `check_guess` of app.py: bulls ("plus") and cows ("minus") of a
    three-digit guess against a three-digit secret, counted exactly as app.py counts them. */
module Scoring {
  import opened Wrappers

  /** A decimal digit. Python's `str.isdigit` also accepts other Unicode digits; this model
      admits only ASCII '0'..'9'. */
  predicate IsDigit(c: char) {
    '0' <= c <= '9'
  }

  /** `s.isdigit()` for a non-empty string: every character is a digit. */
  predicate AllDigits(s: string) {
    forall i :: 0 <= i < |s| ==> IsDigit(s[i])
  }

  /** The shape the evaluator and the guess route accept: exactly three digits. */
  predicate IsGuessShape(s: string) {
    |s| == 3 && AllDigits(s)
  }

  /** No character occurs twice. */
  predicate Distinct(s: string) {
    forall i, j :: 0 <= i < j < |s| ==> s[i] != s[j]
  }

  /** The set of characters occurring in `s`. */
  function DigitSet(s: string): set<char> {
    set i | 0 <= i < |s| :: s[i]
  }

  /** The evaluator's reply: `{'plus': plus, 'minus': minus}`. */
  datatype Score = Score(plus: nat, minus: nat)

  /** Number of positions below `n` where guess and secret hold the same digit. */
  function ExactCount(secret: string, guess: string, n: nat): (c: nat)
    requires n <= |secret| && n <= |guess|
    ensures c <= n
  {
    if n == 0 then 0
    else ExactCount(secret, guess, n - 1) + (if guess[n - 1] == secret[n - 1] then 1 else 0)
  }

  /** Number of positions below `n` whose guess digit differs from the secret's digit there
      but occurs somewhere in the secret. Nothing is consumed: a secret digit can be
      matched by several guess positions. */
  function PresentElsewhereCount(secret: string, guess: string, n: nat): (c: nat)
    requires n <= |secret| && n <= |guess|
    ensures c <= n
  {
    if n == 0 then 0
    else PresentElsewhereCount(secret, guess, n - 1)
         + (if guess[n - 1] != secret[n - 1] && guess[n - 1] in secret then 1 else 0)
  }

  /** Number of positions below `n` whose guess digit occurs anywhere in the secret. */
  function PresentCount(secret: string, guess: string, n: nat): (c: nat)
    requires n <= |guess|
    ensures c <= n
  {
    if n == 0 then 0
    else PresentCount(secret, guess, n - 1) + (if guess[n - 1] in secret then 1 else 0)
  }

  /** What `check_guess(secret, guess)` returns: `None` for a malformed guess, otherwise the
      bulls over the three positions and the cows as app.py counts them. */
  function Evaluate(secret: string, guess: string): (r: Option<Score>)
    requires |secret| == 3
    ensures r.None? <==> !IsGuessShape(guess)
  {
    if |guess| != 3 || !AllDigits(guess) then None
    else Some(Score(ExactCount(secret, guess, 3), PresentElsewhereCount(secret, guess, 3)))
  }

  /** `check_guess`: rejects a malformed guess, then counts bulls in one loop and cows in a
      second loop over the three positions. */
  method CheckGuess(secret: string, guess: string) returns (r: Option<Score>)
    requires |secret| == 3
    ensures r == Evaluate(secret, guess)
  {
    if |guess| != 3 || !AllDigits(guess) {
      return None;
    }
    var plusCount := 0;
    var minusCount := 0;
    for i := 0 to 3
      invariant plusCount == ExactCount(secret, guess, i)
    {
      if guess[i] == secret[i] {
        plusCount := plusCount + 1;
      }
    }
    for i := 0 to 3
      invariant minusCount == PresentElsewhereCount(secret, guess, i)
    {
      if guess[i] != secret[i] && guess[i] in secret {
        minusCount := minusCount + 1;
      }
    }
    r := Some(Score(plusCount, minusCount));
  }

  /** Every position is counted at most once: as a bull, as a cow, or not at all, and it is
      counted exactly when its digit occurs in the secret. */
  lemma {:induction false} BullsAndCowsArePresentDigits(secret: string, guess: string, n: nat)
    requires n <= |secret| && n <= |guess|
    ensures ExactCount(secret, guess, n) + PresentElsewhereCount(secret, guess, n)
            == PresentCount(secret, guess, n)
  {
    if n > 0 {
      BullsAndCowsArePresentDigits(secret, guess, n - 1);
      assert guess[n - 1] == secret[n - 1] ==> guess[n - 1] in secret;
    }
  }

  /** Bulls over the first `n` positions number `n` exactly when those positions agree. */
  lemma {:induction false} AllExactIffPrefixEqual(secret: string, guess: string, n: nat)
    requires n <= |secret| && n <= |guess|
    ensures ExactCount(secret, guess, n) == n <==> secret[..n] == guess[..n]
  {
    if n > 0 {
      AllExactIffPrefixEqual(secret, guess, n - 1);
      assert secret[..n] == secret[..n - 1] + [secret[n - 1]];
      assert guess[..n] == guess[..n - 1] + [guess[n - 1]];
      if secret[..n] == guess[..n] {
        assert secret[..n - 1] == secret[..n][..n - 1];
        assert guess[..n - 1] == guess[..n][..n - 1];
        assert secret[n - 1] == secret[..n][n - 1];
        assert guess[n - 1] == guess[..n][n - 1];
      }
    }
  }

  /** For a well-formed guess both counts lie in 0..3, their sum is at most 3, and the sum is
      the number of guess positions whose digit occurs in the secret. */
  lemma ScoreBounds(secret: string, guess: string)
    requires |secret| == 3 && IsGuessShape(guess)
    ensures Evaluate(secret, guess).Some?
    ensures Evaluate(secret, guess).value.plus <= 3
    ensures Evaluate(secret, guess).value.minus <= 3
    ensures Evaluate(secret, guess).value.plus + Evaluate(secret, guess).value.minus
            == PresentCount(secret, guess, 3) <= 3
  {
    BullsAndCowsArePresentDigits(secret, guess, 3);
  }

  /** Three bulls exactly when the guess is the secret: the win condition of app.py. */
  lemma PerfectScoreIffEqual(secret: string, guess: string)
    requires |secret| == 3 && IsGuessShape(guess)
    ensures Evaluate(secret, guess).Some?
    ensures Evaluate(secret, guess).value.plus == 3 <==> guess == secret
  {
    AllExactIffPrefixEqual(secret, guess, 3);
    assert secret[..3] == secret && guess[..3] == guess;
  }

  /** Extending a prefix by one character adds exactly that character to its digit set. */
  lemma DigitSetOfLongerPrefix(s: string, n: nat)
    requires 0 < n <= |s|
    ensures DigitSet(s[..n]) == DigitSet(s[..n - 1]) + {s[n - 1]}
  {
  }

  /** A character of a distinct string does not occur in the prefix before it. */
  lemma DistinctNotInPrefix(s: string, n: nat)
    requires 0 < n <= |s| && Distinct(s)
    ensures s[n - 1] !in DigitSet(s[..n - 1])
  {
  }

  /** Sequence membership and digit-set membership agree. */
  lemma InDigitSet(s: string, c: char)
    ensures c in s <==> c in DigitSet(s)
  {
  }

  /** Adding a new character to a set adds one shared element exactly when the other set
      holds that character. */
  lemma SharedGrowsByOne(before: set<char>, c: char, other: set<char>)
    requires c !in before
    ensures |(before + {c}) * other| == |before * other| + (if c in other then 1 else 0)
  {
    if c in other {
      assert (before + {c}) * other == before * other + {c};
    } else {
      assert (before + {c}) * other == before * other;
    }
  }

  /** One more position adds one to the count and one shared digit exactly when its digit
      occurs in the secret and is new to the prefix. */
  lemma PresentCountStep(secret: string, guess: string, n: nat)
    requires 0 < n <= |guess| && guess[n - 1] !in DigitSet(guess[..n - 1])
    ensures PresentCount(secret, guess, n) - PresentCount(secret, guess, n - 1)
            == |DigitSet(guess[..n]) * DigitSet(secret)| - |DigitSet(guess[..n - 1]) * DigitSet(secret)|
  {
    DigitSetOfLongerPrefix(guess, n);
    InDigitSet(secret, guess[n - 1]);
    SharedGrowsByOne(DigitSet(guess[..n - 1]), guess[n - 1], DigitSet(secret));
  }

  /** With pairwise-distinct guess digits, the positions whose digit occurs in the secret are
      as many as the digit values the two strings share. */
  lemma {:induction false} PresentCountIsSharedDigits(secret: string, guess: string, n: nat)
    requires n <= |guess| && Distinct(guess)
    ensures PresentCount(secret, guess, n) == |DigitSet(guess[..n]) * DigitSet(secret)|
  {
    if n == 0 {
      assert DigitSet(guess[..0]) == {};
    } else {
      PresentCountIsSharedDigits(secret, guess, n - 1);
      DistinctNotInPrefix(guess, n);
      PresentCountStep(secret, guess, n);
    }
  }

  /** When the guess has three distinct digits, bulls plus cows is the number of digit values
      the guess shares with the secret. */
  lemma ScoreCountsSharedDigits(secret: string, guess: string)
    requires |secret| == 3 && IsGuessShape(guess) && Distinct(guess)
    ensures Evaluate(secret, guess).Some?
    ensures Evaluate(secret, guess).value.plus + Evaluate(secret, guess).value.minus
            == |DigitSet(guess) * DigitSet(secret)|
  {
    BullsAndCowsArePresentDigits(secret, guess, 3);
    PresentCountIsSharedDigits(secret, guess, 3);
    assert guess[..3] == guess;
  }

  /** Secret "123", guess "221": one bull (the middle 2) and two cows, the trailing 1 and the
      leading 2; the leading 2 counts as a cow although the secret's only 2 is already the
      middle bull. */
  lemma RepeatedGuessDigitScore()
    ensures Evaluate("123", "221") == Some(Score(1, 2))
  {
  }

  /** Secret "123", guess "111": one bull and two cows, so the single 1 of the secret is
      matched three times. A consume-marking evaluator would report no cows here. */
  lemma SecretDigitMatchedThrice()
    ensures Evaluate("123", "111") == Some(Score(1, 2))
  {
  }
}
