# Bulls and Cows: the single-player game server, in Dafny

This project models the single-player server of a "Bulls and Cows" game (app.py). The
server picks a secret of three distinct digits whose first digit is not 0. The player
guesses three-digit strings. Each guess is scored with "plus" (bulls: right digit in the
right place) and "minus" (cows: a digit that occurs elsewhere in the secret). The game is
won on three bulls.

The model has four modules:

- `Wrappers` (Wrappers.dfy): the `Option` and `Result` types for Python's `None` and for the
  routes' error replies.
- `Scoring` (Scoring.dfy): `check_guess`. `Evaluate` is the specification function, and
  `CheckGuess` is the two-loop method proved against it. The lemmas cover bounds, the win
  condition and shared digits.
- `SecretNumber` (SecretNumber.dfy): the deterministic part of `generate_secret_number`.
  The shuffled digit list is an input. The leading-zero repair runs in a loop over an
  array, is proved against `LeadingZeroRepaired`, and always yields a well-formed secret.
- `Games` (Games.dfy): the `Game` row as a class with the fields `secretNumber`, `attempts`
  and `isWon`, and the table as a `GameStore` class holding a map from id to game.
  `start_new_game` becomes `GameStore.StartNewGame`, and `make_guess` becomes
  `GameStore.MakeGuess` together with `Game.Guess`. Both are proved against the pure
  transition `GuessStep`. Lemmas over `Replay` show that a win is final and that attempts
  count exactly the accepted guesses.

External effects are parameters:

- The output of `random.shuffle` is the `shuffled` argument.
- Whether the database commit succeeds is the `commitSucceeds` argument. A failed commit
  rolls back, so the stored row stays as it was.
- The JSON body of a guess request is a `GuessInput`. `Missing` stands for a JSON body that
  is null or otherwise falsy (an empty object, for example), or that lacks the "guess" key. `NotText` stands for a value that is not a string. `Text(s)`
  stands for a string.

Two points about what app.py does and does not do:

- app.py's cow count consumes nothing. A non-bull position counts as a cow if its digit
  occurs anywhere in the secret (lines 61-64), so one secret digit can be matched by several
  guess positions. The route does not forbid repeated guess digits, because that check is
  commented out at lines 111-113. The model counts as app.py does.
  `Scoring.SecretDigitMatchedThrice` shows secret "123" and guess "111" scoring 1 bull and
  2 cows. `Scoring.ScoreCountsSharedDigits` shows that for guesses with distinct digits the
  count equals the number of shared digit values.
- app.py has no handler for the `create_game`, `join_game` and `make_guess` socket events
  that static/script.js:214, 235 and 259 emit, so the two-player mode is not modelled.

## Model

| member | source | states |
|---|---|---|
| Scoring.Evaluate | app.py:45-48 | `check_guess` returns nothing exactly when the guess is not three digits, so any guess that passes the route's shape check always gets a score |
| Scoring.CheckGuess | app.py:45-66 | the two counting loops return exactly `Evaluate`: `None` for a malformed guess, otherwise the bulls over the three positions and the cows as app.py counts them |
| Scoring.ExactCount | app.py:56-58 | the bulls among the first n positions number at most n |
| Scoring.PresentElsewhereCount | app.py:61-64 | the cows among the first n positions (a different digit there that occurs somewhere in the secret, with nothing consumed) number at most n |
| Scoring.BullsAndCowsArePresentDigits | app.py:55-64 | bulls plus cows equals the number of guess positions whose digit occurs in the secret, so no position is counted twice |
| Scoring.AllExactIffPrefixEqual | app.py:56-58 | the bulls over the first n positions number n exactly when those prefixes are equal |
| Scoring.ScoreBounds | app.py:55-64 | for a well-formed guess, plus and minus each lie in 0..3 and plus + minus <= 3 |
| Scoring.PerfectScoreIffEqual | app.py:56-58 | plus is 3 exactly when the guess equals the secret, which is the win condition |
| Scoring.PresentCountIsSharedDigits | app.py:61-64 | with pairwise-distinct guess digits, the positions whose digit is in the secret are as many as the digit values both strings share |
| Scoring.ScoreCountsSharedDigits | app.py:55-64 | for a three-digit guess with distinct digits, plus + minus is the number of digit values the guess and the secret share |
| Scoring.RepeatedGuessDigitScore | app.py:55-64 | secret "123" and guess "221" score plus 1 and minus 2 |
| Scoring.SecretDigitMatchedThrice | app.py:61-64 | secret "123" and guess "111" score plus 1 and minus 2: one secret digit is matched by all three guess positions |
| SecretNumber.FirstNonZeroFrom | app.py:39-40 | the scan's result is the first index at or after i whose digit is not '0', or the length when there is none |
| SecretNumber.PermutationIsShuffleOfDigits | app.py:34-35 | every permutation of "0123456789" is a list of ten pairwise-distinct decimal digits |
| SecretNumber.ShuffleIsPermutationOfDigits | app.py:34-35 | every list of ten pairwise-distinct decimal digits is a permutation of "0123456789", so the generator's precondition describes exactly the shuffles |
| SecretNumber.LeadingZeroRepaired | app.py:37-42 | the repair only rearranges the ten digits (same length, same multiset), leaves a list not starting with '0' as it is, and leaves a non-'0' digit first whenever the list holds one |
| SecretNumber.RepairedSecretShape | app.py:36-43 | for every shuffle, the repaired list's first three digits are distinct decimal digits and the first is not '0' |
| SecretNumber.GenerateSecretNumber | app.py:32-43 | the swap loop leaves the list equal to `LeadingZeroRepaired(shuffled)`, and the returned secret is its first three digits: three distinct digits with no leading zero |
| Games.NewGame | app.py:23-25 | a new row holds the given secret with no attempts and not won, and satisfies the row invariant |
| Games.GuessStep | app.py:95-131 | a won game answers AlreadyWon, a missing guess GuessMissing, a malformed one BadGuessFormat, and a failed commit SaveFailed; a guess is accepted exactly when none of these applies; every refusal leaves the row unchanged; an accepted guess adds exactly one attempt, wins exactly on plus == 3 and reports the new counters; the secret never changes and a win is never undone |
| Games.Replay | app.py:117-122 | over any series of guess requests the row invariant holds and the secret is unchanged |
| Games.AttemptsCountAcceptedGuesses | app.py:117-122 | over any series of requests, attempts grows by exactly the number of accepted guesses, and a won game stays won |
| Games.WonGameIsFinal | app.py:98-99 | once a game is won, no later request is accepted and the row never changes |
| Games.GuessingTheSecretWins | app.py:120-121 | guessing the secret itself on an unwon game, with a successful commit, is accepted and wins |
| Games.Game.constructor | app.py:21-25 | a new `Game` has the given secret, attempts 0 and is_won false |
| Games.Game.Guess | app.py:98-131 | the row after the call and the reply are those of `GuessStep` on the row before; the row invariant is kept |
| Games.GameStore.constructor | app.py:145-146 | the table of a first run, which `db.create_all` creates, holds no rows; every other method needs only `Valid()`, so a table that already holds rows is covered too |
| Games.GameStore.StartNewGame | app.py:75-87 | on a successful commit a newly allocated `Game` appears under a fresh id, every other id keeps its object, holding the repaired secret (three distinct digits, no leading zero) with attempts 0 and not won, and no other row changes; on a failed commit nothing is stored |
| Games.GameStore.Add | app.py:80-83 | storing a game gives it an id not used before, and every other id keeps its object and row |
| Games.GameStore.MakeGuess | app.py:89-139 | an unknown id answers GameNotFound and changes nothing; otherwise the reply and that game's new row are those of `GuessStep`, and every other row is unchanged |

## Left out

- HTTP routing, `request.get_json`, `jsonify`, status codes and the Turkish message texts (app.py:70-139). Outcomes are `Result` values whose errors are named after the conditions app.py checks.
- A request body that is JSON but not an object, such as a list or a string, makes `'guess' not in data` and `data['guess']` behave in Python-specific ways. The model collapses request bodies into the three `GuessInput` cases.
- SQLAlchemy sessions, the schema work of `db.create_all` (only the empty table of a first run is modelled, by `GameStore`'s constructor), and the database's own id sequence. The table is a map from id to `Game`, and ids are issued as 1, 2, 3, and so on. A failed commit in `start_new_game` issues no id; the model does not capture whether a real database sequence would consume one.
- `random.shuffle`: its result is a parameter of `GenerateSecretNumber` and `StartNewGame`.
- `str.isdigit` accepts non-ASCII Unicode digits; the model accepts only '0'..'9'.
- The `index` page, `render_template` and the `__main__` runner: page rendering and process startup.
- static/script.js is browser UI. Its client-side checks are for inputs of the two-player mode, whose server is absent: `validateSecret` (lines 129-139) checks a player-chosen secret, which no route of app.py accepts, and the guess check (lines 247-255) also requires distinct digits, which app.py does not (lines 111-113). Only the three-digit shape of a guess is also checked by app.py:108.
- The two-player session coordinator that the client expects (create, join, turns, disconnect) is not part of this model: app.py has no handler for its socket events.
- A guess request without a JSON body: on a current Flask `request.get_json()` (app.py:101) refuses it before the guess checks at lines 102-109 run, so it never reaches the "guess missing" reply. The unknown-id and already-won checks (lines 95-99) run before it and answer as the model does. The model has no case for it.
- Concurrent requests to the same game are not modelled; each request is one atomic step.
