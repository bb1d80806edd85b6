/** The single-player game of app.py: the `Game` record, the store of games keyed by id, and
    the two routes that change it, `start_new_game` and `make_guess`. */
module Games {
  import opened Wrappers
  import opened Scoring
  import SecretNumber

  /** What the JSON request body holds under the key "guess": nothing (a null or otherwise
      falsy body, such as an empty object, or no such key), a value that is not a string, or
      a string. */
  datatype GuessInput = Missing | NotText | Text(s: string)

  /** The error replies of `make_guess`. */
  datatype GuessError =
    | GameNotFound     // no game with that id
    | AlreadyWon       // the game is already won
    | GuessMissing     // no guess in the request
    | BadGuessFormat   // the guess is not a string of three digits
    | SaveFailed       // the commit failed and was rolled back

  /** The error reply of `start_new_game`: the commit failed and was rolled back. */
  datatype StartError = StartFailed

  /** The successful reply of `make_guess` (the message text is left out). */
  datatype GuessReply = GuessReply(guess: string, score: Score, attempts: nat, isWon: bool)

  /** The stored columns of one game row. */
  datatype GameState = GameState(secretNumber: string, attempts: nat, isWon: bool)

  /** What every stored game satisfies: a three-character secret, and a game is won only
      after at least one guess. */
  predicate WellFormed(s: GameState) {
    |s.secretNumber| == 3 && (s.isWon ==> s.attempts > 0)
  }

  /** The row a new game starts with. */
  function NewGame(secret: string): (s: GameState)
    requires |secret| == 3
    ensures WellFormed(s) && s.secretNumber == secret && s.attempts == 0 && !s.isWon
  {
    GameState(secret, 0, false)
  }

  /** One guess: the row afterwards and the reply. */
  datatype Transition = Transition(next: GameState, reply: Result<GuessReply, GuessError>)

  /** `make_guess` on an existing game, as a function of the row, the request and whether the
      commit succeeds. A guess is accepted exactly when the game is not won, the request holds
      a three-digit string and the commit succeeds; an accepted guess counts one attempt and
      wins exactly on three bulls; anything else leaves the row as it was. */
  function GuessStep(s: GameState, input: GuessInput, commitSucceeds: bool): (t: Transition)
    requires WellFormed(s)
    ensures WellFormed(t.next)
    ensures t.next.secretNumber == s.secretNumber
    ensures s.isWon ==> t.next.isWon
    ensures s.isWon ==> t.reply == Failure(AlreadyWon)
    ensures !s.isWon && input.Missing? ==> t.reply == Failure(GuessMissing)
    ensures !s.isWon && (input.NotText? || (input.Text? && !IsGuessShape(input.s)))
            ==> t.reply == Failure(BadGuessFormat)
    ensures !s.isWon && input.Text? && IsGuessShape(input.s) && !commitSucceeds
            ==> t.reply == Failure(SaveFailed)
    ensures t.reply.Success? <==> !s.isWon && input.Text? && IsGuessShape(input.s) && commitSucceeds
    ensures t.reply.Failure? <==> t.next == s
    ensures t.reply.Success? ==>
              var score := Evaluate(s.secretNumber, input.s).value;
              && t.reply.value == GuessReply(input.s, score, t.next.attempts, t.next.isWon)
              && t.next.attempts == s.attempts + 1
              && (t.next.isWon <==> score.plus == 3)
  {
    if s.isWon then Transition(s, Failure(AlreadyWon))
    else match input
      case Missing => Transition(s, Failure(GuessMissing))
      case NotText => Transition(s, Failure(BadGuessFormat))
      case Text(guess) =>
        if |guess| != 3 || !AllDigits(guess) then Transition(s, Failure(BadGuessFormat))
        else
          var score := Evaluate(s.secretNumber, guess).value;
          var next := GameState(s.secretNumber, s.attempts + 1,
                                if score.plus == 3 then true else s.isWon);
          if commitSucceeds then Transition(next, Success(GuessReply(guess, score, next.attempts, next.isWon)))
          else Transition(s, Failure(SaveFailed))
  }

  /** One request to the guess route on a game that exists. */
  datatype GuessRequest = GuessRequest(input: GuessInput, commitSucceeds: bool)

  /** The row after a series of guess requests. */
  function Replay(s: GameState, requests: seq<GuessRequest>): (r: GameState)
    requires WellFormed(s)
    ensures WellFormed(r) && r.secretNumber == s.secretNumber
    decreases |requests|
  {
    if requests == [] then s
    else Replay(GuessStep(s, requests[0].input, requests[0].commitSucceeds).next, requests[1..])
  }

  /** How many requests of the series are accepted. */
  function AcceptedCount(s: GameState, requests: seq<GuessRequest>): (n: nat)
    requires WellFormed(s)
    ensures n <= |requests|
    decreases |requests|
  {
    if requests == [] then 0
    else
      var t := GuessStep(s, requests[0].input, requests[0].commitSucceeds);
      (if t.reply.Success? then 1 else 0) + AcceptedCount(t.next, requests[1..])
  }

  /** Over any series of requests the attempt counter grows by exactly the number of accepted
      guesses, and a won game stays won. */
  lemma {:induction false} AttemptsCountAcceptedGuesses(s: GameState, requests: seq<GuessRequest>)
    requires WellFormed(s)
    ensures Replay(s, requests).attempts == s.attempts + AcceptedCount(s, requests)
    ensures s.isWon ==> Replay(s, requests).isWon
    decreases |requests|
  {
    if requests != [] {
      var t := GuessStep(s, requests[0].input, requests[0].commitSucceeds);
      AttemptsCountAcceptedGuesses(t.next, requests[1..]);
    }
  }

  /** Once a game is won, no later request is accepted and the row never changes again. */
  lemma {:induction false} WonGameIsFinal(s: GameState, requests: seq<GuessRequest>)
    requires WellFormed(s) && s.isWon
    ensures AcceptedCount(s, requests) == 0
    ensures Replay(s, requests) == s
    decreases |requests|
  {
    if requests != [] {
      WonGameIsFinal(s, requests[1..]);
    }
  }

  /** A guess of the secret itself on a game that is not won wins it, if the commit succeeds. */
  lemma GuessingTheSecretWins(s: GameState)
    requires WellFormed(s) && !s.isWon && IsGuessShape(s.secretNumber)
    ensures GuessStep(s, Text(s.secretNumber), true).next.isWon
    ensures GuessStep(s, Text(s.secretNumber), true).reply.Success?
  {
    PerfectScoreIffEqual(s.secretNumber, s.secretNumber);
  }

  /** A row of the `Game` table. The fields are the columns app.py reads and writes. */
  class Game {
    var secretNumber: string
    var attempts: nat
    var isWon: bool

    /** The stored columns as a value. */
    function State(): GameState
      reads this
    {
      GameState(secretNumber, attempts, isWon)
    }

    ghost predicate Valid()
      reads this
    {
      WellFormed(State())
    }

    /** `Game(secret_number=secret)`: the column defaults give no attempts and not won. */
    constructor (secret: string)
      requires |secret| == 3
      ensures Valid() && State() == NewGame(secret)
    {
      secretNumber := secret;
      attempts := 0;
      isWon := false;
    }

    /** The body of `make_guess` once the game is found: refuse a won game, a missing guess
        and a malformed guess; otherwise score the guess, count the attempt, latch the win on
        three bulls, and commit, restoring the old row when the commit fails. */
    method Guess(input: GuessInput, commitSucceeds: bool) returns (r: Result<GuessReply, GuessError>)
      requires Valid()
      modifies this
      ensures Valid()
      ensures State() == GuessStep(old(State()), input, commitSucceeds).next
      ensures r == GuessStep(old(State()), input, commitSucceeds).reply
    {
      if isWon {
        return Failure(AlreadyWon);
      }
      if input.Missing? {
        return Failure(GuessMissing);
      }
      if !input.Text? || |input.s| != 3 || !AllDigits(input.s) {
        return Failure(BadGuessFormat);
      }
      var guess := input.s;
      var result := CheckGuess(secretNumber, guess);
      var savedAttempts, savedIsWon := attempts, isWon;
      attempts := attempts + 1;
      if result.value.plus == 3 {
        isWon := true;
      }
      if !commitSucceeds {
        attempts, isWon := savedAttempts, savedIsWon;
        return Failure(SaveFailed);
      }
      r := Success(GuessReply(guess, result.value, attempts, isWon));
    }
  }

  /** The `Game` table: rows keyed by their integer id, which the database assigns in
      increasing order. */
  class GameStore {
    var games: map<int, Game>
    var lastId: nat

    ghost predicate Valid()
      reads this, games.Values
    {
      && (forall id :: id in games ==> 0 < id <= lastId && games[id].Valid())
      && (forall i, j :: i in games && j in games && i != j ==> games[i] != games[j])
    }

    /** The stored rows as values. */
    ghost function Rows(): map<int, GameState>
      reads this, games.Values
    {
      map id | id in games :: games[id].State()
    }

    constructor ()
      ensures Valid() && games == map[] && Rows() == map[]
    {
      games := map[];
      lastId := 0;
    }

    /** `start_new_game`, given the shuffle of the ten digits and whether the commit succeeds:
        a new row with a fresh id, the repaired secret, no attempts and not won; on a failed
        commit nothing is stored. */
    method StartNewGame(shuffled: seq<char>, commitSucceeds: bool) returns (r: Result<int, StartError>)
      requires Valid() && SecretNumber.IsShuffleOfDigits(shuffled)
      modifies this
      ensures Valid()
      ensures r.Success? <==> commitSucceeds
      ensures r.Failure? ==> r == Failure(StartFailed) && games == old(games) && Rows() == old(Rows())
      ensures r.Success? ==> r.value in games && fresh(games[r.value])
                             && games == old(games)[r.value := games[r.value]]
      ensures r.Success? ==>
                && r.value !in old(Rows())
                && Rows() == old(Rows())[r.value := NewGame(SecretNumber.LeadingZeroRepaired(shuffled)[..3])]
                && SecretNumber.IsSecretShape(Rows()[r.value].secretNumber)
    {
      var secret := SecretNumber.GenerateSecretNumber(shuffled);
      var newGame := new Game(secret);
      if !commitSucceeds {
        return Failure(StartFailed);
      }
      var id := Add(newGame);
      r := Success(id);
    }

    /** `db.session.add` followed by a successful commit: the row is stored under the next id. */
    method Add(game: Game) returns (id: int)
      requires Valid() && game.Valid() && game !in games.Values
      modifies this
      ensures Valid()
      ensures id !in old(Rows()) && games == old(games)[id := game]
      ensures Rows() == old(Rows())[id := game.State()]
    {
      id := lastId + 1;
      ghost var before := Rows();
      assert id !in games;
      games := games[id := game];
      lastId := id;
      assert Rows() == before[id := game.State()] by {
        forall k | k in games && k != id ensures games[k].State() == before[k] {
        }
      }
      assert Valid() by {
        forall k | k in games ensures 0 < k <= lastId && games[k].Valid() {
        }
        forall i, j | i in games && j in games && i != j ensures games[i] != games[j] {
        }
      }
    }

    /** `make_guess(game_id)`: an unknown id is refused with nothing changed; otherwise the
        game's own guess step runs and no other row changes. */
    method MakeGuess(id: int, input: GuessInput, commitSucceeds: bool)
      returns (r: Result<GuessReply, GuessError>)
      requires Valid()
      modifies games.Values
      ensures Valid() && games == old(games)
      ensures id !in old(Rows()) ==> r == Failure(GameNotFound) && Rows() == old(Rows())
      ensures id in old(Rows()) ==>
                && r == GuessStep(old(Rows())[id], input, commitSucceeds).reply
                && Rows() == old(Rows())[id := GuessStep(old(Rows())[id], input, commitSucceeds).next]
    {
      if id !in games {
        return Failure(GameNotFound);
      }
      var game := games[id];
      ghost var before := Rows();
      r := game.Guess(input, commitSucceeds);
      assert forall k :: k in games && k != id ==> games[k] != game;
      assert Rows() == before[id := game.State()];
    }
  }
}
