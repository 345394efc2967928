/** One guessing game of game.py: the two players, the secret word, the hints
    given so far and the number of guesses made. */
module GameSession {

  datatype Game = Game(word: string, hints: seq<string>, attempts: nat, player1: string, player2: string)

  /** `Game()`: a game not yet started. */
  function NewGame(): Game {
    Game("", [], 0, "", "")
  }

  /** A fresh game is blank, and is what starting any game with empty
      players and an empty word yields. */
  lemma NewGameIsBlank(g: Game)
    ensures NewGame().word == "" && NewGame().hints == [] && NewGame().attempts == 0
    ensures NewGame().player1 == "" && NewGame().player2 == ""
    ensures StartGame(g, "", "", "") == NewGame()
  {
  }

  /** `start_game`: set the players and the word and clear the progress. */
  function StartGame(g: Game, player1: string, player2: string, word: string): (r: Game)
    ensures r.player1 == player1 && r.player2 == player2 && r.word == word
    ensures r.hints == [] && r.attempts == 0
  {
    g.(player1 := player1, player2 := player2, word := word, hints := [], attempts := 0)
  }

  /** Starting a game forgets everything about the state it was called on. */
  lemma StartGameForgetsPriorState(g1: Game, g2: Game, player1: string, player2: string, word: string)
    ensures StartGame(g1, player1, player2, word) == StartGame(g2, player1, player2, word)
  {
  }

  /** `get_opponent`: the player the game was started against. */
  function GetOpponent(g: Game): string {
    g.player2
  }

  /** The opponent of a started game is the second player named at start. */
  lemma OpponentOfStartedGame(g: Game, player1: string, player2: string, word: string)
    ensures GetOpponent(StartGame(g, player1, player2, word)) == player2
  {
  }

  /** ASCII case folding of one character. */
  function LowerChar(c: char): char {
    if 'A' <= c <= 'Z' then (c as int - 'A' as int + 'a' as int) as char else c
  }

  /** `s.lower()`, restricted to ASCII letters. */
  function Lower(s: string): (r: string)
    ensures |r| == |s|
  {
    seq(|s|, i requires 0 <= i < |s| => LowerChar(s[i]))
  }

  /** Two strings of the same length that agree letter by letter up to case. */
  predicate SameIgnoringCase(a: string, b: string) {
    |a| == |b| && forall i :: 0 <= i < |a| ==> LowerChar(a[i]) == LowerChar(b[i])
  }

  datatype GuessOutcome = GuessOutcome(game: Game, matched: bool)

  /** `guess_word`: count the attempt, then compare without regard to case. */
  function GuessWord(g: Game, guess: string): (r: GuessOutcome)
    ensures r.game.attempts == g.attempts + 1
    ensures r.game.word == g.word && r.game.hints == g.hints
    ensures r.game.player1 == g.player1 && r.game.player2 == g.player2
    ensures r.matched <==> SameIgnoringCase(guess, g.word)
  {
    var g' := g.(attempts := g.attempts + 1);
    var matched := Lower(guess) == Lower(g.word);
    assert matched <==> SameIgnoringCase(guess, g.word) by {
      if SameIgnoringCase(guess, g.word) {
        assert forall i :: 0 <= i < |guess| ==> Lower(guess)[i] == Lower(g.word)[i];
      }
      if matched {
        assert forall i :: 0 <= i < |guess| ==> LowerChar(guess[i]) == Lower(guess)[i];
      }
    }
    GuessOutcome(g', matched)
  }

  /** Guessing the word itself, or the word in any other casing, matches. */
  lemma GuessingTheWordMatches(g: Game, guess: string)
    requires SameIgnoringCase(guess, g.word)
    ensures GuessWord(g, guess).matched
  {
  }

  lemma WordMatchesItself(g: Game)
    ensures GuessWord(g, g.word).matched
  {
  }

  /** `add_hint`: append the hint; nothing else changes. */
  function AddHint(g: Game, hint: string): (r: Game)
    ensures r.hints == g.hints + [hint]
    ensures r.word == g.word && r.attempts == g.attempts
    ensures r.player1 == g.player1 && r.player2 == g.player2
  {
    g.(hints := g.hints + [hint])
  }

  /** What can happen to a started game: a guess or a hint. */
  datatype Move = GuessMove(guess: string) | HintMove(hint: string)

  /** The game after the moves, in order. */
  function Play(g: Game, moves: seq<Move>): Game
    decreases |moves|
  {
    if moves == [] then g
    else
      var g' := match moves[0]
        case GuessMove(guess) => GuessWord(g, guess).game
        case HintMove(hint) => AddHint(g, hint);
      Play(g', moves[1..])
  }

  function GuessCount(moves: seq<Move>): nat {
    if moves == [] then 0 else (if moves[0].GuessMove? then 1 else 0) + GuessCount(moves[1..])
  }

  function HintsOf(moves: seq<Move>): seq<string> {
    if moves == [] then [] else (if moves[0].HintMove? then [moves[0].hint] else []) + HintsOf(moves[1..])
  }

  /** Over any run of moves the word and the players stay fixed, the attempt
      counter counts exactly the guesses and the hints grow by exactly the
      hints given, in order. */
  lemma {:induction false} PlayAccounts(g: Game, moves: seq<Move>)
    ensures Play(g, moves).word == g.word
    ensures Play(g, moves).player1 == g.player1 && Play(g, moves).player2 == g.player2
    ensures Play(g, moves).attempts == g.attempts + GuessCount(moves)
    ensures Play(g, moves).hints == g.hints + HintsOf(moves)
    decreases |moves|
  {
    if moves != [] {
      var g' := match moves[0]
        case GuessMove(guess) => GuessWord(g, guess).game
        case HintMove(hint) => AddHint(g, hint);
      PlayAccounts(g', moves[1..]);
      if moves[0].HintMove? {
        assert g.hints + [moves[0].hint] + HintsOf(moves[1..]) == g.hints + ([moves[0].hint] + HintsOf(moves[1..]));
      } else {
        assert HintsOf(moves) == HintsOf(moves[1..]);
      }
    }
  }
}
