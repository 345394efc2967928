/** The two registry callbacks main.py hands to the web interface: read a
    game's progress, and add a hint to a game. */
module WebCallbacks {
  import opened Wrappers
  import GameSession
  import opened Server
  import ServerLemmas

  /** The dict `get_game_data_callback` returns. */
  datatype GameData = GameData(word: string, hints: seq<string>, attempts: nat)

  /** `get_game_data_callback`: the word, hints and attempt count of the
      game, or none when no such game exists. */
  function GetGameData(s: State, gameId: string): (r: Option<GameData>)
    ensures r.None? <==> gameId !in s.games
    ensures r.Some? ==> r.value.word == s.games[gameId].word
    ensures r.Some? ==> r.value.hints == s.games[gameId].hints
    ensures r.Some? ==> r.value.attempts == s.games[gameId].attempts
  {
    if gameId in s.games then
      var game := s.games[gameId];
      Some(GameData(game.word, game.hints, game.attempts))
    else
      None
  }

  datatype Update = Update(state: State, updated: bool)

  /** `update_game_data_callback`: append the hint to the game and report
      whether the game existed. */
  function UpdateGameData(s: State, gameId: string, hint: string): (r: Update)
    ensures r.updated <==> gameId in s.games
    ensures !r.updated ==> r.state == s
    ensures r.state.clients == s.clients
    ensures r.state.clientIdCounter == s.clientIdCounter && r.state.gameIdCounter == s.gameIdCounter
    ensures r.state.games.Keys == s.games.Keys
    ensures r.updated ==> r.state.games[gameId].hints == s.games[gameId].hints + [hint]
    ensures r.updated ==> r.state.games[gameId].word == s.games[gameId].word
    ensures r.updated ==> r.state.games[gameId].attempts == s.games[gameId].attempts
    ensures r.updated ==> r.state.games[gameId].player1 == s.games[gameId].player1
    ensures r.updated ==> r.state.games[gameId].player2 == s.games[gameId].player2
    ensures forall g :: g in s.games && g != gameId ==> r.state.games[g] == s.games[g]
  {
    if gameId in s.games then
      Update(s.(games := s.games[gameId := GameSession.AddHint(s.games[gameId], hint)]), true)
    else
      Update(s, false)
  }

  /** Reading a game after adding a hint shows the hint last and everything
      else as before. */
  lemma GetAfterUpdate(s: State, gameId: string, hint: string)
    requires gameId in s.games
    ensures var before := GetGameData(s, gameId).value;
            GetGameData(UpdateGameData(s, gameId, hint).state, gameId) ==
              Some(GameData(before.word, before.hints + [hint], before.attempts))
  {
  }

  /** Adding a hint through the web interface changes the registry exactly as
      a `hint` request over a connection does. */
  lemma UpdateMatchesHintRequest(s: State, verify: string -> bool, conn: Conn, gameId: string, hint: string)
    ensures UpdateGameData(s, gameId, hint).state == Dispatch(s, verify, conn, Hint(hint, gameId)).state
  {
  }

  lemma UpdatePreservesValid(s: State, gameId: string, hint: string)
    requires Valid(s)
    ensures Valid(UpdateGameData(s, gameId, hint).state)
  {
    if gameId in s.games {
      ServerLemmas.ReplaceGamePreservesValid(s, gameId, GameSession.AddHint(s.games[gameId], hint));
    }
  }
}
