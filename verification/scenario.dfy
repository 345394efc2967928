/** A worked run of the server from a fresh start, with the password check
    accepting only "securepassword", the password server.py stores: two
    clients authenticate (`FirstLogin`, `SecondLogin`), the first asks for
    opponents (`OpponentsOfFirst`) and starts a game against the second
    (`FirstStartsKiwi`), and the second guesses the word
    (`SecondGuessesKiwi`). */
module Scenario {
  import opened Wrappers
  import GameSession
  import opened Server
  import ServerLemmas

  function Verify(password: string): bool {
    password == "securepassword"
  }

  lemma SmallIds()
    ensures FormatId(ClientPrefix, 1) == "client_1" && FormatId(ClientPrefix, 2) == "client_2"
    ensures FormatId(GamePrefix, 1) == "game_1" && FormatId(GamePrefix, 2) == "game_2"
  {
    assert Decimal.NatToString(1) == "1";
    assert Decimal.NatToString(2) == "2";
  }

  /** The server once client_1 has authenticated on connection 1. */
  const AfterOneLogin: State := State([("client_1", 1)], map[], 1, 0)

  const Registered2: OrderedMap.Entries<string, Conn> := [("client_1", 1), ("client_2", 2)]

  /** The server once client_2 has authenticated on connection 2 as well. */
  const AfterTwoLogins: State := State(Registered2, map[], 2, 0)

  function KiwiGame(): GameSession.Game {
    GameSession.Game("kiwi", [], 0, "client_1", "client_2")
  }

  /** The server once client_1 has started game_1 against client_2. */
  const AfterKiwi: State := AfterTwoLogins.(games := map["game_1" := KiwiGame()], gameIdCounter := 1)

  lemma FirstLogin()
    ensures Dispatch(NewServer(), Verify, 1, Authentication("securepassword")) ==
              Step(AfterOneLogin, [Send(1, AuthenticationSuccess("client_1"))])
    ensures Valid(AfterOneLogin)
  {
    SmallIds();
    NewServerValid();
    ServerLemmas.AuthenticationSucceeds(NewServer(), Verify, 1, "securepassword");
    ServerLemmas.DispatchPreservesValid(NewServer(), Verify, 1, Authentication("securepassword"));
  }

  lemma SecondLogin()
    ensures Dispatch(AfterOneLogin, Verify, 2, Authentication("securepassword")) ==
              Step(AfterTwoLogins, [Send(2, AuthenticationSuccess("client_2"))])
    ensures Valid(AfterTwoLogins)
  {
    SmallIds();
    FirstLogin();
    ServerLemmas.AuthenticationSucceeds(AfterOneLogin, Verify, 2, "securepassword");
    ServerLemmas.DispatchPreservesValid(AfterOneLogin, Verify, 2, Authentication("securepassword"));
  }

  lemma ClientsOfAfterTwoLogins()
    ensures GetClientId(AfterTwoLogins, 1) == Some("client_1")
    ensures IsRegistered(AfterTwoLogins, "client_2")
    ensures ConnOf(AfterTwoLogins, "client_2") == 2
    ensures OrderedMap.Keys(Registered2) == ["client_1", "client_2"]
    ensures Valid(AfterTwoLogins)
  {
    SecondLogin();
    assert OrderedMap.Keys(Registered2) == ["client_1", "client_2"];
  }

  lemma OpponentsOfFirst()
    ensures Dispatch(AfterTwoLogins, Verify, 1, RequestOpponents) ==
              Step(AfterTwoLogins, [Send(1, OpponentsList(["client_2"]))])
  {
    ClientsOfAfterTwoLogins();
    ServerLemmas.OpponentsListIsRegistryMinusRequester(AfterTwoLogins, Some("client_1"));
    assert Some("client_1") == Some(Registered2[0].0);
    var ks := OrderedMap.Keys(Registered2);
    assert ks[..0] + ks[1..] == ["client_2"];
    ServerLemmas.RequestOpponentsAnswers(AfterTwoLogins, Verify, 1);
  }

  lemma FirstStartsKiwi()
    ensures Dispatch(AfterTwoLogins, Verify, 1, StartGame("client_2", "kiwi")) ==
              Step(AfterKiwi, [Send(1, GameStarted("game_1")), Send(2, GameStarted("game_1"))])
    ensures Valid(AfterKiwi)
  {
    ClientsOfAfterTwoLogins();
    SmallIds();
    ServerLemmas.StartGameCreatesGame(AfterTwoLogins, Verify, 1, "client_2", "kiwi");
    ServerLemmas.DispatchPreservesValid(AfterTwoLogins, Verify, 1, StartGame("client_2", "kiwi"));
  }

  /** The last step of the run: client_2 guesses the word of game_1. */
  lemma SecondGuessesKiwi()
    ensures Dispatch(AfterKiwi, Verify, 2, Guess("kiwi", "game_1")).outbox == [Send(2, GuessResult(true))]
  {
    ServerLemmas.GuessAnswered(AfterKiwi, Verify, 2, "kiwi", "game_1");
    assert GameSession.SameIgnoringCase("kiwi", KiwiGame().word);
  }

  /** The guess "Atlas" matches the word "atlas". */
  lemma CaseInsensitiveGuess(g: GameSession.Game)
    requires g.word == "atlas"
    ensures GameSession.GuessWord(g, "Atlas").matched
  {
  }

  /** The input that shows the opponent guard is dead: after the run above
      has started game_1 against client_2, client_1 starts a second game
      against client_2 and it starts too. */
  lemma TwoGamesAgainstOneOpponent()
    ensures var r := Dispatch(AfterKiwi, Verify, 1, StartGame("client_2", "fig"));
            && r.outbox == [Send(1, GameStarted("game_2")), Send(2, GameStarted("game_2"))]
            && r.state.games["game_1"].player2 == "client_2"
            && r.state.games["game_2"].player2 == "client_2"
            && !ServerLemmas.OneGamePerOpponent(r.state)
  {
    ClientsOfAfterTwoLogins();
    SmallIds();
    FirstStartsKiwi();
    assert GetClientId(AfterKiwi, 1) == Some("client_1");
    assert ConnOf(AfterKiwi, "client_2") == 2;
    ServerLemmas.StartGameCreatesGame(AfterKiwi, Verify, 1, "client_2", "fig");
    var r := Dispatch(AfterKiwi, Verify, 1, StartGame("client_2", "fig"));
    assert "game_1" != "game_2";
    assert "game_1" in r.state.games && "game_2" in r.state.games;
  }
}
