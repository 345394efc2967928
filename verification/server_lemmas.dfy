/** What `process_client_message` and the registry operations of server.py
    guarantee, stated over the model in `Server`. */
module ServerLemmas {
  import opened Wrappers
  import opened OrderedMap
  import GameSession
  import opened Server

  // Identifiers and the registry invariant

  /** A registered client id is never a key of the game table, so the guard
      of `initiate_game` never refuses a registered opponent. */
  lemma BusyGuardNeverFires(s: State, opponentId: string)
    requires Valid(s)
    requires IsRegistered(s, opponentId)
    ensures opponentId !in s.games
  {
    if opponentId in s.games {
      ClientIdsAreNotGameIds(opponentId, s.clientIdCounter, s.gameIdCounter);
    }
  }

  /** The next client id is not registered yet. */
  lemma NextClientIdFresh(s: State)
    requires Valid(s)
    ensures !IsRegistered(s, AllocateId(s, ClientKind).id)
  {
    var id := AllocateId(s, ClientKind).id;
    if IsRegistered(s, id) {
      AllocatedIdIsFresh(s, ClientKind, id);
    }
  }

  /** The next game id is not a game yet. */
  lemma NextGameIdFresh(s: State)
    requires Valid(s)
    ensures AllocateId(s, GameKind).id !in s.games
  {
    var id := AllocateId(s, GameKind).id;
    if id in s.games {
      AllocatedIdIsFresh(s, GameKind, id);
    }
  }

  /** The id `GetClientId` finds for a connection is registered to it. */
  lemma ClientIdOfConn(s: State, conn: Conn)
    requires Valid(s)
    requires GetClientId(s, conn).Some?
    ensures IsRegistered(s, GetClientId(s, conn).value)
    ensures ConnOf(s, GetClientId(s, conn).value) == conn
  {
    var i := ClientIndex(s, conn);
    KeyAt(s.clients, i);
    GetDistinct(s.clients, i);
  }

  // authenticate_client

  /** A password the verifier accepts registers exactly one new client id,
      `client_<n>` for the bumped counter, for this connection and tells the
      connection that id; nothing else changes. */
  lemma AuthenticationSucceeds(s: State, verify: string -> bool, conn: Conn, password: string)
    requires Valid(s)
    requires verify(password)
    ensures var id := FormatId(ClientPrefix, s.clientIdCounter + 1);
            var r := Dispatch(s, verify, conn, Authentication(password));
            && !IsRegistered(s, id)
            && r.state.clients == s.clients + [(id, conn)]
            && r.state.clientIdCounter == s.clientIdCounter + 1
            && r.state.games == s.games && r.state.gameIdCounter == s.gameIdCounter
            && r.outbox == [Send(conn, AuthenticationSuccess(id))]
  {
    NextClientIdFresh(s);
    var a := AllocateId(s, ClientKind);
    PutAbsent(a.state.clients, a.id, conn);
  }

  /** A rejected password changes nothing and is answered with
      `authentication_failure`. */
  lemma AuthenticationFails(s: State, verify: string -> bool, conn: Conn, password: string)
    requires !verify(password)
    ensures Dispatch(s, verify, conn, Authentication(password)) ==
              Step(s, [Send(conn, AuthenticationFailure("Invalid password"))])
  {
  }

  /** Authenticating an already registered connection again registers a
      second id; the connection keeps answering to its first one. */
  lemma ReauthenticationAddsSecondId(s: State, verify: string -> bool, conn: Conn, password: string)
    requires Valid(s)
    requires verify(password)
    requires GetClientId(s, conn).Some?
    ensures var r := Dispatch(s, verify, conn, Authentication(password));
            && |r.state.clients| == |s.clients| + 1
            && r.state.clients == s.clients + [(FormatId(ClientPrefix, s.clientIdCounter + 1), conn)]
            && GetClientId(r.state, conn) == GetClientId(s, conn)
  {
    AuthenticationSucceeds(s, verify, conn, password);
    var r := Dispatch(s, verify, conn, Authentication(password));
    var i := ClientIndex(s, conn);
    assert r.state.clients[i] == s.clients[i];
    assert forall j :: 0 <= j < i ==> r.state.clients[j] == s.clients[j];
  }

  // request_opponents

  /** The opponents list is the registry with the requester's own id cut
      out, in registration order; a requester that never authenticated gets
      every id. */
  lemma OpponentsListIsRegistryMinusRequester(s: State, requester: Option<string>)
    requires DistinctKeys(s.clients)
    ensures requester.None? ==> GetOpponentsList(s, requester) == Keys(s.clients)
    ensures requester.Some? && !IsRegistered(s, requester.value) ==>
              GetOpponentsList(s, requester) == Keys(s.clients)
    ensures forall i :: 0 <= i < |s.clients| && requester == Some(s.clients[i].0) ==>
              GetOpponentsList(s, requester) == Keys(s.clients)[..i] + Keys(s.clients)[i + 1..]
  {
    var ks := Keys(s.clients);
    DistinctKeyList(s.clients);
    if requester.Some? && !IsRegistered(s, requester.value) {
      WithoutAbsent(ks, requester.value);
    }
    forall i | 0 <= i < |s.clients| && requester == Some(s.clients[i].0)
      ensures GetOpponentsList(s, requester) == ks[..i] + ks[i + 1..]
    {
      KeyAt(s.clients, i);
      WithoutUnique(ks, i);
    }
  }

  /** `request_opponents` changes nothing and answers the sender alone. */
  lemma RequestOpponentsAnswers(s: State, verify: string -> bool, conn: Conn)
    ensures Dispatch(s, verify, conn, RequestOpponents) ==
              Step(s, [Send(conn, OpponentsList(GetOpponentsList(s, GetClientId(s, conn))))])
  {
  }

  // start_game

  /** `start_game` from a connection that never authenticated, or naming an
      id nobody registered, creates nothing and answers the sender alone
      with an error. */
  lemma StartGameRejected(s: State, verify: string -> bool, conn: Conn, opponentId: string, word: string)
    requires GetClientId(s, conn).None? || !IsRegistered(s, opponentId)
    ensures Dispatch(s, verify, conn, StartGame(opponentId, word)) ==
              Step(s, [Send(conn, Error("Invalid client or opponent ID"))])
  {
  }

  /** Otherwise `start_game` adds exactly one game, under the next
      `game_<n>`, started between the sender's id and the opponent, and sends
      the same `game_started` reply to the sender and to the opponent. */
  lemma StartGameCreatesGame(s: State, verify: string -> bool, conn: Conn, opponentId: string, word: string)
    requires Valid(s)
    requires GetClientId(s, conn).Some? && IsRegistered(s, opponentId)
    ensures var clientId := GetClientId(s, conn).value;
            var gameId := FormatId(GamePrefix, s.gameIdCounter + 1);
            var r := Dispatch(s, verify, conn, StartGame(opponentId, word));
            && gameId !in s.games
            && r.state.games ==
                 s.games[gameId := GameSession.StartGame(GameSession.NewGame(), clientId, opponentId, word)]
            && r.state.gameIdCounter == s.gameIdCounter + 1
            && r.state.clients == s.clients && r.state.clientIdCounter == s.clientIdCounter
            && r.outbox == [Send(conn, GameStarted(gameId)), Send(ConnOf(s, opponentId), GameStarted(gameId))]
  {
    ClientIdOfConn(s, conn);
    BusyGuardNeverFires(s, opponentId);
    NextGameIdFresh(s);
  }

  // guess and hint

  /** A guess for an existing game counts the attempt in that game and tells
      the sender whether it matched; nothing else changes. */
  lemma GuessAnswered(s: State, verify: string -> bool, conn: Conn, guess: string, gameId: string)
    requires gameId in s.games
    ensures var outcome := GameSession.GuessWord(s.games[gameId], guess);
            var r := Dispatch(s, verify, conn, Guess(guess, gameId));
            && r.state == s.(games := s.games[gameId := outcome.game])
            && r.state.games[gameId].attempts == s.games[gameId].attempts + 1
            && r.outbox == [Send(conn, GuessResult(GameSession.SameIgnoringCase(guess, s.games[gameId].word)))]
  {
  }

  /** A hint for an existing game is appended to that game and acknowledged
      to the sender; nothing else changes. */
  lemma HintAnswered(s: State, verify: string -> bool, conn: Conn, hint: string, gameId: string)
    requires gameId in s.games
    ensures var r := Dispatch(s, verify, conn, Hint(hint, gameId));
            && r.state == s.(games := s.games[gameId := GameSession.AddHint(s.games[gameId], hint)])
            && r.state.games[gameId].hints == s.games[gameId].hints + [hint]
            && r.outbox == [Send(conn, HintAcknowledged)]
  {
  }

  /** A guess or hint naming no game is dropped: no change and no reply. */
  lemma UnknownGameIgnored(s: State, verify: string -> bool, conn: Conn, text: string, gameId: string)
    requires gameId !in s.games
    ensures Dispatch(s, verify, conn, Guess(text, gameId)) == Step(s, [])
    ensures Dispatch(s, verify, conn, Hint(text, gameId)) == Step(s, [])
  {
  }

  /** A request of any other type changes nothing and is answered with an
      error naming that type. */
  lemma UnknownTypeAnswered(s: State, verify: string -> bool, conn: Conn, msg: Request)
    requires msg.Unrecognized?
    ensures Dispatch(s, verify, conn, msg) ==
              Step(s, [Send(conn, Error("Unknown message type: " + TypeName(msg)))])
  {
  }

  // Whole-dispatch properties

  /** Every request keeps the registry invariant. */
  lemma DispatchPreservesValid(s: State, verify: string -> bool, conn: Conn, msg: Request)
    requires Valid(s)
    ensures Valid(Dispatch(s, verify, conn, msg).state)
  {
    match msg
    case Authentication(password) =>
      if verify(password) {
        AuthenticationPreservesValid(s, verify, conn, password);
      }
    case RequestOpponents =>
    case StartGame(opponentId, word) =>
      if GetClientId(s, conn).Some? && IsRegistered(s, opponentId) {
        ClientIdOfConn(s, conn);
        CreateGamePreservesValid(s, GetClientId(s, conn).value, opponentId, word);
        BusyGuardNeverFires(s, opponentId);
      }
    case Guess(guess, gameId) =>
      if gameId in s.games {
        ReplaceGamePreservesValid(s, gameId, GameSession.GuessWord(s.games[gameId], guess).game);
      }
    case Hint(hint, gameId) =>
      if gameId in s.games {
        ReplaceGamePreservesValid(s, gameId, GameSession.AddHint(s.games[gameId], hint));
      }
    case Unrecognized(_) =>
  }

  lemma AuthenticationPreservesValid(s: State, verify: string -> bool, conn: Conn, password: string)
    requires Valid(s)
    requires verify(password)
    ensures Valid(Dispatch(s, verify, conn, Authentication(password)).state)
  {
    AuthenticationSucceeds(s, verify, conn, password);
    var r := Dispatch(s, verify, conn, Authentication(password));
    var id := FormatId(ClientPrefix, s.clientIdCounter + 1);
    ParseFormatId(ClientPrefix, s.clientIdCounter + 1);
    assert Keys(r.state.clients) == Keys(s.clients) + [id] by {
      PutAbsent(AllocateId(s, ClientKind).state.clients, id, conn);
    }
    forall i, j | 0 <= i < j < |r.state.clients|
      ensures r.state.clients[i].0 != r.state.clients[j].0
    {
      if j == |s.clients| {
        KeyAt(s.clients, i);
      }
    }
  }

  lemma CreateGamePreservesValid(s: State, clientId: string, opponentId: string, word: string)
    requires Valid(s)
    requires IsRegistered(s, clientId) && IsRegistered(s, opponentId)
    ensures Valid(CreateGame(s, clientId, opponentId, word).state)
  {
    ParseFormatId(GamePrefix, s.gameIdCounter + 1);
  }

  /** Replacing a game by one with the same players keeps the invariant. */
  lemma ReplaceGamePreservesValid(s: State, gameId: string, game: GameSession.Game)
    requires Valid(s)
    requires gameId in s.games
    requires game.player1 == s.games[gameId].player1 && game.player2 == s.games[gameId].player2
    ensures Valid(s.(games := s.games[gameId := game]))
  {
  }

  /** In a valid state every reply goes back to the sender, except the copy
      of `game_started` that a `start_game` sends to the opponent's
      connection; and clients are only ever added, behind the existing ones. */
  lemma DispatchShape(s: State, verify: string -> bool, conn: Conn, msg: Request)
    requires Valid(s)
    ensures var r := Dispatch(s, verify, conn, msg);
            && (forall i :: 0 <= i < |r.outbox| ==>
                  || r.outbox[i].to == conn
                  || (&& msg.StartGame? && IsRegistered(s, msg.opponentId)
                      && r.outbox[i].to == ConnOf(s, msg.opponentId)
                      && r.outbox[i].response.GameStarted?))
            && s.clients <= r.state.clients
  {
    match msg
    case Authentication(password) =>
      if verify(password) {
        AuthenticationSucceeds(s, verify, conn, password);
      }
    case RequestOpponents =>
    case StartGame(opponentId, word) =>
      if GetClientId(s, conn).Some? && IsRegistered(s, opponentId) {
        StartGameCreatesGame(s, verify, conn, opponentId, word);
      }
    case Guess(_, _) =>
    case Hint(_, _) =>
    case Unrecognized(_) =>
  }

  // end_game

  /** Ending a game twice is ending it once. */
  lemma EndGameIdempotent(s: State, gameId: string)
    ensures EndGame(EndGame(s, gameId), gameId) == EndGame(s, gameId)
  {
  }

  lemma EndGamePreservesValid(s: State, gameId: string)
    requires Valid(s)
    ensures Valid(EndGame(s, gameId))
  {
  }

  // The opponent guard: as written and as intended

  /** A game is on the table against each opponent at most once. */
  predicate OneGamePerOpponent(s: State) {
    forall g1, g2 :: g1 in s.games && g2 in s.games && s.games[g1].player2 == s.games[g2].player2 ==> g1 == g2
  }

  /** As written, `initiate_game` starts a second game against an opponent
      who already plays one. */
  lemma InitiateGameAdmitsBusyOpponent(s: State, clientId: string, opponentId: string, word: string)
    requires Valid(s)
    requires IsRegistered(s, clientId) && IsRegistered(s, opponentId)
    requires OpponentBusy(s, opponentId)
    ensures InitiateGame(s, clientId, opponentId, word).outbox[0].response.GameStarted?
    ensures !OneGamePerOpponent(InitiateGame(s, clientId, opponentId, word).state)
    ensures var games := InitiateGame(s, clientId, opponentId, word).state.games;
            exists g1, g2 :: && g1 != g2 && g1 in games && g2 in games
                             && games[g1].player2 == opponentId && games[g2].player2 == opponentId
  {
    BusyGuardNeverFires(s, opponentId);
    NextGameIdFresh(s);
    var g :| g in s.games && s.games[g].player2 == opponentId;
    var r := InitiateGame(s, clientId, opponentId, word);
    var newId := AllocateId(s, GameKind).id;
    assert g in r.state.games && newId in r.state.games && g != newId;
    assert r.state.games[g].player2 == r.state.games[newId].player2;
  }

  /** With the intended guard, a busy opponent is refused: nothing changes
      and the initiator is told so. */
  lemma InitiateGameIntendedRefusesBusy(s: State, clientId: string, opponentId: string, word: string)
    requires IsRegistered(s, clientId) && IsRegistered(s, opponentId)
    requires OpponentBusy(s, opponentId)
    ensures InitiateGameIntended(s, clientId, opponentId, word) ==
              Step(s, [Send(ConnOf(s, clientId), Error("Opponent is already in a game"))])
  {
  }

  /** With the intended guard, a free opponent gets exactly what the code as
      written does. */
  lemma InitiateGameIntendedAgreesWhenFree(s: State, clientId: string, opponentId: string, word: string)
    requires Valid(s)
    requires IsRegistered(s, clientId) && IsRegistered(s, opponentId)
    requires !OpponentBusy(s, opponentId)
    ensures InitiateGameIntended(s, clientId, opponentId, word) == InitiateGame(s, clientId, opponentId, word)
  {
    BusyGuardNeverFires(s, opponentId);
  }

  /** With the intended guard, the registry invariant and "one game per
      opponent" are both kept. */
  lemma InitiateGameIntendedKeepsOneGamePerOpponent(s: State, clientId: string, opponentId: string, word: string)
    requires Valid(s) && OneGamePerOpponent(s)
    requires IsRegistered(s, clientId) && IsRegistered(s, opponentId)
    ensures Valid(InitiateGameIntended(s, clientId, opponentId, word).state)
    ensures OneGamePerOpponent(InitiateGameIntended(s, clientId, opponentId, word).state)
  {
    if !OpponentBusy(s, opponentId) {
      NextGameIdFresh(s);
      ParseFormatId(GamePrefix, s.gameIdCounter + 1);
      var r := InitiateGameIntended(s, clientId, opponentId, word);
      var newId := AllocateId(s, GameKind).id;
      forall g1, g2 | g1 in r.state.games && g2 in r.state.games && r.state.games[g1].player2 == r.state.games[g2].player2
        ensures g1 == g2
      {
        if g1 != newId && g2 != newId {
          assert s.games[g1].player2 == s.games[g2].player2;
        }
      }
    }
  }
}
