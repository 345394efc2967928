/** The registry and message dispatch of server.py as a pure state machine:
    a request on a connection maps the server state to a new state and to the
    replies sent, each addressed to a connection. */
module Server {
  import opened Wrappers
  import opened Decimal
  import opened OrderedMap
  import GameSession

  /** A client socket, compared by identity. */
  type Conn = nat

  const ClientPrefix: string := "client_"
  const GamePrefix: string := "game_"

  /** `Server.__init__`'s registry fields: the clients in registration order,
      the games by id, and the two id counters. */
  datatype State = State(
    clients: Entries<string, Conn>,
    games: map<string, GameSession.Game>,
    clientIdCounter: nat,
    gameIdCounter: nat)

  function NewServer(): State {
    State([], map[], 0, 0)
  }

  /** Client requests, as client.py builds them; `Unrecognized` is any other
      value of the `type` field. */
  datatype Message =
    | Authentication(password: string)
    | RequestOpponents
    | StartGame(opponentId: string, word: string)
    | Guess(guess: string, gameId: string)
    | Hint(hint: string, gameId: string)
    | Unrecognized(msgType: string)

  const KnownTypes: set<string> := {"authentication", "request_opponents", "start_game", "guess", "hint"}

  /** A message whose `type` field decides its constructor. */
  type Request = m: Message | m.Unrecognized? ==> m.msgType !in KnownTypes witness RequestOpponents

  /** The `type` field of a request on the wire. */
  function TypeName(m: Message): string {
    match m
    case Authentication(_) => "authentication"
    case RequestOpponents => "request_opponents"
    case StartGame(_, _) => "start_game"
    case Guess(_, _) => "guess"
    case Hint(_, _) => "hint"
    case Unrecognized(t) => t
  }

  /** Server replies. `HintReceived` belongs to the vocabulary but no
      request produces it. */
  datatype Response =
    | AuthenticationSuccess(clientId: string)
    | AuthenticationFailure(message: string)
    | OpponentsList(opponents: seq<string>)
    | GameStarted(gameId: string)
    | GuessResult(result: bool)
    | HintAcknowledged
    | HintReceived(hint: string)
    | Error(message: string)

  datatype Send = Send(to: Conn, response: Response)

  datatype Step = Step(state: State, outbox: seq<Send>)

  // Identifiers

  /** `f"{prefix}{n}"`. */
  function FormatId(prefix: string, n: nat): string {
    prefix + NatToString(n)
  }

  /** The number an identifier with the given prefix carries, if it has one. */
  function ParseId(prefix: string, id: string): (r: Option<nat>)
    ensures r.Some? ==> |prefix| < |id| && id[..|prefix|] == prefix
  {
    if |prefix| < |id| && id[..|prefix|] == prefix && AllDigits(id[|prefix|..])
    then Some(ParseDecimal(id[|prefix|..]))
    else None
  }

  /** An identifier carries the number it was formatted from. */
  lemma ParseFormatId(prefix: string, n: nat)
    ensures ParseId(prefix, FormatId(prefix, n)) == Some(n)
  {
    var id := FormatId(prefix, n);
    assert id[..|prefix|] == prefix;
    assert id[|prefix|..] == NatToString(n);
    ParseNatToString(n);
  }

  /** `id` was handed out by a counter of the given prefix that now stands at
      `counter`. */
  predicate IssuedBy(prefix: string, id: string, counter: nat) {
    match ParseId(prefix, id)
    case Some(k) => 1 <= k <= counter
    case None => false
  }

  /** No client identifier is a game identifier. */
  lemma ClientIdsAreNotGameIds(id: string, c: nat, g: nat)
    requires IssuedBy(ClientPrefix, id, c)
    ensures !IssuedBy(GamePrefix, id, g)
  {
    assert id[..|ClientPrefix|] == ClientPrefix;
    assert id[0] == 'c';
    if |GamePrefix| < |id| {
      assert id[..|GamePrefix|][0] == 'c';
      assert id[..|GamePrefix|] != GamePrefix;
    }
  }

  datatype IdKind = ClientKind | GameKind

  datatype Allocation = Allocation(state: State, id: string)

  /** `generate_unique_id` for the two kinds it accepts: bump that kind's
      counter and name the new value. */
  function AllocateId(s: State, kind: IdKind): (r: Allocation)
    ensures kind == ClientKind ==>
              r.state == s.(clientIdCounter := s.clientIdCounter + 1) &&
              r.id == FormatId(ClientPrefix, r.state.clientIdCounter) &&
              ParseId(ClientPrefix, r.id) == Some(r.state.clientIdCounter)
    ensures kind == GameKind ==>
              r.state == s.(gameIdCounter := s.gameIdCounter + 1) &&
              r.id == FormatId(GamePrefix, r.state.gameIdCounter) &&
              ParseId(GamePrefix, r.id) == Some(r.state.gameIdCounter)
  {
    match kind
    case ClientKind =>
      var n := s.clientIdCounter + 1;
      ParseFormatId(ClientPrefix, n);
      Allocation(s.(clientIdCounter := n), FormatId(ClientPrefix, n))
    case GameKind =>
      var n := s.gameIdCounter + 1;
      ParseFormatId(GamePrefix, n);
      Allocation(s.(gameIdCounter := n), FormatId(GamePrefix, n))
  }

  /** `generate_unique_id(id_type)`: only "client" and "game" are accepted;
      any other kind raises and leaves the state as it was. */
  function GenerateUniqueId(s: State, idType: string): (r: Result<Allocation, string>)
    ensures r.Failure? <==> idType != "client" && idType != "game"
    ensures r.Failure? ==> r.error == "Unknown ID type specified."
    ensures idType == "client" ==>
              && r.Success?
              && r.value.state.clients == s.clients && r.value.state.games == s.games
              && r.value.state.gameIdCounter == s.gameIdCounter
              && r.value.state.clientIdCounter == s.clientIdCounter + 1
              && r.value.id == "client_" + NatToString(s.clientIdCounter + 1)
    ensures idType == "game" ==>
              && r.Success?
              && r.value.state.clients == s.clients && r.value.state.games == s.games
              && r.value.state.clientIdCounter == s.clientIdCounter
              && r.value.state.gameIdCounter == s.gameIdCounter + 1
              && r.value.id == "game_" + NatToString(s.gameIdCounter + 1)
  {
    if idType == "client" then Success(AllocateId(s, ClientKind))
    else if idType == "game" then Success(AllocateId(s, GameKind))
    else Failure("Unknown ID type specified.")
  }

  function Counter(s: State, kind: IdKind): nat {
    match kind
    case ClientKind => s.clientIdCounter
    case GameKind => s.gameIdCounter
  }

  function Prefix(kind: IdKind): string {
    match kind
    case ClientKind => ClientPrefix
    case GameKind => GamePrefix
  }

  /** A new identifier differs from every identifier of its kind handed out
      before, and counts as handed out afterwards. */
  lemma AllocatedIdIsFresh(s: State, kind: IdKind, earlier: string)
    requires IssuedBy(Prefix(kind), earlier, Counter(s, kind))
    ensures AllocateId(s, kind).id != earlier
    ensures IssuedBy(Prefix(kind), AllocateId(s, kind).id, Counter(AllocateId(s, kind).state, kind))
  {
  }

  /** Two successive identifiers of one kind differ. */
  lemma SuccessiveIdsDiffer(s: State, kind: IdKind)
    ensures AllocateId(s, kind).id != AllocateId(AllocateId(s, kind).state, kind).id
  {
    var a := AllocateId(s, kind);
    AllocatedIdIsFresh(a.state, kind, a.id);
  }

  // Registry queries

  predicate IsRegistered(s: State, id: string) {
    id in Keys(s.clients)
  }

  /** The connection registered under `id` (`self.clients[id]`). */
  function ConnOf(s: State, id: string): Conn
    requires IsRegistered(s, id)
  {
    Get(s.clients, id).value
  }

  /** `get_client_id`: the first id, in registration order, whose
      connection is `conn`; none if the connection never authenticated. */
  function GetClientId(s: State, conn: Conn): (r: Option<string>)
    ensures r.None? <==> forall i :: 0 <= i < |s.clients| ==> s.clients[i].1 != conn
    ensures r.Some? ==> exists i :: 0 <= i < |s.clients| && s.clients[i] == (r.value, conn) &&
                                    forall j :: 0 <= j < i ==> s.clients[j].1 != conn
  {
    FindKey(s.clients, conn)
  }

  /** `get_opponents_list`: the registered ids other than the requester, in
      registration order. An unregistered requester (`None`) gets them all. */
  function GetOpponentsList(s: State, requester: Option<string>): (r: seq<string>)
    ensures forall id :: id in r <==> IsRegistered(s, id) && requester != Some(id)
  {
    match requester
    case None => Keys(s.clients)
    case Some(id) => Without(Keys(s.clients), id)
  }

  // Invariant of every reachable state

  /** What every state reached from `NewServer` satisfies: ids are unique
      and were handed out by their counters, and every game's players are
      registered clients. */
  predicate Valid(s: State) {
    && DistinctKeys(s.clients)
    && (forall id :: id in Keys(s.clients) ==> IssuedBy(ClientPrefix, id, s.clientIdCounter))
    && (forall g :: g in s.games ==> IssuedBy(GamePrefix, g, s.gameIdCounter))
    && (forall g :: g in s.games ==> IsRegistered(s, s.games[g].player1) && IsRegistered(s, s.games[g].player2))
  }

  lemma NewServerValid()
    ensures Valid(NewServer())
  {
  }

  // Operations

  /** `authenticate_client`: a password the verifier accepts registers the
      connection under a new client id; otherwise nothing changes. */
  function AuthenticateClient(s: State, verify: string -> bool, conn: Conn, password: string): (r: Step)
    ensures |r.outbox| == 1 && r.outbox[0].to == conn
    ensures r.outbox[0].response.AuthenticationSuccess? <==> verify(password)
    ensures !verify(password) ==> r.state == s && r.outbox[0].response == AuthenticationFailure("Invalid password")
    ensures verify(password) ==>
              && Get(r.state.clients, r.outbox[0].response.clientId) == Some(conn)
              && ParseId(ClientPrefix, r.outbox[0].response.clientId) == Some(r.state.clientIdCounter)
    ensures verify(password) ==>
              && r.state.clientIdCounter == s.clientIdCounter + 1
              && r.outbox[0].response.clientId == FormatId(ClientPrefix, s.clientIdCounter + 1)
              && r.state.clients == Put(s.clients, FormatId(ClientPrefix, s.clientIdCounter + 1), conn)
    ensures r.state.games == s.games && r.state.gameIdCounter == s.gameIdCounter
  {
    if verify(password) then
      var a := AllocateId(s, ClientKind);
      Step(a.state.(clients := Put(a.state.clients, a.id, conn)), [Send(conn, AuthenticationSuccess(a.id))])
    else
      Step(s, [Send(conn, AuthenticationFailure("Invalid password"))])
  }

  /** `initiate_game`, with its guard as written: it refuses when the
      opponent's id is a key of the game table. */
  function InitiateGame(s: State, clientId: string, opponentId: string, word: string): (r: Step)
    requires IsRegistered(s, clientId) && IsRegistered(s, opponentId)
    ensures opponentId in s.games ==>
              r == Step(s, [Send(ConnOf(s, clientId), Error("Opponent is already in a game"))])
    ensures opponentId !in s.games ==>
              && r == CreateGame(s, clientId, opponentId, word)
              && r.outbox[0].to == ConnOf(s, clientId) && r.outbox[1].to == ConnOf(s, opponentId)
              && r.outbox[1].response == r.outbox[0].response
              && r.state.clients == s.clients
              && r.state.games[r.outbox[0].response.gameId].word == word
  {
    if opponentId in s.games then
      Step(s, [Send(ConnOf(s, clientId), Error("Opponent is already in a game"))])
    else
      CreateGame(s, clientId, opponentId, word)
  }

  /** The part of `initiate_game` past its guard: a new game id, a game
      started between the two players, and the same `game_started` reply to
      each of them. */
  function CreateGame(s: State, clientId: string, opponentId: string, word: string): (r: Step)
    requires IsRegistered(s, clientId) && IsRegistered(s, opponentId)
    ensures r.state.clients == s.clients && r.state.clientIdCounter == s.clientIdCounter
    ensures |r.outbox| == 2 && r.outbox[0].response == r.outbox[1].response
    ensures r.outbox[0].to == ConnOf(s, clientId) && r.outbox[1].to == ConnOf(s, opponentId)
    ensures r.outbox[0].response.GameStarted?
    ensures var id := r.outbox[0].response.gameId;
            && id == FormatId(GamePrefix, s.gameIdCounter + 1)
            && ParseId(GamePrefix, id) == Some(r.state.gameIdCounter)
            && r.state.gameIdCounter == s.gameIdCounter + 1
            && r.state.games.Keys == s.games.Keys + {id}
            && r.state.games[id] == GameSession.StartGame(GameSession.NewGame(), clientId, opponentId, word)
            && forall g :: g in s.games && g != id ==> r.state.games[g] == s.games[g]
    ensures Valid(s) ==> r.outbox[0].response.gameId !in s.games
  {
    var a := AllocateId(s, GameKind);
    assert Valid(s) ==> a.id !in s.games by {
      if Valid(s) && a.id in s.games {
        AllocatedIdIsFresh(s, GameKind, a.id);
      }
    }
    var game := GameSession.StartGame(GameSession.NewGame(), clientId, opponentId, word);
    var started := GameStarted(a.id);
    Step(a.state.(games := a.state.games[a.id := game]),
         [Send(ConnOf(s, clientId), started), Send(ConnOf(s, opponentId), started)])
  }

  /** Some game on the table was started against `opponentId`. */
  predicate OpponentBusy(s: State, opponentId: string) {
    exists g :: g in s.games && s.games[g].player2 == opponentId
  }

  /** `initiate_game` with the guard its error message describes: refuse
      when the opponent already plays a game. */
  function InitiateGameIntended(s: State, clientId: string, opponentId: string, word: string): (r: Step)
    requires IsRegistered(s, clientId) && IsRegistered(s, opponentId)
    ensures OpponentBusy(s, opponentId) ==>
              r == Step(s, [Send(ConnOf(s, clientId), Error("Opponent is already in a game"))])
    ensures !OpponentBusy(s, opponentId) ==>
              && r == CreateGame(s, clientId, opponentId, word)
              && r.outbox[0].to == ConnOf(s, clientId) && r.outbox[1].to == ConnOf(s, opponentId)
              && r.outbox[1].response == r.outbox[0].response
              && r.state.clients == s.clients
              && r.state.games[r.outbox[0].response.gameId].word == word
  {
    if OpponentBusy(s, opponentId) then
      Step(s, [Send(ConnOf(s, clientId), Error("Opponent is already in a game"))])
    else
      CreateGame(s, clientId, opponentId, word)
  }

  /** `end_game`: drop the game if it exists. */
  function EndGame(s: State, gameId: string): (r: State)
    ensures r.games.Keys == s.games.Keys - {gameId}
    ensures forall g :: g in r.games ==> r.games[g] == s.games[g]
    ensures r.clients == s.clients
    ensures r.clientIdCounter == s.clientIdCounter && r.gameIdCounter == s.gameIdCounter
  {
    if gameId in s.games then s.(games := s.games - {gameId}) else s
  }

  /** `process_client_message`: dispatch on the request's type. Nothing here
      checks that the connection has authenticated. */
  function Dispatch(s: State, verify: string -> bool, conn: Conn, msg: Request): (r: Step)
    ensures |r.outbox| <= 2
    ensures forall i :: 0 <= i < |r.outbox| ==> !r.outbox[i].response.HintReceived?
    ensures s.games.Keys <= r.state.games.Keys
    ensures s.clientIdCounter <= r.state.clientIdCounter && s.gameIdCounter <= r.state.gameIdCounter
    ensures !msg.Authentication? ==> r.state.clients == s.clients
  {
    match msg
    case Authentication(password) =>
      AuthenticateClient(s, verify, conn, password)
    case RequestOpponents =>
      Step(s, [Send(conn, OpponentsList(GetOpponentsList(s, GetClientId(s, conn))))])
    case StartGame(opponentId, word) =>
      var clientId := GetClientId(s, conn);
      if clientId.None? || !IsRegistered(s, opponentId) then
        Step(s, [Send(conn, Error("Invalid client or opponent ID"))])
      else
        KeyAt(s.clients, ClientIndex(s, conn));
        InitiateGame(s, clientId.value, opponentId, word)
    case Guess(guess, gameId) =>
      if gameId in s.games then
        var outcome := GameSession.GuessWord(s.games[gameId], guess);
        Step(s.(games := s.games[gameId := outcome.game]), [Send(conn, GuessResult(outcome.matched))])
      else
        Step(s, [])
    case Hint(hint, gameId) =>
      if gameId in s.games then
        var game := GameSession.AddHint(s.games[gameId], hint);
        Step(s.(games := s.games[gameId := game]), [Send(conn, HintAcknowledged)])
      else
        Step(s, [])
    case Unrecognized(msgType) =>
      Step(s, [Send(conn, Error("Unknown message type: " + msgType))])
  }

  /** Position of the entry `GetClientId` finds. */
  function ClientIndex(s: State, conn: Conn): (i: nat)
    requires GetClientId(s, conn).Some?
    ensures i < |s.clients| && s.clients[i] == (GetClientId(s, conn).value, conn)
  {
    FirstIndexOfValue(s.clients, conn).value
  }
}
