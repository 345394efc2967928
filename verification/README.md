# Word-guessing server: framing, game sessions and dispatch in Dafny

This project models the core of a small multiplayer word-guessing server
(`part2/` of the repository). Clients authenticate, list opponents, start
one-word games against each other, and send guesses and hints over a
length-prefixed framing protocol. The model has four parts.

- **Framing codec** (`protocol.dfy`, module `Protocol`): `encode_message` and
  `decode_message`. A frame is a 4-byte big-endian unsigned length followed
  by exactly that many bytes. JSON and UTF-8 are abstract. A `Codec` value
  pairs a serialiser with a parser, each of which may fail. The round-trip
  assumption about them is the predicate `RoundTrips`, which the message
  round-trip lemma takes as a hypothesis.
- **Game session** (`game.dfy`, module `GameSession`): the `Game` record and
  its operations `start_game`, `get_opponent`, `guess_word` and `add_hint`,
  as pure functions.
- **Registry and dispatch** (`server.dfy`, module `Server`; properties in
  `server_lemmas.dfy`, module `ServerLemmas`). The server is an immutable
  `State` with four parts:
  - the clients as an insertion-ordered list of `(client_id, connection)`
    entries (module `OrderedMap` models the Python dict, including its
    order);
  - the games by id;
  - the client-id counter;
  - the game-id counter.

  `process_client_message` is `Dispatch`. It maps a state, a connection
  and a request to a new state plus an outbox of `(connection, response)`
  pairs. Password checking is a parameter `verify: string -> bool`.
- **Web callbacks** (`web_callbacks.dfy`, module `WebCallbacks`): the two
  registry callbacks of `part2/main.py`.

`decimal.dfy` renders and parses the counter in ids such as `client_7`.
`scenario.dfy` replays one concrete run step by step. `wrappers.dfy` holds
`Option` and `Result`.

The model follows the code as written:
- dispatch is not gated on authentication: only `start_game` needs the sender to hold a client id;
- `guess` and `hint` naming an unknown game send nothing;
- authenticating a connection again registers a second id;
- `initiate_game`'s guard tests the opponent's id against the game table's
  keys.

`Server.Valid` is the invariant of every reachable state:
- client ids are distinct;
- every id was issued by its counter;
- every game's players are registered clients.

`Server.NewServerValid` shows that a fresh server satisfies it, and
`ServerLemmas.DispatchPreservesValid`, `ServerLemmas.EndGamePreservesValid`
and `WebCallbacks.UpdatePreservesValid` show that each operation keeps it.
Most dispatch lemmas assume it.

## Model

| member | source | states |
|---|---|---|
| `Protocol.FromToBigEndian` | part2/protocol.py:52 | reading back k big-endian base-256 digits of a number below 256^k gives the number |
| `Protocol.ToFromBigEndian` | part2/protocol.py:31 | writing a digit string's value in as many digits gives the digit string back |
| `Protocol.PackLength` | part2/protocol.py:31 | `struct.pack('>I', n)` is 4 bytes: n's bits 31-24, 23-16, 15-8 and 7-0 |
| `Protocol.UnpackLength` | part2/protocol.py:52 | `struct.unpack('>I', h)` is h[0]·2^24 + h[1]·2^16 + h[2]·2^8 + h[3], always below 2^32 |
| `Protocol.UnpackPackLength` | part2/protocol.py:31 | unpacking a packed length below 2^32 gives the length |
| `Protocol.PackUnpackLength` | part2/protocol.py:52 | every 4-byte header is the packing of the length it unpacks to |
| `Protocol.Frame` | part2/protocol.py:30-34 | framing succeeds iff the payload is shorter than 2^32 bytes (otherwise `struct.pack` raises); the frame is 4 + (payload length) bytes, its header unpacks to the payload length and the payload follows unchanged |
| `Protocol.ErrorMessagesDistinct` | part2/protocol.py:28-68 | the exception texts of the encoding, header, short-content, long-content and decoding errors are pairwise different, so the text identifies the failed check |
| `Protocol.Unframe` | part2/protocol.py:48-61 | fewer than 4 bytes is "too short for a header"; fewer than 4 + declared length is "content shorter"; more is "content longer"; on success the content is exactly the bytes after the header |
| `Protocol.UnframeFrame` | part2/protocol.py:31-61 | unframing a frame gives its payload back |
| `Protocol.FrameUnframe` | part2/protocol.py:52-61 | every buffer that unframes is exactly the frame of the content it yields (no silent truncation or padding) |
| `Protocol.TruncatedFrameRejected` | part2/protocol.py:49-56 | every strict prefix of a frame is rejected |
| `Protocol.ExtendedFrameRejected` | part2/protocol.py:58-59 | a frame followed by any further bytes is rejected as too long |
| `Protocol.EncodeMessage` | part2/protocol.py:23-34 | a serialiser failure is reported as an encoding error, never as partial output; otherwise the result is the frame of the serialised bytes |
| `Protocol.EncodeFailure` | part2/protocol.py:23-31 | encoding fails exactly when serialisation fails or the serialised message has 2^32 bytes or more |
| `Protocol.EncodedLayout` | part2/protocol.py:31-34 | an encoded message is the packed byte count of the serialised message followed by those bytes |
| `Protocol.DecodeMessage` | part2/protocol.py:48-70 | framing errors pass through unchanged; a parser failure is a decoding error; a buffer that unframes and whose content parses decodes to exactly the parsed message, and a decoded message is what the parser makes of the bytes after the header |
| `Protocol.DecodeEncode` | part2/protocol.py:12-70 | given a serialiser/parser pair that round-trips, decoding an encoded message gives the message |
| `GameSession.NewGameIsBlank` | part2/game.py:8-13 | a fresh game has an empty word, no hints, no attempts and empty players, and equals any game started with empty players and word |
| `GameSession.StartGame` | part2/game.py:15-28 | the players and word are the given ones; hints are empty and attempts are zero |
| `GameSession.StartGameForgetsPriorState` | part2/game.py:24-28 | the result of starting a game does not depend on the state it was called on |
| `GameSession.OpponentOfStartedGame` | part2/game.py:30-31 | the opponent of a started game is the second player it was started with |
| `GameSession.GuessWord` | part2/game.py:33-44 | attempts go up by exactly one whether or not the guess matches; word, hints and players are unchanged; the guess matches iff it has the word's length and agrees with it letter by letter up to case |
| `GameSession.GuessingTheWordMatches` | part2/game.py:44 | any case variant of the word matches |
| `GameSession.WordMatchesItself` | part2/game.py:44 | the word itself matches |
| `GameSession.AddHint` | part2/game.py:46-53 | the hints become the old hints plus the new one at the end; nothing else changes |
| `GameSession.PlayAccounts` | part2/game.py:43-53 | over any sequence of guesses and hints, word and players stay fixed, attempts count exactly the guesses, and hints grow by exactly the hints given, in order |
| `Decimal.NatToString` | part2/server.py:157 | `str(n)` is a non-empty string of digits with no leading zero unless n is 0 |
| `Decimal.ParseNatToString` | part2/server.py:157 | reading back `str(n)` gives n |
| `Decimal.NatToStringInjective` | part2/server.py:155-160 | distinct counter values give distinct renderings |
| `OrderedMap.Put` | part2/server.py:137 | dict assignment: an existing key keeps its position and a new key is appended; the key maps to the new value and other keys are untouched |
| `OrderedMap.PutAbsent` | part2/server.py:137 | assigning a key the dict does not hold appends exactly one entry |
| `Server.ParseFormatId` | part2/server.py:157 | an id `prefix + str(n)` carries n |
| `Server.ClientIdsAreNotGameIds` | part2/server.py:155-160 | no id issued by the client counter is an id issued by the game counter |
| `Server.AllocateId` | part2/server.py:154-160 | allocation bumps only the counter of its kind, and the id is exactly the prefix followed by the decimal digits of the new counter value (`client_<n+1>` or `game_<n+1>`) |
| `Server.GenerateUniqueId` | part2/server.py:144-162 | "client" and "game" give `client_<n+1>` or `game_<n+1>` and bump only their own counter; any other kind raises "Unknown ID type specified." |
| `Server.AllocatedIdIsFresh` | part2/server.py:154-160 | a new id differs from every id of its kind issued before, and counts as issued afterwards |
| `Server.SuccessiveIdsDiffer` | part2/server.py:154-160 | two successive ids of one kind differ |
| `Server.NewServerValid` | part2/server.py:17-23 | a fresh server (no clients, no games, both counters 0) satisfies the invariant |
| `Server.GetClientId` | part2/server.py:122-125 | the result is none iff no client has this connection; otherwise it is the first id, in registration order, whose connection is this one |
| `Server.GetOpponentsList` | part2/server.py:164-172 | an id is listed iff it is registered and is not the requester's |
| `Server.AuthenticateClient` | part2/server.py:127-142 | exactly one reply, to the sender; it is a success iff the password verifies; on failure nothing changes and the reply is "Invalid password"; on success the client counter rises by exactly one, the reply carries `client_<n+1>`, and the registry is the old one with that id assigned to this connection (appended, since the id is fresh) |
| `Server.InitiateGame` | part2/server.py:174-192 | as written: an opponent id that is a game key gets the initiator an error and changes nothing; otherwise the result is exactly `CreateGame`'s: a game between the two ids with the given word starts under the next game id, the clients are untouched, and the same `game_started` goes to the initiator's and the opponent's connections |
| `Server.CreateGame` | part2/server.py:187-192 | one game is added under exactly `game_<n+1>`, which in a valid state is not yet a game key, so the table grows by one; the game is started with (initiator, opponent, word); other games and the clients are untouched; the same `game_started` reply goes to the initiator's and the opponent's connections |
| `Server.InitiateGameIntended` | part2/server.py:183-192 | corrected guard: if some game is already played against the opponent, nothing changes and the initiator gets the error; otherwise the result is exactly `CreateGame`'s, as with the guard as written: the game with the given word starts, the clients are untouched, and the same `game_started` goes to both connections |
| `Server.EndGame` | part2/server.py:208-216 | only that game id is removed (a no-op if absent); the other games, the clients and the counters are unchanged |
| `Server.Dispatch` | part2/server.py:75-120 | every request gets at most two replies and never `hint_received`; games are never removed; counters never decrease; only authentication touches the client list |
| `ServerLemmas.BusyGuardNeverFires` | part2/server.py:183 | in a valid state, a registered client id is never a key of the game table |
| `ServerLemmas.NextClientIdFresh` | part2/server.py:136-137 | the next client id is not registered yet |
| `ServerLemmas.NextGameIdFresh` | part2/server.py:187-188 | the next game id is not yet a game |
| `ServerLemmas.ClientIdOfConn` | part2/server.py:122-125 | the id found for a connection is registered to that connection |
| `ServerLemmas.AuthenticationSucceeds` | part2/server.py:135-139 | a verified password appends exactly one new entry (`client_<n+1>`, this connection), previously unregistered, and replies `authentication_success` with that id; games are unchanged |
| `ServerLemmas.AuthenticationFails` | part2/server.py:140-142 | a rejected password changes nothing and replies `authentication_failure` |
| `ServerLemmas.ReauthenticationAddsSecondId` | part2/server.py:122-137 | authenticating a registered connection again appends exactly `(client_<n+1>, conn)`, a second id for the same connection, and the connection still resolves to its first id |
| `ServerLemmas.OpponentsListIsRegistryMinusRequester` | part2/server.py:171-172 | the opponents list is the registry's ids in order, with the requester's id cut out at its position; an unregistered or absent requester gets every id |
| `ServerLemmas.RequestOpponentsAnswers` | part2/server.py:86-90 | `request_opponents` changes nothing and replies to the sender alone |
| `ServerLemmas.StartGameRejected` | part2/server.py:91-97 | from an unregistered connection, or naming an unregistered opponent, `start_game` creates nothing and sends one error, to the sender |
| `ServerLemmas.StartGameCreatesGame` | part2/server.py:183-192 | otherwise exactly one game is added under the fresh `game_<n+1>`, with the sender's id and the opponent; the same `game_started` reply goes to the sender and to the opponent's connection |
| `ServerLemmas.GuessAnswered` | part2/server.py:99-105 | a guess for an existing game bumps that game's attempts and replies with whether it matched, ignoring case; nothing else changes |
| `ServerLemmas.HintAnswered` | part2/server.py:106-113 | a hint for an existing game is appended to it and acknowledged; nothing else changes |
| `ServerLemmas.UnknownGameIgnored` | part2/server.py:99-113 | a guess or hint naming no game changes nothing and sends nothing |
| `ServerLemmas.UnknownTypeAnswered` | part2/server.py:118-120 | any other type changes nothing and replies "Unknown message type: <type>" |
| `ServerLemmas.DispatchPreservesValid` | part2/server.py:75-120 | every request keeps the registry invariant |
| `ServerLemmas.AuthenticationPreservesValid` | part2/server.py:135-137 | registering a client keeps the invariant |
| `ServerLemmas.CreateGamePreservesValid` | part2/server.py:187-189 | adding a game keeps the invariant |
| `ServerLemmas.ReplaceGamePreservesValid` | part2/server.py:101-111 | updating a game in place, with its players kept, keeps the invariant |
| `ServerLemmas.DispatchShape` | part2/server.py:75-120 | in a valid state, every reply goes to the sender, except that a `start_game` naming a registered opponent also sends `game_started` to that opponent's connection; clients are only appended |
| `ServerLemmas.EndGameIdempotent` | part2/server.py:215-216 | ending a game twice is the same as ending it once |
| `ServerLemmas.EndGamePreservesValid` | part2/server.py:215-216 | ending a game keeps the invariant |
| `ServerLemmas.InitiateGameAdmitsBusyOpponent` | part2/server.py:183-192 | as written, a registered opponent who already plays a game gets a second one, so afterwards two distinct game keys both name that opponent as player 2 |
| `ServerLemmas.InitiateGameIntendedRefusesBusy` | part2/server.py:183-186 | with the corrected guard, a busy opponent is refused: nothing changes and the initiator gets the error |
| `ServerLemmas.InitiateGameIntendedAgreesWhenFree` | part2/server.py:183-192 | with the corrected guard, a free opponent gets exactly what the code as written gives |
| `ServerLemmas.InitiateGameIntendedKeepsOneGamePerOpponent` | part2/server.py:183-192 | with the corrected guard, the invariant and "at most one game per opponent" are both kept |
| `WebCallbacks.GetGameData` | part2/main.py:11-19 | the result is none iff the game id is not a game; otherwise it is exactly that game's word, hints and attempts |
| `WebCallbacks.UpdateGameData` | part2/main.py:21-26 | the result is true iff the game exists; then only that game's hints change, by the new hint appended; on a missing id nothing changes |
| `WebCallbacks.GetAfterUpdate` | part2/main.py:11-26 | reading a game after adding a hint shows the hint last and everything else as before |
| `WebCallbacks.UpdateMatchesHintRequest` | part2/main.py:21-26 | adding a hint through the web callback changes the registry exactly as a `hint` request does |
| `WebCallbacks.UpdatePreservesValid` | part2/main.py:21-26 | the web update keeps the registry invariant |
| `Scenario.FirstLogin` | part2/server.py:127-139 | from a fresh server, connection 1 authenticating gets `client_1` |
| `Scenario.SecondLogin` | part2/server.py:127-139 | connection 2 authenticating next gets `client_2` |
| `Scenario.OpponentsOfFirst` | part2/server.py:86-90 | client_1 asking for opponents gets `["client_2"]` |
| `Scenario.FirstStartsKiwi` | part2/server.py:91-98 | client_1 starting a game against client_2 with "kiwi" creates `game_1`, and both connections get `game_started` for `game_1` |
| `Scenario.SecondGuessesKiwi` | part2/server.py:99-105 | client_2 guessing "kiwi" in `game_1` gets `guess_result` true |
| `Scenario.CaseInsensitiveGuess` | part2/game.py:44 | the guess "Atlas" matches the word "atlas" |
| `Scenario.TwoGamesAgainstOneOpponent` | part2/server.py:183-192 | after that run, a second `start_game` against client_2 starts `game_2` as well, leaving two games against client_2 |

## Left out

- Sockets, `select`, `accept` and the listener thread (part2/server.py:28-54) are transport I/O.
- The `handle_client` read loop (part2/server.py:56-73) is transport I/O. It decodes whatever a single `recv(1024)` returns, so a frame over 1020 payload bytes, or two frames arriving together, is rejected (`Protocol.TruncatedFrameRejected`, `Protocol.ExtendedFrameRejected`). The `ValueError` then ends that handler and closes the socket. The client's registry entry stays: nothing in the code ever removes a client.
- Sending replies (part2/server.py:194-206) is left out. The outbox holds response values. Turning one into bytes is `Protocol.EncodeMessage` with a response codec. Socket errors on send are printed and dropped by the source.
- `threading.Lock` and concurrency are left out (part2/server.py:24, 154; part2/main.py:32-33). The model is sequential. The lock covers only id allocation. The web thread and the handler threads touch `games` unlocked.
- bcrypt hashing and checking (part2/server.py:26, 135) become the `verify` parameter of `Dispatch`. The scenario fixes it to "equals securepassword".
- JSON and UTF-8 internals (part2/protocol.py:25-26, 65-66) are the abstract `Codec`. Whether `json.dumps`/`json.loads` round-trip is assumed through `RoundTrips`, not proved.
- Requests are a typed `Message` with the fields part2/client.py sends. Dict messages with missing or non-string fields are left out, and so is a `json.loads` result that is not a dict. In the source these mostly end in an `AttributeError` that kills the handler; an example is `authentication` without a password. A `game_id` of `null` (what client.py sends before it knows a game) behaves like any string that names no game, and is modelled that way.
- `GameSession.GuessWord`: case folding covers ASCII letters only. Python's `str.lower` applies full Unicode case mapping, and that is not modelled.
- `Protocol.ErrorMessage` gives the fixed part of each exception text. The library's detail appended to the JSON errors is not modelled.
- `hint_received` and forwarding hints to the opponent are commented out in the source (part2/server.py:115-117). The response exists in `Server.Response`, and `Server.Dispatch` states that it is never sent.
- part2/client.py (an interactive menu), part2/web_interface.py (Flask routing) and beautified_part1/js/script.js (a canvas animation) are not part of this model.

## Behaviour a reader might expect but the code does not have

The model follows the code in each case.
- `request_opponents`, `guess` and `hint` are not gated on an authenticated connection (part2/server.py:86-113). An unauthenticated `request_opponents` gets every registered id, and anyone may guess or hint in any game. `start_game` is refused with "Invalid client or opponent ID" when the sender has no client id (part2/server.py:91-97), which is the only check tied to authentication.
- A client is never unregistered, not even when its connection closes (part2/server.py:55-72).
- A game has no active, won or discarded status: a correct guess changes nothing but the attempt count (part2/game.py).
- A malformed payload gets no `error` reply: the `ValueError` from decoding ends the connection's handler.

## Findings

| source | as written | input that shows it | evidently intended | confidence | as-written member | corrected member |
|---|---|---|---|---|---|---|
| part2/server.py:183 | `if opponent_id in self.games` looks the opponent's client id up among game ids (`game_<n>`), so it never matches a registered opponent and the "Opponent is already in a game" refusal never happens | client_1 and client_2 authenticate; client_1 sends `start_game` against client_2 with "kiwi", then again with "fig": both start (`game_1`, `game_2`), each against client_2 (`Scenario.TwoGamesAgainstOneOpponent`) | refuse when some existing game is already played against that opponent | high; not executed | `Server.InitiateGame` (shown by `ServerLemmas.InitiateGameAdmitsBusyOpponent`, `ServerLemmas.BusyGuardNeverFires`) | `Server.InitiateGameIntended` (proved by `ServerLemmas.InitiateGameIntendedKeepsOneGamePerOpponent`, `ServerLemmas.InitiateGameIntendedRefusesBusy`) |

`Server.Dispatch` keeps the guard as written, so the dispatch model matches the program as it runs. `ServerLemmas.InitiateGameIntendedAgreesWhenFree` shows the corrected step differs from it only when the opponent is busy.
