# type-racer-wars: the game server's room logic and the browser's codec, in Dafny

type-racer-wars is a multiplayer typing race. Browsers connect over one WebSocket each.
They join a named room with a player name and a reconnect flag. Once three players are in,
a countdown starts; then everybody types the same text. Every key goes to the server, which
moves that player's cursor, answers with feedback and broadcasts progress. It records a finish
time when a player reaches the end, and publishes the results once everyone has finished.

This project models:

- the server's connection handler (`backend/src/ws.rs`);
- its state types (`backend/src/game.rs`);
- the protocol half of the browser client (`frontend/main.js`): its frame builders, its string
  reader, the `handleServer` reducer and the keydown filter.

It proves that the handler keeps the room invariant, and what each handler step changes and
emits. It also proves that each frame one side writes is read back by the other side as the
message it encodes, within these limits:
- the strings in it fit the u16 length prefix (at most 65535 bytes);
- they do not begin with U+FEFF, which the browser's `TextDecoder` drops (`Interop.ReadsBack`);
- the browser ignores NameConflict, Finish and Error frames (`Interop.ReduceIgnored`);
- it discards the character a Feedback carries and keeps only its verdict and position.

## Modules

| file | module | what it holds |
|---|---|---|
| `bytes.dfy` | `Bytes` | bytes, `Option`, big-endian integers cut to a width, as `to_be_bytes` and `DataView` read them |
| `utf8.dfy` | `Utf8` | UTF-8 as in RFC 3629: encoding, strict decoding, and lossy decoding with U+FFFD for each maximal ill-formed subpart |
| `game.dfy` | `Game` | `ClientMsg`, `ServerMsg`, the room record `RoomState`, its invariant, and the class `Room` |
| `protocol.dfy` | `Protocol` | `encode_str`, the nine payload layouts, the bus event, the forwarder's filter, the server's two frame parsers, the payload builders |
| `room.dfy` | `RoomSpec` | each transition as a function on room values (Join, Keystroke, Close, countdown) with its effects, and the invariant lemmas |
| `server.dfy` | `Server` | the registry class (one map behind one lock), the handler methods, and the receive loop's `Step` |
| `client.dfy` | `Client` | `encodeString`/`decodeString`, `sendJoin`, `sendKeystroke`, the keydown filter, the reducer `Reduce`, and the class `ClientState` with `HandleServer` |
| `interop.dfy` | `Interop` | client frames parse on the server; every server frame reduces in the browser as its message says |
| `reconnect.dfy` | `Reconnect` | what a browser receives and shows after a reconnect (see Findings) |

## How the source is represented

- **The room.** A room is a `RoomState` value: `players` (a set), `positions`, `finishes` (in
  append order), `text` and `raceStart`.
  - `RoomState.Valid` holds the invariant:
    - `positions` has exactly the keys of `players`;
    - every cursor is at most the number of characters of the text;
    - finishes only name players, at most once each, whose cursor is at the end, and exist only
      once the race has started.
  - The class `Game.Room` holds the same fields and is updated in place.
  - The class `Server.Registry` maps room names to `Room` objects.
    - A ghost map `states` mirrors the rooms' values.
    - `Registry.Valid` says every room keeps the invariant and no two names share an object.
- **Outputs.** A handler step returns its effects in order:
  - `Publish` for the process-wide broadcast channel, as (room, tag, payload);
  - `Send` for a frame written straight to this socket;
  - `SpawnCountdown` for a countdown task started for a room.

  The countdown task is `Registry.RunCountdown`: Countdown 3, 2 and 1, then the start time is
  recorded, then StartRace. The forwarder is `Protocol.Forward`.
- **Time.** Time is an explicit parameter `now`, in milliseconds of a monotonic clock.
  - `Elapsed` saturates at 0, as `Instant::elapsed` does.
  - Seconds are whole seconds, as `as_secs` gives.
- **Cast widths.** The casts of the source are written out.
  - `as u16` keeps the low 16 bits, for lengths, counts and cursors.
  - `as u64` keeps the low 64 bits, for the result times.
  - A Finish carries 128 bits.
- **Hash iteration order.** A `HashSet`/`HashMap` iteration order is unspecified.
  - `Server.Enumerate` picks one with `:|`.
  - Contracts say "for some enumeration `xs` of the set" (`RoomSpec.Enumerates`).
- **Short frames.** A frame too short for the handler's unchecked indexing makes the session
  task panic.
  - The model ends the receive loop there (`open == false`), with no cleanup, as a panic does.
  - The parsers return `None` for such frames.
- **Client exceptions.** In the browser, a `DataView` or `Uint8Array` over too few bytes throws.
  Every branch of `handleServer` reads everything before it assigns, so such a frame leaves
  `state` unchanged.
- **`__proto__`.** `state.otherProgress` is a plain `{}` object (`main.js:64`, `main.js:169`).
  Storing a number under the name `__proto__` (`main.js:190`) calls the prototype setter, which
  ignores it. `Client.PROTO` is that name; a ProgressUpdate for it changes nothing.
- **Text decoding.** `TextDecoder` is lossy UTF-8 decoding that also drops a leading U+FEFF.
  `Interop.ReadsBack` names the strings that survive both ends unchanged: those that fit the u16
  prefix and do not begin with U+FEFF.

### Where the code and its documentation differ (the model follows the code)

- A reconnect of a present name replays even before the race has started. There, only the
  LobbyUpdate goes out, because the replay's other parts depend on `race_start` (`ws.rs:98-156`).
- A countdown is spawned on every admit that leaves 3 or more players, not only when the room
  reaches 3 (`ws.rs:177`). A later countdown overwrites `race_start`.
- Keystrokes are accepted before the race starts: cursors can advance in the lobby, but no finish
  is recorded without a start time (`ws.rs:217-242`).
- A ProgressUpdate is broadcast for every keystroke, wrong ones included (`ws.rs:232-236`).
- The finish test compares the character cursor with the text's byte length (`ws.rs:239`).
  - The room text is the ASCII constant "The quick brown fox", where the two agree
    (`RoomSpec.DefaultTextLength`).
  - With non-ASCII text nobody could finish; the model keeps the byte length.
- The receive loop also ends when the stream ends or a read fails (`ws.rs:69`). The Close
  cleanup (`ws.rs:273-291`) then never runs (`Server.WsMessage.Gone`).
  - A lobby player whose connection drops stays in `players` and `positions` and still counts
    toward 3.
  - Once the race starts, that player never finishes unless it joins again under the same name.
    Every page load's first Join carries the reconnect flag (`main.js:26-29`, `main.js:110-126`),
    which re-binds a present name (`ws.rs:98`); until then RaceResult is not sent.
- The forwarder drops every tag-6 event (`ws.rs:51-52`), including the Feedback events the
  reconnect replay publishes.
- The Finish frame carries a 16-byte time (`ws.rs:245`). The browser reads only its first 8
  bytes, and then discards them (`main.js:194-201`).

## Model

| member | source | states |
|---|---|---|
| Bytes.BigEndian | backend/src/ws.rs:19 | `to_be_bytes` of a value cut to `w` bytes has exactly `w` bytes |
| Bytes.FromBigEndianInverse | frontend/main.js:21 | reading back `w` big-endian bytes gives the value modulo 256^w, so a u16 write keeps the low 16 bits |
| Bytes.BigEndianInverse | backend/src/ws.rs:77 | writing back the value read from any bytes gives those bytes |
| Bytes.ReadU16 | backend/src/ws.rs:77 | `u16::from_be_bytes` of a u16 write is the value modulo 2^16 |
| Bytes.ReadU64 | frontend/main.js:212 | `getBigUint64` of a u64 write is the value modulo 2^64 |
| Bytes.U16Bytes | backend/src/ws.rs:19 | a u16 write is the high byte, then the low byte |
| Utf8.EncodeChar | backend/src/ws.rs:20 | each character takes 1 to 4 UTF-8 bytes |
| Utf8.EncodedLengthIsLength | backend/src/ws.rs:19 | the byte length `s.len()` equals the sum of the characters' encoded lengths |
| Utf8.DecodeEncodeChar | frontend/main.js:11 | the decoder reads one encoded character back whole, followed by anything |
| Utf8.EncodeDecodeChar | backend/src/ws.rs:79 | every sequence the strict decoder accepts is the canonical encoding of the character it yields |
| Utf8.EncodeAppend | frontend/main.js:11 | encoding distributes over concatenation |
| Utf8.DecodeEncode | frontend/main.js:11 | strict decoding of an encoding gives the string back |
| Utf8.EncodeDecode | backend/src/ws.rs:79 | a well-formed byte string is the encoding of its decoding, so decoding is injective |
| Utf8.LossyAgreesWhenWellFormed | backend/src/ws.rs:79 | `from_utf8_lossy` replaces nothing in well-formed input |
| Utf8.DecodeLossyEncode | backend/src/ws.rs:213 | lossy decoding of an encoding gives the string back |
| Utf8.EncodeLength | backend/src/ws.rs:239 | the byte length is at least the character count, and equals it for ASCII |
| Game.Room.constructor | backend/src/ws.rs:89-95 | a new room has no players, cursors or finishes, no start, and the fixed text, and is valid |
| Protocol.EncodeStr | backend/src/ws.rs:18-22 | `encode_str` is 2 + the UTF-8 length bytes long |
| Protocol.Forward | backend/src/ws.rs:50-63 | a bus event becomes a frame iff its tag is not 6 and its room is the session's room, and the frame is the tag, then the payload |
| Protocol.ForwardBroadcast | backend/src/ws.rs:50-63 | a published message reaches its room's sessions as its frame, and a Feedback reaches no one |
| Protocol.ReadStr | backend/src/ws.rs:77-79 | a successful inline read moves the offset past the 2 length bytes and stays in the buffer |
| Protocol.ReadEncodedStr | backend/src/ws.rs:77-80 | the inline read at the offset of an `encode_str` returns the string and the offset after it |
| Protocol.EncodeNamesSnoc | backend/src/ws.rs:110 | each loop iteration appends one more `encode_str` to the roster payload |
| Protocol.EncodeResultsSnoc | backend/src/ws.rs:150-153 | each loop iteration appends one more entry to the results payload |
| Protocol.BuildLobbyUpdate | backend/src/ws.rs:108-110 | the LobbyUpdate loop builds the count, then every name, in order |
| Protocol.BuildRaceResult | backend/src/ws.rs:149-153 | the RaceResult loop builds the count, then each name and u64 time, in order |
| Protocol.LobbyEvent | backend/src/ws.rs:111 | publishes LobbyUpdate for the room |
| Protocol.NameConflictFrame | backend/src/ws.rs:164 | writes the one-byte frame [3] to this socket only |
| Protocol.CountdownEvent | backend/src/ws.rs:184 | publishes a Countdown with the seconds byte |
| Protocol.StartRaceEvent | backend/src/ws.rs:199-202 | publishes StartRace: the u16 byte length, then the text |
| Protocol.FeedbackFrame | backend/src/ws.rs:227-230 | writes Feedback with the pre-advance cursor, the correct flag and the key to this socket only |
| Protocol.FeedbackEvent | backend/src/ws.rs:133-136 | publishes a correct Feedback for a replayed character |
| Protocol.ProgressEvent | backend/src/ws.rs:234-236 | publishes ProgressUpdate: name, then the cursor as u16 |
| Protocol.FinishEvent | backend/src/ws.rs:244-246 | publishes Finish: name, then the time as u128 |
| Protocol.RaceResultEvent | backend/src/ws.rs:250-255 | publishes RaceResult for the room |
| Protocol.ErrorEvent | backend/src/ws.rs:266-269 | publishes Error with its message on the session's room |
| RoomSpec.DefaultTextLength | backend/src/ws.rs:93 | the fixed text has 19 characters and 19 bytes, so the finish test is at its last character |
| RoomSpec.AdmitKeepsValid | backend/src/ws.rs:166-167 | admitting a new name keeps the invariant, puts its cursor at 0, and leaves finishes and start alone |
| RoomSpec.KeyStepCursor | backend/src/ws.rs:221-224 | the cursor advances by exactly 1 iff the key is the character under it, never past the text; no other cursor or player, nor the text or the recorded start, changes |
| RoomSpec.KeyStepFinish | backend/src/ws.rs:239-242 | a finish is appended exactly on the correct key that reaches the end of a started race, and only then |
| RoomSpec.KeyStepKeepsValid | backend/src/ws.rs:217-258 | a keystroke keeps the invariant; no player finishes twice |
| RoomSpec.KeyStepAtEnd | backend/src/ws.rs:222-236 | at the end of the text a key changes nothing and emits a wrong Feedback and an unchanged ProgressUpdate |
| RoomSpec.LeaveKeepsValid | backend/src/ws.rs:279-290 | a Close before the start removes the name from players and cursors and changes nothing else (other cursors, finishes, text, start); after the start nothing changes; the invariant holds |
| RoomSpec.StartKeepsValid | backend/src/ws.rs:193-196 | recording the start sets it to now, keeps the invariant and changes nothing else; with the Admit, KeyStep and Leave lemmas, a recorded start is never cleared |
| RoomSpec.FinishedNamesCount | backend/src/game.rs:61 | finishes with distinct names name as many players as there are entries |
| RoomSpec.AllFinishedMeansEveryone | backend/src/ws.rs:249 | the count test `finishes.len() == players.len()` holds iff every player has finished |
| Server.Enumerate | backend/src/ws.rs:108 | lists every element of the hash set exactly once |
| Server.TwoBytes | backend/src/ws.rs:77 | `u16::from_be_bytes([a, b])` is a * 256 + b |
| Server.ReadField | backend/src/ws.rs:77-79 | the step-by-step offset read equals the inline string read |
| Server.ReplayFeedback | backend/src/ws.rs:129-138 | the replay loop publishes a correct Feedback for each index before the player's cursor, in order |
| Server.ReplayProgress | backend/src/ws.rs:142-146 | the replay loop publishes one ProgressUpdate per cursor entry, in the map's order |
| Server.Replay | backend/src/ws.rs:98-156 | a reconnect publishes the roster, then the race replay, for some iteration order of players and cursors |
| Server.RaceReplayEvents | backend/src/ws.rs:114-156 | once started: Countdown (3 minus elapsed seconds, at least 0), StartRace, the Feedbacks, the cursors, and RaceResult iff all have finished |
| Server.CountdownTicks | backend/src/ws.rs:183-186 | the countdown loop publishes Countdown 3, 2, 1, in that order |
| Server.CountdownOrder | backend/src/ws.rs:183-202 | the ticks followed by StartRace are the countdown task's effects |
| Server.Registry.constructor | backend/src/game.rs:67 | the registry starts empty and valid |
| Server.Registry.Entry | backend/src/ws.rs:89-95 | `entry().or_insert_with`: an existing room is kept as it is; an absent one is created new |
| Server.Registry.Join | backend/src/ws.rs:88-205 | a Join creates the room if absent, then reconnects, rejects or admits as `JoinState`/`JoinEffects` say, keeping every room valid |
| Server.Registry.RunCountdown | backend/src/ws.rs:181-203 | the countdown task publishes 3, 2, 1, records the start, publishes StartRace with the text, and changes nothing else |
| Server.TypeKey | backend/src/ws.rs:217-258 | the keystroke logic changes the room as `KeyStep` says and emits what `KeyEffects` says |
| Server.AdmitPlayer | backend/src/ws.rs:166-204 | a new name enters with cursor 0; the roster is published; a countdown is spawned iff 3 or more players are in |
| Server.LeavePlayer | backend/src/ws.rs:278-291 | before the start, the player leaves and the new roster is published; after it, nothing changes and nothing is emitted |
| Server.HandleJoin | backend/src/ws.rs:75-206 | the Join branch changes registry and session binding exactly as `JoinDone` says |
| Server.HandleKeystroke | backend/src/ws.rs:208-262 | for a bound session with an existing room, the room changes as `KeyStep` says; otherwise nothing changes and nothing is emitted |
| Server.HandleClose | backend/src/ws.rs:273-294 | the name is always unbound; a bound player leaves a room still in the lobby and the roster is republished |
| Server.Step | backend/src/ws.rs:69-298 | one receive-loop iteration: malformed frames end the loop, unknown tags publish Error, Join/Keystroke/Close act as their handlers, other messages are ignored, and the stream ending or a read error (`Gone`) ends the loop with rooms unchanged and no Close cleanup |
| Client.LeadingBom | frontend/main.js:166 | a decoded first character U+FEFF can only come from the bytes EF BB BF |
| Client.TextDecodeEncode | frontend/main.js:166 | `TextDecoder` gives back any string that does not start with U+FEFF from its UTF-8 encoding |
| Client.TextDecodeDropsBom | frontend/main.js:166 | leading bytes EF BB BF are dropped and the rest is decoded lossily |
| Client.TextDecodeKeepsRest | frontend/main.js:166 | bytes that do not start with EF BB BF decode exactly as lossy UTF-8 |
| Client.DecodeString | frontend/main.js:19-24 | a successful read takes 2 + length bytes and stays in the buffer |
| Client.DecodeStringMatchesServer | frontend/main.js:19-24 | the browser's reader and the server's accept the same buffers, take the same bytes, and give the same string but for a leading U+FEFF |
| Client.DecodeStringEncoded | frontend/main.js:10-24 | `decodeString` of `encodeString(s)`, anywhere in a buffer, gives s (less a leading U+FEFF) and 2 + its byte length |
| Client.Utf16Length | frontend/main.js:244 | a JavaScript string length lies between the character count and twice it |
| Client.SetBytes | frontend/main.js:104-105 | `buf.set` copies the bytes at the offset and leaves the rest of the array alone |
| Client.SendJoin | frontend/main.js:97-108 | the Join frame is 0, the room string, the name string, then the reconnect flag |
| Client.SendKeystroke | frontend/main.js:228-237 | the Keystroke frame is 1, the u16 byte length, then the UTF-8 of the key |
| Client.SetAt | frontend/main.js:180 | a JavaScript array store sets that index, keeps the others, and grows the array with holes when the index is beyond its end |
| Client.DecodeNames | frontend/main.js:137-142 | a successful roster read returns exactly `count` names |
| Client.DecodeResults | frontend/main.js:207-215 | a successful results read returns exactly `count` entries |
| Client.U16At | frontend/main.js:134-135 | `getUint16` reads a value below 2^16 |
| Client.ReadNames | frontend/main.js:137-142 | the roster loop with its moving offset computes `DecodeNames` |
| Client.ReadResults | frontend/main.js:207-215 | the results loop with its moving offset computes `DecodeResults` |
| Client.KeyToSend | frontend/main.js:239-247 | a key is sent only in the race; Backspace goes as "\b"; Enter goes; any other key goes iff it is one UTF-16 unit |
| Client.ClientState.constructor | frontend/main.js:58-67 | the initial state object: lobby, no players, countdown 0, no text |
| Client.ClientState.HandleServer | frontend/main.js:129-224 | `handleServer` changes the state object exactly as `Reduce` says for that frame |
| Interop.JoinAt | backend/src/ws.rs:75-85 | the server's Join parser recovers room, name and flag from the encoded fields |
| Interop.JoinRoundTrip | frontend/main.js:97-108 | a frame built by `sendJoin` parses on the server as that Join |
| Interop.KeystrokeRoundTrip | frontend/main.js:228-237 | a frame built by `sendKeystroke` parses on the server as that key |
| Interop.DecodeNamesEncoded | frontend/main.js:137-142 | the roster loop reads back every name the server wrote, in order, ending after the last |
| Interop.CutTimes | frontend/main.js:212 | the results as the browser holds them: the names, with each time modulo 2^64 |
| Interop.DecodeResultsEncoded | frontend/main.js:207-215 | the results loop reads back every entry the server wrote, each time cut to 64 bits |
| Interop.ReduceLobbyUpdate | frontend/main.js:133-146 | a LobbyUpdate frame sets the phase to lobby and the roster to the server's list, and nothing else |
| Interop.ReduceCountdown | frontend/main.js:153-158 | a Countdown frame sets the phase to countdown and shows the seconds sent |
| Interop.ReduceStartRace | frontend/main.js:160-171 | a StartRace frame sets the race phase and the text, one pending cell per character, the cursor to 0 and no other cursors, and nothing else |
| Interop.ReduceFeedback | frontend/main.js:173-183 | a Feedback frame marks the cell correct or wrong, and moves the cursor past it only when correct |
| Interop.ReduceProgressUpdate | frontend/main.js:185-192 | a ProgressUpdate frame records that player's cursor and nothing else, except under the name `__proto__`, where the store into a plain object calls the prototype setter, which ignores the number |
| Interop.ReduceRaceResult | frontend/main.js:203-219 | a RaceResult frame sets the phase to finished and the results to the server's list, times cut to 64 bits |
| Interop.ReduceIgnored | frontend/main.js:194-202 | NameConflict, Finish and Error frames leave the state unchanged |
| Reconnect.Delivered | backend/src/ws.rs:50-64 | an effect puts at most one frame on a socket: a direct frame only on the acting socket, a countdown spawn nothing |
| Reconnect.ReceivedAppend | backend/src/ws.rs:50-64 | a socket receives the frames of two effect lists in order |
| Reconnect.PublishedFrames | backend/src/ws.rs:50-63 | a published list without Feedbacks reaches every socket of the room whole, in order |
| Reconnect.PublishedFeedback | backend/src/ws.rs:51-52 | published Feedbacks reach no socket |
| Reconnect.ReceivedDirected | backend/src/ws.rs:164 | direct frames reach the acting socket whole and no other socket |
| Reconnect.ReplayIsPublished | backend/src/ws.rs:98-156 | the reconnect replay is its message list, every message published on the room's bus |
| Reconnect.PublishedReplayFrames | backend/src/ws.rs:98-156 | through the forwarder, every socket of the room receives the replay without its Feedbacks |
| Reconnect.DirectReplayFrames | backend/src/ws.rs:98-156 | written directly, the replay reaches the returning socket whole and nobody else |
| Reconnect.StartFrames | frontend/main.js:160-171 | roster, countdown and text leave the browser in the race, all cells pending and the cursor at 0 |
| Reconnect.FeedbackFrames | frontend/main.js:173-183 | p replayed correct Feedbacks mark the first p cells correct and put the cursor at p |
| Reconnect.ProgressFrames | frontend/main.js:185-192 | replayed ProgressUpdates change only the other players' cursors |
| Reconnect.ResultFrames | frontend/main.js:203-219 | the results, when sent, finish the race and leave text, cells and cursor alone |
| Reconnect.AfterReplay | frontend/main.js:129-224 | after head, p Feedbacks, cursors and results, the browser shows the text with the first p cells correct and the cursor at p |
| Reconnect.ReplayResetsCursor | backend/src/ws.rs:128-137 | as written: after a reconnect, the returning browser (and every other in the room) shows the cursor at 0 and every cell pending |
| Reconnect.DirectReplayRestoresCursor | backend/src/ws.rs:98-156 | as intended: a replay written to the returning socket restores its cursor and correct cells, and reaches nobody else |

## Left out

- Concurrency: tokio tasks, the async locks on socket and session fields, the broadcast
  channel's capacity and lag, and `sleep`.
  - Each handler step runs atomically, as the single registry lock makes it.
  - The countdown task runs as one step (`Registry.RunCountdown`), so its interleaving with other
    steps during its three seconds is not modelled.
- The clock: `Instant` is an explicit `now` parameter.
- `println!` logging.
- The process bootstrap in `backend/src/main.rs`, the axum upgrade and WebSocket framing
  (RFC 6455): the handler receives whole messages.
- serde derives on the game.rs enums: the wire format is the hand-written binary codec.
- Browser plumbing: socket events, Blob/ArrayBuffer conversion, `prompt`, `alert`,
  `localStorage` and `promptAndJoin`.
  - NameConflict changes no state; it only prompts again.
- Rendering: `render`, the draw functions and `getCharCoords` in `frontend/main.js`, and
  `frontend/render.js`. They are canvas output with floating-point text widths.
- Client.DecodeResults: keeps each time as the exact 64-bit value. `Number(t)` rounds values
  above 2^53 to a double, which is not modelled.
- Client.Utf16Length: the model's strings are sequences of scalar values, so lone surrogates in
  JavaScript strings are not represented. Array holes and UTF-16 indexing beyond that are not
  modelled either.
- Reconnect.Received: a session's bound room is taken as fixed while it receives one step's
  frames. In the source, the forwarder reads `my_room` at each delivery.
- Server.Step: a panic on a short frame ends the session without the Close cleanup. Tokio
  catching the panic and the socket closing are not modelled.

## Findings

| source | as written | input that shows it | evidently intended | confidence | as-written member | corrected member |
|---|---|---|---|---|---|---|
| backend/src/ws.rs:98-156 | The reconnect replay is published on the room's bus. The forwarder drops every tag-6 event (ws.rs:51-52), so the replayed Feedbacks reach no one. The replayed StartRace resets the browser's cells to pending and its cursor to 0. The same frames also reach every other browser in the room and reset them too. | A started room where the returning player's cursor is above 0, e.g. 5 correct keys typed, then a Join with the reconnect flag. The server keeps cursor 5; the returning browser shows 0. | The replay restores the returning browser: written to that socket, the Feedbacks mark the typed cells correct and put the cursor back, and no other browser is disturbed. | not executed | Reconnect.ReplayResetsCursor | Reconnect.DirectReplayRestoresCursor |

The handler in module `Server` keeps the replay as written, since it models the source; the
corrected replay is `Reconnect.DirectReplay`, about which the intended property is proved.
