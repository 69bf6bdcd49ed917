# vrmedialab-server message core in Dafny

This project models the message-handling core of a real-time world-state
server. Clients (game viewpoints) connect over WebSocket and send text frames.
The server keeps `worldState.users`, an ordered array of viewpoints (`Pov`).
It routes each frame by a literal prefix: `worldstate:` upserts a viewpoint,
and `broadcast:` relays a payload to the other open clients.

The modules follow the source:

- `Cypher` (`cypher.dfy`) is the prefix classifier of `src/services/cypher.ts`.
  It covers the two anchored regular expressions, their `test` and their
  non-global `replace`.
- `JsText` (`js_text.dfy`) defines ECMAScript strings as sequences of UTF-16
  code units. Surrogate halves are therefore representable.
- `JsonString` (`json_string.dfy`) covers JSON string literals as in section 7
  of RFC 8259.
  - The encoder follows ECMAScript's QuoteJSONString, which is what
    `JSON.stringify` does to a string. In its well-formed form it escapes lone
    surrogates.
  - The decoder is `JSON.parse` restricted to texts whose value is a string.
- `Envelope` (`envelope.dfy`) is the message envelope.
  - `serializeMessage` is one `JSON.stringify`.
  - `deserializeMessage` is two `JSON.parse` calls. A parse that throws
    becomes `None`.
- `WorldState` (`world_state.dfy`) is the store. It covers the
  `findIndex`/`push`/index-assignment upsert and the `findIndex`/`splice`
  removal on close. `Splice` follows Array.prototype.splice of ECMA-262,
  including negative starts.
- `WebSocketService` (`websocket_service.dfy`) has the event handlers as pure
  functions: `onMessage` routing, broadcast fan-out, connect, close and pong.
  The connect, message and close handlers return the new `users` and the
  list of messages they send. The pong handler returns the updated client
  and its sends, and leaves the store alone.
  `Run` folds the handlers over a sequence of events.
- `Wrappers` (`wrappers.dfy`) holds `Option`.

Parameters and abstractions:

- The viewpoint JSON parse is a parameter. `JSON.parse` plus
  `hasOwnProperty('id')` yields `ParseFailed`, `NoId` or `WithId(pov)`.
- A `Pov` is an `id` plus opaque `Fields`. `Fields` is `None` for the
  connect-time placeholder `{ id }`.
- A client is a record with a connection identity, its `readyState` and
  `isAlive`. The close handler's `sec-websocket-key` is a parameter of its
  own, as the handler closes over the request it was connected with.
- The client set the transport presents to a handler is passed in as a
  sequence, in iteration order.

Three behaviours of the code are easy to miss:

- Closing a connection whose key has no entry removes an entry anyway
  (src/services/websocket-service.ts:63-64). `findIndex` returns -1, and
  `splice(-1, 1)` drops the last entry (see Findings).
- The store can hold identities that are not any session's key
  (src/services/websocket-service.ts:112-118). An upsert stores whatever `id`
  the client sent. `ClientWorldStateUpdate` shows this for every identity.
- A broadcast is relayed as `serializeMessage` of the stripped text, not as
  the raw text (src/services/websocket-service.ts:135), so each recipient
  gets it encoded once. `BroadcastRelayed` and `ClientBroadcast` state this,
  and the recipient's single parse gives back the stripped payload.

## Model

| member | source | states |
|---|---|---|
| Cypher.StripLeading | src/services/cypher.ts:12-14 | An anchored non-global `replace(regex, '')` gives the rest after the prefix when the string begins with it. Otherwise it returns the string unchanged. |
| Cypher.DeserializeBroadcast | src/services/cypher.ts:12-14 | On a `broadcast:` message, `broadcast:` followed by the result gives back the message. On any other string the result is the input. |
| Cypher.DeserializeWorldState | src/services/cypher.ts:20-22 | On a `worldstate:` message, `worldstate:` followed by the result gives back the message. On any other string the result is the input. |
| Cypher.DetectWorldStateExactly | src/services/cypher.ts:16-18 | `detectWorldState(m)` holds if and only if `m` is the literal `worldstate:` followed by some string. |
| Cypher.DetectBroadcastExactly | src/services/cypher.ts:8-10 | `detectBroadcast(m)` holds if and only if `m` is the literal `broadcast:` followed by some string. |
| Cypher.WorldStateStripInverse | src/services/cypher.ts:20-22 | `deserializeWorldState("worldstate:" + r) == r` for every `r`. |
| Cypher.BroadcastStripInverse | src/services/cypher.ts:12-14 | `deserializeBroadcast("broadcast:" + r) == r` for every `r`. |
| Cypher.DetectorsExclusive | src/services/cypher.ts:5-6 | No string is both a world-state and a broadcast message. |
| Cypher.WorldStateStripOnce | src/services/cypher.ts:20-22 | Only the leading copy of `worldstate:` is removed. A doubled prefix leaves a string that is still a world-state message, so stripping is not idempotent. |
| Cypher.BroadcastStripOnce | src/services/cypher.ts:12-14 | The same holds for `broadcast:`. A doubled prefix strips to a string that still begins with it. |
| Cypher.WorldStateStripExample | src/services/cypher.ts:20-22 | `worldstate:worldstate:x` strips to `worldstate:x`. |
| JsonString.QuoteJsonString | src/services/websocket-service.ts:156 | `JSON.stringify` of a string is a quoted text: it begins and ends with a quote and is at least two units longer than the string. Its inverse is stated by ParseStringifyRoundTrip. |
| JsonString.ParseJsonString | src/services/websocket-service.ts:151 | `JSON.parse` yields a string only from a text at least two units longer than it, the two quotes. Its inverse is stated by ParseQuoted and ParseStringifyRoundTrip, and its rejections by NotQuotedRejected. |
| JsonString.QuoteBodyWellFormed | src/services/websocket-service.ts:154-157 | The characters that `JSON.stringify` writes between the quotes contain no raw control unit below 0x20 and no lone surrogate. |
| JsonString.StringifyWellFormed | src/services/websocket-service.ts:154-157 | For any string, lone surrogates included, the whole quoted output has no raw control unit and is well-formed UTF-16. |
| JsonString.ScanQuoteBody | src/services/websocket-service.ts:149-157 | Reading the encoded contents up to the closing quote gives back the original string. It leaves exactly the text that follows the quote. |
| JsonString.ParseQuoted | src/services/websocket-service.ts:149-152 | `JSON.parse` of `JSON.stringify(s)` is `s`, with any JSON whitespace before and after the literal. |
| JsonString.ParseStringifyRoundTrip | src/services/websocket-service.ts:149-157 | `JSON.parse(JSON.stringify(s)) === s` for every string `s`. |
| JsonString.QuoteInjective | src/services/websocket-service.ts:154-157 | Distinct strings stringify to distinct texts. |
| JsonString.QuoteBodyPlain | src/services/websocket-service.ts:154-157 | A string with no control unit, quote, backslash or surrogate is written as itself between quotes. |
| JsonString.NotQuotedRejected | src/services/websocket-service.ts:149-152 | A text whose first unit is neither JSON whitespace nor a quote does not parse as a string. |
| Envelope.SerializeMessage | src/services/websocket-service.ts:154-157 | `serializeMessage` writes a JSON text that parses back to its argument. It is at least two units longer than the argument. |
| Envelope.DeserializeMessage | src/services/websocket-service.ts:149-152 | A decoded payload is at least four units shorter than the frame, two pairs of quotes. What it returns is pinned down by EnvelopeRoundTrip, SingleEncodingParsesPayload and SingleEncodedBroadcastRejected. |
| Envelope.EnvelopeRoundTrip | src/services/websocket-service.ts:149-157 | `deserializeMessage(serializeMessage(serializeMessage(s))) == s` for every string `s`. |
| Envelope.SingleEncodingParsesPayload | src/services/websocket-service.ts:149-152 | For a payload encoded only once, the second parse runs on the payload itself. |
| Envelope.SingleEncodedBroadcastRejected | src/services/websocket-service.ts:149-152 | A `broadcast:` message encoded once does not decode, because the double decode needs the double encoding. |
| WorldState.FindIndex | src/services/websocket-service.ts:112 | `findIndex` returns -1 exactly when no entry has the id. Otherwise it returns an index holding the id, with no earlier entry holding it. |
| WorldState.FindIndexUnique | src/services/websocket-service.ts:112 | With one entry per id, `findIndex` finds the entry that holds the id. |
| WorldState.Upsert | src/services/websocket-service.ts:112-118 | The viewpoint is in the result. The length is unchanged for a known id and grows by one for a new id. |
| WorldState.UpsertAppendsNew | src/services/websocket-service.ts:112-114 | A new id is appended at the end. The length grows by one and all earlier entries are unchanged. |
| WorldState.FindIndexFirst | src/services/websocket-service.ts:112 | An index holding the id with no earlier entry holding it is what `findIndex` returns. |
| WorldState.UpsertReplacesExisting | src/services/websocket-service.ts:115-117 | In any store, a known id is replaced wholesale at the index `findIndex` gives. The length and every other entry are unchanged. |
| WorldState.UpsertKeepsUnique | src/services/websocket-service.ts:112-118 | Upsert preserves "at most one entry per id". |
| WorldState.UpsertContents | src/services/websocket-service.ts:112-118 | After an upsert the ids present are the old ones plus the new one. The new viewpoint is the only entry with its id. |
| WorldState.UpsertLastWins | src/services/websocket-service.ts:112-118 | In any store, two upserts with the same id leave it as if only the second had happened. Nothing is merged from the first. |
| WorldState.Splice | src/services/websocket-service.ts:64 | Array.prototype.splice removes between zero and `deleteCount` elements. |
| WorldState.SpliceAt | src/services/websocket-service.ts:64 | `splice(i, 1)` with an index inside the array removes exactly element `i`. |
| WorldState.SpliceMinusOne | src/services/websocket-service.ts:64 | `splice(-1, 1)` removes the last element. On an empty array it does nothing. |
| WorldState.CloseRemoval | src/services/websocket-service.ts:63-64 | The close handler removes exactly one entry from a non-empty store and nothing from an empty one. |
| WorldState.CloseRemovesPresent | src/services/websocket-service.ts:63-64 | With the key present, exactly its entry is removed and the rest keep their order. No entry with the key remains. |
| WorldState.CloseAbsentDropsLast | src/services/websocket-service.ts:63-64 | With the key absent, the last entry is removed if there is one. On an empty store nothing happens. |
| WorldState.CloseAbsentExample | src/services/websocket-service.ts:63-64 | When a session with no stored viewpoint closes, the viewpoint of an unrelated user is lost. |
| WorldState.CloseKeepsUnique | src/services/websocket-service.ts:63-64 | Removal on close preserves "at most one entry per id". |
| WorldState.CloseForgetsKey | src/services/websocket-service.ts:63-64 | After close, no entry carries the closing key. |
| WorldState.Remove | src/services/websocket-service.ts:63-64 | Corrected removal: a no-op when the key is absent. When the key is present, exactly one entry goes. |
| WorldState.RemoveIntended | src/services/websocket-service.ts:63-64 | Corrected removal keeps exactly the entries with other ids. It agrees with the handler as written whenever the key is present. |
| WebSocketService.Fanout | src/services/websocket-service.ts:133-137 | Every relayed message carries the same frame and goes to a connection other than the sender. There are at most as many messages as clients. |
| WebSocketService.FanoutRecipients | src/services/websocket-service.ts:133-137 | A connection receives the broadcast if and only if it is a client, is not the sender, and is OPEN. |
| WebSocketService.FanoutOncePerRecipient | src/services/websocket-service.ts:133-137 | If the clients are distinct connections, no connection is sent the broadcast twice. |
| WebSocketService.OnMessage | src/services/websocket-service.ts:101-147 | A message either changes the store or sends messages, never both. The sender is never sent anything. One entry per id is preserved. |
| WebSocketService.UndecodableIgnored | src/services/websocket-service.ts:143-146 | A frame whose envelope does not decode leaves the store unchanged and sends nothing. |
| WebSocketService.WorldStateWithoutIdIgnored | src/services/websocket-service.ts:107-126 | A world-state payload that fails to parse, or has no `id`, leaves the store unchanged and sends nothing. |
| WebSocketService.WorldStateUpserted | src/services/websocket-service.ts:107-118 | A world-state payload with an `id` is upserted and never relayed. |
| WebSocketService.BroadcastEffect | src/services/websocket-service.ts:129-137 | A broadcast message leaves the store unchanged. Its sends are the fan-out of the encoded stripped payload. |
| WebSocketService.BroadcastRelayed | src/services/websocket-service.ts:129-137 | A broadcast reaches exactly the OPEN non-sender clients, each once when connections are distinct. Each relayed frame parses back to the stripped payload, and the store is unchanged. |
| WebSocketService.UnclassifiedIgnored | src/services/websocket-service.ts:139-141 | A payload with neither prefix leaves the store unchanged and sends nothing. |
| WebSocketService.ClientWorldStateUpdate | src/services/websocket-service.ts:104-118 | A doubly encoded `worldstate:` frame with an `id` upserts that viewpoint, whatever its id, and sends nothing. |
| WebSocketService.ClientBroadcast | src/services/websocket-service.ts:104-137 | For a doubly encoded `broadcast:` frame, every OPEN client other than the sender gets the payload, encoded once, and nobody else does. |
| WebSocketService.OnConnect | src/services/websocket-service.ts:50-52 | Connecting sends one `userReady` to the new connection only. It carries a placeholder with the key as id and no fields, and the store is not changed. |
| WebSocketService.Notify | src/services/websocket-service.ts:66-68 | The `userLeft` fan-out sends one message to each member of the given client set, in order. |
| WebSocketService.OnClose | src/services/websocket-service.ts:60-69 | Close removes exactly one entry from a non-empty store, whichever key closes, and sends one `userLeft` to each given client. With one entry per id, that property is kept and the closing key is gone. |
| WebSocketService.OnHeartbeat | src/services/websocket-service.ts:159-163 | A pong marks the answering connection alive and sends the world state to it and to no other connection. |
| WebSocketService.Run | src/services/websocket-service.ts:45-147 | Handling events one at a time in order, the store never grows by more than the number of events. |
| WebSocketService.RunAppend | src/services/websocket-service.ts:45-147 | Handling two runs of events in turn is the same as handling their concatenation. |
| WebSocketService.RunKeepsUnique | src/services/websocket-service.ts:45-147 | Every sequence of connect, message, pong and close events preserves "at most one entry per id". |
| WebSocketService.StepChangesLittle | src/services/websocket-service.ts:45-147 | Connect and pong leave the store unchanged. A close removes at most one entry, not necessarily the closing key's, and a message adds at most one. |

## Left out

- The `ws`/`http` server setup, event registration, `send` and `ping`: they belong to the WebSocket transport, which the model does not include. Sends are modelled as returned message lists, and the client set is a parameter of each handler.
- Which connections `wss.clients` holds when the close handler runs, and whether a send to a closing socket succeeds, are decided inside `ws`. `OnClose` sends to every member of the client list it is given.
- The ping timer: a new `setInterval` is created per connection and only the last one is cleared on server close. The model has no clock, so timers are not represented; a pong is an event like any other.
- Error and server-error handlers, and all console logging: they only log.
- The texts of the `userReady`, `userLeft` and heartbeat messages: they are general JSON object encodings. They are kept structured as `UserReady`, `UserLeft` and `Snapshot`.
- Viewpoint JSON parsing and the `Vector3`/`Quaternion` fields of src/services/pov.ts. The parse is a function parameter, and identities are strings compared by value. An `id` of another JSON type is not modelled.
- `JSON.parse` of a text whose value is not a string is `None` in the model.
  - For the second parse of the envelope this changes nothing observable. The source then either finds no prefix or throws on `.replace`, so nothing is stored or sent.
  - For the first parse, the source coerces a non-string result with ToString before parsing again. An outer array holding one string could still be routed; the model drops it.
- Binary frames: a `Buffer` payload is taken to arrive as its text.
- The `isAlive` flag is only ever set, never read, so no eviction is modelled; the source has none.
- src/app.ts and dist/server/server.js are process bootstrap and an older echo server, not part of this model.
- WebSocketService.OnMessage: its own contract states only the common guarantees. The per-route behaviour is stated by the routing lemmas listed above.

## Findings

| source | as written | input that shows it | evidently intended | confidence | as-written member | corrected member |
|---|---|---|---|---|---|---|
| src/services/websocket-service.ts:63-64 | `users.splice(users.findIndex(u => u.id === key), 1)` | store `[a, b]`; a session with key `c` that never sent a world-state update closes; `findIndex` gives -1 and `splice(-1, 1)` removes `b` | remove the closing session's entry if present, otherwise leave the store unchanged | high; not executed | WorldState.CloseAbsentExample | WorldState.RemoveIntended |

A client that connects and closes without ever sending a world-state update
has no entry. The connect handler does not store the placeholder. So this
path is ordinary use, not a corner case. `CloseRemoval` and the service-level
`OnClose` model the handler as written. `Remove` is the corrected removal.
Its own contract says it leaves the store unchanged when the key is absent.
`RemoveIntended` proves that it keeps exactly the entries with other ids and
agrees with the handler whenever the key is present.
