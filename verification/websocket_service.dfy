/** The event handlers of WebSocketService (src/services/websocket-service.ts)
    as pure functions. Each handler takes the world state and what it reads
    of the transport, and returns the new world state together with the
    messages it sends, in order. The transport itself (the `ws` server, its
    client set, `send` and `ping`) is outside the model. */
module WebSocketService {
  import opened Wrappers
  import opened JsText
  import opened Cypher
  import opened JsonString
  import opened Envelope
  import opened WorldState

  /** Identity of a connection object; `client != ws` compares these. */
  type ConnId = nat

  /** `WebSocket.readyState`. */
  datatype ReadyState = Connecting | Open | Closing | Closed

  /** A member of `wss.clients`: its connection, its ready state and its
      `isAlive` flag. */
  datatype Client = Client(conn: ConnId, readyState: ReadyState, isAlive: bool)

  /** What the server sends. Only the relayed broadcast is modelled down to
      its text; the object-shaped messages are kept structured. */
  datatype Outgoing =
    | Relay(frame: JsString)
    | UserReady(pov: Pov)
    | UserLeft(key: JsString, code: int, reason: JsString)
    | Snapshot(users: seq<Pov>)

  datatype Send = Send(to: ConnId, message: Outgoing)

  /** The outcome of one handler: the new `worldState.users` and the sends. */
  datatype Effect = Effect(users: seq<Pov>, sends: seq<Send>)

  /** `JSON.parse(payload)` followed by `hasOwnProperty('id')`. The parse is
      a parameter of the model; this is all the routing needs of it. */
  datatype Parsed = ParseFailed | NoId | WithId(pov: Pov)

  predicate Receives(sends: seq<Send>, x: ConnId) {
    exists k :: 0 <= k < |sends| && sends[k].to == x
  }

  /** `x` is a client other than the sender whose state is OPEN. */
  predicate Eligible(clients: seq<Client>, sender: ConnId, x: ConnId) {
    x != sender && exists i :: 0 <= i < |clients| && clients[i].conn == x && clients[i].readyState == Open
  }

  /** No connection is sent to twice. */
  predicate DistinctTargets(sends: seq<Send>) {
    forall a, b :: 0 <= a < b < |sends| ==> sends[a].to != sends[b].to
  }

  predicate DistinctConns(clients: seq<Client>) {
    forall i, j :: 0 <= i < j < |clients| ==> clients[i].conn != clients[j].conn
  }

  /** The broadcast loop: `wss.clients.forEach` sending `frame` to every
      client that is not the sender and is OPEN, in iteration order. */
  function Fanout(clients: seq<Client>, sender: ConnId, frame: JsString): (sends: seq<Send>)
    ensures |sends| <= |clients|
    ensures forall k :: 0 <= k < |sends| ==> sends[k].to != sender && sends[k].message == Relay(frame)
    decreases |clients|
  {
    if |clients| == 0 then []
    else if clients[0].conn != sender && clients[0].readyState == Open then
      [Send(clients[0].conn, Relay(frame))] + Fanout(clients[1..], sender, frame)
    else
      Fanout(clients[1..], sender, frame)
  }

  lemma {:induction false} EligibleCons(clients: seq<Client>, sender: ConnId, x: ConnId)
    requires |clients| > 0
    ensures Eligible(clients, sender, x) <==>
      (x != sender && clients[0].conn == x && clients[0].readyState == Open) || Eligible(clients[1..], sender, x)
  {
    if Eligible(clients, sender, x) {
      var i :| 0 <= i < |clients| && clients[i].conn == x && clients[i].readyState == Open;
      if i > 0 {
        assert clients[1..][i - 1] == clients[i];
      }
    }
    if Eligible(clients[1..], sender, x) {
      var i :| 0 <= i < |clients[1..]| && clients[1..][i].conn == x && clients[1..][i].readyState == Open;
      assert clients[i + 1] == clients[1..][i];
    }
  }

  lemma {:induction false} ReceivesCons(head: Send, rest: seq<Send>, x: ConnId)
    ensures Receives([head] + rest, x) <==> head.to == x || Receives(rest, x)
  {
    var sends := [head] + rest;
    assert sends[0] == head;
    if Receives(rest, x) {
      var k :| 0 <= k < |rest| && rest[k].to == x;
      assert sends[k + 1] == rest[k];
    }
    if Receives(sends, x) {
      var k :| 0 <= k < |sends| && sends[k].to == x;
      if k == 0 { assert sends[0] == head; } else { assert rest[k - 1] == sends[k]; }
    }
  }

  /** The recipients of a broadcast are exactly the OPEN clients other than
      the sender. */
  lemma {:induction false} FanoutRecipients(clients: seq<Client>, sender: ConnId, frame: JsString, x: ConnId)
    ensures Receives(Fanout(clients, sender, frame), x) <==> Eligible(clients, sender, x)
    decreases |clients|
  {
    if |clients| > 0 {
      var c := clients[0];
      var rest := Fanout(clients[1..], sender, frame);
      FanoutRecipients(clients[1..], sender, frame, x);
      EligibleCons(clients, sender, x);
      if c.conn != sender && c.readyState == Open {
        ReceivesCons(Send(c.conn, Relay(frame)), rest, x);
      }
    }
  }

  /** When the clients are distinct connections, no recipient is sent the
      broadcast twice. */
  lemma {:induction false} FanoutOncePerRecipient(clients: seq<Client>, sender: ConnId, frame: JsString)
    requires DistinctConns(clients)
    ensures DistinctTargets(Fanout(clients, sender, frame))
    decreases |clients|
  {
    if |clients| > 0 {
      var rest := Fanout(clients[1..], sender, frame);
      assert DistinctConns(clients[1..]) by {
        forall i, j | 0 <= i < j < |clients[1..]|
          ensures clients[1..][i].conn != clients[1..][j].conn
        {
          assert clients[1..][i] == clients[i + 1] && clients[1..][j] == clients[j + 1];
        }
      }
      FanoutOncePerRecipient(clients[1..], sender, frame);
      forall k | 0 <= k < |rest|
        ensures rest[k].to != clients[0].conn
      {
        assert Receives(rest, rest[k].to);
        FanoutRecipients(clients[1..], sender, frame, rest[k].to);
        var i :| 0 <= i < |clients[1..]| && clients[1..][i].conn == rest[k].to && clients[1..][i].readyState == Open;
        assert clients[1..][i] == clients[i + 1];
      }
      var sends := Fanout(clients, sender, frame);
      if clients[0].conn != sender && clients[0].readyState == Open {
        assert sends == [Send(clients[0].conn, Relay(frame))] + rest;
        forall a, b | 0 <= a < b < |sends|
          ensures sends[a].to != sends[b].to
        {
          assert sends[b] == rest[b - 1];
          if a > 0 {
            assert sends[a] == rest[a - 1];
            assert rest[a - 1].to != rest[b - 1].to;
          } else {
            assert sends[0].to == clients[0].conn;
            assert rest[b - 1].to != clients[0].conn;
          }
        }
      }
    }
  }

  /** `onMessage(ws, data)`: decode the envelope, then route by prefix,
      world state first. Every failure inside the `try` leaves the state as
      it was and sends nothing. */
  function OnMessage(users: seq<Pov>, clients: seq<Client>, sender: ConnId, frame: JsString,
                     parse: JsString -> Parsed): (r: Effect)
    ensures r.sends == [] || r.users == users
    ensures forall k :: 0 <= k < |r.sends| ==> r.sends[k].to != sender
    ensures UniqueIds(users) ==> UniqueIds(r.users)
  {
    match DeserializeMessage(frame)
    case None => Effect(users, [])
    case Some(message) =>
      if DetectWorldState(message) then
        match parse(DeserializeWorldState(message))
        case WithId(user) =>
          UpsertKeepsUnique(users, user);
          Effect(Upsert(users, user), [])
        case _ => Effect(users, [])
      else if DetectBroadcast(message) then
        Effect(users, Fanout(clients, sender, SerializeMessage(DeserializeBroadcast(message))))
      else
        Effect(users, [])
  }

  // ---------------------------------------------------------------------
  // Routing.

  /** An envelope that does not decode is dropped by the `catch`. */
  lemma UndecodableIgnored(users: seq<Pov>, clients: seq<Client>, sender: ConnId, frame: JsString,
                           parse: JsString -> Parsed)
    requires DeserializeMessage(frame) == None
    ensures OnMessage(users, clients, sender, frame, parse) == Effect(users, [])
  {
  }

  /** A world-state payload that does not parse, or parses to an object
      without `id`, changes nothing and is not relayed. */
  lemma WorldStateWithoutIdIgnored(users: seq<Pov>, clients: seq<Client>, sender: ConnId, frame: JsString,
                                   parse: JsString -> Parsed, message: JsString)
    requires DeserializeMessage(frame) == Some(message) && DetectWorldState(message)
    requires !parse(DeserializeWorldState(message)).WithId?
    ensures OnMessage(users, clients, sender, frame, parse) == Effect(users, [])
  {
  }

  /** A world-state payload with an `id` is upserted and never relayed, even
      when what follows the prefix itself begins with `broadcast:`. */
  lemma WorldStateUpserted(users: seq<Pov>, clients: seq<Client>, sender: ConnId, frame: JsString,
                           parse: JsString -> Parsed, message: JsString, user: Pov)
    requires DeserializeMessage(frame) == Some(message) && DetectWorldState(message)
    requires parse(DeserializeWorldState(message)) == WithId(user)
    ensures OnMessage(users, clients, sender, frame, parse) == Effect(Upsert(users, user), [])
  {
  }

  /** A broadcast leaves the world state alone and reaches exactly the OPEN
      clients other than the sender, once each, every one receiving a frame
      that parses back to the stripped payload. */
  lemma BroadcastRelayed(users: seq<Pov>, clients: seq<Client>, sender: ConnId, frame: JsString,
                         parse: JsString -> Parsed, message: JsString, x: ConnId)
    requires DeserializeMessage(frame) == Some(message) && DetectBroadcast(message)
    ensures var r := OnMessage(users, clients, sender, frame, parse);
      && r.users == users
      && (Receives(r.sends, x) <==> Eligible(clients, sender, x))
      && (forall k :: 0 <= k < |r.sends| ==>
            r.sends[k].message.Relay? &&
            ParseJsonString(r.sends[k].message.frame) == Some(DeserializeBroadcast(message)))
      && (DistinctConns(clients) ==> DistinctTargets(r.sends))
  {
    var relayed := SerializeMessage(DeserializeBroadcast(message));
    BroadcastEffect(users, clients, sender, frame, parse, message);
    FanoutRecipients(clients, sender, relayed, x);
    if DistinctConns(clients) {
      FanoutOncePerRecipient(clients, sender, relayed);
    }
  }

  lemma BroadcastEffect(users: seq<Pov>, clients: seq<Client>, sender: ConnId, frame: JsString,
                        parse: JsString -> Parsed, message: JsString)
    requires DeserializeMessage(frame) == Some(message) && DetectBroadcast(message)
    ensures OnMessage(users, clients, sender, frame, parse)
         == Effect(users, Fanout(clients, sender, SerializeMessage(DeserializeBroadcast(message))))
  {
    DetectorsExclusive(message);
  }

  /** A payload with neither prefix is only logged. */
  lemma UnclassifiedIgnored(users: seq<Pov>, clients: seq<Client>, sender: ConnId, frame: JsString,
                            parse: JsString -> Parsed, message: JsString)
    requires DeserializeMessage(frame) == Some(message)
    requires !DetectWorldState(message) && !DetectBroadcast(message)
    ensures OnMessage(users, clients, sender, frame, parse) == Effect(users, [])
  {
  }

  /** A client sending `worldstate:` and a viewpoint with an `id`, encoded
      twice as the wire requires, has that viewpoint stored whatever its
      identity: the server does not check it against the connection's key. */
  lemma ClientWorldStateUpdate(users: seq<Pov>, clients: seq<Client>, sender: ConnId, body: JsString,
                               parse: JsString -> Parsed, user: Pov)
    requires parse(body) == WithId(user)
    ensures var r := OnMessage(users, clients, sender, SerializeMessage(SerializeMessage(WorldStatePrefix + body)), parse);
      r == Effect(Upsert(users, user), []) && user in r.users
  {
    var message := WorldStatePrefix + body;
    EnvelopeRoundTrip(message);
    DetectWorldStateExactly(message);
    WorldStateStripInverse(body);
    WorldStateUpserted(users, clients, sender, SerializeMessage(SerializeMessage(message)), parse, message, user);
  }

  /** A client sending `broadcast:` and a payload, encoded twice, has the
      payload, encoded once, delivered to every other OPEN client and to
      nobody else. */
  lemma ClientBroadcast(users: seq<Pov>, clients: seq<Client>, sender: ConnId, payload: JsString,
                        parse: JsString -> Parsed, x: ConnId)
    ensures var r := OnMessage(users, clients, sender, SerializeMessage(SerializeMessage(BroadcastPrefix + payload)), parse);
      && r.users == users
      && (Receives(r.sends, x) <==> Eligible(clients, sender, x))
      && (forall k :: 0 <= k < |r.sends| ==> r.sends[k].message == Relay(SerializeMessage(payload)))
  {
    var message := BroadcastPrefix + payload;
    EnvelopeRoundTrip(message);
    DetectBroadcastExactly(message);
    DetectorsExclusive(message);
    BroadcastStripInverse(payload);
    FanoutRecipients(clients, sender, SerializeMessage(payload), x);
  }

  // ---------------------------------------------------------------------
  // Connection lifecycle.

  /** The connection handler: the placeholder `{ id: key }` is sent back as
      `userReady` to the new connection only, and is not stored. */
  function OnConnect(users: seq<Pov>, conn: ConnId, key: JsString): (r: Effect)
    ensures r.users == users
    ensures |r.sends| == 1 && r.sends[0].to == conn
    ensures r.sends[0].message.UserReady? && r.sends[0].message.pov.id == key
    ensures r.sends[0].message.pov.fields == None
  {
    Effect(users, [Send(conn, UserReady(Pov(key, None)))])
  }

  /** One `userLeft` message to each member of `peers`, in order. */
  function Notify(peers: seq<Client>, message: Outgoing): (sends: seq<Send>)
    ensures |sends| == |peers|
    ensures forall k :: 0 <= k < |peers| ==> sends[k].to == peers[k].conn && sends[k].message == message
  {
    seq(|peers|, k requires 0 <= k < |peers| => Send(peers[k].conn, message))
  }

  /** The close handler. `peers` is the client set as the transport presents
      it when the handler runs; which connections it holds is the
      transport's business. */
  function OnClose(users: seq<Pov>, peers: seq<Client>, key: JsString, code: int, reason: JsString): (r: Effect)
    ensures |r.sends| == |peers|
    ensures forall k :: 0 <= k < |peers| ==>
      r.sends[k].to == peers[k].conn && r.sends[k].message == UserLeft(key, code, reason)
    ensures |users| - 1 <= |r.users| <= |users|
    ensures |users| > 0 ==> |r.users| == |users| - 1
    ensures UniqueIds(users) ==> UniqueIds(r.users) && !HasId(r.users, key)
  {
    if UniqueIds(users) then
      CloseKeepsUnique(users, key);
      CloseForgetsKey(users, key);
      Effect(CloseRemoval(users, key), Notify(peers, UserLeft(key, code, reason)))
    else
      Effect(CloseRemoval(users, key), Notify(peers, UserLeft(key, code, reason)))
  }

  /** What the pong handler produces: the answering client and its sends. */
  datatype Heartbeat = Heartbeat(client: Client, sends: seq<Send>)

  /** The pong handler: the answering connection is marked alive and is the
      only one sent the world state. */
  function OnHeartbeat(users: seq<Pov>, ws: Client): (r: Heartbeat)
    ensures r.client.isAlive
    ensures r.client.conn == ws.conn && r.client.readyState == ws.readyState
    ensures forall x :: Receives(r.sends, x) <==> x == ws.conn
    ensures forall k :: 0 <= k < |r.sends| ==> r.sends[k].message == Snapshot(users)
  {
    var sends := [Send(ws.conn, Snapshot(users))];
    assert sends[0].to == ws.conn;
    Heartbeat(ws.(isAlive := true), sends)
  }

  // ---------------------------------------------------------------------
  // The store across a run of events.

  /** The events that reach the world state, each with what the handler
      reads of the transport. */
  datatype Event =
    | Connected(conn: ConnId, key: JsString)
    | MessageReceived(clients: seq<Client>, sender: ConnId, frame: JsString)
    | PongReceived(client: Client)
    | ConnectionClosed(peers: seq<Client>, key: JsString, code: int, reason: JsString)

  function Step(users: seq<Pov>, e: Event, parse: JsString -> Parsed): Effect {
    match e
    case Connected(conn, key) => OnConnect(users, conn, key)
    case MessageReceived(clients, sender, frame) => OnMessage(users, clients, sender, frame, parse)
    case PongReceived(client) => Effect(users, OnHeartbeat(users, client).sends)
    case ConnectionClosed(peers, key, code, reason) => OnClose(users, peers, key, code, reason)
  }

  /** The world state after the events, handled one at a time in order.
      Only a world-state message adds an entry, so the store never outgrows
      its start by more than the number of events. */
  function Run(users: seq<Pov>, events: seq<Event>, parse: JsString -> Parsed): (r: seq<Pov>)
    ensures |r| <= |users| + |events|
    decreases |events|
  {
    if |events| == 0 then users
    else
      StepChangesLittle(users, events[0], parse);
      Run(Step(users, events[0], parse).users, events[1..], parse)
  }

  /** Handling two runs of events one after the other is handling their
      concatenation. */
  lemma {:induction false} RunAppend(users: seq<Pov>, a: seq<Event>, b: seq<Event>, parse: JsString -> Parsed)
    ensures Run(users, a + b, parse) == Run(Run(users, a, parse), b, parse)
    decreases |a|
  {
    if |a| == 0 {
      assert a + b == b;
    } else {
      assert (a + b)[0] == a[0] && (a + b)[1..] == a[1..] + b;
      RunAppend(Step(users, a[0], parse).users, a[1..], b, parse);
    }
  }

  /** Starting from any store with one entry per identity, every sequence
      of events keeps it that way. */
  lemma {:induction false} RunKeepsUnique(users: seq<Pov>, events: seq<Event>, parse: JsString -> Parsed)
    requires UniqueIds(users)
    ensures UniqueIds(Run(users, events, parse))
    decreases |events|
  {
    if |events| > 0 {
      RunKeepsUnique(Step(users, events[0], parse).users, events[1..], parse);
    }
  }

  /** Connect and pong leave the store alone; a close removes at most one
      entry, not necessarily the closing identity's; a message adds at most
      one. */
  lemma StepChangesLittle(users: seq<Pov>, e: Event, parse: JsString -> Parsed)
    ensures var r := Step(users, e, parse);
      && (e.Connected? || e.PongReceived? ==> r.users == users)
      && (e.ConnectionClosed? ==> |users| - 1 <= |r.users| <= |users|)
      && (e.MessageReceived? ==> |users| <= |r.users| <= |users| + 1)
  {
  }
}
