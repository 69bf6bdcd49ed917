/** The message envelope of WebSocketService: `serializeMessage` is
    `JSON.stringify` on a string, `deserializeMessage` is `JSON.parse` applied
    twice, and a parse that throws is None. */
module Envelope {
  import opened Wrappers
  import opened JsText
  import opened JsonString

  /** `serializeMessage(message)`; what it writes parses back to `message`. */
  function SerializeMessage(message: JsString): (r: JsString)
    ensures ParseJsonString(r) == Some(message)
    ensures |r| >= |message| + 2
  {
    ParseStringifyRoundTrip(message);
    QuoteJsonString(message)
  }

  /** `deserializeMessage(frame)`: the outer parse must yield a string whose
      own text parses to a string. */
  function DeserializeMessage(frame: JsString): (r: Option<JsString>)
    ensures r.Some? ==> |r.value| + 4 <= |frame|
  {
    match ParseJsonString(frame)
    case None => None
    case Some(inner) => ParseJsonString(inner)
  }

  /** A payload the client encodes twice is read back unchanged. */
  lemma EnvelopeRoundTrip(s: JsString)
    ensures DeserializeMessage(SerializeMessage(SerializeMessage(s))) == Some(s)
  {
  }

  /** A payload encoded only once is read as if it were itself a JSON text:
      the envelope's second parse is applied to the payload. */
  lemma SingleEncodingParsesPayload(s: JsString)
    ensures DeserializeMessage(SerializeMessage(s)) == ParseJsonString(s)
  {
  }

  /** So a routed message encoded once never decodes: `broadcast:…` is not
      a JSON text. */
  lemma SingleEncodedBroadcastRejected(rest: JsString)
    ensures DeserializeMessage(SerializeMessage(Lit("broadcast:") + rest)) == None
  {
    var m := Lit("broadcast:") + rest;
    assert m[0] == Lit("broadcast:")[0] == 0x62;
    NotQuotedRejected(m);
    SingleEncodingParsesPayload(m);
  }
}
