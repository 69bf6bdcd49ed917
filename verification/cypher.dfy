/** The message classifier of src/services/cypher.ts.

    The two regular expressions `/^broadcast\:/` and `/^worldstate\:/` have no
    flags: `^` anchors at the start of the whole string, `\:` is a plain colon,
    and `String.prototype.replace` with a non-global regular expression
    replaces the first (here: the only possible, leading) match. */
module Cypher {
  import opened JsText

  /** The literal matched by the broadcast regular expression. */
  const BroadcastPrefix: JsString := Lit("broadcast:")

  /** The literal matched by the world-state regular expression. */
  const WorldStatePrefix: JsString := Lit("worldstate:")

  /** `regex.test(message)` for an anchored literal pattern. */
  predicate Matches(message: JsString, prefix: JsString) {
    StartsWith(message, prefix)
  }

  /** `message.replace(regex, '')` for an anchored literal pattern: the one
      leading occurrence is removed, otherwise the string is returned as is. */
  function StripLeading(message: JsString, prefix: JsString): (r: JsString)
    ensures Matches(message, prefix) ==> message == prefix + r
    ensures !Matches(message, prefix) ==> r == message
  {
    if Matches(message, prefix) then message[|prefix|..] else message
  }

  predicate DetectBroadcast(message: JsString) {
    Matches(message, BroadcastPrefix)
  }

  function DeserializeBroadcast(message: JsString): (r: JsString)
    ensures DetectBroadcast(message) ==> BroadcastPrefix + r == message
    ensures !DetectBroadcast(message) ==> r == message
  {
    StripLeading(message, BroadcastPrefix)
  }

  predicate DetectWorldState(message: JsString) {
    Matches(message, WorldStatePrefix)
  }

  function DeserializeWorldState(message: JsString): (r: JsString)
    ensures DetectWorldState(message) ==> WorldStatePrefix + r == message
    ensures !DetectWorldState(message) ==> r == message
  {
    StripLeading(message, WorldStatePrefix)
  }

  /** The world-state detector holds exactly for the strings that are the
      literal `worldstate:` followed by anything. */
  lemma DetectWorldStateExactly(m: JsString)
    ensures DetectWorldState(m) <==> exists rest: JsString :: m == WorldStatePrefix + rest
  {
    if DetectWorldState(m) {
      assert m == WorldStatePrefix + m[|WorldStatePrefix|..];
    }
    forall rest: JsString | m == WorldStatePrefix + rest
      ensures DetectWorldState(m)
    {
      assert m[..|WorldStatePrefix|] == WorldStatePrefix;
    }
  }

  /** The broadcast detector holds exactly for the strings that are the
      literal `broadcast:` followed by anything. */
  lemma DetectBroadcastExactly(m: JsString)
    ensures DetectBroadcast(m) <==> exists rest: JsString :: m == BroadcastPrefix + rest
  {
    if DetectBroadcast(m) {
      assert m == BroadcastPrefix + m[|BroadcastPrefix|..];
    }
    forall rest: JsString | m == BroadcastPrefix + rest
      ensures DetectBroadcast(m)
    {
      assert m[..|BroadcastPrefix|] == BroadcastPrefix;
    }
  }

  /** Stripping undoes prefixing, whatever follows the prefix. */
  lemma WorldStateStripInverse(rest: JsString)
    ensures DeserializeWorldState(WorldStatePrefix + rest) == rest
  {
    assert (WorldStatePrefix + rest)[..|WorldStatePrefix|] == WorldStatePrefix;
  }

  lemma BroadcastStripInverse(rest: JsString)
    ensures DeserializeBroadcast(BroadcastPrefix + rest) == rest
  {
    assert (BroadcastPrefix + rest)[..|BroadcastPrefix|] == BroadcastPrefix;
  }

  /** No string is both a world-state and a broadcast message: the two
      literals already differ in their first code unit. */
  lemma DetectorsExclusive(m: JsString)
    ensures !(DetectWorldState(m) && DetectBroadcast(m))
  {
    if DetectWorldState(m) {
      assert m[0] == m[..|WorldStatePrefix|][0] == WorldStatePrefix[0];
      assert WorldStatePrefix[0] != BroadcastPrefix[0];
    }
  }

  /** Only the leading copy is removed, so stripping is not idempotent: a
      doubled prefix leaves one copy behind. */
  lemma WorldStateStripOnce(rest: JsString)
    ensures DeserializeWorldState(WorldStatePrefix + WorldStatePrefix + rest) == WorldStatePrefix + rest
    ensures DetectWorldState(DeserializeWorldState(WorldStatePrefix + WorldStatePrefix + rest))
  {
    WorldStateStripInverse(WorldStatePrefix + rest);
    assert WorldStatePrefix + WorldStatePrefix + rest == WorldStatePrefix + (WorldStatePrefix + rest);
    assert (WorldStatePrefix + rest)[..|WorldStatePrefix|] == WorldStatePrefix;
  }

  lemma BroadcastStripOnce(rest: JsString)
    ensures DeserializeBroadcast(BroadcastPrefix + BroadcastPrefix + rest) == BroadcastPrefix + rest
    ensures DetectBroadcast(DeserializeBroadcast(BroadcastPrefix + BroadcastPrefix + rest))
  {
    BroadcastStripInverse(BroadcastPrefix + rest);
    assert BroadcastPrefix + BroadcastPrefix + rest == BroadcastPrefix + (BroadcastPrefix + rest);
    assert (BroadcastPrefix + rest)[..|BroadcastPrefix|] == BroadcastPrefix;
  }

  /** The concrete instance: `worldstate:worldstate:x` strips to `worldstate:x`. */
  lemma WorldStateStripExample()
    ensures DeserializeWorldState(Lit("worldstate:worldstate:x")) == Lit("worldstate:x")
  {
    assert Lit("worldstate:worldstate:x") == WorldStatePrefix + Lit("worldstate:x");
    WorldStateStripInverse(Lit("worldstate:x"));
  }
}
