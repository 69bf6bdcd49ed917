/** JSON string literals (section 7 of RFC 8259), as produced by ECMAScript's
    `JSON.stringify` on a string value (the abstract operation QuoteJSONString
    of ECMA-262, in its well-formed form that escapes lone surrogates) and as
    read back by `JSON.parse` when the JSON text is a single string. */
module JsonString {
  import opened Wrappers
  import opened JsText

  const Quote: CodeUnit := 0x22
  const Backslash: CodeUnit := 0x5C

  /** Lowercase hexadecimal digit, as UnicodeEscape writes it. */
  function HexDigit(d: int): (r: CodeUnit)
    requires 0 <= d < 16
    ensures 0x30 <= r <= 0x39 || 0x61 <= r <= 0x66
  {
    if d < 10 then 0x30 + d else 0x61 + (d - 10)
  }

  /** Value of a hexadecimal digit of either case; None for any other unit. */
  function HexValue(u: CodeUnit): (r: Option<int>)
    ensures r.Some? ==> 0 <= r.value < 16
    ensures r.Some? <==> (0x30 <= u <= 0x39 || 0x41 <= u <= 0x46 || 0x61 <= u <= 0x66)
  {
    if 0x30 <= u <= 0x39 then Some(u - 0x30)
    else if 0x41 <= u <= 0x46 then Some(u - 0x41 + 10)
    else if 0x61 <= u <= 0x66 then Some(u - 0x61 + 10)
    else None
  }

  /** UnicodeEscape: a backslash, `u` and four lowercase hexadecimal digits. */
  function UnicodeEscape(u: CodeUnit): (r: JsString)
    ensures |r| == 6 && r[0] == Backslash && r[1] == 0x75
  {
    [Backslash, 0x75,
     HexDigit(u / 0x1000), HexDigit(u / 0x100 % 0x10), HexDigit(u / 0x10 % 0x10), HexDigit(u % 0x10)]
  }

  /** The output for one code unit that is not the lead of a surrogate pair:
      the seven units with a short escape, then the controls below 0x20 and
      the lone surrogates as UnicodeEscape, everything else as itself. */
  function EscapeUnit(u: CodeUnit): (r: JsString)
  {
    if u == 0x08 then [Backslash, 0x62]            // \b
    else if u == 0x09 then [Backslash, 0x74]       // \t
    else if u == 0x0A then [Backslash, 0x6E]       // \n
    else if u == 0x0C then [Backslash, 0x66]       // \f
    else if u == 0x0D then [Backslash, 0x72]       // \r
    else if u == Quote then [Backslash, Quote]     // \"
    else if u == Backslash then [Backslash, Backslash]
    else if u < 0x20 || IsSurrogate(u) then UnicodeEscape(u)
    else [u]
  }

  /** The unit at `i` is not half of a broken surrogate pair. */
  predicate PairedAt(s: JsString, i: int)
    requires 0 <= i < |s|
  {
    && (IsHighSurrogate(s[i]) ==> i + 1 < |s| && IsLowSurrogate(s[i + 1]))
    && (IsLowSurrogate(s[i]) ==> 0 < i && IsHighSurrogate(s[i - 1]))
  }

  /** Every high surrogate is followed by a low one and every low surrogate
      follows a high one. */
  predicate WellFormedUtf16(s: JsString) {
    forall i :: 0 <= i < |s| ==> PairedAt(s, i)
  }

  /** No code unit below 0x20 appears unescaped. */
  predicate NoControlUnits(s: JsString) {
    forall i :: 0 <= i < |s| ==> s[i] >= 0x20
  }

  lemma {:induction false} WellFormedConcat(a: JsString, b: JsString)
    requires WellFormedUtf16(a) && WellFormedUtf16(b)
    ensures WellFormedUtf16(a + b)
  {
    var c := a + b;
    forall i | 0 <= i < |c|
      ensures PairedAt(c, i)
    {
      if i < |a| {
        assert PairedAt(a, i);
        if i + 1 < |a| { assert c[i + 1] == a[i + 1]; }
        if 0 < i { assert c[i - 1] == a[i - 1]; }
      } else {
        assert PairedAt(b, i - |a|);
        if i + 1 < |c| { assert c[i + 1] == b[i + 1 - |a|]; }
        if |a| < i { assert c[i - 1] == b[i - 1 - |a|]; }
      }
    }
  }

  /** A string without surrogates is trivially well formed. */
  lemma {:induction false} NoSurrogatesWellFormed(s: JsString)
    requires forall i :: 0 <= i < |s| ==> !IsSurrogate(s[i])
    ensures WellFormedUtf16(s)
  {
    forall i | 0 <= i < |s|
      ensures PairedAt(s, i)
    {
      assert !IsSurrogate(s[i]);
    }
  }

  lemma EscapeUnitWellFormed(u: CodeUnit)
    ensures NoControlUnits(EscapeUnit(u)) && WellFormedUtf16(EscapeUnit(u))
  {
    var e := EscapeUnit(u);
    if |e| == 6 {
      assert e[2] == HexDigit(u / 0x1000);
      assert e[3] == HexDigit(u / 0x100 % 0x10);
    }
    NoSurrogatesWellFormed(e);
  }

  lemma {:induction false} PairWellFormed(s: JsString)
    requires |s| >= 2 && IsHighSurrogate(s[0]) && IsLowSurrogate(s[1])
    ensures NoControlUnits(s[..2]) && WellFormedUtf16(s[..2])
  {
    var p := s[..2];
    assert PairedAt(p, 0);
    assert PairedAt(p, 1);
  }

  /** The contents of the quoted literal, code point by code point: a valid
      surrogate pair is copied, every other unit goes through EscapeUnit. */
  function QuoteBody(s: JsString): (r: JsString)
    ensures |r| >= |s|
    decreases |s|
  {
    if |s| == 0 then []
    else if |s| >= 2 && IsHighSurrogate(s[0]) && IsLowSurrogate(s[1]) then s[..2] + QuoteBody(s[2..])
    else EscapeUnit(s[0]) + QuoteBody(s[1..])
  }

  /** `JSON.stringify(s)` for a string `s`. */
  function QuoteJsonString(s: JsString): (r: JsString)
    ensures |r| >= |s| + 2 && r[0] == Quote && r[|r| - 1] == Quote
  {
    [Quote] + QuoteBody(s) + [Quote]
  }

  lemma {:induction false} NoControlConcat(a: JsString, b: JsString)
    requires NoControlUnits(a) && NoControlUnits(b)
    ensures NoControlUnits(a + b)
  {
    var c := a + b;
    forall i | 0 <= i < |c|
      ensures c[i] >= 0x20
    {
      if i < |a| { assert c[i] == a[i]; } else { assert c[i] == b[i - |a|]; }
    }
  }

  /** The encoded contents hold no raw control unit and no lone surrogate. */
  lemma {:induction false} QuoteBodyWellFormed(s: JsString)
    ensures NoControlUnits(QuoteBody(s)) && WellFormedUtf16(QuoteBody(s))
    decreases |s|
  {
    if |s| == 0 {
    } else if |s| >= 2 && IsHighSurrogate(s[0]) && IsLowSurrogate(s[1]) {
      QuoteBodyWellFormed(s[2..]);
      PairWellFormed(s);
      NoControlConcat(s[..2], QuoteBody(s[2..]));
      WellFormedConcat(s[..2], QuoteBody(s[2..]));
    } else {
      QuoteBodyWellFormed(s[1..]);
      EscapeUnitWellFormed(s[0]);
      NoControlConcat(EscapeUnit(s[0]), QuoteBody(s[1..]));
      WellFormedConcat(EscapeUnit(s[0]), QuoteBody(s[1..]));
    }
  }

  /** `JSON.stringify` of any string, lone surrogates included, is a JSON
      text without raw control units and is well-formed UTF-16. */
  lemma StringifyWellFormed(s: JsString)
    ensures NoControlUnits(QuoteJsonString(s)) && WellFormedUtf16(QuoteJsonString(s))
  {
    var body := QuoteBody(s);
    QuoteBodyWellFormed(s);
    NoSurrogatesWellFormed([Quote]);
    NoControlConcat([Quote], body);
    NoControlConcat([Quote] + body, [Quote]);
    WellFormedConcat([Quote], body);
    WellFormedConcat([Quote] + body, [Quote]);
  }

  // ---------------------------------------------------------------------
  // Reading a string literal back.

  /** A scanned literal: the decoded string and the text after the closing
      quote. */
  datatype Scan = Scan(value: JsString, rest: JsString)

  /** The two-character escapes of section 7 of RFC 8259, by the unit after
      the backslash. */
  function SimpleEscape(u: CodeUnit): Option<CodeUnit> {
    if u == Quote then Some(Quote)
    else if u == Backslash then Some(Backslash)
    else if u == 0x2F then Some(0x2F)              // \/
    else if u == 0x62 then Some(0x08)              // \b
    else if u == 0x66 then Some(0x0C)              // \f
    else if u == 0x6E then Some(0x0A)              // \n
    else if u == 0x72 then Some(0x0D)              // \r
    else if u == 0x74 then Some(0x09)              // \t
    else None
  }

  /** The unit named by the four hexadecimal digits of a `\u` escape. */
  function Hex4(t: JsString): (r: Option<CodeUnit>)
    requires |t| == 4
  {
    match (HexValue(t[0]), HexValue(t[1]), HexValue(t[2]), HexValue(t[3]))
    case (Some(a), Some(b), Some(c), Some(d)) => Some(a * 0x1000 + b * 0x100 + c * 0x10 + d)
    case _ => None
  }

  function Cons(u: CodeUnit, r: Option<Scan>): Option<Scan> {
    match r
    case None => None
    case Some(sc) => Some(Scan([u] + sc.value, sc.rest))
  }

  /** Scans the contents of a string literal whose opening quote has been
      consumed, up to and including the closing quote. An unescaped control
      unit, an unknown escape or a missing closing quote is a syntax error. */
  function ScanChars(t: JsString): (r: Option<Scan>)
    ensures r.Some? ==> |r.value.rest| < |t|
    decreases |t|
  {
    if |t| == 0 then None
    else if t[0] == Quote then Some(Scan([], t[1..]))
    else if t[0] == Backslash then
      if |t| < 2 then None
      else if t[1] == 0x75 then
        if |t| < 6 then None
        else match Hex4(t[2..6])
          case None => None
          case Some(u) => Cons(u, ScanChars(t[6..]))
      else match SimpleEscape(t[1])
        case None => None
        case Some(u) => Cons(u, ScanChars(t[2..]))
    else if t[0] < 0x20 then None
    else Cons(t[0], ScanChars(t[1..]))
  }

  /** Whitespace allowed around a JSON value. */
  predicate IsJsonWhitespace(u: CodeUnit) {
    u == 0x20 || u == 0x09 || u == 0x0A || u == 0x0D
  }

  function SkipWhitespace(t: JsString): (r: JsString)
    ensures |r| <= |t| && r == t[|t| - |r|..]
    ensures forall i :: 0 <= i < |t| - |r| ==> IsJsonWhitespace(t[i])
    ensures |r| == 0 || !IsJsonWhitespace(r[0])
  {
    if |t| > 0 && IsJsonWhitespace(t[0]) then SkipWhitespace(t[1..]) else t
  }

  /** `JSON.parse(t)` when `t` is a JSON text whose value is a string; any
      other text (a syntax error, or a value of another type) is None. */
  function ParseJsonString(t: JsString): (r: Option<JsString>)
    ensures r.Some? ==> |r.value| + 2 <= |t|
  {
    var t' := SkipWhitespace(t);
    if |t'| == 0 || t'[0] != Quote then None
    else match ScanChars(t'[1..])
      case None => None
      case Some(sc) =>
        ScanShrinks(t'[1..]);
        if SkipWhitespace(sc.rest) == [] then Some(sc.value) else None
  }

  /** Every decoded unit costs at least one unit of text, and the closing
      quote one more. */
  lemma {:induction false} ScanShrinks(t: JsString)
    ensures ScanChars(t).Some? ==> |ScanChars(t).value.value| + |ScanChars(t).value.rest| < |t|
    decreases |t|
  {
    if |t| > 0 && t[0] != Quote {
      if t[0] == Backslash && |t| >= 2 {
        if t[1] == 0x75 {
          if |t| >= 6 { ScanShrinks(t[6..]); }
        } else {
          ScanShrinks(t[2..]);
        }
      } else if t[0] != Backslash {
        ScanShrinks(t[1..]);
      }
    }
  }

  // ---------------------------------------------------------------------
  // Round trip.

  lemma HexDigitValue(d: int)
    requires 0 <= d < 16
    ensures HexValue(HexDigit(d)) == Some(d)
  {
  }

  lemma HexDigitsRecombine(u: CodeUnit)
    ensures (u / 0x1000) * 0x1000 + (u / 0x100 % 0x10) * 0x100 + (u / 0x10 % 0x10) * 0x10 + u % 0x10 == u
    ensures 0 <= u / 0x1000 < 16
  {
    var a, b, c, d := u / 0x1000, u / 0x100 % 0x10, u / 0x10 % 0x10, u % 0x10;
    assert u / 0x100 == a * 0x10 + b;
    assert u / 0x10 == (u / 0x100) * 0x10 + c;
    assert u == (u / 0x10) * 0x10 + d;
  }

  lemma {:induction false} ScanUnicodeEscape(u: CodeUnit, tail: JsString)
    ensures ScanChars(UnicodeEscape(u) + tail) == Cons(u, ScanChars(tail))
  {
    var e := UnicodeEscape(u);
    var t := e + tail;
    HexDigitsRecombine(u);
    HexDigitValue(u / 0x1000);
    HexDigitValue(u / 0x100 % 0x10);
    HexDigitValue(u / 0x10 % 0x10);
    HexDigitValue(u % 0x10);
    assert t[2..6] == e[2..6];
    assert Hex4(t[2..6]) == Some(u);
    assert t[6..] == tail;
  }

  lemma {:induction false} ScanShortEscape(c: CodeUnit, u: CodeUnit, tail: JsString)
    requires c != 0x75 && SimpleEscape(c) == Some(u)
    ensures ScanChars([Backslash, c] + tail) == Cons(u, ScanChars(tail))
  {
    assert ([Backslash, c] + tail)[2..] == tail;
  }

  /** One unit written by EscapeUnit reads back as that unit. */
  lemma {:induction false} ScanEscapeUnit(u: CodeUnit, tail: JsString)
    ensures ScanChars(EscapeUnit(u) + tail) == Cons(u, ScanChars(tail))
  {
    if u == 0x08 { ScanShortEscape(0x62, u, tail); }
    else if u == 0x09 { ScanShortEscape(0x74, u, tail); }
    else if u == 0x0A { ScanShortEscape(0x6E, u, tail); }
    else if u == 0x0C { ScanShortEscape(0x66, u, tail); }
    else if u == 0x0D { ScanShortEscape(0x72, u, tail); }
    else if u == Quote { ScanShortEscape(Quote, u, tail); }
    else if u == Backslash { ScanShortEscape(Backslash, u, tail); }
    else if u < 0x20 || IsSurrogate(u) { ScanUnicodeEscape(u, tail); }
    else { ScanPlainUnit(u, tail); }
  }

  lemma {:induction false} ScanPlainUnit(u: CodeUnit, tail: JsString)
    requires u >= 0x20 && u != Quote && u != Backslash
    ensures ScanChars([u] + tail) == Cons(u, ScanChars(tail))
  {
    assert ([u] + tail)[1..] == tail;
  }

  /** Scanning the encoded contents followed by the closing quote yields the
      original string and leaves whatever follows the quote. */
  lemma {:induction false} ScanQuoteBody(s: JsString, rest: JsString)
    ensures ScanChars(QuoteBody(s) + [Quote] + rest) == Some(Scan(s, rest))
    decreases |s|
  {
    if |s| == 0 {
      assert QuoteBody(s) + [Quote] + rest == [Quote] + rest;
      assert ([Quote] + rest)[1..] == rest;
    } else if |s| >= 2 && IsHighSurrogate(s[0]) && IsLowSurrogate(s[1]) {
      ScanQuoteBody(s[2..], rest);
      ScanPairStep(s, rest);
    } else {
      ScanQuoteBody(s[1..], rest);
      ScanEscapeStep(s, rest);
    }
  }

  lemma {:induction false} ScanPairStep(s: JsString, rest: JsString)
    requires |s| >= 2 && IsHighSurrogate(s[0]) && IsLowSurrogate(s[1])
    requires ScanChars(QuoteBody(s[2..]) + [Quote] + rest) == Some(Scan(s[2..], rest))
    ensures ScanChars(QuoteBody(s) + [Quote] + rest) == Some(Scan(s, rest))
  {
    var tail := QuoteBody(s[2..]) + [Quote] + rest;
    var t := QuoteBody(s) + [Quote] + rest;
    PairLayout(s, rest);
    ScanPlainAt(t[1..]);
    ScanPlainAt(t);
    assert s == [s[0]] + ([s[1]] + s[2..]);
  }

  lemma {:induction false} PairLayout(s: JsString, rest: JsString)
    requires |s| >= 2 && IsHighSurrogate(s[0]) && IsLowSurrogate(s[1])
    ensures var t := QuoteBody(s) + [Quote] + rest;
      |t| >= 2 && t[0] == s[0] && t[1] == s[1] && t[2..] == QuoteBody(s[2..]) + [Quote] + rest
  {
    assert QuoteBody(s) == s[..2] + QuoteBody(s[2..]);
  }

  /** A unit that is neither a quote, a backslash nor a control unit is read
      as itself. */
  lemma {:induction false} ScanPlainAt(t: JsString)
    requires |t| > 0 && t[0] >= 0x20 && t[0] != Quote && t[0] != Backslash
    ensures ScanChars(t) == Cons(t[0], ScanChars(t[1..]))
  {
  }

  lemma {:induction false} ScanEscapeStep(s: JsString, rest: JsString)
    requires |s| >= 1 && !(|s| >= 2 && IsHighSurrogate(s[0]) && IsLowSurrogate(s[1]))
    requires ScanChars(QuoteBody(s[1..]) + [Quote] + rest) == Some(Scan(s[1..], rest))
    ensures ScanChars(QuoteBody(s) + [Quote] + rest) == Some(Scan(s, rest))
  {
    var tail := QuoteBody(s[1..]) + [Quote] + rest;
    EscapeLayout(s, rest);
    ScanEscapeUnit(s[0], tail);
    assert s == [s[0]] + s[1..];
  }

  lemma {:induction false} EscapeLayout(s: JsString, rest: JsString)
    requires |s| >= 1 && !(|s| >= 2 && IsHighSurrogate(s[0]) && IsLowSurrogate(s[1]))
    ensures QuoteBody(s) + [Quote] + rest == EscapeUnit(s[0]) + (QuoteBody(s[1..]) + [Quote] + rest)
  {
    assert QuoteBody(s) == EscapeUnit(s[0]) + QuoteBody(s[1..]);
  }

  /** `JSON.parse(JSON.stringify(s)) === s` for every string `s`, with any
      JSON whitespace around the literal. */
  lemma {:induction false} ParseQuoted(s: JsString, before: JsString, after: JsString)
    requires forall i :: 0 <= i < |before| ==> IsJsonWhitespace(before[i])
    requires forall i :: 0 <= i < |after| ==> IsJsonWhitespace(after[i])
    ensures ParseJsonString(before + QuoteJsonString(s) + after) == Some(s)
  {
    var q := QuoteJsonString(s);
    SkipBeforeQuoted(s, before, after);
    ScanQuoted(s, after);
    SkipAllWhitespace(after, []);
    assert after + [] == after;
    ParseAfterSkip(before + q + after, q + after, s, after);
  }

  lemma {:induction false} SkipBeforeQuoted(s: JsString, before: JsString, after: JsString)
    requires forall i :: 0 <= i < |before| ==> IsJsonWhitespace(before[i])
    ensures SkipWhitespace(before + QuoteJsonString(s) + after) == QuoteJsonString(s) + after
  {
    var q := QuoteJsonString(s);
    SkipAllWhitespace(before, q + after);
    assert before + q + after == before + (q + after);
  }

  lemma {:induction false} ScanQuoted(s: JsString, after: JsString)
    ensures |QuoteJsonString(s) + after| > 0 && (QuoteJsonString(s) + after)[0] == Quote
    ensures ScanChars((QuoteJsonString(s) + after)[1..]) == Some(Scan(s, after))
  {
    var q := QuoteJsonString(s);
    assert (q + after)[1..] == QuoteBody(s) + [Quote] + after;
    ScanQuoteBody(s, after);
  }

  lemma {:induction false} ParseAfterSkip(t: JsString, t': JsString, s: JsString, after: JsString)
    requires SkipWhitespace(t) == t' && |t'| > 0 && t'[0] == Quote
    requires ScanChars(t'[1..]) == Some(Scan(s, after))
    requires SkipWhitespace(after) == []
    ensures ParseJsonString(t) == Some(s)
  {
  }

  lemma {:induction false} SkipAllWhitespace(ws: JsString, t: JsString)
    requires forall i :: 0 <= i < |ws| ==> IsJsonWhitespace(ws[i])
    requires |t| == 0 || !IsJsonWhitespace(t[0])
    ensures SkipWhitespace(ws + t) == t
    decreases |ws|
  {
    if |ws| == 0 {
      assert ws + t == t;
    } else {
      assert (ws + t)[1..] == ws[1..] + t;
      SkipAllWhitespace(ws[1..], t);
    }
  }

  lemma {:induction false} ParseStringifyRoundTrip(s: JsString)
    ensures ParseJsonString(QuoteJsonString(s)) == Some(s)
  {
    var q := QuoteJsonString(s);
    ScanQuoted(s, []);
    assert q + [] == q;
    ParseFromQuote(q, s, []);
  }

  lemma {:induction false} ParseFromQuote(t: JsString, s: JsString, after: JsString)
    requires |t| > 0 && t[0] == Quote
    requires ScanChars(t[1..]) == Some(Scan(s, after))
    requires SkipWhitespace(after) == []
    ensures ParseJsonString(t) == Some(s)
  {
    assert SkipWhitespace(t) == t;
  }

  /** A text that starts with anything but whitespace or a quote is not a
      JSON string. */
  lemma {:induction false} NotQuotedRejected(t: JsString)
    requires |t| > 0 && !IsJsonWhitespace(t[0]) && t[0] != Quote
    ensures ParseJsonString(t) == None
  {
    assert SkipWhitespace(t) == t;
  }

  /** Distinct strings stringify differently. */
  lemma {:induction false} QuoteInjective(s1: JsString, s2: JsString)
    requires QuoteJsonString(s1) == QuoteJsonString(s2)
    ensures s1 == s2
  {
    ParseStringifyRoundTrip(s1);
    ParseStringifyRoundTrip(s2);
  }

  /** A unit that needs no escaping. */
  predicate IsPlain(u: CodeUnit) {
    u >= 0x20 && u != Quote && u != Backslash && !IsSurrogate(u)
  }

  /** A string with nothing to escape is written as itself between quotes. */
  lemma {:induction false} QuoteBodyPlain(s: JsString)
    requires forall i :: 0 <= i < |s| ==> IsPlain(s[i])
    ensures QuoteBody(s) == s
    decreases |s|
  {
    if |s| > 0 {
      QuoteBodyPlain(s[1..]);
      assert s == [s[0]] + s[1..];
    }
  }
}
