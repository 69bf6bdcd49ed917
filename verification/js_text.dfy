/** ECMAScript strings as the server sees them: sequences of UTF-16 code
    units. A code unit may be half of a surrogate pair or a lone surrogate,
    which is why the model does not use Dafny's `char` (a Unicode scalar
    value, which excludes surrogates). */
module JsText {

  /** One UTF-16 code unit. */
  type CodeUnit = u: int | 0 <= u < 0x1_0000

  /** An ECMAScript string value. */
  type JsString = seq<CodeUnit>

  /** The code units of a literal written in the program text. Every literal
      used by the model is ASCII, for which this is exact. */
  function Lit(s: string): (r: JsString)
    ensures |r| == |s|
  {
    seq(|s|, i requires 0 <= i < |s| => (s[i] as int) % 0x1_0000)
  }

  predicate IsHighSurrogate(u: CodeUnit) {
    0xD800 <= u <= 0xDBFF
  }

  predicate IsLowSurrogate(u: CodeUnit) {
    0xDC00 <= u <= 0xDFFF
  }

  predicate IsSurrogate(u: CodeUnit) {
    IsHighSurrogate(u) || IsLowSurrogate(u)
  }

  /** `s` begins with `p`. */
  predicate StartsWith(s: JsString, p: JsString) {
    |p| <= |s| && s[..|p|] == p
  }
}
