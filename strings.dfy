/** Python `str` values: sequences of code points (surrogates included). */
module Strings {

  type CodePoint = c: int | 0 <= c < 0x11_0000

  type Str = seq<CodePoint>

  /** A UTF-16 surrogate code point, U+D800..U+DFFF. A Python `str` may hold one. */
  predicate IsSurrogate(c: CodePoint)
  {
    0xD800 <= c <= 0xDFFF
  }

  /** `s.encode('utf-8')` succeeds: the strict codec refuses every surrogate. */
  predicate Utf8Encodable(s: Str)
  {
    forall i :: 0 <= i < |s| ==> !IsSurrogate(s[i])
  }
}
