/** JavaScript strings as sequences of UTF-16 code units. */
module JsStrings {

  /** One UTF-16 code unit: what `str[i]` holds and what `str.charCodeAt(i)` returns. */
  type CodeUnit = x: int | 0 <= x < 0x1_0000

  /** A JavaScript string value. */
  type JsString = seq<CodeUnit>

  /** Every character of `s` is a single UTF-16 code unit. */
  predicate InBmp(s: string) {
    forall k :: 0 <= k < |s| ==> s[k] as int < 0x1_0000
  }

  /** The code units of a string of basic-plane characters. */
  function Units(s: string): (r: JsString)
    requires InBmp(s)
    ensures |r| == |s| && forall k :: 0 <= k < |s| ==> r[k] == s[k] as int
  {
    seq(|s|, k requires 0 <= k < |s| => s[k] as int)
  }
}
