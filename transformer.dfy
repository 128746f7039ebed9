/**
 * The text transform of `getValue` (index.js lines 49-88): normalise the raw text,
 * then leave it, reverse it or shuffle it.
 */
module Transformer {
  import opened JsStrings

  /**
   * The code units matched by the regular expression class `\s`: ECMAScript's
   * WhiteSpace (tab, vertical tab, form feed, space, no-break space, byte order
   * mark and the space separators) and LineTerminator (LF, CR, U+2028, U+2029).
   */
  predicate IsWhitespace(c: CodeUnit): (w: bool)
    ensures c == 0x20 || c == 0x09 || c == 0x0A || c == 0x0D ==> w
    ensures 0x30 <= c <= 0x39 || 0x41 <= c <= 0x5A || 0x61 <= c <= 0x7A ==> !w
  {
    c == 0x09 || c == 0x0A || c == 0x0B || c == 0x0C || c == 0x0D || c == 0x20 ||
    c == 0xA0 || c == 0x1680 || (0x2000 <= c <= 0x200A) || c == 0x2028 || c == 0x2029 ||
    c == 0x202F || c == 0x205F || c == 0x3000 || c == 0xFEFF
  }

  /** Upper-casing of one code unit, restricted to the ASCII letters. */
  function ToUpper(c: CodeUnit): (r: CodeUnit)
    ensures !(0x61 <= r <= 0x7A)
    ensures !(0x61 <= c <= 0x7A) ==> r == c
    ensures IsWhitespace(r) == IsWhitespace(c)
  {
    if 0x61 <= c <= 0x7A then c - 0x20 else c
  }

  /** `str.replace(/\s/g, '')`. */
  function StripWhitespace(s: JsString): (r: JsString)
    ensures |r| <= |s|
  {
    if s == [] then [] else (if IsWhitespace(s[0]) then [] else [s[0]]) + StripWhitespace(s[1..])
  }

  /** No whitespace is left. */
  lemma {:induction false} StripWhitespaceClean(s: JsString)
    ensures forall k :: 0 <= k < |StripWhitespace(s)| ==> !IsWhitespace(StripWhitespace(s)[k])
  {
    if s != [] {
      StripWhitespaceClean(s[1..]);
    }
  }

  /** A text without whitespace is left as it is. */
  lemma {:induction false} StripWhitespaceKeepsClean(s: JsString)
    requires forall k :: 0 <= k < |s| ==> !IsWhitespace(s[k])
    ensures StripWhitespace(s) == s
  {
    if s != [] {
      StripWhitespaceKeepsClean(s[1..]);
      assert [s[0]] + s[1..] == s;
    }
  }

  /** `str.toUpperCase()`, code unit by code unit. */
  function UpperCase(s: JsString): (r: JsString)
    ensures |r| == |s|
    ensures forall k :: 0 <= k < |r| ==> !(0x61 <= r[k] <= 0x7A)
    ensures forall k :: 0 <= k < |s| && !(0x61 <= s[k] <= 0x7A) ==> r[k] == s[k]
  {
    seq(|s|, k requires 0 <= k < |s| => ToUpper(s[k]))
  }

  /** `formatString` (index.js lines 69-71): strip whitespace, then upper-case. */
  function FormatString(s: JsString): (r: JsString)
    ensures |r| <= |s|
    ensures forall k :: 0 <= k < |r| ==> !IsWhitespace(r[k]) && ToUpper(r[k]) == r[k]
  {
    StripWhitespaceClean(s);
    UpperCase(StripWhitespace(s))
  }

  /** A single code unit is dropped exactly when it is whitespace. */
  lemma StripWhitespaceSingle(c: CodeUnit)
    ensures IsWhitespace(c) ==> StripWhitespace([c]) == []
    ensures !IsWhitespace(c) ==> StripWhitespace([c]) == [c]
  {
    assert [c][1..] == [];
  }

  /** Removing whitespace works piece by piece: it keeps everything else, in order. */
  lemma {:induction false} StripWhitespaceConcat(x: JsString, y: JsString)
    ensures StripWhitespace(x + y) == StripWhitespace(x) + StripWhitespace(y)
    decreases |x|
  {
    if x == [] {
      assert x + y == y;
    } else {
      assert (x + y)[0] == x[0];
      assert (x + y)[1..] == x[1..] + y;
      StripWhitespaceConcat(x[1..], y);
    }
  }

  /** Normalising twice is normalising once. */
  lemma FormatStringIdempotent(s: JsString)
    ensures FormatString(FormatString(s)) == FormatString(s)
  {
    var f := FormatString(s);
    StripWhitespaceKeepsClean(f);
    assert UpperCase(f) == f;
  }

  /** Removing whitespace drops a space between two texts that hold none. */
  lemma StripSpaceBetween(x: JsString, y: JsString)
    requires forall k :: 0 <= k < |x| ==> !IsWhitespace(x[k])
    requires forall k :: 0 <= k < |y| ==> !IsWhitespace(y[k])
    ensures StripWhitespace(x + [0x20] + y) == x + y
  {
    var sp: JsString := [0x20];
    StripWhitespaceConcat(x + sp, y);
    StripWhitespaceConcat(x, sp);
    assert StripWhitespace(sp) == [];
    StripWhitespaceKeepsClean(x);
    StripWhitespaceKeepsClean(y);
    assert x + [] == x;
  }

  /** "he llo" is "he", a space and "llo". */
  lemma HeLloUnits()
    ensures Units("he llo") == Units("he") + [0x20] + Units("llo")
  {
  }

  /** Upper-casing "he" followed by "llo" gives "HELLO". */
  lemma HelloUpper()
    ensures UpperCase(Units("he") + Units("llo")) == Units("HELLO")
  {
  }

  /** An example: "he llo" normalises to "HELLO". */
  lemma FormatStringExample()
    ensures FormatString(Units("he llo")) == Units("HELLO")
  {
    HeLloUnits();
    StripSpaceBetween(Units("he"), Units("llo"));
    HelloUpper();
  }

  /** `reverseString` (index.js lines 73-75): `split('')`, `reverse()`, `join('')`. */
  function ReverseString(s: JsString): (r: JsString)
    ensures |r| == |s|
    ensures forall k :: 0 <= k < |s| ==> r[k] == s[|s| - 1 - k]
  {
    if s == [] then [] else ReverseString(s[1..]) + [s[0]]
  }

  /** Reversing is its own inverse. */
  lemma ReverseStringInvolutive(s: JsString)
    ensures ReverseString(ReverseString(s)) == s
  {
    var rr := ReverseString(ReverseString(s));
    assert forall k :: 0 <= k < |s| ==> rr[k] == s[k];
  }

  /**
   * `shuffleString` (index.js lines 77-88): the Fisher-Yates loop over the array of
   * code units. `Math.floor(Math.random() * (i + 1))` is some j with 0 <= j <= i;
   * the model lets the swap take any such j.
   */
  method ShuffleString(s: JsString) returns (r: JsString)
    ensures |r| == |s|
    ensures multiset(r) == multiset(s)
  {
    var a := new CodeUnit[|s|](k requires 0 <= k < |s| => s[k]);
    assert a[..] == s;
    var n := a.Length;
    var i := n - 1;
    while i > 0
      invariant i < n
      invariant multiset(a[..]) == multiset(s)
    {
      var j :| 0 <= j <= i;
      var tmp := a[i];
      a[i] := a[j];
      a[j] := tmp;
      i := i - 1;
    }
    r := a[..];
  }
}
