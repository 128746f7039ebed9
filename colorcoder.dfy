/**
 * The colour of a block (index.js lines 130, 137 and 218-229):
 * `intToRGB(hashCode(symbol + 'hashpadding'))`.
 */
module ColorCoder {
  import opened JsStrings

  const TwoTo32: int := 0x1_0000_0000
  const TwoTo24: int := 0x100_0000

  /** The suffix appended to the symbol before hashing. */
  const HashPadding: JsString := Units("hashpadding")

  /** Adding a multiple of 2^32 does not change a number modulo 2^32. */
  lemma Mod32OfMultiple(r: int, q: int)
    ensures (r + TwoTo32 * q) % TwoTo32 == r % TwoTo32
  {
  }

  /** Adding a multiple of 2^24 does not change a number modulo 2^24. */
  lemma Mod24OfMultiple(r: int, q: int)
    ensures (r + TwoTo24 * q) % TwoTo24 == r % TwoTo24
  {
  }

  /** Numbers congruent modulo 2^32 are congruent modulo 2^24. */
  lemma Mod32ToMod24(x: int, y: int)
    requires x % TwoTo32 == y % TwoTo32
    ensures x % TwoTo24 == y % TwoTo24
  {
    var t := x / TwoTo32 - y / TwoTo32;
    assert x == y + TwoTo32 * t;
    assert TwoTo32 * t == TwoTo24 * (256 * t);
    Mod24OfMultiple(y, 256 * t);
  }

  /** ECMAScript ToInt32: the number modulo 2^32, read as a signed 32-bit integer. */
  function ToInt32(x: int): (r: int)
    ensures -0x8000_0000 <= r < 0x8000_0000
    ensures r % TwoTo32 == x % TwoTo32
  {
    var r := (x + 0x8000_0000) % TwoTo32 - 0x8000_0000;
    assert x == r + TwoTo32 * ((x + 0x8000_0000) / TwoTo32);
    Mod32OfMultiple(r, (x + 0x8000_0000) / TwoTo32);
    r
  }

  /** `h << 5`: the shift works on the int32 value of `h` and yields an int32. */
  function ShiftLeft5(h: int): (r: int)
    ensures -0x8000_0000 <= r < 0x8000_0000
    ensures r % TwoTo32 == (32 * h) % TwoTo32
  {
    var t := ToInt32(h);
    var q := h / TwoTo32 - t / TwoTo32;
    assert h == t + TwoTo32 * q;
    assert 32 * h == 32 * t + TwoTo32 * (32 * q);
    Mod32OfMultiple(32 * t, 32 * q);
    ToInt32(32 * t)
  }

  /** The classic polynomial string hash, in Horner form: h(s + [c]) == 31 h(s) + c. */
  function PolyHash(s: JsString): int
    decreases |s|
  {
    if s == [] then 0 else 31 * PolyHash(s[..|s| - 1]) + s[|s| - 1]
  }

  function Pow31(n: nat): nat {
    if n == 0 then 1 else 31 * Pow31(n - 1)
  }

  /** The same hash as an explicit sum: the sum over k of code_k * 31^(n-1-k). */
  function WeightedSum(s: JsString): int
    decreases |s|
  {
    if s == [] then 0 else s[0] * Pow31(|s| - 1) + WeightedSum(s[1..])
  }

  lemma {:induction false} WeightedSumSnoc(s: JsString, c: CodeUnit)
    ensures WeightedSum(s + [c]) == 31 * WeightedSum(s) + c
    decreases |s|
  {
    if s == [] {
      assert [] + [c] == [c];
      assert [c][1..] == [];
    } else {
      assert (s + [c])[0] == s[0];
      assert (s + [c])[1..] == s[1..] + [c];
      WeightedSumSnoc(s[1..], c);
      assert s[0] * Pow31(|s|) == 31 * (s[0] * Pow31(|s| - 1));
    }
  }

  /** The Horner form and the sum form are the same hash. */
  lemma {:induction false} PolyHashIsWeightedSum(s: JsString)
    ensures PolyHash(s) == WeightedSum(s)
    decreases |s|
  {
    if s != [] {
      var init, last := s[..|s| - 1], s[|s| - 1];
      assert s == init + [last];
      PolyHashIsWeightedSum(init);
      WeightedSumSnoc(init, last);
    }
  }

  /** One step of the loop of `hashCode` is 31 h + c modulo 2^32. */
  lemma HashStep(h: int, p: int, c: CodeUnit)
    requires h % TwoTo32 == p % TwoTo32
    ensures (c + (ShiftLeft5(h) - h)) % TwoTo32 == (31 * p + c) % TwoTo32
  {
    var s := ShiftLeft5(h);
    var u := s / TwoTo32 - (32 * h) / TwoTo32;
    assert s == 32 * h + TwoTo32 * u;
    var v := h / TwoTo32 - p / TwoTo32;
    assert h == p + TwoTo32 * v;
    assert c + (s - h) == (31 * p + c) + TwoTo32 * (u + 31 * v);
    Mod32OfMultiple(31 * p + c, u + 31 * v);
  }

  /**
   * `hashCode` (index.js lines 218-224). Only the shift wraps to 32 bits; the
   * subtraction and the addition are exact, so the result can leave the int32 range,
   * but it stays within |s| * 2^32, far inside the integers a JavaScript number holds
   * exactly for the 12-unit strings hashed here.
   */
  method HashCode(s: JsString) returns (hash: int)
    ensures hash % TwoTo32 == PolyHash(s) % TwoTo32
    ensures -|s| * TwoTo32 <= hash <= |s| * TwoTo32
  {
    hash := 0;
    for i := 0 to |s|
      invariant hash % TwoTo32 == PolyHash(s[..i]) % TwoTo32
      invariant -i * TwoTo32 <= hash <= i * TwoTo32
    {
      assert s[..i + 1][..i] == s[..i];
      HashStep(hash, PolyHash(s[..i]), s[i]);
      hash := s[i] + (ShiftLeft5(hash) - hash);
    }
    assert s[..|s|] == s;
  }

  /** `i & 0x00FFFFFF`: the low 24 bits of the int32 value of `i`. */
  function Low24(i: int): (r: nat)
    ensures r < TwoTo24
    ensures r == i % TwoTo24
  {
    Mod32ToMod24(ToInt32(i), i);
    ToInt32(i) % TwoTo24
  }

  predicate IsHexDigit(ch: char) {
    '0' <= ch <= '9' || 'A' <= ch <= 'F'
  }

  predicate IsHex(s: string) {
    forall k :: 0 <= k < |s| ==> IsHexDigit(s[k])
  }

  /** A digit of `toString(16)` after `toUpperCase()`. */
  function HexDigit(d: nat): (ch: char)
    requires d < 16
    ensures IsHexDigit(ch)
  {
    "0123456789ABCDEF"[d]
  }

  function DigitValue(ch: char): (d: nat)
    requires IsHexDigit(ch)
    ensures d < 16
  {
    if ch <= '9' then (ch as int) - ('0' as int) else (ch as int) - ('A' as int) + 10
  }

  /** The number a string of upper-case hexadecimal digits denotes. */
  function HexValue(s: string): nat
    requires IsHex(s)
    decreases |s|
  {
    if s == [] then 0 else 16 * HexValue(s[..|s| - 1]) + DigitValue(s[|s| - 1])
  }

  function Pow16(n: nat): nat {
    if n == 0 then 1 else 16 * Pow16(n - 1)
  }

  /** `n.toString(16).toUpperCase()` for a natural number: no leading zero, "0" for 0. */
  function ToHexString(n: nat): (r: string)
    ensures 1 <= |r| && IsHex(r)
    ensures HexValue(r) == n
    ensures n > 0 ==> r[0] != '0'
    decreases n
  {
    if n < 16 then [HexDigit(n)]
    else
      var t := ToHexString(n / 16);
      var r := t + [HexDigit(n % 16)];
      assert r[..|r| - 1] == t;
      assert DigitValue(HexDigit(n % 16)) == n % 16;
      r
  }

  /** A number below 16^k has at most k hexadecimal digits (at least one). */
  lemma {:induction false} HexLength(n: nat, k: nat)
    requires 1 <= k && n < Pow16(k)
    ensures |ToHexString(n)| <= k
    decreases k
  {
    if n >= 16 {
      assert k > 1;
      HexLength(n / 16, k - 1);
    }
  }

  /** Leading zeros do not change the value of a hexadecimal string. */
  lemma {:induction false} HexValueLeadingZeros(z: string, c: string)
    requires IsHex(c) && forall k :: 0 <= k < |z| ==> z[k] == '0'
    ensures IsHex(z + c) && HexValue(z + c) == HexValue(c)
    decreases |c|
  {
    if c == [] {
      assert z + c == z;
      ZerosValue(z);
    } else {
      var init := c[..|c| - 1];
      assert (z + c)[..|z + c| - 1] == z + init;
      HexValueLeadingZeros(z, init);
    }
  }

  lemma {:induction false} ZerosValue(z: string)
    requires forall k :: 0 <= k < |z| ==> z[k] == '0'
    ensures IsHex(z) && HexValue(z) == 0
    decreases |z|
  {
    if z != [] {
      ZerosValue(z[..|z| - 1]);
    }
  }

  /**
   * `intToRGB` (index.js lines 226-229): the low 24 bits as exactly six upper-case
   * hexadecimal digits, zero-padded on the left by `"00000".substring(0, 6 - c.length)`.
   */
  function IntToRGB(i: int): (r: string)
    ensures |r| == 6 && IsHex(r)
    ensures HexValue(r) == i % TwoTo24
  {
    var c := ToHexString(Low24(i));
    assert Pow16(6) == TwoTo24;
    HexLength(Low24(i), 6);
    var z := "00000"[..6 - |c|];
    HexValueLeadingZeros(z, c);
    z + c
  }

  /** Hash values that agree modulo 2^32 have the same colour. */
  lemma SameColor(x: int, y: int)
    requires x % TwoTo32 == y % TwoTo32
    ensures IntToRGB(x) == IntToRGB(y)
  {
    Mod32ToMod24(x, y);
    assert Low24(x) == Low24(y);
  }

  /** The colour given to a block that shows the code unit `c`. */
  function ColorOf(c: CodeUnit): (color: string)
    ensures |color| == 6 && IsHex(color)
    ensures HexValue(color) == WeightedSum([c] + HashPadding) % TwoTo24
  {
    PolyHashIsWeightedSum([c] + HashPadding);
    IntToRGB(PolyHash([c] + HashPadding))
  }

  /**
   * What the element computes for a block's colour is `ColorOf`: six hexadecimal
   * digits whose value is the polynomial hash of `c + 'hashpadding'` modulo 2^24.
   */
  method BlockColor(c: CodeUnit) returns (color: string)
    ensures color == ColorOf(c)
    ensures |color| == 6 && IsHex(color)
    ensures HexValue(color) == WeightedSum([c] + HashPadding) % TwoTo24
  {
    var h := HashCode([c] + HashPadding);
    SameColor(h, PolyHash([c] + HashPadding));
    PolyHashIsWeightedSum([c] + HashPadding);
    color := IntToRGB(h);
  }
}
