/**
 * Hexadecimal numerals: the value `int(h, 16)` gives a string of hex digits,
 * the digits that the range pattern `[\dA-F]+` and Python's `hex()` use, and
 * the greedy runs of such digits that a regular expression `+` consumes.
 */
module Hex {
  import opened Ascii
  import opened Wrappers

  /** A digit of the class `[\dA-F]` when `upper` holds, of `[\da-f]` otherwise. */
  predicate IsHexDigit(c: char, upper: bool) {
    IsDigit(c) || if upper then 'A' <= c <= 'F' else 'a' <= c <= 'f'
  }

  /** A digit that `int(_, 16)` accepts, in either case. */
  predicate IsAnyHexDigit(c: char) { IsHexDigit(c, true) || IsHexDigit(c, false) }

  predicate IsHexString(h: string, upper: bool) {
    forall i :: 0 <= i < |h| ==> IsHexDigit(h[i], upper)
  }

  function DigitValue(c: char): (d: nat)
    requires IsAnyHexDigit(c)
    ensures d < 16
    ensures d < 10 <==> IsDigit(c)
    ensures d == 0 <==> c == '0'
  {
    if IsDigit(c) then c as int - '0' as int
    else if 'A' <= c <= 'F' then c as int - 'A' as int + 10
    else c as int - 'a' as int + 10
  }

  /** The digit for `d` in the requested case. */
  function Digit(d: nat, upper: bool): (c: char)
    requires d < 16
    ensures IsHexDigit(c, upper) && DigitValue(c) == d
  {
    if d < 10 then ('0' as int + d) as char
    else if upper then ('A' as int + d - 10) as char
    else ('a' as int + d - 10) as char
  }

  /** `int(h, 16)` for a non-empty string of hexadecimal digits (zero for the empty string). */
  function HexValue(h: string): nat
    requires forall i :: 0 <= i < |h| ==> IsAnyHexDigit(h[i])
  {
    if h == [] then 0 else 16 * HexValue(h[..|h| - 1]) + DigitValue(h[|h| - 1])
  }

  /**
   * The digits of `n` in base 16, most significant first, without leading
   * zeros ("0" for zero).
   */
  function HexDigits(n: nat, upper: bool): (h: string)
    ensures |h| > 0 && IsHexString(h, upper)
    ensures h[0] == '0' <==> n == 0
    ensures n < 16 <==> |h| == 1
  {
    if n < 16 then [Digit(n, upper)] else HexDigits(n / 16, upper) + [Digit(n % 16, upper)]
  }

  /** Python's `hex(n)` for a non-negative `n`: `0x` and lower-case digits. */
  function PyHex(n: nat): (s: string)
  {
    "0x" + HexDigits(n, false)
  }

  /** Reading back the digits `HexDigits` writes gives the number written. */
  lemma {:induction false} HexValueOfDigits(n: nat, upper: bool)
    ensures HexValue(HexDigits(n, upper)) == n
  {
    var h := HexDigits(n, upper);
    if n >= 16 {
      HexValueOfDigits(n / 16, upper);
      assert h[..|h| - 1] == HexDigits(n / 16, upper);
    }
  }

  /** The leading digit bounds the value from below. */
  lemma {:induction false} HexValueAtLeastLeading(h: string)
    requires |h| > 0 && forall i :: 0 <= i < |h| ==> IsAnyHexDigit(h[i])
    ensures HexValue(h) >= DigitValue(h[0])
  {
    if |h| > 1 {
      var p := h[..|h| - 1];
      assert p[0] == h[0];
      HexValueAtLeastLeading(p);
    }
  }

  /**
   * Every numeral without leading zeros is what `HexDigits` writes for its
   * value: with `HexValueOfDigits`, a bijection between the naturals and the
   * canonical numerals of each case.
   */
  lemma {:induction false} DigitsOfHexValue(h: string, upper: bool)
    requires |h| > 0 && IsHexString(h, upper)
    requires h[0] != '0' || |h| == 1
    ensures forall i :: 0 <= i < |h| ==> IsAnyHexDigit(h[i])
    ensures HexDigits(HexValue(h), upper) == h
  {
    var p, c := h[..|h| - 1], h[|h| - 1];
    var d := DigitValue(c);
    assert Digit(d, upper) == c;
    if |h| > 1 {
      assert p[0] == h[0];
      HexValueAtLeastLeading(p);
      DigitsOfHexValue(p, upper);
      var v := HexValue(p);
      assert HexValue(h) == 16 * v + d;
      assert (16 * v + d) / 16 == v && (16 * v + d) % 16 == d;
      assert h == p + [c];
    }
  }

  /**
   * The number of characters a greedy `[\dA-F]+` (or `[\da-f]+`) would take
   * from the front of `s`: the longest prefix of digits of that class.
   */
  function HexRun(s: string, upper: bool): (n: nat)
    ensures n <= |s|
    ensures forall i :: 0 <= i < n ==> IsHexDigit(s[i], upper)
    ensures n == |s| || !IsHexDigit(s[n], upper)
  {
    if s == [] || !IsHexDigit(s[0], upper) then 0 else 1 + HexRun(s[1..], upper)
  }

  /** A run of digits followed by a non-digit is taken whole, and no further. */
  lemma {:induction false} HexRunOf(h: string, t: string, upper: bool)
    requires IsHexString(h, upper)
    requires t == [] || !IsHexDigit(t[0], upper)
    ensures HexRun(h + t, upper) == |h|
  {
    if h != [] {
      assert (h + t)[1..] == h[1..] + t;
      HexRunOf(h[1..], t, upper);
    }
  }

  /**
   * What a greedy `([\dA-F]+)` (or `([\da-f]+)`) captures at the front of
   * `s`, and the text after it; `None` when `s` does not start with a digit.
   */
  function HexGroup(s: string, upper: bool): (r: Option<(string, string)>)
    ensures r.Some? ==> |r.value.0| > 0 && IsHexString(r.value.0, upper) && s == r.value.0 + r.value.1
  {
    var n := HexRun(s, upper);
    if n == 0 then None else Some((s[..n], s[n..]))
  }

  /** A run of digits followed by a non-digit is captured whole. */
  lemma HexGroupOf(h: string, t: string, upper: bool)
    requires |h| > 0 && IsHexString(h, upper)
    requires t == [] || !IsHexDigit(t[0], upper)
    ensures HexGroup(h + t, upper) == Some((h, t))
  {
    HexRunOf(h, t, upper);
    assert (h + t)[..|h|] == h && (h + t)[|h|..] == t;
  }
}
