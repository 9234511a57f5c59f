/**
 * The range field of a table row, `U+XXXX..U+XXXX`, read with
 * `RANGE_RE.match` (anchored at the start, not at the end) and converted
 * with `int(_, 16)`.
 */
module RangeField {
  import opened Wrappers
  import opened Ascii
  import opened Hex

  /**
   * `RANGE_RE.match(s)` with both groups converted: `U+`, a greedy run of
   * `[\dA-F]`, `..U+`, another greedy run; whatever follows is ignored.
   * `None` where the pattern does not match.
   */
  function ParseRange(s: string): Option<(nat, nat)>
  {
    if !StartsWith(s, "U+") then None
    else
      var first := HexGroup(s[2..], true);
      if first.None? || !StartsWith(first.value.1, "..U+") then None
      else
        var second := HexGroup(first.value.1[4..], true);
        if second.None? then None
        else Some((HexValue(first.value.0), HexValue(second.value.0)))
  }

  /**
   * How `s` matches the pattern: `U+`, the first group `h1`, `..U+`, the
   * second group `h2`, and a tail the greedy second group could not take.
   */
  ghost predicate IsRangeMatch(s: string, h1: string, h2: string, tail: string)
  {
    && |h1| > 0 && IsHexString(h1, true)
    && |h2| > 0 && IsHexString(h2, true)
    && (tail == [] || !IsHexDigit(tail[0], true))
    && s == "U+" + (h1 + ("..U+" + (h2 + tail)))
  }

  /** Every string of the matched shape parses, to the values of its two groups. */
  lemma ParseRangeComplete(s: string, h1: string, h2: string, tail: string)
    requires IsRangeMatch(s, h1, h2, tail)
    ensures forall i :: 0 <= i < |h1| ==> IsAnyHexDigit(h1[i])
    ensures forall i :: 0 <= i < |h2| ==> IsAnyHexDigit(h2[i])
    ensures ParseRange(s) == Some((HexValue(h1), HexValue(h2)))
  {
    var rest := "..U+" + (h2 + tail);
    StartsWithConcat("U+", h1 + rest);
    HexGroupOf(h1, rest, true);
    StartsWithConcat("..U+", h2 + tail);
    HexGroupOf(h2, tail, true);
  }

  /** Every string that parses has the matched shape, and parses to the values of its groups. */
  lemma ParseRangeSound(s: string)
    ensures ParseRange(s).Some? ==>
      exists h1, h2, tail :: IsRangeMatch(s, h1, h2, tail) &&
        ParseRange(s) == Some((HexValue(h1), HexValue(h2)))
  {
    if ParseRange(s).Some? {
      var first := HexGroup(s[2..], true);
      var rest := first.value.1;
      var second := HexGroup(rest[4..], true);
      var h1, h2, tail := first.value.0, second.value.0, second.value.1;
      assert rest == "..U+" + (h2 + tail) by {
        assert rest == rest[..4] + rest[4..];
      }
      assert s == "U+" + (h1 + rest) by {
        assert s == s[..2] + s[2..];
      }
      assert IsRangeMatch(s, h1, h2, tail);
    }
  }

  /** The inverse direction: a range written with `U+` and upper-case digits, as the table does. */
  function FormatRange(start: nat, stop: nat): string
  {
    "U+" + (HexDigits(start, true) + ("..U+" + HexDigits(stop, true)))
  }

  /**
   * Round trip: a formatted range parses back to its bounds, whatever text
   * follows, as long as it does not begin with another digit of the class.
   */
  lemma ParseRangeRoundTrip(start: nat, stop: nat, tail: string)
    requires tail == [] || !IsHexDigit(tail[0], true)
    ensures ParseRange(FormatRange(start, stop) + tail) == Some((start, stop))
  {
    var h1, h2 := HexDigits(start, true), HexDigits(stop, true);
    assert FormatRange(start, stop) + tail == "U+" + (h1 + ("..U+" + (h2 + tail)));
    ParseRangeComplete(FormatRange(start, stop) + tail, h1, h2, tail);
    HexValueOfDigits(start, true);
    HexValueOfDigits(stop, true);
  }

  /** Leading zeros, as the Unicode table writes them, do not change the bounds. */
  lemma ParseRangeLeadingZeros(zeros1: string, start: nat, zeros2: string, stop: nat)
    requires forall i :: 0 <= i < |zeros1| ==> zeros1[i] == '0'
    requires forall i :: 0 <= i < |zeros2| ==> zeros2[i] == '0'
    ensures ParseRange("U+" + ((zeros1 + HexDigits(start, true)) + ("..U+" + (zeros2 + HexDigits(stop, true)))))
         == Some((start, stop))
  {
    var h1, h2 := zeros1 + HexDigits(start, true), zeros2 + HexDigits(stop, true);
    assert h2 + [] == h2;
    ParseRangeComplete("U+" + (h1 + ("..U+" + h2)), h1, h2, []);
    LeadingZeros(zeros1, HexDigits(start, true));
    LeadingZeros(zeros2, HexDigits(stop, true));
    HexValueOfDigits(start, true);
    HexValueOfDigits(stop, true);
  }

  lemma {:induction false} LeadingZeros(zeros: string, h: string)
    requires forall i :: 0 <= i < |zeros| ==> zeros[i] == '0'
    requires forall i :: 0 <= i < |h| ==> IsAnyHexDigit(h[i])
    ensures forall i :: 0 <= i < |zeros + h| ==> IsAnyHexDigit((zeros + h)[i])
    ensures HexValue(zeros + h) == HexValue(h)
    decreases |h|
  {
    if h == [] {
      ZerosValue(zeros);
      assert zeros + h == zeros;
    } else {
      var p := h[..|h| - 1];
      assert (zeros + h)[..|zeros + h| - 1] == zeros + p;
      LeadingZeros(zeros, p);
    }
  }

  lemma {:induction false} ZerosValue(zeros: string)
    requires forall i :: 0 <= i < |zeros| ==> zeros[i] == '0'
    ensures forall i :: 0 <= i < |zeros| ==> IsAnyHexDigit(zeros[i])
    ensures HexValue(zeros) == 0
  {
    if zeros != [] {
      ZerosValue(zeros[..|zeros| - 1]);
    }
  }

  /**
   * The error condition of the first group: when it is followed by anything
   * but `..U+` (a lower-case digit, say), or is empty, there is no match.
   */
  lemma ParseRangeRejects(h: string, c: char, tail: string)
    requires IsHexString(h, true) && c != '.' && !IsHexDigit(c, true)
    ensures ParseRange("U+" + (h + ([c] + tail))) == None
  {
    StartsWithConcat("U+", h + ([c] + tail));
    if |h| > 0 {
      HexGroupOf(h, [c] + tail, true);
      assert ([c] + tail)[0] == c;
    } else {
      assert h + ([c] + tail) == [c] + tail;
    }
  }

  /** The error condition of the prefix: a field that does not begin with `U+` is no match. */
  lemma ParseRangeNeedsPrefix(c: char, tail: string)
    requires c != 'U'
    ensures ParseRange([c] + tail) == None
  {
    assert ([c] + tail)[0] == c;
  }

  /**
   * The match is not anchored at the end, so a lower-case digit in the second
   * bound is not an error: the second group stops before it and the bound
   * keeps only the digits in front of it.
   */
  lemma ParseRangeTruncatesSecondBound(h1: string, h2: string, c: char, tail: string)
    requires |h1| > 0 && IsHexString(h1, true) && |h2| > 0 && IsHexString(h2, true)
    requires IsHexDigit(c, false) && !IsDigit(c)
    ensures forall i :: 0 <= i < |h1| ==> IsAnyHexDigit(h1[i])
    ensures forall i :: 0 <= i < |h2| ==> IsAnyHexDigit(h2[i])
    ensures ParseRange("U+" + (h1 + ("..U+" + (h2 + ([c] + tail))))) == Some((HexValue(h1), HexValue(h2)))
  {
    assert ([c] + tail)[0] == c;
    ParseRangeComplete("U+" + (h1 + ("..U+" + (h2 + ([c] + tail)))), h1, h2, [c] + tail);
  }
}
