/**
 * The identifier normaliser `sentence_to_camelcase`: the maximal runs of
 * `[a-zA-Z0-9]` found left to right, each passed through `str.title()`, and
 * concatenated with nothing between them.
 */
module Identifier {
  import opened Ascii

  /** Length of the longest prefix of `s` made of `[a-zA-Z0-9]` characters. */
  function RunLength(s: string): (n: nat)
    ensures n <= |s|
    ensures forall i :: 0 <= i < n ==> IsAlnum(s[i])
    ensures n == |s| || !IsAlnum(s[n])
  {
    if s == [] || !IsAlnum(s[0]) then 0 else 1 + RunLength(s[1..])
  }

  /**
   * The matches `IDENTIFIER_RE.finditer(s)` yields, in order: every maximal
   * run of `[a-zA-Z0-9]` characters.
   */
  function Runs(s: string): (rs: seq<string>)
    ensures forall k :: 0 <= k < |rs| ==> |rs[k]| > 0 && IsWord(rs[k])
    decreases |s|
  {
    if s == [] then []
    else if !IsAlnum(s[0]) then Runs(s[1..])
    else
      var n := RunLength(s);
      [s[..n]] + Runs(s[n..])
  }

  /**
   * `str.title()` on an ASCII string, scanning with the flag "the previous
   * character is cased": a letter is upper-cased when the flag is off and
   * lower-cased when it is on; other characters pass unchanged.
   */
  function TitleFrom(w: string, prevCased: bool): string
  {
    if w == [] then [] else [Case(w[0], !prevCased)] + TitleFrom(w[1..], IsLetter(w[0]))
  }

  lemma {:induction false} TitleFromAt(w: string, prevCased: bool)
    ensures |TitleFrom(w, prevCased)| == |w|
    ensures forall i :: 0 <= i < |w| ==>
      TitleFrom(w, prevCased)[i] == Case(w[i], if i == 0 then !prevCased else !IsLetter(w[i - 1]))
  {
    if w != [] {
      TitleFromAt(w[1..], IsLetter(w[0]));
      var t := TitleFrom(w, prevCased);
      forall i | 0 < i < |w|
        ensures t[i] == Case(w[i], !IsLetter(w[i - 1]))
      {
        assert t[i] == TitleFrom(w[1..], IsLetter(w[0]))[i - 1];
        assert w[1..][i - 1] == w[i];
      }
    }
  }

  /**
   * `w.title()`: same length, each letter upper-cased exactly when it is the
   * first character or follows a character that is not a letter, lower-cased
   * otherwise; digits unchanged.
   */
  function Title(w: string): (r: string)
    ensures |r| == |w|
    ensures forall i :: 0 <= i < |w| ==> r[i] == Case(w[i], i == 0 || !IsLetter(w[i - 1]))
  {
    TitleFromAt(w, false);
    TitleFrom(w, false)
  }

  /** `"".join(w.title() for w in ws)`. */
  function JoinTitled(ws: seq<string>): string
  {
    if ws == [] then [] else Title(ws[0]) + JoinTitled(ws[1..])
  }

  /** `sentence_to_camelcase(s)`. */
  function SentenceToCamelCase(s: string): string
  {
    JoinTitled(Runs(s))
  }

  // ---------------------------------------------------------------------------
  // A reference definition by one left-to-right scan, and the properties of
  // the normaliser proved through it.

  /** The `[a-zA-Z0-9]` characters of `s`, in order. */
  function Alnums(s: string): string
  {
    if s == [] then [] else (if IsAlnum(s[0]) then [s[0]] else []) + Alnums(s[1..])
  }

  /** The strings of `ws`, one after another with nothing between them. */
  function Concat(ws: seq<string>): string
  {
    if ws == [] then [] else ws[0] + Concat(ws[1..])
  }

  lemma {:induction false} AlnumsAppend(a: string, b: string)
    ensures Alnums(a + b) == Alnums(a) + Alnums(b)
  {
    if a != [] {
      assert (a + b)[0] == a[0] && (a + b)[1..] == a[1..] + b;
      AlnumsAppend(a[1..], b);
    } else {
      assert a + b == b;
    }
  }

  /** Together, in order, the runs are all the letters and digits of `s`: none is lost or repeated. */
  lemma {:induction false} RunsConcat(s: string)
    ensures Concat(Runs(s)) == Alnums(s)
    decreases |s|
  {
    if s != [] {
      if !IsAlnum(s[0]) {
        RunsConcat(s[1..]);
      } else {
        var n := RunLength(s);
        assert s == s[..n] + s[n..];
        AlnumsAppend(s[..n], s[n..]);
        AlnumsOfWord(s[..n]);
        RunsConcat(s[n..]);
        assert Runs(s)[1..] == Runs(s[n..]);
      }
    }
  }

  /**
   * The runs are maximal: a whole word up to a separator is one run, a
   * separator starts none, and a word at the end is the last run.
   */
  lemma RunsSplit(w: string, c: char, rest: string)
    requires |w| > 0 && IsWord(w) && !IsAlnum(c)
    ensures Runs(w + [c] + rest) == [w] + Runs(rest)
    ensures Runs([c] + rest) == Runs(rest)
    ensures Runs(w) == [w]
  {
    var s := w + [c] + rest;
    assert s[|w|] == c;
    assert RunLength(s) == |w|;
    assert s[..|w|] == w && s[|w|..] == [c] + rest;
    assert ([c] + rest)[1..] == rest;
    assert RunLength(w) == |w|;
    assert w[..|w|] == w && w[|w|..] == [];
  }

  /**
   * Scan `s` once: drop every character outside `[a-zA-Z0-9]`, upper-case a
   * letter unless the character just before it in `s` is a letter.
   */
  function CamelRef(s: string, afterLetter: bool): string
  {
    if s == [] then []
    else (if IsAlnum(s[0]) then [Case(s[0], !afterLetter)] else []) + CamelRef(s[1..], IsLetter(s[0]))
  }

  lemma {:induction false} CamelRefShape(s: string, afterLetter: bool)
    ensures |CamelRef(s, afterLetter)| == |Alnums(s)|
    ensures forall j :: 0 <= j < |Alnums(s)| ==>
      IsAlnum(CamelRef(s, afterLetter)[j]) && ToLower(CamelRef(s, afterLetter)[j]) == ToLower(Alnums(s)[j])
  {
    if s != [] {
      var head := if IsAlnum(s[0]) then [Case(s[0], !afterLetter)] else [];
      var kept := if IsAlnum(s[0]) then [s[0]] else [];
      var tail, tailAlnums := CamelRef(s[1..], IsLetter(s[0])), Alnums(s[1..]);
      CamelRefShape(s[1..], IsLetter(s[0]));
      assert CamelRef(s, afterLetter) == head + tail;
      assert Alnums(s) == kept + tailAlnums;
      forall j | 0 <= j < |Alnums(s)|
        ensures IsAlnum((head + tail)[j]) && ToLower((head + tail)[j]) == ToLower((kept + tailAlnums)[j])
      {
        if j >= |kept| {
          assert (head + tail)[j] == tail[j - |kept|];
          assert (kept + tailAlnums)[j] == tailAlnums[j - |kept|];
        }
      }
    }
  }

  lemma {:induction false} CamelRefAt(s: string, afterLetter: bool, i: nat)
    requires i < |s| && IsAlnum(s[i])
    ensures |Alnums(s[..i])| < |Alnums(s)| == |CamelRef(s, afterLetter)|
    ensures CamelRef(s, afterLetter)[|Alnums(s[..i])|]
         == Case(s[i], if i == 0 then !afterLetter else !IsLetter(s[i - 1]))
  {
    CamelRefShape(s, afterLetter);
    if i > 0 {
      CamelRefAt(s[1..], IsLetter(s[0]), i - 1);
      assert s[..i][1..] == s[1..][..i - 1];
      assert s[..i][0] == s[0];
    }
  }

  /** Scanning an alphanumeric run and then a non-alphanumeric rest. */
  lemma {:induction false} CamelRefSplit(w: string, rest: string, afterLetter: bool)
    requires IsWord(w)
    requires rest == [] || !IsAlnum(rest[0])
    ensures CamelRef(w + rest, afterLetter) == TitleFrom(w, afterLetter) + CamelRef(rest, false)
  {
    if w == [] {
      assert w + rest == rest;
      if rest != [] {
        assert CamelRef(rest, afterLetter) == CamelRef(rest[1..], false) == CamelRef(rest, false);
      }
    } else {
      assert (w + rest)[0] == w[0];
      assert (w + rest)[1..] == w[1..] + rest;
      CamelRefSplit(w[1..], rest, IsLetter(w[0]));
    }
  }

  /** The run-by-run normaliser agrees with the one-scan reference. */
  lemma {:induction false} CamelCaseIsRef(s: string)
    ensures SentenceToCamelCase(s) == CamelRef(s, false)
    decreases |s|
  {
    if s == [] {
    } else if !IsAlnum(s[0]) {
      CamelCaseIsRef(s[1..]);
    } else {
      var n := RunLength(s);
      var w, rest := s[..n], s[n..];
      CamelCaseIsRef(rest);
      assert Runs(s) == [w] + Runs(rest);
      assert ([w] + Runs(rest))[1..] == Runs(rest);
      CamelRefSplit(w, rest, false);
      assert s == w + rest;
    }
  }

  /**
   * What `sentence_to_camelcase` returns: exactly the `[a-zA-Z0-9]`
   * characters of the input, in their order, changed in case only, and
   * nothing else.
   */
  lemma CamelCaseKeepsAlnums(s: string)
    ensures |SentenceToCamelCase(s)| == |Alnums(s)|
    ensures IsWord(SentenceToCamelCase(s))
    ensures forall j :: 0 <= j < |Alnums(s)| ==> ToLower(SentenceToCamelCase(s)[j]) == ToLower(Alnums(s)[j])
  {
    CamelCaseIsRef(s);
    CamelRefShape(s, false);
  }

  /**
   * The case rule: the output character for input position `i` (an
   * alphanumeric one) is upper case when `i` starts a run or follows a digit,
   * that is, when the character before it is not a letter; lower case
   * otherwise. Digits are unchanged.
   */
  lemma CamelCaseAt(s: string, i: nat)
    requires i < |s| && IsAlnum(s[i])
    ensures |Alnums(s[..i])| < |SentenceToCamelCase(s)|
    ensures SentenceToCamelCase(s)[|Alnums(s[..i])|] == Case(s[i], i == 0 || !IsLetter(s[i - 1]))
  {
    CamelCaseIsRef(s);
    CamelRefAt(s, false, i);
  }

  /**
   * The strings the normaliser leaves unchanged: alphanumeric strings whose
   * letters are upper case exactly at the start and after a digit.
   */
  lemma CamelCaseFixpoint(s: string)
    ensures SentenceToCamelCase(s) == s <==>
      forall i :: 0 <= i < |s| ==> IsAlnum(s[i]) && s[i] == Case(s[i], i == 0 || !IsLetter(s[i - 1]))
  {
    var r := SentenceToCamelCase(s);
    CamelCaseKeepsAlnums(s);
    if r == s {
      forall i | 0 <= i < |s|
        ensures IsAlnum(s[i]) && s[i] == Case(s[i], i == 0 || !IsLetter(s[i - 1]))
      {
        AlnumsOfWordPrefix(s, i);
        CamelCaseAt(s, i);
      }
    } else if forall i :: 0 <= i < |s| ==> IsAlnum(s[i]) && s[i] == Case(s[i], i == 0 || !IsLetter(s[i - 1])) {
      AlnumsOfWord(s);
      forall i | 0 <= i < |s| ensures r[i] == s[i] {
        AlnumsOfWordPrefix(s, i);
        CamelCaseAt(s, i);
      }
      assert false;
    }
  }

  /** On an alphanumeric string nothing is dropped. */
  lemma {:induction false} AlnumsOfWord(s: string)
    requires IsWord(s)
    ensures Alnums(s) == s
  {
    if s != [] {
      AlnumsOfWord(s[1..]);
    }
  }

  /** On an alphanumeric string, output position and input position agree. */
  lemma AlnumsOfWordPrefix(s: string, i: nat)
    requires IsWord(s) && i <= |s|
    ensures Alnums(s) == s && |Alnums(s[..i])| == i
  {
    AlnumsOfWord(s);
    AlnumsOfWord(s[..i]);
  }

  /**
   * The normaliser is not idempotent, but applying it twice reaches a fixed
   * point: a third application changes nothing.
   */
  lemma CamelCaseTwiceStable(s: string)
    ensures var t := SentenceToCamelCase(SentenceToCamelCase(s));
      SentenceToCamelCase(t) == t
  {
    var r := SentenceToCamelCase(s);
    var t := SentenceToCamelCase(r);
    CamelCaseKeepsAlnums(s);
    CamelCaseKeepsAlnums(r);
    AlnumsOfWord(r);
    forall i | 0 <= i < |t|
      ensures IsAlnum(t[i]) && t[i] == Case(t[i], i == 0 || !IsLetter(t[i - 1]))
    {
      AlnumsOfWordPrefix(r, i);
      CamelCaseAt(r, i);
      if i > 0 {
        AlnumsOfWordPrefix(r, i - 1);
        CamelCaseAt(r, i - 1);
      }
      CaseIdempotent(r[i], i == 0 || !IsLetter(r[i - 1]));
    }
    CamelCaseFixpoint(t);
  }

  /**
   * The normaliser works run by run: a maximal alphanumeric run at the front
   * is title-cased on its own, a separator at the front is dropped.
   */
  lemma CamelCaseRunThenRest(w: string, rest: string)
    requires IsWord(w)
    requires rest == [] || !IsAlnum(rest[0])
    ensures SentenceToCamelCase(w + rest) == Title(w) + SentenceToCamelCase(rest)
  {
    CamelCaseIsRef(w + rest);
    CamelCaseIsRef(rest);
    CamelRefSplit(w, rest, false);
  }

  lemma CamelCaseDropsSeparator(c: char, rest: string)
    requires !IsAlnum(c)
    ensures SentenceToCamelCase([c] + rest) == SentenceToCamelCase(rest)
  {
    assert ([c] + rest)[1..] == rest;
  }

  /** A run, a separator, and whatever follows. */
  lemma CamelCaseRunSeparator(w: string, c: char, rest: string)
    requires IsWord(w) && !IsAlnum(c)
    ensures SentenceToCamelCase(w + [c] + rest) == Title(w) + SentenceToCamelCase(rest)
  {
    assert w + [c] + rest == w + ([c] + rest);
    CamelCaseRunThenRest(w, [c] + rest);
    CamelCaseDropsSeparator(c, rest);
  }

  /** A string that is one run is title-cased as a whole. */
  lemma CamelCaseOfWord(w: string)
    requires IsWord(w)
    ensures SentenceToCamelCase(w) == Title(w)
  {
    CamelCaseRunThenRest(w, []);
    assert w + [] == w;
  }
}

/** Worked examples on block names of the Unicode table. */
module IdentifierExamples {
  import opened Ascii
  import opened Identifier

  lemma TitleOfCapitalised(w: string)
    requires |w| > 0 && IsUpper(w[0])
    requires forall i :: 0 < i < |w| ==> IsLower(w[i])
    ensures Title(w) == w
  {
    var t := Title(w);
    forall i | 0 <= i < |w| ensures t[i] == w[i] {
      if i > 0 {
        assert IsLetter(w[i - 1]);
      }
    }
  }

  /**
   * Two capitalised words with a separator between them, such as the block
   * name "Basic Latin": the separator is dropped and both words are kept as
   * they are.
   */
  lemma CamelCaseOfTwoWords(w1: string, c: char, w2: string)
    requires |w1| > 0 && IsUpper(w1[0]) && forall i :: 0 < i < |w1| ==> IsLower(w1[i])
    requires |w2| > 0 && IsUpper(w2[0]) && forall i :: 0 < i < |w2| ==> IsLower(w2[i])
    requires !IsAlnum(c)
    ensures SentenceToCamelCase(w1 + [c] + w2) == w1 + w2
  {
    CamelCaseRunSeparator(w1, c, w2);
    CamelCaseOfWord(w2);
    TitleOfCapitalised(w1);
    TitleOfCapitalised(w2);
  }

  /**
   * Two capitalised words written together, such as "BasicLatin": normalising
   * them again lower-cases the second capital, which follows a letter.
   */
  lemma CamelCaseLowersInnerCapital(w1: string, w2: string)
    requires |w1| > 0 && IsLetter(w1[|w1| - 1])
    requires |w2| > 0 && IsUpper(w2[0])
    ensures SentenceToCamelCase(w1 + w2) != w1 + w2
  {
    var s := w1 + w2;
    CamelCaseFixpoint(s);
    assert s[|w1|] == w2[0] && s[|w1| - 1] == w1[|w1| - 1];
  }

  /**
   * Normalising twice is not normalising once: two capitalised words with a
   * separator, such as "Basic Latin", come out of the first pass as one run
   * ("BasicLatin"), and the second pass lower-cases the second word's capital.
   */
  lemma CamelCaseTwiceDiffers(w1: string, c: char, w2: string)
    requires |w1| > 0 && IsUpper(w1[0]) && forall i :: 0 < i < |w1| ==> IsLower(w1[i])
    requires |w2| > 0 && IsUpper(w2[0]) && forall i :: 0 < i < |w2| ==> IsLower(w2[i])
    requires !IsAlnum(c)
    ensures var once := SentenceToCamelCase(w1 + [c] + w2);
      SentenceToCamelCase(once) != once
  {
    CamelCaseOfTwoWords(w1, c, w2);
    CamelCaseLowersInnerCapital(w1, w2);
  }

  /**
   * Two capitalised words written together are one run: the second word's
   * capital follows a letter and is lower-cased.
   */
  lemma CamelCaseOfJoinedWords(w1: string, w2: string)
    requires |w1| > 0 && IsUpper(w1[0]) && forall i :: 0 < i < |w1| ==> IsLower(w1[i])
    requires |w2| > 0 && IsUpper(w2[0]) && forall i :: 0 < i < |w2| ==> IsLower(w2[i])
    ensures SentenceToCamelCase(w1 + w2) == w1 + ([ToLower(w2[0])] + w2[1..])
  {
    var s := w1 + w2;
    var e := w1 + ([ToLower(w2[0])] + w2[1..]);
    CamelCaseOfWord(s);
    var t := Title(s);
    forall i | 0 <= i < |s| ensures t[i] == e[i] {
      if i > 0 {
        assert IsLetter(s[i - 1]);
      }
    }
  }

  /**
   * The counterexample to idempotence: "BasicLatin", the normalised form of
   * "Basic Latin", is one run, so normalising it again lower-cases its inner
   * capital, which follows a letter.
   */
  lemma CamelCaseNotIdempotent()
    ensures SentenceToCamelCase("BasicLatin") == "Basiclatin"
    ensures SentenceToCamelCase("BasicLatin") != "BasicLatin"
  {
    var w1, w2 := "Basic", "Latin";
    CamelCaseOfJoinedWords(w1, w2);
    assert w1 + w2 == "BasicLatin";
    assert w1 + ([ToLower(w2[0])] + w2[1..]) == "Basiclatin";
  }
}
