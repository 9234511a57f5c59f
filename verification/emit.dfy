/**
 * The emitter: one enum-member line and one switch-arm line per entry, each
 * list joined with newlines, substituted into the fixed Zig declaration.
 */
module Emit {
  import opened Wrappers
  import opened Ascii
  import opened Hex
  import opened Blocks

  const Indent: string := "    "

  /** `f"{indent}{entry.name},"` */
  function MemberLine(e: Entry): string
  {
    Indent + (e.name + ",")
  }

  /** `f"{indent * 3}{hex(entry.start)}...{hex(entry.stop)} => .{entry.name},"` */
  function CaseLine(e: Entry): string
  {
    Indent + Indent + Indent + (PyHex(e.start) + ("..." + (PyHex(e.stop) + (" => ." + (e.name + ",")))))
  }

  /** `"\n".join(lines)` */
  function Join(lines: seq<string>): string
  {
    if |lines| == 0 then []
    else if |lines| == 1 then lines[0]
    else lines[0] + ("\n" + Join(lines[1..]))
  }

  function MemberLines(entries: seq<Entry>): seq<string>
  {
    seq(|entries|, i requires 0 <= i < |entries| => MemberLine(entries[i]))
  }

  function CaseLines(entries: seq<Entry>): seq<string>
  {
    seq(|entries|, i requires 0 <= i < |entries| => CaseLine(entries[i]))
  }

  /** The `enum_members` fragment. */
  function EnumMembers(entries: seq<Entry>): string
  {
    Join(MemberLines(entries))
  }

  /** The `block_cases` fragment. */
  function BlockCases(entries: seq<Entry>): string
  {
    Join(CaseLines(entries))
  }

  /** The fixed lines of the declaration before the member list. */
  const Head: string :=
    "\nconst utf8 = @import(\"utf8.zig\");\nconst Codepoint = utf8.Codepoint;\n\n"
    + "pub const Utf8Block = enum {\n    const Self = @This();\n\n    const Error = error{ InvalidUtf8 };\n"

  /** The fixed lines between the member list and the switch arms. */
  const Middle: string :=
    "\n    pub fn categorize(c: Codepoint) Error!Self {\n        return switch (c.c) {"

  /** The fixed lines after the switch arms: the `else` arm returning the error. */
  const Foot: string :=
    "            else => Error.InvalidUtf8,\n        };\n    }\n};\n"

  /** The generated Zig source: the fixed declaration with both fragments substituted. */
  function Declaration(entries: seq<Entry>): string
  {
    Head + ("\n" + (EnumMembers(entries) + ("\n" + (Middle + ("\n" + (BlockCases(entries) + ("\n" + Foot)))))))
  }

  // ---------------------------------------------------------------------------
  // Reading the output back: `str.split("\n")` and parsers for both kinds of
  // line, the inverses the emitter is proved against.

  /** `s.split("\n")`: the pieces between newlines; always at least one. */
  function Split(s: string): (pieces: seq<string>)
    ensures |pieces| > 0
  {
    if s == [] then [[]]
    else
      var rest := Split(s[1..]);
      if s[0] == '\n' then [[]] + rest else [[s[0]] + rest[0]] + rest[1..]
  }

  lemma {:induction false} SplitNoNewline(a: string, t: string)
    requires '\n' !in a
    ensures Split(a + t) == [a + Split(t)[0]] + Split(t)[1..]
  {
    if a != [] {
      assert (a + t)[0] == a[0];
      assert (a + t)[1..] == a[1..] + t;
      SplitNoNewline(a[1..], t);
      assert [a[0]] + (a[1..] + Split(t)[0]) == a + Split(t)[0];
    } else {
      assert a + t == t;
      assert a + Split(t)[0] == Split(t)[0];
      assert Split(t) == [Split(t)[0]] + Split(t)[1..];
    }
  }

  /** Joining lines that hold no newline and splitting again gives back the lines. */
  lemma {:induction false} SplitJoin(lines: seq<string>)
    requires |lines| > 0
    requires forall i :: 0 <= i < |lines| ==> '\n' !in lines[i]
    ensures Split(Join(lines)) == lines
  {
    if |lines| == 1 {
      SplitNoNewline(lines[0], []);
      assert lines[0] + [] == lines[0];
    } else {
      var rest := Join(lines[1..]);
      SplitJoin(lines[1..]);
      assert Split("\n" + rest) == [[]] + Split(rest) by {
        assert ("\n" + rest)[0] == '\n' && ("\n" + rest)[1..] == rest;
      }
      SplitNoNewline(lines[0], "\n" + rest);
      assert lines[0] + [] == lines[0];
      assert lines == [lines[0]] + lines[1..];
    }
  }

  /** `Split` on a non-empty string, one step. */
  lemma SplitStep(s: string)
    requires s != []
    ensures s[0] == '\n' ==> Split(s) == [[]] + Split(s[1..])
    ensures s[0] != '\n' ==> Split(s) == [[s[0]] + Split(s[1..])[0]] + Split(s[1..])[1..]
  {
  }

  /** A newline splits the text into the lines before it and the lines after it. */
  lemma {:induction false} SplitAtNewline(a: string, b: string)
    ensures Split(a + ("\n" + b)) == Split(a) + Split(b)
  {
    var s := a + ("\n" + b);
    if a == [] {
      assert s == "\n" + b;
      assert s[0] == '\n' && s[1..] == b;
      SplitStep(s);
    } else {
      var t := a[1..];
      assert s[0] == a[0] && s[1..] == t + ("\n" + b);
      SplitAtNewline(t, b);
      SplitStep(s);
      SplitStep(a);
      SplitAppendHead(a[0], Split(t), Split(b));
    }
  }

  lemma SplitAppendHead(c: char, x: seq<string>, y: seq<string>)
    requires |x| > 0
    ensures c == '\n' ==> [[]] + (x + y) == ([[]] + x) + y
    ensures c != '\n' ==> [[c] + (x + y)[0]] + (x + y)[1..] == ([[c] + x[0]] + x[1..]) + y
  {
    assert (x + y)[0] == x[0];
    assert (x + y)[1..] == x[1..] + y;
  }

  /** The newlines between the five parts of a text split it into their lines. */
  lemma SplitFiveParts(h: string, m: string, mid: string, c: string, f: string)
    ensures Split(h + ("\n" + (m + ("\n" + (mid + ("\n" + (c + ("\n" + f))))))))
         == Split(h) + Split(m) + Split(mid) + Split(c) + Split(f)
  {
    var t3 := c + ("\n" + f);
    var t2 := mid + ("\n" + t3);
    var t1 := m + ("\n" + t2);
    SplitAtNewline(c, f);
    SplitAtNewline(mid, t3);
    SplitAtNewline(m, t2);
    SplitAtNewline(h, t1);
    SeqAssoc5(Split(h), Split(m), Split(mid), Split(c), Split(f));
  }

  lemma SeqAssoc5<T>(a: seq<T>, b: seq<T>, c: seq<T>, d: seq<T>, e: seq<T>)
    ensures a + (b + (c + (d + e))) == a + b + c + d + e
  {
  }

  /** Reads `0x` and a greedy run of lower-case hex digits: the number and the text after it. */
  function ReadPyHex(s: string): Option<(nat, string)>
  {
    if !StartsWith(s, "0x") then None
    else
      var g := HexGroup(s[2..], false);
      if g.None? then None else Some((HexValue(g.value.0), g.value.1))
  }

  /** `hex(n)` read back gives `n`, and stops where the digits stop. */
  lemma ReadPyHexOf(n: nat, t: string)
    requires t == [] || !IsHexDigit(t[0], false)
    ensures ReadPyHex(PyHex(n) + t) == Some((n, t))
  {
    var h := HexDigits(n, false);
    assert PyHex(n) + t == "0x" + (h + t);
    StartsWithConcat("0x", h + t);
    HexGroupOf(h, t, false);
    HexValueOfDigits(n, false);
  }

  /** Reads an enum-member line back to the member's name. */
  function ParseMemberLine(line: string): Option<string>
  {
    if StartsWith(line, Indent) && |line| > |Indent| && line[|line| - 1] == ','
    then Some(line[|Indent|..|line| - 1])
    else None
  }

  /** Reads the end of a switch arm, ` => .name,`, back to the name. */
  function ParseArm(arm: string): Option<string>
  {
    if StartsWith(arm, " => .") && |arm| > 5 && arm[|arm| - 1] == ','
    then Some(arm[5..|arm| - 1])
    else None
  }

  /** Reads a switch-arm line back to its entry. */
  function ParseCaseLine(line: string): Option<Entry>
  {
    var lead := Indent + Indent + Indent;
    if !StartsWith(line, lead) then None
    else
      var lo := ReadPyHex(line[|lead|..]);
      if lo.None? || !StartsWith(lo.value.1, "...") then None
      else
        var hi := ReadPyHex(lo.value.1[3..]);
        if hi.None? then None
        else
          var name := ParseArm(hi.value.1);
          if name.None? then None else Some(Entry(lo.value.0, hi.value.0, name.value))
  }

  /** Every member line names its entry. */
  lemma MemberLineRoundTrip(e: Entry)
    ensures ParseMemberLine(MemberLine(e)) == Some(e.name)
  {
    var line := MemberLine(e);
    StartsWithConcat(Indent, e.name + ",");
    assert line[|line| - 1] == ',';
    assert line[|Indent|..|line| - 1] == e.name;
  }

  lemma ArmRoundTrip(name: string)
    ensures ParseArm(" => ." + (name + ",")) == Some(name)
  {
    var arm := " => ." + (name + ",");
    StartsWithConcat(" => .", name + ",");
    assert arm[|arm| - 1] == ',';
    assert arm[5..|arm| - 1] == name;
  }

  /** Every switch arm gives back the entry's bounds and name. */
  lemma CaseLineRoundTrip(e: Entry)
    ensures ParseCaseLine(CaseLine(e)) == Some(e)
  {
    var lead := Indent + Indent + Indent;
    var arm := " => ." + (e.name + ",");
    var afterLo := "..." + (PyHex(e.stop) + arm);
    StartsWithConcat(lead, PyHex(e.start) + afterLo);
    ReadPyHexOf(e.start, afterLo);
    StartsWithConcat("...", PyHex(e.stop) + arm);
    ReadPyHexOf(e.stop, arm);
    ArmRoundTrip(e.name);
  }

  lemma NoNewlineInLines(e: Entry)
    requires '\n' !in e.name
    ensures '\n' !in MemberLine(e) && '\n' !in CaseLine(e)
  {
    assert '\n' !in Indent;
    assert '\n' !in "0x" && '\n' !in "..." && '\n' !in " => ." && '\n' !in ",";
    assert forall n: nat :: '\n' !in HexDigits(n, false);
  }

  /**
   * The member fragment has one line per entry, in entry order, and line `i`
   * names entry `i`; with no entries the fragment is empty.
   */
  lemma EnumMembersLines(entries: seq<Entry>)
    requires forall i :: 0 <= i < |entries| ==> '\n' !in entries[i].name
    ensures |entries| == 0 ==> EnumMembers(entries) == ""
    ensures |entries| > 0 ==> Split(EnumMembers(entries)) == MemberLines(entries)
    ensures |entries| > 0 ==> forall i :: 0 <= i < |entries| ==>
      ParseMemberLine(Split(EnumMembers(entries))[i]) == Some(entries[i].name)
  {
    if |entries| > 0 {
      forall i | 0 <= i < |entries| ensures '\n' !in MemberLines(entries)[i] {
        NoNewlineInLines(entries[i]);
      }
      SplitJoin(MemberLines(entries));
      forall i | 0 <= i < |entries| ensures ParseMemberLine(MemberLines(entries)[i]) == Some(entries[i].name) {
        MemberLineRoundTrip(entries[i]);
      }
    }
  }

  /**
   * The switch fragment has one arm per entry, in entry order, and arm `i`
   * reads back to entry `i`: its bounds and its name; with no entries the
   * fragment is empty.
   */
  lemma BlockCasesLines(entries: seq<Entry>)
    requires forall i :: 0 <= i < |entries| ==> '\n' !in entries[i].name
    ensures |entries| == 0 ==> BlockCases(entries) == ""
    ensures |entries| > 0 ==> Split(BlockCases(entries)) == CaseLines(entries)
    ensures |entries| > 0 ==> forall i :: 0 <= i < |entries| ==>
      ParseCaseLine(Split(BlockCases(entries))[i]) == Some(entries[i])
  {
    if |entries| > 0 {
      forall i | 0 <= i < |entries| ensures '\n' !in CaseLines(entries)[i] {
        NoNewlineInLines(entries[i]);
      }
      SplitJoin(CaseLines(entries));
      forall i | 0 <= i < |entries| ensures ParseCaseLine(CaseLines(entries)[i]) == Some(entries[i]) {
        CaseLineRoundTrip(entries[i]);
      }
    }
  }

  /**
   * The lines of the generated source: the fixed head, one member line per
   * entry, the fixed middle, one switch arm per entry, the fixed foot. With
   * no entries each fragment leaves a single empty line.
   */
  lemma DeclarationLines(entries: seq<Entry>)
    requires forall i :: 0 <= i < |entries| ==> '\n' !in entries[i].name
    ensures |entries| > 0 ==>
      Split(Declaration(entries)) == Split(Head) + MemberLines(entries) + Split(Middle) + CaseLines(entries) + Split(Foot)
    ensures |entries| == 0 ==>
      Split(Declaration(entries)) == Split(Head) + [""] + Split(Middle) + [""] + Split(Foot)
  {
    SplitFiveParts(Head, EnumMembers(entries), Middle, BlockCases(entries), Foot);
    EnumMembersLines(entries);
    BlockCasesLines(entries);
  }
}
