/**
 * The body of `main`: collect the rows of the table, keep the block rows, turn
 * each into an `Entry`, and render the declaration. A row that does not fit
 * aborts the whole run, as the Python exception does.
 */
module Generator {
  import opened Wrappers
  import opened Ascii
  import opened Blocks
  import opened Identifier
  import opened RangeField
  import opened Emit

  /** `rows[2:-1]`: drop the first two rows and the last row of the table. */
  function SelectRows(rows: seq<Row>): (kept: seq<Row>)
    ensures |kept| == if |rows| <= 3 then 0 else |rows| - 3
    ensures forall i :: 0 <= i < |kept| ==> kept[i] == rows[i + 2]
  {
    if |rows| <= 3 then [] else rows[2..|rows| - 1]
  }

  /**
   * One row to one entry: field 1 must match the range pattern and field 2 is
   * normalised into the identifier. The fields are read in the order the
   * Python reads them, so the first missing or malformed one is reported.
   */
  function BuildEntry(row: Row): Result<Entry, Error>
  {
    if |row| < 2 then Failure(MissingField(1))
    else
      var range := ParseRange(row[1]);
      if range.None? then Failure(RangeMismatch(row[1]))
      else if |row| < 3 then Failure(MissingField(2))
      else Success(Entry(range.value.0, range.value.1, SentenceToCamelCase(row[2])))
  }

  /**
   * A row yields an entry iff it has a name field and its range field matches;
   * the entry carries the parsed bounds and the normalised name field, which
   * is made of that field's letters and digits only.
   */
  lemma BuildEntrySpec(row: Row)
    ensures |row| < 2 ==> BuildEntry(row) == Failure(MissingField(1))
    ensures |row| >= 2 && ParseRange(row[1]).None? ==> BuildEntry(row) == Failure(RangeMismatch(row[1]))
    ensures BuildEntry(row).Success? <==> |row| >= 3 && ParseRange(row[1]).Some?
    ensures BuildEntry(row).Success? ==>
      var e := BuildEntry(row).value;
      (e.start, e.stop) == ParseRange(row[1]).value &&
      e.name == SentenceToCamelCase(row[2]) &&
      IsWord(e.name) && |e.name| == |Alnums(row[2])| &&
      forall j :: 0 <= j < |e.name| ==> ToLower(e.name[j]) == ToLower(Alnums(row[2])[j])
  {
    if |row| >= 3 {
      CamelCaseKeepsAlnums(row[2]);
    }
  }

  /** A row whose range field is written canonically yields exactly that range. */
  lemma BuildEntryRoundTrip(first: string, start: nat, stop: nat, name: string, rest: seq<string>)
    ensures BuildEntry([first, FormatRange(start, stop), name] + rest)
         == Success(Entry(start, stop, SentenceToCamelCase(name)))
  {
    var row := [first, FormatRange(start, stop), name] + rest;
    assert row[1] == FormatRange(start, stop) + [];
    ParseRangeRoundTrip(start, stop, []);
  }

  /**
   * An `Entry` carries no order between its bounds: a range written with
   * its bounds reversed is accepted as it stands.
   */
  lemma BuildEntryKeepsReversedRange(first: string, start: nat, stop: nat, name: string, rest: seq<string>)
    requires start > stop
    ensures var r := BuildEntry([first, FormatRange(start, stop), name] + rest);
      r.Success? && r.value.start > r.value.stop
  {
    BuildEntryRoundTrip(first, start, stop, name, rest);
  }

  /**
   * A loop that maps `f` over `xs` and lets the first error escape, as a
   * fold over the prefix already done.
   */
  function Collect<X, Y, E>(xs: seq<X>, f: X -> Result<Y, E>): Result<seq<Y>, E>
  {
    if xs == [] then Success([])
    else
      var prev := Collect(xs[..|xs| - 1], f);
      if prev.Failure? then prev
      else
        var y := f(xs[|xs| - 1]);
        if y.Failure? then Failure(y.error) else Success(prev.value + [y.value])
  }

  /** The loop over the kept rows. */
  function Entries(rows: seq<Row>): Result<seq<Entry>, Error>
  {
    Collect(rows, BuildEntry)
  }

  /** The loop succeeds iff every step does, and then yields one result per element, in order. */
  lemma {:induction false} CollectSucceeds<X, Y, E>(xs: seq<X>, f: X -> Result<Y, E>)
    ensures Collect(xs, f).Success? <==> forall i :: 0 <= i < |xs| ==> f(xs[i]).Success?
    ensures Collect(xs, f).Success? ==>
      |Collect(xs, f).value| == |xs| &&
      forall i :: 0 <= i < |xs| ==> Collect(xs, f).value[i] == f(xs[i]).value
  {
    if xs != [] {
      var init := xs[..|xs| - 1];
      CollectSucceeds(init, f);
      var last := f(xs[|xs| - 1]);
      if Collect(init, f).Failure? {
        var j :| 0 <= j < |init| && f(init[j]).Failure?;
        assert xs[j] == init[j];
      } else if last.Success? {
        var vs := Collect(init, f).value + [last.value];
        assert Collect(xs, f) == Success(vs);
        forall i | 0 <= i < |xs|
          ensures f(xs[i]).Success? && vs[i] == f(xs[i]).value
        {
          if i < |init| {
            assert xs[i] == init[i];
          }
        }
      }
    }
  }

  /** Step `k` is the first one that fails. */
  ghost predicate FirstFailure<X, Y, E>(xs: seq<X>, f: X -> Result<Y, E>, k: int)
  {
    0 <= k < |xs| && f(xs[k]).Failure? &&
    forall j :: 0 <= j < k ==> f(xs[j]).Success?
  }

  /** A failed loop reports the error of the first step that fails. */
  lemma {:induction false} CollectFails<X, Y, E>(xs: seq<X>, f: X -> Result<Y, E>)
    requires Collect(xs, f).Failure?
    ensures exists k :: FirstFailure(xs, f, k) && Collect(xs, f).error == f(xs[k]).error
  {
    var init := xs[..|xs| - 1];
    assert forall i :: 0 <= i < |init| ==> init[i] == xs[i];
    var prev := Collect(init, f);
    if prev.Failure? {
      CollectFails(init, f);
      var k :| FirstFailure(init, f, k) && prev.error == f(init[k]).error;
      assert FirstFailure(xs, f, k);
    } else {
      CollectSucceeds(init, f);
      assert FirstFailure(xs, f, |xs| - 1);
    }
  }

  /** Once a prefix has failed, the elements after it are never looked at. */
  lemma {:induction false} CollectAbortsAt<X, Y, E>(xs: seq<X>, f: X -> Result<Y, E>, k: nat)
    requires k <= |xs| && Collect(xs[..k], f).Failure?
    ensures Collect(xs, f) == Collect(xs[..k], f)
    decreases |xs| - k
  {
    if k < |xs| {
      assert xs[..k + 1][..k] == xs[..k];
      CollectAbortsAt(xs, f, k + 1);
    } else {
      assert xs[..k] == xs;
    }
  }

  /** Lines 38-50 as the loop they are: build and append, stop at the first error. */
  method CollectEntries(rows: seq<Row>) returns (r: Result<seq<Entry>, Error>)
    ensures r == Entries(rows)
  {
    var entries: seq<Entry> := [];
    for i := 0 to |rows|
      invariant Entries(rows[..i]) == Success(entries)
    {
      assert rows[..i + 1][..i] == rows[..i];
      var e := BuildEntry(rows[i]);
      if e.Failure? {
        CollectAbortsAt(rows, BuildEntry, i + 1);
        return Failure(e.error);
      }
      entries := entries + [e.value];
    }
    assert rows[..|rows|] == rows;
    return Success(entries);
  }

  /** What one run of the generator writes, or the error that stops it. */
  function Output(records: seq<Row>): Result<string, Error>
  {
    var r := Entries(SelectRows(records));
    if r.Failure? then Failure(r.error) else Success(Declaration(r.value))
  }

  /** Lines 31-33: every record the reader yields is appended, in order. */
  method ReadRows(records: seq<Row>) returns (rows: seq<Row>)
    ensures rows == records
  {
    rows := [];
    for i := 0 to |records|
      invariant rows == records[..i]
    {
      rows := rows + [records[i]];
    }
  }

  /** `main` without the files: read every record, keep the block rows, build and render. */
  method Generate(records: seq<Row>) returns (out: Result<string, Error>)
    ensures out == Output(records)
  {
    var rows := ReadRows(records);
    rows := SelectRows(rows);
    var r := CollectEntries(rows);
    if r.Failure? {
      out := Failure(r.error);
    } else {
      out := Success(Declaration(r.value));
    }
  }

  lemma WordHasNoNewline(s: string)
    requires IsWord(s)
    ensures '\n' !in s
  {
  }

  /**
   * A table with at most three rows has no block rows: the run succeeds with
   * both fragments empty.
   */
  lemma OutputOfShortTable(records: seq<Row>)
    requires |records| <= 3
    ensures Output(records) == Success(Declaration([]))
    ensures Split(Output(records).value) == Split(Head) + [""] + Split(Middle) + [""] + Split(Foot)
  {
    DeclarationLines([]);
  }

  /** A run succeeds iff every block row does, and then has one entry per block row, in table order. */
  lemma OutputEntries(records: seq<Row>)
    requires |records| > 3
    ensures Output(records).Success? <==>
      forall i :: 2 <= i < |records| - 1 ==> BuildEntry(records[i]).Success?
    ensures Output(records).Success? ==>
      var es := Entries(SelectRows(records)).value;
      Output(records).value == Declaration(es) &&
      |es| == |records| - 3 &&
      forall i :: 0 <= i < |es| ==> es[i] == BuildEntry(records[i + 2]).value
  {
    var rows := SelectRows(records);
    CollectSucceeds(rows, BuildEntry);
    assert forall i :: 2 <= i < |records| - 1 ==> records[i] == rows[i - 2];
  }

  /**
   * The output of a successful run holds, between the fixed lines, one member
   * line and one switch arm per entry, in order, each reading back as that
   * entry (by `OutputEntries`, entry `i` is that of block row `i`).
   */
  lemma OutputLines(records: seq<Row>)
    requires |records| > 3 && Output(records).Success?
    ensures
      var es := Entries(SelectRows(records)).value;
      Split(Output(records).value) == Split(Head) + MemberLines(es) + Split(Middle) + CaseLines(es) + Split(Foot) &&
      forall i :: 0 <= i < |es| ==>
        ParseMemberLine(MemberLines(es)[i]) == Some(es[i].name) &&
        ParseCaseLine(CaseLines(es)[i]) == Some(es[i])
  {
    OutputEntries(records);
    var es := Entries(SelectRows(records)).value;
    forall i | 0 <= i < |es| ensures '\n' !in es[i].name {
      BuildEntrySpec(records[i + 2]);
      WordHasNoNewline(es[i].name);
    }
    DeclarationLines(es);
    EnumMembersLines(es);
    BlockCasesLines(es);
  }
}
