# utf8blocks: the Unicode block table to a Zig enum

`scripts/utf8blocks.py` turns a table of Unicode blocks into Zig source. The table is a comma-separated export. The generator drops its first two rows and its last row (`rows[2:-1]`) and takes every other row to describe one block. The output declares `Utf8Block`, an enum with one member per block, and a `categorize` function that switches on a code point.

For each block row, the generator does three things:

- It reads the range field `U+XXXX..U+YYYY` with an anchored regular expression, then reads both bounds as hexadecimal.
- It normalises the block name into an identifier. It keeps the runs of ASCII letters and digits and title-cases each run (`str.title()`), then joins the runs with no separator.
- It writes one enum member line and one switch arm per block. A switch arm is `0x…...0x… => .Name,`, with bounds in Python's lowercase `hex()` form.

A row that lacks a field, or whose range field does not match, stops the run with a Python exception. The model expresses this as an `Error` value.

The model is split into one module per concern:

| file | module | models |
|---|---|---|
| `wrappers.dfy` | `Wrappers` | the `Option` and `Result` datatypes |
| `ascii.dfy` | `Ascii` | ASCII character classes and the case of one character |
| `hex.dfy` | `Hex` | `int(_, 16)`, `hex()`, and greedy runs of hexadecimal digits |
| `identifier.dfy` | `Identifier` | `IDENTIFIER_RE`, `str.title()` and `sentence_to_camelcase` |
| `identifier.dfy` | `IdentifierExamples` | worked examples of the normaliser on block names |
| `range_field.dfy` | `RangeField` | `RANGE_RE.match` and reading both bounds |
| `blocks.dfy` | `Blocks` | the `Entry` record, a table row, and the two ways a run fails |
| `emit.dfy` | `Emit` | the two emitted fragments, `"\n".join`, the fixed template, and parsers that read the output back |
| `generator.dfy` | `Generator` | the body of `main`: the read loop, `rows[2:-1]`, the entry loop, and rendering |

The read loop and the entry loop are `method`s with loop invariants. Each is proved equal to a function: `ReadRows` returns the records unchanged, and `CollectEntries` computes `Entries`. The lemmas prove their properties about those functions.

Two properties one might expect of a generator like this do not hold of the code, and the model follows the code:

- Name normalisation is not idempotent. "Basic Latin" becomes "BasicLatin", and normalising that again gives "Basiclatin". `CamelCaseTwiceDiffers` proves that normalising twice differs from normalising once for every pair of capitalised words around a separator. `CamelCaseNotIdempotent` proves that "BasicLatin" becomes "Basiclatin". `CamelCaseTwiceStable` proves that a third application changes nothing.
- The code checks neither `start <= stop` nor that names are unique, so `Entry` carries no such invariant.

## Model

| member | source | states |
|---|---|---|
| `Ascii.Case` | scripts/utf8blocks.py:24 | Changing the case of one character keeps its class (letter, digit, other). Its lower-case form is unchanged. A letter ends up upper-case exactly when upper-case was asked for. Any other character is left as it is. |
| `Hex.DigitValue` | scripts/utf8blocks.py:42-43 | A hexadecimal digit's value is below 16. It is below 10 exactly for decimal digits, and it is 0 exactly for `'0'`. |
| `Hex.Digit` | scripts/utf8blocks.py:57 | The digit written for a value below 16 is a hex digit of the requested case, and it reads back as that value. |
| `Hex.HexDigits` | scripts/utf8blocks.py:57 | A number's hexadecimal numeral has no leading zeros, as `hex()` writes it. It is non-empty and all digits of one case. It starts with `'0'` exactly when the number is 0. It is one digit long exactly when the number is below 16. |
| `Hex.HexValue` | scripts/utf8blocks.py:42-43 | `int(h, 16)` on a string of hex digits. `HexValueOfDigits` and `DigitsOfHexValue` prove it inverse to `HexDigits`. |
| `Hex.PyHex` | scripts/utf8blocks.py:57 | `hex(n)`: `0x`, then the lower-case digits. `Emit.ReadPyHexOf` proves that it reads back as n. |
| `Hex.HexValueOfDigits` | scripts/utf8blocks.py:42-43 | `int(_, 16)` reads `hex()`'s digits back as the number that was written. |
| `Hex.DigitsOfHexValue` | scripts/utf8blocks.py:42-43 | Writing out the value of a numeral without leading zeros gives that numeral back, so the reading is one-to-one on canonical numerals. |
| `Hex.HexRun` | scripts/utf8blocks.py:14 | The greedy `[\dA-F]+` run: every character it covers is a hex digit, and the next character is not. |
| `Hex.HexGroup` | scripts/utf8blocks.py:14 | A capturing hexadecimal group is found only when the run is non-empty. The group is a prefix of the input and the rest follows it. |
| `Identifier.RunLength` | scripts/utf8blocks.py:13 | The greedy `[a-zA-Z\d]+` match: a maximal prefix of letters and digits. |
| `Identifier.Runs` | scripts/utf8blocks.py:13 | `finditer` yields only non-empty runs made of letters and digits. `RunsConcat` and `RunsSplit` prove that the runs are maximal and cover every letter and digit. |
| `Identifier.RunsConcat` | scripts/utf8blocks.py:13 | Taken together, in order, the runs are exactly the letters and digits of the input. None is lost or repeated. |
| `Identifier.RunsSplit` | scripts/utf8blocks.py:13 | The runs are maximal. A whole word followed by a separator is one run, and matching resumes after the separator. A separator starts no run. A word at the end of the input is the last run. |
| `Identifier.SentenceToCamelCase` | scripts/utf8blocks.py:22-26 | The normaliser: each run title-cased, the results joined with nothing between them. Its properties are stated by the lemmas below, starting with `CamelCaseIsRef`. |
| `Identifier.Title` | scripts/utf8blocks.py:24 | `str.title()` on a run keeps its length. A letter is upper-case exactly when it is first or follows a non-letter. Digits are unchanged. |
| `Identifier.CamelCaseIsRef` | scripts/utf8blocks.py:22-26 | The run-by-run normaliser equals a one-pass scan. The scan keeps every letter and digit and drops everything else. It upper-cases a letter exactly when the previous input character is not a letter. |
| `Identifier.CamelCaseKeepsAlnums` | scripts/utf8blocks.py:22-26 | The identifier holds only letters and digits. It has as many characters as the input has letters and digits, and they are the same characters in the same order, changed in case only. |
| `Identifier.CamelCaseAt` | scripts/utf8blocks.py:22-26 | The output character for each input letter or digit is found at the position given by the count of letters and digits before it. That character is upper-case exactly when the input letter is first or follows a non-letter. |
| `Identifier.CamelCaseFixpoint` | scripts/utf8blocks.py:22-26 | A string is left unchanged exactly when it is all letters and digits and each letter already has the case the rule gives it. |
| `Identifier.CamelCaseTwiceStable` | scripts/utf8blocks.py:22-26 | Normalising a third time changes nothing. |
| `Identifier.CamelCaseRunThenRest` | scripts/utf8blocks.py:22-26 | A maximal run followed by anything is title-cased on its own and joined with the normalised rest. |
| `Identifier.CamelCaseDropsSeparator` | scripts/utf8blocks.py:22-26 | A leading character that is not a letter or digit contributes nothing. |
| `Identifier.CamelCaseRunSeparator` | scripts/utf8blocks.py:22-26 | A run, a separator, then any rest: the run is title-cased and the separator vanishes. |
| `Identifier.CamelCaseOfWord` | scripts/utf8blocks.py:22-26 | A string that is a single run is title-cased as a whole. |
| `IdentifierExamples.TitleOfCapitalised` | scripts/utf8blocks.py:24 | A capitalised word is left unchanged by `str.title()`. |
| `IdentifierExamples.CamelCaseOfTwoWords` | scripts/utf8blocks.py:22-26 | Two capitalised words around a separator, such as "Basic Latin", become the two words joined ("BasicLatin"). |
| `IdentifierExamples.CamelCaseLowersInnerCapital` | scripts/utf8blocks.py:22-26 | A capital that follows a letter is not a fixpoint, so normalising changes it. |
| `IdentifierExamples.CamelCaseTwiceDiffers` | scripts/utf8blocks.py:22-26 | Normalising twice differs from normalising once for every such pair of words, so the normaliser is not idempotent. |
| `IdentifierExamples.CamelCaseOfJoinedWords` | scripts/utf8blocks.py:22-26 | Two capitalised words written together form one run, so the second word's capital is lower-cased. |
| `IdentifierExamples.CamelCaseNotIdempotent` | scripts/utf8blocks.py:22-26 | Concretely, "BasicLatin" becomes "Basiclatin", so it is not left unchanged. |
| `RangeField.ParseRange` | scripts/utf8blocks.py:40-43 | `RANGE_RE.match(row[1])` then `int(group, 16)` on both groups, with `None` for no match. Its properties are stated by `ParseRangeComplete` and `ParseRangeSound`. |
| `RangeField.ParseRangeComplete` | scripts/utf8blocks.py:14 | Every text that `RANGE_RE` matches at its start is accepted, whatever follows the match. The result is the two groups read as hexadecimal. |
| `RangeField.ParseRangeSound` | scripts/utf8blocks.py:14 | Every accepted text starts with `U+`, then a non-empty upper-case hex group, then `..U+`, then another such group. The result is those groups' values. |
| `RangeField.ParseRangeRoundTrip` | scripts/utf8blocks.py:40-43 | A range written in canonical upper-case form reads back as its two bounds, followed by anything that does not extend the second group. `start <= stop` is not required. |
| `RangeField.ParseRangeLeadingZeros` | scripts/utf8blocks.py:40-43 | Leading zeros in either bound, as in `U+0000..U+007F`, do not change the values read. |
| `RangeField.ParseRangeRejects` | scripts/utf8blocks.py:14 | A character in the first bound that is neither an upper-case hex digit nor `.`, such as a lower-case hex letter, makes the match fail. |
| `RangeField.ParseRangeNeedsPrefix` | scripts/utf8blocks.py:14 | A field that does not start with `U` does not match. |
| `RangeField.ParseRangeTruncatesSecondBound` | scripts/utf8blocks.py:14 | A lower-case hex letter inside the second bound is not rejected. The match ends before it, and the bound is the shorter group. |
| `Emit.MemberLine` | scripts/utf8blocks.py:54 | The member line `f"{indent}{entry.name},"`. `MemberLineRoundTrip` proves that it reads back as the name. |
| `Emit.CaseLine` | scripts/utf8blocks.py:57 | The switch arm, with both bounds in `hex()` form. `CaseLineRoundTrip` proves that it reads back as the entry. |
| `Emit.Join` | scripts/utf8blocks.py:54 | `"\n".join(lines)`. `SplitJoin` proves that splitting at newlines gives the lines back. |
| `Emit.Declaration` | scripts/utf8blocks.py:61-79 | The template with both fragments substituted. `DeclarationLines` states its lines. |
| `Emit.EnumMembers` | scripts/utf8blocks.py:53-54 | The `enum_members` fragment: the member lines joined with newlines. `EnumMembersLines` states its lines. |
| `Emit.BlockCases` | scripts/utf8blocks.py:56-59 | The `block_cases` fragment: the switch arms joined with newlines. `BlockCasesLines` states its lines. |
| `Emit.Split` | scripts/utf8blocks.py:54 | Splitting on newlines always yields at least one piece. |
| `Emit.SplitJoin` | scripts/utf8blocks.py:54 | Splitting `"\n".join(lines)` at newlines gives back the lines, when there is at least one line and no line contains a newline. |
| `Emit.SplitAtNewline` | scripts/utf8blocks.py:61-79 | The lines of two texts joined by a newline are the lines of the first followed by the lines of the second. |
| `Emit.ReadPyHexOf` | scripts/utf8blocks.py:57 | The `hex()` literal of a number reads back as that number, followed by whatever comes after it. |
| `Emit.MemberLineRoundTrip` | scripts/utf8blocks.py:54 | A member line reads back as its entry's name. |
| `Emit.CaseLineRoundTrip` | scripts/utf8blocks.py:57 | A switch arm reads back as its entry: both bounds in lower-case `0x` hexadecimal, and the name. |
| `Emit.NoNewlineInLines` | scripts/utf8blocks.py:53-59 | Neither kind of line contains a newline when the name does not. |
| `Emit.EnumMembersLines` | scripts/utf8blocks.py:53-54 | With no entries, the member fragment is empty. Otherwise its lines are the member lines, one per entry and in order, and each reads back as its entry's name. |
| `Emit.BlockCasesLines` | scripts/utf8blocks.py:56-59 | With no entries, the switch fragment is empty. Otherwise its lines are the switch arms, one per entry and in order, and each reads back as its entry. |
| `Emit.SplitFiveParts` | scripts/utf8blocks.py:61-79 | The lines of the template, which has four newlines around the two fragments, are the lines of its five parts in order. |
| `Emit.DeclarationLines` | scripts/utf8blocks.py:61-79 | The lines of the declaration are the fixed head lines, one member line per entry, the fixed middle lines, one switch arm per entry, then the fixed foot lines. With no entries, each fragment is a single empty line. |
| `Generator.SelectRows` | scripts/utf8blocks.py:35 | `rows[2:-1]` keeps k - 3 of k rows, or none when k <= 3. Row i of the result is row i + 2 of the input. |
| `Generator.BuildEntry` | scripts/utf8blocks.py:40-50 | One row to one entry or the error that stops the run. `BuildEntrySpec` states its contract. |
| `Generator.BuildEntrySpec` | scripts/utf8blocks.py:38-50 | A row with fewer than two fields fails on field 1. A range field that does not match fails with that field. A row succeeds exactly when it has a name field and its range matches. The entry then carries the range's bounds and the normalised name field, which is made of that field's letters and digits only, in order, changed in case only. |
| `Generator.BuildEntryKeepsReversedRange` | scripts/utf8blocks.py:16-20 | No invariant relates `start` and `stop` in an `Entry`. A row whose range has its bounds in reverse order still yields an entry, with `start > stop`. |
| `Generator.BuildEntryRoundTrip` | scripts/utf8blocks.py:40-44 | A row whose range field is written canonically yields an entry with exactly those bounds and the normalised name. |
| `Generator.Entries` | scripts/utf8blocks.py:38-50 | The entry loop as a function: one entry per row, or the error of the first row that fails. `CollectSucceeds`, `CollectFails` and `OutputEntries` state its properties. |
| `Generator.CollectSucceeds` | scripts/utf8blocks.py:38-50 | The entry loop succeeds exactly when every row does. It then yields one entry per row, in row order. |
| `Generator.CollectFails` | scripts/utf8blocks.py:38-50 | A failed loop reports the error of the first row that fails. Every row before that row succeeds. |
| `Generator.CollectAbortsAt` | scripts/utf8blocks.py:38-50 | Once a prefix of the rows has failed, the rows after it do not affect the outcome. |
| `Generator.CollectEntries` | scripts/utf8blocks.py:38-50 | The loop that builds and appends one entry per row, stopping at the first error, computes `Entries`. |
| `Generator.ReadRows` | scripts/utf8blocks.py:31-33 | The read loop appends every record in order, so it yields the records unchanged. |
| `Generator.Output` | scripts/utf8blocks.py:35-79 | What one run writes, or the error that stops it. `OutputEntries` and `OutputLines` state its properties. |
| `Generator.Generate` | scripts/utf8blocks.py:28-79 | One run: read, keep the block rows, build the entries, render. It computes `Output`. |
| `Generator.OutputOfShortTable` | scripts/utf8blocks.py:35 | A table with at most three rows yields the declaration with both fragments empty. |
| `Generator.OutputEntries` | scripts/utf8blocks.py:35-50 | A run succeeds exactly when every block row builds an entry. The output is then the declaration of one entry per block row: entry i comes from row i + 2. |
| `Generator.OutputLines` | scripts/utf8blocks.py:53-79 | The output of a successful run has, between the fixed lines, one member line and one switch arm per entry, in order. Each reads back as its entry. |

## Left out

- Opening and reading `Unicode_block_1.csv` and writing `out.zig` are not modelled. `Generate` takes the records already read and returns the text that would be written.
- `csv.reader` is not modelled: quoting, escaping and field splitting. A record is already a sequence of fields.
- `\d` is taken to mean the ASCII digits `0`-`9`. Python's `re` also matches other Unicode decimal digits in a `str` pattern.
- `str.title()` is modelled for ASCII letters only. It is only ever applied to runs of ASCII letters and digits.
- The unused `pprint` import and the unused `Entry` dataclass machinery (hashing, equality, immutability) are not modelled. `Entry` is a Dafny value type, which is immutable already.
- A Python exception other than a missing field or a failed range match cannot occur on a list of strings. Any other exception is not modelled.
- `IdentifierExamples`: the block-name examples are stated for every pair of capitalised words rather than for the literal string "Basic Latin". Only the second half of the non-idempotence example, "BasicLatin" becoming "Basiclatin", is proved on a literal string.
