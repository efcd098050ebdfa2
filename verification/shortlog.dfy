/**
  The line parsing of `get_commit_counts`: each non-blank line of
  `git shortlog -sne` output (`<count><TAB><author>`) becomes one
  (count, author) pair.
 */
module Shortlog {
  import opened Wrappers
  import opened Text
  import opened Numbers

  datatype AuthorCount = AuthorCount(count: int, author: string)

  /** The author reported for a line without a tab. */
  const UnknownAuthor: string := "Unknown"

  /** `line.strip().split("\t", 1)`. */
  function Fields(line: string): seq<string> {
    SplitOnce(Strip(line), '\t')
  }

  /** `int(parts[0].strip())`, `None` where Python raises `ValueError`. */
  function CountField(line: string): Option<int> {
    ParseInt(Strip(Fields(line)[0]))
  }

  /** A line `get_commit_counts` gets through: blank, or with an integer count. */
  predicate WellFormedLine(line: string) {
    IsBlank(line) || CountField(line).Some?
  }

  /** Every line is one `get_commit_counts` gets through. */
  predicate AllWellFormed(lines: seq<string>) {
    |lines| == 0 || (WellFormedLine(lines[0]) && AllWellFormed(lines[1..]))
  }

  /** Output on which `get_commit_counts` raises nothing. */
  predicate WellFormed(output: string) {
    AllWellFormed(Split(output, '\n'))
  }

  /** `s` is `head`, a tab, then `tail`, the tab being the first one in `s`. */
  predicate FirstTab(s: string, head: string, tail: string) {
    s == head + "\t" + tail && '\t' !in head
  }

  /** Non-empty text with no blank at either end. */
  predicate Trimmed(s: string) {
    s != "" && !IsSpace(s[0]) && !IsSpace(s[|s| - 1])
  }

  /** The pair one non-blank line yields. */
  function ParseEntry(line: string): (entry: AuthorCount)
    requires !IsBlank(line) && CountField(line).Some?
    // The count is the integer read from the first field.
    ensures Some(entry.count) == CountField(line)
    // The author is the stripped text after the first tab of the stripped
    // line, never empty, or "Unknown" when the line has no tab.
    ensures '\t' in Strip(line) ==>
      exists head, tail :: FirstTab(Strip(line), head, tail) && entry.author == Strip(tail)
    ensures '\t' !in Strip(line) ==> entry.author == UnknownAuthor
    ensures '\t' in Strip(line) ==> Trimmed(entry.author)
  {
    var count := CountField(line).value;
    var s := Strip(line);
    var parts := SplitOnce(s, '\t');
    if |parts| > 1 then
      AuthorFieldNotBlank(s);
      assert FirstTab(s, parts[0], parts[1]);
      AuthorCount(count, Strip(parts[1]))
    else
      AuthorCount(count, UnknownAuthor)
  }

  /** In stripped text the tab cannot be last, so the author field is never blank. */
  lemma AuthorFieldNotBlank(s: string)
    requires s != "" && !IsSpace(s[|s| - 1])
    ensures '\t' in s ==> !IsBlank(SplitOnce(s, '\t')[1])
  {
    if '\t' in s {
      var parts := SplitOnce(s, '\t');
      assert s == parts[0] + ['\t'] + parts[1];
      assert |parts[1]| > 0;
      assert parts[1][|parts[1]| - 1] == s[|s| - 1];
    }
  }

  function CountNonBlank(lines: seq<string>): nat {
    if |lines| == 0 then 0 else (if IsBlank(lines[0]) then 0 else 1) + CountNonBlank(lines[1..])
  }

  /** The loop over the lines: blank lines are skipped, every other line gives one pair. */
  function ParseLines(lines: seq<string>): (entries: seq<AuthorCount>)
    requires AllWellFormed(lines)
    ensures |entries| == CountNonBlank(lines)
  {
    if |lines| == 0 then []
    else
      var rest := ParseLines(lines[1..]);
      if IsBlank(lines[0]) then rest else [ParseEntry(lines[0])] + rest
  }

  /** `get_commit_counts` on the text `git shortlog -sne` printed. */
  function GetCommitCounts(output: string): (entries: seq<AuthorCount>)
    requires WellFormed(output)
    ensures |entries| == CountNonBlank(Split(output, '\n'))
    ensures IsBlank(output) ==> entries == []
  {
    if output == "" then []
    else
      var lines := Split(output, '\n');
      assert IsBlank(output) ==> forall i :: 0 <= i < |lines| ==> IsBlank(lines[i]) by {
        if IsBlank(output) {
          JoinSplit(output, '\n');
          forall i | 0 <= i < |lines| ensures IsBlank(lines[i]) {
            JoinBlank(lines, '\n', i);
          }
        }
      }
      AllBlankCount(lines);
      ParseLines(lines)
  }

  /** Every piece of a blank joined text is blank. */
  lemma {:induction false} JoinBlank(parts: seq<string>, sep: char, i: nat)
    requires |parts| > 0 && i < |parts| && IsBlank(Join(parts, sep))
    ensures IsBlank(parts[i])
    decreases |parts|
  {
    var s := Join(parts, sep);
    if |parts| > 1 {
      assert s == parts[0] + [sep] + Join(parts[1..], sep);
      if i == 0 {
        assert forall k :: 0 <= k < |parts[0]| ==> parts[0][k] == s[k];
      } else {
        var rest := Join(parts[1..], sep);
        assert forall k :: 0 <= k < |rest| ==> rest[k] == s[|parts[0]| + 1 + k];
        JoinBlank(parts[1..], sep, i - 1);
      }
    }
  }

  lemma {:induction false} AllBlankCount(lines: seq<string>)
    ensures (forall i :: 0 <= i < |lines| ==> IsBlank(lines[i])) ==> CountNonBlank(lines) == 0
    decreases |lines|
  {
    if |lines| > 0 {
      AllBlankCount(lines[1..]);
      if forall i :: 0 <= i < |lines| ==> IsBlank(lines[i]) {
        assert IsBlank(lines[0]);
        assert forall i :: 0 <= i < |lines[1..]| ==> IsBlank(lines[1..][i]) by {
          forall i | 0 <= i < |lines[1..]| ensures IsBlank(lines[1..][i]) {
            assert lines[1..][i] == lines[i + 1];
          }
        }
      }
    }
  }

  /**
    The line `git shortlog -s` prints for one entry: the count, right-aligned
    by the blank `pad` (`%6d`), a tab, then the author.
   */
  function EntryLine(pad: string, entry: AuthorCount): string {
    pad + IntToString(entry.count) + "\t" + entry.author
  }

  /** Padding a count can carry: blanks only, no line break. */
  predicate Pad(pad: string) {
    IsBlank(pad) && '\n' !in pad
  }

  /** An author as shortlog prints it: non-empty, on one line, no surrounding blanks. */
  predicate PrintableAuthor(author: string) {
    Trimmed(author) && '\n' !in author
  }

  /** An entry whose printed line `get_commit_counts` reads back: a printable
      author and a count `int()` converts within its digit limit. */
  predicate PrintableEntry(entry: AuthorCount) {
    PrintableAuthor(entry.author) && WithinDigitLimit(entry.count)
  }

  /** Entries shortlog can print, with one padding per entry. */
  predicate Printable(pads: seq<string>, entries: seq<AuthorCount>) {
    && |pads| == |entries|
    && (forall i :: 0 <= i < |pads| ==> Pad(pads[i]))
    && (forall i :: 0 <= i < |entries| ==> PrintableEntry(entries[i]))
  }

  /** Reading one printed entry line, whatever its padding, gives the entry back. */
  lemma ParseEntryLine(pad: string, entry: AuthorCount)
    requires IsBlank(pad) && PrintableEntry(entry)
    ensures !IsBlank(EntryLine(pad, entry)) && CountField(EntryLine(pad, entry)).Some?
    ensures ParseEntry(EntryLine(pad, entry)) == entry
  {
    var number := IntToString(entry.count);
    var bare := number + "\t" + entry.author;
    assert bare == number + ['\t'] + entry.author;
    assert bare[0] == number[0];
    assert bare[|bare| - 1] == entry.author[|entry.author| - 1];
    assert EntryLine(pad, entry) == pad + bare + "";
    StripPadded(pad, bare, "");
    SplitOnceAt(number, '\t', entry.author);
    StripUnchanged(number);
    ParseIntToString(entry.count);
    StripUnchanged(entry.author);
  }

  /** The printed lines of a list of entries, in order. */
  function EntryLines(pads: seq<string>, entries: seq<AuthorCount>): (lines: seq<string>)
    requires |pads| == |entries|
    ensures |lines| == |entries|
  {
    if |entries| == 0 then [] else [EntryLine(pads[0], entries[0])] + EntryLines(pads[1..], entries[1..])
  }

  /** Printed entries, one per line. */
  function Render(pads: seq<string>, entries: seq<AuthorCount>): string
    requires |pads| == |entries|
  {
    if |entries| == 0 then "" else Join(EntryLines(pads, entries), '\n')
  }

  lemma {:induction false} EntryLineAt(pads: seq<string>, entries: seq<AuthorCount>, i: nat)
    requires |pads| == |entries| && i < |entries|
    ensures EntryLines(pads, entries)[i] == EntryLine(pads[i], entries[i])
    decreases i
  {
    if i > 0 {
      EntryLineAt(pads[1..], entries[1..], i - 1);
    }
  }

  /** `Printable` of a non-empty list holds of its tail. */
  lemma PrintableTail(pads: seq<string>, entries: seq<AuthorCount>)
    requires Printable(pads, entries) && |entries| > 0
    ensures Printable(pads[1..], entries[1..])
    ensures Pad(pads[0]) && PrintableEntry(entries[0])
  {
    assert forall i :: 0 <= i < |pads| - 1 ==> pads[1..][i] == pads[i + 1];
    assert forall i :: 0 <= i < |entries| - 1 ==> entries[1..][i] == entries[i + 1];
  }

  /**
    The printed lines of any entries are all accepted and read back as those
    entries, in order.
   */
  lemma {:induction false} ParseEntryLines(pads: seq<string>, entries: seq<AuthorCount>)
    requires Printable(pads, entries)
    ensures AllWellFormed(EntryLines(pads, entries)) && ParseLines(EntryLines(pads, entries)) == entries
    decreases |entries|
  {
    if |entries| > 0 {
      PrintableTail(pads, entries);
      ParseEntryLines(pads[1..], entries[1..]);
      ParseEntryLine(pads[0], entries[0]);
      ParseLinesCons(EntryLine(pads[0], entries[0]), EntryLines(pads[1..], entries[1..]));
      assert EntryLines(pads, entries) == [EntryLine(pads[0], entries[0])] + EntryLines(pads[1..], entries[1..]);
      HeadTail(entries);
    }
  }

  lemma HeadTail<T>(s: seq<T>)
    requires |s| > 0
    ensures s == [s[0]] + s[1..]
  {
  }

  /** Reading a non-blank line followed by more lines. */
  lemma ParseLinesCons(line: string, rest: seq<string>)
    requires !IsBlank(line) && CountField(line).Some? && AllWellFormed(rest)
    ensures AllWellFormed([line] + rest)
    ensures ParseLines([line] + rest) == [ParseEntry(line)] + ParseLines(rest)
  {
    assert ([line] + rest)[1..] == rest;
  }

  /** No printed line holds a newline. */
  lemma EntryLinesSingle(pads: seq<string>, entries: seq<AuthorCount>)
    requires Printable(pads, entries)
    ensures forall i :: 0 <= i < |entries| ==> '\n' !in EntryLines(pads, entries)[i]
  {
    forall i | 0 <= i < |entries| ensures '\n' !in EntryLines(pads, entries)[i] {
      EntryLineAt(pads, entries, i);
      assert Pad(pads[i]) && PrintableEntry(entries[i]);
      assert EntryLine(pads[i], entries[i]) == pads[i] + IntToString(entries[i].count) + "\t" + entries[i].author;
    }
  }

  /**
    Round trip: the text shortlog prints for a list of entries, with any
    padding of the counts, is read back by `get_commit_counts` as that same
    list, in order.
   */
  lemma RenderThenParse(pads: seq<string>, entries: seq<AuthorCount>)
    requires Printable(pads, entries)
    ensures WellFormed(Render(pads, entries)) && GetCommitCounts(Render(pads, entries)) == entries
  {
    if |entries| > 0 {
      var lines := EntryLines(pads, entries);
      var output := Render(pads, entries);
      RenderLines(pads, entries);
      assert Split(output, '\n') == lines;
      ParseEntryLines(pads, entries);
      assert WellFormed(output);
      assert output != "" by {
        EntryLineAt(pads, entries, 0);
        PrintableTail(pads, entries);
        ParseEntryLine(pads[0], entries[0]);
        JoinSplit(output, '\n');
      }
      assert GetCommitCounts(output) == ParseLines(lines);
    }
  }

  /** The printed text splits back into the printed lines. */
  lemma RenderLines(pads: seq<string>, entries: seq<AuthorCount>)
    requires |entries| > 0 && Printable(pads, entries)
    ensures Split(Render(pads, entries), '\n') == EntryLines(pads, entries)
  {
    EntryLinesSingle(pads, entries);
    SplitJoin(EntryLines(pads, entries), '\n');
  }

  /** Two runs of accepted lines make one. */
  lemma {:induction false} AllWellFormedAppend(a: seq<string>, b: seq<string>)
    requires AllWellFormed(a) && AllWellFormed(b)
    ensures AllWellFormed(a + b)
    decreases |a|
  {
    if |a| == 0 {
      assert a + b == b;
    } else {
      assert (a + b)[1..] == a[1..] + b;
      AllWellFormedAppend(a[1..], b);
    }
  }

  /** Reading two runs of lines one after the other reads each in turn. */
  lemma {:induction false} ParseLinesAppend(a: seq<string>, b: seq<string>)
    requires AllWellFormed(a) && AllWellFormed(b)
    ensures AllWellFormed(a + b)
    ensures ParseLines(a + b) == ParseLines(a) + ParseLines(b)
    decreases |a|
  {
    AllWellFormedAppend(a, b);
    if |a| == 0 {
      assert a + b == b;
    } else {
      var line, tail := a[0], a[1..];
      HeadTail(a);
      ConsAppend(line, tail, b);
      ParseLinesAppend(tail, b);
      if IsBlank(line) {
        ParseLinesBlankCons(line, tail);
        ParseLinesBlankCons(line, tail + b);
      } else {
        ParseLinesCons(line, tail);
        ParseLinesCons(line, tail + b);
        ConsAppend(ParseEntry(line), ParseLines(tail), ParseLines(b));
      }
    }
  }

  lemma ConsAppend<T>(e: T, x: seq<T>, y: seq<T>)
    ensures [e] + (x + y) == ([e] + x) + y
  {
  }

  /** Reading a blank line followed by more lines. */
  lemma ParseLinesBlankCons(line: string, rest: seq<string>)
    requires IsBlank(line) && AllWellFormed(rest)
    ensures AllWellFormed([line] + rest)
    ensures ParseLines([line] + rest) == ParseLines(rest)
  {
    assert ([line] + rest)[1..] == rest;
  }

  /** A single line reads as nothing when blank, otherwise as its one pair. */
  lemma ParseOneLine(line: string)
    requires WellFormedLine(line)
    ensures AllWellFormed([line])
    ensures IsBlank(line) ==> ParseLines([line]) == []
    ensures !IsBlank(line) ==> ParseLines([line]) == [ParseEntry(line)]
  {
    assert [line][1..] == [];
  }
}
