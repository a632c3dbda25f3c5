/**
 * The older script, py_script.py: `process_vocabulary_text` with its own reassembly loop (start
 * test: a leading digit or the arrow), the filter that follows it, the arrow-only parser whose
 * numbered branch can raise, the index, the duplicates and the sort.
 */
module VocabularyLegacy {
  import opened Text
  import opened Reassembly
  import opened Catalog
  import opened Records
  import opened Report
  import VocabularyCurrent

  /** The numbered branch's `rest.split(' → ', 1)` finds no arrow in the text after the first
      `'. '`, so its unpacking raises: the line starts with a digit and holds `'. '` and `' → '`,
      the text before the first `'. '` is a number, and no `' → '` lies wholly after that `'. '`.
      Such a line's only arrow shares its space with the `'. '` (`RaisesShape`). */
  predicate RaisesOnUnpack(line: string) {
    StartsWithDigit(line) && Contains(line, DotSpace) && Contains(line, Arrow)
    && IsAllDigits(Strip(SplitOnce(line, DotSpace).value.0))
    && !Contains(SplitOnce(line, DotSpace).value.1, Arrow)
  }

  /** The body of the `try` in the parse loop (py_script.py lines 41-67). */
  function ParseEntry(line: string): (r: LineOutcome)
    ensures r.Parsed? ==> Contains(line, Arrow)
  {
    if Contains(line, DotSpace) && Contains(line, Arrow) then
      if StartsWithDigit(line) then
        match SplitOnce(line, DotSpace)
        case None => Raised
        case Some((numberPart, rest)) =>
          if IsAllDigits(Strip(numberPart)) then
            match SplitOnce(rest, Arrow)
            case None => Raised
            case Some((wordPart, definition)) => Emit(DigitsValue(Strip(numberPart)), wordPart, definition)
          else NoRecord
      else
        match SplitOnce(line, Arrow)
        case None => Raised
        case Some((wordPart, definition)) => Emit(0, wordPart, definition)
    else if Contains(line, Arrow) then
      match SplitOnce(line, Arrow)
      case None => Raised
      case Some((wordPart, definition)) => Emit(0, wordPart, definition)
    else NoRecord
  }

  /** The parser raises on an unpacking exactly on the lines where the numbered branch finds no
      arrow after the number. (`int(number_part)` is taken to succeed, as in the current
      parser.) */
  lemma ParseEntryRaises(line: string)
    ensures ParseEntry(line) == Raised <==> RaisesOnUnpack(line)
  {
  }

  /** The shape of a raising line: the first `'. '` is followed directly by `'→ '`, so the line's
      only `' → '` begins at the space of that `'. '`. The number before it leaves no room for
      an arrow, being digits and whitespace. */
  lemma RaisesShape(line: string)
    requires RaisesOnUnpack(line)
    ensures var n := |SplitOnce(line, DotSpace).value.0|;
      OccursAt(line, DotSpace, n) && OccursAt(line, Arrow, n + 1)
      && forall k: nat :: OccursAt(line, Arrow, k) ==> k == n + 1
  {
    var (numberPart, rest) := SplitOnce(line, DotSpace).value;
    var n := |numberPart|;
    forall k: nat | OccursAt(line, Arrow, k) ensures k == n + 1 {
      NoArrowElsewhere(line, numberPart, rest, k);
    }
    ContainsIff(line, Arrow, 0);
  }

  /** An arrow in a raising line can start nowhere but at the space of the first `'. '`. */
  lemma NoArrowElsewhere(line: string, numberPart: string, rest: string, k: nat)
    requires RaisesOnUnpack(line) && SplitOnce(line, DotSpace) == Some((numberPart, rest))
    requires OccursAt(line, Arrow, k)
    ensures k == |numberPart| + 1
  {
    ArrowNotInRest(line, numberPart, rest, k);
    StripDigitsChars(numberPart);
    ArrowNotInNumber(line, numberPart, rest, k);
    var n := |numberPart|;
    assert line[n] == '.';
    assert line[k + 1] == Arrow[1] && line[k] == Arrow[0];
  }

  /** No arrow starts inside a remainder that holds none. */
  lemma ArrowNotInRest(line: string, numberPart: string, rest: string, k: nat)
    requires line == numberPart + DotSpace + rest && !Contains(rest, Arrow)
    requires OccursAt(line, Arrow, k)
    ensures k < |numberPart| + 2
  {
    var n := |numberPart|;
    if k >= n + 2 {
      assert rest[k - n - 2..k - n + 1] == line[k..k + 3];
      ContainsIff(rest, Arrow, k - n - 2);
      assert false;
    }
  }

  /** The middle character of an arrow is neither a digit nor whitespace, so it is not inside a
      number part. */
  lemma ArrowNotInNumber(line: string, numberPart: string, rest: string, k: nat)
    requires line == numberPart + DotSpace + rest
    requires forall i :: 0 <= i < |numberPart| ==> IsDigit(numberPart[i]) || IsSpace(numberPart[i])
    requires OccursAt(line, Arrow, k)
    ensures k + 1 >= |numberPart|
  {
    assert line[k + 1] == Arrow[1];
    assert forall i :: 0 <= i < |numberPart| ==> line[i] == numberPart[i];
  }

  lemma ParseEntryWithinNumbered(line: string)
    requires ParseEntry(line).Parsed? && StartsWithDigit(line) && Contains(line, DotSpace)
    ensures var e := ParseEntry(line).entry;
      (forall c :: c in e.term || c in e.definition ==> c in line)
      && (IsStripped(line) ==> WellFormed(e))
  {
    var (numberPart, rest) := SplitOnce(line, DotSpace).value;
    var (wordPart, definition) := SplitOnce(rest, Arrow).value;
    var ordinal := DigitsValue(Strip(numberPart));
    assert ParseEntry(line) == Emit(ordinal, wordPart, definition);
    Regroup(line, numberPart + DotSpace, rest, wordPart, Arrow, definition);
    EmitWithin(ordinal, numberPart + DotSpace, wordPart, Arrow, definition, line);
  }

  /** Without a numbered prefix, a line with an arrow is split at its first arrow. */
  lemma PlainBranch(line: string)
    requires Contains(line, Arrow) && !(StartsWithDigit(line) && Contains(line, DotSpace))
    ensures SplitOnce(line, Arrow).Some?
    ensures var (wordPart, definition) := SplitOnce(line, Arrow).value;
      ParseEntry(line) == Emit(0, wordPart, definition)
  {
  }

  /** A record is made of the line's characters, and from a trimmed line it is well formed. */
  lemma ParseEntryWithin(line: string)
    requires ParseEntry(line).Parsed?
    ensures var e := ParseEntry(line).entry;
      (forall c :: c in e.term || c in e.definition ==> c in line)
      && (IsStripped(line) ==> WellFormed(e))
  {
    if StartsWithDigit(line) && Contains(line, DotSpace) {
      ParseEntryWithinNumbered(line);
    } else {
      PlainBranch(line);
      SplitWithin(line, Arrow);
    }
  }

  // ------------------------------------------------------------------
  // The older parser against the current one

  lemma AgreeNumbered(line: string)
    requires Contains(line, Arrow) && StartsWithDigit(line) && Contains(line, DotSpace)
    ensures VocabularyCurrent.ParseEntry(line)
      == if ParseEntry(line) == Raised then NoRecord else ParseEntry(line)
  {
    assert VocabularyCurrent.ChooseSeparator(line) == Some(Arrow);
    var (numberPart, rest) := SplitOnce(line, DotSpace).value;
    if IsAllDigits(Strip(numberPart)) && Contains(rest, Arrow) {
      var (wordPart, definition) := SplitOnce(rest, Arrow).value;
      var ordinal := DigitsValue(Strip(numberPart));
      VocabularyCurrent.NumberedBranch(line, Arrow, numberPart, rest, wordPart, definition);
      assert ParseEntry(line) == Emit(ordinal, wordPart, definition);
    }
  }

  lemma AgreePlain(line: string)
    requires Contains(line, Arrow) && !(StartsWithDigit(line) && Contains(line, DotSpace))
    ensures VocabularyCurrent.ParseEntry(line) == ParseEntry(line)
  {
    assert VocabularyCurrent.ChooseSeparator(line) == Some(Arrow);
    PlainBranch(line);
    var (wordPart, definition) := SplitOnce(line, Arrow).value;
    assert VocabularyCurrent.ParseEntry(line) == Emit(0, wordPart, definition);
  }

  /** The two parsers differ only where the old one has no arrow to split on: on a line with an
      arrow the current parser gives what the old one gives, except that it makes no record
      where the old one raised; a line without an arrow gives the old parser no record. */
  lemma AgreesWithCurrent(line: string)
    ensures Contains(line, Arrow) ==>
      VocabularyCurrent.ParseEntry(line) == if ParseEntry(line) == Raised then NoRecord else ParseEntry(line)
    ensures !Contains(line, Arrow) ==> ParseEntry(line) == NoRecord
  {
    if Contains(line, Arrow) {
      if StartsWithDigit(line) && Contains(line, DotSpace) {
        AgreeNumbered(line);
      } else {
        AgreePlain(line);
      }
    }
  }

  /** Round trip: the older parser, too, reads a rendered record back as that record. */
  lemma ParseRender(e: Entry)
    requires Renderable(e)
    ensures ParseEntry(Render(e)) == Parsed(e)
  {
    var body := e.term + Arrow + e.definition;
    SplitRenderedBody(e);
    RenderShape(e);
    if e.ordinal > 0 {
      ContainsPrepend(Decimal(e.ordinal) + DotSpace, body, Arrow);
    }
    AgreesWithCurrent(Render(e));
    VocabularyCurrent.ParseRender(e);
  }

  lemma ArrowAfterNumberShape(line: string)
    requires line == "1. \U{2192} x"
    ensures StartsWithDigit(line) && line[..1] == "1"
    ensures OccursAt(line, DotSpace, 1) && !OccursAt(line, DotSpace, 0)
    ensures OccursAt(line, Arrow, 2) && line[3..] == "\U{2192} x"
  {
    assert line[0..2][0] == '1' != DotSpace[0];
  }

  lemma NoArrowInRest(rest: string)
    requires rest == "\U{2192} x"
    ensures !Contains(rest, Arrow)
  {
    forall k: nat ensures !OccursAt(rest, Arrow, k) {
      if k + 3 <= |rest| {
        assert rest[k..k + 3][0] == rest[0] != Arrow[0];
      }
    }
  }

  /** A numbered line whose first `'. '` is followed by no `' → '` raises in the older parser
      and gives no record in the current one. */
  lemma ArrowOnDotSpaceRaises(line: string, n: nat)
    requires StartsWithDigit(line) && Contains(line, Arrow)
    requires OccursAt(line, DotSpace, n) && forall j: nat :: j < n ==> !OccursAt(line, DotSpace, j)
    requires IsAllDigits(Strip(line[..n])) && !Contains(line[n + 2..], Arrow)
    ensures ParseEntry(line) == Raised
    ensures VocabularyCurrent.ParseEntry(line) == NoRecord
  {
    SplitOnceAt(line, DotSpace, n);
    ContainsIff(line, DotSpace, n);
    assert RaisesOnUnpack(line);
    ParseEntryRaises(line);
    AgreesWithCurrent(line);
  }

  /** `"1. → x"`: the only arrow sits right after the number, so the remainder `"→ x"` has none
      and the unpacking raises; the current parser makes no record of it. */
  lemma ArrowAfterNumberRaises(line: string)
    requires line == "1. \U{2192} x"
    ensures ParseEntry(line) == Raised
    ensures VocabularyCurrent.ParseEntry(line) == NoRecord
  {
    ArrowAfterNumberShape(line);
    ContainsIff(line, Arrow, 2);
    NoArrowInRest(line[3..]);
    assert Strip(line[..1]) == "1";
    ArrowOnDotSpaceRaises(line, 1);
  }

  /** `"2023 was a year"`: a digit first but no arrow, so no record. */
  lemma NumberWithoutArrow(line: string)
    requires line == "2023 was a year"
    ensures ParseEntry(line) == NoRecord
  {
    NotContainedByChar(line, Arrow, Arrow[1]);
  }

  /** A line without `'. '` is split at its first arrow. */
  lemma PlainSplitAt(line: string, k: nat)
    requires !Contains(line, DotSpace)
    requires OccursAt(line, Arrow, k) && forall j: nat :: j < k ==> !OccursAt(line, Arrow, j)
    ensures ParseEntry(line) == Emit(0, line[..k], line[k + 3..])
  {
    SplitOnceAt(line, Arrow, k);
    ContainsIff(line, Arrow, k);
  }

  lemma NumberAsTermShape(line: string)
    requires line == "1 \U{2192} x"
    ensures !Contains(line, DotSpace) && OccursAt(line, Arrow, 1)
    ensures forall j: nat :: j < 1 ==> !OccursAt(line, Arrow, j)
    ensures line[..1] == "1" && line[4..] == "x"
  {
    NotContainedByChar(line, DotSpace, '.');
    assert line[0..3][0] == '1' != Arrow[0];
  }

  lemma EmitDigitTerm(w: string, d: string)
    requires w == "1" && d == "x"
    ensures Emit(0, w, d) == Parsed(Entry(0, "1", "x"))
  {
    assert Strip(w) == w && Strip(d) == d;
    CleanTermOfClean(w);
  }

  /** `"1 → x"`: no `'. '`, so the plain split applies and the digit becomes the term. */
  lemma NumberAsTerm(line: string)
    requires line == "1 \U{2192} x"
    ensures ParseEntry(line) == Parsed(Entry(0, "1", "x"))
  {
    NumberAsTermShape(line);
    PlainSplitAt(line, 1);
    EmitDigitTerm(line[..1], line[4..]);
  }

  // ------------------------------------------------------------------
  // process_vocabulary_text

  /** The record lines the reassembly loop builds from the text. */
  function RecordLines(text: string): seq<string> {
    Reassemble(ArrowOnly, SplitOn(text, '\n'))
  }

  /** The lines the filter loop keeps: those starting with a digit or holding the arrow, which
      is the start test itself. */
  function KeepStartLines(lines: seq<string>): seq<string> {
    if lines == [] then []
    else
      var l := lines[|lines| - 1];
      KeepStartLines(lines[..|lines| - 1]) + (if StartsRecord(ArrowOnly, l) then [l] else [])
  }

  /** The filter loop: keep the lines that start with a digit or hold the arrow. */
  method FilterStartLines(lines: seq<string>) returns (vocabularyLines: seq<string>)
    ensures vocabularyLines == KeepStartLines(lines)
  {
    vocabularyLines := [];
    for i := 0 to |lines|
      invariant vocabularyLines == KeepStartLines(lines[..i])
    {
      assert lines[..i + 1][..i] == lines[..i];
      var line := lines[i];
      if StartsWithDigit(line) || Contains(line, Arrow) {
        vocabularyLines := vocabularyLines + [line];
      }
    }
    assert lines[..|lines|] == lines;
  }

  /** The filter keeps every record line: joining never takes away a line's first character or
      an arrow it holds, so every record line still passes the start test. */
  lemma {:induction false} FilterKeepsEveryLine(lines: seq<string>)
    requires forall j :: 0 <= j < |lines| ==> StartsRecord(ArrowOnly, lines[j])
    ensures KeepStartLines(lines) == lines
  {
    if lines != [] {
      var init, last := lines[..|lines| - 1], lines[|lines| - 1];
      FilterKeepsEveryLine(init);
      assert StartsRecord(ArrowOnly, last);
      assert lines == init + [last];
    }
  }

  /** `all_entries` for a text. */
  function AllEntries(text: string): seq<Entry> {
    ParsedEntries(ParseEntry, RecordLines(text))
  }

  /** `process_vocabulary_text`: reassemble, filter, parse and index, find the duplicates and
      sort. The script prints these and returns nothing; here they are the results. */
  method ProcessVocabularyText(text: string)
    returns (sortedEntries: seq<Entry>, allEntries: seq<Entry>, index: Index, duplicates: Index)
    ensures allEntries == AllEntries(text)
    ensures index == IndexOf(allEntries) && duplicates == Duplicates(index)
    ensures sortedEntries == SortByKey(allEntries)
    ensures TotalCount(index) == |allEntries| == |sortedEntries|
    ensures forall t :: t in duplicates <==> |WithTerm(allEntries, t)| > 1
    ensures SortedByKey(sortedEntries) && multiset(sortedEntries) == multiset(allEntries)
    ensures forall k :: WithKey(sortedEntries, k) == WithKey(allEntries, k)
    ensures forall e :: e in allEntries ==> WellFormed(e) && SingleLine(e)
  {
    var lines := SplitOn(text, '\n');
    var combinedLines := CombineLines(ArrowOnly, lines);
    var vocabularyLines := FilterStartLines(combinedLines);
    FilterKeepsEveryLine(combinedLines);
    allEntries, index := CollectEntries(ParseEntry, vocabularyLines);
    duplicates := Duplicates(index);
    sortedEntries := SortByKey(allEntries);
    CatalogFacts(allEntries);
    AllEntriesWellFormed(text);
  }

  /** Every record of a text is well formed and lies on one line: every record line reaches
      the parser, trimmed and without a line break. */
  lemma AllEntriesWellFormed(text: string)
    ensures forall e :: e in AllEntries(text) ==> WellFormed(e) && SingleLine(e)
  {
    var lines := SplitOn(text, '\n');
    var records := RecordLines(text);
    ReassembledLines(ArrowOnly, lines);
    ReassembleAvoids(ArrowOnly, lines, '\n');
    forall l | l in records && ParseEntry(l).Parsed?
      ensures (forall c :: c in ParseEntry(l).entry.term || c in ParseEntry(l).entry.definition ==> c in l)
              && (IsStripped(l) ==> WellFormed(ParseEntry(l).entry))
    {
      ParseEntryWithin(l);
    }
    ParsedEntriesWellFormed(ParseEntry, records);
  }

  /** The script's own test input, a single space, yields no entry and no duplicate. */
  lemma BlankTestInput(text: string)
    requires text == " "
    ensures AllEntries(text) == [] && Duplicates(IndexOf(AllEntries(text))) == map[]
  {
    var rest := SplitOn(text[1..], '\n');
    assert text[1..] == [] && text[0] != '\n';
    assert rest == [[]];
    assert SplitOn(text, '\n') == [[text[0]] + rest[0]] + rest[1..];
    assert [text[0]] + rest[0] == text;
    assert SplitOn(text, '\n') == [" "];
    assert Strip(" ") == [];
    assert [" "][..0] == [];
  }
}
