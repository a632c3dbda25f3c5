/**
 * The current script, py_script_2.py: the reassembler `fix_multi_line_definitions`, the line
 * filter, the entry parser with its three separators, the whole of `process_vocabulary_text`
 * and the pipeline `extract_and_sort_vocabulary` with the file reader's result as a parameter.
 */
module VocabularyCurrent {
  import opened Text
  import opened Reassembly
  import opened Catalog
  import opened Records
  import opened Report

  /** The separators, in the priority the parser tries them. */
  const Separators: seq<string> := [Arrow, Colon, Dash]

  /** The `if/elif` chain that picks `separator`: the first separator, by priority, that occurs
      in the line, or none. */
  function ChooseSeparator(line: string): (r: Option<string>)
    ensures r.Some? ==> r.value in Separators
    ensures r == Some(Arrow) <==> Contains(line, Arrow)
    ensures r == Some(Colon) <==> !Contains(line, Arrow) && Contains(line, Colon)
    ensures r == Some(Dash) <==> !Contains(line, Arrow) && !Contains(line, Colon) && Contains(line, Dash)
    ensures r.None? <==> !Contains(line, Arrow) && !Contains(line, Colon) && !Contains(line, Dash)
  {
    assert Arrow != Colon && Arrow != Dash && Colon != Dash by {
      assert Arrow[1] != Colon[1] && Arrow[1] != Dash[1] && |Colon| != |Dash|;
    }
    if Contains(line, Arrow) then Some(Arrow)
    else if Contains(line, Colon) then Some(Colon)
    else if Contains(line, Dash) then Some(Dash)
    else None
  }

  /** The body of the `try` in the parse loop (lines 125-164). The unpacking `a, b = s.split(sep,
      1)` raises when `sep` is missing; every such split here is guarded, so no unpacking
      raises. `int(number_part)` is taken to succeed on every ASCII numeral: CPython's limit
      on the length of the numerals `int` converts is not modelled. */
  function ParseEntry(line: string): (r: LineOutcome)
    ensures r != Raised
    ensures r.Parsed? ==> ChooseSeparator(line).Some?
  {
    match ChooseSeparator(line)
    case None => NoRecord
    case Some(sep) =>
      if StartsWithDigit(line) && Contains(line, DotSpace) then
        match SplitOnce(line, DotSpace)
        case None => Raised
        case Some((numberPart, rest)) =>
          if IsAllDigits(Strip(numberPart)) && Contains(rest, sep) then
            match SplitOnce(rest, sep)
            case None => Raised
            case Some((wordPart, definition)) =>
              Emit(DigitsValue(Strip(numberPart)), wordPart, definition)
          else NoRecord
      else
        match SplitOnce(line, sep)
        case None => Raised
        case Some((wordPart, definition)) =>
          Emit(0, wordPart, definition)
  }

  lemma ParseEntryWithinNumbered(line: string)
    requires ParseEntry(line).Parsed? && StartsWithDigit(line) && Contains(line, DotSpace)
    ensures var e := ParseEntry(line).entry;
      (forall c :: c in e.term || c in e.definition ==> c in line)
      && (IsStripped(line) ==> WellFormed(e))
  {
    var sep := ChooseSeparator(line).value;
    var (numberPart, rest) := SplitOnce(line, DotSpace).value;
    assert Contains(rest, sep);
    var (wordPart, definition) := SplitOnce(rest, sep).value;
    var ordinal := DigitsValue(Strip(numberPart));
    assert ParseEntry(line) == Emit(ordinal, wordPart, definition);
    Regroup(line, numberPart + DotSpace, rest, wordPart, sep, definition);
    EmitWithin(ordinal, numberPart + DotSpace, wordPart, sep, definition, line);
  }

  /** Without a numbered prefix, a line with a separator is split at its first occurrence. */
  lemma PlainBranch(line: string)
    requires ChooseSeparator(line).Some? && !(StartsWithDigit(line) && Contains(line, DotSpace))
    ensures SplitOnce(line, ChooseSeparator(line).value).Some?
    ensures var (wordPart, definition) := SplitOnce(line, ChooseSeparator(line).value).value;
      ParseEntry(line) == Emit(0, wordPart, definition)
  {
  }

  /** A record is made of the line's characters, and from a trimmed line it is well formed. */
  lemma ParseEntryWithin(line: string)
    requires ParseEntry(line).Parsed?
    ensures var e := ParseEntry(line).entry;
      (forall c :: c in e.term || c in e.definition ==> c in line)
      && (IsStripped(line) ==> WellFormed(e))
  {
    if StartsWithDigit(line) && Contains(line, DotSpace) {
      ParseEntryWithinNumbered(line);
    } else {
      PlainBranch(line);
      SplitWithin(line, ChooseSeparator(line).value);
    }
  }

  /** The ordinal: 0 unless the line starts with a digit and holds `'. '`; then the text before
      the first `'. '` is, once trimmed, a number, the ordinal is its value, and the chosen
      separator occurs in the text after that `'. '`. */
  lemma ParseEntryOrdinal(line: string)
    requires ParseEntry(line).Parsed?
    ensures !(StartsWithDigit(line) && Contains(line, DotSpace)) ==> ParseEntry(line).entry.ordinal == 0
    ensures StartsWithDigit(line) && Contains(line, DotSpace) ==>
      var (numberPart, rest) := SplitOnce(line, DotSpace).value;
      IsAllDigits(Strip(numberPart)) && ParseEntry(line).entry.ordinal == DigitsValue(Strip(numberPart))
      && Contains(rest, ChooseSeparator(line).value)
  {
  }

  /** A digit-first line with `'. '` and a numeric prefix, whose chosen separator does not occur
      after the first `'. '`, gives no record, and no error. */
  lemma NumberedWithoutSeparator(line: string)
    requires StartsWithDigit(line) && Contains(line, DotSpace) && ChooseSeparator(line).Some?
    requires IsAllDigits(Strip(SplitOnce(line, DotSpace).value.0))
    requires !Contains(SplitOnce(line, DotSpace).value.1, ChooseSeparator(line).value)
    ensures ParseEntry(line) == NoRecord
  {
  }

  /** A digit-first line with `'. '` whose text before the first `'. '` is not a number gives no
      record, and no error, whatever separator it holds. */
  lemma NumberedWithoutDigits(line: string)
    requires StartsWithDigit(line) && Contains(line, DotSpace)
    requires !IsAllDigits(Strip(SplitOnce(line, DotSpace).value.0))
    ensures ParseEntry(line) == NoRecord
  {
  }

  /** `"1. - x"`: the dash marker begins at the space of the `'. '`, so the text after the
      `'. '` holds no `' - '` and the line gives no record. */
  lemma DashOnDotSpace(line: string)
    requires line == "1. - x"
    ensures ParseEntry(line) == NoRecord
  {
    NotContainedByChar(line, Arrow, Arrow[1]);
    NotContainedByChar(line, Colon, ':');
    assert OccursAt(line, Dash, 2);
    ContainsIff(line, Dash, 2);
    assert OccursAt(line, DotSpace, 1) && line[0..2][0] != DotSpace[0];
    SplitOnceAt(line, DotSpace, 1);
    assert Strip(line[..1]) == "1";
    var rest := line[3..];
    forall k: nat ensures !OccursAt(rest, Dash, k) {
      if k + 3 <= |rest| {
        assert rest[k..k + 3][0] == rest[0] != Dash[0];
      }
    }
    NumberedWithoutSeparator(line);
  }

  // ------------------------------------------------------------------
  // The record line format and the parser

  /** Round trip, unnumbered records: `"term → definition"` reads back as the record. */
  lemma ParseRenderPlain(e: Entry)
    requires Renderable(e) && e.ordinal == 0
    ensures ParseEntry(e.term + Arrow + e.definition) == Parsed(e)
  {
    var body := e.term + Arrow + e.definition;
    SplitRenderedBody(e);
    assert body[0] == e.term[0];
    assert ChooseSeparator(body) == Some(Arrow);
    assert ParseEntry(body) == Emit(0, e.term, e.definition);
    EmitRenderable(e);
  }

  /** The numbered branch of the parser, taken. */
  lemma NumberedBranch(line: string, sep: string, numberPart: string, rest: string,
                       wordPart: string, definition: string)
    requires ChooseSeparator(line) == Some(sep)
    requires StartsWithDigit(line) && Contains(line, DotSpace)
    requires SplitOnce(line, DotSpace) == Some((numberPart, rest))
    requires IsAllDigits(Strip(numberPart)) && Contains(rest, sep)
    requires SplitOnce(rest, sep) == Some((wordPart, definition))
    ensures ParseEntry(line) == Emit(DigitsValue(Strip(numberPart)), wordPart, definition)
  {
  }

  /** A numbered rendered line takes the numbered branch and splits into its parts. */
  lemma NumberedRenderEmits(e: Entry)
    requires Renderable(e) && e.ordinal > 0
    ensures ParseEntry(Decimal(e.ordinal) + DotSpace + (e.term + Arrow + e.definition))
      == Emit(e.ordinal, e.term, e.definition)
  {
    var body := e.term + Arrow + e.definition;
    var d := Decimal(e.ordinal);
    var line := d + DotSpace + body;
    SplitRenderedBody(e);
    SplitRenderedNumber(e.ordinal, body);
    ContainsPrepend(d + DotSpace, body, Arrow);
    assert Strip(d) == d;
    DecimalValue(e.ordinal);
    NumberedBranch(line, Arrow, d, body, e.term, e.definition);
  }

  /** Round trip, numbered records: `"N. term → definition"` reads back as the record. */
  lemma ParseRenderNumbered(e: Entry)
    requires Renderable(e) && e.ordinal > 0
    ensures ParseEntry(Decimal(e.ordinal) + DotSpace + (e.term + Arrow + e.definition)) == Parsed(e)
  {
    NumberedRenderEmits(e);
    EmitRenderable(e);
  }

  /** Round trip: the parser reads a rendered record back as that record. */
  lemma ParseRender(e: Entry)
    requires Renderable(e)
    ensures ParseEntry(Render(e)) == Parsed(e)
  {
    RenderShape(e);
    if e.ordinal > 0 {
      ParseRenderNumbered(e);
    } else {
      ParseRenderPlain(e);
    }
  }

  // ------------------------------------------------------------------
  // fix_multi_line_definitions and the line filter

  /** The record lines the reassembler builds from the text. */
  function RecordLines(text: string): seq<string> {
    Reassemble(AnyMarker, SplitOn(text, '\n'))
  }

  /** `fix_multi_line_definitions`: split into lines, reassemble, join with line breaks. */
  method FixMultiLineDefinitions(text: string) returns (fixedText: string)
    ensures fixedText == Join(RecordLines(text), '\n')
    ensures |RecordLines(text)| == |StartLines(AnyMarker, SplitOn(text, '\n'))|
  {
    var lines := SplitOn(text, '\n');
    var combined := CombineLines(AnyMarker, lines);
    fixedText := Join(combined, '\n');
  }

  /** The filter's test: a digit first or one of the three separators; `'. '` does not count. */
  predicate IsVocabularyLine(line: string) {
    StartsWithDigit(line) || Contains(line, Arrow) || Contains(line, Colon) || Contains(line, Dash)
  }

  /** `vocabulary_lines` after the filter loop has consumed `lines`. */
  function VocabularyLines(lines: seq<string>): seq<string> {
    if lines == [] then []
    else
      var t := Strip(lines[|lines| - 1]);
      VocabularyLines(lines[..|lines| - 1]) + (if t != [] && IsVocabularyLine(t) then [t] else [])
  }

  /** The filter loop of `process_vocabulary_text`: trim each line and keep the non-empty ones
      that start with a digit or hold an arrow, a colon or a dash marker. */
  method FilterVocabularyLines(lines: seq<string>) returns (vocabularyLines: seq<string>)
    ensures vocabularyLines == VocabularyLines(lines)
    ensures forall l :: l in vocabularyLines ==> l != [] && IsStripped(l) && IsVocabularyLine(l)
  {
    vocabularyLines := [];
    for i := 0 to |lines|
      invariant vocabularyLines == VocabularyLines(lines[..i])
      invariant forall l :: l in vocabularyLines ==> l != [] && IsStripped(l) && IsVocabularyLine(l)
    {
      assert lines[..i + 1][..i] == lines[..i];
      var line := Strip(lines[i]);
      if line != [] {
        if IsVocabularyLine(line) {
          vocabularyLines := vocabularyLines + [line];
        }
      }
    }
    assert lines[..|lines|] == lines;
  }

  /** The record lines that pass the filter, in order. */
  function KeepVocabulary(records: seq<string>): (r: seq<string>)
    ensures forall l :: l in r <==> l in records && IsVocabularyLine(l)
  {
    if records == [] then []
    else
      var l := records[|records| - 1];
      KeepVocabulary(records[..|records| - 1]) + (if IsVocabularyLine(l) then [l] else [])
  }

  /** On lines that are already trimmed and non-empty, the filter loop only filters. */
  lemma {:induction false} VocabularyLinesOfTrimmed(lines: seq<string>)
    requires forall i :: 0 <= i < |lines| ==> lines[i] != [] && IsStripped(lines[i])
    ensures VocabularyLines(lines) == KeepVocabulary(lines)
  {
    if lines != [] {
      VocabularyLinesOfTrimmed(lines[..|lines| - 1]);
    }
  }

  /** The detour through `'\n'.join` and `split('\n')` between the two functions loses nothing:
      the filter sees exactly the record lines, each already trimmed. */
  lemma VocabularyOfFixedText(text: string)
    ensures VocabularyLines(SplitOn(Join(RecordLines(text), '\n'), '\n'))
      == KeepVocabulary(RecordLines(text))
  {
    var lines := SplitOn(text, '\n');
    var records := RecordLines(text);
    ReassembledLines(AnyMarker, lines);
    if records == [] {
      assert SplitOn([], '\n') == [[]];
      assert VocabularyLines([[]]) == VocabularyLines([]) + [];
    } else {
      ReassembleAvoids(AnyMarker, lines, '\n');
      SplitOnJoin(records, '\n');
      VocabularyLinesOfTrimmed(records);
    }
  }

  /** A record line is dropped by the filter only when `'. '` alone made it a record line:
      it starts with no digit and holds none of the three separators, but holds `'. '`. */
  lemma DroppedRecordLines(text: string, l: string)
    requires l in RecordLines(text) && l !in KeepVocabulary(RecordLines(text))
    ensures Contains(l, DotSpace) && !IsVocabularyLine(l)
  {
    ReassembledLines(AnyMarker, SplitOn(text, '\n'));
  }

  /** A line without a space holds none of the markers. */
  lemma NoSpaceNoMarker(line: string)
    requires ' ' !in line && line != [] && !IsDigit(line[0]) && IsStripped(line)
    ensures !StartsRecord(AnyMarker, line)
  {
    assert Arrow[0] == Colon[1] == Dash[0] == DotSpace[1] == ' ';
    NotContainedByChar(line, Arrow, ' ');
    NotContainedByChar(line, Colon, ' ');
    NotContainedByChar(line, Dash, ' ');
    NotContainedByChar(line, DotSpace, ' ');
  }

  /** The example's first line is a record line only because of its `'. '`. */
  lemma ExampleFirstLine(first: string)
    requires first == "N. t:"
    ensures first != [] && IsStripped(first)
    ensures StartsRecord(AnyMarker, first) && !IsVocabularyLine(first)
  {
    assert OccursAt(first, DotSpace, 1);
    ContainsIff(first, DotSpace, 1);
    forall k: nat ensures !OccursAt(first, Colon, k) {
      if k + 2 <= |first| && k != 1 {
        assert first[k..k + 2][1] == first[k + 1];
      }
    }
    assert Arrow[2] == ' ' && Dash[2] == ' ';
    forall k: nat ensures !OccursAt(first, Arrow, k) && !OccursAt(first, Dash, k) {
      if k + 3 <= |first| {
        assert first[k..k + 3][1] == first[k + 1];
      }
    }
  }

  /** A record line followed by a continuation line: the two become one record line, which
      reaches the parser exactly when the joined text passes the filter. */
  lemma TwoLineRecord(first: string, second: string)
    requires first != [] && IsStripped(first) && StartsRecord(AnyMarker, first)
    requires second != [] && IsStripped(second) && !StartsRecord(AnyMarker, second)
    ensures Reassemble(AnyMarker, [first, second]) == [first + " " + second]
    ensures KeepVocabulary(Reassemble(AnyMarker, [first, second]))
      == if IsVocabularyLine(first + " " + second) then [first + " " + second] else []
  {
    var lines := [first, second];
    assert lines[..1] == [first] && [first][..0] == [];
    assert Reassemble(AnyMarker, [first]) == [first];
    var joined := first + " " + second;
    assert [joined][..0] == [];
  }

  /** A line ending in `:` joined to its continuation holds the colon marker. */
  lemma ColonThenSpace(first: string, second: string)
    requires first != [] && first[|first| - 1] == ':'
    ensures IsVocabularyLine(first + " " + second)
  {
    var joined := first + " " + second;
    var k := |first| - 1;
    assert joined[k..k + 2] == Colon;
    ContainsIff(joined, Colon, k);
  }

  /** But a record line that `'. '` alone started can still reach the parser: the space that
      joins a continuation can complete a separator. */
  lemma JoinCompletesSeparator(first: string, second: string)
    requires first == "N. t:" && second == "d"
    ensures StartsRecord(AnyMarker, first) && !IsVocabularyLine(first)
    ensures KeepVocabulary(Reassemble(AnyMarker, [first, second])) == [first + " " + second]
  {
    ExampleFirstLine(first);
    NoSpaceNoMarker(second);
    TwoLineRecord(first, second);
    ColonThenSpace(first, second);
  }

  // ------------------------------------------------------------------
  // process_vocabulary_text and the pipeline

  /** `all_entries` for a text. */
  function AllEntries(text: string): seq<Entry> {
    ParsedEntries(ParseEntry, KeepVocabulary(RecordLines(text)))
  }

  /** `process_vocabulary_text`: reassemble, filter, parse and index, find the duplicates and
      sort. Returns `sorted_entries` and, for the statement of what it computed, the list, the
      index and the duplicates it built on the way. */
  method ProcessVocabularyText(text: string)
    returns (sortedEntries: seq<Entry>, allEntries: seq<Entry>, index: Index, duplicates: Index)
    ensures allEntries == AllEntries(text)
    ensures index == IndexOf(allEntries) && duplicates == Duplicates(index)
    ensures sortedEntries == SortByKey(allEntries)
    ensures TotalCount(index) == |allEntries| == |sortedEntries|
    ensures forall t :: t in duplicates <==> |WithTerm(allEntries, t)| > 1
    ensures SortedByKey(sortedEntries) && multiset(sortedEntries) == multiset(allEntries)
    ensures forall k :: WithKey(sortedEntries, k) == WithKey(allEntries, k)
    ensures forall e :: e in allEntries ==> WellFormed(e) && SingleLine(e)
  {
    var fixedText := FixMultiLineDefinitions(text);
    var vocabularyLines := FilterVocabularyLines(SplitOn(fixedText, '\n'));
    VocabularyOfFixedText(text);
    allEntries, index := CollectEntries(ParseEntry, vocabularyLines);
    duplicates := Duplicates(index);
    sortedEntries := SortByKey(allEntries);
    CatalogFacts(allEntries);
    AllEntriesWellFormed(text);
  }

  /** Every record of a text is well formed and lies on one line: the filter keeps record
      lines, which are trimmed and hold no line break. */
  lemma AllEntriesWellFormed(text: string)
    ensures forall e :: e in AllEntries(text) ==> WellFormed(e) && SingleLine(e)
  {
    var lines := SplitOn(text, '\n');
    var kept := KeepVocabulary(RecordLines(text));
    ReassembledLines(AnyMarker, lines);
    ReassembleAvoids(AnyMarker, lines, '\n');
    forall l | l in kept && ParseEntry(l).Parsed?
      ensures (forall c :: c in ParseEntry(l).entry.term || c in ParseEntry(l).entry.definition ==> c in l)
              && (IsStripped(l) ==> WellFormed(ParseEntry(l).entry))
    {
      ParseEntryWithin(l);
    }
    ParsedEntriesWellFormed(ParseEntry, kept);
  }

  /** What `extract_and_sort_vocabulary` ends in. */
  datatype PipelineOutcome = CouldNotRead | NoVocabulary | Saved(outputFile: string, contents: string)

  /** `extract_and_sort_vocabulary`, given what the reader returned for `filePath` (`None` when
      it failed). An empty text counts as unreadable (`if not text`). */
  method ExtractAndSortVocabulary(filePath: string, read: Option<string>) returns (outcome: PipelineOutcome)
    ensures read.None? || read.value == [] <==> outcome == CouldNotRead
    ensures outcome == NoVocabulary <==> read.Some? && read.value != [] && AllEntries(read.value) == []
    ensures outcome.Saved? ==>
      var sorted := SortByKey(AllEntries(read.value));
      outcome.outputFile == OutputFileName(filePath) && outcome.contents == SavedReport(sorted)
      && CountChar(outcome.contents, '\n') == 5 + |AllEntries(read.value)|
  {
    if read.None? || read.value == [] {
      return CouldNotRead;
    }
    var sortedEntries, allEntries, index, duplicates := ProcessVocabularyText(read.value);
    if sortedEntries != [] {
      forall j | 0 <= j < |sortedEntries| ensures SingleLine(sortedEntries[j]) {
        assert sortedEntries[j] in multiset(allEntries);
      }
      SavedReportLineCount(sortedEntries);
      outcome := Saved(OutputFileName(filePath), SavedReport(sortedEntries));
    } else {
      outcome := NoVocabulary;
    }
  }
}
