# Vocabulary extraction: a verified model of the text-to-records pipeline

vocabulary_proj turns a vocabulary list into sorted records. The list is text of lines such as
`12. abandon → to leave behind`. The pipeline has five steps:

1. It re-joins definitions that were wrapped over several lines.
2. It keeps the lines that look like records.
3. It splits each kept line into an optional ordinal, a term and a definition.
4. It indexes the records by term and finds the terms that occur more than once.
5. It sorts the records by lower-cased term, writes a report and names the output file after
   the input.

The repository has two versions of this pipeline:

- `py_script_2.py` is the current one. A line is recognised by the arrow `' → '`, the colon
  `': '` or the dash `' - '`.
- `py_script.py` is the older one. It knows only the arrow, and its numbered branch can raise.

This project models both versions in Dafny and proves properties of the model.

| module | file | what it models |
|---|---|---|
| `Text` | `text.dfy` | the Python string operations the scripts use, on ASCII: `strip`, `isdigit`, `in`, `split`, `split(sep, 1)`, `'\n'.join`, `replace(c, '')`, `lower`, `int`, `str`, and string `<` |
| `Reassembly` | `reassembly.dfy` | the line re-joining loop of both scripts, parameterised by the start test |
| `Catalog` | `catalog.dfy` | the records, the term index `vocabulary_dict`, `duplicates`, and the stable sort |
| `Records` | `records.dfy` | what both parse loops share: the line outcome, term cleaning, the emptiness test, the loop that fills `all_entries` and the index, and the record line format |
| `Report` | `report.dfy` | the console listing line, the saved report and the output file name |
| `VocabularyCurrent` | `current.dfy` | `py_script_2.py` from `fix_multi_line_definitions` to `extract_and_sort_vocabulary` |
| `VocabularyLegacy` | `legacy.dfy` | `process_vocabulary_text` of `py_script.py` |

The loops that build lists step by step are methods with loop invariants. Three loops are
modelled this way:

- the reassembly loop, which rewrites the last element of `combined_lines` in place;
- the filter loops;
- the parse loop, which appends to `all_entries` and to the lists in `vocabulary_dict`.

Each method is proved equal to a recursive function over the lines it has read so far. The
properties are then proved about that function. The rest of the pipeline is pure: separator
choice, split-once, cleaning, the `duplicates` comprehension, the sort and the formats. These
are functions with lemmas.

A parse step has three possible results:

- `Parsed` appends a record;
- `NoRecord` appends nothing;
- `Raised` means an unpacking `a, b = s.split(sep, 1)` raised inside the `try`. The handler
  skips the line, and nothing was appended.

The current parser is proved never to raise on an unpacking. The older one raises on an
unpacking exactly when `RaisesOnUnpack` holds. On such a line the only `' → '` begins at the space of the first `'. '`,
as in `"1. → x"`.

Points where the model settles a question about the behaviour:

- **Empty input.** An empty text counts as unreadable, because the pipeline tests `if not
  text` before parsing (py_script_2.py:237). It is not reported as "no vocabulary found".
- **Lines kept only because of `'. '`.** Such a line is not always lost. The reassembler
  starts a record on `'. '` (py_script_2.py:83), but the filter does not accept `'. '`
  (py_script_2.py:111-114). A line kept only because of `'. '` still reaches the parser when
  the single joining space completes a separator: `"N. t:"` followed by `"d"` becomes
  `"N. t: d"` (`VocabularyCurrent.JoinCompletesSeparator`). What is proved in general: a
  dropped record line holds `'. '` and fails the filter (`VocabularyCurrent.DroppedRecordLines`).
- **Empty terms.** Terms can come out empty, because the emptiness test runs before trimming
  and cleaning. `WellFormed` therefore requires only the definition to be non-empty.

## Model

| member | source | states |
|---|---|---|
| Text.Strip | py_script_2.py:74 | `str.strip`: the result is trimmed and no longer than the input. Its characters come from the input. It is empty iff the input is all whitespace. It leaves trimmed text unchanged. It is the slice of the input between a whitespace-only prefix and a whitespace-only suffix (`IsStripOf`). |
| Text.StripDigitsChars | py_script.py:48 | a string whose `strip()` is all digits holds only digits and whitespace |
| Text.SplitOnce | py_script_2.py:149 | `s.split(sep, 1)` unpacked into two parts: `None` (the unpacking raises) iff `sep` does not occur. Otherwise `s == before + sep + after`, split at the first occurrence. |
| Text.SplitOnceAt | py_script_2.py:142 | the split happens at any occurrence shown to be the first |
| Text.SplitOn | py_script_2.py:70 | `text.split('\n')` for a one-character separator: at least one piece, and no piece holds the separator. `JoinSplitOn` and `SplitOnJoin` relate it to `Join`. |
| Text.Join | py_script_2.py:90 | `'\n'.join(pieces)`: the pieces with one separator between neighbours. `SplitOn` undoes it on break-free pieces (`SplitOnJoin`). |
| Text.JoinSplitOn | py_script_2.py:70 | joining the pieces of `text.split('\n')` with `'\n'` gives the text back |
| Text.SplitOnJoin | py_script_2.py:90-102 | splitting `'\n'.join(pieces)` on `'\n'` gives the pieces back when none holds a line break |
| Text.DigitsValue | py_script_2.py:144 | `int(number_part)` on a numeral of ASCII digits, most significant digit first. `DecimalValue` shows that it reads `str(n)` back as `n`. |
| Text.DecimalValue | py_script_2.py:144 | `int(str(n)) == n` for the numerals the scripts print and read |
| Text.Lower | py_script_2.py:197 | `s.lower()` on ASCII: same length, each character lower-cased |
| Text.LexLess | py_script_2.py:197 | Python's `<` on strings: the first differing code point decides, and a proper prefix is smaller. `LexLessTotal` and `LexLessTransitive` make it a strict total order. |
| Text.LexLessTotal | py_script_2.py:197 | string `<` orders any two different strings |
| Text.LexLessTransitive | py_script_2.py:197 | string `<` is transitive |
| Text.RemoveChar | py_script_2.py:156 | `s.replace(c, '')`: the result holds exactly the characters of `s` other than `c` |
| Text.RemoveCharConcat | py_script_2.py:156 | `replace(c, '')` works piece by piece over concatenation |
| Reassembly.StartsRecord | py_script_2.py:79-83 | The start test. Under `AnyMarker`: a leading digit or one of `' → '`, `': '`, `' - '`, `'. '`. Under `ArrowOnly`: a leading digit or `' → '`, as at py_script.py:17. |
| Reassembly.Step | py_script_2.py:74-88 | One turn of the loop. A blank line is skipped; a starting line is appended; another line is joined with a space to the last record line, or dropped when there is none. |
| Reassembly.Reassemble | py_script_2.py:70-88 | `combined_lines` once the loop has consumed the lines (also py_script.py:8-23). `ReassembledLines`, `ReassembleHeads` and `ReassembleKeepsText` state what it holds. |
| Reassembly.CombineLines | py_script_2.py:70-88 | The loop builds exactly `Reassemble(rule, lines)`. It makes one record line per start line. Every record line is non-empty, trimmed and passes the start test itself. With the rule `ArrowOnly` it is the loop of py_script.py:8-23. |
| Reassembly.StartsRecordAppend | py_script_2.py:79-88 | appending a continuation never takes away a reason to start a record |
| Reassembly.ReassembledLines | py_script_2.py:73-88 | every record line is non-empty, trimmed and passes the start test |
| Reassembly.ReassembleHeads | py_script_2.py:79-88 | There are as many record lines as start lines. Record line `j` begins with start line `j`, then either ends or goes on with a single space. |
| Reassembly.ReassembleAvoids | py_script_2.py:74-88 | a character other than the space that occurs in no input line occurs in no record line |
| Reassembly.ReassembleKeepsText | py_script_2.py:85-88 | Only the leading non-start lines are lost. The record lines joined by spaces equal the trimmed non-empty input lines, from the first start line on, joined the same way. |
| Catalog.Record | py_script_2.py:161-164 | one dictionary update: append the `(ordinal, definition)` pair to the term's list, or start the list |
| Catalog.IndexOf | py_script_2.py:159-164 | `vocabulary_dict` after recording the records in order. `IndexOfLists`, `IndexOfKeys` and `IndexOfCount` state what it holds. |
| Catalog.Glosses | py_script_2.py:162-164 | the `(original_num, definition)` pairs of the records, element by element and in order |
| Catalog.IndexOfKeys | py_script_2.py:161-164 | a term is a key of `vocabulary_dict` iff some record carries it |
| Catalog.IndexOfLists | py_script_2.py:159-164 | A term is a key of `vocabulary_dict` iff some record carries it. Its list is the `(ordinal, definition)` pairs of exactly those records, in encounter order. |
| Catalog.IndexOfCount | py_script_2.py:159-164 | the lengths of the index's lists add up to `len(all_entries)` |
| Catalog.IndexOfNonEmpty | py_script_2.py:161-164 | no list in the index is empty |
| Catalog.TotalCountBounds | py_script_2.py:191 | The index has at most as many terms as pairs, so "duplicates removed" is never negative. The two counts are equal iff every term has one pair. |
| Catalog.Duplicates | py_script_2.py:174 | the comprehension that keeps the terms whose list has more than one pair. `DuplicatesOfEntries` states it against the records. |
| Catalog.DuplicatesOfEntries | py_script_2.py:174 | A term is in `duplicates` iff more than one record carries it. Its entry keeps all of their pairs. |
| Catalog.NoDuplicatesIff | py_script_2.py:174 | there are no duplicates iff the index has as many terms as there are records |
| Catalog.Key | py_script_2.py:197 | the sort key `x[1].lower()` |
| Catalog.SortByKey | py_script_2.py:197 | `sorted(all_entries, key=lambda x: x[1].lower())`, as a stable insertion sort. `SortFacts` and `SortIsTheStableSort` state what it computes. |
| Catalog.SortFacts | py_script_2.py:197 | `sorted_entries` is non-decreasing by lower-cased term and is a permutation of `all_entries`. Records with the same key keep their encounter order. |
| Catalog.SortedUnique | py_script_2.py:197 | two sorted sequences that agree on every key's records are equal |
| Catalog.SortIsTheStableSort | py_script_2.py:197 | any sorted rearrangement that keeps each key's records in order equals `SortByKey`, so the insertion sort stands for Python's stable `sorted` |
| Catalog.SortIdempotent | py_script_2.py:197 | sorting `sorted_entries` again changes nothing |
| Catalog.CatalogFacts | py_script.py:62-100 | Together: count conservation, the duplicates as the repeated terms, and the sort as a sorted, stable permutation of the same length. |
| Records.CleanTerm | py_script_2.py:156 | the cleaned term holds exactly the term's characters other than `"`, `'` and `!` |
| Records.CleanTermIdempotent | py_script_2.py:156 | cleaning twice is cleaning once |
| Records.CleanTermOfClean | py_script.py:60 | cleaning leaves a term without `"`, `'` and `!` unchanged |
| Records.CleanTermConcat | py_script_2.py:156 | cleaning commutes with concatenation |
| Records.Emit | py_script_2.py:151-159 | A record is made iff both un-trimmed parts are non-empty. It keeps the given ordinal. Its term is cleaned and made of the word part's characters. Its definition is trimmed, and non-empty when the part ends in a non-space. |
| Records.EmitWithin | py_script_2.py:146-156 | a record cut out of a line is made of the line's characters, and it is well formed when the line was trimmed |
| Records.ParsedEntries | py_script_2.py:123-159 | `all_entries` after the parse loop with a given parser: each line's record appended in order, nothing for a rejected or raising line. `CollectEntries` and `ParsedEntriesFrom` state its properties. |
| Records.ParsedEntriesFrom | py_script_2.py:123-159 | there are never more records than lines, and each record is what the parser made of some line |
| Records.CollectEntries | py_script_2.py:120-164 | The parse loop builds `ParsedEntries(parse, lines)` and its index. Total count equals `len(all_entries)`. A term is a key iff some record carries it. Its list is those records' pairs in order. |
| Records.SplitWithin | py_script_2.py:147-156 | a line split at the first occurrence of a separator gives an unnumbered record made of the line's characters, well formed when the line was trimmed |
| Records.ParsedEntriesWellFormed | py_script_2.py:120-159 | from trimmed lines without line breaks, a parser that builds its records from the line's characters collects only well-formed single-line records |
| Records.SplitRenderedBody | py_script_2.py:149 | `"term → definition"` splits back at its first arrow into term and definition |
| Records.SplitRenderedNumber | py_script_2.py:141-142 | `"N. rest"` passes the numbered test and splits at its first `'. '` into the numeral and the rest |
| Records.EmitRenderable | py_script_2.py:151-156 | a renderable record is what the emptiness test, trimming and cleaning make of its own parts |
| Report.PadLeft | py_script_2.py:205 | `{i:3d}` right-aligns in a field, pads with spaces and never truncates |
| Report.PadRight | py_script_2.py:205 | `{word:<25}` left-aligns in a field, pads with spaces and never truncates |
| Report.WasNote | py_script_2.py:203 | `f"(was #{original_num})" if original_num > 0 else ""`, also at py_script_2.py:221 |
| Report.WasNoteReadsBack | py_script_2.py:203 | `(was #N)` appears iff N > 0, and the number shown reads back as N |
| Report.ListingLine | py_script_2.py:199-205 | A console line is at least as wide as its fixed columns plus the definition. It begins with the padded position, `". "` and the untruncated term. |
| Report.SavedLine | py_script_2.py:221-222 | one line of the saved file: the padded position, `". "`, the term, `" → "`, the definition, a space, the was-note and a line break |
| Report.SavedLines | py_script_2.py:220-222 | the saved record lines, numbered from 1 as `enumerate(entries, 1)` numbers them |
| Report.SavedReport | py_script_2.py:215-222 | The whole saved file: the title, a rule of 50 `=`, the total, then the record lines. `SavedReportLineCount` counts its line breaks. |
| Report.SavedLineBreaks | py_script_2.py:220-222 | a saved record line holds exactly one line break |
| Report.SavedReportLineCount | py_script_2.py:215-222 | the saved file has five header line breaks and one per record |
| Report.Basename | py_script_2.py:252 | `os.path.basename`: the text after the last `/`, a suffix of the path without `/` |
| Report.Stem | py_script_2.py:252 | `name.split('.')[0]`: the prefix of the name before its first `.` |
| Report.OutputFileName | py_script_2.py:252 | The name is `vocabulary_` + stem + `_sorted.txt`. The stem has no `/` and no `.`, and it is the start of the base name up to its first `.`. |
| VocabularyCurrent.ChooseSeparator | py_script_2.py:130-137 | Exactly one separator is chosen, by priority: `' → '`, then `': '` (only without an arrow), then `' - '` (only without either). None iff none occurs. |
| VocabularyCurrent.ParseEntry | py_script_2.py:124-167 | The current parser never raises on an unpacking, since every unpacked split is guarded. A line without a separator yields no record. |
| VocabularyCurrent.ParseEntryWithin | py_script_2.py:141-156 | a record holds only the line's characters, and from a trimmed line its definition is non-empty and trimmed and its term clean |
| VocabularyCurrent.ParseEntryOrdinal | py_script_2.py:125-144 | The ordinal is 0 unless the line starts with a digit and holds `'. '`. Then the trimmed text before the first `'. '` is a number, the ordinal is its value, and the chosen separator occurs in the text after that `'. '`. |
| VocabularyCurrent.NumberedWithoutDigits | py_script_2.py:141-143 | a numbered-looking line whose prefix is not a number yields no record and no error |
| VocabularyCurrent.NumberedWithoutSeparator | py_script_2.py:141-146 | a numbered line with a numeric prefix whose chosen separator does not occur after the first `'. '` yields no record and no error |
| VocabularyCurrent.DashOnDotSpace | py_script_2.py:133-146 | `"1. - x"`: the dash is chosen, but the text after `'. '` is `"- x"`, which holds no `' - '`, so there is no record |
| VocabularyCurrent.PlainBranch | py_script_2.py:147-149 | without a numbered prefix, a line with a separator is split at the separator's first occurrence, with ordinal 0 |
| VocabularyCurrent.NumberedBranch | py_script_2.py:141-146 | When the prefix is a number and the separator occurs after it, the record is made from the remainder split at the separator, with the number as ordinal. |
| VocabularyCurrent.ParseRender | py_script_2.py:124-159 | Round trip: `"N. term → definition"` (or `"term → definition"` for ordinal 0) parses back to the record. |
| VocabularyCurrent.RecordLines | py_script_2.py:70-88 | the record lines `fix_multi_line_definitions` builds, with the five-marker start test |
| VocabularyCurrent.FixMultiLineDefinitions | py_script_2.py:67-90 | The result is the record lines joined by `'\n'`. There is one record line per start line. |
| VocabularyCurrent.IsVocabularyLine | py_script_2.py:111-114 | the filter test: a leading digit or one of `' → '`, `': '`, `' - '`. `'. '` does not count. |
| VocabularyCurrent.VocabularyLines | py_script_2.py:106-115 | `vocabulary_lines` after the filter loop: the trimmed non-empty lines that pass the test, in order |
| VocabularyCurrent.FilterVocabularyLines | py_script_2.py:106-115 | the filter loop keeps exactly the trimmed non-empty lines that start with a digit or hold `' → '`, `': '` or `' - '` |
| VocabularyCurrent.KeepVocabulary | py_script_2.py:111-115 | a record line is kept iff it passes the filter test |
| VocabularyCurrent.VocabularyOfFixedText | py_script_2.py:99-115 | Joining the record lines and splitting them again loses nothing. The filter sees exactly the record lines. |
| VocabularyCurrent.DroppedRecordLines | py_script_2.py:79-114 | a record line the filter drops holds `'. '` and none of the three separators, and does not start with a digit |
| VocabularyCurrent.JoinCompletesSeparator | py_script_2.py:83-114 | `"N. t:"` starts a record only because of `'. '`. With the continuation `"d"` it becomes `"N. t: d"`, which passes the filter. |
| VocabularyCurrent.AllEntries | py_script_2.py:99-164 | `all_entries`: the parser applied, in order, to the record lines the filter keeps |
| VocabularyCurrent.ProcessVocabularyText | py_script_2.py:92-210 | The method computes `AllEntries(text)`, its index, its duplicates and its stable sort. Count is conserved between list, index and sorted list. A duplicate is a repeated term. The sorted list is a sorted permutation. Every record is well formed and on one line. |
| VocabularyCurrent.AllEntriesWellFormed | py_script_2.py:151-159 | every record has a non-empty trimmed definition and a clean term, and no line break |
| VocabularyCurrent.ExtractAndSortVocabulary | py_script_2.py:228-261 | The outcome is "could not read" iff the reader gave nothing or empty text, and "no vocabulary" iff the text yields no record. Otherwise the file is named from the input path, holds the saved report of the sorted records, and has 5 + n line breaks. |
| VocabularyLegacy.ParseEntry | py_script.py:39-67 | the older parser makes records only from lines holding `' → '` |
| VocabularyLegacy.RaisesOnUnpack | py_script.py:45-50 | the lines on which `rest.split(' → ', 1)` has no arrow to split on: a leading digit, `'. '` and `' → '` present, a numeric prefix before the first `'. '`, and no `' → '` after it |
| VocabularyLegacy.ParseEntryRaises | py_script.py:45-50 | The older parser raises on an unpacking exactly when the numbered branch finds no arrow after the number. That is: a digit first, `'. '` and `' → '` present, a numeric prefix, and no `' → '` in the text after the first `'. '`. |
| VocabularyLegacy.RaisesShape | py_script.py:45-50 | On a line where the older parser raises, the first `'. '` is followed directly by `'→ '`: the line's only `' → '` begins at the space of that `'. '`, because the number before it is digits and whitespace. |
| VocabularyLegacy.ParseEntryWithin | py_script.py:45-60 | a record holds only the line's characters, and from a trimmed line it is well formed |
| VocabularyLegacy.AgreesWithCurrent | py_script.py:45-56 | On a line with an arrow, the current parser gives what the older one gives, except that it makes no record where the older one raised. A line without an arrow gives the older parser no record. |
| VocabularyLegacy.ParseRender | py_script.py:45-62 | the older parser also reads `"N. term → definition"` back as the record |
| VocabularyLegacy.ArrowOnDotSpaceRaises | py_script.py:46-50 | A numbered line with a numeric prefix, whose first `'. '` is followed by no `' → '`, raises in the older parser and is skipped (py_script.py:69-70). The current parser gives it no record. |
| VocabularyLegacy.ArrowAfterNumberRaises | py_script.py:45-50 | `"1. → x"` raises in the older parser and gives no record in the current one |
| VocabularyLegacy.NumberWithoutArrow | py_script.py:45-54 | `"2023 was a year"` gives no record |
| VocabularyLegacy.PlainSplitAt | py_script.py:53-54 | a line without `'. '` is split at its first arrow with ordinal 0 |
| VocabularyLegacy.NumberAsTerm | py_script.py:41-54 | `"1 → x"` gives the record `(0, "1", "x")` |
| VocabularyLegacy.RecordLines | py_script.py:8-23 | `combined_lines`: the reassembly loop with the arrow-only start test |
| VocabularyLegacy.KeepStartLines | py_script.py:28-31 | `vocabulary_lines` after the filter loop: the lines that start with a digit or hold `' → '`, in order |
| VocabularyLegacy.FilterStartLines | py_script.py:28-31 | the filter loop keeps the lines that start with a digit or hold the arrow |
| VocabularyLegacy.FilterKeepsEveryLine | py_script.py:17-31 | the filter keeps every record line, so `vocabulary_lines == combined_lines` |
| VocabularyLegacy.AllEntries | py_script.py:8-67 | `all_entries`: the older parser applied, in order, to the record lines |
| VocabularyLegacy.ProcessVocabularyText | py_script.py:1-111 | The method computes the records of the re-joined lines, the index, the duplicates and the stable sort, with the same conservation, duplicate, permutation and well-formedness guarantees as the current version. |
| VocabularyLegacy.BlankTestInput | py_script.py:114-117 | the built-in test input `" "` yields no record and no duplicate |

## Left out

- `universal_vocabulary_reader` (py_script_2.py:5-65) reads PDF, DOCX and text files through
  third-party libraries. It is not part of this model. Its result enters
  `ExtractAndSortVocabulary` as a parameter `Option<string>`: `None` when reading failed.
- `drive.mount` and the module-level calls (py_script_2.py:266-270) are environment side
  effects and are not modelled.
- File writing and `os.path.abspath` (py_script_2.py:215-225) are left out. The saved text is
  modelled as the string `SavedReport`.
- All console output is left out: progress messages, the preview, the summary figures and the
  duplicate listing. Only the format of one listing line is modelled, in `ListingLine`.
- `VocabularyCurrent.ParseEntry` takes `int(number_part)` (py_script_2.py:144) to succeed on
  every ASCII numeral. CPython 3.11 and later, and the security releases of 3.7 to 3.10, refuse
  by default to convert a numeral of more than 4300 digits (`sys.get_int_max_str_digits()`).
  On such a line the script raises `ValueError` and the handler (py_script_2.py:166-167) skips
  the line, while the model makes a record. "Never raises" is proved of the unpackings only.
  `VocabularyCurrent.NumberedBranch` and `VocabularyCurrent.ParseRender` hold under the same
  bound. The limit is a setting of the interpreter, not of the script.
- `VocabularyLegacy.ParseEntry` does the same with `int(number_part)` at py_script.py:49,
  whose `ValueError` the handler at py_script.py:69-70 skips. `VocabularyLegacy.ParseEntryRaises`
  characterises only the raising unpacking, and `VocabularyLegacy.ParseRender` holds under the
  same 4300-digit bound.
- Unicode is not modelled. `isdigit`, `strip`, `lower` and `int` are modelled on ASCII. Python
  accepts non-ASCII digits that `int` may reject; that path ends in the catch-all handler and
  is not modelled.
- `ProcessVocabularyText` in `VocabularyLegacy` returns the sorted list, the list, the index and
  the duplicates so that its contract can name them. The script itself only prints them and
  returns nothing.
- `ProcessVocabularyText` in `VocabularyCurrent` also returns the list, the index and the
  duplicates, for the same reason. The script returns only `sorted_entries`.
- `Catalog.SortByKey`: Python's `sorted` is Timsort. The model uses a stable insertion sort.
  `Catalog.SortIsTheStableSort` shows that the two orders coincide: every stable sort by the
  same key gives the same sequence.
- `Report.ListingLine` does not state the column padding of the definition part, nor the
  position of the duplicate marker. It states only the field widths and the leading position,
  `". "` and term.
