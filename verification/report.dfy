/**
 * The text the current script produces from `sorted_entries`: the console listing line and the
 * saved report of `save_vocabulary` (py_script_2.py), the `(was #N)` annotation both use, and
 * the output file name that `extract_and_sort_vocabulary` derives from the input path.
 */
module Report {
  import opened Text
  import opened Catalog

  /** `n` spaces. */
  function Spaces(n: nat): (r: string)
    ensures |r| == n && forall k :: 0 <= k < n ==> r[k] == ' '
  {
    if n == 0 then [] else Spaces(n - 1) + " "
  }

  /** `{i:3d}`: right-aligned in a field of width `w`, padded with spaces, never truncated. */
  function PadLeft(s: string, w: nat): (r: string)
    ensures |r| == if |s| >= w then |s| else w
    ensures r[|r| - |s|..] == s
    ensures forall k :: 0 <= k < |r| - |s| ==> r[k] == ' '
  {
    if |s| >= w then s else Spaces(w - |s|) + s
  }

  /** `{word:<25}`: left-aligned in a field of width `w`, padded with spaces, never truncated. */
  function PadRight(s: string, w: nat): (r: string)
    ensures |r| == if |s| >= w then |s| else w
    ensures r[..|s|] == s
    ensures forall k :: |s| <= k < |r| ==> r[k] == ' '
  {
    if |s| >= w then s else s + Spaces(w - |s|)
  }

  /** `f"(was #{original_num})" if original_num > 0 else ""`. */
  function WasNote(n: nat): string {
    if n > 0 then "(was #" + Decimal(n) + ")" else ""
  }

  /** The annotation appears exactly for a positive ordinal, and the number it shows reads back
      as that ordinal. */
  lemma WasNoteReadsBack(n: nat)
    ensures WasNote(n) == [] <==> n == 0
    ensures n > 0 ==>
      var s := WasNote(n);
      |s| > 7 && s[..6] == "(was #" && s[|s| - 1] == ')'
      && IsAllDigits(s[6..|s| - 1]) && DigitsValue(s[6..|s| - 1]) == n
  {
    if n > 0 {
      var s := WasNote(n);
      assert s[6..|s| - 1] == Decimal(n);
      DecimalValue(n);
    }
  }

  /** The marker after a duplicate term in the console listing: a space and a warning sign. */
  const DuplicateMarker: string := " \U{26A0}\U{FE0F}"

  /** One line of the console listing:
      `f"{i:3d}. {word:<25}{marker} → {definition}  {num_display}"`. */
  function ListingLine(i: nat, e: Entry, duplicates: Index): (r: string)
    ensures |r| >= 3 + 2 + 25 + 3 + |e.definition| + 2
    ensures |r| >= |PadLeft(Decimal(i), 3)| + 2 + |e.term|
    ensures r[..|PadLeft(Decimal(i), 3)| + 2 + |e.term|] == PadLeft(Decimal(i), 3) + ". " + e.term
  {
    var pad := PadLeft(Decimal(i), 3);
    var word := PadRight(e.term, 25);
    var head := pad + ". " + word;
    var tail := (if e.term in duplicates then DuplicateMarker else "")
      + " \U{2192} " + e.definition + "  " + WasNote(e.ordinal);
    var n := |pad| + 2 + |e.term|;
    assert head[..n] == pad + ". " + e.term by {
      assert head == (pad + ". ") + word && word[..|e.term|] == e.term;
    }
    assert (head + tail)[..n] == head[..n];
    head + tail
  }

  /** One line of the saved report: `f"{i:3d}. {word} → {definition} {num_display}\n"`. */
  function SavedLine(i: nat, e: Entry): string {
    PadLeft(Decimal(i), 3) + ". " + e.term + " \U{2192} " + e.definition + " " + WasNote(e.ordinal) + "\n"
  }

  /** The record lines of the saved report, numbered from `first` as `enumerate` does. */
  function SavedLines(entries: seq<Entry>, first: nat): string {
    if entries == [] then [] else SavedLine(first, entries[0]) + SavedLines(entries[1..], first + 1)
  }

  /** `"=" * n`. */
  function Repeat(c: char, n: nat): (r: string)
    ensures |r| == n && forall k :: 0 <= k < n ==> r[k] == c
  {
    if n == 0 then [] else Repeat(c, n - 1) + [c]
  }

  const Rule: string := Repeat('=', 50)

  /** The header `save_vocabulary` writes before the record lines. */
  function Header(total: nat): string {
    Title + "\n" + Rule + "\n\n" + TotalLabel + Decimal(total) + "\n\n"
  }

  const Title: string := "VOCABULARY SORTED A-Z"
  const TotalLabel: string := "Total entries: "

  /** The whole file `save_vocabulary` writes. */
  function SavedReport(entries: seq<Entry>): string {
    Header(|entries|) + SavedLines(entries, 1)
  }

  lemma SavedLineBreaks(i: nat, e: Entry)
    requires SingleLine(e)
    ensures CountChar(SavedLine(i, e), '\n') == 1
  {
    var pad := PadLeft(Decimal(i), 3);
    assert '\n' !in pad by {
      forall k | 0 <= k < |pad| ensures pad[k] != '\n' {
        if k >= |pad| - |Decimal(i)| {
          assert pad[k] == Decimal(i)[k - (|pad| - |Decimal(i)|)];
        }
      }
    }
    var body := pad + ". " + e.term + " \U{2192} " + e.definition + " " + WasNote(e.ordinal);
    assert '\n' !in Decimal(e.ordinal);
    assert '\n' !in body;
    CountCharAbsent(body, '\n');
    CountCharConcat(body, "\n", '\n');
  }

  lemma {:induction false} SavedLinesBreaks(entries: seq<Entry>, first: nat)
    requires forall j :: 0 <= j < |entries| ==> SingleLine(entries[j])
    ensures CountChar(SavedLines(entries, first), '\n') == |entries|
  {
    if entries != [] {
      SavedLineBreaks(first, entries[0]);
      SavedLinesBreaks(entries[1..], first + 1);
      CountCharConcat(SavedLine(first, entries[0]), SavedLines(entries[1..], first + 1), '\n');
    }
  }

  lemma FiveBreaks(title: string, rule: string, caption: string, number: string)
    requires '\n' !in title && '\n' !in rule && '\n' !in caption && '\n' !in number
    ensures CountChar(title + "\n" + rule + "\n\n" + caption + number + "\n\n", '\n') == 5
  {
    var count := caption + number;
    assert title + "\n" + rule + "\n\n" + caption + number + "\n\n"
      == title + "\n" + rule + "\n\n" + count + "\n\n";
    CountCharAbsent(title, '\n');
    CountCharAbsent(rule, '\n');
    CountCharAbsent(count, '\n');
    assert CountChar("\n\n", '\n') == 2 by {
      assert "\n\n"[1..] == "\n";
    }
    var a := title + "\n";
    CountCharConcat(title, "\n", '\n');
    var b := a + rule;
    CountCharConcat(a, rule, '\n');
    var c := b + "\n\n";
    CountCharConcat(b, "\n\n", '\n');
    var d := c + count;
    CountCharConcat(c, count, '\n');
    CountCharConcat(d, "\n\n", '\n');
  }

  lemma HeaderLineBreaks(total: nat)
    ensures CountChar(Header(total), '\n') == 5
  {
    assert '\n' !in Title && '\n' !in TotalLabel && '\n' !in Decimal(total);
    FiveBreaks(Title, Rule, TotalLabel, Decimal(total));
  }

  /** One record per line: the saved report holds five header line breaks and one per entry. */
  lemma SavedReportLineCount(entries: seq<Entry>)
    requires forall j :: 0 <= j < |entries| ==> SingleLine(entries[j])
    ensures CountChar(SavedReport(entries), '\n') == 5 + |entries|
  {
    HeaderLineBreaks(|entries|);
    SavedLinesBreaks(entries, 1);
    CountCharConcat(Header(|entries|), SavedLines(entries, 1), '\n');
  }

  // ------------------------------------------------------------------
  // The output file name

  /** `os.path.basename(path)`: the text after the last `/`. */
  function Basename(path: string): (r: string)
    ensures '/' !in r
    ensures |r| <= |path| && r == path[|path| - |r|..]
    ensures |r| == |path| || path[|path| - |r| - 1] == '/'
  {
    if path == [] || path[|path| - 1] == '/' then []
    else Basename(path[..|path| - 1]) + [path[|path| - 1]]
  }

  /** `name.split('.')[0]`: the text before the first `.`. */
  function Stem(name: string): (r: string)
    ensures '.' !in r
    ensures r <= name && (|r| == |name| || name[|r|] == '.')
  {
    SplitOnFirstPiece(name, '.');
    SplitOn(name, '.')[0]
  }

  const OutputPrefix: string := "vocabulary_"
  const OutputSuffix: string := "_sorted.txt"

  /** `f"vocabulary_{os.path.basename(file_path).split('.')[0]}_sorted.txt"`: the name sits in
      the working directory (no `/`), and between the fixed prefix and suffix stands the start
      of the input's base name, cut before its first `.`. */
  function OutputFileName(path: string): (r: string)
    ensures |r| >= |OutputPrefix| + |OutputSuffix|
    ensures r[..|OutputPrefix|] == OutputPrefix && r[|r| - |OutputSuffix|..] == OutputSuffix
    ensures var stem := r[|OutputPrefix|..|r| - |OutputSuffix|];
      '/' !in stem && '.' !in stem && stem <= Basename(path)
      && (|stem| == |Basename(path)| || Basename(path)[|stem|] == '.')
  {
    var stem := Stem(Basename(path));
    PrefixAvoids(stem, Basename(path), '/');
    Framed(OutputPrefix, stem, OutputSuffix);
    OutputPrefix + stem + OutputSuffix
  }

  /** A prefix holds no character its whole does not. */
  lemma PrefixAvoids(p: string, s: string, c: char)
    requires p <= s && c !in s
    ensures c !in p
  {
    forall k | 0 <= k < |p| ensures p[k] != c {
      assert p[k] == s[k];
    }
  }

  /** The middle of `a + m + b` between `a` and `b` is `m`. */
  lemma Framed(a: string, m: string, b: string)
    ensures var r := a + m + b;
      |r| == |a| + |m| + |b| && r[..|a|] == a && r[|r| - |b|..] == b && r[|a|..|r| - |b|] == m
  {
    var r := a + m + b;
    assert r[..|a|] == a;
    assert r[|r| - |b|..] == b;
    assert r[|a|..|r| - |b|] == m;
  }
}
