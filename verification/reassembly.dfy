/**
 * The line reassembler: `fix_multi_line_definitions` (py_script_2.py) and the first loop of
 * `process_vocabulary_text` (py_script.py). Both split the text into lines, trim each line, drop
 * empty ones, start a new record line when the trimmed line passes a start test, and otherwise
 * append it with one space to the last record line (or drop it when there is none yet). The two
 * scripts differ only in the start test.
 */
module Reassembly {
  import opened Text

  /** The record markers, tested as literal substrings. */
  const Arrow: string := " \U{2192} "
  const Colon: string := ": "
  const Dash: string := " - "
  const DotSpace: string := ". "

  /** The start test of py_script_2.py (a leading digit or any of four markers) and of
      py_script.py (a leading digit or the arrow). */
  datatype StartRule = AnyMarker | ArrowOnly

  /** A trimmed, non-empty line opens a new record line. */
  predicate StartsRecord(rule: StartRule, line: string) {
    match rule
    case AnyMarker =>
      StartsWithDigit(line) || Contains(line, Arrow) || Contains(line, Colon)
      || Contains(line, Dash) || Contains(line, DotSpace)
    case ArrowOnly =>
      StartsWithDigit(line) || Contains(line, Arrow)
  }

  /** One turn of the reassembly loop: the record lines after one more input line. */
  function Step(rule: StartRule, combined: seq<string>, line: string): seq<string> {
    var t := Strip(line);
    if t == [] then combined
    else if StartsRecord(rule, t) then combined + [t]
    else if combined == [] then combined
    else combined[..|combined| - 1] + [combined[|combined| - 1] + " " + t]
  }

  /** The record lines the loop has built once it has consumed `lines`. */
  function Reassemble(rule: StartRule, lines: seq<string>): seq<string> {
    if lines == [] then [] else Step(rule, Reassemble(rule, lines[..|lines| - 1]), lines[|lines| - 1])
  }

  /** The reassembly loop itself, growing `combined` and rewriting its last element in place. */
  method CombineLines(rule: StartRule, lines: seq<string>) returns (combined: seq<string>)
    ensures combined == Reassemble(rule, lines)
    ensures |combined| == |StartLines(rule, lines)|
    ensures AllRecordLines(rule, combined)
  {
    combined := [];
    for i := 0 to |lines|
      invariant combined == Reassemble(rule, lines[..i])
    {
      assert lines[..i + 1][..i] == lines[..i];
      assert Reassemble(rule, lines[..i + 1]) == Step(rule, combined, lines[i]);
      var line := Strip(lines[i]);
      if line == [] {
        continue;
      }
      if StartsRecord(rule, line) {
        combined := combined + [line];
      } else if combined != [] {
        combined := combined[..|combined| - 1] + [combined[|combined| - 1] + " " + line];
      }
    }
    assert lines[..|lines|] == lines;
    ReassembledLines(rule, lines);
    ReassembleHeads(rule, lines);
  }

  // ------------------------------------------------------------------
  // Reference views of the input

  /** The trimmed, non-empty input lines, in order. */
  function TrimmedLines(lines: seq<string>): seq<string> {
    if lines == [] then []
    else
      var t := Strip(lines[|lines| - 1]);
      TrimmedLines(lines[..|lines| - 1]) + (if t == [] then [] else [t])
  }

  /** The trimmed, non-empty input lines that pass the start test, in order. */
  function StartLines(rule: StartRule, lines: seq<string>): seq<string> {
    if lines == [] then []
    else
      var t := Strip(lines[|lines| - 1]);
      StartLines(rule, lines[..|lines| - 1]) + (if t != [] && StartsRecord(rule, t) then [t] else [])
  }

  /** What is left of `ts` from its first start line on. */
  function FromFirstStart(rule: StartRule, ts: seq<string>): seq<string> {
    if ts == [] then []
    else if StartsRecord(rule, ts[0]) then ts
    else FromFirstStart(rule, ts[1..])
  }

  // ------------------------------------------------------------------
  // Properties

  /** Appending text never removes a reason for starting a record. */
  lemma StartsRecordAppend(rule: StartRule, a: string, b: string)
    requires a != [] && StartsRecord(rule, a)
    ensures StartsRecord(rule, a + b)
  {
    assert (a + b)[0] == a[0];
    if Contains(a, Arrow) { ContainsAppend(a, b, Arrow); }
    if Contains(a, Colon) { ContainsAppend(a, b, Colon); }
    if Contains(a, Dash) { ContainsAppend(a, b, Dash); }
    if Contains(a, DotSpace) { ContainsAppend(a, b, DotSpace); }
  }

  /** A record line: non-empty, trimmed and itself passing the start test. */
  predicate IsRecordLine(rule: StartRule, l: string) {
    l != [] && IsStripped(l) && StartsRecord(rule, l)
  }

  /** Appending a space and a trimmed, non-empty continuation keeps a record line one. */
  lemma JoinedRecordLine(rule: StartRule, last: string, t: string)
    requires IsRecordLine(rule, last) && t != [] && IsStripped(t)
    ensures IsRecordLine(rule, last + " " + t)
  {
    var joined := last + " " + t;
    StartsRecordAppend(rule, last, " " + t);
    assert last + (" " + t) == joined;
    assert joined[0] == last[0] && joined[|joined| - 1] == t[|t| - 1];
  }

  /** Every element of `ls` is a record line. */
  predicate AllRecordLines(rule: StartRule, ls: seq<string>) {
    forall j :: 0 <= j < |ls| ==> IsRecordLine(rule, ls[j])
  }

  lemma ReplaceLastRecordLine(rule: StartRule, prev: seq<string>, x: string)
    requires AllRecordLines(rule, prev) && prev != [] && IsRecordLine(rule, x)
    ensures AllRecordLines(rule, prev[..|prev| - 1] + [x])
  {
    var n := |prev| - 1;
    var r := prev[..n] + [x];
    forall j | 0 <= j < |r| ensures IsRecordLine(rule, r[j]) {
      if j < n {
        assert r[j] == prev[j];
      }
    }
  }

  /** One turn of the loop keeps every element a record line. */
  lemma StepKeepsRecordLines(rule: StartRule, prev: seq<string>, line: string)
    requires AllRecordLines(rule, prev)
    ensures AllRecordLines(rule, Step(rule, prev, line))
  {
    var t := Strip(line);
    if t == [] {
      assert Step(rule, prev, line) == prev;
    } else if StartsRecord(rule, t) {
      assert IsRecordLine(rule, t);
      assert Step(rule, prev, line) == prev + [t];
    } else if prev == [] {
      assert Step(rule, prev, line) == prev;
    } else {
      var n := |prev| - 1;
      JoinedRecordLine(rule, prev[n], t);
      assert Step(rule, prev, line) == prev[..n] + [prev[n] + " " + t];
      ReplaceLastRecordLine(rule, prev, prev[n] + " " + t);
    }
  }

  /** Every record line is non-empty, trimmed and itself passes the start test. */
  lemma {:induction false} ReassembledLines(rule: StartRule, lines: seq<string>)
    ensures AllRecordLines(rule, Reassemble(rule, lines))
  {
    if lines != [] {
      ReassembledLines(rule, lines[..|lines| - 1]);
      StepKeepsRecordLines(rule, Reassemble(rule, lines[..|lines| - 1]), lines[|lines| - 1]);
    }
  }

  /** No element of `ls` holds `c`. */
  predicate NoneHolds(ls: seq<string>, c: char) {
    forall j :: 0 <= j < |ls| ==> c !in ls[j]
  }

  lemma ReplaceLastAvoids(prev: seq<string>, x: string, c: char)
    requires NoneHolds(prev, c) && prev != [] && c !in x
    ensures NoneHolds(prev[..|prev| - 1] + [x], c)
  {
    var n := |prev| - 1;
    var r := prev[..n] + [x];
    forall j | 0 <= j < |r| ensures c !in r[j] {
      if j < n {
        assert r[j] == prev[j];
      }
    }
  }

  /** One turn of the loop brings in no character other than the space that the new line
      does not hold. */
  lemma StepAvoids(rule: StartRule, prev: seq<string>, line: string, c: char)
    requires c != ' ' && c !in line && NoneHolds(prev, c)
    ensures NoneHolds(Step(rule, prev, line), c)
  {
    var t := Strip(line);
    if t == [] {
      assert Step(rule, prev, line) == prev;
    } else if StartsRecord(rule, t) {
      assert Step(rule, prev, line) == prev + [t];
    } else if prev == [] {
      assert Step(rule, prev, line) == prev;
    } else {
      var n := |prev| - 1;
      assert c !in prev[n] + " " + t;
      assert Step(rule, prev, line) == prev[..n] + [prev[n] + " " + t];
      ReplaceLastAvoids(prev, prev[n] + " " + t, c);
    }
  }

  /** A character other than the space that is in no input line is in no record line. */
  lemma {:induction false} ReassembleAvoids(rule: StartRule, lines: seq<string>, c: char)
    requires c != ' ' && NoneHolds(lines, c)
    ensures NoneHolds(Reassemble(rule, lines), c)
  {
    if lines != [] {
      ReassembleAvoids(rule, lines[..|lines| - 1], c);
      StepAvoids(rule, Reassemble(rule, lines[..|lines| - 1]), lines[|lines| - 1], c);
    }
  }

  /** Record line `j` is start line `j`, followed either by nothing or by a space and the
      continuation text. */
  predicate HeadsMatch(heads: seq<string>, ls: seq<string>) {
    |heads| == |ls|
    && forall j :: 0 <= j < |ls| ==> heads[j] <= ls[j] && (|heads[j]| < |ls[j]| ==> ls[j][|heads[j]|] == ' ')
  }

  /** Appending a continuation to the last record line keeps it headed by its start line. */
  lemma ExtendKeepsHeads(heads: seq<string>, prev: seq<string>, t: string)
    requires HeadsMatch(heads, prev) && prev != []
    ensures var n := |prev| - 1; HeadsMatch(heads, prev[..n] + [prev[n] + " " + t])
  {
    var n := |prev| - 1;
    var r := prev[..n] + [prev[n] + " " + t];
    forall j | 0 <= j < |r|
      ensures heads[j] <= r[j] && (|heads[j]| < |r[j]| ==> r[j][|heads[j]|] == ' ')
    {
      if j == n {
        assert heads[j] <= prev[n];
      } else {
        assert r[j] == prev[j];
      }
    }
  }

  /** There is one record line per start line, and each record line begins with its start
      line, followed either by nothing or by a space and the continuation text. */
  lemma {:induction false} ReassembleHeads(rule: StartRule, lines: seq<string>)
    ensures HeadsMatch(StartLines(rule, lines), Reassemble(rule, lines))
  {
    if lines != [] {
      var init := lines[..|lines| - 1];
      ReassembleHeads(rule, init);
      var prev, heads := Reassemble(rule, init), StartLines(rule, init);
      var t := Strip(lines[|lines| - 1]);
      if t == [] {
        assert Reassemble(rule, lines) == prev && StartLines(rule, lines) == heads;
      } else if StartsRecord(rule, t) {
        assert Reassemble(rule, lines) == prev + [t] && StartLines(rule, lines) == heads + [t];
      } else if prev == [] {
        assert Reassemble(rule, lines) == prev && StartLines(rule, lines) == heads;
      } else {
        var n := |prev| - 1;
        assert Reassemble(rule, lines) == prev[..n] + [prev[n] + " " + t];
        assert StartLines(rule, lines) == heads;
        ExtendKeepsHeads(heads, prev, t);
      }
    }
  }

  lemma {:induction false} FromFirstStartSnoc(rule: StartRule, ts: seq<string>, t: string)
    ensures FromFirstStart(rule, ts + [t]) ==
      if FromFirstStart(rule, ts) == [] then (if StartsRecord(rule, t) then [t] else [])
      else FromFirstStart(rule, ts) + [t]
  {
    if ts == [] {
      assert [] + [t] == [t];
      assert [t][1..] == [];
    } else {
      assert (ts + [t])[0] == ts[0] && (ts + [t])[1..] == ts[1..] + [t];
      if !StartsRecord(rule, ts[0]) {
        FromFirstStartSnoc(rule, ts[1..], t);
      }
    }
  }

  /** Joining after rewriting the last element as `last + " " + t`. */
  lemma {:induction false} JoinExtendLast(pieces: seq<string>, t: string)
    requires |pieces| >= 1
    ensures var n := |pieces| - 1;
      Join(pieces[..n] + [pieces[n] + " " + t], ' ') == Join(pieces, ' ') + " " + t
  {
    var n := |pieces| - 1;
    var init, last := pieces[..n], pieces[n] + " " + t;
    if n == 0 {
      assert init + [last] == [last];
      assert pieces == [pieces[0]];
    } else {
      JoinSnoc(init, last, ' ');
      JoinSnoc(init, pieces[n], ' ');
      assert init + [pieces[n]] == pieces;
      assert Join(init + [last], ' ') == Join(init, ' ') + [' '] + (pieces[n] + " " + t);
    }
  }

  /** Nothing but the leading non-start lines is lost: the record lines, joined with spaces,
      spell out the trimmed non-empty input lines from the first start line on, joined the
      same way. */
  lemma {:induction false} ReassembleKeepsText(rule: StartRule, lines: seq<string>)
    ensures var r, k := Reassemble(rule, lines), FromFirstStart(rule, TrimmedLines(lines));
      (r == [] <==> k == []) && Join(r, ' ') == Join(k, ' ')
  {
    if lines != [] {
      var init := lines[..|lines| - 1];
      ReassembleKeepsText(rule, init);
      var prev, ts := Reassemble(rule, init), TrimmedLines(init);
      var kept := FromFirstStart(rule, ts);
      var t := Strip(lines[|lines| - 1]);
      if t != [] {
        assert TrimmedLines(lines) == ts + [t];
        FromFirstStartSnoc(rule, ts, t);
        if StartsRecord(rule, t) {
          if prev != [] {
            JoinSnoc(prev, t, ' ');
            JoinSnoc(kept, t, ' ');
          }
        } else if prev != [] {
          JoinExtendLast(prev, t);
          JoinSnoc(kept, t, ' ');
        }
      } else {
        assert TrimmedLines(lines) == ts;
      }
    }
  }
}
