/**
 * What the two parse loops share: the outcome of parsing one line, the term cleaning, the
 * "both parts non-empty" test that turns a split into a record, the loop that appends each
 * record to `all_entries` and to `vocabulary_dict`, and the `"N. term → definition"` line that
 * both parsers read back as the record it shows.
 */
module Records {
  import opened Text
  import opened Reassembly
  import opened Catalog

  /** What one pass of the parse loop does with a line: append a record, append nothing, or
      raise inside the `try` (the handler then skips the line; nothing was appended). */
  datatype LineOutcome = Parsed(entry: Entry) | NoRecord | Raised

  /** The characters the term cleaning removes. */
  predicate IsQuoteOrBang(c: char) {
    c == '"' || c == '\'' || c == '!'
  }

  /** `word.replace('"', '').replace("'", "").replace('!', '')`. */
  function CleanTerm(w: string): (r: string)
    ensures forall c :: c in r <==> c in w && !IsQuoteOrBang(c)
  {
    RemoveChar(RemoveChar(RemoveChar(w, '"'), '\''), '!')
  }

  /** A term with none of the removed characters is left as it is. */
  lemma CleanTermOfClean(w: string)
    requires forall c :: c in w ==> !IsQuoteOrBang(c)
    ensures CleanTerm(w) == w
  {
    RemoveAbsentChar(w, '"');
    RemoveAbsentChar(w, '\'');
    RemoveAbsentChar(w, '!');
  }

  /** Cleaning twice is cleaning once. */
  lemma CleanTermIdempotent(w: string)
    ensures CleanTerm(CleanTerm(w)) == CleanTerm(w)
  {
    CleanTermOfClean(CleanTerm(w));
  }

  /** Cleaning works character by character: it commutes with concatenation. */
  lemma CleanTermConcat(a: string, b: string)
    ensures CleanTerm(a + b) == CleanTerm(a) + CleanTerm(b)
  {
    RemoveCharConcat(a, b, '"');
    var a1, b1 := RemoveChar(a, '"'), RemoveChar(b, '"');
    RemoveCharConcat(a1, b1, '\'');
    var a2, b2 := RemoveChar(a1, '\''), RemoveChar(b1, '\'');
    RemoveCharConcat(a2, b2, '!');
  }

  /** The last lines of the loop body: a record is made iff both un-trimmed parts are non-empty;
      the term is then trimmed and cleaned and the definition trimmed. */
  function Emit(ordinal: nat, wordPart: string, definition: string): (r: LineOutcome)
    ensures r != Raised
    ensures r.Parsed? <==> wordPart != [] && definition != []
    ensures r.Parsed? ==> r.entry.ordinal == ordinal
    ensures r.Parsed? ==> forall c :: c in r.entry.term ==> c in wordPart && !IsQuoteOrBang(c)
    ensures r.Parsed? ==> IsStripped(r.entry.definition) && |r.entry.definition| <= |definition|
    ensures r.Parsed? && !IsSpace(definition[|definition| - 1]) ==> r.entry.definition != []
  {
    if wordPart != [] && definition != [] then
      Parsed(Entry(ordinal, CleanTerm(Strip(wordPart)), Strip(definition)))
    else NoRecord
  }

  /** What `Emit` makes of parts cut out of `line`: a record made only of the line's characters,
      well formed when the line was trimmed. */
  lemma EmitWithin(ordinal: nat, pre: string, wordPart: string, sep: string, definition: string,
                   line: string)
    requires line == pre + wordPart + sep + definition
    ensures var r := Emit(ordinal, wordPart, definition);
      r.Parsed? ==> (forall c :: c in r.entry.term || c in r.entry.definition ==> c in line)
                    && (IsStripped(line) ==> WellFormed(r.entry))
  {
    var r := Emit(ordinal, wordPart, definition);
    if r.Parsed? {
      assert definition[|definition| - 1] == line[|line| - 1];
      assert forall c :: c in definition ==> c in line;
      assert forall c :: c in wordPart ==> c in line;
      assert forall c :: c in Strip(definition) ==> c in definition;
    }
  }

  lemma Regroup(line: string, pre: string, rest: string, wordPart: string, sep: string,
                 definition: string)
    requires line == pre + rest && rest == wordPart + sep + definition
    ensures line == pre + wordPart + sep + definition
  {
  }

  /** A line split at the first occurrence of a separator: the unnumbered record made of the
      two parts holds only the line's characters, and is well formed when the line was trimmed. */
  lemma SplitWithin(line: string, sep: string)
    requires sep != [] && Contains(line, sep)
    ensures SplitOnce(line, sep).Some?
    ensures var (wordPart, definition) := SplitOnce(line, sep).value;
      var r := Emit(0, wordPart, definition);
      r.Parsed? ==> (forall c :: c in r.entry.term || c in r.entry.definition ==> c in line)
                    && (IsStripped(line) ==> WellFormed(r.entry))
  {
    var (wordPart, definition) := SplitOnce(line, sep).value;
    Regroup(line, [], line, wordPart, sep, definition);
    EmitWithin(0, [], wordPart, sep, definition, line);
  }

  /** A well-formed record: its definition is non-empty and trimmed and its term is clean. The
      term itself may be empty. */
  predicate WellFormed(e: Entry) {
    e.definition != [] && IsStripped(e.definition) && forall c :: c in e.term ==> !IsQuoteOrBang(c)
  }

  /** `all_entries` after the parse loop has consumed `lines` with the parser `parse`. */
  function ParsedEntries(parse: string -> LineOutcome, lines: seq<string>): seq<Entry> {
    if lines == [] then []
    else
      var prev := ParsedEntries(parse, lines[..|lines| - 1]);
      match parse(lines[|lines| - 1])
      case Parsed(e) => prev + [e]
      case _ => prev
  }

  /** Every record comes from one line, in order: there are never more records than lines, and
      each record is what the parser made of some line. */
  lemma {:induction false} ParsedEntriesFrom(parse: string -> LineOutcome, lines: seq<string>)
    ensures |ParsedEntries(parse, lines)| <= |lines|
    ensures forall e :: e in ParsedEntries(parse, lines) ==>
      exists i :: 0 <= i < |lines| && parse(lines[i]) == Parsed(e)
  {
    if lines != [] {
      var init := lines[..|lines| - 1];
      ParsedEntriesFrom(parse, init);
      forall e | e in ParsedEntries(parse, lines)
        ensures exists i :: 0 <= i < |lines| && parse(lines[i]) == Parsed(e)
      {
        if e in ParsedEntries(parse, init) {
          var i :| 0 <= i < |init| && parse(init[i]) == Parsed(e);
          assert lines[i] == init[i];
        } else {
          assert parse(lines[|lines| - 1]) == Parsed(e);
        }
      }
    }
  }

  /** The parse loop collects only well-formed single-line records from lines that are trimmed
      and hold no line break, given a parser that builds its records from the line's characters
      and, from a trimmed line, well formed. */
  lemma ParsedEntriesWellFormed(parse: string -> LineOutcome, lines: seq<string>)
    requires forall l :: l in lines ==> IsStripped(l) && '\n' !in l
    requires forall l :: l in lines && parse(l).Parsed? ==>
      (forall c :: c in parse(l).entry.term || c in parse(l).entry.definition ==> c in l)
      && (IsStripped(l) ==> WellFormed(parse(l).entry))
    ensures forall e :: e in ParsedEntries(parse, lines) ==> WellFormed(e) && SingleLine(e)
  {
    ParsedEntriesFrom(parse, lines);
    forall e | e in ParsedEntries(parse, lines) ensures WellFormed(e) && SingleLine(e) {
      var i :| 0 <= i < |lines| && parse(lines[i]) == Parsed(e);
      assert lines[i] in lines;
    }
  }

  /** The parse loop: for each line, append its record to `all_entries` and record its
      `(ordinal, definition)` pair under its term, appending to the term's list or starting
      one. A line the parser rejects or raises on adds nothing. */
  method CollectEntries(parse: string -> LineOutcome, lines: seq<string>)
    returns (allEntries: seq<Entry>, index: Index)
    ensures allEntries == ParsedEntries(parse, lines)
    ensures index == IndexOf(allEntries)
    ensures TotalCount(index) == |allEntries|
    ensures forall t :: t in index <==> WithTerm(allEntries, t) != []
    ensures forall t :: t in index ==> index[t] == Glosses(WithTerm(allEntries, t))
  {
    allEntries, index := [], map[];
    for i := 0 to |lines|
      invariant allEntries == ParsedEntries(parse, lines[..i])
      invariant index == IndexOf(allEntries)
    {
      assert lines[..i + 1][..i] == lines[..i];
      match parse(lines[i]) {
        case Parsed(e) =>
          allEntries := allEntries + [e];
          if e.term in index {
            index := index[e.term := index[e.term] + [GlossOf(e)]];
          } else {
            index := index[e.term := [GlossOf(e)]];
          }
        case NoRecord =>
        case Raised =>
      }
    }
    assert lines[..|lines|] == lines;
    IndexOfCount(allEntries);
    forall t ensures (t in index <==> WithTerm(allEntries, t) != [])
      && (t in index ==> index[t] == Glosses(WithTerm(allEntries, t)))
    {
      IndexOfLists(allEntries, t);
    }
  }

  // ------------------------------------------------------------------
  // The record line format both parsers read back

  /** The line `"N. term → definition"` (or `"term → definition"` for ordinal 0) that the parser
      reads back as the record. */
  function Render(e: Entry): string {
    (if e.ordinal > 0 then Decimal(e.ordinal) + DotSpace else []) + e.term + Arrow + e.definition
  }

  /** The records `Render` writes so that they read back unchanged. */
  predicate Renderable(e: Entry) {
    e.term != [] && IsStripped(e.term) && '\U{2192}' !in e.term
    && (forall c :: c in e.term ==> !IsQuoteOrBang(c))
    && e.definition != [] && IsStripped(e.definition)
    && (e.ordinal == 0 ==> !IsDigit(e.term[0]))
  }

  /** In `term + tail`, no arrow starts inside a trimmed term that holds no `→`. */
  lemma NoArrowInside(term: string, tail: string)
    requires term != [] && IsStripped(term) && '\U{2192}' !in term
    ensures forall j: nat :: j < |term| ==> !OccursAt(term + tail, Arrow, j)
  {
    var s := term + tail;
    forall j: nat | j < |term| ensures !OccursAt(s, Arrow, j) {
      if j + 3 <= |s| {
        if j + 1 < |term| {
          assert s[j..j + 3][1] == term[j + 1] != Arrow[1];
        } else {
          assert s[j..j + 3][0] == term[|term| - 1] != Arrow[0];
        }
      }
    }
  }

  /** The term-arrow-definition part of a rendered record splits back into term and
      definition at its first arrow. */
  lemma SplitRenderedBody(e: Entry)
    requires Renderable(e)
    ensures var body := e.term + Arrow + e.definition;
      Contains(body, Arrow) && SplitOnce(body, Arrow) == Some((e.term, e.definition))
  {
    var body := e.term + Arrow + e.definition;
    NoArrowInside(e.term, Arrow + e.definition);
    assert body == e.term + (Arrow + e.definition);
    assert OccursAt(body, Arrow, |e.term|);
    SplitOnceAt(body, Arrow, |e.term|);
    assert body[..|e.term|] == e.term;
    assert body[|e.term| + |Arrow|..] == e.definition;
    ContainsIff(body, Arrow, |e.term|);
  }

  /** A rendered numbered record splits at its first `'. '` into its numeral and the rest. */
  lemma SplitRenderedNumber(n: nat, body: string)
    ensures var line := Decimal(n) + DotSpace + body;
      StartsWithDigit(line) && Contains(line, DotSpace)
      && SplitOnce(line, DotSpace) == Some((Decimal(n), body))
  {
    var d := Decimal(n);
    var line := d + DotSpace + body;
    assert OccursAt(line, DotSpace, |d|);
    forall j: nat | j < |d| ensures !OccursAt(line, DotSpace, j) {
      if j + 2 <= |line| {
        assert line[j..j + 2][0] == d[j] != DotSpace[0];
      }
    }
    SplitOnceAt(line, DotSpace, |d|);
    ContainsIff(line, DotSpace, |d|);
    assert line[..|d|] == d && line[|d| + 2..] == body;
    assert line[0] == d[0];
  }

  /** A renderable record is what `Emit` makes of its own term and definition. */
  lemma EmitRenderable(e: Entry)
    requires Renderable(e)
    ensures Emit(e.ordinal, e.term, e.definition) == Parsed(e)
  {
    CleanTermOfClean(e.term);
  }

  lemma RenderShape(e: Entry)
    ensures e.ordinal > 0 ==> Render(e) == Decimal(e.ordinal) + DotSpace + (e.term + Arrow + e.definition)
    ensures e.ordinal == 0 ==> Render(e) == e.term + Arrow + e.definition
  {
  }
}
