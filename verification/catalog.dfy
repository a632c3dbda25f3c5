/**
 * What both scripts build from the parsed records: the ordered list `all_entries`, the index
 * `vocabulary_dict` from term to its `(original_num, definition)` pairs, the `duplicates` view
 * and `sorted_entries`, the entries sorted stably by lower-cased term.
 */
module Catalog {
  import opened Text

  /** One parsed record `(original_num, word, definition)`; ordinal 0 means "no number". */
  datatype Entry = Entry(ordinal: nat, term: string, definition: string)

  /** No line break inside a term or definition. */
  predicate SingleLine(e: Entry) {
    '\n' !in e.term && '\n' !in e.definition
  }

  /** One `(original_num, definition)` pair stored under a term. */
  datatype Gloss = Gloss(ordinal: nat, definition: string)

  /** `vocabulary_dict`: term to its pairs in the order they were met. */
  type Index = map<string, seq<Gloss>>

  function GlossOf(e: Entry): Gloss {
    Gloss(e.ordinal, e.definition)
  }

  // ------------------------------------------------------------------
  // The index

  /** The index after recording one more entry: append to the term's list, or start one. */
  function Record(idx: Index, e: Entry): Index {
    if e.term in idx then idx[e.term := idx[e.term] + [GlossOf(e)]]
    else idx[e.term := [GlossOf(e)]]
  }

  /** The index after recording `entries` in order, starting from an empty dictionary. */
  function IndexOf(entries: seq<Entry>): Index {
    if entries == [] then map[]
    else Record(IndexOf(entries[..|entries| - 1]), entries[|entries| - 1])
  }

  /** Reference view: the entries whose term is `t`, in encounter order. */
  function WithTerm(entries: seq<Entry>, t: string): seq<Entry> {
    if entries == [] then []
    else
      var e := entries[|entries| - 1];
      WithTerm(entries[..|entries| - 1], t) + (if e.term == t then [e] else [])
  }

  /** The `(ordinal, definition)` pairs of `entries`, in order. */
  function Glosses(entries: seq<Entry>): (r: seq<Gloss>)
    ensures |r| == |entries|
    ensures forall i :: 0 <= i < |r| ==> r[i] == GlossOf(entries[i])
  {
    if entries == [] then []
    else
      var init := entries[..|entries| - 1];
      assert forall i :: 0 <= i < |init| ==> init[i] == entries[i];
      Glosses(init) + [GlossOf(entries[|entries| - 1])]
  }

  /** A term is a key of the index iff some entry carries it, and its list holds the pairs of
      exactly the entries carrying it, in encounter order. */
  lemma {:induction false} IndexOfLists(entries: seq<Entry>, t: string)
    ensures t in IndexOf(entries) <==> WithTerm(entries, t) != []
    ensures t in IndexOf(entries) ==> IndexOf(entries)[t] == Glosses(WithTerm(entries, t))
  {
    if entries != [] {
      var init, e := entries[..|entries| - 1], entries[|entries| - 1];
      IndexOfLists(init, t);
      if e.term == t {
        var w := WithTerm(init, t);
        var prev := IndexOf(init);
        assert WithTerm(entries, t) == w + [e];
        assert (w + [e])[..|w|] == w;
        assert Glosses(w + [e]) == Glosses(w) + [GlossOf(e)];
        if t in prev {
          assert IndexOf(entries)[t] == prev[t] + [GlossOf(e)];
        } else {
          assert w == [];
          assert IndexOf(entries)[t] == [GlossOf(e)];
          assert Glosses([] + [e]) == Glosses([]) + [GlossOf(e)];
        }
      } else {
        assert WithTerm(entries, t) == WithTerm(init, t) + [] == WithTerm(init, t);
        assert t in IndexOf(entries) <==> t in IndexOf(init);
        assert t in IndexOf(init) ==> IndexOf(entries)[t] == IndexOf(init)[t];
      }
    }
  }

  /** A term is a key of the index exactly when some entry carries it. */
  lemma IndexOfKeys(entries: seq<Entry>, t: string)
    ensures t in IndexOf(entries) <==> exists i :: 0 <= i < |entries| && entries[i].term == t
  {
    IndexOfLists(entries, t);
    WithTermMembers(entries, t);
  }

  /** Some entry in `entries` carries term `t` exactly when `WithTerm` is non-empty. */
  lemma {:induction false} WithTermMembers(entries: seq<Entry>, t: string)
    ensures WithTerm(entries, t) != [] <==> exists i :: 0 <= i < |entries| && entries[i].term == t
  {
    if entries != [] {
      var init := entries[..|entries| - 1];
      WithTermMembers(init, t);
      if exists i :: 0 <= i < |init| && init[i].term == t {
        var i :| 0 <= i < |init| && init[i].term == t;
        assert entries[i].term == t;
      }
      if exists i :: 0 <= i < |entries| && entries[i].term == t {
        var i :| 0 <= i < |entries| && entries[i].term == t;
        if i < |init| {
          assert init[i].term == t;
        }
      }
    }
  }

  // ------------------------------------------------------------------
  // Counting what the index holds

  ghost function PickTerm(idx: Index): (t: string)
    requires idx != map[]
    ensures t in idx
  {
    var t :| t in idx; t
  }

  /** `sum(len(v) for v in vocabulary_dict.values())`. */
  ghost function TotalCount(idx: Index): nat
    decreases |idx|
  {
    if idx == map[] then 0
    else
      var t := PickTerm(idx);
      assert (idx - {t}).Keys == idx.Keys - {t};
      |idx[t]| + TotalCount(idx - {t})
  }

  /** The sum does not depend on which term is taken out first. */
  lemma {:induction false} TotalCountWithout(idx: Index, t: string)
    requires t in idx
    ensures TotalCount(idx) == |idx[t]| + TotalCount(idx - {t})
    decreases |idx|
  {
    var p := PickTerm(idx);
    if p != t {
      assert (idx - {p}).Keys == idx.Keys - {p};
      assert (idx - {t}).Keys == idx.Keys - {t};
      TotalCountWithout(idx - {p}, t);
      TotalCountWithout(idx - {t}, p);
      assert idx - {p} - {t} == idx - {t} - {p};
    }
  }

  lemma TotalCountRecord(idx: Index, e: Entry)
    ensures TotalCount(Record(idx, e)) == TotalCount(idx) + 1
  {
    var r := Record(idx, e);
    var t := e.term;
    TotalCountWithout(r, t);
    assert r - {t} == idx - {t};
    if t in idx {
      TotalCountWithout(idx, t);
    } else {
      assert idx - {t} == idx;
    }
  }

  /** Count conservation: the index holds as many pairs as there are entries. */
  lemma {:induction false} IndexOfCount(entries: seq<Entry>)
    ensures TotalCount(IndexOf(entries)) == |entries|
  {
    if entries != [] {
      IndexOfCount(entries[..|entries| - 1]);
      TotalCountRecord(IndexOf(entries[..|entries| - 1]), entries[|entries| - 1]);
    }
  }

  /** Every list in the index is non-empty: a term only appears with its first pair. */
  lemma {:induction false} IndexOfNonEmpty(entries: seq<Entry>)
    ensures forall t :: t in IndexOf(entries) ==> IndexOf(entries)[t] != []
  {
    if entries != [] {
      IndexOfNonEmpty(entries[..|entries| - 1]);
    }
  }

  /** With no empty list, there are at most as many terms as pairs, and as many exactly when
      every term has one pair: the printed "duplicates removed" figure is never negative and is
      zero iff no term repeats. */
  lemma {:induction false} TotalCountBounds(idx: Index)
    requires forall t :: t in idx ==> idx[t] != []
    ensures |idx| <= TotalCount(idx)
    ensures TotalCount(idx) == |idx| <==> forall t :: t in idx ==> |idx[t]| == 1
    decreases |idx|
  {
    if idx != map[] {
      var p := PickTerm(idx);
      var rest := idx - {p};
      assert rest.Keys == idx.Keys - {p};
      TotalCountBounds(rest);
      if TotalCount(idx) == |idx| {
        forall t | t in idx ensures |idx[t]| == 1 {
          if t != p {
            assert t in rest;
          }
        }
      }
      if forall t :: t in idx ==> |idx[t]| == 1 {
        assert |idx[p]| == 1;
      }
    }
  }

  // ------------------------------------------------------------------
  // Duplicates

  /** `{word: entries for word, entries in vocabulary_dict.items() if len(entries) > 1}`. */
  function Duplicates(idx: Index): Index {
    map t | t in idx && |idx[t]| > 1 :: idx[t]
  }

  /** Duplicate correctness, stated against the entries: a term is a duplicate iff more than one
      entry carries it, and it keeps all of their pairs. */
  lemma DuplicatesOfEntries(entries: seq<Entry>, t: string)
    ensures t in Duplicates(IndexOf(entries)) <==> |WithTerm(entries, t)| > 1
    ensures t in Duplicates(IndexOf(entries)) ==>
      Duplicates(IndexOf(entries))[t] == Glosses(WithTerm(entries, t))
  {
    IndexOfLists(entries, t);
  }

  /** There is no duplicate exactly when the index holds one pair per term. */
  lemma NoDuplicatesIff(entries: seq<Entry>)
    ensures Duplicates(IndexOf(entries)) == map[] <==> |IndexOf(entries)| == |entries|
  {
    var idx := IndexOf(entries);
    IndexOfNonEmpty(entries);
    IndexOfCount(entries);
    TotalCountBounds(idx);
    if Duplicates(idx) == map[] {
      forall t | t in idx ensures |idx[t]| == 1 {
        assert t !in Duplicates(idx);
      }
    } else {
      var t :| t in Duplicates(idx);
      assert |idx[t]| > 1;
    }
  }

  // ------------------------------------------------------------------
  // Sorting by lower-cased term

  /** The sort key `x[1].lower()`. */
  function Key(e: Entry): string {
    Lower(e.term)
  }

  /** `a` may stand before `b`: `b`'s key is not smaller than `a`'s. */
  predicate KeyLe(a: Entry, b: Entry) {
    !LexLess(Key(b), Key(a))
  }

  predicate SortedByKey(s: seq<Entry>) {
    forall i, j :: 0 <= i < j < |s| ==> KeyLe(s[i], s[j])
  }

  /** The entries of `s` whose key is `k`, in order. */
  function WithKey(s: seq<Entry>, k: string): seq<Entry> {
    if s == [] then [] else (if Key(s[0]) == k then [s[0]] else []) + WithKey(s[1..], k)
  }

  /** Insert `e` after the entries with a smaller key and before all others. */
  function Insert(e: Entry, s: seq<Entry>): seq<Entry> {
    if s == [] then [e]
    else if LexLess(Key(s[0]), Key(e)) then [s[0]] + Insert(e, s[1..])
    else [e] + s
  }

  /** `sorted(all_entries, key=lambda x: x[1].lower())`, as a stable insertion sort. */
  function SortByKey(s: seq<Entry>): seq<Entry> {
    if s == [] then [] else Insert(s[0], SortByKey(s[1..]))
  }

  lemma KeyLeTransitive(a: Entry, b: Entry, c: Entry)
    requires KeyLe(a, b) && KeyLe(b, c)
    ensures KeyLe(a, c)
  {
    if LexLess(Key(c), Key(a)) {
      LexLessTotal(Key(a), Key(b));
      if LexLess(Key(a), Key(b)) {
        LexLessTransitive(Key(c), Key(a), Key(b));
      }
    }
  }

  lemma SortedCons(x: Entry, s: seq<Entry>)
    requires SortedByKey(s)
    requires forall y :: y in s ==> KeyLe(x, y)
    ensures SortedByKey([x] + s)
  {
    var r := [x] + s;
    forall i, j | 0 <= i < j < |r| ensures KeyLe(r[i], r[j]) {
      if i == 0 {
        assert r[j] == s[j - 1];
      } else {
        assert r[i] == s[i - 1] && r[j] == s[j - 1];
      }
    }
  }

  lemma SortedTail(s: seq<Entry>)
    requires SortedByKey(s) && s != []
    ensures SortedByKey(s[1..])
  {
    var tail := s[1..];
    forall i, j | 0 <= i < j < |tail| ensures KeyLe(tail[i], tail[j]) {
      assert tail[i] == s[i + 1] && tail[j] == s[j + 1];
    }
  }

  lemma {:induction false} InsertMultiset(e: Entry, s: seq<Entry>)
    ensures multiset(Insert(e, s)) == multiset(s) + multiset{e}
  {
    if s != [] && LexLess(Key(s[0]), Key(e)) {
      InsertMultiset(e, s[1..]);
      assert s == [s[0]] + s[1..];
    }
  }

  lemma {:induction false} InsertSorted(e: Entry, s: seq<Entry>)
    requires SortedByKey(s)
    ensures SortedByKey(Insert(e, s))
  {
    if s == [] {
      assert SortedByKey([e]);
    } else if LexLess(Key(s[0]), Key(e)) {
      var tail := s[1..];
      SortedTail(s);
      InsertSorted(e, tail);
      InsertMultiset(e, tail);
      var rest := Insert(e, tail);
      forall y | y in rest ensures KeyLe(s[0], y) {
        assert y in multiset(rest);
        if y == e {
          LexLessAsymmetric(Key(s[0]), Key(e));
        } else {
          assert y in tail;
          var j :| 0 <= j < |tail| && tail[j] == y;
          assert s[j + 1] == y;
        }
      }
      SortedCons(s[0], rest);
    } else {
      forall y | y in s ensures KeyLe(e, y) {
        var j :| 0 <= j < |s| && s[j] == y;
        if j > 0 {
          KeyLeTransitive(e, s[0], y);
        }
      }
      SortedCons(e, s);
    }
  }

  lemma {:induction false} InsertWithKey(e: Entry, s: seq<Entry>, k: string)
    ensures WithKey(Insert(e, s), k) == (if Key(e) == k then [e] else []) + WithKey(s, k)
  {
    var mine: seq<Entry> := if Key(e) == k then [e] else [];
    if s == [] {
      assert Insert(e, s) == [e];
      assert WithKey([e], k) == mine + WithKey([e][1..], k);
    } else {
      var theirs: seq<Entry> := if Key(s[0]) == k then [s[0]] else [];
      assert WithKey(s, k) == theirs + WithKey(s[1..], k);
      if LexLess(Key(s[0]), Key(e)) {
        InsertWithKey(e, s[1..], k);
        var rest := Insert(e, s[1..]);
        assert ([s[0]] + rest)[0] == s[0] && ([s[0]] + rest)[1..] == rest;
        assert WithKey(Insert(e, s), k) == theirs + (mine + WithKey(s[1..], k));
        if Key(s[0]) == k {
          LexLessIrreflexive(k);
          assert mine == [];
        } else {
          assert theirs == [];
        }
      } else {
        assert ([e] + s)[0] == e && ([e] + s)[1..] == s;
      }
    }
  }

  lemma InsertFacts(e: Entry, s: seq<Entry>)
    requires SortedByKey(s)
    ensures SortedByKey(Insert(e, s))
    ensures multiset(Insert(e, s)) == multiset(s) + multiset{e}
    ensures forall k :: WithKey(Insert(e, s), k) == (if Key(e) == k then [e] else []) + WithKey(s, k)
  {
    InsertSorted(e, s);
    InsertMultiset(e, s);
    forall k ensures WithKey(Insert(e, s), k) == (if Key(e) == k then [e] else []) + WithKey(s, k) {
      InsertWithKey(e, s, k);
    }
  }

  /** The sort yields a non-decreasing, stable permutation: every key's entries keep their
      encounter order. */
  lemma {:induction false} SortFacts(s: seq<Entry>)
    ensures SortedByKey(SortByKey(s))
    ensures multiset(SortByKey(s)) == multiset(s)
    ensures forall k :: WithKey(SortByKey(s), k) == WithKey(s, k)
  {
    if s != [] {
      SortFacts(s[1..]);
      InsertFacts(s[0], SortByKey(s[1..]));
      assert s == [s[0]] + s[1..];
    }
  }

  lemma {:induction false} WithKeyMembers(s: seq<Entry>, k: string, x: Entry)
    requires x in WithKey(s, k)
    ensures x in s && Key(x) == k
  {
    if s != [] && !(Key(s[0]) == k && x == s[0]) {
      WithKeyMembers(s[1..], k, x);
    }
  }

  lemma WithKeyHead(s: seq<Entry>)
    requires s != []
    ensures WithKey(s, Key(s[0])) != [] && WithKey([], Key(s[0])) == []
  {
  }

  /** A sorted sequence is determined by its per-key subsequences: any two sorted sequences
      that agree on every key's entries are equal. */
  lemma {:induction false} SortedUnique(t: seq<Entry>, u: seq<Entry>)
    requires SortedByKey(t) && SortedByKey(u)
    requires forall k :: WithKey(t, k) == WithKey(u, k)
    ensures t == u
    decreases |t| + |u|
  {
    if t == [] && u != [] {
      WithKeyHead(u);
      assert false;
    } else if t != [] && u == [] {
      WithKeyHead(t);
      assert false;
    } else if t != [] {
      var kt, ku := Key(t[0]), Key(u[0]);
      if kt != ku {
        LexLessTotal(kt, ku);
        if LexLess(kt, ku) {
          assert t[0] in WithKey(t, kt);
          WithKeyMembers(u, kt, t[0]);
          assert false;
        } else {
          assert u[0] in WithKey(u, ku);
          WithKeyMembers(t, ku, u[0]);
          assert false;
        }
      }
      assert WithKey(t, kt) == [t[0]] + WithKey(t[1..], kt);
      assert WithKey(u, kt) == [u[0]] + WithKey(u[1..], kt);
      assert WithKey(t, kt) == WithKey(u, kt);
      assert WithKey(t, kt)[0] == t[0] && WithKey(u, kt)[0] == u[0];
      forall k ensures WithKey(t[1..], k) == WithKey(u[1..], k) {
        assert WithKey(t, k) == WithKey(u, k);
        assert WithKey(t, k) == (if kt == k then [t[0]] else []) + WithKey(t[1..], k);
        assert WithKey(u, k) == (if kt == k then [u[0]] else []) + WithKey(u[1..], k);
        if kt == k {
          assert [t[0]] + WithKey(t[1..], k) == [t[0]] + WithKey(u[1..], k);
          assert WithKey(t[1..], k) == ([t[0]] + WithKey(t[1..], k))[1..];
          assert WithKey(u[1..], k) == ([t[0]] + WithKey(u[1..], k))[1..];
        } else {
          assert [] + WithKey(t[1..], k) == WithKey(t[1..], k);
          assert [] + WithKey(u[1..], k) == WithKey(u[1..], k);
        }
      }
      SortedTail(t);
      SortedTail(u);
      SortedUnique(t[1..], u[1..]);
      assert t == [t[0]] + t[1..] && u == [u[0]] + u[1..];
    }
  }

  /** The sort is the only stable, non-decreasing rearrangement: whatever stable sort produced
      a sorted sequence with the same per-key order, it equals `SortByKey`. */
  lemma SortIsTheStableSort(s: seq<Entry>, r: seq<Entry>)
    requires SortedByKey(r)
    requires forall k :: WithKey(r, k) == WithKey(s, k)
    ensures r == SortByKey(s)
  {
    SortFacts(s);
    SortedUnique(r, SortByKey(s));
  }

  /** Sorting an already sorted sequence changes nothing. */
  lemma SortOfSorted(s: seq<Entry>)
    requires SortedByKey(s)
    ensures SortByKey(s) == s
  {
    SortIsTheStableSort(s, s);
  }

  /** Sorting `sorted_entries` again by the same key yields it unchanged. */
  lemma SortIdempotent(s: seq<Entry>)
    ensures SortByKey(SortByKey(s)) == SortByKey(s)
  {
    SortFacts(s);
    SortOfSorted(SortByKey(s));
  }

  /** What the script derives from `all_entries`, together: the index conserves the count, the
      duplicates are the repeated terms, and the sorted list is a sorted, stable permutation of
      the same length. */
  lemma CatalogFacts(entries: seq<Entry>)
    ensures TotalCount(IndexOf(entries)) == |entries| == |SortByKey(entries)|
    ensures forall t :: t in Duplicates(IndexOf(entries)) <==> |WithTerm(entries, t)| > 1
    ensures SortedByKey(SortByKey(entries)) && multiset(SortByKey(entries)) == multiset(entries)
    ensures forall k :: WithKey(SortByKey(entries), k) == WithKey(entries, k)
  {
    IndexOfCount(entries);
    SortFacts(entries);
    var sorted := SortByKey(entries);
    assert |multiset(sorted)| == |sorted| && |multiset(entries)| == |entries|;
    forall t ensures t in Duplicates(IndexOf(entries)) <==> |WithTerm(entries, t)| > 1 {
      DuplicatesOfEntries(entries, t);
    }
  }
}
