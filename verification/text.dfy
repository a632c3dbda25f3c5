/**
 * The Python string operations the vocabulary scripts rely on, restricted to ASCII:
 * `str.isspace`/`str.strip`, `str.isdigit`/`int`/`str`, the substring test `in`,
 * `str.split` (on a one-character separator, and once on a string separator),
 * `'\n'.join`, `str.replace(c, '')`, `str.lower` and the ordering `<` on strings.
 */
module Text {

  datatype Option<T> = None | Some(value: T)

  // ------------------------------------------------------------------
  // Character classes

  /** `str.isspace` on ASCII: tab, line feed, vertical tab, form feed, carriage return,
      the four information separators 0x1C-0x1F, and the space. */
  predicate IsSpace(c: char) {
    c == ' ' || ('\t' <= c <= '\r') || ('\U{1C}' <= c <= '\U{1F}')
  }

  /** `str.isdigit` on one ASCII character. */
  predicate IsDigit(c: char) {
    '0' <= c <= '9'
  }

  /** `line[0].isdigit()`, for a line that is known to be non-empty wherever the scripts ask. */
  predicate StartsWithDigit(s: string) {
    |s| > 0 && IsDigit(s[0])
  }

  // ------------------------------------------------------------------
  // Stripping

  /** `s.lstrip()`. */
  function StripStart(s: string): (r: string)
    ensures |r| <= |s| && r == s[|s| - |r|..]
    ensures forall k :: 0 <= k < |s| - |r| ==> IsSpace(s[k])
    ensures r == [] || !IsSpace(r[0])
  {
    if s == [] || !IsSpace(s[0]) then s else StripStart(s[1..])
  }

  /** `s.rstrip()`. */
  function StripEnd(s: string): (r: string)
    ensures |r| <= |s| && r == s[..|r|]
    ensures forall k :: |r| <= k < |s| ==> IsSpace(s[k])
    ensures r == [] || !IsSpace(r[|r| - 1])
  {
    if s == [] || !IsSpace(s[|s| - 1]) then s else StripEnd(s[..|s| - 1])
  }

  /** Neither the first nor the last character is whitespace. */
  predicate IsStripped(s: string) {
    s == [] || (!IsSpace(s[0]) && !IsSpace(s[|s| - 1]))
  }

  /** `s.strip()`: the slice of `s` left after removing leading and trailing whitespace. */
  function Strip(s: string): (r: string)
    ensures IsStripped(r)
    ensures |r| <= |s|
    ensures forall c :: c in r ==> c in s
    ensures r == [] <==> forall k :: 0 <= k < |s| ==> IsSpace(s[k])
    ensures IsStripped(s) ==> r == s
    ensures IsStripOf(s, r)
  {
    var t := StripStart(s);
    var r := StripEnd(t);
    assert forall c :: c in r ==> c in t;
    assert r == [] ==> t == [];
    StripSlice(s, t, r, |s| - |t|, |s| - |t| + |r|);
    r
  }

  /** `r` is the slice `s[i..j]` and everything of `s` outside it is whitespace. */
  predicate StripBounds(s: string, r: string, i: int, j: int) {
    0 <= i <= j <= |s| && r == s[i..j]
    && (forall k :: 0 <= k < i ==> IsSpace(s[k])) && (forall k :: j <= k < |s| ==> IsSpace(s[k]))
  }

  /** `r` is what is left of `s` once its leading and trailing whitespace is removed. */
  ghost predicate IsStripOf(s: string, r: string) {
    exists i, j :: StripBounds(s, r, i, j)
  }

  /** The right-strip of the left-strip is the slice between the stripped ends. */
  lemma StripSlice(s: string, t: string, r: string, i: nat, j: nat)
    requires i <= |s| && t == s[i..] && forall k :: 0 <= k < i ==> IsSpace(s[k])
    requires j == i + |r| && |r| <= |t| && r == t[..|r|]
    requires forall k :: |r| <= k < |t| ==> IsSpace(t[k])
    ensures StripBounds(s, r, i, j)
  {
    forall k | j <= k < |s| ensures IsSpace(s[k]) {
      assert s[k] == t[k - i];
    }
  }

  /** A string that strips to a number holds only digits and whitespace. */
  lemma StripDigitsChars(s: string)
    requires IsAllDigits(Strip(s))
    ensures forall k :: 0 <= k < |s| ==> IsDigit(s[k]) || IsSpace(s[k])
  {
    var i, j :| StripBounds(s, Strip(s), i, j);
    forall k | i <= k < j ensures IsDigit(s[k]) {
      assert s[k] == Strip(s)[k - i];
    }
  }

  // ------------------------------------------------------------------
  // Substrings

  /** `sub` occurs in `s` at index `k`. */
  predicate OccursAt(s: string, sub: string, k: nat) {
    k + |sub| <= |s| && s[k..k + |sub|] == sub
  }

  /** The index of the first occurrence of `sub` in `s` at or after `from`, as `str.find`. */
  function FindFrom(s: string, sub: string, from: nat): (r: Option<nat>)
    ensures r.Some? ==> from <= r.value && OccursAt(s, sub, r.value)
    ensures forall k: nat :: from <= k && (r.None? || k < r.value) ==> !OccursAt(s, sub, k)
    decreases |s| - from
  {
    if from + |sub| > |s| then None
    else if s[from..from + |sub|] == sub then Some(from)
    else FindFrom(s, sub, from + 1)
  }

  function Find(s: string, sub: string): Option<nat> {
    FindFrom(s, sub, 0)
  }

  /** Python's `sub in s`. */
  predicate Contains(s: string, sub: string) {
    Find(s, sub).Some?
  }

  /** `Contains` means what `in` means: an occurrence somewhere. */
  lemma ContainsIff(s: string, sub: string, k: nat)
    ensures OccursAt(s, sub, k) ==> Contains(s, sub)
    ensures Contains(s, sub) ==> OccursAt(s, sub, Find(s, sub).value)
  {
  }

  /** Every character of a contained string occurs in the containing one. */
  lemma ContainsChars(s: string, sub: string)
    requires Contains(s, sub)
    ensures forall c :: c in sub ==> c in s
  {
    var k := Find(s, sub).value;
    assert s[k..k + |sub|] == sub;
    forall c | c in sub ensures c in s {
      var i :| 0 <= i < |sub| && sub[i] == c;
      assert s[k + i] == c;
    }
  }

  /** A string holding a character that `s` lacks is not contained in `s`. */
  lemma NotContainedByChar(s: string, sub: string, c: char)
    requires c in sub && c !in s
    ensures !Contains(s, sub)
  {
    if Contains(s, sub) {
      ContainsChars(s, sub);
    }
  }

  /** Appending text after `s` keeps every occurrence already in `s`. */
  lemma ContainsAppend(s: string, t: string, sub: string)
    requires Contains(s, sub)
    ensures Contains(s + t, sub)
  {
    var k := Find(s, sub).value;
    assert (s + t)[k..k + |sub|] == s[k..k + |sub|];
    ContainsIff(s + t, sub, k);
  }

  /** Text put in front of `s` keeps every occurrence in `s`. */
  lemma ContainsPrepend(pre: string, s: string, sub: string)
    requires Contains(s, sub)
    ensures Contains(pre + s, sub)
  {
    var k := Find(s, sub).value;
    assert (pre + s)[|pre| + k..|pre| + k + |sub|] == s[k..k + |sub|];
    ContainsIff(pre + s, sub, |pre| + k);
  }

  /** `s.split(sep, 1)` for a non-empty `sep`. `Some((before, after))` splits at the first
      occurrence; `None` stands for the one-piece list that makes `a, b = ...` raise. */
  function SplitOnce(s: string, sep: string): (r: Option<(string, string)>)
    requires sep != []
    ensures r.None? <==> !Contains(s, sep)
    ensures r.Some? ==> s == r.value.0 + sep + r.value.1
    ensures r.Some? ==> OccursAt(s, sep, |r.value.0|)
    ensures r.Some? ==> forall k: nat :: k < |r.value.0| ==> !OccursAt(s, sep, k)
  {
    match Find(s, sep)
    case None => None
    case Some(k) =>
      assert s[k..k + |sep|] == sep;
      assert s == s[..k] + s[k..k + |sep|] + s[k + |sep|..];
      Some((s[..k], s[k + |sep|..]))
  }

  /** The split happens at the first occurrence, wherever that is shown to be. */
  lemma SplitOnceAt(s: string, sep: string, k: nat)
    requires sep != [] && OccursAt(s, sep, k)
    requires forall j: nat :: j < k ==> !OccursAt(s, sep, j)
    ensures SplitOnce(s, sep) == Some((s[..k], s[k + |sep|..]))
  {
    ContainsIff(s, sep, k);
    var r := SplitOnce(s, sep).value;
    assert |r.0| == k;
    assert s == r.0 + sep + r.1;
    assert s[..k] == r.0;
    assert s[k + |sep|..] == r.1;
  }

  // ------------------------------------------------------------------
  // Splitting into lines and joining them

  /** `s.split(c)` for a one-character separator: the pieces between occurrences of `c`. */
  function SplitOn(s: string, c: char): (r: seq<string>)
    ensures |r| >= 1
    ensures forall i :: 0 <= i < |r| ==> c !in r[i]
  {
    if s == [] then [[]]
    else
      var rest := SplitOn(s[1..], c);
      if s[0] == c then [[]] + rest else [[s[0]] + rest[0]] + rest[1..]
  }

  /** `c.join(pieces)` for a one-character separator. */
  function Join(pieces: seq<string>, c: char): string {
    if |pieces| == 0 then []
    else if |pieces| == 1 then pieces[0]
    else pieces[0] + [c] + Join(pieces[1..], c)
  }

  /** Joining the pieces of a split gives back the text. */
  lemma {:induction false} JoinSplitOn(s: string, c: char)
    ensures Join(SplitOn(s, c), c) == s
  {
    if s != [] {
      var rest := SplitOn(s[1..], c);
      JoinSplitOn(s[1..], c);
      if s[0] == c {
        assert SplitOn(s, c) == [[]] + rest;
        assert ([[]] + rest)[1..] == rest;
      } else {
        var r := SplitOn(s, c);
        assert r == [[s[0]] + rest[0]] + rest[1..];
        if |rest| == 1 {
          assert Join(r, c) == [s[0]] + rest[0];
        } else {
          assert r[1..] == rest[1..];
          assert Join(r, c) == [s[0]] + (rest[0] + [c] + Join(rest[1..], c));
        }
      }
    }
  }

  /** Splitting at the first separator when the leading piece holds none. */
  lemma {:induction false} SplitOnAfterPiece(a: string, b: string, c: char)
    requires c !in a
    ensures SplitOn(a + [c] + b, c) == [a] + SplitOn(b, c)
  {
    if a == [] {
      assert [] + [c] + b == [c] + b;
      assert ([c] + b)[1..] == b;
    } else {
      assert (a + [c] + b)[1..] == a[1..] + [c] + b;
      SplitOnAfterPiece(a[1..], b, c);
      assert [a[0]] + a[1..] == a;
    }
  }

  /** A piece without the separator splits into itself. */
  lemma {:induction false} SplitOnWithout(a: string, c: char)
    requires c !in a
    ensures SplitOn(a, c) == [a]
  {
    if a != [] {
      SplitOnWithout(a[1..], c);
      assert [a[0]] + a[1..] == a;
    }
  }

  /** Splitting a join gives back the pieces, when none holds the separator. */
  lemma {:induction false} SplitOnJoin(pieces: seq<string>, c: char)
    requires |pieces| >= 1
    requires forall i :: 0 <= i < |pieces| ==> c !in pieces[i]
    ensures SplitOn(Join(pieces, c), c) == pieces
  {
    if |pieces| == 1 {
      SplitOnWithout(pieces[0], c);
    } else {
      SplitOnJoin(pieces[1..], c);
      SplitOnAfterPiece(pieces[0], Join(pieces[1..], c), c);
      assert [pieces[0]] + pieces[1..] == pieces;
    }
  }

  /** The first piece of a split is the longest prefix without the separator. */
  lemma {:induction false} SplitOnFirstPiece(s: string, c: char)
    ensures var p := SplitOn(s, c)[0]; p <= s && (|p| == |s| || s[|p|] == c)
  {
    if s != [] && s[0] != c {
      SplitOnFirstPiece(s[1..], c);
    }
  }

  /** Joining with one more piece at the end. */
  lemma {:induction false} JoinSnoc(pieces: seq<string>, x: string, c: char)
    requires |pieces| >= 1
    ensures Join(pieces + [x], c) == Join(pieces, c) + [c] + x
  {
    if |pieces| == 1 {
      assert (pieces + [x])[1..] == [x];
    } else {
      assert (pieces + [x])[1..] == pieces[1..] + [x];
      JoinSnoc(pieces[1..], x, c);
    }
  }

  // ------------------------------------------------------------------
  // Digits and decimal numerals

  /** `s.isdigit()`: non-empty and every character a digit. */
  predicate IsAllDigits(s: string) {
    |s| > 0 && forall k :: 0 <= k < |s| ==> IsDigit(s[k])
  }

  function DigitChar(d: nat): (c: char)
    requires d < 10
    ensures IsDigit(c)
  {
    ('0' as int + d) as char
  }

  function DigitValue(c: char): (d: nat)
    requires IsDigit(c)
    ensures d < 10 && DigitChar(d) == c
  {
    c as int - '0' as int
  }

  /** `int(s)` for a numeral of ASCII digits. */
  function DigitsValue(s: string): nat
    requires forall k :: 0 <= k < |s| ==> IsDigit(s[k])
  {
    if s == [] then 0 else DigitsValue(s[..|s| - 1]) * 10 + DigitValue(s[|s| - 1])
  }

  /** `str(n)`: the decimal numeral of `n`, without leading zeros. */
  function Decimal(n: nat): (r: string)
    ensures IsAllDigits(r)
    ensures r[0] == '0' ==> n == 0
  {
    if n < 10 then [DigitChar(n)] else Decimal(n / 10) + [DigitChar(n % 10)]
  }

  /** `int(str(n)) == n`. */
  lemma {:induction false} DecimalValue(n: nat)
    ensures DigitsValue(Decimal(n)) == n
  {
    if n >= 10 {
      DecimalValue(n / 10);
      var s := Decimal(n);
      assert s[..|s| - 1] == Decimal(n / 10);
    }
  }

  /** The number of occurrences of `c` in `s`. */
  function CountChar(s: string, c: char): nat {
    if s == [] then 0 else (if s[0] == c then 1 else 0) + CountChar(s[1..], c)
  }

  lemma {:induction false} CountCharConcat(a: string, b: string, c: char)
    ensures CountChar(a + b, c) == CountChar(a, c) + CountChar(b, c)
  {
    if a == [] {
      assert a + b == b;
    } else {
      assert (a + b)[0] == a[0] && (a + b)[1..] == a[1..] + b;
      CountCharConcat(a[1..], b, c);
    }
  }

  lemma {:induction false} CountCharAbsent(s: string, c: char)
    requires c !in s
    ensures CountChar(s, c) == 0
  {
    if s != [] {
      CountCharAbsent(s[1..], c);
    }
  }

  // ------------------------------------------------------------------
  // Character removal, case folding and ordering

  /** `s.replace(c, '')`. */
  function RemoveChar(s: string, c: char): (r: string)
    ensures forall x :: x in r <==> x in s && x != c
  {
    if s == [] then [] else (if s[0] == c then [] else [s[0]]) + RemoveChar(s[1..], c)
  }

  /** Removing a character that does not occur changes nothing. */
  lemma {:induction false} RemoveAbsentChar(s: string, c: char)
    requires c !in s
    ensures RemoveChar(s, c) == s
  {
    if s != [] {
      RemoveAbsentChar(s[1..], c);
      assert [s[0]] + s[1..] == s;
    }
  }

  /** Removal distributes over concatenation. */
  lemma {:induction false} RemoveCharConcat(a: string, b: string, c: char)
    ensures RemoveChar(a + b, c) == RemoveChar(a, c) + RemoveChar(b, c)
  {
    if a == [] {
      assert a + b == b;
    } else {
      var head := if a[0] == c then [] else [a[0]];
      assert (a + b)[0] == a[0] && (a + b)[1..] == a[1..] + b;
      RemoveCharConcat(a[1..], b, c);
      assert RemoveChar(a + b, c) == head + RemoveChar(a[1..] + b, c);
      assert RemoveChar(a, c) == head + RemoveChar(a[1..], c);
    }
  }

  /** `str.lower` on one ASCII character. */
  function LowerChar(c: char): char {
    if 'A' <= c <= 'Z' then (c as int + 32) as char else c
  }

  /** `s.lower()` with ASCII case folding. */
  function Lower(s: string): (r: string)
    ensures |r| == |s|
    ensures forall k :: 0 <= k < |s| ==> r[k] == LowerChar(s[k])
  {
    seq(|s|, k requires 0 <= k < |s| => LowerChar(s[k]))
  }

  /** Python's `a < b` on strings: the first differing character decides; a proper prefix is smaller. */
  predicate LexLess(a: string, b: string) {
    if a == [] then b != []
    else if b == [] then false
    else if a[0] != b[0] then a[0] < b[0]
    else LexLess(a[1..], b[1..])
  }

  lemma {:induction false} LexLessIrreflexive(a: string)
    ensures !LexLess(a, a)
  {
    if a != [] {
      LexLessIrreflexive(a[1..]);
    }
  }

  lemma {:induction false} LexLessTransitive(a: string, b: string, c: string)
    requires LexLess(a, b) && LexLess(b, c)
    ensures LexLess(a, c)
  {
    if a != [] && b != [] && c != [] && a[0] == b[0] && b[0] == c[0] {
      LexLessTransitive(a[1..], b[1..], c[1..]);
    }
  }

  /** Any two different strings are ordered one way or the other. */
  lemma {:induction false} LexLessTotal(a: string, b: string)
    ensures a == b || LexLess(a, b) || LexLess(b, a)
  {
    if a != [] && b != [] && a[0] == b[0] {
      LexLessTotal(a[1..], b[1..]);
      if a[1..] == b[1..] {
        assert a == [a[0]] + a[1..] && b == [b[0]] + b[1..];
      }
    }
  }

  lemma LexLessAsymmetric(a: string, b: string)
    requires LexLess(a, b)
    ensures !LexLess(b, a)
  {
    if LexLess(b, a) {
      LexLessTransitive(a, b, a);
      LexLessIrreflexive(a);
    }
  }
}
