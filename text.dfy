/** The handful of Python `str` operations the ingestion and retrieval code relies on:
    `in` (substring), `find`, `split(sep)`, `sep.join`, `strip()`, `lower()`,
    `replace(c, d)` with one-character arguments, and `str(int)`. Each follows
    CPython's behaviour on the inputs the code gives it, with two limits: `lower()`
    maps ASCII letters only, and `split` takes a non-empty separator (CPython
    raises `ValueError` for an empty one, which the code never passes). */
module Text {

  /** `c.isspace()`: the characters CPython treats as whitespace, which is what
      `strip()` removes. */
  predicate IsSpace(c: char) {
    if c <= ' ' then '\t' <= c <= '\r' || '\U{1C}' <= c
    else if c < '\U{2000}' then c == '\U{85}' || c == '\U{A0}' || c == '\U{1680}'
    else c <= '\U{200A}' || c == '\U{2028}' || c == '\U{2029}' || c == '\U{202F}' || c == '\U{205F}' || c == '\U{3000}'
  }

  /** Every character of `s` in positions `lo` to `hi - 1` is whitespace. */
  predicate SpaceBetween(s: string, lo: int, hi: int) {
    forall i :: lo <= i < hi && 0 <= i < |s| ==> IsSpace(s[i])
  }

  /** `t` occurs in `s` starting at position `i`. */
  predicate OccursAt(s: string, t: string, i: int) {
    0 <= i && i + |t| <= |s| && s[i..i + |t|] == t
  }

  /** Python's `t in s` for strings. */
  predicate Contains(s: string, t: string) {
    exists i :: 0 <= i <= |s| - |t| && OccursAt(s, t, i)
  }

  predicate Distinct<T(==)>(s: seq<T>) {
    forall i, j :: 0 <= i < j < |s| ==> s[i] != s[j]
  }

  // ---------------------------------------------------------------------------
  // Searching

  /** `s.find(t, from)`: the first occurrence of `t` at or after `from`, or -1. */
  function FindFrom(s: string, t: string, from: nat): (r: int)
    requires from <= |s|
    ensures r == -1 || (from <= r && OccursAt(s, t, r))
    ensures r == -1 ==> forall i :: from <= i ==> !OccursAt(s, t, i)
    ensures 0 <= r ==> forall i :: from <= i < r ==> !OccursAt(s, t, i)
    decreases |s| - from
  {
    if from + |t| > |s| then -1
    else if s[from..from + |t|] == t then from
    else FindFrom(s, t, from + 1)
  }

  /** `s.find(t)`. */
  function Find(s: string, t: string): (r: int)
    ensures r == -1 <==> !Contains(s, t)
    ensures 0 <= r ==> OccursAt(s, t, r) && forall i :: 0 <= i < r ==> !OccursAt(s, t, i)
  {
    FindFrom(s, t, 0)
  }

  /** `s.find(c)` for a single character `c`. */
  function FindChar(s: string, c: char): (r: int)
    ensures r == -1 <==> c !in s
    ensures 0 <= r ==> r < |s| && s[r] == c && forall i :: 0 <= i < r ==> s[i] != c
    decreases |s|
  {
    if s == [] then -1
    else if s[0] == c then 0
    else
      var r := FindChar(s[1..], c);
      if r < 0 then -1 else r + 1
  }

  lemma OccursInPrefix(s: string, t: string, n: nat, i: int)
    requires n <= |s| && OccursAt(s[..n], t, i)
    ensures OccursAt(s, t, i)
  {
    assert s[..n][i..i + |t|] == s[i..i + |t|];
  }

  // ---------------------------------------------------------------------------
  // split and join

  /** Python's `s.split(sep)` with an explicit, non-empty separator: occurrences
      are matched left to right without overlapping, and adjacent or outer
      separators give empty parts (`"".split(sep) == [""]`). */
  function Split(s: string, sep: string): (parts: seq<string>)
    requires |sep| > 0
    ensures |parts| >= 1
    ensures |parts| >= 2 <==> Contains(s, sep)
    decreases |s|
  {
    var i := Find(s, sep);
    if i < 0 then [s]
    else [s[..i]] + Split(s[i + |sep|..], sep)
  }

  /** Python's `sep.join(parts)`. */
  function Join(parts: seq<string>, sep: string): (s: string)
    ensures parts != [] ==> parts[0] <= s
    ensures |parts| == 1 ==> s == parts[0]
    decreases |parts|
  {
    if |parts| == 0 then ""
    else if |parts| == 1 then parts[0]
    else parts[0] + sep + Join(parts[1..], sep)
  }

  /** Joining the parts of a split with the same separator gives the string back. */
  lemma {:induction false} SplitJoin(s: string, sep: string)
    requires |sep| > 0
    ensures Join(Split(s, sep), sep) == s
    decreases |s|
  {
    var i := Find(s, sep);
    if 0 <= i {
      var rest := s[i + |sep|..];
      var parts := Split(s, sep);
      assert parts == [s[..i]] + Split(rest, sep);
      assert Join(parts, sep) == s[..i] + sep + Join(Split(rest, sep), sep) by {
        assert parts[1..] == Split(rest, sep);
      }
      SplitJoin(rest, sep);
      assert s == s[..i] + sep + rest by {
        assert s[i..i + |sep|] == sep;
        assert s == s[..i] + s[i..i + |sep|] + rest;
      }
    }
  }

  /** No part of a split contains the separator. */
  lemma {:induction false} SplitPartsAvoidSeparator(s: string, sep: string)
    requires |sep| > 0
    ensures forall k :: 0 <= k < |Split(s, sep)| ==> !Contains(Split(s, sep)[k], sep)
    decreases |s|
  {
    var i := Find(s, sep);
    if 0 <= i {
      var rest := s[i + |sep|..];
      SplitPartsAvoidSeparator(rest, sep);
      var parts := Split(s, sep);
      assert parts == [s[..i]] + Split(rest, sep);
      if Contains(s[..i], sep) {
        var j :| OccursAt(s[..i], sep, j);
        OccursInPrefix(s, sep, i, j);
        assert false;
      }
      forall k | 1 <= k < |parts| ensures !Contains(parts[k], sep) {
        assert parts[k] == Split(rest, sep)[k - 1];
      }
    }
  }

  /** A one-character string occurs exactly where its character stands. */
  lemma SingleCharOccurs(s: string, sep: string, j: int)
    requires |sep| == 1
    ensures OccursAt(s, sep, j) <==> 0 <= j < |s| && s[j] == sep[0]
  {
    if 0 <= j < |s| {
      assert s[j..j + 1] == [s[j]];
    }
  }

  /** With a one-character separator that no part contains, splitting a join
      gives the parts back; this is the other direction of `SplitJoin`. */
  lemma {:induction false} JoinSplit(parts: seq<string>, sep: string)
    requires |sep| == 1 && parts != []
    requires forall k :: 0 <= k < |parts| ==> sep[0] !in parts[k]
    ensures Split(Join(parts, sep), sep) == parts
    decreases |parts|
  {
    var s := Join(parts, sep);
    var p := parts[0];
    forall j | 0 <= j < |p| ensures !OccursAt(s, sep, j) {
      SingleCharOccurs(s, sep, j);
      assert s[j] == p[j];
    }
    if |parts| == 1 {
      forall j ensures !OccursAt(s, sep, j) {
        SingleCharOccurs(s, sep, j);
      }
    } else {
      var rest := parts[1..];
      assert s == p + sep + Join(rest, sep);
      SingleCharOccurs(s, sep, |p|);
      var i := Find(s, sep);
      assert i == |p|;
      assert s[i + 1..] == Join(rest, sep);
      assert s[..i] == p;
      JoinSplit(rest, sep);
    }
  }

  // ---------------------------------------------------------------------------
  // strip

  /** The position of the first non-whitespace character of `s` at or after `i`,
      or `|s|` when there is none. */
  function SkipSpaces(s: string, i: nat): (r: nat)
    requires i <= |s|
    ensures i <= r <= |s|
    decreases |s| - i
  {
    if i < |s| && IsSpace(s[i]) then SkipSpaces(s, i + 1) else i
  }

  /** The position just after the last non-whitespace character of `s` in
      positions `lo` to `j - 1`, or `lo` when there is none. */
  function SkipSpacesBack(s: string, lo: nat, j: nat): (r: nat)
    requires lo <= j <= |s|
    ensures lo <= r <= j
    decreases j
  {
    if lo < j && IsSpace(s[j - 1]) then SkipSpacesBack(s, lo, j - 1) else j
  }

  /** `SkipSpaces` passes over whitespace only and stops at a non-whitespace
      character or at the end. */
  lemma {:induction false} SkipSpacesStops(s: string, i: nat)
    requires i <= |s|
    ensures var r := SkipSpaces(s, i);
      SpaceBetween(s, i, r) && (r == |s| || !IsSpace(s[r]))
    decreases |s| - i
  {
    if i < |s| && IsSpace(s[i]) {
      SkipSpacesStops(s, i + 1);
    }
  }

  /** `SkipSpacesBack` passes over whitespace only and stops after a
      non-whitespace character or at `lo`. */
  lemma {:induction false} SkipSpacesBackStops(s: string, lo: nat, j: nat)
    requires lo <= j <= |s|
    ensures var r := SkipSpacesBack(s, lo, j);
      SpaceBetween(s, r, j) && (r == lo || !IsSpace(s[r - 1]))
    decreases j
  {
    if lo < j && IsSpace(s[j - 1]) {
      SkipSpacesBackStops(s, lo, j - 1);
    }
  }

  /** Python's `s.strip()`: leading and trailing whitespace removed. */
  function Strip(s: string): string {
    var lo := SkipSpaces(s, 0);
    s[lo..SkipSpacesBack(s, lo, |s|)]
  }

  /** `Strip(s)` is the infix of `s` between a run of whitespace at the start and
      a run of whitespace at the end, and neither starts nor ends with whitespace
      itself; so it is the longest such infix. */
  lemma StripIsTrimmedInfix(s: string)
    ensures exists lo, hi ::
      && 0 <= lo <= hi <= |s|
      && Strip(s) == s[lo..hi]
      && SpaceBetween(s, 0, lo)
      && SpaceBetween(s, hi, |s|)
    ensures var r := Strip(s); r == [] || (!IsSpace(r[0]) && !IsSpace(r[|r| - 1]))
  {
    var lo := SkipSpaces(s, 0);
    var hi := SkipSpacesBack(s, lo, |s|);
    SkipSpacesStops(s, 0);
    SkipSpacesBackStops(s, lo, |s|);
    assert Strip(s) == s[lo..hi];
  }

  // ---------------------------------------------------------------------------
  // lower and replace

  predicate IsAsciiUpper(c: char) {
    'A' <= c <= 'Z'
  }

  /** `c.lower()` restricted to ASCII: only `A`..`Z` change. */
  function LowerChar(c: char): (d: char)
    ensures !IsAsciiUpper(d)
    ensures d == c || (IsAsciiUpper(c) && d as int == c as int + 32)
  {
    if IsAsciiUpper(c) then (c as int + 32) as char else c
  }

  /** `s.lower()` for ASCII letters. */
  function Lower(s: string): (r: string)
    ensures |r| == |s|
    ensures forall i :: 0 <= i < |s| ==> r[i] == LowerChar(s[i])
    decreases |s|
  {
    if s == [] then [] else [LowerChar(s[0])] + Lower(s[1..])
  }

  /** Lower-casing twice is lower-casing once. */
  lemma LowerIdempotent(s: string)
    ensures Lower(Lower(s)) == Lower(s)
  {
  }

  /** `s.replace(c, d)` for single characters `c` and `d`. */
  function ReplaceChar(s: string, c: char, d: char): (r: string)
    ensures |r| == |s|
    ensures forall i :: 0 <= i < |s| ==> r[i] == if s[i] == c then d else s[i]
    decreases |s|
  {
    if s == [] then [] else [if s[0] == c then d else s[0]] + ReplaceChar(s[1..], c, d)
  }

  // ---------------------------------------------------------------------------
  // str(int)

  function DigitChar(d: nat): (c: char)
    requires d < 10
    ensures '0' <= c <= '9'
  {
    ('0' as int + d) as char
  }

  predicate IsDigit(c: char) {
    '0' <= c <= '9'
  }

  /** Python's `str(n)` for a natural number: decimal digits, no leading zero. */
  function NatToDecimal(n: nat): (s: string)
    ensures |s| >= 1
    ensures forall i :: 0 <= i < |s| ==> IsDigit(s[i])
    ensures s[0] == '0' ==> n == 0
    decreases n
  {
    if n < 10 then [DigitChar(n)] else NatToDecimal(n / 10) + [DigitChar(n % 10)]
  }

  /** Python's `str(i)` (and an f-string's `{i}`) for any integer. */
  function IntToDecimal(i: int): string {
    if i < 0 then "-" + NatToDecimal(-i) else NatToDecimal(i)
  }

  /** The value of a string of decimal digits (Python's `int(s)` on such a string). */
  function DecimalValue(s: string): nat
    requires forall i :: 0 <= i < |s| ==> IsDigit(s[i])
    decreases |s|
  {
    if s == [] then 0
    else
      var d := s[|s| - 1];
      assert IsDigit(d);
      DecimalValue(s[..|s| - 1]) * 10 + (d as int - '0' as int)
  }

  /** Printing a natural number in decimal and reading it back gives the number. */
  lemma {:induction false} DecimalRoundTrip(n: nat)
    ensures DecimalValue(NatToDecimal(n)) == n
    decreases n
  {
    if n >= 10 {
      DecimalRoundTrip(n / 10);
      var s := NatToDecimal(n);
      assert s[..|s| - 1] == NatToDecimal(n / 10);
    }
  }
}
