/**
 * The few Python `str` operations the crawler relies on: `split` on a
 * one-character separator, `strip`, `lstrip`, `rstrip` with a set of
 * characters, and `find` / `rfind` for one character.
 */
module Text {

  /** The characters Python's argument-less `str.strip()` removes (`str.isspace`). */
  const Whitespace: set<char> := {
    ' ', '\t', '\n', '\r', '\U{0B}', '\U{0C}', '\U{1C}', '\U{1D}', '\U{1E}', '\U{1F}',
    '\U{85}', '\U{A0}', '\U{1680}', '\U{2000}', '\U{2001}', '\U{2002}', '\U{2003}',
    '\U{2004}', '\U{2005}', '\U{2006}', '\U{2007}', '\U{2008}', '\U{2009}', '\U{200A}',
    '\U{2028}', '\U{2029}', '\U{202F}', '\U{205F}', '\U{3000}'
  }

  /** The inverse of `Split`: the pieces with one separator between neighbours. */
  function Join(parts: seq<string>, sep: char): string
    requires |parts| >= 1
  {
    if |parts| == 1 then parts[0] else parts[0] + [sep] + Join(parts[1..], sep)
  }

  /** `s.split(sep)`: the maximal separator-free pieces of `s`, in order. */
  function Split(s: string, sep: char): (r: seq<string>)
    ensures |r| >= 1
    ensures Join(r, sep) == s
    ensures forall k :: 0 <= k < |r| ==> sep !in r[k]
  {
    if |s| == 0 then [""]
    else
      var rest := Split(s[1..], sep);
      if s[0] == sep then [""] + rest
      else
        assert Join([[s[0]] + rest[0]] + rest[1..], sep) == [s[0]] + Join(rest, sep) by {
          if |rest| > 1 {
            assert ([[s[0]] + rest[0]] + rest[1..])[1..] == rest[1..];
          }
        }
        [[s[0]] + rest[0]] + rest[1..]
  }

  /** The first piece is the text before the first separator, or all of `s` when there is none. */
  lemma SplitFirst(s: string, sep: char)
    ensures var h := Split(s, sep)[0];
      h <= s && (|h| == |s| || s[|h|] == sep) && sep !in h
  {
    var r := Split(s, sep);
    if |r| > 1 {
      assert s == r[0] + [sep] + Join(r[1..], sep);
      assert s[|r[0]|] == sep;
    }
  }

  /** Splitting undoes joining when no piece contains the separator. */
  lemma {:induction false} SplitJoin(parts: seq<string>, sep: char)
    requires |parts| >= 1
    requires forall k :: 0 <= k < |parts| ==> sep !in parts[k]
    ensures Split(Join(parts, sep), sep) == parts
  {
    if |parts| == 1 {
      SplitFree(parts[0], sep);
    } else {
      SplitJoin(parts[1..], sep);
      SplitPrefix(parts[0], Join(parts[1..], sep), sep);
      assert [parts[0]] + parts[1..] == parts;
    }
  }

  /** A string without the separator splits into itself. */
  lemma {:induction false} SplitFree(s: string, sep: char)
    requires sep !in s
    ensures Split(s, sep) == [s]
  {
    if |s| > 0 {
      SplitFree(s[1..], sep);
      assert [s[0]] + s[1..] == s;
    }
  }

  /** A separator-free head followed by the separator becomes the first piece. */
  lemma {:induction false} SplitPrefix(head: string, tail: string, sep: char)
    requires sep !in head
    ensures Split(head + [sep] + tail, sep) == [head] + Split(tail, sep)
  {
    if |head| == 0 {
      assert head + [sep] + tail == [sep] + tail;
      assert ([sep] + tail)[1..] == tail;
    } else {
      var s := head + [sep] + tail;
      assert s[1..] == head[1..] + [sep] + tail;
      SplitPrefix(head[1..], tail, sep);
      assert [head[0]] + head[1..] == head;
    }
  }

  /** Two separator-free pieces around one separator split back into those two pieces. */
  lemma SplitTwo(a: string, b: string, sep: char)
    requires sep !in a && sep !in b
    ensures Split(a + [sep] + b, sep) == [a, b]
  {
    SplitPrefix(a, b, sep);
    SplitFree(b, sep);
  }

  /** Each separator adds one piece: `len(s.split(c)) == s.count(c) + 1`. */
  lemma {:induction false} SplitCount(s: string, sep: char)
    ensures |Split(s, sep)| == multiset(s)[sep] + 1
  {
    if |s| > 0 {
      SplitCount(s[1..], sep);
      assert s == [s[0]] + s[1..];
      assert multiset(s) == multiset([s[0]]) + multiset(s[1..]);
    }
  }

  /** `s.lstrip(cs)`: drop the longest prefix made of characters in `cs`. */
  function LStripChars(s: string, cs: set<char>): (r: string)
    ensures |r| <= |s| && r == s[|s| - |r|..]
    ensures forall k :: 0 <= k < |s| - |r| ==> s[k] in cs
    ensures r != [] ==> r[0] !in cs
  {
    if |s| > 0 && s[0] in cs then LStripChars(s[1..], cs) else s
  }

  /** `s.rstrip(cs)`: drop the longest suffix made of characters in `cs`. */
  function RStripChars(s: string, cs: set<char>): (r: string)
    ensures |r| <= |s| && r == s[..|r|]
    ensures forall k :: |r| <= k < |s| ==> s[k] in cs
    ensures r != [] ==> r[|r| - 1] !in cs
  {
    if |s| > 0 && s[|s| - 1] in cs then RStripChars(s[..|s| - 1], cs) else s
  }

  /** How many leading characters `s.lstrip(cs)` removes. */
  function LeadLength(s: string, cs: set<char>): nat {
    |s| - |LStripChars(s, cs)|
  }

  /**
   * `s.strip(cs)`: what is kept is the slice of `s` starting after the
   * stripped prefix, and everything outside it is in `cs`; the kept slice
   * begins and ends with characters outside `cs` (it is maximal).
   */
  function StripChars(s: string, cs: set<char>): (r: string)
    ensures LeadLength(s, cs) + |r| <= |s|
    ensures r == s[LeadLength(s, cs)..LeadLength(s, cs) + |r|]
    ensures forall k :: 0 <= k < LeadLength(s, cs) ==> s[k] in cs
    ensures forall k :: LeadLength(s, cs) + |r| <= k < |s| ==> s[k] in cs
    ensures r != [] ==> r[0] !in cs && r[|r| - 1] !in cs
  {
    StripSlice(s, LStripChars(s, cs), cs);
    RStripChars(LStripChars(s, cs), cs)
  }

  /** The right strip of the suffix `l == s[i..]` is a slice of `s` followed by characters of `cs`. */
  lemma StripSlice(s: string, l: string, cs: set<char>)
    requires |l| <= |s| && l == s[|s| - |l|..]
    ensures var r, i := RStripChars(l, cs), |s| - |l|;
      && r == s[i..i + |r|]
      && forall k :: i + |r| <= k < |s| ==> s[k] in cs
  {
    var r, i := RStripChars(l, cs), |s| - |l|;
    assert r == l[..|r|];
    forall k | i + |r| <= k < |s| ensures s[k] in cs { assert s[k] == l[k - i]; }
  }

  /** `s.lstrip(a).rstrip(b)` is a slice of `s` with only characters of `a` before it and of `b` after it. */
  lemma StripBoth(s: string, a: set<char>, b: set<char>)
    ensures var r, i := RStripChars(LStripChars(s, a), b), LeadLength(s, a);
      && i + |r| <= |s| && r == s[i..i + |r|]
      && (forall k :: 0 <= k < i ==> s[k] in a)
      && (forall k :: i + |r| <= k < |s| ==> s[k] in b)
      && (r != [] ==> r[0] !in a && r[|r| - 1] !in b)
  {
    var l := LStripChars(s, a);
    StripSlice(s, l, b);
    var r := RStripChars(l, b);
    assert r != [] ==> r[0] == l[0];
  }

  /** `s.strip()`. */
  function Strip(s: string): string {
    StripChars(s, Whitespace)
  }

  /** Every character of `s` is either stripped (so in `cs`) or kept. */
  lemma StripCharsMembers(s: string, cs: set<char>)
    ensures forall c :: c in s ==> c in cs || c in StripChars(s, cs)
  {
    var r := StripChars(s, cs);
    var i := LeadLength(s, cs);
    forall c | c in s ensures c in cs || c in r {
      var k :| 0 <= k < |s| && s[k] == c;
      if i <= k < i + |r| {
        assert r[k - i] == c;
      }
    }
  }

  /**
   * The first index at or after `start` holding a character of `cs`, or -1:
   * `s.find(c, start)` when `cs == {c}`, and the least of several such finds otherwise.
   */
  function FindAny(s: string, cs: set<char>, start: nat): (r: int)
    ensures r == -1 || (start <= r < |s| && s[r] in cs)
    ensures forall k :: start <= k < |s| && (r == -1 || k < r) ==> s[k] !in cs
    decreases |s| - start
  {
    if start >= |s| then -1
    else if s[start] in cs then start
    else FindAny(s, cs, start + 1)
  }

  /** Searching a concatenation finds the hit in the left part, else the first hit in the right part. */
  lemma {:induction false} FindAnyAppend(a: string, b: string, cs: set<char>, start: nat)
    requires start <= |a|
    ensures FindAny(a + b, cs, start) ==
      if FindAny(a, cs, start) >= 0 then FindAny(a, cs, start)
      else if FindAny(b, cs, 0) >= 0 then |a| + FindAny(b, cs, 0)
      else -1
    decreases |a| - start
  {
    if start < |a| {
      assert (a + b)[start] == a[start];
      if a[start] !in cs {
        FindAnyAppend(a, b, cs, start + 1);
      }
    } else {
      FindAnyShift(a, b, cs, 0);
    }
  }

  /** Searching `a + b` from inside `b` is searching `b`, shifted by `|a|`. */
  lemma {:induction false} FindAnyShift(a: string, b: string, cs: set<char>, j: nat)
    requires j <= |b|
    ensures FindAny(a + b, cs, |a| + j) ==
      if FindAny(b, cs, j) >= 0 then |a| + FindAny(b, cs, j) else -1
    decreases |b| - j
  {
    if j < |b| {
      assert (a + b)[|a| + j] == b[j];
      if b[j] !in cs {
        FindAnyShift(a, b, cs, j + 1);
      }
    }
  }

  /** `s.rfind(c)`: the last index holding `c`, or -1. */
  function RFind(s: string, c: char): (r: int)
    ensures -1 <= r < |s|
    ensures r >= 0 ==> s[r] == c
    ensures forall k :: r < k < |s| ==> s[k] != c
  {
    if |s| == 0 then -1
    else if s[|s| - 1] == c then |s| - 1
    else RFind(s[..|s| - 1], c)
  }
}
