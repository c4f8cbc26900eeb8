/** The pieces of Python's string type that the upload check relies on:
    splitting at every separator (app.py:39) and lower-casing. */
module Strings {

  /** The pieces put back together with one separator between neighbours;
      the inverse of `Split`. */
  function Join(parts: seq<string>, sep: char): string
    requires |parts| >= 1
    decreases |parts|
  {
    if |parts| == 1 then parts[0]
    else Join(parts[..|parts| - 1], sep) + [sep] + parts[|parts| - 1]
  }

  /** Python's right-to-left split with no limit (app.py:39): every
      occurrence of the separator cuts the string, a trailing separator leaves
      an empty last piece, and the empty string is one empty piece. Built from
      the right, as the source's split is. */
  function Split(s: string, sep: char): (parts: seq<string>)
    ensures |parts| >= 1
    ensures forall k :: 0 <= k < |parts| ==> sep !in parts[k]
    ensures Join(parts, sep) == s
    decreases |s|
  {
    if s == [] then [[]]
    else
      var init := Split(s[..|s| - 1], sep);
      var c := s[|s| - 1];
      if c == sep then init + [[]]
      else
        var parts := init[..|init| - 1] + [init[|init| - 1] + [c]];
        assert parts[..|parts| - 1] == init[..|init| - 1];
        assert s == s[..|s| - 1] + [c];
        parts
  }

  /** Appending one non-separator character lengthens the last piece. */
  lemma SplitAppendChar(u: string, c: char, sep: char)
    requires c != sep
    ensures var q := Split(u, sep);
            Split(u + [c], sep) == q[..|q| - 1] + [q[|q| - 1] + [c]]
  {
  }

  /** Appending text without a separator only lengthens the last piece. */
  lemma {:induction false} SplitAppendPlain(s: string, t: string, sep: char)
    requires sep !in t
    ensures var p := Split(s, sep);
            Split(s + t, sep) == p[..|p| - 1] + [p[|p| - 1] + t]
    decreases |t|
  {
    var p := Split(s, sep);
    if t == [] {
      assert s + t == s;
      assert p[|p| - 1] + t == p[|p| - 1];
      assert p == p[..|p| - 1] + [p[|p| - 1]];
    } else {
      var t' := t[..|t| - 1];
      var c := t[|t| - 1];
      assert c in t;
      assert t == t' + [c];
      assert s + t == (s + t') + [c];
      SplitAppendPlain(s, t', sep);
      SplitAppendChar(s + t', c, sep);
      var q := Split(s + t', sep);
      assert q[..|q| - 1] == p[..|p| - 1];
      assert q[|q| - 1] + [c] == p[|p| - 1] + t;
    }
  }

  /** Appending a separator starts a new, empty piece. */
  lemma SplitAppendSep(s: string, sep: char)
    ensures Split(s + [sep], sep) == Split(s, sep) + [[]]
  {
  }

  /** One more piece: splitting `j + sep + last` adds `last` to the pieces of
      `j`, when `last` has no separator. */
  lemma SplitJoinStep(j: string, last: string, sep: char)
    requires sep !in last
    ensures Split(j + [sep] + last, sep) == Split(j, sep) + [last]
  {
    SplitAppendSep(j, sep);
    SplitAppendPlain(j + [sep], last, sep);
    var q := Split(j + [sep], sep);
    assert q[..|q| - 1] == Split(j, sep);
    assert q[|q| - 1] + last == last;
  }

  /** A string without a separator is a single piece. */
  lemma SplitNoSep(t: string, sep: char)
    requires sep !in t
    ensures Split(t, sep) == [t]
  {
    SplitAppendPlain([], t, sep);
    assert [] + t == t;
  }

  /** Round trip: splitting a join of separator-free pieces gives the pieces back. */
  lemma {:induction false} SplitJoin(parts: seq<string>, sep: char)
    requires |parts| >= 1
    requires forall k :: 0 <= k < |parts| ==> sep !in parts[k]
    ensures Split(Join(parts, sep), sep) == parts
    decreases |parts|
  {
    if |parts| == 1 {
      SplitNoSep(parts[0], sep);
    } else {
      var init, last := parts[..|parts| - 1], parts[|parts| - 1];
      SplitJoin(init, sep);
      SplitJoinStep(Join(init, sep), last, sep);
      assert parts == init + [last];
    }
  }

  /** The final piece of the split (app.py:39): the text after the last
      separator, or all of `s` when there is none. */
  function LastSegment(s: string, sep: char): (r: string)
    ensures IsLastSegment(s, sep, r)
  {
    var parts := Split(s, sep);
    var r := parts[|parts| - 1];
    assert |parts| > 1 ==> s == Join(parts[..|parts| - 1], sep) + [sep] + r;
    r
  }

  /** `r` is a separator-free suffix of `s` that is either all of `s` or
      follows a separator: the longest separator-free suffix. */
  predicate IsLastSegment(s: string, sep: char, r: string)
  {
    |r| <= |s| && s[|s| - |r|..] == r && sep !in r &&
    (|r| == |s| || s[|s| - |r| - 1] == sep)
  }

  /** Only one string has the shape of `IsLastSegment`. */
  lemma LastSegmentUnique(s: string, sep: char, r: string)
    requires IsLastSegment(s, sep, r)
    ensures LastSegment(s, sep) == r
  {
  }

  /** Lower-casing one character: an ASCII capital becomes the matching small
      letter, every other character is kept. */
  function LowerChar(c: char): (r: char)
    ensures 'A' <= c <= 'Z' ==> 'a' <= r <= 'z' && r as int - c as int == 'a' as int - 'A' as int
    ensures !('A' <= c <= 'Z') ==> r == c
    ensures !('A' <= r <= 'Z')
  {
    if 'A' <= c <= 'Z' then (c as int - 'A' as int + 'a' as int) as char else c
  }

  /** Lower-casing a string, character by character; the length is kept. */
  function Lower(s: string): (r: string)
    ensures |r| == |s|
  {
    seq(|s|, i requires 0 <= i < |s| => LowerChar(s[i]))
  }

  /** Lower-casing leaves no ASCII capital, changes only ASCII capitals, and
      is idempotent. */
  lemma LowerEffect(s: string)
    ensures forall i :: 0 <= i < |s| ==> !('A' <= Lower(s)[i] <= 'Z')
    ensures forall i :: 0 <= i < |s| && !('A' <= s[i] <= 'Z') ==> Lower(s)[i] == s[i]
    ensures Lower(Lower(s)) == Lower(s)
  {
  }

  predicate EndsWith(s: string, suffix: string)
  {
    |suffix| <= |s| && s[|s| - |suffix|..] == suffix
  }
}
