/**
 * The parts of JavaScript's string library that the file dialog relies on:
 * `String.prototype.split` with a one-character separator, its inverse
 * `Array.prototype.join`, and `toLowerCase` on the ASCII letters.
 */
module JsText {

  /**
   * `e` is the text after the last `sep` of `s`: a suffix of `s` holding no
   * `sep` that is either the whole of `s` or preceded by a `sep`.
   */
  ghost predicate IsLastSegment(s: string, e: string, sep: char)
  {
    && |e| <= |s|
    && s[|s| - |e|..] == e
    && sep !in e
    && (|e| == |s| || s[|s| - |e| - 1] == sep)
  }

  /** At most one string is the text after the last `sep`. */
  lemma LastSegmentUnique(s: string, e1: string, e2: string, sep: char)
    requires IsLastSegment(s, e1, sep) && IsLastSegment(s, e2, sep)
    ensures e1 == e2
  {
  }

  /** What follows the last separator of `t` also follows the last separator of `a + sep + t`. */
  lemma LastSegmentAfterSeparator(a: string, t: string, e: string, sep: char)
    requires IsLastSegment(t, e, sep)
    ensures IsLastSegment(a + [sep] + t, e, sep)
  {
    var s := a + [sep] + t;
    assert s[|s| - |t|..] == t;
    assert s[|s| - |e|..] == t[|t| - |e|..];
    if |e| < |t| {
      assert s[|s| - |e| - 1] == t[|t| - |e| - 1];
    }
  }

  /** `parts.join(sep)`. */
  function Join(parts: seq<string>, sep: char): string
    requires |parts| >= 1
    decreases |parts|
  {
    if |parts| == 1 then parts[0] else parts[0] + [sep] + Join(parts[1..], sep)
  }

  /**
   * What `split` promises of `parts` for the string `s`: never empty, no
   * part holds the separator, joining the parts gives `s` back, and the last
   * part (what `pop()` returns) is the text after the last `sep`.
   */
  ghost predicate IsSplit(s: string, parts: seq<string>, sep: char)
  {
    && |parts| >= 1
    && (forall k :: 0 <= k < |parts| ==> sep !in parts[k])
    && Join(parts, sep) == s
    && IsLastSegment(s, parts[|parts| - 1], sep)
  }

  /** `s.split(sep)`; the empty string splits into one empty part. */
  function Split(s: string, sep: char): (parts: seq<string>)
    ensures IsSplit(s, parts, sep)
    decreases |s|
  {
    if s == [] then [[]]
    else
      var rest := Split(s[1..], sep);
      if s[0] == sep then
        SplitAtSeparator(s, rest, sep);
        [[]] + rest
      else
        SplitAtOtherChar(s, rest, sep);
        [[s[0]] + rest[0]] + rest[1..]
  }

  /** A leading separator closes an empty first part. */
  lemma SplitAtSeparator(s: string, rest: seq<string>, sep: char)
    requires s != [] && s[0] == sep
    requires IsSplit(s[1..], rest, sep)
    ensures IsSplit(s, [[]] + rest, sep)
  {
    var parts := [[]] + rest;
    assert parts[1..] == rest;
    assert s == [sep] + s[1..];
  }

  /** Any other leading character joins the first part. */
  lemma SplitAtOtherChar(s: string, rest: seq<string>, sep: char)
    requires s != [] && s[0] != sep
    requires IsSplit(s[1..], rest, sep)
    ensures IsSplit(s, [[s[0]] + rest[0]] + rest[1..], sep)
  {
    var parts := [[s[0]] + rest[0]] + rest[1..];
    assert s == [s[0]] + s[1..];
    if |rest| == 1 {
      assert rest[0] == s[1..];
      assert parts == [s];
    } else {
      assert Join(rest, sep) == rest[0] + [sep] + Join(rest[1..], sep);
      assert parts[1..] == rest[1..];
      assert Join(parts, sep) == [s[0]] + rest[0] + [sep] + Join(rest[1..], sep);
      assert s[1..][|rest[0]|] == sep;
      var e := rest[|rest| - 1];
      assert parts[|parts| - 1] == e;
      assert |e| < |s| - 1;
    }
  }

  /** A string without the separator is not split. */
  lemma {:induction false} SplitWithoutSeparator(s: string, sep: char)
    requires sep !in s
    ensures Split(s, sep) == [s]
    decreases |s|
  {
    if s != [] {
      SplitWithoutSeparator(s[1..], sep);
      assert [s[0]] + s[1..] == s;
    }
  }

  /** Splitting `a + sep + t`, where `a` holds no separator, gives `a` followed by the parts of `t`. */
  lemma {:induction false} SplitAfterPlainText(a: string, t: string, sep: char)
    requires sep !in a
    ensures Split(a + [sep] + t, sep) == [a] + Split(t, sep)
    decreases |a|
  {
    var s := a + [sep] + t;
    if a == [] {
      assert s[0] == sep && s[1..] == t;
    } else {
      assert s[0] == a[0] != sep;
      assert s[1..] == a[1..] + [sep] + t;
      var rest := Split(s[1..], sep);
      assert rest == [a[1..]] + Split(t, sep) by {
        SplitAfterPlainText(a[1..], t, sep);
      }
      assert Split(s, sep) == [[s[0]] + rest[0]] + rest[1..];
      assert [s[0]] + rest[0] == a;
    }
  }

  /** `split` undoes `join` when no part holds the separator. */
  lemma {:induction false} SplitJoin(parts: seq<string>, sep: char)
    requires |parts| >= 1
    requires forall k :: 0 <= k < |parts| ==> sep !in parts[k]
    ensures Split(Join(parts, sep), sep) == parts
    decreases |parts|
  {
    if |parts| == 1 {
      SplitWithoutSeparator(parts[0], sep);
    } else {
      SplitJoin(parts[1..], sep);
      SplitAfterPlainText(parts[0], Join(parts[1..], sep), sep);
      assert [parts[0]] + parts[1..] == parts;
    }
  }

  /** `toLowerCase` on one character: an ASCII capital becomes its small letter, nothing else changes. */
  function LowerChar(c: char): (d: char)
    ensures !('A' <= d <= 'Z')
    ensures d != c ==> 'A' <= c <= 'Z' && 'a' <= d <= 'z'
    ensures 'A' <= c <= 'Z' ==> d as int - 'a' as int == c as int - 'A' as int
  {
    if 'A' <= c <= 'Z' then (c as int - 'A' as int + 'a' as int) as char else c
  }

  /** `toLowerCase` on a string, character by character. */
  function Lower(s: string): (r: string)
    ensures |r| == |s|
    ensures forall k :: 0 <= k < |s| ==> r[k] == LowerChar(s[k])
  {
    seq(|s|, k requires 0 <= k < |s| => LowerChar(s[k]))
  }

  /** Lowering commutes with taking a suffix. */
  lemma LowerSuffix(s: string, k: nat)
    requires k <= |s|
    ensures Lower(s)[k..] == Lower(s[k..])
  {
  }

  /** Lowering a string that lacks a non-letter keeps it lacking. */
  lemma LowerKeepsAbsence(e: string, sep: char)
    requires sep !in e
    requires !('A' <= sep <= 'Z') && !('a' <= sep <= 'z')
    ensures sep !in Lower(e)
  {
    var le := Lower(e);
    forall k | 0 <= k < |e| ensures le[k] != sep {
      assert e[k] != sep;
    }
  }

  /** Lowering a string lowers the text after its last separator, when the separator is not a letter. */
  lemma LowerKeepsLastSegment(s: string, e: string, sep: char)
    requires IsLastSegment(s, e, sep)
    requires !('A' <= sep <= 'Z') && !('a' <= sep <= 'z')
    ensures IsLastSegment(Lower(s), Lower(e), sep)
  {
    var start := |s| - |e|;
    assert Lower(s)[start..] == Lower(e) by {
      LowerSuffix(s, start);
    }
    LowerKeepsAbsence(e, sep);
    if start > 0 {
      assert Lower(s)[start - 1] == LowerChar(sep) == sep;
    }
  }
}
