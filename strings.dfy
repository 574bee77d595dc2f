/** The few `str` operations the certificate code relies on, on `seq<char>`. */
module Strings {
  import opened Wrappers

  predicate StartsWith(s: string, prefix: string) {
    |prefix| <= |s| && s[..|prefix|] == prefix
  }

  predicate EndsWith(s: string, suffix: string) {
    |suffix| <= |s| && s[|s| - |suffix|..] == suffix
  }

  /** The index of the last `c` in `s` (Python's `s.rfind(c)`), or None when `c` does not occur. */
  function LastIndexOf(s: string, c: char): (r: Option<nat>)
    ensures r.Some? ==> r.value < |s| && s[r.value] == c
    ensures r.Some? ==> forall j :: r.value < j < |s| ==> s[j] != c
    ensures r.None? ==> forall j :: 0 <= j < |s| ==> s[j] != c
    decreases |s|
  {
    if s == [] then None
    else if s[|s| - 1] == c then Some(|s| - 1)
    else LastIndexOf(s[..|s| - 1], c)
  }

  /** The text after the last `c`, that is `s.rsplit(c, 1)[1]`; None when `c` does not
      occur, where Python's `rsplit` gives a single piece. */
  function AfterLast(s: string, c: char): (r: Option<string>)
    ensures r.None? <==> c !in s
    ensures r.Some? ==> |r.value| < |s| && s[|s| - |r.value| - 1] == c && r.value == s[|s| - |r.value|..]
    ensures r.Some? ==> c !in r.value
  {
    match LastIndexOf(s, c)
    case None => None
    case Some(i) => Some(s[i + 1..])
  }

  /** The piece after the last separator is the text after a separator that is followed by none. */
  lemma AfterLastOfSuffix(head: string, c: char, tail: string)
    requires c !in tail
    ensures AfterLast(head + [c] + tail, c) == Some(tail)
  {
    var s := head + [c] + tail;
    assert s[|head|] == c;
    var r := AfterLast(s, c);
    assert r.Some?;
    assert |r.value| == |tail|;
    assert r.value == s[|s| - |tail|..] == tail;
  }

  /** Python's `str.lower()` on one character, for the ASCII letters. */
  function LowerChar(ch: char): char {
    if 'A' <= ch <= 'Z' then (ch as int + 32) as char else ch
  }

  /** `s.lower()` for ASCII text. */
  function AsciiLower(s: string): (r: string)
    ensures |r| == |s|
    ensures forall i :: 0 <= i < |s| ==> r[i] == LowerChar(s[i])
  {
    seq(|s|, i requires 0 <= i < |s| => LowerChar(s[i]))
  }

  predicate HasNoUpper(s: string) {
    forall i :: 0 <= i < |s| ==> !('A' <= s[i] <= 'Z')
  }

  /** Lowering leaves no upper-case letter, leaves text without one unchanged, and so lowering
      twice is lowering once. */
  lemma AsciiLowerIsLowerCase(s: string)
    ensures HasNoUpper(AsciiLower(s))
    ensures HasNoUpper(s) ==> AsciiLower(s) == s
    ensures AsciiLower(AsciiLower(s)) == AsciiLower(s)
  {
    var r := AsciiLower(s);
    forall i | 0 <= i < |r| ensures !('A' <= r[i] <= 'Z') {
      assert r[i] == LowerChar(s[i]);
    }
    if HasNoUpper(s) {
      assert forall i :: 0 <= i < |s| ==> r[i] == s[i];
    }
    var rr := AsciiLower(r);
    assert forall i :: 0 <= i < |r| ==> rr[i] == r[i];
  }

  /** Python's `t in s` for strings: `t` occurs in `s` as a contiguous piece. */
  predicate Contains(s: string, t: string) {
    exists k :: 0 <= k <= |s| && StartsWith(s[k..], t)
  }

  lemma ContainsMiddle(a: string, t: string, b: string)
    ensures Contains(a + t + b, t)
  {
    var s := a + t + b;
    assert s[|a|..] == t + b;
    assert StartsWith(s[|a|..], t);
  }

  /** Python's `sep.join(parts)` for a non-empty list of parts. */
  function Join(parts: seq<string>, sep: char): string
    requires |parts| >= 1
  {
    if |parts| == 1 then parts[0] else parts[0] + [sep] + Join(parts[1..], sep)
  }

  lemma {:induction false} JoinStartsWithFirst(parts: seq<string>, sep: char)
    requires |parts| >= 1
    ensures StartsWith(Join(parts, sep), parts[0])
  {
    if |parts| > 1 {
      var j := Join(parts, sep);
      assert j == parts[0] + ([sep] + Join(parts[1..], sep));
    }
  }

  lemma {:induction false} JoinEndsWithLast(parts: seq<string>, sep: char)
    requires |parts| >= 1
    ensures EndsWith(Join(parts, sep), parts[|parts| - 1])
  {
    if |parts| > 1 {
      JoinEndsWithLast(parts[1..], sep);
      var rest := Join(parts[1..], sep);
      var last := parts[|parts| - 1];
      var j := Join(parts, sep);
      assert j == (parts[0] + [sep]) + rest;
      assert j[|j| - |last|..] == rest[|rest| - |last|..];
    }
  }

  lemma ContainsInSuffix(a: string, s: string, t: string)
    requires Contains(s, t)
    ensures Contains(a + s, t)
  {
    var k :| 0 <= k <= |s| && StartsWith(s[k..], t);
    assert (a + s)[|a| + k..] == s[k..];
  }

  /** Every part of a join other than the first and the last stands between two separators. */
  lemma {:induction false} JoinContainsInner(parts: seq<string>, sep: char, k: nat)
    requires 0 < k < |parts| - 1
    ensures Contains(Join(parts, sep), [sep] + parts[k] + [sep])
  {
    var rest := Join(parts[2..], sep);
    assert Join(parts[1..], sep) == parts[1] + [sep] + rest by {
      assert parts[1..][1..] == parts[2..];
    }
    if k == 1 {
      assert Join(parts, sep) == parts[0] + ([sep] + parts[1] + [sep]) + rest;
      ContainsMiddle(parts[0], [sep] + parts[1] + [sep], rest);
    } else {
      JoinContainsInner(parts[1..], sep, k - 1);
      assert parts[1..][k - 1] == parts[k];
      assert Join(parts, sep) == (parts[0] + [sep]) + Join(parts[1..], sep);
      ContainsInSuffix(parts[0] + [sep], Join(parts[1..], sep), [sep] + parts[k] + [sep]);
    }
  }

  /** Python's `s.split(sep)`: the pieces between separators, at least one. */
  function Split(s: string, sep: char): (r: seq<string>)
    ensures |r| >= 1
    ensures |r| == 1 <==> sep !in s
  {
    if s == [] then [""]
    else
      var rest := Split(s[1..], sep);
      if s[0] == sep then [""] + rest
      else [[s[0]] + rest[0]] + rest[1..]
  }

  lemma {:induction false} SplitWithoutSeparator(a: string, sep: char)
    requires sep !in a
    ensures Split(a, sep) == [a]
  {
    if a != [] {
      SplitWithoutSeparator(a[1..], sep);
      assert [a[0]] + a[1..] == a;
    }
  }

  lemma {:induction false} SplitAtFirstSeparator(a: string, sep: char, b: string)
    requires sep !in a
    ensures Split(a + [sep] + b, sep) == [a] + Split(b, sep)
  {
    var s := a + [sep] + b;
    if a == [] {
      assert s[0] == sep && s[1..] == b;
    } else {
      assert s[0] == a[0] != sep;
      assert s[1..] == a[1..] + [sep] + b;
      SplitAtFirstSeparator(a[1..], sep, b);
      var rest := Split(s[1..], sep);
      assert rest[0] == a[1..] && rest[1..] == Split(b, sep);
      assert [a[0]] + a[1..] == a;
    }
  }

  /** Splitting a joined list gives the list back when no part holds the separator. */
  lemma {:induction false} SplitJoin(parts: seq<string>, sep: char)
    requires |parts| >= 1
    requires forall k :: 0 <= k < |parts| ==> sep !in parts[k]
    ensures Split(Join(parts, sep), sep) == parts
  {
    if |parts| == 1 {
      SplitWithoutSeparator(parts[0], sep);
    } else {
      SplitJoin(parts[1..], sep);
      SplitAtFirstSeparator(parts[0], sep, Join(parts[1..], sep));
      assert [parts[0]] + parts[1..] == parts;
    }
  }
}
