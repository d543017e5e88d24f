/** The JavaScript string operations the three tools use on file names,
    MIME types and recognised text, on strings as sequences of characters.
    `indexOf` and `lastIndexOf` answer -1 when the character is absent,
    `substring` clamps its bounds into the string and swaps them when they
    are out of order, and `split` on a one-character separator always
    yields at least one part. */
module JsString {

  /** `s.indexOf(c)`: the first position of `c`, or -1. */
  function IndexOf(s: string, c: char): (r: int)
    ensures -1 <= r < |s|
    ensures r == -1 ==> forall j :: 0 <= j < |s| ==> s[j] != c
    ensures 0 <= r ==> s[r] == c && forall j :: 0 <= j < r ==> s[j] != c
  {
    IndexFrom(s, c, 0)
  }

  /** The first position at or after `from` holding `c`, or -1. */
  function IndexFrom(s: string, c: char, from: nat): (r: int)
    requires from <= |s|
    ensures r == -1 || from <= r < |s|
    ensures r == -1 ==> forall j :: from <= j < |s| ==> s[j] != c
    ensures 0 <= r ==> s[r] == c && forall j :: from <= j < r ==> s[j] != c
    decreases |s| - from
  {
    if from == |s| then -1
    else if s[from] == c then from
    else IndexFrom(s, c, from + 1)
  }

  /** `s.lastIndexOf(c)`: the last position of `c`, or -1. */
  function LastIndexOf(s: string, c: char): (r: int)
    ensures -1 <= r < |s|
    ensures r == -1 ==> forall j :: 0 <= j < |s| ==> s[j] != c
    ensures 0 <= r ==> s[r] == c && forall j :: r < j < |s| ==> s[j] != c
  {
    LastIndexBefore(s, c, |s|)
  }

  /** The last position before `end` holding `c`, or -1. */
  function LastIndexBefore(s: string, c: char, end: nat): (r: int)
    requires end <= |s|
    ensures -1 <= r < end
    ensures r == -1 ==> forall j :: 0 <= j < end ==> s[j] != c
    ensures 0 <= r ==> s[r] == c && forall j :: r < j < end ==> s[j] != c
  {
    if end == 0 then -1
    else if s[end - 1] == c then end - 1
    else LastIndexBefore(s, c, end - 1)
  }

  /** An occurrence with none before it is the one `indexOf` finds. */
  lemma IndexOfFirst(s: string, c: char, k: nat)
    requires k < |s| && s[k] == c
    requires forall j :: 0 <= j < k ==> s[j] != c
    ensures IndexOf(s, c) == k
  {
  }

  /** An occurrence with none after it is the one `lastIndexOf` finds. */
  lemma LastIndexOfLast(s: string, c: char, k: nat)
    requires k < |s| && s[k] == c
    requires forall j :: k < j < |s| ==> s[j] != c
    ensures LastIndexOf(s, c) == k
  {
  }

  function Clamp(i: int, n: nat): (r: nat)
    ensures r <= n
  {
    if i < 0 then 0 else if i > n then n else i
  }

  /** `s.substring(start, end)`: bounds are clamped into [0, |s|] and
      swapped when start exceeds end. */
  function Substring(s: string, start: int, end: int): (r: string)
    ensures 0 <= start <= end <= |s| ==> r == s[start..end]
    ensures end <= 0 && start <= 0 ==> r == []
    ensures r <= s[if start <= end then Clamp(start, |s|) else Clamp(end, |s|)..]
  {
    var a, b := Clamp(start, |s|), Clamp(end, |s|);
    if a <= b then s[a..b] else s[b..a]
  }

  /** `s.split(sep)` for a one-character separator. */
  function Split(s: string, sep: char): (parts: seq<string>)
    ensures |parts| >= 1
    decreases |s|
  {
    var i := IndexOf(s, sep);
    if i == -1 then [s] else [s[..i]] + Split(s[i + 1..], sep)
  }

  /** `parts.join(sep)` for a one-character separator. */
  function Join(parts: seq<string>, sep: char): (r: string)
    ensures |parts| == 1 ==> r == parts[0]
  {
    if |parts| == 0 then []
    else if |parts| == 1 then parts[0]
    else parts[0] + [sep] + Join(parts[1..], sep)
  }

  /** The last element of a non-empty sequence (`Array.prototype.pop`'s result). */
  function Last<T>(xs: seq<T>): T
    requires |xs| > 0
  {
    xs[|xs| - 1]
  }

  /** How often `c` occurs in `s`. */
  function Occurrences(s: string, c: char): nat
  {
    if s == [] then 0 else (if s[0] == c then 1 else 0) + Occurrences(s[1..], c)
  }

  /** Occurrences add up over a concatenation. */
  lemma {:induction false} OccurrencesAppend(a: string, b: string, c: char)
    ensures Occurrences(a + b, c) == Occurrences(a, c) + Occurrences(b, c)
    decreases |a|
  {
    if a == [] {
      assert a + b == b;
    } else {
      assert (a + b)[1..] == a[1..] + b;
      OccurrencesAppend(a[1..], b, c);
    }
  }

  /** A string in which `c` does not occur has no occurrences of it. */
  lemma {:induction false} OccurrencesNone(s: string, c: char)
    requires forall j :: 0 <= j < |s| ==> s[j] != c
    ensures Occurrences(s, c) == 0
    decreases |s|
  {
    if s != [] {
      OccurrencesNone(s[1..], c);
    }
  }

  /** No part of a split contains the separator. */
  lemma {:induction false} SplitPartsFree(s: string, sep: char)
    ensures forall p <- Split(s, sep) :: sep !in p
    decreases |s|
  {
    var i := IndexOf(s, sep);
    if i != -1 {
      SplitPartsFree(s[i + 1..], sep);
    }
  }

  /** Joining the parts of a split with the same separator gives the string back. */
  lemma {:induction false} JoinSplit(s: string, sep: char)
    ensures Join(Split(s, sep), sep) == s
    decreases |s|
  {
    var i := IndexOf(s, sep);
    if i != -1 {
      var t := s[i + 1..];
      var rest := Split(t, sep);
      JoinSplit(t, sep);
      var parts := [s[..i]] + rest;
      assert Split(s, sep) == parts;
      assert parts[1..] == rest;
      assert Join(parts, sep) == s[..i] + [sep] + t;
      assert s == s[..i] + [sep] + t;
    }
  }

  /** Splitting a join of separator-free parts gives the parts back. */
  lemma {:induction false} SplitJoin(parts: seq<string>, sep: char)
    requires |parts| >= 1
    requires forall p <- parts :: sep !in p
    ensures Split(Join(parts, sep), sep) == parts
    decreases |parts|
  {
    if |parts| > 1 {
      var head, tail := parts[0], Join(parts[1..], sep);
      calc {
        Split(Join(parts, sep), sep);
        Split(head + [sep] + tail, sep);
      == { AroundSeparator(head, tail, sep); SplitStep(head + [sep] + tail, sep); }
        [head] + Split(tail, sep);
      == { SplitJoin(parts[1..], sep); }
        [head] + parts[1..];
        parts;
      }
    } else {
      assert sep !in parts[0];
      assert parts == [parts[0]];
    }
  }

  /** In `head + [sep] + tail` with no separator in `head`, the first
      separator is the one after `head`. */
  lemma AroundSeparator(head: string, tail: string, sep: char)
    requires sep !in head
    ensures var s := head + [sep] + tail;
            IndexOf(s, sep) == |head| && s[..|head|] == head && s[|head| + 1..] == tail
  {
    var s := head + [sep] + tail;
    assert forall j :: 0 <= j < |head| ==> s[j] == head[j];
    IndexOfFirst(s, sep, |head|);
  }

  /** Counting past a first occurrence: one, plus those after it. */
  lemma OccurrencesAtFirst(s: string, i: nat, c: char)
    requires i < |s| && s[i] == c
    requires forall j :: 0 <= j < i ==> s[j] != c
    ensures Occurrences(s, c) == 1 + Occurrences(s[i + 1..], c)
  {
    var t := s[i + 1..];
    assert s == s[..i] + ([c] + t);
    OccurrencesAppend(s[..i], [c] + t, c);
    OccurrencesAppend([c], t, c);
    OccurrencesNone(s[..i], c);
    assert Occurrences([c], c) == 1;
  }

  /** A split has one more part than the string has separators. */
  lemma {:induction false} SplitCount(s: string, sep: char)
    ensures |Split(s, sep)| == Occurrences(s, sep) + 1
    decreases |s|
  {
    var i := IndexOf(s, sep);
    if i == -1 {
      OccurrencesNone(s, sep);
    } else {
      SplitCount(s[i + 1..], sep);
      OccurrencesAtFirst(s, i, sep);
    }
  }

  /** The last occurrence in a string is that of the text after some
      occurrence at `i`, shifted, or `i` itself when that text has none. */
  lemma LastIndexOfAfter(s: string, i: nat, c: char)
    requires i < |s| && s[i] == c
    ensures var j := LastIndexOf(s[i + 1..], c);
            LastIndexOf(s, c) == if j == -1 then i else i + 1 + j
  {
    var t := s[i + 1..];
    var j := LastIndexOf(t, c);
    assert forall m :: i < m < |s| ==> s[m] == t[m - i - 1];
    if j == -1 {
      LastIndexOfLast(s, c, i);
    } else {
      LastIndexOfLast(s, c, i + 1 + j);
    }
  }

  /** The last part of a split is the text after the last separator
      (the whole string when there is none). */
  lemma {:induction false} SplitLast(s: string, sep: char)
    ensures Last(Split(s, sep)) == s[LastIndexOf(s, sep) + 1..]
    decreases |s|
  {
    var i := IndexOf(s, sep);
    if i == -1 {
      NoLastIndex(s, sep);
      assert s[0..] == s;
    } else {
      var t := s[i + 1..];
      var j := LastIndexOf(t, sep);
      calc {
        Last(Split(s, sep));
      == { SplitStep(s, sep); }
        Last([s[..i]] + Split(t, sep));
      == { LastOfPrepended(s[..i], Split(t, sep)); }
        Last(Split(t, sep));
      == { SplitLast(t, sep); }
        t[j + 1..];
      == { DropOfDrop(s, i + 1, j + 1); }
        s[i + 1 + j + 1..];
      == { LastIndexOfAfter(s, i, sep); }
        s[LastIndexOf(s, sep) + 1..];
      }
    }
  }

  lemma LastOfPrepended<T>(x: T, xs: seq<T>)
    requires |xs| > 0
    ensures Last([x] + xs) == Last(xs)
  {
  }

  lemma DropOfDrop(s: string, a: nat, b: nat)
    requires a + b <= |s|
    ensures s[a..][b..] == s[a + b..]
  {
  }

  /** A string without the separator has no last separator. */
  lemma NoLastIndex(s: string, sep: char)
    requires IndexOf(s, sep) == -1
    ensures LastIndexOf(s, sep) == -1
  {
  }

  /** A string with a separator splits into the text before it and the
      split of the text after it. */
  lemma SplitStep(s: string, sep: char)
    requires IndexOf(s, sep) >= 0
    ensures var i := IndexOf(s, sep);
            Split(s, sep) == [s[..i]] + Split(s[i + 1..], sep)
  {
  }

  /** The first part of a split is the text before the first separator. */
  lemma SplitFirst(s: string, sep: char)
    ensures Split(s, sep)[0] == if IndexOf(s, sep) < 0 then s else s[..IndexOf(s, sep)]
  {
  }
}
