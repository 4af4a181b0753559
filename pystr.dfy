/**
 The parts of Python's `str` that both scripts rely on: `s.split(sep)` with a
 one-character separator, `s.strip()` with no argument, and the text a file
 holds after `write(x)` followed by `write("\n")` for each `x` in turn.
 */
module PyStr {

  /** Python's `str.isspace` for one character: the characters `str.strip()` removes. */
  predicate IsSpace(c: char)
  {
    || ('\t' <= c <= '\r')                 // tab, line feed, vertical tab, form feed, carriage return
    || ('\U{1C}' <= c <= '\U{1F}')         // file, group, record and unit separators
    || c == ' '
    || c == '\U{85}' || c == '\U{A0}' || c == '\U{1680}'
    || ('\U{2000}' <= c <= '\U{200A}')
    || c == '\U{2028}' || c == '\U{2029}' || c == '\U{202F}' || c == '\U{205F}' || c == '\U{3000}'
  }

  /**
   `s.split(sep)`: the maximal runs of `s` between separators. There is always at
   least one part, one more than there are separators, and a trailing separator
   yields a final empty part.
   */
  function Split(s: string, sep: char): (parts: seq<string>)
    ensures |parts| >= 1
    decreases |s|
  {
    if s == [] then [[]]
    else if s[0] == sep then [[]] + Split(s[1..], sep)
    else
      var rest := Split(s[1..], sep);
      [[s[0]] + rest[0]] + rest[1..]
  }

  /** There is one more part than there are separators, and no part holds a separator. */
  lemma {:induction false} SplitParts(s: string, sep: char)
    ensures var parts := Split(s, sep);
      && |parts| == multiset(s)[sep] + 1
      && forall i :: 0 <= i < |parts| ==> sep !in parts[i]
    decreases |s|
  {
    if s != [] {
      SplitParts(s[1..], sep);
      assert s == [s[0]] + s[1..];
    }
  }

  /** `sep.join(parts)`, the inverse of `Split`. */
  function Join(parts: seq<string>, sep: char): string
    requires |parts| >= 1
  {
    if |parts| == 1 then parts[0] else parts[0] + [sep] + Join(parts[1..], sep)
  }

  /** Joining the parts of a split gives back the original string. */
  lemma {:induction false} JoinSplit(s: string, sep: char)
    ensures Join(Split(s, sep), sep) == s
    decreases |s|
  {
    if s == [] {
    } else if s[0] == sep {
      JoinSplit(s[1..], sep);
      assert ([[]] + Split(s[1..], sep))[1..] == Split(s[1..], sep);
      assert s == [sep] + s[1..];
    } else {
      var rest := Split(s[1..], sep);
      JoinSplit(s[1..], sep);
      var parts := [[s[0]] + rest[0]] + rest[1..];
      assert parts[1..] == rest[1..];
      assert s == [s[0]] + s[1..];
    }
  }

  /** A string without the separator splits into itself alone. */
  lemma {:induction false} SplitWithoutSep(p: string, sep: char)
    requires sep !in p
    ensures Split(p, sep) == [p]
    decreases |p|
  {
    if p != [] {
      SplitWithoutSep(p[1..], sep);
      assert p == [p[0]] + p[1..];
    }
  }

  /** Splitting `p + sep + rest` yields `p`, then the parts of `rest`. */
  lemma {:induction false} SplitAfterPart(p: string, rest: string, sep: char)
    requires sep !in p
    ensures Split(p + [sep] + rest, sep) == [p] + Split(rest, sep)
    decreases |p|
  {
    var s := p + [sep] + rest;
    if p == [] {
      assert s == [sep] + rest;
      assert s[1..] == rest;
    } else {
      assert s[1..] == p[1..] + [sep] + rest;
      SplitAfterPart(p[1..], rest, sep);
      assert p == [p[0]] + p[1..];
    }
  }

  /** Splitting a join of separator-free parts gives back the parts. */
  lemma {:induction false} SplitJoin(parts: seq<string>, sep: char)
    requires |parts| >= 1
    requires forall i :: 0 <= i < |parts| ==> sep !in parts[i]
    ensures Split(Join(parts, sep), sep) == parts
    decreases |parts|
  {
    if |parts| == 1 {
      SplitWithoutSep(parts[0], sep);
    } else {
      SplitJoin(parts[1..], sep);
      SplitAfterPart(parts[0], Join(parts[1..], sep), sep);
      assert parts == [parts[0]] + parts[1..];
    }
  }

  /**
   The last part of a join is a suffix of it, and when there is more than one
   part the character just before that suffix is the separator.
   */
  lemma {:induction false} JoinLast(parts: seq<string>, sep: char)
    requires |parts| >= 1
    ensures var s, last := Join(parts, sep), parts[|parts| - 1];
      && |last| <= |s| && s[|s| - |last|..] == last
      && (|parts| > 1 ==> |last| < |s| && s[|s| - |last| - 1] == sep)
    decreases |parts|
  {
    if |parts| > 1 {
      JoinLast(parts[1..], sep);
      var tail := Join(parts[1..], sep);
      var s := parts[0] + [sep] + tail;
      assert s[|parts[0]| + 1..] == tail;
    }
  }

  /** The index of the first non-whitespace character of `s` at or after `i`, or `|s|`. */
  function SkipSpace(s: string, i: nat): (j: nat)
    requires i <= |s|
    ensures i <= j <= |s|
    ensures forall k :: i <= k < j ==> IsSpace(s[k])
    ensures j < |s| ==> !IsSpace(s[j])
    decreases |s| - i
  {
    if i < |s| && IsSpace(s[i]) then SkipSpace(s, i + 1) else i
  }

  /**
   The end of `s[lo..j]` once its trailing whitespace is removed: the smallest
   `e` such that `s[e..j]` is all whitespace.
   */
  function SkipSpaceBack(s: string, lo: nat, j: nat): (e: nat)
    requires lo <= j <= |s|
    ensures lo <= e <= j
    ensures forall k :: e <= k < j ==> IsSpace(s[k])
    ensures e > lo ==> !IsSpace(s[e - 1])
    decreases j
  {
    if j > lo && IsSpace(s[j - 1]) then SkipSpaceBack(s, lo, j - 1) else j
  }

  /**
   `s.strip()`: the part of `s` between its leading and its trailing whitespace.
   It is empty exactly when `s` is all whitespace, and otherwise starts and ends
   with a non-whitespace character.
   */
  function Strip(s: string): string
  {
    var i := SkipSpace(s, 0);
    s[i..SkipSpaceBack(s, i, |s|)]
  }

  /** What `Strip` removes is whitespace, and what it keeps neither starts nor ends with whitespace. */
  lemma StripSpec(s: string)
    ensures var r, i := Strip(s), SkipSpace(s, 0);
      && i + |r| <= |s| && r == s[i..i + |r|]
      && (forall k :: 0 <= k < i ==> IsSpace(s[k]))
      && (forall k :: i + |r| <= k < |s| ==> IsSpace(s[k]))
      && (r == [] <==> forall k :: 0 <= k < |s| ==> IsSpace(s[k]))
      && (r != [] ==> !IsSpace(r[0]) && !IsSpace(r[|r| - 1]))
  {
    var i := SkipSpace(s, 0);
    var j := SkipSpaceBack(s, i, |s|);
    assert i < j ==> s[i] == s[i..j][0];
  }

  /** Neither starts nor ends with whitespace. */
  predicate Stripped(s: string)
  {
    s == [] || (!IsSpace(s[0]) && !IsSpace(s[|s| - 1]))
  }

  /** `s.strip() == s` holds exactly for the strings that neither start nor end with whitespace. */
  lemma StripFixesStripped(s: string)
    ensures Strip(s) == s <==> Stripped(s)
  {
    if Stripped(s) && s != [] {
      assert SkipSpace(s, 0) == 0;
      assert SkipSpaceBack(s, 0, |s|) == |s|;
    }
  }

  /** A stripped string has nothing left to strip, and the characters it holds come from `s`. */
  lemma StripStripped(s: string)
    ensures Stripped(Strip(s)) && Strip(Strip(s)) == Strip(s)
    ensures forall c :: c in Strip(s) ==> c in s
  {
    var r := Strip(s);
    StripSpec(s);
    StripFixesStripped(r);
    var i := SkipSpace(s, 0);
    forall c | c in r ensures c in s {
      var k :| 0 <= k < |r| && r[k] == c;
      assert s[i + k] == c;
    }
  }

  /** What a file holds after `write(x)` and `write("\n")` for each `x` of `xs` in turn. */
  function Terminated(xs: seq<string>): string
  {
    if xs == [] then [] else xs[0] + "\n" + Terminated(xs[1..])
  }

  /** Writing `a` and then `b` leaves the concatenation of the two files' texts. */
  lemma {:induction false} TerminatedAppend(a: seq<string>, b: seq<string>)
    ensures Terminated(a + b) == Terminated(a) + Terminated(b)
    decreases |a|
  {
    if a == [] {
      assert a + b == b;
    } else {
      TerminatedAppend(a[1..], b);
      assert (a + b)[1..] == a[1..] + b;
      calc {
        Terminated(a + b);
        a[0] + "\n" + Terminated(a[1..] + b);
        a[0] + "\n" + (Terminated(a[1..]) + Terminated(b));
        (a[0] + "\n" + Terminated(a[1..])) + Terminated(b);
      }
    }
  }

  /** The terminated text is the newline join of the pieces and one final empty piece. */
  lemma {:induction false} TerminatedIsJoin(xs: seq<string>)
    ensures Terminated(xs) == Join(xs + [[]], '\n')
    decreases |xs|
  {
    if xs != [] {
      TerminatedIsJoin(xs[1..]);
      assert (xs + [[]])[1..] == xs[1..] + [[]];
    }
  }

  /** The length of the terminated text: each piece plus its newline. */
  lemma {:induction false} TerminatedLength(xs: seq<string>)
    ensures |Terminated(xs)| == TotalLength(xs) + |xs|
    decreases |xs|
  {
    if xs != [] {
      TerminatedLength(xs[1..]);
    }
  }

  /** The sum of the lengths of the pieces. */
  function TotalLength(xs: seq<string>): nat
  {
    if xs == [] then 0 else |xs[0]| + TotalLength(xs[1..])
  }

  /**
   Splitting a terminated text of newline-free lines on the newline gives each
   line once, then one empty string after the final newline.
   */
  lemma SplitTerminated(xs: seq<string>)
    requires forall i :: 0 <= i < |xs| ==> '\n' !in xs[i]
    ensures Split(Terminated(xs), '\n') == xs + [[]]
  {
    TerminatedIsJoin(xs);
    SplitJoin(xs + [[]], '\n');
  }
}
