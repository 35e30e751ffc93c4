/**
 * The JavaScript string and number built-ins that the citation code leans on:
 * the `\s`/`trim` whitespace set and the regex character classes, `split`,
 * `join`, `replace(/[().]/g, "")`, `substring`, `indexOf`, `parseInt`,
 * `Number` and the decimal rendering of a number in a template literal.
 * Strings are sequences of characters, where JavaScript has UTF-16 code
 * units; every character the code compares against lies in the Basic
 * Multilingual Plane, where the two agree.
 */
module JsString {

  // ---------------------------------------------------------------------------
  // Character classes
  // ---------------------------------------------------------------------------

  /** ECMAScript WhiteSpace and LineTerminator: what `\s` matches and `trim` removes. */
  predicate IsSpace(c: char) {
    || c == '\t' || c == '\n' || c == '\U{000B}' || c == '\U{000C}' || c == '\r' || c == ' '
    || c == '\U{00A0}' || c == '\U{1680}' || ('\U{2000}' <= c <= '\U{200A}')
    || c == '\U{2028}' || c == '\U{2029}' || c == '\U{202F}' || c == '\U{205F}'
    || c == '\U{3000}' || c == '\U{FEFF}'
  }

  /** `\d`: the ASCII digits only. */
  predicate IsDigit(c: char) {
    '0' <= c <= '9'
  }

  /** `[А-Яа-я]`: U+0410..U+044F, which leaves out і, ї, є, І, Ї, Є, ґ, Ґ, ё and Ё. */
  predicate IsBasicCyrillic(c: char) {
    'А' <= c <= 'я'
  }

  /** `[A-Za-zА-Яа-яіїєІЇЄ]`: the letters a book name may be written with. */
  predicate IsNameLetter(c: char) {
    ('A' <= c <= 'Z') || ('a' <= c <= 'z') || IsBasicCyrillic(c)
    || c == 'і' || c == 'ї' || c == 'є' || c == 'І' || c == 'Ї' || c == 'Є'
  }

  /** Whitespace, digits and name letters are three disjoint classes. */
  lemma {:induction false} SpaceIsNoLetter(c: char)
    ensures IsSpace(c) ==> !IsNameLetter(c) && !IsDigit(c)
    ensures IsDigit(c) ==> !IsNameLetter(c)
  {
  }

  /** Every character of `s` is in class `p`. */
  predicate All(p: char -> bool, s: string) {
    forall k | 0 <= k < |s| :: p(s[k])
  }

  lemma {:induction false} AllConcat(p: char -> bool, a: string, b: string)
    ensures All(p, a + b) <==> All(p, a) && All(p, b)
  {
    if All(p, a) && All(p, b) {
      forall k | 0 <= k < |a + b| ensures p((a + b)[k]) {
        if k >= |a| { assert (a + b)[k] == b[k - |a|]; }
      }
    }
    if All(p, a + b) {
      forall k | 0 <= k < |a| ensures p(a[k]) { assert (a + b)[k] == a[k]; }
      forall k | 0 <= k < |b| ensures p(b[k]) { assert (a + b)[|a| + k] == b[k]; }
    }
  }

  /** A slice of an all-`p` slice is all `p`. */
  lemma {:induction false} AllSub(p: char -> bool, s: string, a: nat, b: nat, c: nat, d: nat)
    requires a <= c <= d <= b <= |s| && All(p, s[a..b])
    ensures All(p, s[c..d])
  {
    forall k | 0 <= k < d - c ensures p(s[c..d][k]) {
      assert s[c..d][k] == s[a..b][k + c - a];
    }
  }

  /**
   * Length of the longest run of class-`p` characters starting at `i`: what a
   * greedy `p*` consumes there. `SpanAll` and `SpanStops` state that it is
   * such a run; `SpanIs` that it is the only one.
   */
  function Span(p: char -> bool, s: string, i: nat): (n: nat)
    requires i <= |s|
    ensures i + n <= |s|
    decreases |s| - i
  {
    if i < |s| && p(s[i]) then 1 + Span(p, s, i + 1) else 0
  }

  /** The span, taken as a slice, is all of class `p`. */
  lemma {:induction false} SpanAll(p: char -> bool, s: string, i: nat)
    requires i <= |s|
    ensures All(p, s[i..i + Span(p, s, i)])
    decreases |s| - i
  {
    if i < |s| && p(s[i]) {
      SpanAll(p, s, i + 1);
      var n := Span(p, s, i + 1);
      assert s[i..i + 1 + n] == [s[i]] + s[i + 1..i + 1 + n];
      AllConcat(p, [s[i]], s[i + 1..i + 1 + n]);
    }
  }

  /** The span stops at the end of `s` or at a character outside the class. */
  lemma {:induction false} SpanStops(p: char -> bool, s: string, i: nat)
    requires i <= |s|
    ensures i + Span(p, s, i) == |s| || !p(s[i + Span(p, s, i)])
    decreases |s| - i
  {
    if i < |s| && p(s[i]) {
      SpanStops(p, s, i + 1);
    }
  }

  /** A maximal run is determined by its start: any run that stops where the class stops is the span. */
  lemma {:induction false} SpanIs(p: char -> bool, s: string, i: nat, n: nat)
    requires i + n <= |s|
    requires All(p, s[i..i + n])
    requires i + n == |s| || !p(s[i + n])
    ensures Span(p, s, i) == n
    decreases n
  {
    if n > 0 {
      assert s[i] == s[i..i + n][0];
      AllSub(p, s, i, i + n, i + 1, i + n);
      SpanIs(p, s, i + 1, n - 1);
    }
  }

  /** A run inside the slice `s[a..b]` is the run in `s`, cut off at `b`. */
  lemma {:induction false} SpanInSlice(p: char -> bool, s: string, a: nat, b: nat, i: nat)
    requires a + i <= b <= |s|
    ensures Span(p, s[a..b], i) == if a + i + Span(p, s, a + i) <= b then Span(p, s, a + i) else b - (a + i)
    decreases b - (a + i)
  {
    if a + i < b {
      assert s[a..b][i] == s[a + i];
      if p(s[a + i]) {
        SpanInSlice(p, s, a, b, i + 1);
      }
    }
  }

  /** The last character of a non-empty run is in the class. */
  lemma {:induction false} SpanLast(p: char -> bool, s: string, i: nat)
    requires i <= |s|
    ensures Span(p, s, i) > 0 ==> p(s[i + Span(p, s, i) - 1])
  {
    var n := Span(p, s, i);
    SpanAll(p, s, i);
    if n > 0 {
      assert s[i..i + n][n - 1] == s[i + n - 1];
    }
  }

  /** A slice of a slice is a slice of the original. */
  lemma {:induction false} SliceOfSlice(s: string, i: nat, j: nat, a: nat, b: nat)
    requires i <= j <= |s| && a <= b <= j - i
    ensures s[i..j][a..b] == s[i + a..i + b]
  {
    forall k | 0 <= k < b - a ensures s[i..j][a..b][k] == s[i + a..i + b][k] {
      assert s[i..j][a..b][k] == s[i..j][a + k] == s[i + a + k];
    }
  }

  /** A run that ends inside the slice `s[a..b]` is the same run there. */
  lemma {:induction false} SpanWithin(p: char -> bool, s: string, a: nat, b: nat, i: nat)
    requires a + i <= b <= |s| && a + i + Span(p, s, a + i) <= b
    ensures Span(p, s[a..b], i) == Span(p, s, a + i)
  {
    SpanInSlice(p, s, a, b, i);
  }

  /** A run inside `s[i..j]` is the run in `s`, unless it reaches `j` and goes on. */
  lemma {:induction false} SpanOfSlice(p: char -> bool, s: string, i: nat, j: nat, k: nat)
    requires i + k <= j <= |s|
    requires k + Span(p, s[i..j], k) < j - i || j == |s| || !p(s[j])
    ensures Span(p, s, i + k) == Span(p, s[i..j], k)
  {
    SpanInSlice(p, s, i, j, k);
    SpanAll(p, s, i + k);
  }

  /** Cutting a string at two positions and gluing the three pieces back gives the string. */
  lemma {:induction false} Cut2(s: string, i: nat, j: nat)
    requires i <= j <= |s|
    ensures s == s[..i] + s[i..j] + s[j..]
  {
  }

  /** Two adjacent slices glued together are one slice. */
  lemma {:induction false} SliceJoin(s: string, i: nat, j: nat, k: nat)
    requires i <= j <= k <= |s|
    ensures s[i..j] + s[j..k] == s[i..k]
  {
  }

  /** Cutting a string at three positions and gluing the four pieces back gives the string. */
  lemma {:induction false} Cut3(s: string, i: nat, j: nat, k: nat)
    requires i <= j <= k <= |s|
    ensures s[..i] + s[i..j] + s[j..k] + s[k..] == s
  {
  }

  /** The four pieces of `a + b + c + d` are where they were glued. */
  lemma {:induction false} Pieces4(a: string, b: string, c: string, d: string)
    ensures var s := a + b + c + d;
      && s[..|a|] == a && s[|a|..|a| + |b|] == b
      && s[|a| + |b|..|a| + |b| + |c|] == c && s[|a| + |b| + |c|..] == d
  {
    var s := a + b + c + d;
    assert s[..|a|] == a;
    assert s[|a|..|a| + |b|] == b;
    assert s[|a| + |b|..|a| + |b| + |c|] == c;
    assert s[|a| + |b| + |c|..] == d;
  }

  // ---------------------------------------------------------------------------
  // trim
  // ---------------------------------------------------------------------------

  /** Number of whitespace characters at the end of `s`. */
  function TrailingSpaces(s: string): (n: nat)
    ensures n <= |s|
    decreases |s|
  {
    if s == [] || !IsSpace(s[|s| - 1]) then 0 else 1 + TrailingSpaces(s[..|s| - 1])
  }

  /** The trailing run is all whitespace and stops at the start of `s` or at a non-space. */
  lemma {:induction false} TrailingSpacesRun(s: string)
    ensures All(IsSpace, s[|s| - TrailingSpaces(s)..])
    ensures TrailingSpaces(s) == |s| || !IsSpace(s[|s| - 1 - TrailingSpaces(s)])
    decreases |s|
  {
    if s != [] && IsSpace(s[|s| - 1]) {
      var t := s[..|s| - 1];
      TrailingSpacesRun(t);
      var n := TrailingSpaces(t);
      assert TrailingSpaces(s) == n + 1;
      TrailingRunStep(s, t, n);
    }
  }

  /** A whitespace run at the end of `t`, extended by the whitespace character that ends `s`. */
  lemma {:induction false} TrailingRunStep(s: string, t: string, n: nat)
    requires s != [] && t == s[..|s| - 1] && IsSpace(s[|s| - 1])
    requires n <= |t| && All(IsSpace, t[|t| - n..]) && (n == |t| || !IsSpace(t[|t| - 1 - n]))
    ensures All(IsSpace, s[|s| - (n + 1)..])
    ensures n + 1 == |s| || !IsSpace(s[|s| - 1 - (n + 1)])
  {
    assert s[|s| - (n + 1)..] == t[|t| - n..] + [s[|s| - 1]];
    AllConcat(IsSpace, t[|t| - n..], [s[|s| - 1]]);
    if n < |t| {
      assert s[|s| - 1 - (n + 1)] == t[|t| - 1 - n];
    }
  }

  /** Any trailing whitespace run that stops at a non-space is the trailing run. */
  lemma {:induction false} TrailingSpacesIs(s: string, n: nat)
    requires n <= |s|
    requires All(IsSpace, s[|s| - n..])
    requires n == |s| || !IsSpace(s[|s| - 1 - n])
    ensures TrailingSpaces(s) == n
    decreases n
  {
    if n > 0 {
      var t := s[..|s| - 1];
      assert s[|s| - 1] == s[|s| - n..][n - 1];
      AllSub(IsSpace, s, |s| - n, |s|, |s| - n, |s| - 1);
      assert t[|t| - (n - 1)..] == s[|s| - n..|s| - 1];
      if n < |s| {
        assert t[|t| - 1 - (n - 1)] == s[|s| - 1 - n];
      }
      TrailingSpacesIs(t, n - 1);
    }
  }

  /** Number of whitespace characters at the start of `s`. */
  function LeadingSpaces(s: string): (n: nat)
    ensures n <= |s|
  {
    Span(IsSpace, s, 0)
  }

  /** `String.prototype.trim`: removes the whitespace at both ends and nothing else. */
  function Trim(s: string): (r: string)
    ensures LeadingSpaces(s) + |r| <= |s|
    ensures r == s[LeadingSpaces(s)..LeadingSpaces(s) + |r|]
    ensures r == [] || (!IsSpace(r[0]) && !IsSpace(r[|r| - 1]))
    ensures All(IsSpace, s[..LeadingSpaces(s)]) && All(IsSpace, s[LeadingSpaces(s) + |r|..])
  {
    var a := LeadingSpaces(s);
    SpanAll(IsSpace, s, 0);
    assert s[..a] == s[0..a];
    if a == |s| then
      []
    else
      TrimmedCore(s);
      s[a..|s| - TrailingSpaces(s)]
  }

  /** With some non-space in `s`, the leading and trailing runs leave a non-space core between them. */
  lemma {:induction false} TrimmedCore(s: string)
    requires LeadingSpaces(s) < |s|
    ensures LeadingSpaces(s) < |s| - TrailingSpaces(s)
    ensures var a, b := LeadingSpaces(s), |s| - TrailingSpaces(s);
      !IsSpace(s[a]) && !IsSpace(s[b - 1]) && All(IsSpace, s[b..])
  {
    var a := LeadingSpaces(s);
    SpanStops(IsSpace, s, 0);
    TrailingSpacesRun(s);
    NonSpaceBeforeRun(s, |s| - TrailingSpaces(s), a);
  }

  /** A non-space lies before any all-whitespace suffix. */
  lemma {:induction false} NonSpaceBeforeRun(s: string, b: nat, k: nat)
    requires b <= |s| && All(IsSpace, s[b..])
    requires k < |s| && !IsSpace(s[k])
    ensures k < b
  {
  }

  /** Trimming whitespace padding around a string that neither starts nor ends with whitespace gives it back. */
  lemma {:induction false} TrimPadded(pre: string, x: string, post: string)
    requires All(IsSpace, pre) && All(IsSpace, post)
    requires x == [] || (!IsSpace(x[0]) && !IsSpace(x[|x| - 1]))
    ensures Trim(pre + x + post) == x
  {
    var s := pre + x + post;
    Pieces4(pre, x, post, []);
    assert s + [] == s;
    if x == [] {
      AllConcat(IsSpace, pre, post);
      assert s == pre + post;
      assert s[0..|s|] == s;
      SpanIs(IsSpace, s, 0, |s|);
    } else {
      assert s[|pre|] == x[0];
      assert s[0..|pre|] == pre;
      SpanIs(IsSpace, s, 0, |pre|);
      assert s[|s| - 1 - |post|] == x[|x| - 1];
      assert s[|s| - |post|..] == post;
      TrailingSpacesIs(s, |post|);
    }
  }

  /** Whitespace appended to a string does not change its trimmed form. */
  lemma {:induction false} TrimTrailingSpaces(x: string, pad: string)
    requires All(IsSpace, pad)
    ensures Trim(x + pad) == Trim(x)
  {
    var a := LeadingSpaces(x);
    var r := Trim(x);
    Cut2(x, a, a + |r|);
    var tail := x[a + |r|..];
    assert x + pad == x[..a] + r + (tail + pad);
    AllConcat(IsSpace, tail, pad);
    TrimPadded(x[..a], r, tail + pad);
  }

  lemma {:induction false} NotInSpaces(s: string, c: char)
    requires All(IsSpace, s) && !IsSpace(c)
    ensures c !in s
  {
  }

  /** A trimmed string keeps every character of the original but whitespace, and adds none. */
  lemma {:induction false} TrimKeeps(s: string, c: char)
    requires !IsSpace(c)
    ensures c in Trim(s) <==> c in s
  {
    var a := LeadingSpaces(s);
    var r := Trim(s);
    Cut2(s, a, a + |r|);
    NotInSpaces(s[..a], c);
    NotInSpaces(s[a + |r|..], c);
  }

  // ---------------------------------------------------------------------------
  // split and join
  // ---------------------------------------------------------------------------

  /** Position of the first `c` in `s`, or `|s|` when there is none. */
  function IndexOfChar(s: string, c: char): (i: nat)
    ensures i <= |s|
    ensures i < |s| ==> s[i] == c
    ensures forall k | 0 <= k < i :: s[k] != c
    decreases |s|
  {
    if s == [] then 0 else if s[0] == c then 0 else 1 + IndexOfChar(s[1..], c)
  }

  /** `s.split(sep)` for a one-character separator. */
  function Split(s: string, sep: char): (parts: seq<string>)
    ensures |parts| >= 1
    ensures forall k | 0 <= k < |parts| :: sep !in parts[k]
    ensures sep !in s ==> parts == [s]
    decreases |s|
  {
    var i := IndexOfChar(s, sep);
    if i == |s| then
      assert forall k | 0 <= k < |s| :: s[k] != sep;
      [s]
    else
      [s[..i]] + Split(s[i + 1..], sep)
  }

  /** A character the string lacks is in none of its pieces. */
  lemma {:induction false} SplitKeepsOut(s: string, sep: char, x: char)
    requires x !in s
    ensures forall k | 0 <= k < |Split(s, sep)| :: x !in Split(s, sep)[k]
    decreases |s|
  {
    var i := IndexOfChar(s, sep);
    if i < |s| {
      var rest := Split(s[i + 1..], sep);
      SplitKeepsOut(s[i + 1..], sep, x);
      SplitAtFirst(s, sep, i);
      assert x !in s[..i];
    }
  }

  /** `parts.join(sep)`; the empty array joins to "". */
  function Join(parts: seq<string>, sep: string): string
    decreases |parts|
  {
    if parts == [] then "" else if |parts| == 1 then parts[0] else parts[0] + sep + Join(parts[1..], sep)
  }

  /** With a non-empty separator, a join is empty only for no pieces or one empty piece. */
  lemma {:induction false} JoinEmpty(parts: seq<string>, sep: string)
    requires sep != []
    ensures Join(parts, sep) == [] <==> parts == [] || parts == [[]]
  {
    if |parts| > 1 {
      assert |Join(parts, sep)| >= |sep|;
    }
  }

  /** Joining the pieces of a split with the separator gives the string back. */
  lemma {:induction false} JoinSplit(s: string, sep: char)
    ensures Join(Split(s, sep), [sep]) == s
    decreases |s|
  {
    var i := IndexOfChar(s, sep);
    if i < |s| {
      var rest := Split(s[i + 1..], sep);
      assert Split(s, sep) == [s[..i]] + rest;
      assert Join([s[..i]] + rest, [sep]) == s[..i] + [sep] + Join(rest, [sep]) by {
        assert ([s[..i]] + rest)[1..] == rest;
      }
      JoinSplit(s[i + 1..], sep);
      AroundIndex(s, i);
    }
  }

  /** Cutting out the character at `i` and putting it back gives the string. */
  lemma {:induction false} AroundIndex(s: string, i: nat)
    requires i < |s|
    ensures s[..i] + [s[i]] + s[i + 1..] == s
  {
  }

  /** Splitting a join of separator-free pieces gives the pieces back. */
  lemma {:induction false} SplitJoin(parts: seq<string>, sep: char)
    requires |parts| >= 1
    requires forall k | 0 <= k < |parts| :: sep !in parts[k]
    ensures Split(Join(parts, [sep]), sep) == parts
    decreases |parts|
  {
    if |parts| > 1 {
      var p, rest := parts[0], Join(parts[1..], [sep]);
      var s := p + [sep] + rest;
      assert Join(parts, [sep]) == s;
      FirstSeparator(p, rest, sep);
      SplitJoin(parts[1..], sep);
      assert parts == [p] + parts[1..];
    }
  }

  /** In `p sep rest` with `sep` not in `p`, the first separator is the one after `p`, and the split goes there. */
  lemma {:induction false} FirstSeparator(p: string, rest: string, sep: char)
    requires sep !in p
    ensures Split(p + [sep] + rest, sep) == [p] + Split(rest, sep)
  {
    var s := p + [sep] + rest;
    assert forall k | 0 <= k < |p| :: s[k] == p[k];
    assert s[|p|] == sep;
    assert IndexOfChar(s, sep) == |p|;
    assert s[..|p|] == p;
    assert s[|p| + 1..] == rest;
  }

  /** A string holding the separator splits into at least two pieces. */
  lemma {:induction false} SplitHasTwo(s: string, sep: char)
    requires sep in s
    ensures |Split(s, sep)| >= 2
  {
    var k :| 0 <= k < |s| && s[k] == sep;
    var i := IndexOfChar(s, sep);
    assert i <= k;
    SplitAtFirst(s, sep, i);
  }

  /** When the separator first occurs at `i`, the first piece is `s[..i]` and the others are the split of what follows. */
  lemma {:induction false} SplitAtFirst(s: string, sep: char, i: nat)
    requires i == IndexOfChar(s, sep) < |s|
    ensures Split(s, sep) == [s[..i]] + Split(s[i + 1..], sep)
  {
    var parts := Split(s, sep);
    assert IndexOfChar(s, sep) != |s|;
    assert parts == [s[..i]] + Split(s[i + 1..], sep);
  }

  /** Splitting `a sep b`, with `sep` in neither, gives exactly `[a, b]`. */
  lemma {:induction false} SplitPair(a: string, b: string, sep: char)
    requires sep !in a && sep !in b
    ensures Split(a + [sep] + b, sep) == [a, b]
  {
    SplitJoin([a, b], sep);
    assert Join([a, b], [sep]) == a + [sep] + Join([b], [sep]);
  }

  // ---------------------------------------------------------------------------
  // replace(/[().]/g, "")
  // ---------------------------------------------------------------------------

  /** `s.replace(/[...]/g, "")`: every character of `drop` removed, the others kept in order. */
  function Strip(s: string, drop: set<char>): (r: string)
    ensures |r| <= |s|
    decreases |s|
  {
    if s == [] then [] else (if s[0] in drop then [] else [s[0]]) + Strip(s[1..], drop)
  }

  /** Stripping keeps exactly the characters that are not dropped. */
  lemma {:induction false} StripChars(s: string, drop: set<char>)
    ensures forall c :: c in Strip(s, drop) <==> c in s && c !in drop
    decreases |s|
  {
    if s != [] {
      StripChars(s[1..], drop);
      assert s == [s[0]] + s[1..];
    }
  }

  /** A string with none of the dropped characters is left as it is. */
  lemma {:induction false} StripNone(s: string, drop: set<char>)
    requires forall k | 0 <= k < |s| :: s[k] !in drop
    ensures Strip(s, drop) == s
    decreases |s|
  {
    if s != [] {
      StripNone(s[1..], drop);
      assert s == [s[0]] + s[1..];
    }
  }

  lemma {:induction false} StripConcat(a: string, b: string, drop: set<char>)
    ensures Strip(a + b, drop) == Strip(a, drop) + Strip(b, drop)
    decreases |a|
  {
    if a != [] {
      assert (a + b)[1..] == a[1..] + b;
      StripConcat(a[1..], b, drop);
    } else {
      assert a + b == b;
    }
  }

  // ---------------------------------------------------------------------------
  // substring and indexOf
  // ---------------------------------------------------------------------------

  function Clamp(i: int, len: nat): (r: nat)
    ensures r <= len
    ensures 0 <= i <= len ==> r == i
  {
    if i < 0 then 0 else if i > len then len else i
  }

  /** `s.substring(start, end)`: both ends clamped into the string, then swapped if reversed. */
  function Substring(s: string, start: int, end: int): (r: string)
    ensures 0 <= start <= end <= |s| ==> r == s[start..end]
    ensures 0 <= end <= start <= |s| ==> r == s[end..start]
  {
    var a := Clamp(start, |s|);
    var b := Clamp(end, |s|);
    if a <= b then s[a..b] else s[b..a]
  }

  /** A slice of the tail is the slice of the string one position further on. */
  lemma {:induction false} TailSlice(s: string, i: nat, j: nat)
    requires 1 <= i <= j <= |s|
    ensures s[1..][i - 1..j - 1] == s[i..j]
  {
  }

  /** `t` occurs in `s` at position `j`. */
  predicate OccursAt(s: string, t: string, j: int) {
    0 <= j && j + |t| <= |s| && s[j..j + |t|] == t
  }

  /** `s.indexOf(t)`: the first position at which `t` occurs, or -1. */
  function IndexOf(s: string, t: string): (i: int)
    ensures -1 <= i <= |s|
    ensures i >= 0 ==> OccursAt(s, t, i)
    decreases |s|
  {
    if |t| > |s| then -1
    else if s[..|t|] == t then 0
    else
      var i := IndexOf(s[1..], t);
      if i == -1 then -1
      else
        TailSlice(s, i + 1, i + 1 + |t|);
        i + 1
  }

  /** `indexOf` finds the first occurrence: there is none before it, and none at all when it gives -1. */
  lemma {:induction false} IndexOfFirst(s: string, t: string)
    ensures var i := IndexOf(s, t);
      forall j | 0 <= j && (i == -1 || j < i) :: !OccursAt(s, t, j)
    decreases |s|
  {
    if |t| <= |s| && s[..|t|] != t {
      IndexOfFirst(s[1..], t);
      forall j | 1 <= j ensures OccursAt(s, t, j) <==> OccursAt(s[1..], t, j - 1) {
        if j + |t| <= |s| { TailSlice(s, j, j + |t|); }
      }
    }
  }

  // ---------------------------------------------------------------------------
  // Numbers
  // ---------------------------------------------------------------------------

  /**
   * A JavaScript number as the citation code uses it: only ever compared with
   * `===` against the integer chapter and verse numbers of the corpus, or
   * counted upward in a loop. `NotInteger` stands for NaN, `undefined` and
   * fractions alike: none of them equals any integer. Integers are unbounded
   * here, where JavaScript numbers are doubles that lose precision above 2^53.
   */
  datatype JsNumber = Integer(value: int) | NotInteger

  function DigitValue(c: char): (d: nat)
    requires IsDigit(c)
    ensures d < 10
  {
    (c as int) - ('0' as int)
  }

  /** The value of a decimal digit string (leading zeros allowed). */
  function DigitsValue(s: string): nat
    requires All(IsDigit, s)
    decreases |s|
  {
    if s == [] then 0 else DigitsValue(s[..|s| - 1]) * 10 + DigitValue(s[|s| - 1])
  }

  /** Decimal rendering of a natural number, as `${n}` prints it. */
  function NatToString(n: nat): (r: string)
    ensures r != [] && All(IsDigit, r)
    ensures DigitsValue(r) == n
    ensures r[0] == '0' ==> r == "0"
    decreases n
  {
    if n < 10 then
      [('0' as int + n) as char]
    else
      var r := NatToString(n / 10) + [('0' as int + n % 10) as char];
      assert r[..|r| - 1] == NatToString(n / 10);
      r
  }

  /** Decimal rendering of an integer, as `${v}` prints it. */
  function IntToString(v: int): (r: string)
    ensures r != [] && ':' !in r && ' ' !in r
  {
    if v < 0 then "-" + NatToString(-v) else NatToString(v)
  }

  /**
   * `parseInt(s)` without a radix on decimal text: leading whitespace and a
   * sign are skipped and the longest digit prefix is read; no digits is NaN.
   */
  function ParseInt(s: string): JsNumber {
    var i := Span(IsSpace, s, 0);
    var j := if i < |s| && (s[i] == '-' || s[i] == '+') then i + 1 else i;
    var n := Span(IsDigit, s, j);
    SpanAll(IsDigit, s, j);
    if n == 0 then NotInteger
    else if i < |s| && s[i] == '-' then Integer(-(DigitsValue(s[j..j + n]) as int))
    else Integer(DigitsValue(s[j..j + n]))
  }

  /** On a digit string `parseInt` reads the whole string; on "" it is NaN. */
  lemma {:induction false} ParseIntDigits(s: string)
    requires All(IsDigit, s)
    ensures ParseInt(s) == if s == [] then NotInteger else Integer(DigitsValue(s))
  {
    if s != [] {
      assert !IsSpace(s[0]);
      SpanIs(IsSpace, s, 0, 0);
      assert s[0..|s|] == s;
      SpanIs(IsDigit, s, 0, |s|);
    }
  }

  /** Characters that can appear in a string `Number` reads as a decimal value. */
  predicate IsNumberChar(c: char) {
    IsSpace(c) || IsDigit(c) || c == '+' || c == '-' || c == '.'
  }

  /**
   * `Number(s)` on decimal text: surrounding whitespace is ignored, the empty
   * string is 0, and an optional sign, digits and an optional fraction give a
   * value, which is an integer exactly when the fraction is all zeros. The
   * other forms `Number` reads (a "0x", "0o" or "0b" prefix, an exponent,
   * "Infinity") are not modelled and come out as `NotInteger`.
   */
  function NumberValue(s: string): JsNumber {
    DecimalValue(Trim(s))
  }

  /** The value of trimmed decimal text: `[+-]? digits ('.' digits*)?` or `[+-]? '.' digits`. */
  function DecimalValue(t: string): JsNumber {
    if t == [] then Integer(0)
    else
      var neg := t[0] == '-';
      var j := if t[0] == '-' || t[0] == '+' then 1 else 0;
      var n := Span(IsDigit, t, j);
      SpanAll(IsDigit, t, j);
      var whole: int := DigitsValue(t[j..j + n]);
      if j + n == |t| then
        if n == 0 then NotInteger else Integer(if neg then -whole else whole)
      else if t[j + n] != '.' then NotInteger
      else
        var f := Span(IsDigit, t, j + n + 1);
        if j + n + 1 + f != |t| || (n == 0 && f == 0) then NotInteger
        else if All(c => c == '0', t[j + n + 1..]) then Integer(if neg then -whole else whole)
        else NotInteger
  }

  /** `Number` reads a digit string as its decimal value. */
  lemma {:induction false} NumberValueDigits(s: string)
    requires s != [] && All(IsDigit, s)
    ensures NumberValue(s) == Integer(DigitsValue(s))
  {
    NumberValuePadded([], s);
    assert [] + s == s;
  }

  /** A digit string, already trimmed, is read as its decimal value. */
  lemma {:induction false} DecimalValueDigits(s: string)
    requires s != [] && All(IsDigit, s)
    ensures DecimalValue(s) == Integer(DigitsValue(s))
  {
    assert s[0] != '-' && s[0] != '+';
    assert Span(IsDigit, s, 0) == |s| by {
      assert s[0..|s|] == s;
      SpanIs(IsDigit, s, 0, |s|);
    }
    assert s[0..0 + |s|] == s;
  }

  /** Whitespace before the digits changes nothing: `Number("\t13")` is 13. */
  lemma {:induction false} NumberValuePadded(pad: string, s: string)
    requires All(IsSpace, pad) && s != [] && All(IsDigit, s)
    ensures NumberValue(pad + s) == Integer(DigitsValue(s))
  {
    assert Trim(pad + s) == s by {
      assert !IsSpace(s[0]) && !IsSpace(s[|s| - 1]);
      TrimPadded(pad, s, []);
      assert pad + s + [] == pad + s;
    }
    DecimalValueDigits(s);
  }

  lemma {:induction false} DecimalValueChars(t: string)
    ensures DecimalValue(t).Integer? ==> All(IsNumberChar, t)
  {
    if DecimalValue(t).Integer? && t != [] {
      var j := if t[0] == '-' || t[0] == '+' then 1 else 0;
      var n := Span(IsDigit, t, j);
      SpanAll(IsDigit, t, j);
      forall k | 0 <= k < |t| ensures IsNumberChar(t[k]) {
        if j <= k < j + n {
          assert t[k] == t[j..j + n][k - j];
        } else if j + n + 1 <= k {
          var f := Span(IsDigit, t, j + n + 1);
          SpanAll(IsDigit, t, j + n + 1);
          assert t[k] == t[j + n + 1..j + n + 1 + f][k - (j + n + 1)];
        }
      }
    }
  }

  /** Text with a character outside whitespace, digits, signs and '.' is never an integer to `Number`. */
  lemma {:induction false} NumberValueChars(s: string)
    ensures NumberValue(s).Integer? ==> All(IsNumberChar, s)
  {
    var a := LeadingSpaces(s);
    var t := Trim(s);
    DecimalValueChars(t);
    if NumberValue(s).Integer? {
      Cut2(s, a, a + |t|);
      assert forall c: char :: IsSpace(c) ==> IsNumberChar(c);
      AllConcat(IsNumberChar, s[..a], t);
      AllConcat(IsNumberChar, s[..a] + t, s[a + |t|..]);
    }
  }

  // ---------------------------------------------------------------------------
  // Property lookup on plain objects
  // ---------------------------------------------------------------------------

  /**
   * Properties every object literal inherits from `Object.prototype`; a
   * bracket lookup or an `in` test with one of these names finds it even
   * though the literal does not define it.
   */
  const ObjectPrototypeProperties: set<string> := {
    "constructor", "hasOwnProperty", "isPrototypeOf", "propertyIsEnumerable",
    "toString", "toLocaleString", "valueOf", "__proto__",
    "__defineGetter__", "__defineSetter__", "__lookupGetter__", "__lookupSetter__"
  }

  /** `key in obj` for an object literal whose own keys are `own`. */
  predicate HasProperty(own: set<string>, key: string) {
    key in own || key in ObjectPrototypeProperties
  }

  /** Every inherited property name starts with a Latin letter or '_', never with a Cyrillic letter. */
  lemma {:induction false} InheritedNamesAreNotCyrillic(key: string)
    requires key in ObjectPrototypeProperties
    ensures key != [] && !IsBasicCyrillic(key[0])
  {
  }
}
