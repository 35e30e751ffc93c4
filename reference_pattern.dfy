/**
 * The pattern `getVerseText` matches a reference against (content.js:91,
 * content_2.js:31):
 *
 *   ^([1-3]?\s*L+\s*L*)(\s+\d+[:]\d+([,-]\d+)*)      L = [A-Za-zА-Яа-яіїєІЇЄ]
 *
 * written as a scanner that returns the match the backtracking engine finds.
 * The classes involved (the digits 1-3, whitespace, letters) are disjoint,
 * which pins the search down:
 *  - a leading 1, 2 or 3 is always taken: without it `L+` would have to start
 *    on a digit;
 *  - the whitespace before the first word and the first word itself are
 *    maximal runs; a shorter first word only re-creates a state already tried;
 *  - with the longest second whitespace run, the second word is the letter
 *    run that follows, and the address must start right after it;
 *  - failing that, the second whitespace run gives back its last character,
 *    the second word is empty, and the address must start on that character.
 * The address part is greedy throughout and nothing follows it in the
 * pattern, so its runs are maximal.
 */
module ReferencePattern {
  import opened Wrappers
  import opened JsString

  predicate IsSeparator(c: char) {
    c == ',' || c == '-'
  }

  /**
   * The runs group 1 is made of, scanned from the start of `s`: the optional
   * leading 1-3 and whitespace end at `p`, the first word at `e1`, the
   * whitespace after it at `e2` and the second word at `e3`.
   */
  datatype NameCut = NameCut(p: nat, e1: nat, e2: nat, e3: nat)

  function ScanName(s: string): (c: NameCut)
    ensures c.p <= c.e1 <= c.e2 <= c.e3 <= |s|
  {
    var d := if s != [] && '1' <= s[0] <= '3' then 1 else 0;
    var p := d + Span(IsSpace, s, d);
    var e1 := p + Span(IsNameLetter, s, p);
    var e2 := e1 + Span(IsSpace, s, e1);
    NameCut(p, e1, e2, e2 + Span(IsNameLetter, s, e2))
  }

  /** `[1-3]?\s*L+\s*L*`, matched against the whole of `g`. */
  predicate IsBookNameGroup(g: string) {
    var c := ScanName(g);
    c.p < c.e1 && c.e3 == |g|
  }

  /** Where the greedy `([,-]\d+)*` that starts at `i` stops. */
  function VerseListEnd(s: string, i: nat): (e: nat)
    requires i <= |s|
    ensures i <= e <= |s|
    decreases |s| - i
  {
    if i + 1 < |s| && IsSeparator(s[i]) && IsDigit(s[i + 1]) then
      VerseListEnd(s, i + 1 + Span(IsDigit, s, i + 1))
    else i
  }

  /**
   * `\d+([,-]\d+)*` matched against the whole of `v`: a digit run, then the
   * greedy list of separated numbers reaching the end. The grammar is
   * deterministic, so the greedy scan decides membership.
   */
  predicate IsVerseSpec(v: string) {
    v != [] && IsDigit(v[0]) && VerseListEnd(v, Span(IsDigit, v, 0)) == |v|
  }

  /** The positions a match of `\s+\d+[:]\d+([,-]\d+)*` runs through: chapter digits, the colon, the end. */
  datatype AddressCut = AddressCut(chapterStart: nat, colon: nat, end: nat)

  /** `\s+\d+[:]\d+([,-]\d+)*` tried at position `p`. */
  function MatchAddressAt(s: string, p: nat): (r: Option<AddressCut>)
    requires p <= |s|
    ensures r.Some? ==> p < r.value.chapterStart < r.value.colon && r.value.colon + 1 < r.value.end <= |s|
  {
    var q := p + Span(IsSpace, s, p);
    var c := q + Span(IsDigit, s, q);
    if q == p || c == q || c == |s| || s[c] != ':' then None
    else
      var v := c + 1 + Span(IsDigit, s, c + 1);
      if v == c + 1 then None else Some(AddressCut(q, c, VerseListEnd(s, v)))
  }

  /** The two groups, with group 2 cut into its whitespace, chapter and verse spec around the colon. */
  datatype ReferenceMatch = ReferenceMatch(bookName: string, gap: string, chapter: string, verses: string)
  {
    /** Group 2. */
    function Address(): string {
      gap + chapter + ":" + verses
    }

    /** The whole match. */
    function Text(): string {
      bookName + Address()
    }

    predicate WellFormed() {
      IsBookNameGroup(bookName) && gap != [] && All(IsSpace, gap) &&
      chapter != [] && All(IsDigit, chapter) && IsVerseSpec(verses)
    }
  }

  function Groups(s: string, p: nat, a: AddressCut): ReferenceMatch
    requires p < a.chapterStart < a.colon && a.colon + 1 < a.end <= |s|
  {
    ReferenceMatch(s[..p], s[p..a.chapterStart], s[a.chapterStart..a.colon], s[a.colon + 1..a.end])
  }

  /** Where group 1 ends and group 2 starts, if the pattern matches at all. */
  function AddressStart(s: string): (b: Option<nat>)
    ensures b.Some? ==> b.value <= |s| && MatchAddressAt(s, b.value).Some?
  {
    var c := ScanName(s);
    if c.e1 == c.p then None
    else if MatchAddressAt(s, c.e3).Some? then Some(c.e3)
    else if c.e2 > c.e1 && MatchAddressAt(s, c.e2 - 1).Some? then Some(c.e2 - 1)
    else None
  }

  /** `reference.match(...)`: the groups of the match the engine finds, or nothing. */
  function MatchReference(s: string): Option<ReferenceMatch>
  {
    match AddressStart(s)
    case Some(b) => Some(Groups(s, b, MatchAddressAt(s, b).value))
    case None => None
  }

  // ---------------------------------------------------------------------------
  // soundness: what a match consists of
  // ---------------------------------------------------------------------------

  /** The greedy list from `a + k` that stops at `b` stops at the end of `s[a..b]` there too. */
  lemma {:induction false} VerseListEndInSlice(s: string, a: nat, b: nat, k: nat)
    requires a + k <= b <= |s| && VerseListEnd(s, a + k) == b
    ensures VerseListEnd(s[a..b], k) == b - a
    decreases b - (a + k)
  {
    var i := a + k;
    if i + 1 < |s| && IsSeparator(s[i]) && IsDigit(s[i + 1]) {
      var n := Span(IsDigit, s, i + 1);
      SpanWithin(IsDigit, s, a, b, k + 1);
      assert s[a..b][k] == s[i] && s[a..b][k + 1] == s[i + 1];
      VerseListEndInSlice(s, a, b, k + 1 + n);
    }
  }

  /** A match of the address part at `p` is whitespace, chapter digits, a colon and a verse spec. */
  lemma {:induction false} AddressSound(s: string, p: nat)
    requires p <= |s| && MatchAddressAt(s, p).Some?
    ensures var a := MatchAddressAt(s, p).value;
      && All(IsSpace, s[p..a.chapterStart]) && All(IsDigit, s[a.chapterStart..a.colon])
      && s[a.colon] == ':' && IsVerseSpec(s[a.colon + 1..a.end])
  {
    var a := MatchAddressAt(s, p).value;
    var q, c := a.chapterStart, a.colon;
    SpanAll(IsSpace, s, p);
    SpanAll(IsDigit, s, q);
    VerseSpecOfRun(s, c + 1, Span(IsDigit, s, c + 1), a.end);
  }

  /** A digit run followed by the greedy list of separated numbers is a verse spec. */
  lemma {:induction false} VerseSpecOfRun(s: string, i: nat, n: nat, e: nat)
    requires i < |s| && IsDigit(s[i])
    requires n == Span(IsDigit, s, i) && i + n <= e <= |s| && e == VerseListEnd(s, i + n)
    ensures IsVerseSpec(s[i..e])
  {
    var v := s[i..e];
    assert Span(IsDigit, v, 0) == n by { SpanWithin(IsDigit, s, i, e, 0); }
    assert VerseListEnd(v, n) == |v| by { VerseListEndInSlice(s, i, e, n); }
    assert v[0] == s[i];
  }

  /** Group 1 of a match is a whole `[1-3]?\s*L+\s*L*`. */
  lemma {:induction false} BookNameSound(s: string)
    requires AddressStart(s).Some?
    ensures IsBookNameGroup(s[..AddressStart(s).value])
  {
    AddressStartCases(s);
    ScanNamePrefix(s, AddressStart(s).value);
  }

  /** Cut where group 2 can start, the text before it scans as a whole book name group. */
  lemma {:induction false} ScanNamePrefix(s: string, b: nat)
    requires var c := ScanName(s); c.p < c.e1 && (b == c.e3 || (c.e1 < c.e2 && b == c.e2 - 1))
    ensures IsBookNameGroup(s[..b])
  {
    var c := ScanName(s);
    ScanNameHead(s, b);
    var g := s[..b];
    var h := ScanName(g);
    assert g == s[0..b];
    SpanInSlice(IsSpace, s, 0, b, c.e1);
    if b == c.e3 {
      assert h.e2 == c.e2;
      SpanInSlice(IsNameLetter, s, 0, b, c.e2);
    } else {
      assert h.e2 == b;
    }
  }

  /** A prefix that takes in the first word scans the same up to the end of that word. */
  lemma {:induction false} ScanNameHead(s: string, b: nat)
    requires ScanName(s).e1 <= b <= |s|
    ensures ScanName(s[..b]).p == ScanName(s).p && ScanName(s[..b]).e1 == ScanName(s).e1
  {
    var c := ScanName(s);
    var d := if s != [] && '1' <= s[0] <= '3' then 1 else 0;
    var g := s[..b];
    assert g == s[0..b];
    if b > 0 {
      assert g[0] == s[0];
    }
    SpanInSlice(IsSpace, s, 0, b, d);
    SpanInSlice(IsNameLetter, s, 0, b, c.p);
  }

  /** Group 2 starts right after the second word, or on the last character of the whitespace before it. */
  lemma {:induction false} AddressStartCases(s: string)
    requires AddressStart(s).Some?
    ensures var c, b := ScanName(s), AddressStart(s).value;
      c.p < c.e1 && (b == c.e3 || (c.e1 < c.e2 && b == c.e2 - 1))
  {
  }

  /** Every match has the shape of the pattern's two groups. */
  lemma {:induction false} MatchSound(s: string)
    ensures MatchReference(s).Some? ==> MatchReference(s).value.WellFormed()
  {
    if AddressStart(s).Some? {
      var b := AddressStart(s).value;
      GroupsWellFormed(s, b);
      MatchFromStart(s, b, MatchAddressAt(s, b).value);
    }
  }

  lemma {:induction false} GroupsWellFormed(s: string, b: nat)
    requires AddressStart(s) == Some(b)
    ensures Groups(s, b, MatchAddressAt(s, b).value).WellFormed()
  {
    BookNameSound(s);
    AddressSound(s, b);
  }

  /** Group 2 trimmed is the chapter, the colon and the verse spec. */
  lemma {:induction false} AddressTrimmed(m: ReferenceMatch)
    requires m.WellFormed()
    ensures Trim(m.Address()) == m.chapter + ":" + m.verses
  {
    VerseSpecEndsInDigit(m.verses);
    var x := m.chapter + ":" + m.verses;
    assert x[0] == m.chapter[0] && x[|x| - 1] == m.verses[|m.verses| - 1];
    assert m.Address() == m.gap + x + [];
    TrimPadded(m.gap, x, []);
  }

  /** The chapter and the verse spec of a match, cut at its only colon. */
  lemma {:induction false} AddressSplit(m: ReferenceMatch)
    requires m.WellFormed()
    ensures Split(Trim(m.Address()), ':') == [m.chapter, m.verses]
  {
    AddressTrimmed(m);
    VerseSpecChars(m.verses);
    assert ':' !in m.chapter by {
      forall k | 0 <= k < |m.chapter| ensures m.chapter[k] != ':' {
        assert IsDigit(m.chapter[k]);
      }
    }
    SplitPair(m.chapter, m.verses, ':');
  }

  /** The greedy list only takes digits and separators. */
  lemma {:induction false} VerseListChars(v: string, k: nat)
    requires k <= |v|
    ensures forall j | k <= j < VerseListEnd(v, k) :: IsDigit(v[j]) || IsSeparator(v[j])
    decreases |v| - k
  {
    if k + 1 < |v| && IsSeparator(v[k]) && IsDigit(v[k + 1]) {
      var n := Span(IsDigit, v, k + 1);
      DigitRun(v, k + 1);
      VerseListChars(v, k + 1 + n);
    }
  }

  lemma {:induction false} DigitRun(v: string, i: nat)
    requires i <= |v|
    ensures forall j | i <= j < i + Span(IsDigit, v, i) :: IsDigit(v[j])
  {
    var n := Span(IsDigit, v, i);
    SpanAll(IsDigit, v, i);
    forall j | i <= j < i + n ensures IsDigit(v[j]) {
      assert v[j] == v[i..i + n][j - i];
    }
  }

  /** A verse spec is made of digits, commas and hyphens only. */
  lemma {:induction false} VerseSpecChars(v: string)
    requires IsVerseSpec(v)
    ensures forall j | 0 <= j < |v| :: IsDigit(v[j]) || IsSeparator(v[j])
    ensures ':' !in v && '.' !in v
  {
    DigitRun(v, 0);
    VerseListChars(v, Span(IsDigit, v, 0));
  }

  /** After a digit, the greedy list ends on a digit. */
  lemma {:induction false} VerseListEndsInDigit(v: string, k: nat)
    requires 0 < k <= |v| && IsDigit(v[k - 1])
    ensures IsDigit(v[VerseListEnd(v, k) - 1])
    decreases |v| - k
  {
    if k + 1 < |v| && IsSeparator(v[k]) && IsDigit(v[k + 1]) {
      SpanLast(IsDigit, v, k + 1);
      VerseListEndsInDigit(v, k + 1 + Span(IsDigit, v, k + 1));
    }
  }

  lemma {:induction false} VerseSpecEndsInDigit(v: string)
    requires IsVerseSpec(v)
    ensures v != [] && IsDigit(v[|v| - 1])
  {
    SpanLast(IsDigit, v, 0);
    VerseListEndsInDigit(v, Span(IsDigit, v, 0));
  }

  // ---------------------------------------------------------------------------
  // completeness: which references match, and into which groups
  // ---------------------------------------------------------------------------

  /** A book name as the pattern accepts it, with no whitespace at its end. */
  predicate IsBookName(name: string) {
    name != [] && IsBookNameGroup(name) && !IsSpace(name[|name| - 1])
  }

  /** Text after a verse spec that the greedy `([,-]\d+)*` would go on into. */
  predicate ContinuesVerses(rest: string) {
    rest != [] && (IsDigit(rest[0]) || (|rest| > 1 && IsSeparator(rest[0]) && IsDigit(rest[1])))
  }

  /** A verse list that runs to the end of `s[a..b]` and stops there runs to `b` in `s` too. */
  lemma {:induction false} VerseListEndOf(s: string, a: nat, b: nat, k: nat)
    requires a + k <= b <= |s| && VerseListEnd(s[a..b], k) == b - a
    requires !ContinuesVerses(s[b..])
    ensures VerseListEnd(s, a + k) == b
    decreases b - (a + k)
  {
    var v := s[a..b];
    if k + 1 < |v| && IsSeparator(v[k]) && IsDigit(v[k + 1]) {
      VerseListHeadRun(s, a, b, k);
      VerseListStep(s, a + k);
      VerseListEndOf(s, a, b, k + 1 + Span(IsDigit, v, k + 1));
    } else if b + 1 < |s| {
      assert s[b..][0] == s[b] && s[b..][1] == s[b + 1];
    }
  }

  /** A separated number inside `s[a..b]` is a maximal digit run of `s`. */
  lemma {:induction false} VerseListHeadRun(s: string, a: nat, b: nat, k: nat)
    requires a + k + 1 < b <= |s| && IsSeparator(s[a..b][k]) && IsDigit(s[a..b][k + 1])
    requires VerseListEnd(s[a..b], k) == b - a
    requires !ContinuesVerses(s[b..])
    ensures IsSeparator(s[a + k]) && IsDigit(s[a + k + 1])
    ensures Span(IsDigit, s, a + k + 1) == Span(IsDigit, s[a..b], k + 1)
  {
    var v := s[a..b];
    if b < |s| {
      assert s[b..][0] == s[b];
    }
    SpanOfSlice(IsDigit, s, a, b, k + 1);
    assert v[k] == s[a + k] && v[k + 1] == s[a + k + 1];
  }

  /** One separated number taken by the greedy list. */
  lemma {:induction false} VerseListStep(s: string, i: nat)
    requires i + 1 < |s| && IsSeparator(s[i]) && IsDigit(s[i + 1])
    ensures VerseListEnd(s, i) == VerseListEnd(s, i + 1 + Span(IsDigit, s, i + 1))
  {
  }

  lemma {:induction false} VerseSpecEndOf(s: string, i: nat, j: nat)
    requires i <= j <= |s| && IsVerseSpec(s[i..j])
    requires !ContinuesVerses(s[j..])
    ensures Span(IsDigit, s, i) == Span(IsDigit, s[i..j], 0)
    ensures VerseListEnd(s, i + Span(IsDigit, s[i..j], 0)) == j
  {
    if j < |s| {
      assert s[j..][0] == s[j];
    }
    SpanOfSlice(IsDigit, s, i, j, 0);
    VerseListEndOf(s, i, j, Span(IsDigit, s[i..j], 0));
  }

  /** Whitespace, chapter digits, a colon and a verse spec not followed by more of one: the address part matches exactly that. */
  lemma {:induction false} MatchAddressOf(s: string, p: nat, g: nat, c: nat, e: nat)
    requires p < g < c < e <= |s|
    requires All(IsSpace, s[p..g]) && All(IsDigit, s[g..c]) && s[c] == ':'
    requires IsVerseSpec(s[c + 1..e]) && !ContinuesVerses(s[e..])
    ensures MatchAddressAt(s, p) == Some(AddressCut(g, c, e))
  {
    assert s[g] == s[g..c][0];
    SpanIs(IsSpace, s, p, g - p);
    SpanIs(IsDigit, s, g, c - g);
    VerseSpecEndOf(s, c + 1, e);
  }

  /** The positions of the parts of `name + gap + chapter + ":" + verses + rest`. */
  lemma {:induction false} ReferencePieces(name: string, gap: string, chapter: string, verses: string, rest: string)
    ensures var s := name + gap + chapter + ":" + verses + rest;
      var g := |name| + |gap|;
      var c := g + |chapter|;
      var e := c + 1 + |verses|;
      && s[..|name|] == name && s[|name|..g] == gap && s[g..c] == chapter
      && s[c] == ':' && s[c + 1..e] == verses && s[e..] == rest
  {
    var s := name + gap + chapter + ":" + verses + rest;
    var g := |name| + |gap|;
    var c := g + |chapter|;
    var e := c + 1 + |verses|;
    assert s[..|name|] == name;
    assert s[|name|..g] == gap;
    assert s[g..c] == chapter;
    assert s[c] == ':';
    assert s[c + 1..e] == verses;
    assert s[e..] == rest;
  }

  /** A book name followed by whitespace scans the same as the name alone, up to its last word. */
  lemma {:induction false} ScanNameOfBookName(s: string, n: nat)
    requires n < |s| && IsBookName(s[..n]) && IsSpace(s[n])
    ensures var h, c := ScanName(s[..n]), ScanName(s);
      && c.p == h.p && c.e1 == h.e1
      && (h.e2 < n ==> c.e2 == h.e2 && c.e3 == n)
      && (h.e2 == n ==> h.e1 == n)
  {
    SpaceIsNoLetter(s[n]);
    ScanNameHeadOfSlice(s, n);
    ScanNameTailOfSlice(s, n);
  }

  /** With the first word in place, the whitespace and second word of a book name scan the same too. */
  lemma {:induction false} ScanNameTailOfSlice(s: string, n: nat)
    requires n < |s| && IsBookName(s[..n]) && IsSpace(s[n])
    requires ScanName(s).e1 == ScanName(s[..n]).e1
    ensures var h, c := ScanName(s[..n]), ScanName(s);
      && (h.e2 < n ==> c.e2 == h.e2 && c.e3 == n)
      && (h.e2 == n ==> h.e1 == n)
  {
    var g := s[..n];
    var h := ScanName(g);
    assert h.e3 == n;
    if h.e2 < n {
      SpanPairOfSlice(s, n, h.e1, h.e2);
    } else {
      SpanLast(IsSpace, g, h.e1);
    }
  }

  /** Whitespace from `a` to `b` and letters from `b` to `n`, then whitespace: both runs end where they end in `s[..n]`. */
  lemma {:induction false} SpanPairOfSlice(s: string, n: nat, a: nat, b: nat)
    requires a <= b < n < |s| && IsSpace(s[n])
    requires b == a + Span(IsSpace, s[..n], a) && n == b + Span(IsNameLetter, s[..n], b)
    ensures Span(IsSpace, s, a) == b - a && Span(IsNameLetter, s, b) == n - b
  {
    SpaceIsNoLetter(s[n]);
    assert s[..n] == s[0..n];
    SpanOfSlice(IsSpace, s, 0, n, a);
    SpanOfSlice(IsNameLetter, s, 0, n, b);
  }

  /** The leading digit, whitespace and first word of a book name scan the same with whitespace after the name. */
  lemma {:induction false} ScanNameHeadOfSlice(s: string, n: nat)
    requires n < |s| && ScanName(s[..n]).p < ScanName(s[..n]).e1 && !IsNameLetter(s[n])
    ensures ScanName(s).p == ScanName(s[..n]).p && ScanName(s).e1 == ScanName(s[..n]).e1
  {
    var g := s[..n];
    var h := ScanName(g);
    var d := if s != [] && '1' <= s[0] <= '3' then 1 else 0;
    assert g == s[0..n];
    assert g[0] == s[0];
    SpanOfSlice(IsSpace, s, 0, n, d);
    SpanOfSlice(IsNameLetter, s, 0, n, h.p);
  }

  /** A two-word name: group 1 is the name itself. */
  lemma {:induction false} MatchTwoWordName(s: string, n: nat, a: AddressCut)
    requires n < |s| && IsBookName(s[..n]) && ScanName(s[..n]).e2 < n && IsSpace(s[n])
    requires MatchAddressAt(s, n) == Some(a)
    ensures MatchReference(s) == Some(Groups(s, n, a))
  {
    ScanNameOfBookName(s, n);
    AddressStartDirect(s);
    MatchFromStart(s, n, a);
  }

  /**
   * A one-word name: the second word is empty, so group 1 takes the name and
   * all of the whitespace after it but the last character.
   */
  lemma {:induction false} MatchOneWordName(s: string, n: nat, g: nat, c: nat, a: AddressCut)
    requires n < g < c <= |s| && IsBookName(s[..n]) && ScanName(s[..n]).e2 == n
    requires All(IsSpace, s[n..g]) && All(IsDigit, s[g..c]) && MatchAddressAt(s, g - 1) == Some(a)
    ensures MatchReference(s) == Some(Groups(s, g - 1, a))
  {
    assert AddressStart(s) == Some(g - 1) by {
      OneWordAddressStart(s, n, g, c);
    }
    MatchFromStart(s, g - 1, a);
  }

  /** After a one-word name, the second word is empty and the address cannot start on the chapter. */
  lemma {:induction false} OneWordStart(s: string, n: nat, g: nat, c: nat)
    requires n < g < c <= |s| && IsBookName(s[..n]) && ScanName(s[..n]).e2 == n
    requires All(IsSpace, s[n..g]) && All(IsDigit, s[g..c])
    ensures var sc := ScanName(s);
      sc.p < sc.e1 == n && sc.e2 == g == sc.e3 && MatchAddressAt(s, g) == None
  {
    assert s[n] == s[n..g][0];
    assert s[g] == s[g..c][0];
    SpaceIsNoLetter(s[g]);
    ScanNameOfBookName(s, n);
    SpanIs(IsSpace, s, n, g - n);
    assert Span(IsNameLetter, s, g) == 0 && Span(IsSpace, s, g) == 0;
  }

  /** After a one-word name, group 2 starts on the last whitespace character before the chapter. */
  lemma {:induction false} OneWordAddressStart(s: string, n: nat, g: nat, c: nat)
    requires n < g < c <= |s| && IsBookName(s[..n]) && ScanName(s[..n]).e2 == n
    requires All(IsSpace, s[n..g]) && All(IsDigit, s[g..c]) && MatchAddressAt(s, g - 1).Some?
    ensures AddressStart(s) == Some(g - 1)
  {
    OneWordStart(s, n, g, c);
    AddressStartFallback(s);
  }

  lemma {:induction false} MatchFromStart(s: string, b: nat, a: AddressCut)
    requires AddressStart(s) == Some(b) && MatchAddressAt(s, b) == Some(a)
    ensures MatchReference(s) == Some(Groups(s, b, a))
  {
  }

  /** When the address follows the second word, group 2 starts there. */
  lemma {:induction false} AddressStartDirect(s: string)
    requires var c := ScanName(s); c.p < c.e1 && MatchAddressAt(s, c.e3).Some?
    ensures AddressStart(s) == Some(ScanName(s).e3)
  {
  }

  /** When the address does not follow the second word, it is tried one character into the whitespace before it. */
  lemma {:induction false} AddressStartFallback(s: string)
    requires var c := ScanName(s);
      && c.p < c.e1 < c.e2 && MatchAddressAt(s, c.e3).None? && MatchAddressAt(s, c.e2 - 1).Some?
    ensures AddressStart(s) == Some(ScanName(s).e2 - 1)
  {
  }

  /** The round trip on positions: parts laid out at `n`, `g`, `c` and `e` in `s`. */
  lemma {:induction false} MatchReferenceAt(s: string, n: nat, g: nat, c: nat, e: nat)
    requires n < g < c < e <= |s| && IsBookName(s[..n])
    requires All(IsSpace, s[n..g]) && All(IsDigit, s[g..c]) && s[c] == ':'
    requires IsVerseSpec(s[c + 1..e]) && !ContinuesVerses(s[e..])
    ensures var r := MatchReference(s);
      && r.Some? && Trim(r.value.bookName) == Trim(s[..n])
      && r.value.chapter == s[g..c] && r.value.verses == s[c + 1..e]
  {
    var a := AddressCut(g, c, e);
    if ScanName(s[..n]).e2 < n {
      assert MatchAddressAt(s, n) == Some(a) by { MatchAddressOf(s, n, g, c, e); }
      assert s[n] == s[n..g][0];
      MatchTwoWordName(s, n, a);
    } else {
      assert MatchAddressAt(s, g - 1) == Some(a) by {
        AllSub(IsSpace, s, n, g, g - 1, g);
        MatchAddressOf(s, g - 1, g, c, e);
      }
      MatchOneWordName(s, n, g, c, a);
      OneWordGroupTrim(s, n, g);
    }
  }

  /** Group 1 after a one-word name is the name padded with whitespace. */
  lemma {:induction false} OneWordGroupTrim(s: string, n: nat, g: nat)
    requires n < g <= |s| && All(IsSpace, s[n..g])
    ensures Trim(s[..g - 1]) == Trim(s[..n])
  {
    assert s[..g - 1] == s[..n] + s[n..g - 1];
    AllSub(IsSpace, s, n, g, n, g - 1);
    TrimTrailingSpaces(s[..n], s[n..g - 1]);
  }

  /**
   * Round trip: a book name, whitespace, a chapter, a colon and a verse spec,
   * followed by anything that does not extend the verse spec, match with the
   * same book name (up to trailing whitespace), chapter and verse spec.
   */
  lemma {:induction false} MatchReferenceOf(name: string, gap: string, chapter: string, verses: string, rest: string)
    requires IsBookName(name) && gap != [] && All(IsSpace, gap)
    requires chapter != [] && All(IsDigit, chapter) && IsVerseSpec(verses) && !ContinuesVerses(rest)
    ensures var r := MatchReference(name + gap + chapter + ":" + verses + rest);
      && r.Some? && Trim(r.value.bookName) == Trim(name)
      && r.value.chapter == chapter && r.value.verses == verses
  {
    var s := name + gap + chapter + ":" + verses + rest;
    var n := |name|;
    var g := n + |gap|;
    var c := g + |chapter|;
    ReferencePieces(name, gap, chapter, verses, rest);
    MatchReferenceOfPieces(s, name, gap, chapter, verses, rest, n, g, c, c + 1 + |verses|);
  }

  lemma {:induction false} MatchReferenceOfPieces(s: string, name: string, gap: string, chapter: string, verses: string, rest: string,
                               n: nat, g: nat, c: nat, e: nat)
    requires n < g < c < e <= |s|
    requires s[..n] == name && s[n..g] == gap && s[g..c] == chapter && s[c] == ':'
    requires s[c + 1..e] == verses && s[e..] == rest
    requires IsBookName(name) && All(IsSpace, gap) && All(IsDigit, chapter)
    requires IsVerseSpec(verses) && !ContinuesVerses(rest)
    ensures var r := MatchReference(s);
      && r.Some? && Trim(r.value.bookName) == Trim(name)
      && r.value.chapter == chapter && r.value.verses == verses
  {
    MatchReferenceAt(s, n, g, c, e);
  }
}
