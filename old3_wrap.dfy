/**
 * The `exec` loop of `wrapBibleVerses` in content_old3.js (lines 57-84): for
 * each citation the regex finds in a text node, the text before it and a
 * span for it are appended to a fragment, and `lastIndex` moves past it.
 *
 * The regex engine is not modelled: the loop is given the successive
 * non-null results of `verseRegex.exec(text)`, each with its start, the
 * whole match, group 1 (the citation, from the optional '(' to the address
 * and optional ')') and group 2 (the "chapter:verse" address).
 */
module Old3Wrap {
  import opened JsString

  datatype ExecMatch = ExecMatch(index: nat, fullMatch: string, book: string, chapterVerse: string)

  /** What the loop appends: a text node, or a span whose text and `data-reference` are `ref`. */
  datatype Piece = TextNode(text: string) | CitationSpan(ref: string)

  /**
   * A result `exec` can give on `text` for the pattern at content_old3.js:6:
   * the match lies in the text, is group 1 after at most one whitespace
   * character (`(?:^|\s)`), group 1 ends with group 2, the address, possibly
   * followed by ')', and so ends on a character that is not whitespace.
   * Group 1 may begin with '('; what comes before the address is not
   * constrained further.
   */
  predicate ValidMatch(text: string, m: ExecMatch) {
    MatchInText(text, m) && CitationEndsWithAddress(m)
  }

  /** The match lies in the text and is group 1 after at most one whitespace character. */
  predicate MatchInText(text: string, m: ExecMatch) {
    && m.index + |m.fullMatch| <= |text|
    && text[m.index..m.index + |m.fullMatch|] == m.fullMatch
    && |m.book| <= |m.fullMatch| <= |m.book| + 1
    && m.fullMatch[|m.fullMatch| - |m.book|..] == m.book
    && (|m.fullMatch| == |m.book| || IsSpace(m.fullMatch[0]))
    && m.book != [] && !IsSpace(m.book[|m.book| - 1])
  }

  /** Group 1 ends with group 2, the address, possibly followed by ')'. */
  predicate CitationEndsWithAddress(m: ExecMatch) {
    && m.chapterVerse != []
    && (EndsWith(m.book, m.chapterVerse) || EndsWith(m.book, m.chapterVerse + ")"))
  }

  /** `s` ends with `t`. */
  predicate EndsWith(s: string, t: string) {
    |t| <= |s| && s[|s| - |t|..] == t
  }

  /** Successive `exec` results: each valid, each starting where the previous one ended or later. */
  predicate ValidMatches(text: string, ms: seq<ExecMatch>) {
    && MatchesInText(text, ms)
    && (forall k | 0 <= k < |ms| :: CitationEndsWithAddress(ms[k]))
  }

  /** Successive matches that lie in the text, each starting where the previous one ended or later. */
  predicate MatchesInText(text: string, ms: seq<ExecMatch>) {
    && (forall k | 0 <= k < |ms| :: MatchInText(text, ms[k]))
    && (forall k | 0 < k < |ms| :: ms[k - 1].index + |ms[k - 1].fullMatch| <= ms[k].index)
  }

  /** `const ref = `${book} ${chapterVerse}`` (line 66). */
  function AsWrittenRef(m: ExecMatch): string {
    m.book + " " + m.chapterVerse
  }

  /** The citation as written in the text, which group 1 already is. */
  function CorrectedRef(m: ExecMatch): string {
    m.book
  }

  /** `match.index + fullMatch.indexOf(book)` (line 69). */
  function MatchStart(m: ExecMatch): int {
    m.index + IndexOf(m.fullMatch, m.book)
  }

  /** The text node before a citation and the span for it. */
  function Step(text: string, m: ExecMatch, lastIndex: int, ref: ExecMatch -> string): seq<Piece> {
    [TextNode(Substring(text, lastIndex, MatchStart(m))), CitationSpan(ref(m))]
  }

  /** The pieces the loop appends from `lastIndex` on, with `ref` building each span's text, and the closing text node. */
  function Pieces(text: string, ms: seq<ExecMatch>, lastIndex: int, ref: ExecMatch -> string): seq<Piece>
    decreases |ms|
  {
    if ms == [] then [TextNode(Substring(text, lastIndex, |text|))]
    else Step(text, ms[0], lastIndex, ref) + Pieces(text, ms[1..], MatchStart(ms[0]) + |ref(ms[0])|, ref)
  }

  /** One turn of the loop: the pieces from match `i` on are its step followed by the pieces from match `i + 1` on. */
  lemma {:induction false} PiecesFrom(text: string, ms: seq<ExecMatch>, i: nat, lastIndex: int, ref: ExecMatch -> string)
    requires i < |ms|
    ensures Pieces(text, ms[i..], lastIndex, ref)
         == Step(text, ms[i], lastIndex, ref) + Pieces(text, ms[i + 1..], MatchStart(ms[i]) + |ref(ms[i])|, ref)
  {
    assert ms[i..][0] == ms[i] && ms[i..][1..] == ms[i + 1..];
  }

  /** The text a fragment shows. */
  function Visible(pieces: seq<Piece>): string
    decreases |pieces|
  {
    if pieces == [] then []
    else (match pieces[0] case TextNode(t) => t case CitationSpan(r) => r) + Visible(pieces[1..])
  }

  /**
   * The loop of lines 63-84, with the results of `exec` given as `matches`
   * and `ref` building the text of each span: `AsWrittenRef` is line 66 as
   * written, `CorrectedRef` the citation as it stands in the text.
   */
  method WrapTextNode(text: string, matches: seq<ExecMatch>, ref: ExecMatch -> string) returns (fragment: seq<Piece>)
    ensures fragment == Pieces(text, matches, 0, ref)
  {
    fragment := [];
    var lastIndex: int := 0;
    var i := 0;
    assert fragment + Pieces(text, matches[i..], lastIndex, ref) == Pieces(text, matches, 0, ref) by {
      assert matches[0..] == matches;
    }
    while i < |matches|
      invariant 0 <= i <= |matches|
      invariant fragment + Pieces(text, matches[i..], lastIndex, ref) == Pieces(text, matches, 0, ref)
    {
      var m := matches[i];
      var citation := ref(m);
      var matchStart := MatchStart(m);
      AppendStep(fragment, text, matches, i, lastIndex, ref);
      fragment := fragment + [TextNode(Substring(text, lastIndex, matchStart))] + [CitationSpan(citation)];
      lastIndex := matchStart + |citation|;
      i := i + 1;
    }
    LastStep(fragment, text, matches, lastIndex, ref);
    fragment := fragment + [TextNode(Substring(text, lastIndex, |text|))];
  }

  /** The loop with each span showing the citation as written: the fragment shows exactly the text node it replaces. */
  method WrapTextNodeCorrected(text: string, matches: seq<ExecMatch>) returns (fragment: seq<Piece>)
    requires ValidMatches(text, matches)
    ensures fragment == Pieces(text, matches, 0, CorrectedRef)
    ensures Visible(fragment) == text
  {
    fragment := WrapTextNode(text, matches, CorrectedRef);
    CorrectedRoundTrip(text, matches);
  }

  /** After the last match only the closing text node is still to come. */
  lemma {:induction false} LastStep(fragment: seq<Piece>, text: string, ms: seq<ExecMatch>, lastIndex: int, ref: ExecMatch -> string)
    ensures fragment + Pieces(text, ms[|ms|..], lastIndex, ref)
         == fragment + [TextNode(Substring(text, lastIndex, |text|))]
  {
    assert ms[|ms|..] == [];
  }

  /** Appending one step to what the loop has built leaves the pieces still to come from the next match on. */
  lemma {:induction false} AppendStep(fragment: seq<Piece>, text: string, ms: seq<ExecMatch>, i: nat, lastIndex: int, ref: ExecMatch -> string)
    requires i < |ms|
    ensures var m := ms[i];
      fragment + Pieces(text, ms[i..], lastIndex, ref)
      == fragment + [TextNode(Substring(text, lastIndex, MatchStart(m)))] + [CitationSpan(ref(m))]
         + Pieces(text, ms[i + 1..], MatchStart(m) + |ref(m)|, ref)
  {
    var m := ms[i];
    PiecesFrom(text, ms, i, lastIndex, ref);
    var t, c := TextNode(Substring(text, lastIndex, MatchStart(m))), CitationSpan(ref(m));
    var rest := Pieces(text, ms[i + 1..], MatchStart(m) + |ref(m)|, ref);
    assert Step(text, m, lastIndex, ref) == [t] + [c];
    assert fragment + ([t] + [c] + rest) == fragment + [t] + [c] + rest;
  }

  // ---------------------------------------------------------------------------
  // where the citation starts
  // ---------------------------------------------------------------------------

  /** If `w + book` starts with `book`, every character of `book` is `w`. */
  lemma {:induction false} ShiftedPrefix(full: string, book: string, k: nat)
    requires |full| == |book| + 1 && full[1..] == book && full[..|book|] == book
    requires k < |book|
    ensures book[k] == full[0]
  {
    if k > 0 {
      ShiftedPrefix(full, book, k - 1);
      assert book[k] == full[k] == full[1..][k - 1];
    } else {
      assert book[0] == full[..|book|][0];
    }
  }

  /** The offset of group 1 in the match skips the whitespace before it (line 69). */
  lemma {:induction false} MatchStartSkipsLead(text: string, m: ExecMatch)
    requires MatchInText(text, m)
    ensures MatchStart(m) == m.index + |m.fullMatch| - |m.book|
  {
    var full, book := m.fullMatch, m.book;
    var off := |full| - |book|;
    assert full[off..off + |book|] == book;
    assert OccursAt(full, book, off);
    IndexOfFirst(full, book);
    if off == 1 && OccursAt(full, book, 0) {
      ShiftedPrefix(full, book, |book| - 1);
      assert false;
    }
  }

  // ---------------------------------------------------------------------------
  // the rebuilt text
  // ---------------------------------------------------------------------------

  lemma {:induction false} VisibleConcat(a: seq<Piece>, b: seq<Piece>)
    ensures Visible(a + b) == Visible(a) + Visible(b)
    decreases |a|
  {
    if a != [] {
      assert (a + b)[1..] == a[1..] + b;
      VisibleConcat(a[1..], b);
    } else {
      assert a + b == b;
    }
  }

  /** The text shown by a text node and a span. */
  lemma {:induction false} VisibleStep(t: string, r: string)
    ensures Visible([TextNode(t), CitationSpan(r)]) == t + r
  {
    var ps := [TextNode(t), CitationSpan(r)];
    assert ps[0] == TextNode(t) && ps[1..] == [CitationSpan(r)];
    assert ps[1..][0] == CitationSpan(r) && ps[1..][1..] == [];
    assert Visible(ps[1..]) == r + Visible([]);
  }

  /** Group 1 of a valid match is the text from where it starts to where the match ends. */
  lemma {:induction false} BookInText(text: string, m: ExecMatch)
    requires MatchInText(text, m)
    ensures m.book == text[m.index + |m.fullMatch| - |m.book|..m.index + |m.fullMatch|]
  {
    var start, end := m.index + |m.fullMatch| - |m.book|, m.index + |m.fullMatch|;
    assert m.fullMatch[|m.fullMatch| - |m.book|..] == text[m.index..end][start - m.index..];
  }

  /** The pieces for a single match: its step and the closing text node. */
  lemma {:induction false} PiecesOne(text: string, m: ExecMatch, lastIndex: int, ref: ExecMatch -> string)
    ensures Pieces(text, [m], lastIndex, ref)
         == Step(text, m, lastIndex, ref) + [TextNode(Substring(text, MatchStart(m) + |ref(m)|, |text|))]
  {
    assert [m][0] == m && [m][1..] == [];
  }

  /** What one step shows once the citation's start is known. */
  lemma {:induction false} VisibleStepAt(text: string, m: ExecMatch, lastIndex: nat, start: nat, ref: ExecMatch -> string)
    requires MatchStart(m) == start && lastIndex <= start <= |text|
    ensures Visible(Step(text, m, lastIndex, ref)) == text[lastIndex..start] + ref(m)
  {
    assert Step(text, m, lastIndex, ref) == [TextNode(text[lastIndex..start]), CitationSpan(ref(m))];
    VisibleStep(text[lastIndex..start], ref(m));
  }

  /**
   * One turn of the corrected loop keeps the text: if the span shows the
   * text from the citation's start to `end`, and the rest shows the text
   * from `end` on, the pieces show the text from `lastIndex` on.
   */
  lemma {:induction false} CorrectedPiecesStep(text: string, ms: seq<ExecMatch>, lastIndex: nat, start: nat, end: nat)
    requires ms != [] && MatchStart(ms[0]) == start && start + |ms[0].book| == end
    requires lastIndex <= start <= end <= |text| && ms[0].book == text[start..end]
    requires Visible(Pieces(text, ms[1..], end, CorrectedRef)) == text[end..]
    ensures Visible(Pieces(text, ms, lastIndex, CorrectedRef)) == text[lastIndex..]
  {
    var head, rest := Step(text, ms[0], lastIndex, CorrectedRef), Pieces(text, ms[1..], end, CorrectedRef);
    assert Pieces(text, ms, lastIndex, CorrectedRef) == head + rest;
    VisibleConcat(head, rest);
    VisibleStepAt(text, ms[0], lastIndex, start, CorrectedRef);
    SliceJoin(text, lastIndex, start, end);
    SliceJoin(text, lastIndex, end, |text|);
  }

  /** The matches after the first lie in the text in order too. */
  lemma {:induction false} ValidTail(text: string, ms: seq<ExecMatch>)
    requires MatchesInText(text, ms) && ms != []
    ensures MatchesInText(text, ms[1..])
    ensures |ms| > 1 ==> ms[0].index + |ms[0].fullMatch| <= ms[1..][0].index
  {
    forall k | 0 < k < |ms[1..]| ensures ms[1..][k - 1].index + |ms[1..][k - 1].fullMatch| <= ms[1..][k].index {
      assert ms[1..][k - 1] == ms[k] && ms[1..][k] == ms[k + 1];
    }
  }

  /**
   * With group 1 as the span text, the fragment shows the text unchanged:
   * what lies between the citations, each citation, and the rest.
   */
  lemma {:induction false} CorrectedKeepsText(text: string, ms: seq<ExecMatch>, lastIndex: nat)
    requires MatchesInText(text, ms) && lastIndex <= |text|
    requires ms != [] ==> lastIndex <= ms[0].index
    ensures Visible(Pieces(text, ms, lastIndex, CorrectedRef)) == text[lastIndex..]
    decreases |ms|
  {
    if ms == [] {
      assert Visible([TextNode(text[lastIndex..])]) == text[lastIndex..] + Visible([]);
    } else {
      var m := ms[0];
      var start, end := m.index + |m.fullMatch| - |m.book|, m.index + |m.fullMatch|;
      assert MatchStart(m) == start && m.book == text[start..end] by {
        MatchStartSkipsLead(text, m);
        BookInText(text, m);
      }
      assert Visible(Pieces(text, ms[1..], end, CorrectedRef)) == text[end..] by {
        ValidTail(text, ms);
        CorrectedKeepsText(text, ms[1..], end);
      }
      CorrectedPiecesStep(text, ms, lastIndex, start, end);
    }
  }

  /** The rebuilt text node equals the original: the corrected loop loses nothing. */
  lemma {:induction false} CorrectedRoundTrip(text: string, ms: seq<ExecMatch>)
    requires ValidMatches(text, ms)
    ensures Visible(Pieces(text, ms, 0, CorrectedRef)) == text
  {
    CorrectedKeepsText(text, ms, 0);
  }

  /** What the as-written loop shows for one match whose citation starts at `start`. */
  lemma {:induction false} AsWrittenVisibleOne(text: string, m: ExecMatch, start: nat)
    requires MatchStart(m) == start <= |text|
    ensures Visible(Pieces(text, [m], 0, AsWrittenRef))
         == text[..start] + AsWrittenRef(m) + Substring(text, start + |AsWrittenRef(m)|, |text|)
  {
    var after := Substring(text, start + |AsWrittenRef(m)|, |text|);
    PiecesOne(text, m, 0, AsWrittenRef);
    VisibleConcat(Step(text, m, 0, AsWrittenRef), [TextNode(after)]);
    VisibleStepAt(text, m, 0, start, AsWrittenRef);
    assert text[0..start] == text[..start];
    assert Visible([TextNode(after)]) == after + Visible([]);
  }

  /**
   * As written, a span shows group 1 and then the address again, and
   * `lastIndex` skips `|chapterVerse| + 1` characters past the citation:
   * unless the text goes on with exactly " " and the address, the fragment
   * does not show the text it replaces.
   */
  lemma {:induction false} AsWrittenDropsText(text: string, m: ExecMatch)
    requires ValidMatch(text, m)
    requires !RepeatsAddress(text, m.index + |m.fullMatch|, m.chapterVerse)
    ensures Visible(Pieces(text, [m], 0, AsWrittenRef)) != text
  {
    var start, end := m.index + |m.fullMatch| - |m.book|, m.index + |m.fullMatch|;
    MatchPlace(text, m, start, end);
    AsWrittenDropsAt(text, m, start, end);
  }

  /** The text goes on at `end` with " " and `address`. */
  predicate RepeatsAddress(text: string, end: nat, address: string) {
    end + |address| + 1 <= |text| && text[end..end + |address| + 1] == " " + address
  }

  /** Where group 1 sits in the text: the span starts on it and it ends where the match does. */
  lemma {:induction false} MatchPlace(text: string, m: ExecMatch, start: int, end: int)
    requires MatchInText(text, m)
    requires start == m.index + |m.fullMatch| - |m.book| && end == m.index + |m.fullMatch|
    ensures MatchStart(m) == start <= end <= |text| && text[start..end] == m.book
  {
    MatchStartSkipsLead(text, m);
    BookInText(text, m);
  }

  /** The same, once the span's start and group 1's place in the text are known. */
  lemma {:induction false} AsWrittenDropsAt(text: string, m: ExecMatch, start: nat, end: nat)
    requires MatchStart(m) == start <= end <= |text| && text[start..end] == m.book
    requires !RepeatsAddress(text, end, m.chapterVerse)
    ensures Visible(Pieces(text, [m], 0, AsWrittenRef)) != text
  {
    AsWrittenVisibleOne(text, m, start);
    AsWrittenShowsAddressAgain(text, m.book, m.chapterVerse, Substring(text, start + |AsWrittenRef(m)|, |text|), start, end);
  }

  /** Text that reads `book` from `start` to `end` and does not go on with " " and `address` differs from one that does. */
  lemma {:induction false} AsWrittenShowsAddressAgain(text: string, book: string, address: string, after: string, start: nat, end: nat)
    requires start <= end <= |text| && text[start..end] == book
    requires !RepeatsAddress(text, end, address)
    ensures text[..start] + (book + " " + address) + after != text
  {
    var shown := text[..start] + (book + " " + address) + after;
    if end + |address| + 1 <= |text| {
      assert shown[end..end + |address| + 1] == " " + address;
    } else {
      assert |shown| > |text|;
    }
  }

  /** The text node "John 3:16", which the pattern matches whole, is shown as "John 3:16 3:16". */
  lemma {:induction false} AsWrittenDuplicatesAddress()
    ensures var text := "John 3:16";
      && ValidMatch(text, ExecMatch(0, text, text, "3:16"))
      && Visible(Pieces(text, [ExecMatch(0, text, text, "3:16")], 0, AsWrittenRef)) == "John 3:16 3:16"
  {
    var text := "John 3:16";
    var m := ExecMatch(0, text, text, "3:16");
    assert MatchInText(text, m) by {
      assert text[0..|text|] == text;
    }
    assert CitationEndsWithAddress(m) by {
      assert text[|text| - 4..] == "3:16";
    }
    assert MatchStart(m) == 0 by {
      MatchStartSkipsLead(text, m);
    }
    AsWrittenVisibleOne(text, m, 0);
  }
}
