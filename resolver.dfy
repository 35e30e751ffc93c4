/**
 * `getVerseText` of content.js (lines 89-132) and content_2.js (lines 29-62).
 * A reference is matched against the pattern of `ReferencePattern`; its book
 * name goes to the fuzzy index, its chapter number is looked up in the book
 * found, and the verses its verse part asks for are collected as
 * "n: text" entries and joined with "; ".
 *
 * The two files differ only in the name handed to the index: content.js
 * rewrites it with `correctBookName`, content_2.js passes the trimmed capture.
 */
module Resolver {
  import opened Wrappers
  import opened JsString
  import opened Corpus
  import opened ReferencePattern
  import opened NameCorrection

  // ---------------------------------------------------------------------------
  // specification
  // ---------------------------------------------------------------------------

  /** The entry `${n}: ${verse.text}` for the first verse numbered `n`, or none when there is no such verse. */
  function Entry(verses: seq<Verse>, n: JsNumber): (r: seq<string>)
    ensures |r| <= 1
    ensures r == [] <==> FindVerse(verses, n).None?
    ensures r != [] ==>
              && n.Integer? && r[0] != []
              && r[0] == IntToString(n.value) + ": " + FindVerse(verses, n).value.text
  {
    match FindVerse(verses, n)
    case Some(verse) => [IntToString(n.value) + ": " + verse.text]
    case None => []
  }

  /** The entries for the requested numbers `ns`, taken in order. */
  function ListEntries(verses: seq<Verse>, ns: seq<JsNumber>): seq<string>
    decreases |ns|
  {
    if ns == [] then [] else ListEntries(verses, ns[..|ns| - 1]) + Entry(verses, ns[|ns| - 1])
  }

  /** The entries for every integer from `start` to `end`. */
  function RangeEntries(verses: seq<Verse>, start: int, end: int): seq<string>
    decreases end - start
  {
    if end < start then [] else RangeEntries(verses, start, end - 1) + Entry(verses, Integer(end))
  }

  /** `for (let v = start; v <= end; v++)`: NaN or `undefined` at either end fails the first test. */
  function RangeRequest(verses: seq<Verse>, start: JsNumber, end: JsNumber): seq<string> {
    if start.Integer? && end.Integer? then RangeEntries(verses, start.value, end.value) else []
  }

  /** `s.split(sep).map(Number)`. */
  function SplitNumbers(s: string, sep: char): seq<JsNumber> {
    var parts := Split(s, sep);
    seq(|parts|, k requires 0 <= k < |parts| => NumberValue(parts[k]))
  }

  /**
   * The entries collected for the verse part `spec`: a range when it holds a
   * '-' (only the first two pieces count), otherwise a list when it holds a
   * ',', otherwise one verse read with `parseInt`.
   */
  function RequestedEntries(verses: seq<Verse>, spec: string): seq<string> {
    if '-' in spec then
      var ends := SplitNumbers(spec, '-');
      RangeRequest(verses, ends[0], if |ends| > 1 then ends[1] else NotInteger)
    else if ',' in spec then
      ListEntries(verses, SplitNumbers(spec, ','))
    else
      Entry(verses, ParseInt(spec))
  }

  /** The book found for `query`, its chapter numbered `parseInt(chapter)`, and the joined entries. */
  function ResolveIn(index: BookIndex, query: string, chapter: string, spec: string): Option<string> {
    match FuzzySearchBooks(index, query)
    case None => None
    case Some(book) =>
      match FindChapter(book.chapters, ParseInt(chapter))
      case None => None
      case Some(c) => Some(Join(RequestedEntries(c.verses, spec), "; "))
  }

  /** `match[2].trim().split(":")`: the chapter digits and the verse part of a match. */
  function AddressParts(m: ReferenceMatch): (r: (string, string))
    requires m.WellFormed()
    ensures r == (m.chapter, m.verses)
  {
    var parts := Split(Trim(m.Address()), ':');
    AddressSplit(m);
    (parts[0], parts[1])
  }

  /** content.js `getVerseText`: `None` stands for `null`. */
  function VerseText(index: BookIndex, reference: string): Option<string> {
    match MatchReference(reference)
    case None => None
    case Some(m) =>
      MatchSound(reference);
      var address := AddressParts(m);
      ResolveIn(index, CorrectBookName(Trim(m.bookName)), address.0, address.1)
  }

  /** content_2.js `getVerseText`: the same, with the trimmed name as the query. */
  function VerseTextUncorrected(index: BookIndex, reference: string): Option<string> {
    match MatchReference(reference)
    case None => None
    case Some(m) =>
      MatchSound(reference);
      var address := AddressParts(m);
      ResolveIn(index, Trim(m.bookName), address.0, address.1)
  }

  // ---------------------------------------------------------------------------
  // the loops
  // ---------------------------------------------------------------------------

  /** The range loop: every verse from `start` to `end` that exists, in ascending order. */
  method CollectRange(verses: seq<Verse>, start: int, end: int) returns (texts: seq<string>)
    ensures texts == RangeEntries(verses, start, end)
  {
    texts := [];
    var v := start;
    while v <= end
      invariant v == start || start <= v <= end + 1
      invariant texts == RangeEntries(verses, start, v - 1)
      decreases end - v
    {
      var verse := FindVerse(verses, Integer(v));
      if verse.Some? {
        texts := texts + [IntToString(v) + ": " + verse.value.text];
      }
      v := v + 1;
    }
  }

  /** The `forEach` over the listed numbers. */
  method CollectList(verses: seq<Verse>, ns: seq<JsNumber>) returns (texts: seq<string>)
    ensures texts == ListEntries(verses, ns)
  {
    texts := [];
    for i := 0 to |ns|
      invariant texts == ListEntries(verses, ns[..i])
    {
      assert ns[..i + 1][..i] == ns[..i];
      var verse := FindVerse(verses, ns[i]);
      if verse.Some? {
        texts := texts + [IntToString(ns[i].value) + ": " + verse.value.text];
      }
    }
    assert ns[..|ns|] == ns;
  }

  /** The three-way branch on the verse part. */
  method CollectRequested(verses: seq<Verse>, spec: string) returns (texts: seq<string>)
    ensures texts == RequestedEntries(verses, spec)
  {
    if '-' in spec {
      var ends := SplitNumbers(spec, '-');
      var start, end := ends[0], if |ends| > 1 then ends[1] else NotInteger;
      if start.Integer? && end.Integer? {
        texts := CollectRange(verses, start.value, end.value);
      } else {
        texts := [];
      }
    } else if ',' in spec {
      texts := CollectList(verses, SplitNumbers(spec, ','));
    } else {
      var n := ParseInt(spec);
      var verse := FindVerse(verses, n);
      texts := [];
      if verse.Some? {
        texts := [IntToString(n.value) + ": " + verse.value.text];
      }
    }
  }

  /** Book search, chapter lookup, verse collection and join. */
  method ResolveReference(index: BookIndex, query: string, chapter: string, spec: string) returns (r: Option<string>)
    ensures r == ResolveIn(index, query, chapter, spec)
  {
    var book := FuzzySearchBooks(index, query);
    if book.None? {
      return None;
    }
    var c := FindChapter(book.value.chapters, ParseInt(chapter));
    if c.None? {
      return None;
    }
    var texts := CollectRequested(c.value.verses, spec);
    return Some(Join(texts, "; "));
  }

  /** content.js `getVerseText`. */
  method GetVerseText(index: BookIndex, reference: string) returns (r: Option<string>)
    ensures r == VerseText(index, reference)
  {
    var found := MatchReference(reference);
    if found.None? {
      return None;
    }
    MatchSound(reference);
    var address := AddressParts(found.value);
    r := ResolveReference(index, CorrectBookName(Trim(found.value.bookName)), address.0, address.1);
  }

  /** content_2.js `getVerseText`. */
  method GetVerseTextUncorrected(index: BookIndex, reference: string) returns (r: Option<string>)
    ensures r == VerseTextUncorrected(index, reference)
  {
    var found := MatchReference(reference);
    if found.None? {
      return None;
    }
    MatchSound(reference);
    var address := AddressParts(found.value);
    r := ResolveReference(index, Trim(found.value.bookName), address.0, address.1);
  }

  // ---------------------------------------------------------------------------
  // properties of the list and the range
  // ---------------------------------------------------------------------------

  /** The numbers `start`, `start + 1`, ..., `end`; none when `start > end`. */
  function Ascending(start: int, end: int): (ns: seq<JsNumber>)
    ensures |ns| == if start <= end then end - start + 1 else 0
    ensures forall k | 0 <= k < |ns| :: ns[k] == Integer(start + k)
    decreases end - start
  {
    if end < start then [] else Ascending(start, end - 1) + [Integer(end)]
  }

  /** The range loop asks for exactly the numbers from `start` to `end`, ascending. */
  lemma {:induction false} RangeAsList(verses: seq<Verse>, start: int, end: int)
    ensures RangeEntries(verses, start, end) == ListEntries(verses, Ascending(start, end))
    decreases end - start
  {
    if start <= end {
      var ns := Ascending(start, end);
      assert ns[..|ns| - 1] == Ascending(start, end - 1);
      RangeAsList(verses, start, end - 1);
    }
  }

  /** Entries come in request order: the entries of `a + b` are those of `a`, then those of `b`. */
  lemma {:induction false} ListEntriesAppend(verses: seq<Verse>, a: seq<JsNumber>, b: seq<JsNumber>)
    ensures ListEntries(verses, a + b) == ListEntries(verses, a) + ListEntries(verses, b)
    decreases |b|
  {
    if b == [] {
      assert a + b == a;
    } else {
      var c, n := b[..|b| - 1], b[|b| - 1];
      assert (a + b)[..|a + b| - 1] == a + c && (a + b)[|a + b| - 1] == n;
      var e := Entry(verses, n);
      assert ListEntries(verses, a + b) == ListEntries(verses, a + c) + e;
      ListEntriesAppend(verses, a, c);
      SeqAssoc(ListEntries(verses, a), ListEntries(verses, c), e);
    }
  }

  /** Regrouping three lists of entries. */
  lemma {:induction false} SeqAssoc(x: seq<string>, y: seq<string>, z: seq<string>)
    ensures x + y + z == x + (y + z)
  {
  }

  /** A repeated number gives its entry twice. */
  lemma {:induction false} RepeatKept(verses: seq<Verse>, a: seq<JsNumber>, n: JsNumber)
    ensures ListEntries(verses, a + [n, n]) == ListEntries(verses, a) + Entry(verses, n) + Entry(verses, n)
  {
    ListEntriesAppend(verses, a, [n, n]);
    assert [n, n][..1] == [n];
    assert ListEntries(verses, [n]) == Entry(verses, n) by {
      assert [n][..0] == [];
    }
  }

  /** Every entry comes from a requested number, and every requested number that names a verse gives one. */
  lemma {:induction false} ListEntriesFound(verses: seq<Verse>, ns: seq<JsNumber>, x: string)
    ensures x in ListEntries(verses, ns) <==> exists k | 0 <= k < |ns| :: Entry(verses, ns[k]) == [x]
  {
    if x in ListEntries(verses, ns) {
      var k := ListEntryOrigin(verses, ns, x);
    }
    if exists k | 0 <= k < |ns| :: Entry(verses, ns[k]) == [x] {
      var k :| 0 <= k < |ns| && Entry(verses, ns[k]) == [x];
      ListEntryKept(verses, ns, k, x);
    }
  }

  /** An entry in the list is the entry of some requested number. */
  lemma {:induction false} ListEntryOrigin(verses: seq<Verse>, ns: seq<JsNumber>, x: string) returns (k: nat)
    requires x in ListEntries(verses, ns)
    ensures k < |ns| && Entry(verses, ns[k]) == [x]
    decreases |ns|
  {
    var init, last := ns[..|ns| - 1], ns[|ns| - 1];
    assert ListEntries(verses, ns) == ListEntries(verses, init) + Entry(verses, last);
    if x in ListEntries(verses, init) {
      k := ListEntryOrigin(verses, init, x);
      assert init[k] == ns[k];
    } else {
      var e := Entry(verses, last);
      assert x in e && |e| <= 1;
      assert e == [x];
      k := |ns| - 1;
    }
  }

  /** The entry of every requested number is in the list. */
  lemma {:induction false} ListEntryKept(verses: seq<Verse>, ns: seq<JsNumber>, k: nat, x: string)
    requires k < |ns| && Entry(verses, ns[k]) == [x]
    ensures x in ListEntries(verses, ns)
    decreases |ns|
  {
    var init, last := ns[..|ns| - 1], ns[|ns| - 1];
    assert ListEntries(verses, ns) == ListEntries(verses, init) + Entry(verses, last);
    if k < |ns| - 1 {
      assert init[k] == ns[k];
      ListEntryKept(verses, init, k, x);
    }
  }

  /** The list gives no entry exactly when none of its numbers names a verse. */
  lemma {:induction false} ListEntriesEmpty(verses: seq<Verse>, ns: seq<JsNumber>)
    ensures ListEntries(verses, ns) == [] <==> forall k | 0 <= k < |ns| :: FindVerse(verses, ns[k]).None?
  {
    if ListEntries(verses, ns) == [] {
      forall k | 0 <= k < |ns|
        ensures FindVerse(verses, ns[k]).None?
      {
        var e := Entry(verses, ns[k]);
        if e != [] {
          assert e == [e[0]];
          ListEntryKept(verses, ns, k, e[0]);
        }
      }
    } else {
      var k := ListEntryOrigin(verses, ns, ListEntries(verses, ns)[0]);
    }
  }

  /** Ranges come in ascending order: a range is its lower part followed by its upper part. */
  lemma {:induction false} RangeSplit(verses: seq<Verse>, start: int, mid: int, end: int)
    requires start - 1 <= mid <= end
    ensures RangeEntries(verses, start, end) == RangeEntries(verses, start, mid) + RangeEntries(verses, mid + 1, end)
    decreases end - mid
  {
    if mid < end {
      var e := Entry(verses, Integer(end));
      assert RangeEntries(verses, start, end) == RangeEntries(verses, start, end - 1) + e;
      assert RangeEntries(verses, mid + 1, end) == RangeEntries(verses, mid + 1, end - 1) + e;
      RangeSplit(verses, start, mid, end - 1);
      SeqAssoc(RangeEntries(verses, start, mid), RangeEntries(verses, mid + 1, end - 1), e);
    } else {
      assert RangeEntries(verses, mid + 1, end) == [];
    }
  }

  /** A range entry is the entry of a number between `start` and `end`, and each such number that names a verse gives one. */
  lemma {:induction false} RangeEntriesFound(verses: seq<Verse>, start: int, end: int, x: string)
    ensures x in RangeEntries(verses, start, end) <==> exists v | start <= v <= end :: Entry(verses, Integer(v)) == [x]
  {
    var ns := Ascending(start, end);
    RangeAsList(verses, start, end);
    ListEntriesFound(verses, ns, x);
    if x in RangeEntries(verses, start, end) {
      var k :| 0 <= k < |ns| && Entry(verses, ns[k]) == [x];
      assert ns[k] == Integer(start + k);
    }
    if exists v | start <= v <= end :: Entry(verses, Integer(v)) == [x] {
      var v :| start <= v <= end && Entry(verses, Integer(v)) == [x];
      assert ns[v - start] == Integer(v);
    }
  }

  /** A range gives no entry exactly when no number from `start` to `end` names a verse; `start > end` gives none. */
  lemma {:induction false} RangeEntriesEmpty(verses: seq<Verse>, start: int, end: int)
    ensures RangeEntries(verses, start, end) == [] <==> forall v | start <= v <= end :: FindVerse(verses, Integer(v)).None?
  {
    var ns := Ascending(start, end);
    RangeAsList(verses, start, end);
    ListEntriesEmpty(verses, ns);
    if RangeEntries(verses, start, end) == [] {
      forall v | start <= v <= end ensures FindVerse(verses, Integer(v)).None? {
        assert ns[v - start] == Integer(v);
      }
    }
  }

  // ---------------------------------------------------------------------------
  // properties of the verse part
  // ---------------------------------------------------------------------------

  /** A piece holding a ',' is never a number to `Number`. */
  lemma {:induction false} CommaIsNoNumber(piece: string)
    requires ',' in piece
    ensures NumberValue(piece) == NotInteger
  {
    NumberValueChars(piece);
    var k :| 0 <= k < |piece| && piece[k] == ',';
    assert !IsNumberChar(piece[k]);
  }

  /**
   * A verse part with a '-' and a ',' before the second '-' gives nothing:
   * one end of the range reads as NaN.
   */
  lemma {:induction false} DashWithComma(verses: seq<Verse>, spec: string)
    requires '-' in spec
    requires var pieces := Split(spec, '-'); ',' in pieces[0] || (|pieces| > 1 && ',' in pieces[1])
    ensures RequestedEntries(verses, spec) == []
  {
    var pieces := Split(spec, '-');
    if ',' in pieces[0] {
      CommaIsNoNumber(pieces[0]);
    } else {
      CommaIsNoNumber(pieces[1]);
    }
  }

  /** With digits on both sides of the first '-', the range runs between their values, whatever follows a second '-'. */
  lemma {:induction false} RangeOfDigits(verses: seq<Verse>, spec: string)
    requires '-' in spec
    requires var pieces := Split(spec, '-');
      |pieces| > 1 && pieces[0] != [] && All(IsDigit, pieces[0]) && pieces[1] != [] && All(IsDigit, pieces[1])
    ensures var pieces := Split(spec, '-');
      RequestedEntries(verses, spec) == RangeEntries(verses, DigitsValue(pieces[0]), DigitsValue(pieces[1]))
  {
    var pieces := Split(spec, '-');
    NumberValueDigits(pieces[0]);
    NumberValueDigits(pieces[1]);
  }

  /** A verse part with neither '-' nor ',' asks for one verse, by its digits, and gives at most one entry. */
  lemma {:induction false} SingleVerse(verses: seq<Verse>, spec: string)
    requires IsVerseSpec(spec) && '-' !in spec && ',' !in spec
    ensures All(IsDigit, spec)
    ensures RequestedEntries(verses, spec) == Entry(verses, Integer(DigitsValue(spec)))
    ensures |RequestedEntries(verses, spec)| <= 1
  {
    VerseSpecChars(spec);
    ParseIntDigits(spec);
  }

  /** Every collected entry is a non-empty "n: text". */
  lemma {:induction false} EntriesNonEmpty(verses: seq<Verse>, spec: string)
    ensures [] !in RequestedEntries(verses, spec)
  {
    if '-' in spec {
      var ends := SplitNumbers(spec, '-');
      var start, end := ends[0], if |ends| > 1 then ends[1] else NotInteger;
      if start.Integer? && end.Integer? {
        RangeEntriesFound(verses, start.value, end.value, []);
      }
    } else if ',' in spec {
      ListEntriesFound(verses, SplitNumbers(spec, ','), []);
    }
  }

  // ---------------------------------------------------------------------------
  // properties of the whole lookup
  // ---------------------------------------------------------------------------

  /**
   * `null` exactly when the index is not loaded or finds no book, or the book
   * has no chapter numbered `parseInt(chapter)`.
   */
  lemma {:induction false} ResolveInNull(index: BookIndex, query: string, chapter: string, spec: string)
    ensures index.NotLoaded? ==> ResolveIn(index, query, chapter, spec).None?
    ensures ResolveIn(index, query, chapter, spec).None? <==>
      || FuzzySearchBooks(index, query).None?
      || forall j | 0 <= j < |FuzzySearchBooks(index, query).value.chapters| ::
           ParseInt(chapter) != Integer(FuzzySearchBooks(index, query).value.chapters[j].chapter)
  {
  }

  /** The empty string, not `null`, when the chapter is found but none of the requested verses is. */
  lemma {:induction false} ResolveInEmpty(index: BookIndex, query: string, chapter: string, spec: string)
    requires ResolveIn(index, query, chapter, spec).Some?
    ensures var book := FuzzySearchBooks(index, query).value;
      var c := FindChapter(book.chapters, ParseInt(chapter)).value;
      && ResolveIn(index, query, chapter, spec).value == Join(RequestedEntries(c.verses, spec), "; ")
      && (ResolveIn(index, query, chapter, spec) == Some("") <==> RequestedEntries(c.verses, spec) == [])
  {
    var book := FuzzySearchBooks(index, query).value;
    var c := FindChapter(book.chapters, ParseInt(chapter)).value;
    EntriesNonEmpty(c.verses, spec);
    JoinEmpty(RequestedEntries(c.verses, spec), "; ");
  }

  /** No match of the pattern: `null`, before any lookup. */
  lemma {:induction false} NoMatchNull(index: BookIndex, reference: string)
    requires MatchReference(reference).None?
    ensures VerseText(index, reference).None? && VerseTextUncorrected(index, reference).None?
  {
  }

  /**
   * content.js on a reference laid out as name, whitespace, chapter, ':' and
   * verse part: the query is the corrected trimmed name, the chapter and the
   * verse part are the ones written.
   */
  lemma {:induction false} VerseTextOf(index: BookIndex, name: string, gap: string, chapter: string, verses: string, rest: string)
    requires IsBookName(name) && gap != [] && All(IsSpace, gap)
    requires chapter != [] && All(IsDigit, chapter) && IsVerseSpec(verses) && !ContinuesVerses(rest)
    ensures VerseText(index, name + gap + chapter + ":" + verses + rest)
         == ResolveIn(index, CorrectBookName(Trim(name)), chapter, verses)
  {
    MatchReferenceOf(name, gap, chapter, verses, rest);
  }

  /** content_2.js on the same layout: the query is the trimmed name, with no rewriting. */
  lemma {:induction false} VerseTextUncorrectedOf(index: BookIndex, name: string, gap: string, chapter: string, verses: string, rest: string)
    requires IsBookName(name) && gap != [] && All(IsSpace, gap)
    requires chapter != [] && All(IsDigit, chapter) && IsVerseSpec(verses) && !ContinuesVerses(rest)
    ensures VerseTextUncorrected(index, name + gap + chapter + ":" + verses + rest)
         == ResolveIn(index, Trim(name), chapter, verses)
  {
    MatchReferenceOf(name, gap, chapter, verses, rest);
  }

  /** The chapter is looked up by the value of its digits. */
  lemma {:induction false} ChapterNumber(chapter: string)
    requires chapter != [] && All(IsDigit, chapter)
    ensures ParseInt(chapter) == Integer(DigitsValue(chapter))
  {
    ParseIntDigits(chapter);
  }
}
