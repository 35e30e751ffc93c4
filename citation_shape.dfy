/**
 * The citations the page scan finds, and the key a citation is looked up by.
 *
 * content.js:5 and content_2.js:2 scan text with the same pattern
 *
 *   (?:^|\s|\()([1-3]?\s*L+\.?(?:\s+L+)*\s+\d{1,3}[.:](\d{1,3}(?:-\d{1,3})?(?:,\d{1,3})*))
 *
 * followed by a lookahead, and content_old4.js:3 by the same pattern without
 * the `\.?` and with a single `\d{1,3}` after the separator. A match is
 * modelled by the parts it is made of (`Citation`), not by a regex engine.
 * The `data-reference` of the span or link that carries a citation is the
 * whole match, trimmed, with every '(', ')' and '.' removed (`LookupKey`),
 * and the tooltip hands that key to `getVerseText`.
 */
module CitationShape {
  import opened Wrappers
  import opened JsString
  import opened Corpus
  import opened ReferencePattern
  import opened NameCorrection
  import opened Resolver
  import opened OldResolver
  import opened Old3Wrap

  /** `\s+L+`: a further word of the book name. */
  datatype Word = Word(gap: string, letters: string)

  predicate IsWord(w: Word) {
    w.gap != [] && All(IsSpace, w.gap) && w.letters != [] && All(IsNameLetter, w.letters)
  }

  function WordsText(words: seq<Word>): string
    decreases |words|
  {
    if words == [] then [] else words[0].gap + words[0].letters + WordsText(words[1..])
  }

  /** `\d{1,3}` */
  predicate IsShortNumber(s: string) {
    1 <= |s| <= 3 && All(IsDigit, s)
  }

  /** A '-' or ',' and the number after it. */
  datatype VerseStep = VerseStep(sep: char, number: string)

  function StepsText(steps: seq<VerseStep>): string
    decreases |steps|
  {
    if steps == [] then [] else [steps[0].sep] + steps[0].number + StepsText(steps[1..])
  }

  /** `\d{1,3}(?:-\d{1,3})?(?:,\d{1,3})*`: at most one range step, and it comes first. */
  predicate IsVerseSteps(steps: seq<VerseStep>) {
    && (forall k | 0 <= k < |steps| :: IsShortNumber(steps[k].number))
    && (forall k | 0 <= k < |steps| :: steps[k].sep == ',' || (k == 0 && steps[k].sep == '-'))
  }

  /** Characters of a book name: whitespace and name letters. */
  predicate IsNameChar(c: char) {
    IsSpace(c) || IsNameLetter(c)
  }

  /** Characters of a verse part: digits, '-' and ','. */
  predicate IsVerseChar(c: char) {
    IsDigit(c) || IsSeparator(c)
  }

  /** Characters of the optional number and the whitespace after it. */
  predicate IsHeadChar(c: char) {
    IsDigit(c) || IsSpace(c)
  }

  /** What the lookup key removes. */
  const Punctuation: set<char> := {'(', ')', '.'}

  /**
   * A match of the scan pattern, part by part: the character before the
   * citation (nothing, whitespace or '('), the optional 1-3 and the
   * whitespace after it, the first word and its optional period, the further
   * words, the whitespace before the chapter, the chapter, the separator
   * ('.' or ':'), the first verse number and the steps after it.
   */
  datatype Citation = Citation(lead: string, number: string, pad: string, first: string, dot: string,
                               words: seq<Word>, gap: string, chapter: string, sep: char,
                               verse: string, steps: seq<VerseStep>)
  {
    /** `match[0]` */
    function Text(): string {
      lead + Head() + Body()
    }

    function Head(): string {
      number + pad
    }

    function Body(): string {
      first + dot + Rest()
    }

    function Rest(): string {
      WordsText(words) + gap + Address()
    }

    function Address(): string {
      chapter + [sep] + Verses()
    }

    function Verses(): string {
      verse + StepsText(steps)
    }

    /** The pattern of content.js:5 and content_2.js:2. */
    predicate Scanned() {
      && (lead == [] || lead == "(" || (|lead| == 1 && IsSpace(lead[0])))
      && |number| <= 1 && (number == [] || '1' <= number[0] <= '3')
      && All(IsSpace, pad)
      && first != [] && All(IsNameLetter, first)
      && (dot == [] || dot == ".")
      && (forall k | 0 <= k < |words| :: IsWord(words[k]))
      && gap != [] && All(IsSpace, gap)
      && IsShortNumber(chapter) && (sep == '.' || sep == ':')
      && IsShortNumber(verse) && IsVerseSteps(steps)
    }

    /** The pattern of content_old4.js:3: no period after the first word, a single verse number. */
    predicate ScannedOld4() {
      Scanned() && dot == [] && steps == []
    }

    /** The book name as the key carries it: trimming drops a leading pad that no digit or '(' holds in place. */
    function KeyName(): string {
      (if lead == "(" || number != [] then Head() else []) + first + WordsText(words)
    }

    /** The address as the key carries it: a '.' separator is removed with the other periods. */
    function KeyAddress(): string {
      chapter + (if sep == ':' then ":" else "") + Verses()
    }
  }

  /** `textContent.trim().replace(/[().]/g, "")` (content.js:142, 177; content_2.js:71, 102; content_old4.js:65, 100). */
  function LookupKey(s: string): (key: string)
    ensures |key| <= |s|
    ensures '(' !in key && ')' !in key && '.' !in key
  {
    StripChars(Trim(s), Punctuation);
    Strip(Trim(s), Punctuation)
  }

  /** The key keeps every character of the text but whitespace and the three removed ones. */
  lemma {:induction false} LookupKeyKeeps(s: string)
    ensures forall c | !IsSpace(c) && c != '(' && c != ')' && c != '.' :: c in LookupKey(s) <==> c in s
  {
    TrimKeepsAll(s);
    StripChars(Trim(s), Punctuation);
  }

  lemma {:induction false} TrimKeepsAll(s: string)
    ensures forall c | !IsSpace(c) :: c in Trim(s) <==> c in s
  {
    forall c | !IsSpace(c) ensures c in Trim(s) <==> c in s {
      TrimKeeps(s, c);
    }
  }

  // ---------------------------------------------------------------------------
  // the characters of a citation
  // ---------------------------------------------------------------------------

  lemma {:induction false} WordsChars(words: seq<Word>)
    requires forall k | 0 <= k < |words| :: IsWord(words[k])
    ensures All(IsNameChar, WordsText(words))
    decreases |words|
  {
    if words != [] {
      var w := words[0];
      assert IsWord(w);
      WordsChars(words[1..]);
      assert All(IsNameChar, w.gap) && All(IsNameChar, w.letters);
      AllConcat(IsNameChar, w.gap, w.letters);
      AllConcat(IsNameChar, w.gap + w.letters, WordsText(words[1..]));
    }
  }

  lemma {:induction false} StepsChars(steps: seq<VerseStep>)
    requires forall k | 0 <= k < |steps| :: IsSeparator(steps[k].sep) && All(IsDigit, steps[k].number)
    ensures All(IsVerseChar, StepsText(steps))
    decreases |steps|
  {
    if steps != [] {
      var st := steps[0];
      StepsChars(steps[1..]);
      assert All(IsVerseChar, [st.sep]) && All(IsVerseChar, st.number);
      AllConcat(IsVerseChar, [st.sep], st.number);
      AllConcat(IsVerseChar, [st.sep] + st.number, StepsText(steps[1..]));
    }
  }

  lemma {:induction false} VersesChars(c: Citation)
    requires c.Scanned()
    ensures All(IsVerseChar, c.Verses())
  {
    StepsChars(c.steps);
    assert All(IsVerseChar, c.verse);
    AllConcat(IsVerseChar, c.verse, StepsText(c.steps));
  }

  /** A character outside class `p` is not in an all-`p` string. */
  lemma {:induction false} NotInClass(p: char -> bool, s: string, x: char)
    requires All(p, s) && !p(x)
    ensures x !in s
  {
  }

  /** The last character of a verse part is a digit. */
  lemma {:induction false} StepsEndInDigit(steps: seq<VerseStep>)
    requires forall k | 0 <= k < |steps| :: steps[k].number != [] && All(IsDigit, steps[k].number)
    ensures StepsText(steps) == [] || IsDigit(StepsText(steps)[|StepsText(steps)| - 1])
    decreases |steps|
  {
    if steps != [] {
      StepsEndInDigit(steps[1..]);
      var st := steps[0];
      assert IsDigit(st.number[|st.number| - 1]);
    }
  }

  // ---------------------------------------------------------------------------
  // the lookup key of a citation
  // ---------------------------------------------------------------------------

  lemma {:induction false} StripKeeps(s: string, p: char -> bool)
    requires All(p, s) && !p('(') && !p(')') && !p('.')
    ensures Strip(s, Punctuation) == s
  {
    forall k | 0 <= k < |s| ensures s[k] !in Punctuation {
      assert p(s[k]);
    }
    StripNone(s, Punctuation);
  }

  /** One character is removed if it is punctuation and kept otherwise. */
  lemma {:induction false} StripOne(x: char)
    ensures Strip([x], Punctuation) == if x in Punctuation then [] else [x]
  {
    assert [x][0] == x && [x][1..] == [];
    assert Strip([], Punctuation) == [];
  }

  /** Stripping three strings glued together strips each of them. */
  lemma {:induction false} StripThree(a: string, m: string, b: string, ra: string, rm: string, rb: string)
    requires Strip(a, Punctuation) == ra && Strip(m, Punctuation) == rm && Strip(b, Punctuation) == rb
    ensures Strip(a + m + b, Punctuation) == ra + rm + rb
  {
    StripConcat(a + m, b, Punctuation);
    StripConcat(a, m, Punctuation);
  }

  lemma {:induction false} StripAddress(c: Citation)
    requires c.Scanned()
    ensures Strip(c.Address(), Punctuation) == c.KeyAddress()
  {
    assert Strip(c.chapter, Punctuation) == c.chapter by {
      StripKeeps(c.chapter, IsDigit);
    }
    assert Strip(c.Verses(), Punctuation) == c.Verses() by {
      VersesChars(c);
      StripKeeps(c.Verses(), IsVerseChar);
    }
    StripOne(c.sep);
    StripThree(c.chapter, [c.sep], c.Verses(), c.chapter, if c.sep == ':' then ":" else "", c.Verses());
  }

  lemma {:induction false} StripRest(c: Citation)
    requires c.Scanned()
    ensures Strip(c.Rest(), Punctuation) == WordsText(c.words) + c.gap + c.KeyAddress()
  {
    var w := WordsText(c.words);
    assert Strip(w, Punctuation) == w by {
      WordsChars(c.words);
      StripKeeps(w, IsNameChar);
    }
    assert Strip(c.gap, Punctuation) == c.gap by {
      StripKeeps(c.gap, IsSpace);
    }
    StripAddress(c);
    StripThree(w, c.gap, c.Address(), w, c.gap, c.KeyAddress());
  }

  lemma {:induction false} StripBody(c: Citation)
    requires c.Scanned()
    ensures Strip(c.Body(), Punctuation) == c.first + (WordsText(c.words) + c.gap + c.KeyAddress())
  {
    assert Strip(c.first, Punctuation) == c.first by {
      StripKeeps(c.first, IsNameLetter);
    }
    assert Strip(c.dot, Punctuation) == [] by {
      if c.dot != [] {
        StripOne('.');
      }
    }
    StripRest(c);
    StripThree(c.first, c.dot, c.Rest(), c.first, [], WordsText(c.words) + c.gap + c.KeyAddress());
    assert c.first + [] == c.first;
  }

  /** The body of a citation starts with a letter and ends with a digit. */
  lemma {:induction false} BodyEnds(c: Citation)
    requires c.Scanned()
    ensures c.Body() != [] && !IsSpace(c.Body()[0]) && !IsSpace(c.Body()[|c.Body()| - 1])
  {
    SpaceIsNoLetter(c.first[0]);
    StepsEndInDigit(c.steps);
    var v := c.Verses();
    assert IsDigit(v[|v| - 1]) by {
      if StepsText(c.steps) == [] {
        assert v == c.verse + [];
      }
    }
    var b := c.first + c.dot + (WordsText(c.words) + c.gap + (c.chapter + [c.sep]));
    assert c.Body() == b + v;
    assert c.Body()[|c.Body()| - 1] == v[|v| - 1];
    SpaceIsNoLetter(v[|v| - 1]);
  }

  /** Whitespace before a string that starts and ends with a non-space is all that trimming removes. */
  lemma {:induction false} TrimAfter(pre: string, x: string, t: string)
    requires All(IsSpace, pre)
    requires x != [] && !IsSpace(x[0]) && !IsSpace(x[|x| - 1])
    requires t == pre + x
    ensures Trim(t) == x
  {
    TrimPadded(pre, x, []);
    assert pre + x + [] == t;
  }

  /** A non-space first character in front of a body that ends in a non-space. */
  lemma {:induction false} FrontEnds(front: string, body: string)
    requires front != [] && !IsSpace(front[0])
    requires body != [] && !IsSpace(body[|body| - 1])
    ensures var t := front + body; t != [] && !IsSpace(t[0]) && !IsSpace(t[|t| - 1])
  {
  }

  /** What trimming a citation leaves: the text from '(' on, from the digit on, or from the first word on. */
  function Trimmed(c: Citation): string {
    if c.lead == "(" then c.Text() else if c.number != [] then c.Head() + c.Body() else c.Body()
  }

  /** Trimming a citation removes the whitespace before it, and the pad when no digit or '(' holds it in place. */
  lemma {:induction false} TrimText(c: Citation)
    requires c.Scanned()
    ensures Trim(c.Text()) == Trimmed(c)
  {
    BodyEnds(c);
    var body := c.Body();
    if c.lead == "(" {
      FrontEnds(c.lead + c.Head(), body);
      TrimAfter([], c.Text(), c.Text());
    } else if c.number != [] {
      FrontEnds(c.number + c.pad, body);
      TrimAfter(c.lead, c.Head() + body, c.Text());
    } else {
      assert All(IsSpace, c.lead) by {
        if c.lead != [] {
          assert IsSpace(c.lead[0]);
        }
      }
      AllConcat(IsSpace, c.lead, c.pad);
      TrimAfter(c.lead + c.pad, body, c.Text());
    }
  }

  /** The optional number and the whitespace after it lose nothing to stripping. */
  lemma {:induction false} StripHead(c: Citation)
    requires c.Scanned()
    ensures Strip(c.Head(), Punctuation) == c.Head()
  {
    assert All(IsHeadChar, c.number) by {
      if c.number != [] {
        assert c.number == [c.number[0]];
        assert IsDigit(c.number[0]);
      }
    }
    assert All(IsHeadChar, c.pad);
    AllConcat(IsHeadChar, c.number, c.pad);
    StripKeeps(c.Head(), IsHeadChar);
  }

  /** Stripping what trimming leaves gives the key name, the whitespace and the key address. */
  lemma {:induction false} StripTrimmed(c: Citation)
    requires c.Scanned()
    ensures Strip(Trimmed(c), Punctuation) == c.KeyName() + c.gap + c.KeyAddress()
  {
    StripBody(c);
    var tail := WordsText(c.words) + c.gap + c.KeyAddress();
    StripHead(c);
    var w, key := WordsText(c.words), c.KeyName() + c.gap + c.KeyAddress();
    if c.lead == "(" {
      StripOne('(');
      StripThree("(", c.Head(), c.Body(), [], c.Head(), c.first + tail);
      assert c.KeyName() == c.Head() + c.first + w;
      Regroup(c.Head(), c.first, w, c.gap, c.KeyAddress());
      assert [] + c.Head() == c.Head();
    } else if c.number != [] {
      StripConcat(c.Head(), c.Body(), Punctuation);
      assert c.KeyName() == c.Head() + c.first + w;
      Regroup(c.Head(), c.first, w, c.gap, c.KeyAddress());
    } else {
      assert c.KeyName() == c.first + w by {
        assert [] + c.first == c.first;
      }
      Regroup([], c.first, w, c.gap, c.KeyAddress());
      assert [] + c.first == c.first;
    }
  }

  /** Regrouping five concatenated strings. */
  lemma {:induction false} Regroup(a: string, b: string, c: string, d: string, e: string)
    ensures a + (b + (c + d + e)) == a + b + c + d + e
  {
  }

  /** The key of a scanned citation: its name, the whitespace, and the address without a '.' separator. */
  lemma {:induction false} KeyOfCitation(c: Citation)
    requires c.Scanned()
    ensures LookupKey(c.Text()) == c.KeyName() + c.gap + c.KeyAddress()
  {
    TrimText(c);
    StripTrimmed(c);
  }

  // ---------------------------------------------------------------------------
  // what the pattern of getVerseText makes of the key
  // ---------------------------------------------------------------------------

  /** The greedy `([,-]\d+)*` runs through every step of a verse part. */
  lemma {:induction false} StepsListEnd(s: string, i: nat, steps: seq<VerseStep>)
    requires i <= |s| && s[i..] == StepsText(steps)
    requires forall k | 0 <= k < |steps| :: IsSeparator(steps[k].sep) && steps[k].number != [] && All(IsDigit, steps[k].number)
    ensures VerseListEnd(s, i) == |s|
    decreases |steps|
  {
    if steps != [] {
      var st, t := steps[0], StepsText(steps[1..]);
      var j := i + 1 + |st.number|;
      StepCut(s, i, st, t);
      assert t != [] ==> t[0] == steps[1..][0].sep;
      StepSpan(s, i, j, st, t);
      StepsListEnd(s, j, steps[1..]);
    } else {
      assert |s[i..]| == 0;
    }
  }

  /** Where the text of one step sits when the rest of the string is that step followed by `t`. */
  lemma {:induction false} StepCut(s: string, i: nat, st: VerseStep, t: string)
    requires i <= |s| && s[i..] == [st.sep] + st.number + t
    ensures var j := i + 1 + |st.number|;
      j <= |s| && s[i] == st.sep && s[i + 1..j] == st.number && s[j..] == t
  {
    var j := i + 1 + |st.number|;
    assert s[i..][0] == st.sep;
    assert s[i + 1..j] == s[i..][1..1 + |st.number|];
    assert s[j..] == s[i..][1 + |st.number|..];
  }

  /** A separator and a digit run that stops before `t`: the verse list goes on from its end. */
  lemma {:induction false} StepSpan(s: string, i: nat, j: nat, st: VerseStep, t: string)
    requires j == i + 1 + |st.number| <= |s| && s[i] == st.sep && s[i + 1..j] == st.number && s[j..] == t
    requires IsSeparator(st.sep) && st.number != [] && All(IsDigit, st.number)
    requires t != [] ==> IsSeparator(t[0])
    ensures VerseListEnd(s, i) == VerseListEnd(s, j)
  {
    assert s[i + 1] == st.number[0];
    if j < |s| {
      assert s[j] == t[0];
    }
    SpanIs(IsDigit, s, i + 1, |st.number|);
    VerseListStep(s, i);
  }

  /** The verse part the scan pattern takes is a verse spec for the pattern of getVerseText. */
  lemma {:induction false} VersePartIsSpec(c: Citation)
    requires c.Scanned()
    ensures IsVerseSpec(c.Verses())
  {
    var v, t := c.Verses(), StepsText(c.steps);
    var n := |c.verse|;
    assert v[0] == c.verse[0];
    assert v[..n] == c.verse && v[n..] == t;
    assert forall k | 0 <= k < |c.steps| ::
      IsSeparator(c.steps[k].sep) && c.steps[k].number != [] && All(IsDigit, c.steps[k].number);
    if t != [] {
      assert v[n] == t[0] == c.steps[0].sep;
    }
    assert v[0..n] == c.verse;
    SpanIs(IsDigit, v, 0, n);
    StepsListEnd(v, n, c.steps);
  }

  /** Neither whitespace nor a name letter is one of the digits 1-3. */
  lemma {:induction false} NameCharNoDigit(x: char)
    requires IsNameChar(x)
    ensures !('1' <= x <= '3')
  {
  }

  /**
   * An optional 1-3, whitespace, a word and at most one more word scan as
   * the book name group 1 of getVerseText's pattern.
   */
  lemma {:induction false} NameIsBookName(number: string, pad: string, first: string, words: seq<Word>)
    requires |number| <= 1 && (number == [] || '1' <= number[0] <= '3')
    requires All(IsSpace, pad) && first != [] && All(IsNameLetter, first)
    requires |words| <= 1 && forall k | 0 <= k < |words| :: IsWord(words[k])
    ensures IsBookName(number + pad + first + WordsText(words))
  {
    var wg, wl := if words == [] then [] else words[0].gap, if words == [] then [] else words[0].letters;
    var h := number + pad + first;
    assert h + WordsText(words) == h + wg + wl by {
      if words != [] {
        assert words[1..] == [];
        assert WordsText(words) == wg + wl + [];
      }
    }
    PartsAreBookName(number, pad, first, wg, wl);
  }

  /** The name group laid out as its runs: the optional digit, whitespace, a word, whitespace, a word. */
  lemma {:induction false} PartsAreBookName(number: string, pad: string, first: string, wg: string, wl: string)
    requires |number| <= 1 && (number == [] || '1' <= number[0] <= '3')
    requires All(IsSpace, pad) && first != [] && All(IsNameLetter, first)
    requires All(IsSpace, wg) && All(IsNameLetter, wl) && (wg == [] <==> wl == [])
    ensures IsBookName(number + pad + first + wg + wl)
  {
    var s := number + pad + first + wg + wl;
    PartsCut(number, pad, first, wg, wl);
    var last := if wl == [] then first[|first| - 1] else wl[|wl| - 1];
    assert s[|s| - 1] == last;
    SpaceIsNoLetter(last);
  }

  /** Where the scan of the name group puts the ends of its runs. */
  lemma {:induction false} PartsCut(number: string, pad: string, first: string, wg: string, wl: string)
    requires |number| <= 1 && (number == [] || '1' <= number[0] <= '3')
    requires All(IsSpace, pad) && first != [] && All(IsNameLetter, first)
    requires All(IsSpace, wg) && All(IsNameLetter, wl) && (wg == [] <==> wl == [])
    ensures var s := number + pad + first + wg + wl;
      var e1 := |number| + |pad| + |first|;
      ScanName(s) == NameCut(|number| + |pad|, e1, e1 + |wg|, |s|)
  {
    var s := number + pad + first + wg + wl;
    var d := |number|;
    var p := d + |pad|;
    var e1 := p + |first|;
    var e2 := e1 + |wg|;
    Pieces4(number + pad, first, wg, wl);
    assert s[d..p] == pad by {
      assert s[d..p] == s[..p][d..p];
    }
    assert s[e2..|s|] == wl by {
      assert s[e2..|s|] == s[e2..];
    }
    LeadOfName(number, pad, first, wg, wl);
    if wg != [] {
      assert s[e1] == wg[0] && s[e2] == wl[0];
      SpaceIsNoLetter(wg[0]);
      SpaceIsNoLetter(wl[0]);
    }
    ScanOfCut(s, d, p, e1, e2);
  }

  /** The optional leading 1-3 of a name group is taken exactly when it is there. */
  lemma {:induction false} LeadOfName(number: string, pad: string, first: string, wg: string, wl: string)
    requires |number| <= 1 && (number == [] || '1' <= number[0] <= '3')
    requires All(IsSpace, pad) && first != [] && All(IsNameLetter, first)
    ensures var s := number + pad + first + wg + wl;
      (if s != [] && '1' <= s[0] <= '3' then 1 else 0) == |number|
  {
    var s := number + pad + first + wg + wl;
    if number == [] {
      assert IsNameChar(s[0]) by {
        if pad != [] {
          assert s[0] == pad[0];
        } else {
          assert s[0] == first[0];
        }
      }
      NameCharNoDigit(s[0]);
    } else {
      assert s[0] == number[0];
    }
  }

  /** Where the runs of the name group end, given the runs themselves. */
  lemma {:induction false} ScanOfCut(s: string, d: nat, p: nat, e1: nat, e2: nat)
    requires d <= p < e1 <= e2 <= |s|
    requires (if s != [] && '1' <= s[0] <= '3' then 1 else 0) == d
    requires All(IsSpace, s[d..p]) && All(IsNameLetter, s[p..e1])
    requires All(IsSpace, s[e1..e2]) && All(IsNameLetter, s[e2..|s|])
    requires e1 == |s| || !IsNameLetter(s[e1])
    requires e2 == |s| || !IsSpace(s[e2])
    ensures ScanName(s) == NameCut(p, e1, e2, |s|)
  {
    RunPair(s, d, p, e1);
    RunPair(s, e1, e2, |s|);
  }

  /** A run of whitespace and then a run of name letters, each as long as it goes. */
  lemma {:induction false} RunPair(s: string, i: nat, j: nat, k: nat)
    requires i <= j <= k <= |s|
    requires All(IsSpace, s[i..j]) && All(IsNameLetter, s[j..k])
    requires j == |s| || !IsSpace(s[j])
    requires k == |s| || !IsNameLetter(s[k])
    ensures Span(IsSpace, s, i) == j - i && Span(IsNameLetter, s, j) == k - j
  {
    SpanIs(IsSpace, s, i, j - i);
    SpanIs(IsNameLetter, s, j, k - j);
  }

  /** The key name of a citation whose name has at most two words is a book name. */
  lemma {:induction false} KeyNameIsBookName(c: Citation)
    requires c.Scanned() && |c.words| <= 1
    ensures IsBookName(c.KeyName())
  {
    if c.lead == "(" || c.number != [] {
      NameIsBookName(c.number, c.pad, c.first, c.words);
    } else {
      NameIsBookName([], [], c.first, c.words);
      assert [] + [] + c.first == [] + c.first;
    }
  }

  // ---------------------------------------------------------------------------
  // what getVerseText does with the key of a citation
  // ---------------------------------------------------------------------------

  /** The pattern of getVerseText needs a colon: a reference without one matches nothing. */
  lemma {:induction false} MatchNeedsColon(s: string)
    ensures MatchReference(s).Some? ==> ':' in s
  {
    if MatchReference(s).Some? {
      var b := AddressStart(s).value;
      AddressSound(s, b);
      var a := MatchAddressAt(s, b).value;
      assert s[a.colon] == ':';
    }
  }

  /** The parts of a key that hold no colon whatever the separator. */
  lemma {:induction false} KeyPartsNoColon(c: Citation)
    requires c.Scanned()
    ensures ':' !in c.KeyName() && ':' !in c.gap && ':' !in c.chapter && ':' !in c.Verses()
  {
    assert ':' !in c.Head() by {
      assert All(IsHeadChar, c.number) by {
        if c.number != [] {
          assert c.number == [c.number[0]];
        }
      }
      NotInClass(IsHeadChar, c.number, ':');
      NotInClass(IsHeadChar, c.pad, ':');
    }
    NotInClass(IsNameLetter, c.first, ':');
    WordsChars(c.words);
    NotInClass(IsNameChar, WordsText(c.words), ':');
    NotInClass(IsSpace, c.gap, ':');
    NotInClass(IsDigit, c.chapter, ':');
    VersesChars(c);
    NotInClass(IsVerseChar, c.Verses(), ':');
  }

  /**
   * A citation written with a period between chapter and verse ("Ів 3.16")
   * is wrapped by the scan, but its key has no colon left, so getVerseText
   * of content.js and of content_2.js returns null for it.
   */
  lemma {:induction false} DotSeparatorNeverResolves(index: BookIndex, c: Citation)
    requires c.Scanned() && c.sep == '.'
    ensures VerseText(index, LookupKey(c.Text())).None?
    ensures VerseTextUncorrected(index, LookupKey(c.Text())).None?
  {
    var key := LookupKey(c.Text());
    DotKeyNoColon(c);
    MatchNeedsColon(key);
    NoMatchNull(index, key);
  }

  /** With a '.' separator the key holds no colon at all. */
  lemma {:induction false} DotKeyNoColon(c: Citation)
    requires c.Scanned() && c.sep == '.'
    ensures ':' !in LookupKey(c.Text())
  {
    KeyOfCitation(c);
    KeyPartsNoColon(c);
    assert c.KeyAddress() == c.chapter + "" + c.Verses();
  }

  /** With a colon, the key is laid out as getVerseText's pattern reads it. */
  lemma {:induction false} ColonKeyLayout(c: Citation)
    requires c.Scanned() && c.sep == ':'
    ensures LookupKey(c.Text()) == c.KeyName() + c.gap + c.chapter + ":" + c.Verses() + []
  {
    KeyOfCitation(c);
    AddressRegroup(c.KeyName() + c.gap, c.chapter, ":", c.Verses());
  }

  /** Regrouping the key around the parts of its address. */
  lemma {:induction false} AddressRegroup(a: string, b: string, c: string, d: string)
    ensures a + (b + c + d) == a + b + c + d + []
  {
  }

  /**
   * A citation with a colon and a name of one or two words resolves, in
   * content.js, to the book the corrected name finds, the chapter and the
   * verses written; in content_2.js to the book the name itself finds.
   */
  lemma {:induction false} CitationResolves(index: BookIndex, c: Citation)
    requires c.Scanned() && c.sep == ':' && |c.words| <= 1
    ensures VerseText(index, LookupKey(c.Text()))
         == ResolveIn(index, CorrectBookName(Trim(c.KeyName())), c.chapter, c.Verses())
    ensures VerseTextUncorrected(index, LookupKey(c.Text()))
         == ResolveIn(index, Trim(c.KeyName()), c.chapter, c.Verses())
  {
    ColonKeyLayout(c);
    KeyNameIsBookName(c);
    VersePartIsSpec(c);
    VerseTextOf(index, c.KeyName(), c.gap, c.chapter, c.Verses(), []);
    VerseTextUncorrectedOf(index, c.KeyName(), c.gap, c.chapter, c.Verses(), []);
  }

  // ---------------------------------------------------------------------------
  // the old versions: content_old4.js keys, content_old3.js references
  // ---------------------------------------------------------------------------

  /**
   * content_old4.js: when the only ' ' of the key lies in the whitespace
   * before the chapter, the key splits there: everything before that space
   * is the name handed to the index, and the chapter and verse are read by
   * their values (`Number` ignores the other whitespace before the chapter).
   * Every other key holds a second ' ', inside the name or the gap, and
   * then the piece read as "chapter:verse" is a word or whitespace.
   */
  lemma {:induction false} Old4Resolves(index: BookIndex, c: Citation, before: string, after: string)
    requires c.ScannedOld4() && c.sep == ':' && ' ' !in c.KeyName()
    requires c.gap == before + " " + after && ' ' !in before && ' ' !in after
    ensures OldVerseText(index, LookupKey(c.Text()))
         == LookupVerse(index, c.KeyName() + before, Integer(DigitsValue(c.chapter)), Integer(DigitsValue(c.verse)))
  {
    ColonKeyLayout(c);
    assert c.Verses() == c.verse + [];
    OldResolvesGap(index, c.KeyName(), before, after, c.chapter, c.verse, LookupKey(c.Text()));
  }

  /** The key "name before' 'after chapter:verse", split at its only space. */
  lemma {:induction false} OldResolvesGap(index: BookIndex, name: string, before: string, after: string,
                                          chapter: string, verse: string, key: string)
    requires key == name + (before + " " + after) + chapter + ":" + (verse + []) + []
    requires ' ' !in name && ' ' !in before && ' ' !in after && All(IsSpace, before + " " + after)
    requires IsShortNumber(chapter) && IsShortNumber(verse)
    ensures OldVerseText(index, key)
         == LookupVerse(index, name + before, Integer(DigitsValue(chapter)), Integer(DigitsValue(verse)))
  {
    var gap := before + " " + after;
    assert All(IsSpace, after) by {
      forall k | 0 <= k < |after| ensures IsSpace(after[k]) {
        assert after[k] == gap[|before| + 1 + k];
      }
    }
    assert key == (name + before) + " " + after + chapter + ":" + verse;
    OldResolvesPadded(index, name + before, after, chapter, verse);
  }

  /**
   * content_old4.js: with a '.' separator the second space-separated piece
   * of the key has no colon, so the verse number is `undefined` and the
   * result is null; a key with no space at all throws.
   */
  lemma {:induction false} Old4DotNeverFound(index: BookIndex, c: Citation)
    requires c.ScannedOld4() && c.sep == '.'
    ensures var key := LookupKey(c.Text());
      OldVerseText(index, key) == if ' ' in key then Null else TypeError
  {
    var key := LookupKey(c.Text());
    OldTypeError(index, key);
    if ' ' in key {
      DotKeyNoColon(c);
      SplitHasTwo(key, ' ');
      SplitKeepsOut(key, ' ', ':');
      var token := Split(key, ' ')[1];
      assert Split(token, ':') == [token];
      OldNaNIsNull(index, key);
    }
  }

  /** Regrouping a key around the space after its first word. */
  lemma {:induction false} NameRegroup(a: string, b: string, g: string, k: string)
    requires g != [] && g[0] == ' '
    ensures a + " " + b + [] + g + k == a + " " + b + " " + (g[1..] + k)
  {
    assert g == " " + g[1..];
  }

  /**
   * content_old4.js: a numbered name such as "1 Кор 13:4" puts the digit
   * where the name should be and the name where the chapter should be: null.
   */
  lemma {:induction false} Old4NumberedNameNull(index: BookIndex, c: Citation)
    requires c.ScannedOld4() && c.number != [] && c.pad == " " && c.words == [] && c.gap[0] == ' '
    ensures OldVerseText(index, LookupKey(c.Text())) == Null
  {
    KeyOfCitation(c);
    NumberedKey(c);
    OldMultiWordNull(index, c.number, c.first, c.gap[1..] + c.KeyAddress());
  }

  lemma {:induction false} NumberedKey(c: Citation)
    requires c.ScannedOld4() && c.number != [] && c.pad == " " && c.words == [] && c.gap[0] == ' '
    ensures ' ' !in c.number
    ensures c.KeyName() + c.gap + c.KeyAddress() == c.number + " " + c.first + " " + (c.gap[1..] + c.KeyAddress())
  {
    assert c.number == [c.number[0]];
    assert c.KeyName() == c.number + " " + c.first + [];
    NameRegroup(c.number, c.first, c.gap, c.KeyAddress());
  }

  /**
   * content_old4.js: a two-word name such as "Пісня Пісень 2:1" puts the
   * second word where the chapter should be: null.
   */
  lemma {:induction false} Old4TwoWordNameNull(index: BookIndex, c: Citation)
    requires c.ScannedOld4() && c.number == [] && c.pad == []
    requires |c.words| == 1 && c.words[0].gap == " " && c.gap[0] == ' '
    ensures OldVerseText(index, LookupKey(c.Text())) == Null
  {
    KeyOfCitation(c);
    TwoWordKey(c);
    NotInClass(IsNameLetter, c.first, ' ');
    OldMultiWordNull(index, c.first, c.words[0].letters, c.gap[1..] + c.KeyAddress());
  }

  lemma {:induction false} TwoWordKey(c: Citation)
    requires c.ScannedOld4() && c.number == [] && c.pad == []
    requires |c.words| == 1 && c.words[0].gap == " " && c.gap[0] == ' '
    ensures c.KeyName() + c.gap + c.KeyAddress() == c.first + " " + c.words[0].letters + " " + (c.gap[1..] + c.KeyAddress())
  {
    var w := c.words[0];
    assert c.KeyName() == c.first + " " + w.letters + [] by {
      assert c.Head() == [];
      assert c.words[1..] == [];
      assert WordsText(c.words) == " " + w.letters + [];
      assert c.KeyName() == [] + c.first + (" " + w.letters + []);
    }
    NameRegroup(c.first, w.letters, c.gap, c.KeyAddress());
  }

  /**
   * content_old3.js: group 1 already ends with the address, so the
   * `data-reference` "name address address" repeats it; the old
   * getVerseText reads only the first two space-separated pieces, so the
   * repeated address changes nothing about the verse shown.
   */
  lemma {:induction false} Old3RefLooksUpCitation(index: BookIndex, m: ExecMatch, name: string)
    requires ' ' !in name && ' ' !in m.chapterVerse && m.book == name + " " + m.chapterVerse
    ensures OldVerseText(index, AsWrittenRef(m)) == OldVerseText(index, CorrectedRef(m))
  {
    OldFirstTwoTokens(index, name, m.chapterVerse, m.chapterVerse);
  }
}
