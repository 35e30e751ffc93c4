/**
 * `correctBookName` (content.js): rewrites a Ukrainian book-name abbreviation
 * into the fuller name the fuzzy book search is more likely to find. Five
 * exact short forms are replaced first; then a name of the shape
 * `^(\d*)\s*([А-Яа-я]+)\.?$` whose letters are a key of the abbreviation
 * table becomes "<Roman numeral> <table entry>".
 */
module NameCorrection {
  import opened Wrappers
  import opened JsString

  /** The `bookNameMappings` object: abbreviation → the name it stands for. */
  const BookNameMappings: map<string, string> := map[
    "См" := "Самуїлова", "Цр" := "Царів", "Хр" := "Хроніки", "Ів" := "Івана",
    "Пт" := "Петра", "Пет" := "Петра", "Кор" := "до Коринтян", "Кр" := "до Коринтян",
    "Сол" := "до Солунян", "Сл" := "до Солунян", "Тим" := "Тимофію", "Тм" := "Тимофію"
  ]

  /** One `if (name === form || name === dotted) name = full;` statement. */
  datatype ShortFormRule = ShortFormRule(form: string, dotted: string, full: string)
  {
    /** The name this statement leaves behind. */
    function Apply(name: string): string {
      if name == form || name == dotted then full else name
    }
  }

  const JohnRule := ShortFormRule("Ів", "Ів.", "Від Івана")
  const MatthewRule := ShortFormRule("Мт", "Мт.", "Від Матвія")
  const LukeRule := ShortFormRule("Лк", "Лк.", "Від Луки")
  const MarkRule := ShortFormRule("Мр", "Мр.", "Від Марка")
  const HebrewsRule := ShortFormRule("Євр", "Євр.", "До Євреїв")

  /** The five statements run one after the other, each on the name the previous one left. */
  function RewriteShortForm(name: string): string {
    HebrewsRule.Apply(MarkRule.Apply(LukeRule.Apply(MatthewRule.Apply(JohnRule.Apply(name)))))
  }

  /** What the five statements amount to: each exact short form and the full name it stands for. */
  const ShortForms: map<string, string> := map[
    "Ів" := "Від Івана", "Ів." := "Від Івана",
    "Мт" := "Від Матвія", "Мт." := "Від Матвія",
    "Лк" := "Від Луки", "Лк." := "Від Луки",
    "Мр" := "Від Марка", "Мр." := "Від Марка",
    "Євр" := "До Євреїв", "Євр." := "До Євреїв"
  ]

  /**
   * At most one statement fires: no full name is itself a short form, so the
   * later statements leave it alone.
   */
  lemma {:induction false} RewriteShortFormIsLookup(name: string)
    ensures RewriteShortForm(name) == if name in ShortForms then ShortForms[name] else name
  {
  }

  /** A text that is not one of the short forms is not rewritten. */
  lemma {:induction false} NotShortForm(name: string)
    requires name !in ShortForms
    ensures RewriteShortForm(name) == name
  {
  }

  /** The groups of a match of `^(\d*)\s*([А-Яа-я]+)\.?$`, with the unnamed parts kept. */
  datatype AbbrMatch = AbbrMatch(number: string, gap: string, abbreviation: string, dot: string)
  {
    /** The text this match covers. */
    function Text(): string {
      number + gap + abbreviation + dot
    }

    /** Each part is in its class: digits, whitespace, one or more of `[А-Яа-я]`, an optional '.'. */
    predicate WellFormed() {
      All(IsDigit, number) && All(IsSpace, gap) &&
      abbreviation != [] && All(IsBasicCyrillic, abbreviation) &&
      (dot == "" || dot == ".")
    }
  }

  /**
   * `s.match(/^(\d*)\s*([А-Яа-я]+)\.?$/)`. The four classes are disjoint, so
   * the greedy match is the only one: each part is the longest run of its
   * class.
   */
  function MatchNumberedAbbr(s: string): (m: Option<AbbrMatch>)
    ensures m.Some? ==> m.value.WellFormed() && m.value.Text() == s
  {
    var i := Span(IsDigit, s, 0);
    var j := i + Span(IsSpace, s, i);
    var k := j + Span(IsBasicCyrillic, s, j);
    if k == j then None
    else if s[k..] == "" || s[k..] == "." then
      PartsWellFormed(s, i, j, k);
      Some(AbbrMatch(s[..i], s[i..j], s[j..k], s[k..]))
    else None
  }

  lemma {:induction false} PartsWellFormed(s: string, i: nat, j: nat, k: nat)
    requires i == Span(IsDigit, s, 0)
    requires i <= j <= |s| && j == i + Span(IsSpace, s, i)
    requires j < k <= |s| && k == j + Span(IsBasicCyrillic, s, j)
    requires s[k..] == "" || s[k..] == "."
    ensures AbbrMatch(s[..i], s[i..j], s[j..k], s[k..]).WellFormed()
    ensures AbbrMatch(s[..i], s[i..j], s[j..k], s[k..]).Text() == s
  {
    SpanAll(IsDigit, s, 0);
    SpanAll(IsSpace, s, i);
    SpanAll(IsBasicCyrillic, s, j);
    Cut3(s, i, j, k);
  }

  /** Every well-formed decomposition is the one the pattern finds: with the ensures above, an if-and-only-if. */
  lemma {:induction false} MatchNumberedAbbrComplete(m: AbbrMatch)
    requires m.WellFormed()
    ensures MatchNumberedAbbr(m.Text()) == Some(m)
  {
    var s := m.Text();
    var i, j, k := |m.number|, |m.number| + |m.gap|, |m.number| + |m.gap| + |m.abbreviation|;
    SpansOfMatch(m);
    Pieces4(m.number, m.gap, m.abbreviation, m.dot);
    MatchOfSpans(s, i, j, k);
  }

  /** When the three runs end at `i`, `j` and `k` and only the period is left, the match has those parts. */
  lemma {:induction false} MatchOfSpans(s: string, i: nat, j: nat, k: nat)
    requires i == Span(IsDigit, s, 0)
    requires i <= j <= |s| && j == i + Span(IsSpace, s, i)
    requires j < k <= |s| && k == j + Span(IsBasicCyrillic, s, j)
    requires s[k..] == "" || s[k..] == "."
    ensures MatchNumberedAbbr(s) == Some(AbbrMatch(s[..i], s[i..j], s[j..k], s[k..]))
  {
  }

  /** In the text of a well-formed match, each greedy run ends where its part ends. */
  lemma {:induction false} SpansOfMatch(m: AbbrMatch)
    requires m.WellFormed()
    ensures var s, i := m.Text(), |m.number|;
      Span(IsDigit, s, 0) == i
    ensures var s, i := m.Text(), |m.number|;
      Span(IsSpace, s, i) == |m.gap|
    ensures var s, j := m.Text(), |m.number| + |m.gap|;
      Span(IsBasicCyrillic, s, j) == |m.abbreviation|
  {
    var s := m.Text();
    var i, j, k := |m.number|, |m.number| + |m.gap|, |m.number| + |m.gap| + |m.abbreviation|;
    Pieces4(m.number, m.gap, m.abbreviation, m.dot);
    assert s[..i] == s[0..i];
    if i < j {
      assert s[i] == m.gap[0];
    } else {
      assert s[i] == m.abbreviation[0];
    }
    SpanIs(IsDigit, s, 0, i);
    assert s[j] == m.abbreviation[0];
    SpanIs(IsSpace, s, i, j - i);
    if k < |s| {
      assert s[k] == m.dot[0];
    }
    SpanIs(IsBasicCyrillic, s, j, k - j);
  }

  /** `["I", "II", "III"][parseInt(number) - 1]` as a template literal prints it. */
  function RomanNumeral(number: string): string {
    match ParseInt(number)
    case Integer(n) => if 1 <= n <= 3 then ["I", "II", "III"][n - 1] else "undefined"
    case NotInteger => "undefined"
  }

  /** A digit run worth 1, 2 or 3 (leading zeros allowed) gives its numeral; any other run, empty included, gives "undefined". */
  lemma {:induction false} RomanNumeralOfDigits(number: string)
    requires All(IsDigit, number)
    ensures number != [] && DigitsValue(number) == 1 ==> RomanNumeral(number) == "I"
    ensures number != [] && DigitsValue(number) == 2 ==> RomanNumeral(number) == "II"
    ensures number != [] && DigitsValue(number) == 3 ==> RomanNumeral(number) == "III"
    ensures number == [] || !(1 <= DigitsValue(number) <= 3) ==> RomanNumeral(number) == "undefined"
  {
    ParseIntDigits(number);
  }

  /** `correctBookName(name)`: the short-form statements, then the pattern and the table. */
  function CorrectBookName(name: string): string {
    ApplyAbbreviationTable(RewriteShortForm(name))
  }

  /** The part of `correctBookName` after the short-form statements. */
  function ApplyAbbreviationTable(s: string): string {
    match MatchNumberedAbbr(s)
    case Some(m) =>
      if HasProperty(BookNameMappings.Keys, m.abbreviation) then
        if m.abbreviation in BookNameMappings then
          RomanNumeral(m.number) + " " + BookNameMappings[m.abbreviation]
        else
          // `in` also finds the inherited properties of the object, but no
          // inherited name is spelt in Cyrillic.
          InheritedNamesAreNotCyrillic(m.abbreviation);
          assert false; s
      else s
    case None => s
  }

  // ---------------------------------------------------------------------------
  // What correctBookName does
  // ---------------------------------------------------------------------------

  /** Characters a text matching `^(\d*)\s*([А-Яа-я]+)\.?$` can contain. */
  predicate IsAbbrChar(c: char) {
    IsDigit(c) || IsSpace(c) || IsBasicCyrillic(c) || c == '.'
  }

  /** Every character of a well-formed match's text is in one of the four classes. */
  lemma {:induction false} TextChars(m: AbbrMatch)
    requires m.WellFormed()
    ensures All(IsAbbrChar, m.Text())
  {
    AllConcat(IsAbbrChar, m.number, m.gap);
    AllConcat(IsAbbrChar, m.number + m.gap, m.abbreviation);
    AllConcat(IsAbbrChar, m.number + m.gap + m.abbreviation, m.dot);
  }

  /** A text with a character outside the four classes never matches the pattern. */
  lemma {:induction false} NoMatchWithForeignChar(s: string, k: nat)
    requires k < |s| && !IsAbbrChar(s[k])
    ensures MatchNumberedAbbr(s) == None
  {
    if MatchNumberedAbbr(s).Some? {
      TextChars(MatchNumberedAbbr(s).value);
    }
  }

  /**
   * Each short form either falls outside the pattern (its first letter is І
   * or Є) or matches it with an abbreviation that is not a table key.
   */
  lemma {:induction false} ShortFormMatches(s: string)
    requires s in ShortForms
    ensures MatchNumberedAbbr(s).None? || MatchNumberedAbbr(s).value.abbreviation !in BookNameMappings
  {
    if s == "Ів" || s == "Ів." || s == "Євр" || s == "Євр." {
      ForeignInitial(s);
    } else if s == "Мт" || s == "Мт." {
      AbbrWithoutKey(s, "Мт");
    } else if s == "Лк" || s == "Лк." {
      AbbrWithoutKey(s, "Лк");
    } else {
      AbbrWithoutKey(s, "Мр");
    }
  }

  /** The John and Hebrews short forms start with І or Є and so never match. */
  lemma {:induction false} ForeignInitial(s: string)
    requires s in {"Ів", "Ів.", "Євр", "Євр."}
    ensures MatchNumberedAbbr(s).None?
  {
    assert s[0] == 'І' || s[0] == 'Є';
    NoMatchWithForeignChar(s, 0);
  }

  /** A bare abbreviation, with or without its period, that is not a table key. */
  lemma {:induction false} AbbrWithoutKey(s: string, abbreviation: string)
    requires abbreviation != [] && All(IsBasicCyrillic, abbreviation)
    requires s == abbreviation || s == abbreviation + "."
    requires abbreviation !in BookNameMappings
    ensures MatchNumberedAbbr(s).Some? && MatchNumberedAbbr(s).value.abbreviation == abbreviation
  {
    var m := AbbrMatch("", "", abbreviation, if s == abbreviation then "" else ".");
    assert m.Text() == s;
    MatchNumberedAbbrComplete(m);
  }

  /**
   * The exact short forms become the full Gospel and Hebrews names, and those
   * are returned as they are: each holds і or Є, which `[А-Яа-я]` leaves out.
   */
  lemma {:induction false} ShortFormsRewritten(s: string)
    requires s in ShortForms
    ensures CorrectBookName(s) == ShortForms[s]
  {
    RewriteShortFormIsLookup(s);
    FullNameDoesNotMatch(ShortForms[s]);
    KeptByPattern(ShortForms[s]);
  }

  /** The full names hold і or Є, so none of them matches the pattern. */
  lemma {:induction false} FullNameDoesNotMatch(full: string)
    requires full in {"Від Івана", "Від Матвія", "Від Луки", "Від Марка", "До Євреїв"}
    ensures MatchNumberedAbbr(full).None?
  {
    if full == "До Євреїв" {
      assert full[3] == 'Є';
      NoMatchWithForeignChar(full, 3);
    } else {
      assert full[1] == 'і';
      NoMatchWithForeignChar(full, 1);
    }
  }

  /**
   * A numbered abbreviation whose letters are a table key becomes
   * "<numeral> <table entry>", the numeral being what `RomanNumeralOfDigits`
   * gives for the digit run.
   */
  lemma {:induction false} NumberedAbbreviation(m: AbbrMatch)
    requires m.WellFormed() && m.abbreviation in BookNameMappings
    ensures CorrectBookName(m.Text()) == RomanNumeral(m.number) + " " + BookNameMappings[m.abbreviation]
  {
    var s := m.Text();
    MatchNumberedAbbrComplete(m);
    assert s !in ShortForms by {
      if s in ShortForms {
        ShortFormMatches(s);
      }
    }
    NotShortForm(s);
    CorrectionOfMatch(s, m);
  }

  /** A text that matches with a table key gets the numbered full name. */
  lemma {:induction false} CorrectionOfMatch(s: string, m: AbbrMatch)
    requires MatchNumberedAbbr(s) == Some(m) && m.abbreviation in BookNameMappings
    ensures ApplyAbbreviationTable(s) == RomanNumeral(m.number) + " " + BookNameMappings[m.abbreviation]
  {
  }

  /**
   * A text that is not a short form and does not match the pattern with a
   * table key is returned unchanged.
   */
  lemma {:induction false} PassThrough(s: string)
    requires s !in ShortForms
    requires MatchNumberedAbbr(s).None? || MatchNumberedAbbr(s).value.abbreviation !in BookNameMappings
    ensures CorrectBookName(s) == s
  {
    NotShortForm(s);
    KeptByPattern(s);
  }

  /** The pattern step leaves a text alone unless it matches with a table key. */
  lemma {:induction false} KeptByPattern(s: string)
    requires MatchNumberedAbbr(s).None? || MatchNumberedAbbr(s).value.abbreviation !in BookNameMappings
    ensures ApplyAbbreviationTable(s) == s
  {
    if MatchNumberedAbbr(s).Some? {
      var m := MatchNumberedAbbr(s).value;
      assert IsBasicCyrillic(m.abbreviation[0]);
      if m.abbreviation in ObjectPrototypeProperties {
        InheritedNamesAreNotCyrillic(m.abbreviation);
      }
    }
  }

  /** A short form is always changed: each full name is longer than any short form. */
  lemma {:induction false} ShortFormChanged(s: string)
    requires s in ShortForms
    ensures ShortForms[s] != s
  {
    assert |ShortForms[s]| > 4 >= |s|;
  }

  /** The numbered full name starts with 'I' or 'u', which no matching text starts with. */
  lemma {:induction false} NumberedNameDiffers(m: AbbrMatch, name: string)
    requires m.WellFormed()
    ensures RomanNumeral(m.number) + " " + name != m.Text()
  {
    var r := RomanNumeral(m.number) + " " + name;
    TextChars(m);
    assert m.Text()[0] == m.abbreviation[0] || m.Text()[0] in m.number + m.gap;
    assert r[0] == 'I' || r[0] == 'u';
  }

  /**
   * The name changes exactly when it is a short form or matches the pattern
   * with a table key as its abbreviation.
   */
  lemma {:induction false} ChangedExactly(s: string)
    ensures CorrectBookName(s) != s <==>
              s in ShortForms || exists m: AbbrMatch | m.WellFormed() && m.Text() == s :: m.abbreviation in BookNameMappings
  {
    if s in ShortForms {
      ShortFormsRewritten(s);
      ShortFormChanged(s);
    } else if exists m: AbbrMatch | m.WellFormed() && m.Text() == s :: m.abbreviation in BookNameMappings {
      var m: AbbrMatch :| m.WellFormed() && m.Text() == s && m.abbreviation in BookNameMappings;
      NumberedAbbreviation(m);
      NumberedNameDiffers(m, BookNameMappings[m.abbreviation]);
    } else {
      if MatchNumberedAbbr(s).Some? {
        var m := MatchNumberedAbbr(s).value;
        assert m.WellFormed() && m.Text() == s;
      }
      PassThrough(s);
    }
  }

  /** No match ever has "Ів" as its abbreviation: І is outside `[А-Яа-я]`. */
  lemma {:induction false} IvanEntryUnreachable(s: string)
    ensures MatchNumberedAbbr(s).Some? ==> MatchNumberedAbbr(s).value.abbreviation != "Ів"
  {
    if MatchNumberedAbbr(s).Some? {
      assert IsBasicCyrillic(MatchNumberedAbbr(s).value.abbreviation[0]);
    }
  }

  /** So "1 Ів" is returned as it is, although the table has an entry for Ів. */
  lemma {:induction false} FirstIvanKept()
    ensures CorrectBookName("1 Ів") == "1 Ів"
  {
    NoMatchWithForeignChar("1 Ів", 2);
    PassThrough("1 Ів");
  }
}
