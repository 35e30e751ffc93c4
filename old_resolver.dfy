/**
 * `getVerseText` of content_old4.js (lines 42-55) and content_old3.js
 * (lines 41-53), which are the same: the reference is split on the space
 * character, the first piece is the book name for the fuzzy index and the
 * second is "chapter:verse", read with `Number`. One verse is looked up and
 * its bare text returned.
 */
module OldResolver {
  import opened Wrappers
  import opened JsString
  import opened Corpus

  /** The verse text, `null`, or the TypeError thrown by `undefined.split`. */
  datatype OldResult = Found(text: string) | Null | TypeError

  /** `chapterAndVerse.split(":").map(Number)` destructured into two numbers; a missing one is `undefined`. */
  function ChapterAndVerse(address: string): (JsNumber, JsNumber) {
    var numbers := Split(address, ':');
    (NumberValue(numbers[0]), if |numbers| > 1 then NumberValue(numbers[1]) else NotInteger)
  }

  /** The book found for `name`, its chapter numbered `chapter`, and the text of its verse numbered `verse`. */
  function LookupVerse(index: BookIndex, name: string, chapter: JsNumber, verse: JsNumber): (r: OldResult)
    ensures r != TypeError
    ensures r.Found? <==>
      && FuzzySearchBooks(index, name).Some?
      && FindChapter(FuzzySearchBooks(index, name).value.chapters, chapter).Some?
      && FindVerse(FindChapter(FuzzySearchBooks(index, name).value.chapters, chapter).value.verses, verse).Some?
    ensures r.Found? ==>
      r.text == FindVerse(FindChapter(FuzzySearchBooks(index, name).value.chapters, chapter).value.verses, verse).value.text
    ensures r.Found? ==>
      exists book, c, v | book in index.books && c in book.chapters && v in c.verses ::
        chapter == Integer(c.chapter) && verse == Integer(v.verse) && r.text == v.text
  {
    match FuzzySearchBooks(index, name)
    case None => Null
    case Some(book) =>
      match FindChapter(book.chapters, chapter)
      case None => Null
      case Some(c) =>
        match FindVerse(c.verses, verse)
        case None => Null
        case Some(v) => Found(v.text)
  }

  /** `getVerseText(reference)` of the old versions. */
  function OldVerseText(index: BookIndex, reference: string): OldResult {
    var tokens := Split(reference, ' ');
    if |tokens| < 2 then TypeError
    else
      var numbers := ChapterAndVerse(tokens[1]);
      LookupVerse(index, tokens[0], numbers.0, numbers.1)
  }

  /** The call throws exactly when the reference has no space: `chapterAndVerse` is then `undefined`. */
  lemma {:induction false} OldTypeError(index: BookIndex, reference: string)
    ensures OldVerseText(index, reference) == TypeError <==> ' ' !in reference
  {
    if ' ' in reference {
      SplitHasTwo(reference, ' ');
    }
  }

  /** Only the first two space-separated tokens are read; anything after a second space is ignored. */
  lemma {:induction false} OldFirstTwoTokens(index: BookIndex, name: string, address: string, rest: string)
    requires ' ' !in name && ' ' !in address
    ensures OldVerseText(index, name + " " + address + " " + rest) == OldVerseText(index, name + " " + address)
  {
    var long, short := name + " " + address + " " + rest, name + " " + address;
    LongTokens(name, address, rest, long);
    ShortTokens(name, address, short);
  }

  /** The split of "name address rest" starts with `name` and `address`. */
  lemma {:induction false} LongTokens(name: string, address: string, rest: string, long: string)
    requires ' ' !in name && ' ' !in address && long == name + " " + address + " " + rest
    ensures var tokens := Split(long, ' '); |tokens| >= 2 && tokens[0] == name && tokens[1] == address
  {
    var tail := address + " " + rest;
    assert long == name + [' '] + tail;
    FirstSeparator(name, tail, ' ');
    assert tail == address + [' '] + rest;
    FirstSeparator(address, rest, ' ');
  }

  /** The split of "name address" is exactly `name` and `address`. */
  lemma {:induction false} ShortTokens(name: string, address: string, short: string)
    requires ' ' !in name && ' ' !in address && short == name + " " + address
    ensures Split(short, ' ') == [name, address]
  {
    assert short == name + [' '] + address;
    SplitPair(name, address, ' ');
  }

  /** "name chapter:verse" with digit strings is looked up by their values. */
  lemma {:induction false} OldResolvesDigits(index: BookIndex, name: string, chapter: string, verse: string)
    requires ' ' !in name && chapter != [] && All(IsDigit, chapter) && verse != [] && All(IsDigit, verse)
    ensures OldVerseText(index, name + " " + chapter + ":" + verse)
         == LookupVerse(index, name, Integer(DigitsValue(chapter)), Integer(DigitsValue(verse)))
  {
    assert name + " " + [] == name + " ";
    OldResolvesPadded(index, name, [], chapter, verse);
  }

  /**
   * Whitespace other than ' ' between the space and the chapter stays in the
   * second piece, and `Number` ignores it: "name \tchapter:verse" is looked
   * up by the values of the digits.
   */
  lemma {:induction false} OldResolvesPadded(index: BookIndex, name: string, pad: string, chapter: string, verse: string)
    requires ' ' !in name && All(IsSpace, pad) && ' ' !in pad
    requires chapter != [] && All(IsDigit, chapter) && verse != [] && All(IsDigit, verse)
    ensures OldVerseText(index, name + " " + pad + chapter + ":" + verse)
         == LookupVerse(index, name, Integer(DigitsValue(chapter)), Integer(DigitsValue(verse)))
  {
    assert ':' !in pad by {
      forall k | 0 <= k < |pad| ensures pad[k] != ':' {
        assert IsSpace(pad[k]);
      }
    }
    assert ':' !in chapter && ' ' !in chapter by {
      forall k | 0 <= k < |chapter| ensures chapter[k] != ':' && chapter[k] != ' ' {
        assert IsDigit(chapter[k]);
      }
    }
    assert ':' !in verse && ' ' !in verse by {
      forall k | 0 <= k < |verse| ensures verse[k] != ':' && verse[k] != ' ' {
        assert IsDigit(verse[k]);
      }
    }
    var front := pad + chapter;
    var address := front + ":" + verse;
    assert ' ' !in address;
    SplitPair(name, address, ' ');
    assert name + " " + pad + chapter + ":" + verse == name + [' '] + address;
    SplitPair(front, verse, ':');
    assert address == front + [':'] + verse;
    NumberValuePadded(pad, chapter);
    NumberValueDigits(verse);
  }

  /** A chapter or verse that `Number` reads as NaN (or a missing verse) matches nothing: `null`. */
  lemma {:induction false} OldNaNIsNull(index: BookIndex, reference: string)
    requires ' ' in reference
    requires var numbers := ChapterAndVerse(Split(reference, ' ')[1]);
      numbers.0 == NotInteger || numbers.1 == NotInteger
    ensures OldVerseText(index, reference) == Null
  {
    SplitHasTwo(reference, ' ');
  }

  /** A name of more than one word puts a word where the chapter should be: never resolves. */
  lemma {:induction false} OldMultiWordNull(index: BookIndex, first: string, word: string, rest: string)
    requires ' ' !in first && word != [] && All(IsNameLetter, word)
    ensures OldVerseText(index, first + " " + word + " " + rest) == Null
  {
    WordIsNaN(word);
    OldFirstTwoTokens(index, first, word, rest);
    SplitPair(first, word, ' ');
    assert first + " " + word == first + [' '] + word;
    assert ChapterAndVerse(word).0 == NotInteger;
  }

  /** A word of letters has no space or colon and is NaN to `Number`. */
  lemma {:induction false} WordIsNaN(word: string)
    requires word != [] && All(IsNameLetter, word)
    ensures ' ' !in word && ':' !in word && NumberValue(word) == NotInteger
  {
    forall k | 0 <= k < |word| ensures word[k] != ' ' && word[k] != ':' {
      assert IsNameLetter(word[k]);
    }
    NumberValueChars(word);
    assert !IsNumberChar(word[0]);
  }
}
