/**
 * The loaded `verses.json` document (books → chapters → verses), the
 * `Array.prototype.find` lookups the resolvers run over it, and the Fuse.js
 * book index reduced to what the resolvers observe of it.
 */
module Corpus {
  import opened Wrappers
  import opened JsString

  datatype Verse = Verse(verse: int, text: string)
  datatype Chapter = Chapter(chapter: int, verses: seq<Verse>)
  datatype Book = Book(name: string, chapters: seq<Chapter>)

  /** `xs.findIndex(p)` with "not found" as `|xs|`: the first position whose element satisfies `p`. */
  function FindIndex<T>(xs: seq<T>, p: T -> bool): (i: nat)
    ensures i <= |xs|
    ensures i < |xs| ==> p(xs[i])
    ensures forall j | 0 <= j < i :: !p(xs[j])
    decreases |xs|
  {
    if xs == [] then 0 else if p(xs[0]) then 0 else 1 + FindIndex(xs[1..], p)
  }

  /** `chapters.find((c) => c.chapter === n)`; a non-integer `n` equals no chapter number. */
  function FindChapter(chapters: seq<Chapter>, n: JsNumber): (r: Option<Chapter>)
    ensures r.None? <==> forall j | 0 <= j < |chapters| :: n != Integer(chapters[j].chapter)
    ensures r.Some? ==> n == Integer(r.value.chapter)
    ensures r.Some? ==> exists i | 0 <= i < |chapters| :: chapters[i] == r.value && forall j | 0 <= j < i :: n != Integer(chapters[j].chapter)
  {
    var i := FindIndex(chapters, (c: Chapter) => n == Integer(c.chapter));
    if i < |chapters| then Some(chapters[i]) else None
  }

  /** `verses.find((verse) => verse.verse === n)`: the first verse numbered `n`, if any. */
  function FindVerse(verses: seq<Verse>, n: JsNumber): (r: Option<Verse>)
    ensures r.None? <==> forall j | 0 <= j < |verses| :: n != Integer(verses[j].verse)
    ensures r.Some? ==> n == Integer(r.value.verse)
    ensures r.Some? ==> exists i | 0 <= i < |verses| :: verses[i] == r.value && forall j | 0 <= j < i :: n != Integer(verses[j].verse)
  {
    var i := FindIndex(verses, (v: Verse) => n == Integer(v.verse));
    if i < |verses| then Some(verses[i]) else None
  }

  /**
   * The module-level `fuse` variable: `null` until `verses.json` has been
   * fetched, then a Fuse.js index over the corpus books. Its scoring is not
   * modelled: `bestMatch` stands for `fuse.search(name)[0]`, giving the
   * position of the best-ranked book or nothing when the search is empty.
   */
  datatype BookIndex = NotLoaded | Loaded(books: seq<Book>, bestMatch: string -> Option<nat>)

  /**
   * `fuzzySearchBooks(bookName)`: no book while the index is not loaded,
   * otherwise the best-ranked book. A position outside the book list cannot
   * come from Fuse.js; it is read as an empty search.
   */
  function FuzzySearchBooks(index: BookIndex, name: string): (r: Option<Book>)
    ensures index.NotLoaded? ==> r.None?
    ensures r.Some? ==> index.Loaded? && r.value in index.books
    ensures index.Loaded? && index.bestMatch(name).Some? && index.bestMatch(name).value < |index.books| ==>
              r == Some(index.books[index.bestMatch(name).value])
  {
    match index
    case NotLoaded => None
    case Loaded(books, bestMatch) =>
      match bestMatch(name)
      case Some(i) => if i < |books| then Some(books[i]) else None
      case None => None
  }
}
