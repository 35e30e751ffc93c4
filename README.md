# Bible tooltip: citation resolution

A model of the citation-resolution core of the bibletooltip browser extension. The extension scans page text for Bible citations, such as "Ів 3:16" or "1 Кор 13:4-7". It wraps each citation in a span whose `data-reference` attribute holds a lookup key. On hover, `getVerseText(key)` returns the text shown in the tooltip.

The model covers five generations of that code:

- **content.js** (`JsString`, `Corpus`, `NameCorrection`, `ReferencePattern`, `Resolver`, `CitationShape`):
  - `getVerseText` matches the reference against an anchored pattern.
  - It rewrites the book name with `correctBookName`.
  - It looks the book up in the fuzzy index, finds the chapter, and collects the verses the verse part asks for: a range, a comma list, or one verse.
  - It joins the "n: text" entries with "; ".
  - The page scan (line 5) and the key it stores (lines 142, 177) are modelled as `CitationShape.Citation` and `CitationShape.LookupKey`.
- **content_2.js** (`Resolver.GetVerseTextUncorrected`): the same `getVerseText` without the name correction.
- **content_old4.js** and **content_old3.js** (`OldResolver`): `getVerseText` splits the reference on spaces and reads one verse with `Number`.
- **content_old3.js** (`Old3Wrap`): the `exec` loop that builds the replacement fragment for a text node.
- **bible.js** (`BibleTable`): the fixed six-verse table and its bracket lookup.

Two things are modelled as inputs rather than computed:

- **The book index** is a value, `Corpus.BookIndex`. It is `NotLoaded` until the corpus is fetched; after that it is a function that gives the position of the best-ranked book. The ranking itself is not modelled.
- **The regex engines are not modelled.**
  - `getVerseText`'s pattern is written as a scanner that returns the match a backtracking engine finds. `ReferencePattern.MatchSound` and `ReferencePattern.MatchReferenceOf` show that this match is sound and complete.
  - The page-scan patterns are modelled by the parts a match consists of.
  - The `exec` loop is given the successive `exec` results.

`null` is `None` (or `OldResolver.OldResult.Null`). The `TypeError` the old `getVerseText` throws on a reference without a space is `OldResult.TypeError`.

Three behaviours of the code a reader may not expect:

- A chapter that is found but has none of the requested verses gives `""`, not `null`. This includes a range whose start is above its end. See `Resolver.ResolveInEmpty`.
- `correctBookName` does not pass a fragment through when its abbreviation is in the table but its number is not 1–3, or is absent. The result is "undefined <name>", because the template literal prints `undefined` for the missing numeral. See `NameCorrection.RomanNumeralOfDigits` and `NameCorrection.NumberedAbbreviation`.
- A verse part with two '-' uses only the first two pieces, so "1-2-3" asks for verses 1 to 2. See `Resolver.RangeOfDigits`.

## Model

| member | source | states |
|---|---|---|
| JsString.IsSpace | content.js:91 | `\s`: the ECMAScript WhiteSpace and LineTerminator characters, which are also what `trim` removes |
| JsString.IsBasicCyrillic | content.js:60 | `[А-Яа-я]`: U+0410..U+044F, without і, ї, є, І, Ї and Є |
| JsString.IsNameLetter | content.js:5 | `[A-Za-zА-Яа-яіїєІЇЄ]`: Latin letters, the basic Cyrillic range, and і, ї, є, І, Ї, Є |
| JsString.Trim | content.js:95-96 | `trim` gives the slice of the input between its leading and trailing whitespace runs; the result neither starts nor ends with whitespace |
| JsString.TrimPadded | content.js:95 | trimming whitespace around a string that neither starts nor ends with whitespace gives that string back |
| JsString.TrimTrailingSpaces | content.js:95 | whitespace appended to a string does not change its trimmed form |
| JsString.TrimKeeps | content.js:142 | a non-space character is in the trimmed string exactly when it is in the original |
| JsString.Split | content.js:97 | `split` gives at least one piece, no piece holds the separator, and a string without the separator is its own only piece |
| JsString.JoinSplit | content.js:97 | joining the pieces of a split with the separator gives the string back |
| JsString.SplitJoin | content.js:97 | splitting a join of separator-free pieces gives the pieces back |
| JsString.SplitPair | content.js:97 | `a sep b` with no separator in `a` or `b` splits into exactly `[a, b]` |
| JsString.FirstSeparator | content_old4.js:44 | the first piece of `p sep rest` is `p` when `p` has no separator; the rest is the split of `rest` |
| JsString.SplitHasTwo | content_old4.js:44 | a string holding the separator splits into at least two pieces |
| JsString.SplitKeepsOut | content.js:97 | a character absent from the string is absent from every piece |
| JsString.JoinEmpty | content.js:131 | with a non-empty separator, a join is empty exactly for no pieces or one empty piece |
| JsString.Join | content.js:131 | `join(sep)`: the pieces in order with the separator between neighbours; no pieces give "" |
| JsString.Strip | content.js:142 | `replace(/[().]/g, "")` never lengthens the string |
| JsString.StripChars | content.js:142 | the result holds exactly the characters of the input that are not removed |
| JsString.StripNone | content.js:177 | a string with none of the removed characters is left as it is |
| JsString.StripConcat | content.js:142 | removing characters from a concatenation removes them from each part |
| JsString.Substring | content_old3.js:72 | `substring(start, end)` is the slice between the two positions, in either order, when both lie in the string |
| JsString.IndexOf | content_old3.js:69 | `indexOf` gives -1 or a position at which the needle occurs |
| JsString.IndexOfFirst | content_old3.js:69 | no occurrence lies before the position `indexOf` gives, and there is none at all when it gives -1 |
| JsString.NatToString | content.js:117 | `${n}` is a digit string without leading zeros whose value is `n` |
| JsString.IntToString | content.js:117 | `${v}` for an integer: a '-' before the digits of a negative value |
| JsString.ParseInt | content.js:98 | `parseInt` without a radix, on decimal text: leading whitespace and one sign are skipped, the longest digit run is read, and no digits give NaN; a "0x" prefix is not modelled, and it cannot arise, because content.js:77, 98 and 126 pass only `\d*`/`\d+` runs |
| JsString.ParseIntDigits | content.js:98 | `parseInt` of a digit string is its decimal value; of "" it is NaN |
| JsString.NumberValueDigits | content.js:114 | `Number` of a non-empty digit string is its decimal value |
| JsString.DecimalValueDigits | content.js:114 | a trimmed non-empty digit string is read as its decimal value |
| JsString.NumberValuePadded | content_old4.js:45 | `Number` of whitespace followed by a digit string is the digits' value |
| JsString.NumberValue | content.js:114 | `Number` on decimal text: the trimmed text is read by `DecimalValue` |
| JsString.DecimalValue | content.js:114 | "" is 0; a sign, digits and a fraction of zeros give an integer; anything else is not an integer |
| JsString.NumberValueChars | content.js:120 | `Number` gives an integer only for text made of whitespace, digits, signs and '.' |
| JsString.InheritedNamesAreNotCyrillic | content.js:79 | no property an object inherits has a name starting with a letter of `[А-Яа-я]`, so `in bookNameMappings` finds only table keys there |
| JsString.HasProperty | content.js:79 | `key in obj` is true for the object's own keys and for every inherited property name |
| Corpus.FindChapter | content.js:106 | `find` on chapters gives nothing exactly when no chapter has the number; otherwise it gives the first chapter with that number |
| Corpus.FindVerse | content.js:116 | `find` on verses gives nothing exactly when no verse has the number; otherwise it gives the first verse with that number |
| Corpus.FuzzySearchBooks | content.js:35-40 | no book before the index is loaded; afterwards the best-ranked book, which is one of the indexed books |
| NameCorrection.BookNameMappings | content.js:44-57 | the twelve abbreviations and the name each stands for |
| NameCorrection.ShortFormRule.Apply | content.js:62-71 | one `if (name === form \|\| name === dotted) name = full;` statement: the full name for either form, otherwise the name unchanged |
| NameCorrection.JohnRule | content.js:62-63 | "Ів" and "Ів." become "Від Івана" |
| NameCorrection.MatthewRule | content.js:64-65 | "Мт" and "Мт." become "Від Матвія" |
| NameCorrection.LukeRule | content.js:66-67 | "Лк" and "Лк." become "Від Луки" |
| NameCorrection.MarkRule | content.js:68-69 | "Мр" and "Мр." become "Від Марка" |
| NameCorrection.HebrewsRule | content.js:70-71 | "Євр" and "Євр." become "До Євреїв" |
| NameCorrection.RewriteShortFormIsLookup | content.js:62-71 | the five sequential `if` statements replace exactly the ten short forms by their full names and leave every other name alone |
| NameCorrection.NotShortForm | content.js:62-71 | a name that is not a short form passes the five statements unchanged |
| NameCorrection.RewriteShortForm | content.js:62-71 | the five `if` statements applied in order, each replacing its two short forms by one full name |
| NameCorrection.MatchNumberedAbbr | content.js:73 | a match of `^(\d*)\s*([А-Яа-я]+)\.?$` is a well-formed digits/space/letters/period split of the whole text |
| NameCorrection.MatchNumberedAbbrComplete | content.js:60 | every well-formed split is the match found, so matching is an if-and-only-if |
| NameCorrection.NoMatchWithForeignChar | content.js:60 | a text with a character outside digits, whitespace, `[А-Яа-я]` and '.' never matches |
| NameCorrection.ForeignInitial | content.js:60-62 | the John and Hebrews short forms start with І or Є and never match the pattern |
| NameCorrection.FullNameDoesNotMatch | content.js:63-71 | none of the five full names matches the pattern |
| NameCorrection.ShortFormMatches | content.js:62-79 | no short form itself matches the pattern with a table key |
| NameCorrection.RomanNumeralOfDigits | content.js:77 | a digit run worth 1, 2 or 3 gives "I", "II" or "III"; any other run, the empty one included, prints as "undefined" |
| NameCorrection.RomanNumeral | content.js:77 | the numeral the array lookup gives for `parseInt(number) - 1`, or "undefined" outside the array |
| NameCorrection.CorrectBookName | content.js:42-86 | `correctBookName`: the short-form statements, then the pattern and the abbreviation table |
| NameCorrection.ApplyAbbreviationTable | content.js:73-85 | a match whose abbreviation is in the table becomes the numeral, a space and the table entry; anything else is returned as it is |
| NameCorrection.ShortFormsRewritten | content.js:62-85 | `correctBookName` of a short form is its full name |
| NameCorrection.NumberedAbbreviation | content.js:73-81 | a matching text whose abbreviation is a table key becomes the numeral, a space and the table entry |
| NameCorrection.CorrectionOfMatch | content.js:73-81 | the pattern step returns the numbered full name for a match with a table key |
| NameCorrection.KeptByPattern | content.js:73-85 | the pattern step leaves a text alone unless it matches with a table key |
| NameCorrection.PassThrough | content.js:84-85 | a name that is neither a short form nor a match with a table key is returned unchanged |
| NameCorrection.ChangedExactly | content.js:42-86 | `correctBookName` changes a name exactly when it is a short form or matches with a table key |
| NameCorrection.IvanEntryUnreachable | content.js:48 | no match has "Ів" as its abbreviation, because І is outside `[А-Яа-я]` |
| NameCorrection.FirstIvanKept | content.js:48-85 | "1 Ів" is returned unchanged although the table has an entry for Ів |
| ReferencePattern.VerseListEnd | content.js:91 | where the greedy `([,-]\d+)*` starting at a position stops; it never moves back and never passes the end |
| ReferencePattern.MatchAddressAt | content.js:91 | a match of `\s+\d+[:]\d+([,-]\d+)*` runs through whitespace, then the chapter, then the colon, then the verse list, in that order |
| ReferencePattern.ScanName | content.js:91 | the greedy runs of `[1-3]?\s*L+\s*L*` from the start of the reference |
| ReferencePattern.AddressStart | content.js:91 | where the engine starts group 2: right after the greedy name, or one whitespace character earlier, or nowhere |
| ReferencePattern.MatchReference | content.js:90-93 | `reference.match(...)`: the two groups at the first start where the address matches, or no match |
| ReferencePattern.AddressSound | content.js:91 | the address part is whitespace, chapter digits, a colon and a verse spec |
| ReferencePattern.BookNameSound | content.js:91 | group 1 is a whole `[1-3]?\s*L+\s*L*` |
| ReferencePattern.AddressStartCases | content.js:91 | group 2 starts right after the second word, or on the last whitespace character before the chapter |
| ReferencePattern.AddressStartDirect | content.js:91 | when an address follows the second word, group 2 starts there |
| ReferencePattern.AddressStartFallback | content.js:91 | otherwise the engine gives back one whitespace character and tries the address there |
| ReferencePattern.MatchSound | content.js:91 | every match has the shape of the two groups |
| ReferencePattern.AddressTrimmed | content.js:96 | group 2 trimmed is the chapter, the colon and the verse spec |
| ReferencePattern.AddressSplit | content.js:96-99 | splitting the trimmed group 2 on ':' gives exactly the chapter and the verse spec |
| ReferencePattern.VerseSpecChars | content.js:91 | a verse spec holds only digits, ',' and '-' |
| ReferencePattern.VerseSpecEndsInDigit | content.js:91 | a verse spec ends on a digit |
| ReferencePattern.MatchAddressOf | content.js:91 | whitespace, a chapter, a colon and a verse spec not followed by more of one match as exactly those parts |
| ReferencePattern.MatchTwoWordName | content.js:91 | after a two-word name, group 1 is the name |
| ReferencePattern.MatchOneWordName | content.js:91 | after a one-word name, group 1 is the name and all but the last whitespace character before the chapter |
| ReferencePattern.OneWordGroupTrim | content.js:95 | trimming that group 1 gives the trimmed name |
| ReferencePattern.MatchReferenceAt | content.js:90-96 | parts laid out at given positions match with those parts |
| ReferencePattern.MatchReferenceOf | content.js:90-96 | name, whitespace, chapter, ':' and verse spec, followed by text that does not extend the spec, match with the same trimmed name, chapter and verse spec |
| Resolver.Entry | content.js:116-117 | at most one entry; none exactly when no verse has the number; otherwise "n: text" of the first such verse |
| Resolver.ListEntries | content.js:120-124 | the entries of the listed numbers, in the order they are listed |
| Resolver.RangeEntries | content.js:115-118 | the entries of the integers from `start` to `end`, ascending |
| Resolver.RangeRequest | content.js:113-118 | a NaN or missing end gives no entries; otherwise the range between the two ends |
| Resolver.SplitNumbers | content.js:114 | `split(sep).map(Number)` |
| Resolver.RequestedEntries | content.js:112-129 | a '-' asks for the range between the first two pieces, else a ',' for the listed numbers, else one verse read with `parseInt` |
| Resolver.ResolveIn | content.js:103-131 | `null` when no book or chapter is found; otherwise the requested entries of the chapter joined with "; " |
| Resolver.VerseText | content.js:89-132 | content.js `getVerseText`: `null` without a match; otherwise the lookup with the corrected trimmed name, the chapter and the verse part |
| Resolver.VerseTextUncorrected | content_2.js:29-62 | content_2.js `getVerseText`: the same lookup with the trimmed name itself |
| Resolver.Ascending | content.js:115 | the loop variable runs through `start` to `end`, one by one |
| Resolver.CollectRange | content.js:115-118 | the `for` loop collects the range entries |
| Resolver.CollectList | content.js:120-124 | the `forEach` collects the list entries in request order |
| Resolver.CollectRequested | content.js:112-129 | the three-way branch collects the entries the verse part asks for |
| Resolver.ResolveReference | content.js:103-131 | the book search, then the chapter lookup, then collecting the verses, then joining them |
| Resolver.GetVerseText | content.js:89-132 | the method returns `VerseText`: `null` when the pattern fails or no book or chapter is found, else the joined entries of the corrected name's book |
| Resolver.GetVerseTextUncorrected | content_2.js:29-62 | the method returns `VerseTextUncorrected`: the same lookup with the trimmed name as the query |
| Resolver.AddressParts | content.js:96-99 | the two pieces of `match[2].trim().split(":")` are the chapter and the verse spec of the match |
| Resolver.RangeAsList | content.js:115-118 | the range loop asks for exactly the numbers from `start` to `end`, ascending |
| Resolver.ListEntriesAppend | content.js:121-124 | entries come in request order |
| Resolver.RepeatKept | content.js:120-124 | a repeated number gives its entry twice; duplicates are kept |
| Resolver.ListEntriesFound | content.js:121-124 | an entry is in the list exactly when some requested number gives it |
| Resolver.ListEntryOrigin | content.js:121-124 | every entry in the list is the entry of some requested number |
| Resolver.ListEntryKept | content.js:121-124 | the entry of every requested number that names a verse is in the list |
| Resolver.ListEntriesEmpty | content.js:121-124 | the list is empty exactly when no requested number names a verse |
| Resolver.RangeSplit | content.js:115 | a range is its lower part followed by its upper part |
| Resolver.RangeEntriesFound | content.js:115-118 | an entry is in the range exactly when some number between the ends gives it |
| Resolver.RangeEntriesEmpty | content.js:115-118 | the range is empty exactly when no number between the ends names a verse; a reversed range is empty |
| Resolver.CommaIsNoNumber | content.js:114 | a piece holding ',' is NaN to `Number` |
| Resolver.DashWithComma | content.js:113-114 | a '-' with a ',' in one of the first two pieces gives no entries |
| Resolver.RangeOfDigits | content.js:113-118 | with digits on both sides of the first '-', the range runs between their values, whatever follows a second '-' |
| Resolver.SingleVerse | content.js:125-128 | a verse part with neither '-' nor ',' asks for the one verse its digits name |
| Resolver.EntriesNonEmpty | content.js:117 | every collected entry is a non-empty string |
| Resolver.ResolveInNull | content.js:103-107 | `null` exactly when no book is found or the book has no such chapter; always `null` before the index is loaded |
| Resolver.ResolveInEmpty | content.js:109-131 | the result is the join of the entries, and it is "" exactly when no requested verse exists |
| Resolver.NoMatchNull | content.js:93 | a reference the pattern rejects gives `null` |
| Resolver.VerseTextOf | content.js:89-132 | for a well-laid-out reference, the lookup uses the corrected trimmed name and the written chapter and verse part |
| Resolver.VerseTextUncorrectedOf | content_2.js:29-62 | the same in content_2.js, with the trimmed name itself |
| Resolver.ChapterNumber | content.js:98 | the chapter is looked up by the value of its digits |
| OldResolver.LookupVerse | content_old4.js:47-54 | found exactly when the book, its chapter and its verse are all found; the text is then that of the first verse with the number, in the first chapter with the number, of the book the search returns |
| OldResolver.ChapterAndVerse | content_old4.js:45 | the first two pieces of the split on ':' read with `Number`; a missing piece is `undefined` |
| OldResolver.OldVerseText | content_old4.js:42-55 | the old `getVerseText`: TypeError without a space; otherwise the first two space-separated pieces are the name and the address |
| OldResolver.OldTypeError | content_old4.js:44-45 | the call throws exactly when the reference has no space |
| OldResolver.OldFirstTwoTokens | content_old4.js:44 | only the first two space-separated pieces are read |
| OldResolver.OldResolvesDigits | content_old3.js:41-53 | "name chapter:verse" with digit strings is looked up by their values |
| OldResolver.OldResolvesPadded | content_old4.js:44-53 | whitespace other than ' ' before the chapter stays in the second piece and `Number` ignores it, so the digits are still looked up by their values |
| OldResolver.OldNaNIsNull | content_old4.js:45-51 | a chapter or verse that is NaN, or a missing verse, gives `null` |
| OldResolver.OldMultiWordNull | content_old4.js:44-51 | a name of two words or more puts a word where the chapter goes and gives `null` |
| OldResolver.WordIsNaN | content_old4.js:45 | a word of letters is not an integer to `Number` |
| Old3Wrap.Step | content_old3.js:71-80 | one loop turn's pieces: the text node from `lastIndex` to the match start, then the span showing `ref` |
| Old3Wrap.Visible | content_old3.js:71-84 | the text the fragment shows: the text of its nodes and spans, in order |
| Old3Wrap.PiecesFrom | content_old3.js:64-82 | one turn of the loop appends a text node and a span, then goes on from the new `lastIndex` |
| Old3Wrap.ValidMatch | content_old3.js:6 | an `exec` result: the match lies in the text, is group 1 after at most one whitespace character, and group 1 ends with group 2, possibly followed by ')' |
| Old3Wrap.AsWrittenRef | content_old3.js:66 | group 1, a space and group 2 |
| Old3Wrap.MatchStart | content_old3.js:69 | the match start plus the offset of group 1 in the whole match |
| Old3Wrap.Pieces | content_old3.js:63-84 | for each match a text node from `lastIndex` to the citation and a span, `lastIndex` moving past the span text; then the text node for the rest |
| Old3Wrap.WrapTextNode | content_old3.js:59-84 | the loop builds exactly the fragment `Old3Wrap.Pieces` describes for the given matches |
| Old3Wrap.WrapTextNodeCorrected | content_old3.js:59-84 | with each span showing the citation as written, the fragment shows exactly the text node it replaces |
| Old3Wrap.MatchStartSkipsLead | content_old3.js:69 | `match.index + fullMatch.indexOf(book)` skips the one whitespace character before group 1 |
| Old3Wrap.BookInText | content_old3.js:65 | group 1 is the text from where it starts to where the match ends |
| Old3Wrap.CorrectedKeepsText | content_old3.js:64-84 | from any `lastIndex` before the next match, the corrected loop shows the rest of the text unchanged |
| Old3Wrap.CorrectedRoundTrip | content_old3.js:59-84 | the corrected fragment shows the whole text node unchanged |
| Old3Wrap.AsWrittenVisibleOne | content_old3.js:66-84 | as written, one match shows the text before it, then the repeated reference, then the text after `lastIndex` |
| Old3Wrap.AsWrittenDropsText | content_old3.js:66-81 | as written, the fragment differs from the text node unless the text happens to repeat the address after the citation |
| Old3Wrap.AsWrittenDuplicatesAddress | content_old3.js:66-81 | the pattern matches the text node "John 3:16" whole, and the node is shown as "John 3:16 3:16" |
| BibleTable.BibleVerses | bible.js:2-13 | the six references and their texts |
| BibleTable.LookupAsWritten | bible.js:17 | the lookup gives a stored text, an inherited member, or `null` for an absent name or an empty text |
| BibleTable.InheritedNameFound | bible.js:17 | an inherited property name is truthy, so the lookup returns the inherited member instead of `null` |
| BibleTable.StoredKeysAreNotInherited | bible.js:2-13 | no table key is an inherited property name |
| BibleTable.GetVerseText | bible.js:16-18 | the intended lookup finds exactly the table keys and gives their texts |
| BibleTable.StoredTextsNonEmpty | bible.js:2-13 | every stored text is non-empty, so the `null` fallback never hides a stored verse |
| BibleTable.AsWrittenAgrees | bible.js:17 | the expression as written and the intended lookup agree on every name that is not inherited |
| BibleTable.LookupIsExact | bible.js:17 | a reference with whitespace at either end, or starting with lower-case 'j', is not found |
| CitationShape.LookupKey | content.js:142 | the key is no longer than the text and holds no '(', ')' or '.' |
| CitationShape.LookupKeyKeeps | content.js:142 | the key keeps every character of the text except whitespace and the three removed ones |
| CitationShape.Citation.Scanned | content.js:5 | the parts of a page-scan match: lead, book number, name words with an optional '.', whitespace, chapter, ':' or '.', and the verse part |
| CitationShape.Citation.ScannedOld4 | content_old4.js:3 | the same parts without the '.' after the name and with a single verse number |
| CitationShape.TrimText | content.js:177 | trimming a citation removes the character before it and the pad that no digit or '(' holds in place |
| CitationShape.StripTrimmed | content.js:177 | stripping the trimmed citation gives the key name, the whitespace and the key address |
| CitationShape.KeyOfCitation | content.js:177 | the key of a scanned citation is its name, then the whitespace, then the address without a '.' separator |
| CitationShape.VersePartIsSpec | content.js:5 | the verse part the page scan takes is a verse spec for `getVerseText`'s pattern |
| CitationShape.KeyNameIsBookName | content.js:5 | the key name of a scanned citation with at most two words is a book name for `getVerseText`'s pattern |
| CitationShape.MatchNeedsColon | content.js:91 | a reference without ':' matches nothing |
| CitationShape.DotKeyNoColon | content.js:177 | with a '.' separator the key holds no colon |
| CitationShape.DotSeparatorNeverResolves | content.js:5 | a citation written "Ів 3.16" is wrapped, but its key gives `null` in content.js and content_2.js |
| CitationShape.ColonKeyLayout | content.js:177 | with ':' the key is laid out as `getVerseText`'s pattern reads it |
| CitationShape.CitationResolves | content.js:177 | a citation with ':' and a name of one or two words resolves to the book its corrected name finds (content.js) or its name finds (content_2.js), and to the written chapter and verses |
| CitationShape.Old4Resolves | content_old4.js:100 | a citation with ':' whose key has its only ' ' in the whitespace before the chapter is looked up by everything before that space and by the values of its two numbers |
| CitationShape.OldResolvesGap | content_old4.js:42-53 | a key "name before' 'after chapter:verse" with no other ' ' is looked up by "name before" and the two numbers |
| CitationShape.Old4DotNeverFound | content_old4.js:100 | with a '.' separator the old lookup gives `null`, or throws when the key has no space |
| CitationShape.Old4NumberedNameNull | content_old4.js:100 | a numbered name such as "1 Кор 13:4" gives `null` in the old lookup |
| CitationShape.Old4TwoWordNameNull | content_old4.js:100 | a two-word name such as "Пісня Пісень 2:1" gives `null` in the old lookup |
| CitationShape.Old3RefLooksUpCitation | content_old3.js:66 | the repeated address in the old3 reference does not change the verse the old lookup finds |

## Left out

- Fuse.js scoring: the index is a given best-match function over the loaded books, because the ranking is an external library's.
- The regex engines themselves: `getVerseText`'s pattern is modelled by a scanner, the page-scan patterns by the parts of a match, and `exec`/`matchAll` by their given results.
- The lookahead `(?=\s|\)|$|[.,;?!])` after the page-scan patterns: a `Citation` does not include the character after the match, because it is not part of the match.
- The DOM work: `enhanceBibleVerseLinks` and `wrapBibleVerses` in content.js and content_2.js, the tree walk, node replacement, the tooltip and its mouse handlers. `Old3Wrap` models only the fragment content that the content_old3.js loop builds.
- `loadBibleData`, `fetch` and `console.log`: I/O, represented by the `NotLoaded`/`Loaded` index value.
- JsString.NumberValue: the forms `Number` reads beyond signed decimal text are not modelled: a "0x", "0o" or "0b" prefix, an exponent such as "1e1", and "Infinity". They come out as `NotInteger`, so the model gives `null` for an old reference such as "Ів 0x3:16" that the code resolves to chapter 3, verse 16.
- Resolver.CollectRange: JavaScript numbers are doubles, and the model's integers are unbounded. The model does not capture the rounding of digit strings above 2^53 by `parseInt` and `Number`. It also does not capture that the range loop never ends when its end is 2^53 or more, because `v++` stops changing `v`; `Resolver.RangeEntries` and `Resolver.CollectRange` return a finite list there.
- CitationShape.CitationResolves: stated only for names of one or two words; a name of three or more words never matches `getVerseText`'s pattern, and that case is not proved.
- CitationShape.KeyNameIsBookName: stated for names of at most two words, for the same reason.
- CitationShape.Old4Resolves: stated for keys whose only ' ' lies in the whitespace before the chapter. A key without ' ', such as "Ів\t3:16", throws (OldResolver.OldTypeError). Every other key gives `null`: a key with a second ' ' in the name or the gap, and a key whose only ' ' lies in the name, such as "1 Кор\t13:4". This is proved only for the layouts of CitationShape.Old4NumberedNameNull and CitationShape.Old4TwoWordNameNull, not in general.

## Findings

| source | as written | input that shows it | evidently intended | confidence | as-written member | corrected member |
|---|---|---|---|---|---|---|
| content_old3.js:66-81 | `ref` is group 1 followed by " " and group 2, but group 1 already ends with the address; `lastIndex` then moves one more than the address length past the end of the citation | the text node "John 3:16" | each span shows the citation as written, and `lastIndex` moves to its end, so the fragment shows the original text | high, not executed | Old3Wrap.AsWrittenDuplicatesAddress | Old3Wrap.WrapTextNodeCorrected |
| bible.js:17 | the bracket lookup with its `null` fallback also finds the properties every object inherits, which are truthy | the reference "toString" | only the six table keys are found; any other reference gives `null` | high, not executed | BibleTable.InheritedNameFound | BibleTable.GetVerseText |
