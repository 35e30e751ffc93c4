/**
 * bible.js: a fixed table of six verses and `getVerseText(reference)`,
 * which reads `BIBLE_VERSES[reference] || null`.
 *
 * The table is a plain object literal, so a bracket lookup also finds the
 * properties every object inherits (`toString`, `constructor`, ...). Those
 * are functions or objects, all truthy, so `|| null` lets them through.
 */
module BibleTable {
  import opened Wrappers
  import opened JsString

  const BibleVerses: map<string, string> := map[
    "John 3:16" :=
      "For God so loved the world, that he gave his only begotten Son, that whoever believes in him should not perish, but have everlasting life.",
    "Philippians 4:13" := "I can do all things through Christ who strengthens me.",
    "Proverbs 3:5" :=
      "Trust in the LORD with all your heart and lean not on your own understanding.",
    "Jeremiah 29:11" :=
      "For I know the plans I have for you, declares the LORD, plans for welfare and not for evil, to give you a future and a hope.",
    "Psalm 23:1" := "The LORD is my shepherd; I shall not want.",
    "Joshua 1:9" :=
      "Be strong and courageous. Do not be frightened, and do not be dismayed, for the LORD your God is with you wherever you go."
  ]

  /** What the lookup expression can evaluate to: a stored string, an inherited member, or `null`. */
  datatype LookupValue = Text(text: string) | InheritedMember(name: string) | Null

  /** `BIBLE_VERSES[reference] || null` as written: an empty string or `undefined` becomes `null`. */
  function LookupAsWritten(reference: string): (r: LookupValue)
    ensures r.Text? ==> reference in BibleVerses && r.text == BibleVerses[reference]
    ensures r.InheritedMember? ==> reference !in BibleVerses && reference in ObjectPrototypeProperties
    ensures r.Null? ==> !HasProperty(BibleVerses.Keys, reference) || (reference in BibleVerses && BibleVerses[reference] == "")
  {
    if reference in BibleVerses then
      if BibleVerses[reference] == "" then Null else Text(BibleVerses[reference])
    else if reference in ObjectPrototypeProperties then InheritedMember(reference)
    else Null
  }

  /** An inherited property name gets past `|| null`: the call returns that member, not `null`. */
  lemma {:induction false} InheritedNameFound(reference: string)
    requires reference in ObjectPrototypeProperties
    ensures LookupAsWritten(reference) == InheritedMember(reference)
  {
    StoredKeysAreNotInherited(reference);
  }

  /** No table key is also an inherited property name. */
  lemma {:induction false} StoredKeysAreNotInherited(reference: string)
    requires reference in ObjectPrototypeProperties
    ensures reference !in BibleVerses
  {
  }

  /** The lookup as intended: own keys only, `None` for `null`. */
  function GetVerseText(reference: string): (r: Option<string>)
    ensures r.Some? <==> reference in BibleVerses
    ensures r.Some? ==> r.value == BibleVerses[reference] && r.value != ""
  {
    StoredTextsNonEmpty();
    if reference in BibleVerses then Some(BibleVerses[reference]) else None
  }

  /** Every stored text is non-empty, so `|| null` never hides a stored verse. */
  lemma {:induction false} StoredTextsNonEmpty()
    ensures forall k | k in BibleVerses :: BibleVerses[k] != ""
  {
  }

  /** The intended lookup and the expression as written agree on every name that is not inherited. */
  lemma {:induction false} AsWrittenAgrees(reference: string)
    requires reference !in ObjectPrototypeProperties
    ensures LookupAsWritten(reference) == match GetVerseText(reference)
      case Some(t) => Text(t)
      case None => Null
  {
    StoredTextsNonEmpty();
  }

  /** The lookup is exact: a reference with whitespace around it, or in other case, is not found. */
  lemma {:induction false} LookupIsExact(reference: string)
    requires reference != [] && (IsSpace(reference[0]) || IsSpace(reference[|reference| - 1]) || reference[0] == 'j')
    ensures GetVerseText(reference).None?
  {
  }
}
