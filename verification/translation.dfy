/** The gettext-like `_` function of src/cazary.js: the string table for the
    current locale is chosen once (exact tag, then the language before the first
    `-`, then an empty table) and every lookup falls back to the input text. */
module Translation {
  import opened Text

  /** Source string to translated string. */
  type Table = map<string, string>
  /** Locale tag to table: the embedded translation data. */
  type Catalog = map<string, Table>

  /** `language.split('-')[0]`: the tag up to its first `-`. */
  function BaseLanguage(language: string): (base: string)
    ensures '-' !in base
    ensures StartsWith(language, base)
    ensures '-' !in language ==> base == language
    ensures |base| < |language| ==> language[|base|] == '-'
  {
    SplitFirst(language, '-');
    Split(language, '-')[0]
  }

  /** `_getCurrentTranslationData` */
  function CurrentTable(data: Catalog, language: string): Table {
    if language in data then data[language]
    else
      var base := BaseLanguage(language);
      if base in data then data[base] else map[]
  }

  /** The function `_` returns, for the table chosen at start-up. */
  function Translate(table: Table, text: string): string {
    if text !in table then text else table[text]
  }

  /** The exact tag comes first: a text its table holds is translated by
      that table, whatever the language part's table says. */
  lemma ExactTagWins(data: Catalog, language: string, text: string)
    requires language in data && text in data[language]
    ensures Translate(CurrentTable(data, language), text) == data[language][text]
  {
  }

  /** The table is chosen once for the locale, not per text: when the exact
      tag has a table, a text missing from it is returned as it is, even if
      the table of the language part would translate it. */
  lemma NoPerTextFallback(data: Catalog, language: string, text: string)
    requires language in data && text !in data[language]
    ensures Translate(CurrentTable(data, language), text) == text
  {
  }

  /** A translation comes from the table of the exact tag or of its language
      part, and from no other locale; otherwise the text is returned as it
      is. */
  lemma TranslationOrigin(data: Catalog, language: string, text: string)
    ensures var r := Translate(CurrentTable(data, language), text);
            r == text ||
            exists tag | tag in data && (tag == language || tag == BaseLanguage(language)) ::
              text in data[tag] && data[tag][text] == r
  {
  }

  /** Looking up a tag the catalogue lacks is the same as looking up its
      language part: `en-us` behaves as `en` would. */
  lemma RegionFallsBackToLanguage(data: Catalog, language: string)
    requires language !in data
    ensures CurrentTable(data, language) == CurrentTable(data, BaseLanguage(language))
  {
    var base := BaseLanguage(language);
    assert BaseLanguage(base) == base;
  }

  /** A text no table of the catalogue translates comes back unchanged whatever
      the locale. */
  lemma UntranslatedIsIdentity(data: Catalog, language: string, text: string)
    requires forall tag | tag in data :: text !in data[tag]
    ensures Translate(CurrentTable(data, language), text) == text
  {
  }
}
