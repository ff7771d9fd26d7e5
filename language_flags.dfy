/**
 * The flag shown beside each story in the list (app/index.tsx, lines 58-64
 * and 75): a five-entry table from language name to flag emoji, and a white
 * flag for every other language.
 */
module LanguageFlags {

  const Italy: string := "\U{1F1EE}\U{1F1F9}"
  const UnitedKingdom: string := "\U{1F1EC}\U{1F1E7}"
  const France: string := "\U{1F1EB}\U{1F1F7}"
  const Germany: string := "\U{1F1E9}\U{1F1EA}"
  const Spain: string := "\U{1F1EA}\U{1F1F8}"
  /** The fallback after `??`: a white flag followed by a variation selector. */
  const WhiteFlag: string := "\U{1F3F3}\U{FE0F}"

  /** The `languageFlags` object. */
  const Flags: map<string, string> := map[
    "Italian" := Italy,
    "English" := UnitedKingdom,
    "French" := France,
    "German" := Germany,
    "Spanish" := Spain
  ]

  /** `languageFlags[language] ?? '🏳️'` */
  function FlagFor(language: string): (flag: string)
    ensures flag == WhiteFlag <==> language !in Flags
    ensures flag in Flags.Values || flag == WhiteFlag
  {
    if language in Flags then Flags[language] else WhiteFlag
  }

  /** The five languages the table knows and their flags; every other value falls back to the white flag. */
  lemma FlagTable(language: string)
    ensures FlagFor("Italian") == Italy
    ensures FlagFor("English") == UnitedKingdom
    ensures FlagFor("French") == France
    ensures FlagFor("German") == Germany
    ensures FlagFor("Spanish") == Spain
    ensures language !in {"Italian", "English", "French", "German", "Spanish"} ==> FlagFor(language) == WhiteFlag
  {
  }

  /** A flag other than the white one identifies the language it was shown for, and the white flag is never a mapped flag. */
  lemma FlagIdentifiesLanguage(a: string, b: string)
    requires FlagFor(a) == FlagFor(b)
    ensures FlagFor(a) != WhiteFlag ==> a == b
    ensures FlagFor(a) == WhiteFlag <==> a !in Flags
  {
  }
}
