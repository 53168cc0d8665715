/**
 * `language_color`: the badge colour class of a repository language, a
 * fixed table with a grey default.
 */
module ApplicationHelper {
  import opened Common

  /** The eight languages with a colour of their own. Keys are compared
      exactly, so case matters. */
  const Colors: map<string, string> := map[
    "Ruby" := "bg-red-500",
    "Python" := "bg-blue-500",
    "TypeScript" := "bg-blue-400",
    "JavaScript" := "bg-yellow-400",
    "Go" := "bg-cyan-400",
    "Rust" := "bg-orange-500",
    "HTML" := "bg-orange-400",
    "CSS" := "bg-purple-400"]

  /** The colour of every other language, and of nil. */
  const DefaultColor: string := "bg-gray-400"

  /** The nine classes the helper can produce. */
  const Palette: set<string> := {
    "bg-red-500", "bg-blue-500", "bg-blue-400", "bg-yellow-400", "bg-cyan-400",
    "bg-orange-500", "bg-orange-400", "bg-purple-400", "bg-gray-400"}

  /** `language_color(language)`: the table entry, or the default. */
  function LanguageColor(language: Option<string>): (c: string)
    ensures c in Palette && c != []
  {
    if language.Some? && language.value in Colors then Colors[language.value] else DefaultColor
  }

  /** Every listed language gets its own entry; every other key gets grey. */
  lemma LanguageColorLookup(language: Option<string>)
    ensures language.Some? && language.value in Colors ==> LanguageColor(language) == Colors[language.value]
    ensures language.None? || language.value !in Colors ==> LanguageColor(language) == DefaultColor
  {
  }

  /** The lookup is case-sensitive: a lower-case "ruby" is not "Ruby". */
  lemma LowerCaseRubyIsGrey(language: Option<string>)
    requires language == Some("ruby")
    ensures LanguageColor(language) == DefaultColor
  {
    assert language.value !in Colors by {
      assert language.value[0] == 'r';
    }
  }

  /** A listed language never gets the default colour, and the eight
      colours are pairwise distinct, so the colour tells the language. */
  lemma ListedLanguagesAreDistinguished(a: string, b: string)
    requires a in Colors && b in Colors
    ensures LanguageColor(Some(a)) != DefaultColor
    ensures LanguageColor(Some(a)) == LanguageColor(Some(b)) ==> a == b
  {
  }
}
