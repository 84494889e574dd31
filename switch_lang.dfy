/** SwitchLang's `localeText`: the label shown for each locale in the language menu. */
module SwitchLang {
  /** The locale codes the menu spells out, in the order of its cases. */
  const Locales: seq<string> := ["de-DE", "en", "es", "zh-CN", "hi", "id", "tr-TR", "zh-TW"]

  /** Their labels, position by position. */
  const Labels: seq<string> := [
    "🇩🇪 Deutsch", "🇬🇧 English", "🇪🇸 Español", "🇨🇳 简体中文",
    "🇮🇳 हिन्दी", "🇮🇩 Indonesia", "🇹🇷 Türkçe", "🇹🇼 繁體中文"]

  /** The label of any other locale: Simplified Chinese, the label of "zh-CN". */
  const DefaultLabel: string := "🇨🇳 简体中文"

  /** The switch on exact, case-sensitive string equality, with its default. */
  function LocaleText(locale: string): (text: string)
    ensures text in Labels
  {
    if locale == "de-DE" then "🇩🇪 Deutsch"
    else if locale == "en" then "🇬🇧 English"
    else if locale == "es" then "🇪🇸 Español"
    else if locale == "zh-CN" then "🇨🇳 简体中文"
    else if locale == "hi" then "🇮🇳 हिन्दी"
    else if locale == "id" then "🇮🇩 Indonesia"
    else if locale == "tr-TR" then "🇹🇷 Türkçe"
    else if locale == "zh-TW" then "🇹🇼 繁體中文"
    else DefaultLabel
  }

  /** Each listed locale gets the label at its own position. */
  lemma LocaleTextListed(i: nat)
    requires i < |Locales|
    ensures LocaleText(Locales[i]) == Labels[i]
  {
  }

  /** A locale not in the list (including a differently cased one) gets the default label. */
  lemma LocaleTextUnlisted(locale: string)
    requires locale !in Locales
    ensures LocaleText(locale) == DefaultLabel
  {
  }

  /** The default is the label of "zh-CN". */
  lemma DefaultIsSimplifiedChinese()
    ensures DefaultLabel == LocaleText("zh-CN")
    ensures LocaleText("zh-cn") == DefaultLabel
  {
    LocaleTextUnlisted("zh-cn");
  }

  /** A regional-indicator symbol: half of a flag emoji. */
  predicate IsRegionalIndicator(c: char) {
    '\U{1F1E6}' <= c && c <= '\U{1F1FF}'
  }

  /** Every label is a flag (two regional indicators), a space, and a name. */
  lemma LabelsShape()
    ensures forall i :: 0 <= i < |Labels| ==>
      |Labels[i]| > 3 && IsRegionalIndicator(Labels[i][0]) && IsRegionalIndicator(Labels[i][1]) && Labels[i][2] == ' '
  {
  }

  /** Two listed locales share a label only if they are the same locale. */
  lemma LabelsDistinct()
    ensures forall i, j :: 0 <= i < j < |Labels| ==> Labels[i] != Labels[j]
  {
    forall i, j | 0 <= i < j < |Labels| ensures Labels[i] != Labels[j] {
      assert Labels[i][1] != Labels[j][1] || Labels[i][0] != Labels[j][0];
    }
  }

  /** So the menu tells listed locales apart, and only unlisted ones share the Simplified Chinese label. */
  lemma LocaleTextInjective(a: string, b: string)
    requires a in Locales && b in Locales && LocaleText(a) == LocaleText(b)
    ensures a == b
  {
    var i :| 0 <= i < |Locales| && Locales[i] == a;
    var j :| 0 <= j < |Locales| && Locales[j] == b;
    LocaleTextListed(i);
    LocaleTextListed(j);
    LabelsDistinct();
  }
}
