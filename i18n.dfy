/**
 * Interface translations and locale-prefixed paths (lib/utils/i18n.ts).
 *
 * A localized path carries its locale as the first segment ("/fr/guide"); the default
 * locale is unprefixed unless the site asks for a prefix on every locale.
 */
module I18n {
  import opened Wrappers
  import opened Strings

  /** The locales that have built-in interface strings. */
  predicate HasTable(locale: string) {
    locale == "en" || locale == "es" || locale == "fr" || locale == "de"
  }

  /**
   * `defaultTranslations[locale]?.[key]`: the built-in string, with "" standing for a
   * missing locale or key (both are falsy in the lookup chain).
   */
  function Entry(locale: string, key: string): string {
    match locale
    case "en" => (
      match key
      case "search.placeholder" => "Search documentation..."
      case "toc.title" => "On this page"
      case "pagination.prev" => "Previous"
      case "pagination.next" => "Next"
      case "lastUpdated" => "Last updated"
      case "editPage" => "Edit this page"
      case "feedback.helpful" => "Was this page helpful?"
      case "feedback.yes" => "Yes"
      case "feedback.no" => "No"
      case "feedback.thankYou" => "Thanks for your feedback!"
      case _ => "")
    case "es" => (
      match key
      case "lastUpdated" => "Ultima actualizacion"
      case "editPage" => "Editar esta pagina"
      case "feedback.helpful" => "Te fue util esta pagina?"
      case "feedback.yes" => "Si"
      case "feedback.no" => "No"
      case "feedback.thankYou" => "Gracias por tus comentarios!"
      case _ => "")
    case "fr" => (
      match key
      case "lastUpdated" => "Derniere mise a jour"
      case "editPage" => "Modifier cette page"
      case "feedback.helpful" => "Cette page vous a-t-elle ete utile?"
      case "feedback.yes" => "Oui"
      case "feedback.no" => "Non"
      case "feedback.thankYou" => "Merci pour vos commentaires!"
      case _ => "")
    case "de" => (
      match key
      case "lastUpdated" => "Zuletzt aktualisiert"
      case "editPage" => "Diese Seite bearbeiten"
      case "feedback.helpful" => "War diese Seite hilfreich?"
      case "feedback.yes" => "Ja"
      case "feedback.no" => "Nein"
      case "feedback.thankYou" => "Danke fur Ihr Feedback!"
      case _ => "")
    case _ => ""
  }
  /** `t(key, locale)`: the locale's string, else the English one, else the key itself. */
  function T(key: string, locale: string := "en"): (r: string)
    ensures r == "" ==> key == ""
  {
    if Entry(locale, key) != "" then Entry(locale, key)
    else if Entry("en", key) != "" then Entry("en", key)
    else key
  }

  /** Every locale translates only keys that English has. */
  lemma TableKeys(locale: string, key: string)
    ensures Entry(locale, key) != "" ==> Entry("en", key) != ""
    ensures !HasTable(locale) ==> Entry(locale, key) == ""
  {
  }

  /** No built-in string is its own key. */
  lemma TableStrings(locale: string, key: string)
    ensures Entry(locale, key) != "" ==> Entry(locale, key) != key
  {
  }

  /** A key comes back unchanged exactly when English does not define it. */
  lemma TranslateIdentityIff(key: string, locale: string)
    ensures T(key, locale) == key <==> Entry("en", key) == ""
  {
    TableKeys(locale, key);
    TableStrings(locale, key);
    TableStrings("en", key);
  }

  /**
   * The fallback chain: a locale's own string wins; a key the locale lacks is
   * looked up as in English, where a key English lacks stands for itself.
   */
  lemma TranslateFallback(key: string, locale: string)
    ensures Entry(locale, key) != "" ==> T(key, locale) == Entry(locale, key)
    ensures Entry(locale, key) == "" ==> T(key, locale) == T(key, "en")
    ensures T(key, "en") == if Entry("en", key) != "" then Entry("en", key) else key
  {
  }

  /** A locale without a table of its own (such as "pt") reads the English strings. */
  lemma TranslateUnknownLocale(key: string, locale: string)
    requires !HasTable(locale)
    ensures T(key, locale) == T(key, "en")
  {
    TableKeys(locale, key);
  }

  /** The table of contents title is English-only, so every locale shows the English one. */
  lemma EnglishOnlyKey(locale: string)
    ensures T("toc.title", locale) == "On this page"
  {
  }

  /**
   * `getLocaleFromPath`: the first non-empty segment when it is one of `locales`.
   */
  function GetLocaleFromPath(pathname: string, locales: seq<string>): (r: Option<string>)
    ensures r.Some? ==> r.value in locales && |Segments(pathname)| > 0 && r.value == Segments(pathname)[0]
    ensures r.None? ==> |Segments(pathname)| == 0 || Segments(pathname)[0] !in locales
  {
    var segments := Segments(pathname);
    if |segments| > 0 && segments[0] in locales then Some(segments[0]) else None
  }

  /** `getLocaleDisplayNames`: the language names offered by the language switcher. */
  function LocaleDisplayNames(): (names: map<string, string>)
    ensures forall l :: HasTable(l) ==> l in names && names[l] != ""
    ensures "ja" in names && "zh" in names && "ko" in names && "pt" in names
  {
    map["en" := "English", "es" := "Espanol", "fr" := "Francais", "de" := "Deutsch",
        "ja" := "", "zh" := "", "ko" := "", "pt" := "Portugues"]
  }

  /** The path with a leading locale segment removed (only when `allLocales` is non-empty). */
  function WithoutLocale(path: string, allLocales: seq<string>): string {
    if |allLocales| > 0 && GetLocaleFromPath(path, allLocales).Some? then
      "/" + Join(Segments(path)[1..], '/')
    else path
  }

  /**
   * `localizedPath`: the path without its locale, made absolute, then prefixed with
   * "/<locale>" unless the locale is the default and the default is unprefixed.
   */
  function LocalizedPath(path: string, locale: string, defaultLocale: string,
                         prefixDefaultLocale: bool := false, allLocales: seq<string> := []): (r: string)
    ensures |r| > 0 && r[0] == '/'
    ensures locale == defaultLocale && !prefixDefaultLocale ==> Segments(r) == Segments(WithoutLocale(path, allLocales))
  {
    var pathWithoutLocale := WithoutLocale(path, allLocales);
    var cleanPath := if StartsWith(pathWithoutLocale, "/") then pathWithoutLocale else "/" + pathWithoutLocale;
    SegmentsOfAbsolute(pathWithoutLocale);
    if locale == defaultLocale && !prefixDefaultLocale then cleanPath
    else "/" + locale + cleanPath
  }

  /** Making a path absolute changes none of its segments. */
  lemma SegmentsOfAbsolute(p: string)
    ensures var c := if StartsWith(p, "/") then p else "/" + p;
            |c| > 0 && c[0] == '/' && Segments(c) == Segments(p) && Segments(c[1..]) == Segments(p)
  {
    var c := if StartsWith(p, "/") then p else "/" + p;
    assert c == "/" + c[1..];
    SegmentsLeadingSlash(c[1..]);
    SegmentsLeadingSlash(p);
  }

  /** Removing a found locale leaves the remaining segments. */
  lemma WithoutLocaleSegments(path: string, allLocales: seq<string>)
    ensures Segments(WithoutLocale(path, allLocales))
            == if |allLocales| > 0 && GetLocaleFromPath(path, allLocales).Some? then Segments(path)[1..] else Segments(path)
  {
    if |allLocales| > 0 && GetLocaleFromPath(path, allLocales).Some? {
      var rest := Segments(path)[1..];
      SegmentsLeadingSlash(Join(rest, '/'));
      SegmentsJoin(rest);
    }
  }

  /** The segments of a localized path: the locale (when prefixed), then the unlocalized ones. */
  lemma LocalizedSegments(path: string, locale: string, defaultLocale: string, prefixDefaultLocale: bool, allLocales: seq<string>)
    requires locale != "" && NoChar(locale, '/')
    ensures Segments(LocalizedPath(path, locale, defaultLocale, prefixDefaultLocale, allLocales))
            == (if locale == defaultLocale && !prefixDefaultLocale then [] else [locale])
               + Segments(WithoutLocale(path, allLocales))
  {
    var p := WithoutLocale(path, allLocales);
    var c := if StartsWith(p, "/") then p else "/" + p;
    SegmentsOfAbsolute(p);
    if !(locale == defaultLocale && !prefixDefaultLocale) {
      UnderRoot(locale, c);
      SegmentsLeadingSlash(locale + "/" + c[1..]);
      SegmentsAtSlash(locale, c[1..]);
      SegmentsOfName(locale);
    }
  }

  lemma UnderRoot(x: string, c: string)
    requires |c| > 0 && c[0] == '/'
    ensures "/" + x + c == "/" + (x + "/" + c[1..])
  {
    assert c == "/" + c[1..];
  }

  /** A path localized (with a prefix) to one of the site's locales is read back as that locale. */
  lemma LocalizedRoundTrip(path: string, locale: string, defaultLocale: string, prefixDefaultLocale: bool, allLocales: seq<string>)
    requires locale != "" && NoChar(locale, '/') && locale in allLocales
    requires locale != defaultLocale || prefixDefaultLocale
    ensures GetLocaleFromPath(LocalizedPath(path, locale, defaultLocale, prefixDefaultLocale, allLocales), allLocales) == Some(locale)
  {
    LocalizedSegments(path, locale, defaultLocale, prefixDefaultLocale, allLocales);
  }

  /**
   * Switching locale replaces the prefix rather than stacking it: localizing an already
   * localized path gives the same segments as localizing the original.
   */
  lemma SwitchLocale(path: string, l1: string, l2: string, defaultLocale: string, prefixDefaultLocale: bool, allLocales: seq<string>)
    requires l1 != "" && NoChar(l1, '/') && l1 in allLocales
    requires l2 != "" && NoChar(l2, '/')
    requires l1 != defaultLocale || prefixDefaultLocale
    ensures Segments(LocalizedPath(LocalizedPath(path, l1, defaultLocale, prefixDefaultLocale, allLocales),
                                   l2, defaultLocale, prefixDefaultLocale, allLocales))
            == Segments(LocalizedPath(path, l2, defaultLocale, prefixDefaultLocale, allLocales))
  {
    var once := LocalizedPath(path, l1, defaultLocale, prefixDefaultLocale, allLocales);
    LocalizedSegments(path, l1, defaultLocale, prefixDefaultLocale, allLocales);
    LocalizedRoundTrip(path, l1, defaultLocale, prefixDefaultLocale, allLocales);
    WithoutLocaleSegments(once, allLocales);
    assert Segments(WithoutLocale(once, allLocales)) == Segments(WithoutLocale(path, allLocales));
    LocalizedSegments(once, l2, defaultLocale, prefixDefaultLocale, allLocales);
    LocalizedSegments(path, l2, defaultLocale, prefixDefaultLocale, allLocales);
  }
}
