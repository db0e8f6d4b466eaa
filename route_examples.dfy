/** What `getData`, `getTitle` and `getHead` give for the descriptors in `Routes`. */
module RouteExamples {
  import opened JsValues
  import opened UniqueList
  import opened Page
  import opened Routes

  /** "/" has one override, so its translations are "en" and "ja", whatever language is requested. */
  lemma StartHereTranslations(getDocument: Loader, context: Context)
    ensures Get(Resolve(StartHere(getDocument), context), "translations") == Strings(["en", "ja"])
  {
    assert LanguageKeys(StartHere(getDocument).languages) == ["ja"];
    DedupOfDistinct(["ja"]);
    DedupOfDistinct(["en", "ja"]);
  }

  /** "/" in Japanese takes the override's navigation title. */
  lemma StartHereInJapanese(getDocument: Loader, provider: Option<() -> Value>)
    ensures Get(Resolve(StartHere(getDocument), Context(Some("ja"), provider)), "navTitle") == Str("ここで始める")
  {
    var d, context := StartHere(getDocument), Context(Some("ja"), provider);
    assert ActiveLanguage(context.language) == "ja";
    assert OverrideFor(d.languages, "ja") == Some(map["navTitle" := Str("ここで始める")]);
    ResolveMergesOverride(d, context, "navTitle");
  }

  /** "/" in Japanese keeps the base record's HTML title. */
  lemma StartHereTitleInJapanese(getDocument: Loader, provider: Option<() -> Value>)
    ensures GetTitle(StartHere(getDocument), Context(Some("ja"), provider)) == Str("Navi – A library for mapping URLs to content")
  {
    var d := StartHere(getDocument);
    assert ActiveLanguage(Some("ja")) == "ja";
    assert OverrideFor(d.languages, "ja") == Some(map["navTitle" := Str("ここで始める")]);
    assert Get(Merged(d, "ja"), "htmlTitle") == Str("Navi – A library for mapping URLs to content");
  }

  /** "/" with no language requested, or a language without an override, keeps the base navigation title. */
  lemma StartHereByDefault(getDocument: Loader, context: Context)
    requires ActiveLanguage(context.language) != "ja"
    ensures Get(Resolve(StartHere(getDocument), context), "navTitle") == Str("Start Here")
  {
    var d := StartHere(getDocument);
    assert OverrideFor(d.languages, ActiveLanguage(context.language)) == None;
    ResolveMergesOverride(d, context, "navTitle");
  }

  /** A page without `htmlTitle` gets "<title> – Navi". */
  lemma GettingStartedTitle(getDocument: Loader, context: Context)
    ensures GetTitle(GettingStarted(getDocument), context) == Str("Getting Started – Navi")
  {
    var d := GettingStarted(getDocument);
    assert Merged(d, ActiveLanguage(context.language)) == d.base;
  }

  /** The description of "/guides/getting-started" is its head element and, wrapped in a paragraph, its blurb. */
  lemma GettingStartedDescribes(getDocument: Loader, context: Context)
    ensures GetHead(GettingStarted(getDocument), context) == Element(Meta("description", Str(GettingStartedDescription)))
    ensures Get(Resolve(GettingStarted(getDocument), context), "blurb") == Element(Paragraph(Str(GettingStartedDescription)))
  {
    var d := GettingStarted(getDocument);
    assert Merged(d, ActiveLanguage(context.language)) == d.base;
  }

  /** A page with no overrides lists "en" alone, whatever language is requested. */
  lemma GettingStartedTranslations(getDocument: Loader, context: Context)
    ensures Get(Resolve(GettingStarted(getDocument), context), "translations") == Strings(["en"])
  {
    var d := GettingStarted(getDocument);
    assert LanguageKeys(d.languages) == [];
    DedupOfDistinct(["en"]);
  }

  /** A blurb written in the record wins over the description, and is wrapped in a paragraph. */
  lemma ComparisonsKeepsItsBlurb(getDocument: Loader, context: Context)
    ensures Get(Resolve(Comparisons(getDocument), context), "blurb") == Element(Paragraph(Str(ComparisonsBlurb)))
    ensures GetTitle(Comparisons(getDocument), context) == Str("Is Navi For Me?")
  {
    var d := Comparisons(getDocument);
    assert Merged(d, ActiveLanguage(context.language)) == d.base;
  }

  /** A page without a description has no head element and no blurb; its string `htmlTitle` is the title. */
  lemma SettingHeadMetaTitleHasNoHead(getDocument: Loader, context: Context)
    ensures GetHead(SettingHeadMetaTitle(getDocument), context) == Null
    ensures GetTitle(SettingHeadMetaTitle(getDocument), context) == Str("Setting head, title and meta tags")
    ensures Get(Resolve(SettingHeadMetaTitle(getDocument), context), "blurb") == Undefined
  {
    var d := SettingHeadMetaTitle(getDocument);
    assert Merged(d, ActiveLanguage(context.language)) == d.base;
  }
}
