/**
 * The `page` factory of the content routes (src/content/index.js): from a
 * page descriptor it builds the accessors the router calls for each request,
 * `getData`, `getTitle`, `getHead` and `getView`.
 */
module Page {
  import opened JsValues
  import opened UniqueList

  /**
   * The content loader: the document module for a language, or None when the
   * dynamic import of that language's document fails.
   */
  type Loader = string -> Option<Record>

  /**
   * A page descriptor: the content loader, the `default` metadata record, and
   * every other property of the descriptor as a per-language override record,
   * in the order they are written (a property written twice keeps its last value).
   */
  datatype Descriptor = Descriptor(getDocument: Loader, base: Record, languages: seq<(string, Record)>)

  /** What the router passes in: the requested language and an optional component provider. */
  datatype Context = Context(language: Option<string>, getDocumentComponents: Option<() -> Value>)

  /** The request; only its mount path is read, in the missing-filename warning. */
  datatype Request = Request(mountpath: string)

  const BaseLanguage: string := "en"

  /** The properties that `getData` computes rather than copies. */
  const DerivedKeys: set<string> := {"translations", "htmlTitle", "blurb"}

  /** `context.language || 'en'`: used by both `getData` and `getView`. */
  function ActiveLanguage(language: Option<string>): (l: string)
    ensures l != ""
    ensures language.Some? && language.value != "" ==> l == language.value
    ensures language.None? || language.value == "" ==> l == BaseLanguage
  {
    match language
    case Some(s) => if Truthy(Str(s)) then s else BaseLanguage
    case None => BaseLanguage
  }

  /** The property names of the overrides in the order written, a name written twice listed twice. */
  function LanguageKeys(languages: seq<(string, Record)>): seq<string>
  {
    seq(|languages|, i requires 0 <= i < |languages| => languages[i].0)
  }

  /** `Object.keys(languages)`: an object holds a property once, at the place it was first written. */
  function ObjectKeys(languages: seq<(string, Record)>): seq<string>
  {
    Dedup(LanguageKeys(languages))
  }

  /**
   * `Object.keys(languages)` names every override, each once, in the order
   * the names are first written.
   */
  lemma ObjectKeysListsNames(languages: seq<(string, Record)>)
    ensures var keys, ks := LanguageKeys(languages), ObjectKeys(languages);
      && NoDuplicates(ks)
      && (forall l :: l in ks <==> exists i :: 0 <= i < |languages| && languages[i].0 == l)
      && (forall i :: 0 <= i < |ks| ==> ks[i] in keys)
      && (forall i, j :: 0 <= i < j < |ks| ==> FirstIndex(keys, ks[i]) < FirstIndex(keys, ks[j]))
  {
    var keys := LanguageKeys(languages);
    DedupListsEachOnce(keys);
    forall l | l in ObjectKeys(languages)
      ensures exists i :: 0 <= i < |languages| && languages[i].0 == l
    {
      var i :| 0 <= i < |ObjectKeys(languages)| && ObjectKeys(languages)[i] == l;
      var j :| 0 <= j < |keys| && keys[j] == l;
      assert languages[j].0 == l;
    }
    forall l | exists i :: 0 <= i < |languages| && languages[i].0 == l
      ensures l in ObjectKeys(languages)
    {
      var i :| 0 <= i < |languages| && languages[i].0 == l;
      assert keys[i] == l;
    }
  }

  /** `languages[language]`: the last override written under that name, if any. */
  function OverrideFor(languages: seq<(string, Record)>, language: string): Option<Record>
  {
    if languages == [] then None
    else if languages[|languages| - 1].0 == language then Some(languages[|languages| - 1].1)
    else OverrideFor(languages[..|languages| - 1], language)
  }

  /**
   * The lookup finds nothing exactly when no override has that name, and
   * otherwise finds the record of the last override with that name.
   */
  lemma {:induction false} OverrideForFindsLast(languages: seq<(string, Record)>, language: string)
    ensures var o := OverrideFor(languages, language);
      && (o.None? <==> forall i :: 0 <= i < |languages| ==> languages[i].0 != language)
      && (o.Some? ==> exists i :: 0 <= i < |languages| && languages[i] == (language, o.value)
                        && forall j :: i < j < |languages| ==> languages[j].0 != language)
  {
    if languages != [] {
      var n := |languages| - 1;
      if languages[n].0 != language {
        OverrideForFindsLast(languages[..n], language);
        assert forall i :: 0 <= i < n ==> languages[..n][i] == languages[i];
      }
    }
  }

  /** `Array.from(new Set(['en'].concat(Object.keys(languages))))` */
  function Translations(languages: seq<(string, Record)>): (t: seq<string>)
  {
    Dedup([BaseLanguage] + ObjectKeys(languages))
  }

  /**
   * The list of translations starts with "en", holds no language twice, and
   * holds exactly "en" and the override languages, whether or not "en" has
   * an override of its own; the override languages follow "en" in the order
   * their names are first written.
   */
  lemma TranslationsListsLanguages(languages: seq<(string, Record)>)
    ensures var t, keys := Translations(languages), LanguageKeys(languages);
      && t != [] && t[0] == BaseLanguage
      && NoDuplicates(t)
      && (forall l :: l in t <==> l == BaseLanguage || l in keys)
      && (forall i :: 1 <= i < |t| ==> t[i] != BaseLanguage && t[i] in keys)
      && (forall i, j :: 1 <= i < j < |t| ==> FirstIndex(keys, t[i]) < FirstIndex(keys, t[j]))
  {
    var keys := LanguageKeys(languages);
    var all := [BaseLanguage] + Dedup(keys);
    DedupKeepsHead(all);
    DedupListsEachOnce(all);
    SameElements(keys, all);
    TranslationsInWrittenOrder(keys, all);
  }

  /** The languages after "en" keep the order in which their names are first written. */
  lemma TranslationsInWrittenOrder(keys: seq<string>, all: seq<string>)
    requires all == [BaseLanguage] + Dedup(keys)
    ensures var t := Dedup(all);
      && (forall i :: 1 <= i < |t| ==> t[i] != BaseLanguage && t[i] in keys)
      && (forall i, j :: 1 <= i < j < |t| ==> FirstIndex(keys, t[i]) < FirstIndex(keys, t[j]))
  {
    var t, ok := Dedup(all), Dedup(keys);
    DedupListsEachOnce(keys);
    DedupListsEachOnce(all);
    DedupKeepsHead(all);
    forall i | 1 <= i < |t|
      ensures t[i] != BaseLanguage && t[i] in ok && t[i] in keys
      ensures FirstIndex(all, t[i]) == 1 + FirstIndex(ok, t[i])
    {
      assert t[i] != t[0];
      FirstIndexAfterHead(BaseLanguage, ok, t[i]);
    }
    forall i, j | 1 <= i < j < |t|
      ensures FirstIndex(keys, t[i]) < FirstIndex(keys, t[j])
    {
      var p, q := FirstIndex(ok, t[i]), FirstIndex(ok, t[j]);
      assert ok[p] == t[i] && ok[q] == t[j];
    }
  }

  /** Past a head that differs from `x`, the first occurrence of `x` is one place further on. */
  lemma FirstIndexAfterHead(head: string, ys: seq<string>, x: string)
    requires x != head && x in ys
    ensures x in [head] + ys && FirstIndex([head] + ys, x) == 1 + FirstIndex(ys, x)
  {
    assert ([head] + ys)[1..] == ys;
  }

  /** Listing "en" before the Set of the keys keeps exactly "en" and the keys. */
  lemma SameElements(keys: seq<string>, all: seq<string>)
    requires all == [BaseLanguage] + Dedup(keys)
    ensures forall l :: l in Dedup(all) <==> l == BaseLanguage || l in keys
  {
    DedupListsEachOnce(keys);
    DedupListsEachOnce(all);
    forall l | l in Dedup(all)
      ensures l == BaseLanguage || l in keys
    {
      var k :| 0 <= k < |Dedup(all)| && Dedup(all)[k] == l;
      var m :| 0 <= m < |all| && all[m] == l;
      if m > 0 {
        assert Dedup(keys)[m - 1] == l;
      }
    }
    forall l | l == BaseLanguage || l in keys
      ensures l in Dedup(all)
    {
      if l == BaseLanguage {
        assert all[0] == l;
      } else {
        var i :| 0 <= i < |keys| && keys[i] == l;
        var m :| 0 <= m < |Dedup(keys)| && Dedup(keys)[m] == l;
        assert all[m + 1] == l;
      }
    }
  }

  /** `{...base, ...languages[language]}` */
  function Merged(d: Descriptor, language: string): Record
  {
    match OverrideFor(d.languages, language)
    case Some(o) => Spread(d.base, o)
    case None => Spread(d.base, map[])
  }

  /** `htmlTitle` after the backfill: kept when truthy, otherwise the title followed by " – Navi". */
  function BackfilledHtmlTitle(m: Record): Value
  {
    if Truthy(Get(m, "htmlTitle")) then Get(m, "htmlTitle")
    else Str(ToText(Get(m, "title")) + " – Navi")
  }

  /** `blurb` after the backfill from `description` and the wrapping of non-elements in a paragraph. */
  function BackfilledBlurb(m: Record): Value
  {
    var b := if Truthy(Get(m, "blurb")) then Get(m, "blurb") else Get(m, "description");
    if Truthy(b) && !IsValidElement(b) then Element(Paragraph(b)) else b
  }

  /**
   * The record `getData` returns, property by property: the derived
   * properties as computed above, every other property as merged.
   */
  function Resolve(d: Descriptor, context: Context): Record
  {
    var m := Merged(d, ActiveLanguage(context.language));
    map k | k in m.Keys + DerivedKeys ::
      if k == "translations" then Strings(Translations(d.languages))
      else if k == "htmlTitle" then BackfilledHtmlTitle(m)
      else if k == "blurb" then BackfilledBlurb(m)
      else m[k]
  }

  /**
   * `getData`: builds a fresh record from the spread of the base record and
   * the active language's override, then reassigns `htmlTitle` and `blurb`
   * step by step. Neither the descriptor nor its records are changed.
   */
  method GetData(d: Descriptor, context: Context) returns (data: Record)
    ensures data == Resolve(d, context)
  {
    var language := ActiveLanguage(context.language);
    var override := OverrideFor(d.languages, language);
    data := Spread(d.base, if override.Some? then override.value else map[]);
    ghost var merged := data;
    assert merged == Merged(d, language);
    data := data["translations" := Strings(Translations(d.languages))];

    if !Truthy(Get(data, "htmlTitle")) {
      data := data["htmlTitle" := Str(ToText(Get(data, "title")) + " – Navi")];
    }
    assert data["htmlTitle"] == BackfilledHtmlTitle(merged);

    if !Truthy(Get(data, "blurb")) {
      data := data["blurb" := Get(data, "description")];
    }
    assert Get(data, "blurb") == (if Truthy(Get(merged, "blurb")) then Get(merged, "blurb") else Get(merged, "description"));
    if Truthy(Get(data, "blurb")) && !IsValidElement(Get(data, "blurb")) {
      data := data["blurb" := Element(Paragraph(Get(data, "blurb")))];
    }
    assert data["blurb"] == BackfilledBlurb(merged);

    assert data.Keys == merged.Keys + DerivedKeys;
    forall k | k in data && k !in DerivedKeys
      ensures data[k] == merged[k]
    {
    }
    ResolveByProperty(d, context, merged, data);
  }

  /** A record with the merged properties and the derived ones as computed above is the resolved record. */
  lemma ResolveByProperty(d: Descriptor, context: Context, m: Record, data: Record)
    requires m == Merged(d, ActiveLanguage(context.language))
    requires data.Keys == m.Keys + DerivedKeys
    requires data["translations"] == Strings(Translations(d.languages))
    requires data["htmlTitle"] == BackfilledHtmlTitle(m)
    requires data["blurb"] == BackfilledBlurb(m)
    requires forall k :: k in data && k !in DerivedKeys ==> data[k] == m[k]
    ensures data == Resolve(d, context)
  {
  }

  /** A property that is neither derived nor overridden keeps the base value; an overridden one takes the override's. */
  lemma ResolveMergesOverride(d: Descriptor, context: Context, k: string)
    requires k !in DerivedKeys
    ensures var r := Resolve(d, context);
      var o := OverrideFor(d.languages, ActiveLanguage(context.language));
      && (k in r <==> k in d.base || (o.Some? && k in o.value))
      && (o.Some? && k in o.value ==> r[k] == o.value[k])
      && (k in d.base && (o.None? || k !in o.value) ==> r[k] == d.base[k])
  {
  }

  /** A language without an override yields exactly the base properties plus the derived ones. */
  lemma ResolveWithoutOverride(d: Descriptor, context: Context)
    requires forall i :: 0 <= i < |d.languages| ==> d.languages[i].0 != ActiveLanguage(context.language)
    ensures var r := Resolve(d, context);
      && r.Keys == d.base.Keys + DerivedKeys
      && (forall k :: k in d.base && k !in DerivedKeys ==> r[k] == d.base[k])
      && r["htmlTitle"] == BackfilledHtmlTitle(d.base)
      && r["blurb"] == BackfilledBlurb(d.base)
  {
    OverrideForFindsLast(d.languages, ActiveLanguage(context.language));
    assert Merged(d, ActiveLanguage(context.language)) == d.base;
  }

  /**
   * The resolved `translations` replaces whatever the base or the override
   * says: "en" first, then the override languages, each once, in the order
   * their names are first written.
   */
  lemma ResolveListsTranslations(d: Descriptor, context: Context)
    ensures var r, keys := Resolve(d, context), LanguageKeys(d.languages);
      && "translations" in r && r["translations"] == Strings(Translations(d.languages))
      && var t := r["translations"].items;
      && t != [] && t[0] == BaseLanguage
      && NoDuplicates(t)
      && (forall l :: l in t <==> l == BaseLanguage || l in keys)
      && (forall i :: 1 <= i < |t| ==> t[i] != BaseLanguage && t[i] in keys)
      && (forall i, j :: 1 <= i < j < |t| ==> FirstIndex(keys, t[i]) < FirstIndex(keys, t[j]))
  {
    TranslationsListsLanguages(d.languages);
  }

  /**
   * The blurb rules: a falsy blurb is replaced by the description; a truthy
   * value that is not an element is then wrapped in a paragraph; an element is
   * kept; with neither blurb nor description, the blurb reads as undefined.
   * The description itself is left as merged.
   */
  lemma ResolveBlurb(d: Descriptor, context: Context)
    ensures var m := Merged(d, ActiveLanguage(context.language));
      var r := Resolve(d, context);
      var blurb, description := Get(m, "blurb"), Get(m, "description");
      && Get(r, "description") == description
      && (Truthy(blurb) && IsValidElement(blurb) ==> r["blurb"] == blurb)
      && (Truthy(blurb) && !IsValidElement(blurb) ==> r["blurb"] == Element(Paragraph(blurb)))
      && (!Truthy(blurb) && IsValidElement(description) ==> r["blurb"] == description)
      && (!Truthy(blurb) && Truthy(description) && !IsValidElement(description) ==> r["blurb"] == Element(Paragraph(description)))
      && (!Truthy(blurb) && !Truthy(description) ==> r["blurb"] == description)
      && ("blurb" !in m && "description" !in m ==> Get(r, "blurb") == Undefined)
  {
  }

  /** After `getData`, a truthy blurb is always an element and the HTML title is never falsy. */
  lemma ResolvedBlurbIsElement(d: Descriptor, context: Context)
    ensures var r := Resolve(d, context);
      && (Truthy(Get(r, "blurb")) ==> IsValidElement(Get(r, "blurb")))
      && Truthy(Get(r, "htmlTitle"))
  {
  }

  /** `getTitle`: the `htmlTitle` of `getData`, backfilled from the title when falsy. */
  function GetTitle(d: Descriptor, context: Context): (t: Value)
    ensures Truthy(t)
    ensures var m := Merged(d, ActiveLanguage(context.language));
      Truthy(Get(m, "htmlTitle")) ==> t == Get(m, "htmlTitle")
    ensures var m := Merged(d, ActiveLanguage(context.language));
      !Truthy(Get(m, "htmlTitle")) ==> t == Str(ToText(Get(m, "title")) + " – Navi")
  {
    Resolve(d, context)["htmlTitle"]
  }

  /** `getHead`: a description meta element when the merged description is truthy, null otherwise. */
  function GetHead(d: Descriptor, context: Context): (h: Value)
    ensures var description := Get(Merged(d, ActiveLanguage(context.language)), "description");
      Truthy(description) ==> h == Element(Meta("description", description))
    ensures var description := Get(Merged(d, ActiveLanguage(context.language)), "description");
      !Truthy(description) ==> h == Null
  {
    var data := Resolve(d, context);
    if Truthy(Get(data, "description")) then Element(Meta("description", Get(data, "description")))
    else Null
  }

  /** A page whose base record and overrides all lack a description has no head element. */
  lemma {:induction false} HeadWithoutDescription(d: Descriptor, context: Context)
    requires "description" !in d.base
    requires forall i :: 0 <= i < |d.languages| ==> "description" !in d.languages[i].1
    ensures GetHead(d, context) == Null
  {
    OverrideForFindsLast(d.languages, ActiveLanguage(context.language));
    assert "description" !in Merged(d, ActiveLanguage(context.language));
  }

  /** The exports `getView` takes out of the document module by name. */
  const DestructuredExports: set<string> := {"default", "demoboardHelpers", "tableOfContents", "filename"}

  /** The properties `getView` always sets on the view. */
  const ViewKeys: set<string> :=
    {"Component", "demoboardHelpers", "tableOfContents", "filename", "isTranslationMissing", "documentComponents"}

  /**
   * `v` is the view record for document module `m`: the module's other
   * exports passed through, then the named properties on top of them.
   */
  predicate IsViewOf(v: Record, m: Record, isTranslationMissing: bool, documentComponents: Value) {
    && v.Keys == (m.Keys - DestructuredExports) + ViewKeys
    && v["Component"] == Get(m, "default")
    && v["demoboardHelpers"] == Get(m, "demoboardHelpers")
    && v["tableOfContents"] == Get(m, "tableOfContents")
    && v["filename"] == Get(m, "filename")
    && v["isTranslationMissing"] == Bool(isTranslationMissing)
    && v["documentComponents"] == documentComponents
    && (forall k :: k in v && k !in ViewKeys ==> v[k] == m[k])
  }

  /**
   * The object literal `getView` returns: the module's exports other than
   * those it takes by name, then the named properties on top of them.
   */
  function AssembleView(m: Record, isTranslationMissing: bool, documentComponents: Value): (v: Record)
    ensures IsViewOf(v, m, isTranslationMissing, documentComponents)
  {
    Spread(m - DestructuredExports, map[
      "Component" := Get(m, "default"),
      "demoboardHelpers" := Get(m, "demoboardHelpers"),
      "tableOfContents" := Get(m, "tableOfContents"),
      "filename" := Get(m, "filename"),
      "isTranslationMissing" := Bool(isTranslationMissing),
      "documentComponents" := documentComponents])
  }

  /** The warning logged for a document module without a `filename` export. */
  function MissingFilenameWarning(request: Request): string {
    "The content for URL \"" + request.mountpath + "\" should export a \"filename\" string."
  }

  /**
   * `getView`: one import of the active language's document, then one of the
   * "en" document if that fails. When both fail, no view is produced (the
   * second failure propagates). The warning is the logged message, if any.
   */
  method GetView(d: Descriptor, request: Request, context: Context) returns (view: Option<Record>, warning: Option<string>)
    ensures var language := ActiveLanguage(context.language);
      view.None? <==> d.getDocument(language).None? && d.getDocument(BaseLanguage).None?
    ensures ActiveLanguage(context.language) == BaseLanguage && view.Some? ==>
      Get(view.value, "isTranslationMissing") == Bool(false)
    ensures var language := ActiveLanguage(context.language);
      var missing := d.getDocument(language).None?;
      var components := if context.getDocumentComponents.Some? then context.getDocumentComponents.value() else Obj(map[]);
      view.Some? ==>
        && IsViewOf(view.value, if missing then d.getDocument(BaseLanguage).value else d.getDocument(language).value, missing, components)
        && (warning.Some? <==> !Truthy(view.value["filename"]))
    ensures view.None? ==> warning.None?
    ensures warning.Some? ==> warning.value == MissingFilenameWarning(request)
  {
    var language := ActiveLanguage(context.language);
    var isTranslationMissing := false;
    var documentModule: Record;
    var attempt := d.getDocument(language);
    if attempt.Some? {
      documentModule := attempt.value;
    } else {
      var fallback := d.getDocument(BaseLanguage);
      if fallback.None? {
        view, warning := None, None;
        return;
      }
      documentModule := fallback.value;
      isTranslationMissing := true;
    }

    if !Truthy(Get(documentModule, "filename")) {
      warning := Some(MissingFilenameWarning(request));
    } else {
      warning := None;
    }

    var documentComponents := if context.getDocumentComponents.Some? then context.getDocumentComponents.value() else Obj(map[]);
    view := Some(AssembleView(documentModule, isTranslationMissing, documentComponents));
  }
}
