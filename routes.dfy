/**
 * A few page descriptors of the site's route table, as data. The content
 * loader of each descriptor is left as a parameter: which translated
 * documents exist is decided by the files on disk, not by the table.
 */
module Routes {
  import opened JsValues
  import opened Page

  const StartHereDescription: string :=
    "Create big, fast, CDN-delivered websites with great SEO & SMO, and all with vanilla create-react-app."

  /** The page at "/": a full base record and a Japanese override of `navTitle`. */
  function StartHere(getDocument: Loader): Descriptor {
    Descriptor(
      getDocument,
      map[
        "title" := Str("Navi"),
        "htmlTitle" := Str("Navi – A library for mapping URLs to content"),
        "navTitle" := Str("Start Here"),
        "description" := Str(StartHereDescription),
        "socialImageURL" := Asset("./social-media-card.png"),
        "navTableOfContents" := Null],
      [("ja", map["navTitle" := Str("ここで始める")])])
  }

  const ComparisonsBlurb: string :=
    "Navi is small routing library that\U{200A}—\U{200A}when combined with the rest of the React ecosystem\U{200A}—\U{200A}gives you many of the benefits of larger frameworks."

  /** The page at "/comparisons": a blurb of its own beside the description. */
  function Comparisons(getDocument: Loader): Descriptor {
    Descriptor(
      getDocument,
      map[
        "title" := Str("Is Navi For Me❓"),
        "htmlTitle" := Str("Is Navi For Me?"),
        "navTitle" := Str("Comparison With Similar Tools"),
        "description" := Str("Navi is small routing library that\U{200A}gives you many of the benefits of larger frameworks."),
        "blurb" := Str(ComparisonsBlurb)],
      [])
  }

  const GettingStartedDescription: string :=
    "Navi lets you use React’s Suspense, Hooks and Error Boundary APIs to handle routing declaratively, and asynchronously."

  /** The page at "/guides/getting-started": only a title and a description. */
  function GettingStarted(getDocument: Loader): Descriptor {
    Descriptor(
      getDocument,
      map["title" := Str("Getting Started"), "description" := Str(GettingStartedDescription)],
      [])
  }

  /** The page at "/guides/setting-head-meta-title": element-valued title and nav title, no description. */
  function SettingHeadMetaTitle(getDocument: Loader): Descriptor {
    Descriptor(
      getDocument,
      map[
        "title" := Element(Markup("SEO with <code>&lt;meta&gt;</code> and <code>&lt;title&gt;</code>")),
        "htmlTitle" := Str("Setting head, title and meta tags"),
        "navTitle" := Element(Markup("Setting <code>meta</code> and <code>title</code>"))],
      [])
  }
}
