# navi-website content routes: the `page` factory

The documentation site of the Navi router declares its pages in one route
table (`src/content/index.js`). Each entry is built by the `page` factory
from a page descriptor: a content loader (`getDocument`, one dynamic import
per language), a `default` metadata record, and per-language override
records such as `ja: { navTitle: ... }`. `page` returns four accessors that
the router calls for each request:

- `getData` picks the active language (`context.language`, or `"en"`). It
  spreads the override for that language over the base record and sets
  `translations` to `"en"` followed by the override languages, each listed
  once. It backfills `htmlTitle` from `title` with the suffix `" – Navi"`,
  backfills `blurb` from `description`, and wraps a blurb that is not
  already an element in a paragraph.
- `getTitle` is the `htmlTitle` of `getData`.
- `getHead` is a description `<meta>` element, or `null` when there is no
  description.
- `getView` imports the document for the active language and, when that
  fails, imports the `"en"` document once and sets `isTranslationMissing`.
  It warns when the module has no `filename`. The view holds the module's
  other exports, then `Component`, `demoboardHelpers`, `tableOfContents`,
  `filename`, `isTranslationMissing` and `documentComponents`.

The model has five modules:

- `JsValues` (values.dfy) covers JavaScript objects as `map<string, Value>`.
  A missing property reads as `Undefined`. It also defines truthiness,
  `React.isValidElement`, object spread, and the string a value contributes
  to `+`.
- `UniqueList` (unique.dfy) models `Array.from(new Set(xs))` as `Dedup`.
- `Page` (page.dfy) holds the factory. `Resolve` defines the `getData`
  record property by property. `GetData` is the step-by-step method, proved
  equal to `Resolve`. `GetTitle` and `GetHead` are projections. `GetView` is
  the two-attempt loading method.
- `Routes` (routes.dfy) holds four descriptors of the table as data, and
  `RouteExamples` (route_examples.dfy) states what the accessors give for
  them.

`getData` builds a fresh value: `GetData` has no `modifies` clause, and the
descriptor and its records are immutable values. So two calls with the same
language give equal records.

Notes on what the code does:

- `translations` is an ordered list: `"en"` first, then the override
  languages in the order their names are first written.
- The `htmlTitle` backfill tests the merged record, so an override can
  supply `htmlTitle` as well as `default`.
- A language without an override yields the base record plus the derived
  `translations`, `htmlTitle` and `blurb`.
- After `getData` the record always has a `blurb` property. It holds the
  description's value, `undefined` when there is no description.
- `getView` produces no view when both imports fail.

## Model

| member | source | states |
|---|---|---|
| Page.ActiveLanguage | src/content/index.js:232 | the active language is never empty; it is `context.language` when that is a non-empty string and `"en"` otherwise (the same function serves `getData` and `getView`) |
| Page.ObjectKeysListsNames | src/content/index.js:236 | `Object.keys(languages)` lists every override name, no name twice even when it is written twice, in the order the names are first written |
| Page.OverrideForFindsLast | src/content/index.js:230-235 | `languages[language]` is absent exactly when no override has that name; otherwise it is the record of the last override with that name |
| UniqueList.DedupListsEachOnce | src/content/index.js:236 | a Set's element list has no duplicates and holds exactly the elements of the input, in the order of their first occurrences |
| UniqueList.DedupKeepsHead | src/content/index.js:236 | the first input element comes first in the Set's element list |
| UniqueList.DedupOfDistinct | src/content/index.js:236 | a Set built from distinct elements lists them unchanged |
| Page.TranslationsListsLanguages | src/content/index.js:236 | the translations list starts with "en", has no duplicates, and holds exactly "en" and the override languages, whether or not "en" has an override; after "en" the languages come in the order their names are first written |
| Page.ResolveListsTranslations | src/content/index.js:233-237 | the resolved `translations` is that list, whatever `translations` the base or the override holds: "en" first, then the override languages once each in first-written order |
| Page.ResolveMergesOverride | src/content/index.js:233-237 | a non-derived property is present when the base or the override has it; it takes the override's value when the override has it, and the base's otherwise |
| Page.ResolveWithoutOverride | src/content/index.js:233-248 | for a language without an override, the record has the base's properties plus `translations`, `htmlTitle` and `blurb`, and every other property keeps the base value |
| Page.ResolveBlurb | src/content/index.js:243-248 | a falsy blurb is replaced by the description; a truthy non-element is wrapped in a paragraph; an element is kept; with neither blurb nor description the blurb reads as undefined; the description is unchanged |
| Page.ResolvedBlurbIsElement | src/content/index.js:239-248 | after `getData` a truthy blurb is always an element, and `htmlTitle` is always truthy |
| Page.GetData | src/content/index.js:231-251 | the record built by spreading and then reassigning `htmlTitle` and `blurb` is the property-wise resolved record |
| Page.GetTitle | src/content/index.js:239-253 | the title is always truthy; it is the merged `htmlTitle` when that is truthy, and otherwise the title followed by " – Navi" |
| Page.GetHead | src/content/index.js:254-262 | a description meta element carrying the merged description exactly when that description is truthy, and null otherwise |
| Page.HeadWithoutDescription | src/content/index.js:254-262 | when neither the base nor any override has a description, the head is null for every language |
| Page.AssembleView | src/content/index.js:276-291 | the view passes through the module's exports other than `default`, `demoboardHelpers`, `tableOfContents` and `filename`; it maps `default` to `Component`; the named properties override same-named exports |
| Page.GetView | src/content/index.js:264-292 | no view exactly when both imports fail; `isTranslationMissing` is true exactly when the first import failed, and then the "en" module is used; requesting "en" never sets the flag (because the loader gives the same outcome for the same language every time, see "## Left out"); the view is built from the loaded module; `documentComponents` is the provider's result or `{}`; the missing-filename warning is logged exactly when `filename` is falsy, and it does not block the view |
| RouteExamples.StartHereTranslations | src/content/index.js:5-18 | "/" lists the translations "en" and "ja" |
| RouteExamples.StartHereInJapanese | src/content/index.js:5-18 | "/" in Japanese has the navigation title "ここで始める" |
| RouteExamples.StartHereTitleInJapanese | src/content/index.js:5-18 | "/" in Japanese keeps the base `htmlTitle` |
| RouteExamples.StartHereByDefault | src/content/index.js:5-18 | "/" in any other language keeps the navigation title "Start Here" |
| RouteExamples.GettingStartedTitle | src/content/index.js:62-68 | "/guides/getting-started" has the title "Getting Started – Navi" |
| RouteExamples.GettingStartedDescribes | src/content/index.js:62-68 | its description is its head element and, wrapped in a paragraph, its blurb |
| RouteExamples.GettingStartedTranslations | src/content/index.js:62-68 | a page without overrides lists only "en" |
| RouteExamples.ComparisonsKeepsItsBlurb | src/content/index.js:34-43 | a blurb of its own wins over the description and is wrapped in a paragraph |
| RouteExamples.SettingHeadMetaTitleHasNoHead | src/content/index.js:123-130 | a page without a description has a null head and an undefined blurb; its `htmlTitle` is the title |

## Left out

- The `navi` calls `map`, `composeMatchers`, `withData` and `route`. URL matching, section data and rendering belong to that library. Only four descriptors of the route table are kept, as data.
- Dynamic `import()` of the `.mdx` documents and `require` of images. These are bundler I/O. The loader is a function from language to an optional module. An image reference is an opaque `Asset` value.
- `async`/`await`. The two imports and the component provider are sequential calls. The loader is a function, so importing the same language twice gives the same outcome. A transient failure of the first import is not modelled. Neither is a failure of the component provider.
- Page.GetView: the error that propagates when both imports fail is not modelled; the method returns no view instead.
- `console.warn`. The warning is returned as the message text and is not printed.
- React element construction. Elements are the `Paragraph`, `Meta` and `Markup` values of one datatype. `React.isValidElement` is a test for that datatype.
- Page.GetTitle: for `title + ' – Navi'`, string, `undefined`, `null` and boolean titles give their JavaScript text. Elements, arrays, objects and functions give the empty string here, not "[object Object]" or their source text. In the route table, element titles only appear where `htmlTitle` is given.
- Key order of the resulting objects, and numbers among property values.
- The `req` argument of `getData`, `getTitle` and `getHead`, which they never read.
