# Category registry of a multi-language content site

This project models the core of a small Go web site (`main.go`). The site serves a home page, per-category article-list pages and article pages in several languages. The model covers the **category registry** and the request-side code that reads it:

- **Registry build (`initData`).** Every descriptor file matching `data/<lang>/<category>/info.json` is read and JSON-decoded. Its `Lang` is overwritten with the directory two levels above the file. The record is appended to that language's list. Every list is then sorted in place by `Order`. Any read or decode failure aborts the whole load through `log.Fatal`.
- **Language resolution (`getLangFromRequest`).** The language is the raw `Accept-Language` value, or `"pl"` when that value is empty.
- **Article-list page (`articleListHandler`).** The handler scans the resolved language's list and stops at the first category whose `Slug` matches. With no match it falls through to the not-found handler. With a match, the page head carries that category's `Title`, `Description` and `Keywords` and the resolved language.
- **Other pages.** The home, article and not-found handlers fill in the language's full category list and the language.

How the source maps to Dafny:

- `wrappers.dfy` (module `Wrappers`) defines `Option` and `Result`.
- `registry.dfy` (module `Registry`) holds the records `Head` (`headData`) and `Category` (`categoriesData`).
  - The filesystem and JSON decoder are an abstract input: a sequence of `DescriptorFile`. Each one is a path split into segments plus the outcome `Unreadable`, `Malformed` or `Parsed(record)`.
  - The registry is `map<string, seq<Category>>`.
  - `initData` becomes the method `Load`. Its first loop is `Collect`; its second loop is `SortEach`, which sorts each list in place as an `array` with `SortByOrder`.
  - `log.Fatal` becomes a `Failure` result carrying the kind of error. No registry exists on that path.
  - The pure functions `Decoded`, `ForLang` and `Grouped` are an independent reference definition. The loops are proved against it.
- `handlers.dfy` (module `Handlers`) models the four handlers. They take the registry and the `Accept-Language` value; the article-list handler also takes the category slug from the route. `HomePage`, `ArticlePage` and `NotFoundPage` are functions. `ArticleListPage` is a method, because the source scans the list with a loop. Each returns the template name and the page data (`View`). The source reads the registry from a global variable; here it is passed in as a parameter.

Two points about the code that shape the model:

- **Sorting is not stable.** `sort.Slice` (main.go:154) is not a stable sort. So the model promises only that each list is non-decreasing by `Order` and is a permutation of the descriptors of that language. Tied entries may come in any order.
- **The language comes only from the header.** The whole raw `Accept-Language` value (main.go:62) is the registry key. It is not split into tokens or quality values. Every handler ignores the `{lang}` segment of the route (main.go:167-168). So `GET /en/reds` with `Accept-Language: pl` searches the Polish list.

## Model

| member | source | states |
|---|---|---|
| Handlers.ResolveLang | main.go:61-67 | The resolved language is never empty. It is the header value when that is non-empty, and "pl" when it is empty. |
| Registry.LangOf | main.go:138 | For every path the glob can return (data/<lang>/<category>/info.json), the language is the first wildcard segment, two directories above the file. |
| Registry.Stamp | main.go:137-149 | A loaded record's Lang is the path's language whatever the JSON said. Every other decoded field is kept unchanged. |
| Registry.Decoded | main.go:136-149 | Decoding succeeds exactly when every file reads and decodes. It then yields one stamped record per file, in discovery order. Otherwise the error is that of the first failing file, and every file before it decoded. |
| Registry.FirstFailureAborts | main.go:140-147 | A failing file that follows only good files decides the whole load. Files after it cannot change the outcome, so no partial registry is possible. |
| Registry.ForLangCounts | main.go:149-150 | A language's list holds each record of that language exactly as often as it was discovered, and holds no record of another language. |
| Registry.GroupedSnoc | main.go:150 | Appending a record to the registry extends only its own language's list, creating it when absent. This is the append onto a possibly nil slice. |
| Registry.GroupedIsPartition | main.go:149-150 | Grouping by language is a partition. Every language key has a non-empty list, and each descriptor lands in its language's list and in no other. |
| Registry.Collect | main.go:134-151 | The discovery loop aborts with the first file's read or decode error. Otherwise it builds exactly the grouping of the stamped records by language, in discovery order. |
| Registry.SortByOrder | main.go:154-156 | Sorting a list in place leaves it non-decreasing by Order and a permutation of its old contents. Stability is not claimed. |
| Registry.SortEach | main.go:153-157 | Every language key is kept. Each list becomes sorted by Order and holds the same multiset of categories as before. |
| Registry.Load | main.go:133-158 | The load fails exactly when some descriptor fails, with the first failure's error. On success there is one key per language discovered, each list is sorted by Order and is a permutation of that language's descriptors, and every entry of list l has Lang l. |
| Registry.RegistryPlacesEveryFile | main.go:149-150 | In a loaded registry, every entry of list l has Lang l, and every discovered file's record is in the list of the language its path names. |
| Registry.SingleDescriptorRegistry | main.go:135-157 | A record loaded from data/en/reds/info.json becomes the only category of "en". Its Lang is "en" and all its other fields are as decoded. |
| Handlers.NavigationData | main.go:71-73 | The plain page data holds the language's full category list (empty for a language with no entry) and that language, and leaves title, description and keywords empty. |
| Handlers.HomePage | main.go:69-75 | The home page renders homepage.gohtml with the resolved language's category list and the resolved language. |
| Handlers.ArticlePage | main.go:77-83 | The article page renders article.gohtml with the resolved language's category list and the resolved language. |
| Handlers.NotFoundPage | main.go:112-119 | The not-found page renders 404.gohtml with the resolved language's full category list, for navigation. |
| Handlers.FirstWithSlug | main.go:90-97 | The lookup finds nothing exactly when no entry has the slug. Otherwise it returns an entry with the slug that no earlier entry shares. |
| Handlers.ArticleListPage | main.go:85-110 | With no matching slug in the resolved language's list, the result is exactly the not-found page. With a match, it renders article-list.gohtml with the full list, and the head carries the first match's title, description and keywords and the resolved language. |
| Handlers.UniqueSlugIsFound | main.go:92-97 | When slugs are unique within a list, the lookup returns exactly the entry that carries the slug. |
| Handlers.FoundCategoryBelongs | main.go:92-97 | In a loaded registry, the category found for a language and slug is a discovered record of that language with that slug. |
| Handlers.UnknownLanguageNotFound | main.go:92-100 | For a language with no descriptors, every slug lookup is not found, and the not-found page lists no categories. |

## Left out

- HTTP server setup, `ListenAndServe` and the `PORT` default of 8080 (main.go:170-177) are server plumbing and are not modelled.
- Writing the 404 status in `notFoundHandler` (main.go:113) is not modelled. The not-found path is identified by its template, `404.gohtml`.
- The route regular expressions of gorilla/mux (main.go:164-169) are not modelled, because the library's matching is not part of this model. The slug is taken as given. The list route allows hyphens in the category segment; the article route does not.
- Template parsing and execution, and `renderWithLayout` (main.go:121-131, main.go:162), are not modelled. They are wrappers over the template engine and its error writing. A handler's result is the template name plus the data it would render.
- `filepath.Glob`, `ioutil.ReadFile` and `json.Unmarshal` are abstracted into the input sequence of `DescriptorFile`. Their internals are not part of this model.
  - The glob's guarantee about path shape is the precondition `Discovered`.
  - Paths are segment sequences, so `path.Dir` and `path.Base` are "drop the last segment" and "the last segment".
  - Glob's own error is ignored by the source and is not modelled.
- `log.Fatal` is modelled as a `Failure` result instead of a process exit.
- `Category.head.lang`: the embedded `headData` has its own `Lang`. The outer `Lang` shadows it, so JSON decoding never fills it. The model keeps that field as decoded and never reads it.
- Concurrent read-only access to the global registry by request goroutines is not modelled. The registry is an immutable value passed to each handler.
- Registry.SortByOrder: an insertion sort stands in for the pattern-defeating quicksort behind `sort.Slice`. Only the sort's contract, sorted and a permutation, is shared with the source. The order of tied entries may differ.
- The integer width of `Order` (Go's `int`) is not modelled. An out-of-range JSON number is a decode failure, which the input already covers through `Malformed`.
