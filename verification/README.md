# Mod download list page: category selector and search state

A Dafny model of the two pieces of logic in HMCL's mod download list page
(`ModDownloadListPage`), the launcher page that browses the CurseForge mod
and modpack catalog:

- **Category selector.** The catalog's categories form a forest; each
  `Category` has an id and ordered subcategories. `resolveCategory` walks it
  depth-first in pre-order and appends one `CategoryIndented(indent, id)` row
  per category, subcategories one level deeper than their parent. The list
  shown in the selector is a "no filter" row `(0, 0)` followed by the rows of
  every top-level category at indent 0 (module `Categories`).
- **Search state.** The page keeps `loading`, `failed`, the listed `items`,
  the selected profile version and whether the initial search has run.
  `search` is asynchronous; it is modelled as two explicit steps: `Issue`
  (on the UI thread: set `loading`, resolve the game version, produce the
  catalog query) and `Complete` (back on the UI thread: clear `loading`, then
  store the entries or set `failed`). `loadVersion` selects a version, clears
  both flags and fires the initial search only on its first call (module
  `SearchPage`). Module `PageTraces` applies arbitrary interleavings of
  searches, completions and loads and proves what `loading`, `failed`
  and the items are after any of them, including from a freshly built page, and
  how many queries are sent, with which filters and for which section.

The catalog search (`CurseModManager.searchPaginated`) is represented by the
`Outcome` handed to `Complete`; the jar inspection
(`GameVersion.minecraftVersion` of the version jar) is the `JarVersion`
function parameter. Both are uninterpreted.

Module `Text` models `StringUtils.isBlank` as `str == null ||
str.trim().isEmpty()`, with Java's `trim` removing characters up to U+0020.
`StringUtils` is not part of this model; this is the reading of its name used
throughout.

Three behaviours of the code are easy to miss, and the model keeps them:

- A successful completion does not reset `failed` (lines 137-143 only ever
  set it to true); only `loadVersion` clears it. So after a failure the page
  keeps reporting failure across later successful searches
  (`PageTraces.FailedStaysUntilLoad`, `PageTraces.FailedExactly`).
- `loadVersion` clears `loading`, but on its first call the initial search it
  fires sets `loading` again, so the first call ends with `loading` true.
- `search` before any version has been loaded dereferences a null version
  right after setting `loading`; the model issues no query in that case and
  leaves `loading` true.

## Model

| member | source | states |
|---|---|---|
| Categories.Resolve | HMCL/src/main/java/org/jackhuang/hmcl/ui/versions/ModDownloadListPage.java:345-350 | a category yields one row per category of its tree, the first being the category itself at the given indent |
| Categories.ResolveForest | HMCL/src/main/java/org/jackhuang/hmcl/ui/versions/ModDownloadListPage.java:347-349 | sibling categories yield one row per category of the forest, starting at the forest's own indent |
| Categories.ResolveNesting | HMCL/src/main/java/org/jackhuang/hmcl/ui/versions/ModDownloadListPage.java:345-350 | pre-order: a category's row comes first and every later row of its block is strictly deeper; no row is more than one level deeper than its predecessor |
| Categories.ResolveForestNesting | HMCL/src/main/java/org/jackhuang/hmcl/ui/versions/ModDownloadListPage.java:347-349 | a forest's rows never go shallower than its indent, and deepen by at most one level per row |
| Categories.ParseResolveForest | HMCL/src/main/java/org/jackhuang/hmcl/ui/versions/ModDownloadListPage.java:345-350 | reading the rows back by indent rebuilds the same forest: each subcategory lands under its parent, one level deeper, in its given order |
| Categories.RootsKeepOrder | HMCL/src/main/java/org/jackhuang/hmcl/ui/versions/ModDownloadListPage.java:226-228 | the rows at a forest's own indent are exactly its roots' ids, in the given order |
| Categories.RowsOccurInForest | HMCL/src/main/java/org/jackhuang/hmcl/ui/versions/ModDownloadListPage.java:345-350 | every row names a category of the forest |
| Categories.CategoryListShape | HMCL/src/main/java/org/jackhuang/hmcl/ui/versions/ModDownloadListPage.java:224-228 | the list starts with the (0, 0) row and has 1 + (number of categories) rows, all at indent 0 or deeper, deepening by at most one per row |
| Categories.UnflattenCategoryList | HMCL/src/main/java/org/jackhuang/hmcl/ui/versions/ModDownloadListPage.java:224-228 | the selector list can be read back into exactly the forest it was built from |
| Categories.CategoryListInjective | HMCL/src/main/java/org/jackhuang/hmcl/ui/versions/ModDownloadListPage.java:224-228 | different forests give different selector lists |
| Categories.CategoryListRowsOccur | HMCL/src/main/java/org/jackhuang/hmcl/ui/versions/ModDownloadListPage.java:224-228 | row 0 is the "no filter" row and every other row names a category of the forest |
| Categories.ResolveCategory | HMCL/src/main/java/org/jackhuang/hmcl/ui/versions/ModDownloadListPage.java:345-350 | the accumulating recursive procedure appends exactly the pre-order rows of the category to the list it is given |
| Categories.BuildCategoryList | HMCL/src/main/java/org/jackhuang/hmcl/ui/versions/ModDownloadListPage.java:224-228 | the loop over top-level categories builds the selector list: (0, 0) first, one row per category |
| Categories.ExampleForest | HMCL/src/main/java/org/jackhuang/hmcl/ui/versions/ModDownloadListPage.java:224-228 | A(B, C(D)) gives (0,0) (0,A) (1,B) (1,C) (2,D) |
| Text.BlankIffAllTrimmed | HMCL/src/main/java/org/jackhuang/hmcl/ui/versions/ModDownloadListPage.java:129 | a present string is blank exactly when all its characters are ones `trim` removes |
| SearchPage.NewPage | HMCL/src/main/java/org/jackhuang/hmcl/ui/versions/ModDownloadListPage.java:56-83 | a new page is idle, not failed, empty, with no version selected and no search issued, for the section it was built with |
| SearchPage.EffectiveGameVersion | HMCL/src/main/java/org/jackhuang/hmcl/ui/versions/ModDownloadListPage.java:128-133 | the game version a search is made for: the hint when the selected version is null or blank, else the jar's version or "" |
| SearchPage.HintUsedWhenBlank | HMCL/src/main/java/org/jackhuang/hmcl/ui/versions/ModDownloadListPage.java:129-130 | with a blank or null selected version the user's game version is used verbatim |
| SearchPage.HintIgnoredWhenSelected | HMCL/src/main/java/org/jackhuang/hmcl/ui/versions/ModDownloadListPage.java:131-133 | with a selected version the user's text has no effect; the jar's version is used, or "" when it has none |
| SearchPage.Issue | HMCL/src/main/java/org/jackhuang/hmcl/ui/versions/ModDownloadListPage.java:122-136 | issuing sets `loading` and changes nothing else; the query carries the effective game version, the call's filters and the page's section; no query before a version is loaded |
| SearchPage.Complete | HMCL/src/main/java/org/jackhuang/hmcl/ui/versions/ModDownloadListPage.java:137-143 | completion clears `loading`; success replaces the items with the returned entries and leaves `failed` as it was; failure sets `failed` and keeps the items |
| SearchPage.LoadVersion | HMCL/src/main/java/org/jackhuang/hmcl/ui/versions/ModDownloadListPage.java:86-96 | selects the version and clears `failed`; only a first call issues the query for ("", 0, 0, "", 0) and leaves `loading` set |
| SearchPage.SearchAction | HMCL/src/main/java/org/jackhuang/hmcl/ui/versions/ModDownloadListPage.java:253-260 | the search action passes the typed texts and sort index, page offset 0, and the selected row's category id or 0 when none is selected |
| SearchPage.SearchActionCategoryIsListed | HMCL/src/main/java/org/jackhuang/hmcl/ui/versions/ModDownloadListPage.java:253-257 | the category searched for is 0 or a category of the forest the selector was built from |
| PageTraces.QueriesUsePageSection | HMCL/src/main/java/org/jackhuang/hmcl/ui/versions/ModDownloadListPage.java:136 | every query of a run is for the page's own, unchanging section |
| PageTraces.ItemsAreLatestSuccess | HMCL/src/main/java/org/jackhuang/hmcl/ui/versions/ModDownloadListPage.java:137-143 | after any run the items are the entries of the last successful completion, in order, or the original items if none succeeded |
| PageTraces.FailedStaysUntilLoad | HMCL/src/main/java/org/jackhuang/hmcl/ui/versions/ModDownloadListPage.java:137-143 | once set, `failed` survives any searches and completions, successful ones included, until a version is loaded |
| PageTraces.FailedExactly | HMCL/src/main/java/org/jackhuang/hmcl/ui/versions/ModDownloadListPage.java:86-143 | `failed` holds after a run exactly when a completion failed after the last version load, or it held before and no version was loaded |
| PageTraces.LoadingAfterRun | HMCL/src/main/java/org/jackhuang/hmcl/ui/versions/ModDownloadListPage.java:89-143 | after any run `loading` is set exactly when the last event was a search or the version load that fired the initial search |
| PageTraces.FreshPageRun | HMCL/src/main/java/org/jackhuang/hmcl/ui/versions/ModDownloadListPage.java:56-143 | from a new page, `failed` holds exactly when a completion failed after the last load, the items are the last successful entries or none, and one initial search happens exactly when a version is loaded |
| PageTraces.QueryCount | HMCL/src/main/java/org/jackhuang/hmcl/ui/versions/ModDownloadListPage.java:86-136 | a run sends exactly one query per search made with a version selected, plus the initial search of the first version load |
| PageTraces.QueriesCarryArgs | HMCL/src/main/java/org/jackhuang/hmcl/ui/versions/ModDownloadListPage.java:94-136 | every query sent carries the category, page offset, name filter and sort of one of the run's search calls, or those of the initial search |
| PageTraces.InitialSearchOnce | HMCL/src/main/java/org/jackhuang/hmcl/ui/versions/ModDownloadListPage.java:86-96 | over any run `loadVersion` issues its initial search once at most: exactly when the page had not searched yet and a version is loaded |

## Left out

- The JavaFX skin (layout, grid constraints, combo boxes, styling, visibility bindings, list cells, lines 157-320): presentation only.
- `CategoryIndented.toString` and all i18n strings: label rendering, no logic.
- Thumbnail loading and navigation to `ModDownloadPage`: UI and I/O.
- `Task` / `Schedulers` thread hops: completion is an explicit second step, not concurrency. The source re-reads the selected version on the worker thread (line 129) while the jar was picked at call time (line 124-126); the model resolves both at issue time, so a version change between issue and resolution is not modelled.
- `CurseModManager.searchPaginated`, `CurseModManager.getCategories` and `GameVersion.minecraftVersion`: network and jar inspection, represented by the completion's `Outcome`, the input forest and the `JarVersion` parameter.
- Stale or overlapping searches: the page has no request tokens, so any completion is applied; the run lemmas hold for every interleaving of completions.
- The category forest is assumed finite and acyclic: the source's `CurseModManager.Category` objects could in principle form a cycle, on which `resolveCategory` would recurse without end, but the `Category` datatype can only express finite trees.
- The fetching of categories itself: `BuildCategoryList` takes the forest as input.
- Java's 32-bit `int` for indents and ids: indents are bounded by the tree depth and ids are copied, never computed, so overflow cannot arise in the modelled logic.
- `StringUtils` is not part of this model; `IsBlank` follows the null-or-trim-empty reading stated above.
