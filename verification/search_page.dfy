/** The search state of the mod list page: the `loading` and `failed` flags,
    the listed `items`, the selected game version and whether the initial
    search has been issued. An asynchronous search is split into two explicit
    steps: `Issue`, which runs on the UI thread when `search` is called and
    yields the catalog query, and `Complete`, which applies the query's
    outcome back on the UI thread. */
module SearchPage {
  import opened Optional
  import opened Text
  import Categories

  /** A game version as selected in a profile; `version` is None when it is
      null. Profiles are known here only by name. */
  datatype ProfileVersion = ProfileVersion(profile: string, version: Option<string>)

  /** The arguments of one `search` call. */
  datatype SearchArgs = SearchArgs(userGameVersion: string, category: int, pageOffset: int, searchFilter: string, sort: int)

  /** The paginated catalog query the background task runs. */
  datatype Query = Query(gameVersion: string, category: int, section: int, pageOffset: int, searchFilter: string, sort: int)

  /** How a catalog query ended: its entries, or any exception. */
  datatype Outcome<T> = Succeeded(entries: seq<T>) | Failed

  /** The page's observable state. `section` (mods or modpacks) is fixed
      when the page is built. */
  datatype Page<T> = Page(section: int, version: Option<ProfileVersion>, loading: bool, failed: bool,
                          items: seq<T>, searchInitialized: bool)

  /** Reads the game version embedded in a profile's version jar; None when
      it cannot be found. Jar inspection is not modelled, so it is a
      parameter. */
  type JarVersion = (string, string) -> Option<string>

  /** A freshly built page: nothing loading, nothing failed, no items, no
      version selected and no search issued yet. */
  function NewPage<T>(section: int): (p: Page<T>)
    ensures p.section == section && p.version.None?
    ensures !p.loading && !p.failed && p.items == [] && !p.searchInitialized
  {
    Page(section, None, false, false, [], false)
  }

  /** The game version a search is made for. With no specific version
      selected (a blank or null version name) the user's text is taken as
      is; otherwise the version embedded in that version's jar, or "" when
      none is found. */
  function EffectiveGameVersion(selected: ProfileVersion, userGameVersion: string, jar: JarVersion): string {
    if IsBlank(selected.version) then userGameVersion
    else jar(selected.profile, selected.version.value).GetOr("")
  }

  /** With no version selected the user's text passes through verbatim. */
  lemma HintUsedWhenBlank(selected: ProfileVersion, userGameVersion: string, jar: JarVersion)
    requires IsBlank(selected.version)
    ensures EffectiveGameVersion(selected, userGameVersion, jar) == userGameVersion
  {
  }

  /** With a version selected the user's text has no influence: the result
      is the jar's version, or "" when the jar has none. */
  lemma HintIgnoredWhenSelected(selected: ProfileVersion, hint1: string, hint2: string, jar: JarVersion)
    requires !IsBlank(selected.version)
    ensures EffectiveGameVersion(selected, hint1, jar) == EffectiveGameVersion(selected, hint2, jar)
    ensures jar(selected.profile, selected.version.value).None? ==> EffectiveGameVersion(selected, hint1, jar) == ""
    ensures jar(selected.profile, selected.version.value).Some? ==>
              EffectiveGameVersion(selected, hint1, jar) == jar(selected.profile, selected.version.value).value
  {
  }

  /** The issuing half of `search`: `loading` becomes true and nothing else
      changes; the query carries the call's filters, the page's section and
      the effective game version. Before any version has been loaded the
      call fails right after setting `loading` (the version is dereferenced
      while null), so no query is issued. */
  function Issue<T>(page: Page<T>, args: SearchArgs, jar: JarVersion): (r: (Page<T>, Option<Query>))
    ensures r.0.loading
    ensures r.0.failed == page.failed && r.0.items == page.items
    ensures r.0 == page.(loading := true)
    ensures r.1.Some? <==> page.version.Some?
    ensures r.1.Some? ==>
              && r.1.value.gameVersion == EffectiveGameVersion(page.version.value, args.userGameVersion, jar)
              && r.1.value.category == args.category
              && r.1.value.section == page.section
              && r.1.value.pageOffset == args.pageOffset
              && r.1.value.searchFilter == args.searchFilter
              && r.1.value.sort == args.sort
  {
    var issued := page.(loading := true);
    match page.version
    case None => (issued, None)
    case Some(selected) =>
      var gameVersion := EffectiveGameVersion(selected, args.userGameVersion, jar);
      (issued, Some(Query(gameVersion, args.category, page.section, args.pageOffset, args.searchFilter, args.sort)))
  }

  /** The completion half of `search`: `loading` always ends false; a
      success replaces the items wholesale with the returned entries, in
      their order, and leaves `failed` as it was (even if true); a failure
      sets `failed` and keeps the old items. */
  function Complete<T>(page: Page<T>, outcome: Outcome<T>): (r: Page<T>)
    ensures !r.loading
    ensures outcome.Succeeded? ==> r.items == outcome.entries && r.failed == page.failed
    ensures outcome.Failed? ==> r.failed && r.items == page.items
    ensures r.section == page.section && r.version == page.version
    ensures r.searchInitialized == page.searchInitialized
  {
    match outcome
    case Succeeded(entries) => page.(loading := false, items := entries)
    case Failed => page.(loading := false, failed := true)
  }

  /** The arguments `loadVersion` searches with the first time. */
  const InitialSearch := SearchArgs("", 0, 0, "", 0)

  /** `loadVersion`: selects the version and clears both flags; the first
      call then issues the initial search, which sets `loading` again. Later
      calls issue nothing. */
  function LoadVersion<T>(page: Page<T>, selected: ProfileVersion, jar: JarVersion): (r: (Page<T>, Option<Query>))
    ensures r.0.version == Some(selected) && r.0.searchInitialized
    ensures !r.0.failed && r.0.items == page.items && r.0.section == page.section
    ensures r.1.Some? <==> !page.searchInitialized
    ensures r.0.loading <==> !page.searchInitialized
    ensures r.1.Some? ==> r.1.value == Query(if IsBlank(selected.version) then "" else jar(selected.profile, selected.version.value).GetOr(""),
                                             0, page.section, 0, "", 0)
  {
    var selectedPage := page.(version := Some(selected), loading := false, failed := false);
    if !page.searchInitialized then
      Issue(selectedPage.(searchInitialized := true), InitialSearch, jar)
    else
      (selectedPage, None)
  }

  /** The query that the skin's search action sends: the typed game
      version and name, the selected category's id or 0 when no row is
      selected, the first page, and the selected sort index. */
  function SearchAction(gameVersionText: string, selectedCategory: Option<Categories.CategoryIndented>,
                        nameText: string, sortIndex: int): (args: SearchArgs)
    ensures args.pageOffset == 0
    ensures args.userGameVersion == gameVersionText && args.searchFilter == nameText && args.sort == sortIndex
    ensures selectedCategory.None? ==> args.category == 0
    ensures selectedCategory.Some? ==> args.category == selectedCategory.value.categoryId
  {
    var category := match selectedCategory
      case Some(row) => row.categoryId
      case None => 0;
    SearchArgs(gameVersionText, category, 0, nameText, sortIndex)
  }

  /** Whatever row of the category list is selected, or none, the search
      action filters on 0 ("any category") or on a category of the forest
      the list was built from. */
  lemma SearchActionCategoryIsListed(categories: seq<Categories.Category>, selected: Option<nat>,
                                     gameVersionText: string, nameText: string, sortIndex: int)
    requires selected.Some? ==> selected.value < |Categories.CategoryList(categories)|
    ensures var row := if selected.Some? then Some(Categories.CategoryList(categories)[selected.value]) else None;
            var category := SearchAction(gameVersionText, row, nameText, sortIndex).category;
            category == 0 || Categories.OccursInForest(category, categories)
  {
    if selected.Some? {
      Categories.CategoryListRowsOccur(categories, selected.value);
    }
  }
}
