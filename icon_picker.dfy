/**
 * `IconPicker`, the dialog for choosing an icon from the v3 catalog: its
 * options, the wait for the icon system, the choice of what to list, the
 * rendering of at most `maxResults` results and the selection of one of them.
 */
module Picker {
  import opened Wrappers
  import opened Strings
  import opened Seqs
  import opened Catalog
  import opened IconsV3

  // ---------------------------------------------------------------------------
  // Options

  /** The JavaScript values `maxResults` can take here: `undefined`, `null` or a number. */
  datatype JsNumber = Undefined | Null | Num(n: int)

  /** The keys a caller's `options` object may hold. */
  datatype PickerOptions = PickerOptions(
    placeholder: Field<string>,
    showSearch: Field<bool>,
    showCategories: Field<bool>,
    maxResults: Field<JsNumber>)

  /** The merged `this.options`. */
  datatype Settings = Settings(placeholder: string, showSearch: bool, showCategories: bool, maxResults: JsNumber)

  const DefaultPlaceholder := "Выберите иконку..."

  /** `maxResults || 50`: `undefined`, `null` and 0 are falsy. */
  function MaxResultsDefault(v: JsNumber): JsNumber {
    if v.Num? && v.n != 0 then v else Num(50)
  }

  /** The computed defaults, then `...options` spread over them. */
  function MergeOptions(o: PickerOptions): Settings {
    var placeholder := if o.placeholder.Present? && o.placeholder.value != "" then o.placeholder.value else DefaultPlaceholder;
    var showSearch := !(o.showSearch.Present? && o.showSearch.value == false);
    var showCategories := !(o.showCategories.Present? && o.showCategories.value == false);
    var maxResults := MaxResultsDefault(if o.maxResults.Present? then o.maxResults.value else Undefined);
    Settings(
      if o.placeholder.Present? then o.placeholder.value else placeholder,
      if o.showSearch.Present? then o.showSearch.value else showSearch,
      if o.showCategories.Present? then o.showCategories.value else showCategories,
      if o.maxResults.Present? then o.maxResults.value else maxResults)
  }

  /**
   * An absent key gets its default (50 results, both controls shown, the
   * default placeholder); a present key wins whatever its value, so even
   * `maxResults: 0` or an empty placeholder is kept.
   */
  lemma MergeOptionsSpec(o: PickerOptions)
    ensures var s := MergeOptions(o);
      && (s.maxResults == if o.maxResults.Present? then o.maxResults.value else Num(50))
      && (s.showSearch == if o.showSearch.Present? then o.showSearch.value else true)
      && (s.showCategories == if o.showCategories.Present? then o.showCategories.value else true)
      && (s.placeholder == if o.placeholder.Present? then o.placeholder.value else DefaultPlaceholder)
  {
  }

  /** Where `slice(0, maxResults)` ends on a list of `len` results. */
  function Limit(maxResults: JsNumber, len: nat): (e: nat)
    ensures e <= len
    ensures maxResults == Undefined ==> e == len
    ensures maxResults == Null ==> e == 0
    ensures maxResults.Num? && maxResults.n >= 0 ==> e == if maxResults.n < len then maxResults.n else len
  {
    match maxResults
    case Undefined => len
    case Null => 0
    case Num(n) => SliceEnd(len, n)
  }

  // ---------------------------------------------------------------------------
  // waitForIconSystem

  /**
   * `waitForIconSystem`: checks for the icon system, and while it is missing
   * waits and checks again, at most 50 more times. `present(k)` tells whether
   * the system exists at check `k`; `ok` is false when the method throws.
   */
  method WaitForIconSystem(present: nat -> bool) returns (attempts: nat, ok: bool)
    ensures attempts <= 50 && ok == present(attempts)
    ensures forall k: nat :: k < attempts ==> !present(k)
    ensures ok <==> exists k: nat :: k <= 50 && present(k)
    ensures !ok ==> attempts == 50
  {
    attempts := 0;
    while !present(attempts) && attempts < 50
      invariant attempts <= 50
      invariant forall k: nat :: k < attempts ==> !present(k)
    {
      attempts := attempts + 1;
    }
    ok := present(attempts);
  }

  // ---------------------------------------------------------------------------
  // performSearch

  /** Where `performSearch` takes its results from. */
  datatype Source = Search(query: string) | Category(category: string) | Popular

  /** The query wins when it has a non-blank character, then a real category, then the popular list. */
  function SourceOf(query: string, category: string): (s: Source)
    ensures s.Search? <==> Trim(query) != ""
    ensures s.Search? ==> s.query == query
    ensures s.Category? <==> Trim(query) == "" && category != "" && category != "all"
    ensures s.Category? ==> s.category == category
  {
    if Trim(query) != "" then Search(query)
    else if category != "" && category != "all" then Category(category)
    else Popular
  }

  function EntriesOf(icons: seq<Icon>): (r: seq<Entry>)
    ensures |r| == |icons|
    ensures forall i :: 0 <= i < |icons| ==> r[i] == EntryOf(icons[i])
  {
    seq(|icons|, i requires 0 <= i < |icons| => EntryOf(icons[i]))
  }

  /** The list `performSearch` hands to `renderResults`. */
  function Results(sys: IconSystemV3, source: Source): seq<Entry>
    reads sys
  {
    match source
    case Search(q) => EntriesOf(sys.SearchIcons(q))
    case Category(c) => EntriesOf(sys.GetIconsByCategory(c))
    case Popular => sys.GetPopularIcons()
  }

  /** An entry comes from the list exactly when some icon of the list has it as its entry. */
  lemma EntriesOfMembers(icons: seq<Icon>)
    ensures forall e :: e in EntriesOf(icons) <==> exists icon :: icon in icons && EntryOf(icon) == e
  {
    var r := EntriesOf(icons);
    forall e | e in r ensures exists icon :: icon in icons && EntryOf(icon) == e {
      var i :| 0 <= i < |r| && r[i] == e;
      assert icons[i] in icons;
    }
    forall e | exists icon :: icon in icons && EntryOf(icon) == e ensures e in r {
      var icon :| icon in icons && EntryOf(icon) == e;
      var i :| 0 <= i < |icons| && icons[i] == icon;
      assert r[i] == e;
    }
  }

  /**
   * The results are those of a case-insensitive search for the untrimmed
   * query when it has a non-blank character; otherwise the icons of the chosen
   * category when one is chosen; otherwise the popular icons.
   */
  lemma ResultsSpec(sys: IconSystemV3, query: string, category: string)
    requires sys.Valid()
    ensures var r := Results(sys, SourceOf(query, category));
      && (Trim(query) != "" ==>
            forall e :: e in r <==> exists icon :: icon in sys.allIcons && MatchesTerm(icon, Lower(query)) && EntryOf(icon) == e)
      && (Trim(query) == "" && category != "" && category != "all" ==>
            forall e :: e in r <==> exists icon :: icon in sys.allIcons && icon.category == category && EntryOf(icon) == e)
      && (Trim(query) == "" && (category == "" || category == "all") ==>
            forall e :: e in r <==> e in PopularCandidates && InCatalog(sys.allIcons, e.name))
  {
    if Trim(query) != "" {
      EntriesOfMembers(sys.SearchIcons(query));
    } else if category != "" && category != "all" {
      EntriesOfMembers(sys.GetIconsByCategory(category));
    }
  }

  // ---------------------------------------------------------------------------
  // renderResults

  /** One item of the results grid: the entry and the markup its icon rendered to. */
  datatype Item = Item(entry: Entry, iconHtml: string)

  /**
   * The items rendered from `list` in order, skipping those whose rendering
   * threw; `render(name)` is what rendering `name` at size 32 with the class
   * `picker-icon` gave, `None` when it threw.
   */
  function RenderedItems(list: seq<Entry>, render: string -> Option<string>): seq<Item>
    decreases |list|
  {
    if list == [] then []
    else
      var last := list[|list| - 1];
      var rest := RenderedItems(list[..|list| - 1], render);
      match render(last.name)
      case Some(html) => rest + [Item(last, html)]
      case None => rest
  }

  /**
   * The rendered items are at most as many as the entries, each comes from an
   * entry of the list with the markup its rendering gave, every entry that
   * rendered has its item, and when nothing throws every entry has one.
   */
  lemma {:induction false} RenderedItemsSpec(list: seq<Entry>, render: string -> Option<string>)
    ensures |RenderedItems(list, render)| <= |list|
    ensures forall it :: it in RenderedItems(list, render) ==> it.entry in list && render(it.entry.name) == Some(it.iconHtml)
    ensures forall e :: e in list && render(e.name).Some? ==> Item(e, render(e.name).value) in RenderedItems(list, render)
    ensures (forall e :: e in list ==> render(e.name).Some?) ==> |RenderedItems(list, render)| == |list|
    decreases |list|
  {
    if list != [] {
      var init := list[..|list| - 1];
      RenderedItemsSpec(init, render);
      assert list == init + [list[|list| - 1]];
      if forall e :: e in list ==> render(e.name).Some? {
        assert forall e :: e in init ==> e in list;
      }
    }
  }

  /** What the grid lists for `list`: the rendered items among its first `maxResults` entries. */
  function Listing(list: seq<Entry>, maxResults: JsNumber, render: string -> Option<string>): seq<Item> {
    RenderedItems(list[..Limit(maxResults, |list|)], render)
  }

  class IconPicker {
    const settings: Settings
    var currentQuery: string
    var currentCategory: string
    var selectedIcon: Option<Entry>
    /** The items in the results grid. */
    var items: seq<Item>
    /** Which items have the `selected` class. */
    var marked: seq<bool>
    /** The text of `#results-count`. */
    var count: string
    /** Whether the grid shows the no-results message. */
    var noResults: bool
    /** Whether the select button is enabled. */
    var selectEnabled: bool
    /** Whether the picker is still in the page. */
    var open: bool

    /** There is a selection flag per item. */
    ghost predicate Valid()
      reads this
    {
      |marked| == |items|
    }

    /** The picker as constructed: empty query, all categories, nothing selected. */
    constructor (options: PickerOptions)
      ensures settings == MergeOptions(options)
      ensures currentQuery == "" && currentCategory == "all" && selectedIcon == None
      ensures items == [] && count == "0" && !selectEnabled && open
      ensures Valid()
    {
      settings := MergeOptions(options);
      currentQuery := "";
      currentCategory := "all";
      selectedIcon := None;
      items := [];
      marked := [];
      count := "0";
      noResults := false;
      selectEnabled := false;
      open := true;
    }

    /**
     * `renderResults(icons)`: no list or an empty one gives the no-results
     * message and the count 0; otherwise the first `maxResults` entries are
     * rendered, those whose rendering throws are skipped, and the count is the
     * number rendered.
     */
    method RenderResults(icons: Option<seq<Entry>>, render: string -> Option<string>)
      modifies this
      ensures noResults <==> icons.None? || icons.value == []
      ensures items == if icons.Some? then Listing(icons.value, settings.maxResults, render) else []
      ensures count == if noResults then "0" else IntToString(|items|)
      ensures marked == seq(|items|, j => false) && Valid()
      ensures selectedIcon == old(selectedIcon) && selectEnabled == old(selectEnabled)
      ensures currentQuery == old(currentQuery) && currentCategory == old(currentCategory) && open == old(open)
    {
      if icons.None? || |icons.value| == 0 {
        noResults := true;
        count := "0";
        items := [];
        marked := [];
        return;
      }
      var shown := icons.value[..Limit(settings.maxResults, |icons.value|)];
      assert Listing(icons.value, settings.maxResults, render) == RenderedItems(shown, render);
      var html: seq<Item> := [];
      var loadedCount := 0;
      var k := 0;
      while k < |shown|
        invariant 0 <= k <= |shown|
        invariant html == RenderedItems(shown[..k], render) && loadedCount == |html|
      {
        var icon := shown[k];
        assert shown[..k + 1][..k] == shown[..k];
        match render(icon.name) {
          case Some(iconHtml) =>
            html := html + [Item(icon, iconHtml)];
            loadedCount := loadedCount + 1;
          case None =>
        }
        k := k + 1;
      }
      assert shown[..k] == shown;
      items := html;
      marked := seq(|html|, j => false);
      count := IntToString(loadedCount);
      noResults := false;
    }

    /**
     * `render`: the dialog's markup is written afresh, so the picker is in the
     * page with its select button disabled, listing the popular icons.
     */
    method Render(sys: IconSystemV3, render: string -> Option<string>)
      modifies this
      ensures open && !selectEnabled && items == Listing(sys.GetPopularIcons(), settings.maxResults, render)
      ensures noResults == (sys.GetPopularIcons() == [])
      ensures count == if noResults then "0" else IntToString(|items|)
      ensures marked == seq(|items|, j => false) && Valid()
      ensures selectedIcon == old(selectedIcon)
      ensures currentQuery == old(currentQuery) && currentCategory == old(currentCategory)
    {
      var popular := sys.GetPopularIcons();
      open := true;
      selectEnabled := false;
      RenderResults(Some(popular), render);
    }

    /** `performSearch`: lists what the current query and category call for. */
    method PerformSearch(sys: IconSystemV3, render: string -> Option<string>)
      modifies this
      ensures items == Listing(Results(sys, SourceOf(old(currentQuery), old(currentCategory))), settings.maxResults, render)
      ensures noResults == (Results(sys, SourceOf(old(currentQuery), old(currentCategory))) == [])
      ensures count == if noResults then "0" else IntToString(|items|)
      ensures marked == seq(|items|, j => false) && Valid()
      ensures currentQuery == old(currentQuery) && currentCategory == old(currentCategory)
      ensures selectedIcon == old(selectedIcon) && selectEnabled == old(selectEnabled) && open == old(open)
    {
      var list := Results(sys, SourceOf(currentQuery, currentCategory));
      RenderResults(Some(list), render);
    }

    /** The search input's `input` handler. */
    method InputQuery(query: string, sys: IconSystemV3, render: string -> Option<string>)
      modifies this
      ensures currentQuery == query && currentCategory == old(currentCategory)
      ensures items == Listing(Results(sys, SourceOf(query, old(currentCategory))), settings.maxResults, render)
      ensures noResults == (Results(sys, SourceOf(query, old(currentCategory))) == [])
      ensures count == if noResults then "0" else IntToString(|items|)
      ensures marked == seq(|items|, j => false) && Valid()
      ensures selectedIcon == old(selectedIcon) && selectEnabled == old(selectEnabled) && open == old(open)
    {
      currentQuery := query;
      PerformSearch(sys, render);
    }

    /** The category select's `change` handler. */
    method ChangeCategory(category: string, sys: IconSystemV3, render: string -> Option<string>)
      modifies this
      ensures currentCategory == category && currentQuery == old(currentQuery)
      ensures items == Listing(Results(sys, SourceOf(old(currentQuery), category)), settings.maxResults, render)
      ensures noResults == (Results(sys, SourceOf(old(currentQuery), category)) == [])
      ensures count == if noResults then "0" else IntToString(|items|)
      ensures marked == seq(|items|, j => false) && Valid()
      ensures selectedIcon == old(selectedIcon) && selectEnabled == old(selectEnabled) && open == old(open)
    {
      currentCategory := category;
      PerformSearch(sys, render);
    }

    /** A click on item `i`: it becomes the only marked item, the selection, and the select button is enabled. */
    method ClickItem(i: nat)
      requires Valid() && i < |items|
      modifies this
      ensures items == old(items) && count == old(count) && noResults == old(noResults) && open == old(open)
      ensures currentQuery == old(currentQuery) && currentCategory == old(currentCategory)
      ensures selectedIcon == Some(items[i].entry) && selectEnabled
      ensures |marked| == |items| && forall j :: 0 <= j < |marked| ==> marked[j] == (j == i)
    {
      var flags := marked;
      var k := 0;
      while k < |flags|
        invariant 0 <= k <= |flags| == |items|
        invariant forall j :: 0 <= j < k ==> !flags[j]
      {
        flags := flags[k := false];
        k := k + 1;
      }
      marked := flags[i := true];
      selectedIcon := Some(items[i].entry);
      selectEnabled := true;
    }

    /** The select button's `click` handler: with a selection, reports it and closes the picker; otherwise nothing. */
    method ClickSelect() returns (chosen: Option<Entry>)
      modifies this
      ensures chosen == old(selectedIcon)
      ensures open == (old(open) && old(selectedIcon).None?)
      ensures items == old(items) && selectedIcon == old(selectedIcon)
      ensures marked == old(marked) && selectEnabled == old(selectEnabled)
      ensures count == old(count) && noResults == old(noResults)
      ensures currentQuery == old(currentQuery) && currentCategory == old(currentCategory)
    {
      chosen := None;
      if selectedIcon.Some? {
        chosen := selectedIcon;
        open := false;
      }
    }
  }

  /** The count shown never exceeds the number of entries nor a non-negative `maxResults`. */
  lemma LoadedCountBound(list: seq<Entry>, maxResults: JsNumber, render: string -> Option<string>)
    ensures |Listing(list, maxResults, render)| <= |list|
    ensures maxResults.Num? && maxResults.n >= 0 ==> |Listing(list, maxResults, render)| <= maxResults.n
    ensures list == [] ==> Listing(list, maxResults, render) == []
  {
    RenderedItemsSpec(list[..Limit(maxResults, |list|)], render);
  }
}
