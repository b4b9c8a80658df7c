/**
 * `IconSystemV2`: the same catalog, index and lazy cache as v3, with the
 * stroked and high-quality renderers, the sequential background loader and
 * the search-and-category filter of the demo grid.
 */
module IconsV2 {
  import opened Wrappers
  import opened Strings
  import opened Seqs
  import opened Catalog
  import opened IconCache
  import opened SvgMarkup

  class IconSystemV2 {
    /** The SVG texts fetched so far, by icon name. */
    var icons: map<string, string>
    /** The catalog. */
    var allIcons: seq<Icon>
    /** The icons of each category, in catalog order. */
    var categories: map<string, seq<Icon>>

    /** The category index is the one the catalog determines. */
    ghost predicate Valid()
      reads this
    {
      categories == CategoryIndex(allIcons)
    }

    /** The state before `init` has loaded anything. */
    constructor ()
      ensures icons == map[] && allIcons == [] && categories == map[]
      ensures Valid()
    {
      icons := map[];
      allIcons := [];
      categories := map[];
    }

    /** `loadAllIcons`: the parsed catalog, or the empty catalog when the fetch or the parse fails. */
    method LoadAllIcons(outcome: JsonOutcome<seq<Icon>>)
      modifies this
      ensures allIcons == (if outcome.Parsed? then outcome.value else [])
      ensures icons == old(icons) && categories == old(categories)
    {
      match outcome
      case Parsed(catalog) => allIcons := catalog;
      case Failed => allIcons := [];
    }

    /** `categorizeIcons`: clears the index and appends each catalog entry to the bucket of its category. */
    method CategorizeIcons()
      modifies this
      ensures categories == CategoryIndex(allIcons)
      ensures icons == old(icons) && allIcons == old(allIcons)
      ensures Valid()
    {
      categories := IndexCategories(allIcons);
    }

    /** `init`: load the catalog, then index it. */
    method Init(outcome: JsonOutcome<seq<Icon>>)
      modifies this
      ensures allIcons == (if outcome.Parsed? then outcome.value else [])
      ensures categories == CategoryIndex(allIcons) && icons == old(icons)
      ensures Valid()
    {
      LoadAllIcons(outcome);
      CategorizeIcons();
    }

    /**
     * `getIcon(name)`: a cached name is answered without a request; otherwise
     * one request is made, and only an ok response is stored and returned.
     */
    method GetIcon(name: string, response: FetchOutcome) returns (svg: Option<string>, request: Option<string>)
      modifies this
      ensures var step := LookupOrFetch(old(icons), RepoUrl, name, response);
              svg == step.svg && request == step.request && icons == step.icons
      ensures allIcons == old(allIcons) && categories == old(categories)
    {
      if name in icons {
        return Some(icons[name]), None;
      }
      request := Some(SvgUrl(RepoUrl, name));
      match response
      case Ok(body) =>
        icons := icons[name := body];
        svg := Some(body);
      case _ =>
        svg := None;
    }

    /** `renderIcon(name, size, className)`: the stroked wrapper (`fill="none"`, `stroke-width="2"`). */
    method RenderIcon(name: string, size: int, cls: string, response: FetchOutcome) returns (html: string, request: Option<string>)
      modifies this
      ensures var step := LookupOrFetch(old(icons), RepoUrl, name, response);
              html == RenderExtracted(Stroked, name, step.svg, size, cls) && request == step.request && icons == step.icons
      ensures allIcons == old(allIcons) && categories == old(categories)
    {
      var svg;
      svg, request := GetIcon(name, response);
      html := RenderExtracted(Stroked, name, svg, size, cls);
    }

    /** `renderIconHighQuality(name, size, className)`: the filled wrapper with `stroke-width="1.5"` and geometric precision. */
    method RenderIconHighQuality(name: string, size: int, cls: string, response: FetchOutcome) returns (html: string, request: Option<string>)
      modifies this
      ensures var step := LookupOrFetch(old(icons), RepoUrl, name, response);
              html == RenderExtracted(HighQuality, name, step.svg, size, cls) && request == step.request && icons == step.icons
      ensures allIcons == old(allIcons) && categories == old(categories)
    {
      var svg;
      svg, request := GetIcon(name, response);
      html := RenderExtracted(HighQuality, name, svg, size, cls);
    }

    /**
     * `loadIconsAsync(list)`: one icon after another, looks the icon up and,
     * when found, renders it in high quality (a second lookup, answered from
     * the cache). `net` answers each URL; `fetches` are the requests made.
     */
    method LoadIconsAsync(list: seq<Icon>, net: string -> FetchOutcome) returns (fetches: seq<(string, FetchOutcome)>)
      modifies this
      ensures var session := Run(old(icons), RepoUrl, Lookups(list, net));
              fetches == session.fetches && icons == session.icons
      ensures allIcons == old(allIcons) && categories == old(categories)
    {
      fetches := [];
      var k := 0;
      while k < |list|
        invariant 0 <= k <= |list|
        invariant var session := Run(old(icons), RepoUrl, Lookups(list[..k], net));
                  fetches == session.fetches && icons == session.icons
        invariant allIcons == old(allIcons) && categories == old(categories)
      {
        var name := list[k].name;
        var response := net(SvgUrl(RepoUrl, name));
        LookupsStep(list, k, net);
        RunSnoc(old(icons), RepoUrl, Lookups(list[..k], net), (name, response));
        var svg, request := GetIcon(name, response);
        if request.Some? {
          fetches := fetches + [(name, response)];
        }
        if Truthy(svg) {
          var html, again := RenderIconHighQuality(name, 24, "demo-icon", response);
        }
        k := k + 1;
      }
      assert list[..k] == list;
    }

    /** `searchIcons(query)`: the catalog entries matching the query, case-insensitively, in catalog order. */
    function SearchIcons(query: string): (r: seq<Icon>)
      reads this
      ensures forall icon :: icon in r <==> icon in allIcons && MatchesTerm(icon, Lower(query))
      ensures IsSubsequence(r, allIcons)
      ensures query == "" ==> r == allIcons
    {
      SearchIconsSpec(allIcons, query);
      SearchEmptyQuery(allIcons);
      Catalog.SearchIcons(allIcons, query)
    }

    /** `getIconsByCategory(category)`: the bucket of the category, or `[]`. */
    function GetIconsByCategory(category: string): (r: seq<Icon>)
      reads this
      ensures Valid() ==> forall icon :: icon in r <==> icon in allIcons && icon.category == category
      ensures Valid() ==> IsSubsequence(r, allIcons)
    {
      IconsByCategorySpec(allIcons, category);
      IconsByCategory(categories, category)
    }

    /** `getCategories()`: the keys of the index, each once, sorted. */
    ghost function GetCategories(): (r: seq<string>)
      reads this
      ensures StrictlySorted(r)
      ensures forall c :: c in r <==> c in categories
      ensures Valid() ==> forall c :: c in r <==> exists icon :: icon in allIcons && icon.category == c
    {
      CategoriesSpec(allIcons);
      Categories(categories)
    }
  }

  /** The lookups `loadIconsAsync` makes, each with what the network answers for its URL. */
  function Lookups(list: seq<Icon>, net: string -> FetchOutcome): seq<(string, FetchOutcome)> {
    seq(|list|, i requires 0 <= i < |list| => (list[i].name, net(SvgUrl(RepoUrl, list[i].name))))
  }

  lemma LookupsStep(list: seq<Icon>, k: nat, net: string -> FetchOutcome)
    requires k < |list|
    ensures Lookups(list[..k + 1], net) == Lookups(list[..k], net) + [(list[k].name, net(SvgUrl(RepoUrl, list[k].name)))]
  {
  }

  /**
   * However the demo grid's list repeats names, `loadIconsAsync` downloads
   * each name at most once, and not at all when it was already cached.
   */
  lemma LoadIconsAsyncDownloadsOnce(icons: map<string, string>, list: seq<Icon>, net: string -> FetchOutcome, name: string)
    ensures OkDownloads(Run(icons, RepoUrl, Lookups(list, net)).fetches, name) <= if name in icons then 0 else 1
  {
    AtMostOneDownloadPerName(icons, RepoUrl, Lookups(list, net), name);
  }

  // ---------------------------------------------------------------------------
  // The filter of the demo grid (`filterIcons` inside `setupSearch`)

  /** How many results the grid shows. */
  const GridLimit := 50

  /** Whether the grid shows an icon for the lower-cased term and the selected category (`""` for all). */
  predicate Shown(icon: Icon, term: string, category: string) {
    (category == "" || icon.category == category)
    && (term == "" || Contains(Lower(icon.name), term) || Contains(Lower(icon.displayName), term))
  }

  /** The category stage: every icon when no category is selected. */
  function ByCategory(all: seq<Icon>, category: string): seq<Icon> {
    if category != "" then Filter(all, (icon: Icon) => icon.category == category) else all
  }

  /** The search stage, for a lower-cased term: every icon when the term is empty. */
  function BySearch(list: seq<Icon>, term: string): seq<Icon> {
    if term != "" then Filter(list, (icon: Icon) => Contains(Lower(icon.name), term) || Contains(Lower(icon.displayName), term))
    else list
  }

  /** `filterIcons`: by category when one is selected, then by name or display name, then the first 50. */
  function FilterIcons(all: seq<Icon>, searchInput: string, selectedCategory: string): seq<Icon> {
    Take(BySearch(ByCategory(all, selectedCategory), Lower(searchInput)), GridLimit)
  }

  /** The two stages together keep exactly the icons the grid shows, in catalog order. */
  lemma StagesAreOneFilter(all: seq<Icon>, term: string, category: string)
    ensures BySearch(ByCategory(all, category), term) == Filter(all, (icon: Icon) => Shown(icon, term, category))
  {
    var p := (icon: Icon) => icon.category == category;
    var q := (icon: Icon) => Contains(Lower(icon.name), term) || Contains(Lower(icon.displayName), term);
    var shown := (icon: Icon) => Shown(icon, term, category);
    if category != "" && term != "" {
      FilterFilter(all, p, q, shown);
    } else if category != "" {
      FilterCongruent(all, p, shown);
    } else if term != "" {
      FilterCongruent(all, q, shown);
    } else {
      FilterAllPass(all, shown);
    }
  }

  /**
   * The grid shows the first 50 catalog entries that pass both filters, in
   * catalog order; keywords play no part, unlike in `searchIcons`.
   */
  lemma FilterIconsSpec(all: seq<Icon>, searchInput: string, selectedCategory: string)
    ensures var matching := Filter(all, (icon: Icon) => Shown(icon, Lower(searchInput), selectedCategory));
            FilterIcons(all, searchInput, selectedCategory) == Take(matching, GridLimit)
    ensures |FilterIcons(all, searchInput, selectedCategory)| <= GridLimit
    ensures forall icon :: icon in FilterIcons(all, searchInput, selectedCategory) ==>
              icon in all && Shown(icon, Lower(searchInput), selectedCategory)
  {
    StagesAreOneFilter(all, Lower(searchInput), selectedCategory);
    var matching := Filter(all, (icon: Icon) => Shown(icon, Lower(searchInput), selectedCategory));
    var r := FilterIcons(all, searchInput, selectedCategory);
    forall icon | icon in r ensures icon in matching {
      var i :| 0 <= i < |r| && r[i] == icon;
      assert matching[i] == icon;
    }
  }

  /** The grid ignores keywords: an icon that matches the search only through a keyword is not shown. */
  lemma KeywordsIgnored(icon: Icon, searchInput: string)
    requires MatchesTerm(icon, Lower(searchInput))
    requires !Contains(Lower(icon.name), Lower(searchInput)) && !Contains(Lower(icon.displayName), Lower(searchInput))
    ensures !Shown(icon, Lower(searchInput), "")
  {
    ContainsEmpty(Lower(icon.name));
  }

  /**
   * `connectIconV2(name)`: without an instance, a bare placeholder; otherwise
   * `renderIcon(name)` with the default size 24 and no extra class.
   */
  method ConnectIconV2(sys: IconSystemV2?, name: string, response: FetchOutcome) returns (html: string)
    modifies sys
    ensures sys == null ==> html == "<div class=\"icon-placeholder\">?</div>"
    ensures sys != null ==>
              var step := LookupOrFetch(old(sys.icons), RepoUrl, name, response);
              html == RenderExtracted(Stroked, name, step.svg, 24, "") && sys.icons == step.icons
  {
    if sys != null {
      var request;
      html, request := sys.RenderIcon(name, 24, "", response);
    } else {
      html := "<div class=\"icon-placeholder\">?</div>";
    }
  }
}
