/**
 * `IconSystemV3`: the catalog from `all-icons.json`, its category index, and
 * the lazy cache of SVG texts fetched from the Gravity UI repository.
 */
module IconsV3 {
  import opened Wrappers
  import opened Strings
  import opened Seqs
  import opened Catalog
  import opened IconCache
  import opened SvgMarkup

  class IconSystemV3 {
    /** The SVG texts fetched so far, by icon name. */
    var icons: map<string, string>
    /** The catalog. */
    var allIcons: seq<Icon>
    /** The icons of each category, in catalog order. */
    var categories: map<string, seq<Icon>>

    /** The category index is the one the catalog determines. */
    ghost predicate Valid()
      reads this
    {
      categories == CategoryIndex(allIcons)
    }

    /** The state before `init` has loaded anything. */
    constructor ()
      ensures icons == map[] && allIcons == [] && categories == map[]
      ensures Valid()
    {
      icons := map[];
      allIcons := [];
      categories := map[];
    }

    /** `loadAllIcons`: the parsed catalog, or the empty catalog when the fetch or the parse fails. */
    method LoadAllIcons(outcome: JsonOutcome<seq<Icon>>)
      modifies this
      ensures allIcons == (if outcome.Parsed? then outcome.value else [])
      ensures icons == old(icons) && categories == old(categories)
    {
      match outcome
      case Parsed(catalog) => allIcons := catalog;
      case Failed => allIcons := [];
    }

    /** `categorizeIcons`: clears the index and appends each catalog entry to the bucket of its category. */
    method CategorizeIcons()
      modifies this
      ensures categories == CategoryIndex(allIcons)
      ensures icons == old(icons) && allIcons == old(allIcons)
      ensures Valid()
    {
      categories := IndexCategories(allIcons);
    }

    /** `init`: load the catalog, then index it. */
    method Init(outcome: JsonOutcome<seq<Icon>>)
      modifies this
      ensures allIcons == (if outcome.Parsed? then outcome.value else [])
      ensures categories == CategoryIndex(allIcons) && icons == old(icons)
      ensures Valid()
    {
      LoadAllIcons(outcome);
      CategorizeIcons();
    }

    /**
     * `getIcon(name)`: a cached name is answered without a request; otherwise
     * one request is made, and only an ok response is stored and returned.
     */
    method GetIcon(name: string, response: FetchOutcome) returns (svg: Option<string>, request: Option<string>)
      modifies this
      ensures var step := LookupOrFetch(old(icons), RepoUrl, name, response);
              svg == step.svg && request == step.request && icons == step.icons
      ensures allIcons == old(allIcons) && categories == old(categories)
    {
      if name in icons {
        return Some(icons[name]), None;
      }
      request := Some(SvgUrl(RepoUrl, name));
      match response
      case Ok(body) =>
        icons := icons[name := body];
        svg := Some(body);
      case _ =>
        svg := None;
    }

    /** `renderIcon(name, size, className)`: the looked-up SVG re-wrapped with its own viewBox and content. */
    method RenderIcon(name: string, size: int, cls: string, response: FetchOutcome) returns (html: string, request: Option<string>)
      modifies this
      ensures var step := LookupOrFetch(old(icons), RepoUrl, name, response);
              html == RenderExtracted(Plain, name, step.svg, size, cls) && request == step.request && icons == step.icons
      ensures allIcons == old(allIcons) && categories == old(categories)
    {
      var svg;
      svg, request := GetIcon(name, response);
      html := RenderExtracted(Plain, name, svg, size, cls);
    }

    /** `renderIconOriginal(name, size, className)`: the looked-up SVG with its size and class rewritten. */
    method RenderIconOriginal(name: string, size: int, cls: string, response: FetchOutcome) returns (html: string, request: Option<string>)
      modifies this
      ensures var step := LookupOrFetch(old(icons), RepoUrl, name, response);
              html == RenderOriginal(step.svg, size, cls) && request == step.request && icons == step.icons
      ensures allIcons == old(allIcons) && categories == old(categories)
    {
      var svg;
      svg, request := GetIcon(name, response);
      html := RenderOriginal(svg, size, cls);
    }

    /** `searchIcons(query)`: the catalog entries matching the query, case-insensitively, in catalog order. */
    function SearchIcons(query: string): (r: seq<Icon>)
      reads this
      ensures forall icon :: icon in r <==> icon in allIcons && MatchesTerm(icon, Lower(query))
      ensures IsSubsequence(r, allIcons)
      ensures query == "" ==> r == allIcons
    {
      SearchIconsSpec(allIcons, query);
      SearchEmptyQuery(allIcons);
      Catalog.SearchIcons(allIcons, query)
    }

    /** `getIconsByCategory(category)`: the bucket of the category, or `[]`. */
    function GetIconsByCategory(category: string): (r: seq<Icon>)
      reads this
      ensures Valid() ==> forall icon :: icon in r <==> icon in allIcons && icon.category == category
      ensures Valid() ==> IsSubsequence(r, allIcons)
    {
      IconsByCategorySpec(allIcons, category);
      IconsByCategory(categories, category)
    }

    /** `getCategories()`: the keys of the index, each once, sorted. */
    ghost function GetCategories(): (r: seq<string>)
      reads this
      ensures StrictlySorted(r)
      ensures forall c :: c in r <==> c in categories
      ensures Valid() ==> forall c :: c in r <==> exists icon :: icon in allIcons && icon.category == c
    {
      CategoriesSpec(allIcons);
      Categories(categories)
    }

    /** `getPopularIcons()`: those of the twelve popular names that the catalog has, in their fixed order. */
    function GetPopularIcons(): (r: seq<Entry>)
      reads this
      ensures forall e :: e in r <==> e in PopularCandidates && InCatalog(allIcons, e.name)
      ensures IsSubsequence(r, PopularCandidates) && |r| <= 12
    {
      PopularIconsSpec(allIcons);
      PopularIcons(allIcons)
    }
  }

  /**
   * `connectIconV3(name, size)`: renders the icon when its lookup gives a
   * non-empty text, otherwise renders `question` in its place. `first` is
   * what the network answers for `name`, `second` for `question`.
   */
  method ConnectIconV3(sys: IconSystemV3, name: string, size: int, first: FetchOutcome, second: FetchOutcome) returns (html: string)
    modifies sys
    ensures var s1 := LookupOrFetch(old(sys.icons), RepoUrl, name, first);
            if Truthy(s1.svg) then
              html == RenderExtracted(Plain, name, s1.svg, size, "") && sys.icons == s1.icons
            else
              var s2 := LookupOrFetch(s1.icons, RepoUrl, "question", second);
              html == RenderExtracted(Plain, "question", s2.svg, size, "") && sys.icons == s2.icons
    ensures sys.allIcons == old(sys.allIcons) && sys.categories == old(sys.categories)
  {
    var svg, request := sys.GetIcon(name, first);
    if Truthy(svg) {
      html, request := sys.RenderIcon(name, size, "", first);
    } else {
      html, request := sys.RenderIcon("question", size, "", second);
    }
  }
}
