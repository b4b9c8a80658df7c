/**
 * `IconSystem`, the first generation: a fixed list of local SVG files loaded
 * once into a map, the popular-icon list from `popular-icons.json`, and a
 * renderer that keeps only the first `<path>` of an icon.
 */
module IconsV1 {
  import opened Wrappers
  import opened Seqs
  import opened Catalog
  import opened IconCache
  import opened SvgMarkup

  /** The 34 local icons `loadAvailableIcons` tries, in its order. */
  const AvailableNames: seq<string> := [
    "calendar", "camera", "check", "circle-exclamation", "circle-info",
    "circle-question", "clock", "credit-card", "delete", "diamond-exclamation",
    "exclamation-shape", "eye", "eye-slash", "file", "file-exclamation",
    "file-question", "fingerprint", "folder", "folder-exclamation", "headphones",
    "heart", "layout-list", "list-check", "list-check-lock", "list-ol", "lock",
    "minus", "pause", "play", "plus", "star", "stop", "video", "volume"
  ]

  /** Where a local icon is fetched from: `icons/<name>.svg`. */
  function LocalUrl(name: string): string {
    "icons/" + name + ".svg"
  }

  /** One step of the loader: an ok response is stored under the name; anything else changes nothing. */
  function Store(icons: map<string, string>, name: string, response: FetchOutcome): map<string, string> {
    match response
    case Ok(body) => icons[name := body]
    case _ => icons
  }

  /** The cache after trying `names` in order, each answered by `net` for its URL. */
  function Loaded(icons: map<string, string>, names: seq<string>, net: string -> FetchOutcome): map<string, string>
    decreases |names|
  {
    if names == [] then icons
    else
      var last := names[|names| - 1];
      Store(Loaded(icons, names[..|names| - 1], net), last, net(LocalUrl(last)))
  }

  /**
   * Loading adds exactly the names whose fetch is ok, each with the text its
   * response carried, and keeps every other entry.
   */
  lemma {:induction false} LoadedSpec(icons: map<string, string>, names: seq<string>, net: string -> FetchOutcome)
    ensures forall k :: k in Loaded(icons, names, net) <==> k in icons || (k in names && net(LocalUrl(k)).Ok?)
    ensures forall k :: k in names && net(LocalUrl(k)).Ok? ==> Loaded(icons, names, net)[k] == net(LocalUrl(k)).body
    ensures forall k :: k in icons && !(k in names && net(LocalUrl(k)).Ok?) ==> Loaded(icons, names, net)[k] == icons[k]
    decreases |names|
  {
    if names != [] {
      var init := names[..|names| - 1];
      LoadedSpec(icons, init, net);
      assert names == init + [names[|names| - 1]];
    }
  }

  class IconSystem {
    /** The SVG texts loaded, by icon name. */
    var icons: map<string, string>
    /** The entries of `popular-icons.json`. */
    var popularIcons: seq<Entry>

    /** Only the local icons are ever loaded. */
    ghost predicate Valid()
      reads this
    {
      forall k :: k in icons ==> k in AvailableNames
    }

    /** The state before `init` has loaded anything. */
    constructor ()
      ensures icons == map[] && popularIcons == []
      ensures Valid()
    {
      icons := map[];
      popularIcons := [];
    }

    /** `loadPopularIcons`: the parsed list, or the empty list when the fetch or the parse fails. */
    method LoadPopularIcons(outcome: JsonOutcome<seq<Entry>>)
      modifies this
      ensures popularIcons == (if outcome.Parsed? then outcome.value else [])
      ensures icons == old(icons)
    {
      match outcome
      case Parsed(list) => popularIcons := list;
      case Failed => popularIcons := [];
    }

    /** `loadAvailableIcons`: tries each local icon in turn, storing only ok responses; errors do not stop the loop. */
    method LoadAvailableIcons(net: string -> FetchOutcome)
      modifies this
      ensures icons == Loaded(old(icons), AvailableNames, net)
      ensures popularIcons == old(popularIcons)
      ensures old(Valid()) ==> Valid()
    {
      var k := 0;
      while k < |AvailableNames|
        invariant 0 <= k <= |AvailableNames|
        invariant icons == Loaded(old(icons), AvailableNames[..k], net)
        invariant popularIcons == old(popularIcons)
      {
        var name := AvailableNames[k];
        var response := net(LocalUrl(name));
        match response {
          case Ok(body) => icons := icons[name := body];
          case _ =>
        }
        assert AvailableNames[..k + 1][..k] == AvailableNames[..k];
        k := k + 1;
      }
      assert AvailableNames[..k] == AvailableNames;
      LoadedSpec(old(icons), AvailableNames, net);
    }

    /** `init`: the popular list, then the local icons. */
    method Init(popular: JsonOutcome<seq<Entry>>, net: string -> FetchOutcome)
      modifies this
      ensures popularIcons == (if popular.Parsed? then popular.value else [])
      ensures icons == Loaded(old(icons), AvailableNames, net)
      ensures old(Valid()) ==> Valid()
    {
      LoadPopularIcons(popular);
      LoadAvailableIcons(net);
    }

    /** `getIcon(name)`: a plain lookup, which never fetches. */
    function GetIcon(name: string): (r: Option<string>)
      reads this
      ensures r.Some? <==> name in icons
      ensures r.Some? ==> r.value == icons[name]
    {
      if name in icons then Some(icons[name]) else None
    }

    /** `getPopularIcons()`: the popular entries whose icon is loaded, in their order. */
    function GetPopularIcons(): (r: seq<Entry>)
      reads this
      ensures forall e :: e in r <==> e in popularIcons && e.name in icons
      ensures IsSubsequence(r, popularIcons)
    {
      var loaded := icons;
      FilterIsSubsequence(popularIcons, (e: Entry) => e.name in loaded);
      Filter(popularIcons, (e: Entry) => e.name in loaded)
    }

    /** `renderIcon(name, size, className)`: the first `<path>` of the loaded SVG in the stroked 24x24 wrapper. */
    function RenderIcon(name: string, size: int, cls: string): (r: string)
      reads this
      ensures !(name in icons && icons[name] != "") ==> r == GlyphPlaceholder(cls, size)
      ensures name in icons && icons[name] != "" && FirstPathTag(icons[name]).Some? ==>
        r == Wrap(Stroked, cls, size, DefaultViewBox, FirstPathTag(icons[name]).value)
      ensures name in icons && icons[name] != "" && FirstPathTag(icons[name]).None? ==> r == icons[name]
    {
      RenderPath(GetIcon(name), size, cls)
    }

    /** `connectIcon(name)`: the icon at size 24 when it is loaded and non-empty, otherwise `question` in its place. */
    function ConnectIcon(name: string): (r: string)
      reads this
      ensures name in icons && icons[name] != "" ==> r == RenderPath(Some(icons[name]), 24, "")
      ensures !(name in icons && icons[name] != "") ==> r == RenderPath(GetIcon("question"), 24, "")
    {
      if Truthy(GetIcon(name)) then RenderIcon(name, 24, "") else RenderIcon("question", 24, "")
    }
  }

  /** The fallback icon is not one of the local icons. */
  lemma QuestionNotAvailable()
    ensures "question" !in AvailableNames
  {
  }

  lemma NotLoadedUnlessAvailable(sys: IconSystem, name: string)
    requires sys.Valid() && name !in AvailableNames
    ensures sys.GetIcon(name) == None
  {
  }

  /**
   * With only local icons loaded, the `question` fallback is never loaded, so
   * an icon that is missing or empty always comes out as the `?` placeholder.
   */
  lemma ConnectMissing(sys: IconSystem, name: string)
    requires sys.Valid() && !(name in sys.icons && sys.icons[name] != "")
    ensures sys.ConnectIcon(name) == GlyphPlaceholder("", 24)
  {
    QuestionNotAvailable();
    NotLoadedUnlessAvailable(sys, "question");
    FallbackIsPlaceholder(sys, name);
  }

  /** With `question` not loaded, a name that is not found falls back to the placeholder. */
  lemma FallbackIsPlaceholder(sys: IconSystem, name: string)
    requires !Truthy(sys.GetIcon(name)) && sys.GetIcon("question") == None
    ensures sys.ConnectIcon(name) == GlyphPlaceholder("", 24)
  {
    var none: Option<string> := None;
    assert !Truthy(none);
    assert sys.ConnectIcon(name) == RenderPath(none, 24, "");
  }
}
