/**
 * The script that builds `all-icons.json` from the icon repository's
 * metadata: a display name, a description and a category for each icon, and
 * the table of how many icons each category received.
 */
module CatalogBuilder {
  import opened Wrappers
  import opened Strings
  import opened Seqs
  import opened Catalog
  import opened KeywordRules

  // ---------------------------------------------------------------------------
  // getCategory

  // The rules, one constant per line of the script (lines 19-55).
  const Line19 := Rule(["arrow", "chevron"], "navigation")
  const Line20 := Rule(["play", "pause", "stop", "volume"], "media")
  const Line21 := Rule(["file", "folder", "document"], "file")
  const Line22 := Rule(["user", "person", "profile"], "user")
  const Line23 := Rule(["settings", "config", "gear"], "system")
  const Line24 := Rule(["search", "find"], "action")
  const Line25 := Rule(["edit", "pencil"], "action")
  const Line26 := Rule(["delete", "trash", "remove"], "action")
  const Line27 := Rule(["add", "plus"], "action")
  const Line28 := Rule(["check", "tick"], "status")
  const Line29 := Rule(["warning", "error", "exclamation"], "status")
  const Line30 := Rule(["info", "question"], "help")
  const Line31 := Rule(["lock", "security"], "security")
  const Line32 := Rule(["calendar", "clock", "time"], "time")
  const Line33 := Rule(["mail", "email"], "communication")
  const Line34 := Rule(["phone", "call"], "communication")
  const Line35 := Rule(["camera", "photo", "image"], "media")
  const Line36 := Rule(["video", "movie"], "media")
  const Line37 := Rule(["music", "audio"], "media")
  const Line38 := Rule(["heart", "like", "favorite"], "social")
  const Line39 := Rule(["star", "rating"], "rating")
  const Line40 := Rule(["share", "social"], "social")
  const Line41 := Rule(["download", "upload"], "action")
  const Line42 := Rule(["print", "printer"], "action")
  const Line43 := Rule(["location", "map", "pin"], "navigation")
  const Line44 := Rule(["wifi", "network", "signal"], "network")
  const Line45 := Rule(["battery", "power"], "system")
  const Line46 := Rule(["grid", "list", "layout"], "layout")
  const Line47 := Rule(["filter", "sort"], "action")
  const Line48 := Rule(["zoom", "magnify"], "action")
  const Line49 := Rule(["fullscreen", "expand"], "action")
  const Line50 := Rule(["menu", "hamburger"], "navigation")
  const Line51 := Rule(["close", "x"], "action")
  const Line52 := Rule(["refresh", "sync", "reload"], "action")
  const Line53 := Rule(["eye", "view"], "action")
  const Line54 := Rule(["money", "dollar", "payment"], "payment")
  const Line55 := Rule(["shopping", "cart", "buy"], "commerce")

  /** The rules in source order: the rule at index `i` is on line `19 + i`. */
  const Rules: seq<Rule> := [
    Line19, Line20, Line21, Line22, Line23, Line24, Line25, Line26,
    Line27, Line28, Line29, Line30, Line31, Line32, Line33, Line34,
    Line35, Line36, Line37, Line38, Line39, Line40, Line41, Line42,
    Line43, Line44, Line45, Line46, Line47, Line48, Line49, Line50,
    Line51, Line52, Line53, Line54, Line55
  ]

  /** The seventeen categories the rules hand out. */
  const KnownCategories: set<string> := {
    "navigation", "media", "file", "user", "system", "action", "status", "help", "security",
    "time", "communication", "social", "rating", "network", "layout", "payment", "commerce"
  }

  /** `getCategory(name)`: the category of the first matching rule, or `other`. */
  function GetCategory(name: string): string {
    var i := FirstMatch(Rules, name);
    if i < |Rules| then Rules[i].result else "other"
  }

  lemma RuleCategoriesKnownLow(i: nat)
    requires i < 19
    ensures Rules[i].result in KnownCategories
  {
  }

  lemma RuleCategoriesKnownHigh(i: nat)
    requires 19 <= i < |Rules|
    ensures Rules[i].result in KnownCategories
  {
  }

  /**
   * The category is one of the seventeen known ones or `other`, and it is
   * `other` exactly when no key of any rule occurs in the name.
   */
  lemma GetCategorySpec(name: string)
    ensures GetCategory(name) in KnownCategories || GetCategory(name) == "other"
    ensures GetCategory(name) == "other" <==> forall j :: 0 <= j < |Rules| ==> !RuleMatches(Rules[j], name)
    ensures GetCategory(name) != "other" ==> GetCategory(name) == Rules[FirstMatch(Rules, name)].result
  {
    var i := FirstMatch(Rules, name);
    if i < |Rules| {
      if i < 19 { RuleCategoriesKnownLow(i); } else { RuleCategoriesKnownHigh(i); }
      OtherIsNotKnown();
    }
  }

  lemma OtherIsNotKnown()
    ensures "other" !in KnownCategories
  {
  }

  /** Any name with `arrow` or `chevron` is `navigation`: the first rule wins whatever else occurs. */
  lemma ArrowIsNavigation(name: string)
    requires Contains(name, "arrow") || Contains(name, "chevron")
    ensures GetCategory(name) == "navigation"
  {
    assert RuleMatches(Rules[0], name) by {
      if Contains(name, "arrow") {
        assert "arrow" in Rules[0].keys;
      } else {
        assert "chevron" in Rules[0].keys;
      }
    }
  }

  lemma NoTimeBeforeLine32(j: nat)
    requires j <= 12
    ensures Rules[j].result != "time"
  {
  }

  /**
   * `clock` contains `lock`, and the `lock` rule (line 31) comes before the
   * `clock` rule (line 32): no name is ever `time` because of `clock`.
   */
  lemma ClockIsNeverTime(name: string)
    requires Contains(name, "clock")
    ensures GetCategory(name) != "time"
  {
    assert Contains("clock", "lock") by {
      assert MatchAt("clock", 1, "lock");
    }
    ContainsTransitive(name, "clock", "lock");
    assert "lock" in Rules[12].keys;
    assert RuleMatches(Rules[12], name);
    NoTimeBeforeLine32(FirstMatch(Rules, name));
  }

  lemma XRuleCatchesX(name: string)
    requires !RuleMatches(Rules[32], name)
    ensures 'x' !in name
  {
    assert "x" in Rules[32].keys;
    assert !Contains(name, "x");
    forall i | 0 <= i < |name| ensures name[i] != 'x' {
      assert !MatchAt(name, i, "x");
      assert name[i..i + 1] == [name[i]];
    }
  }

  /** Once a name has passed lines 19-50, an `x` anywhere in it makes it `action`: later rules see only names without `x`. */
  lemma XShadowsLaterRules(name: string)
    requires FirstMatch(Rules, name) > 32
    ensures 'x' !in name
  {
    XRuleCatchesX(name);
  }

  /**
   * Every key of lines 19-24 has one of the letters `o`, `p`, `s`, `u`, `f`
   * and `g`: a name without them falls through to line 25.
   */
  lemma SkipsLines19To24(name: string)
    requires forall c :: c in "opsufg" ==> c !in name
    ensures forall j :: 0 <= j < 6 ==> !RuleMatches(Rules[j], name)
  {
    assert 'o' !in name && 'p' !in name && 's' !in name && 'u' !in name && 'f' !in name && 'g' !in name;
    NotContainsMissingChar(name, "arrow", 3);
    NotContainsMissingChar(name, "chevron", 5);
    NotContainsMissingChar(name, "play", 0);
    NotContainsMissingChar(name, "pause", 0);
    NotContainsMissingChar(name, "stop", 0);
    NotContainsMissingChar(name, "volume", 1);
    NotContainsMissingChar(name, "file", 0);
    NotContainsMissingChar(name, "folder", 0);
    NotContainsMissingChar(name, "document", 1);
    NotContainsMissingChar(name, "user", 0);
    NotContainsMissingChar(name, "person", 0);
    NotContainsMissingChar(name, "profile", 0);
    NotContainsMissingChar(name, "settings", 0);
    NotContainsMissingChar(name, "config", 1);
    NotContainsMissingChar(name, "gear", 0);
    NotContainsMissingChar(name, "search", 0);
    NotContainsMissingChar(name, "find", 0);
  }

  /** `credit-card` is `action`, through the `edit` inside `credit` (line 25). */
  lemma CreditCardIsAction()
    ensures GetCategory("credit-card") == "action"
  {
    var name := "credit-card";
    assert forall c :: c in "opsufg" ==> c !in name;
    SkipsLines19To24(name);
    assert MatchAt(name, 2, "edit");
    assert "edit" in Rules[6].keys;
    assert RuleMatches(Rules[6], name);
    FirstMatchIs(Rules, name, 6);
  }

  // ---------------------------------------------------------------------------
  // displayName and description

  /** `\w`: an ASCII letter, digit or underscore. */
  predicate IsWordChar(c: char) {
    'a' <= c <= 'z' || 'A' <= c <= 'Z' || '0' <= c <= '9' || c == '_'
  }

  /** `replace(/-/g, ' ')`. */
  function Spaced(name: string): (r: string)
    ensures |r| == |name|
    ensures forall i :: 0 <= i < |name| ==> r[i] == if name[i] == '-' then ' ' else name[i]
  {
    seq(|name|, i requires 0 <= i < |name| => if name[i] == '-' then ' ' else name[i])
  }

  /** A word character at a word boundary: the first character or one after a non-word character. */
  predicate StartsWord(s: string, i: int)
    requires 0 <= i < |s|
  {
    IsWordChar(s[i]) && (i == 0 || !IsWordChar(s[i - 1]))
  }

  /** Hyphens and spaces are not word characters, so `Spaced` keeps every word boundary. */
  lemma SpacedKeepsWords(name: string)
    ensures forall i :: 0 <= i < |name| ==> StartsWord(Spaced(name), i) == StartsWord(name, i)
  {
    var s := Spaced(name);
    forall i | 0 <= i < |name| ensures StartsWord(s, i) == StartsWord(name, i) {
      assert IsWordChar(s[i]) == IsWordChar(name[i]);
      if i > 0 {
        assert IsWordChar(s[i - 1]) == IsWordChar(name[i - 1]);
      }
    }
  }

  /**
   * The display name: hyphens become spaces, then `\b\w` is upper-cased. A
   * hyphen is not a word character, so the word boundaries are those of the
   * name itself.
   */
  function DisplayName(name: string): (r: string)
    ensures |r| == |name| && '-' !in r
    ensures forall i :: 0 <= i < |name| ==>
      r[i] == if name[i] == '-' then ' ' else if StartsWord(name, i) then UpperAscii(name[i]) else name[i]
  {
    var s := Spaced(name);
    SpacedKeepsWords(name);
    seq(|s|, i requires 0 <= i < |s| => if StartsWord(s, i) then UpperAscii(s[i]) else s[i])
  }

  /**
   * Spaces back to hyphens. The catalog script has no such step: this is the
   * partner of `Spaced` for the round trip below.
   */
  function Hyphenate(s: string): (r: string)
    ensures |r| == |s|
    ensures forall i :: 0 <= i < |s| ==> r[i] == if s[i] == ' ' then '-' else s[i]
  {
    seq(|s|, i requires 0 <= i < |s| => if s[i] == ' ' then '-' else s[i])
  }

  /**
   * A lower-case name without spaces is recovered from its display name by
   * lower-casing it and turning the spaces back into hyphens.
   */
  lemma DisplayNameRoundTrip(name: string)
    requires IsLower(name) && ' ' !in name
    ensures Hyphenate(Lower(DisplayName(name))) == name
  {
    var d := DisplayName(name);
    var r := Hyphenate(Lower(d));
    forall i | 0 <= i < |name| ensures r[i] == name[i] {
      assert !IsUpper(name[i]);
      if name[i] == '-' {
        assert d[i] == ' ';
      } else {
        assert name[i] != ' ';
        assert LowerChar(d[i]) == name[i];
      }
    }
  }

  /** A lower-case ASCII letter at the start of the name or after a hyphen is capitalised. */
  lemma WordStartIsCapital(name: string, i: nat)
    requires i < |name| && 'a' <= name[i] <= 'z' && (i == 0 || name[i - 1] == '-')
    ensures 'A' <= DisplayName(name)[i] <= 'Z' && LowerChar(DisplayName(name)[i]) == name[i]
  {
    assert StartsWord(Spaced(name), i);
  }

  /** Every word character at a word boundary is upper-cased, whatever non-word character comes before it. */
  lemma WordBoundaryIsUpperCased(name: string, i: nat)
    requires i < |name| && IsWordChar(name[i]) && (i == 0 || !IsWordChar(name[i - 1]))
    ensures DisplayName(name)[i] == UpperAscii(name[i])
  {
    assert StartsWord(name, i);
  }

  /** A character that is neither a word character nor a hyphen is kept as it is. */
  lemma NonWordCharKept(name: string, i: nat)
    requires i < |name| && !IsWordChar(name[i]) && name[i] != '-'
    ensures DisplayName(name)[i] == name[i]
  {
    assert !StartsWord(name, i);
  }

  /** A character after a word character keeps its case. */
  lemma InsideWordUnchanged(name: string, i: nat)
    requires 0 < i < |name| && IsWordChar(name[i - 1]) && name[i] != '-'
    ensures DisplayName(name)[i] == name[i]
  {
    assert !StartsWord(Spaced(name), i);
  }

  /** The description template, `Иконка <name>`. */
  function Description(name: string): (r: string)
    ensures |r| == |name| + 7 && r[7..] == name
  {
    "Иконка " + name
  }

  // ---------------------------------------------------------------------------
  // Building all-icons.json

  /** One entry of the repository's `metadata.json`: `keywords` may be missing. */
  datatype MetaIcon = MetaIcon(name: string, keywords: Option<seq<string>>)

  /** The catalog entry the script writes for one metadata entry. */
  function BuildIcon(m: MetaIcon): (icon: Icon)
    ensures icon.name == m.name && icon.displayName == DisplayName(m.name)
    ensures icon.description == Description(m.name) && icon.category == GetCategory(m.name)
    ensures icon.keywords == (if m.keywords.Some? then m.keywords.value else [])
  {
    Icon(m.name, DisplayName(m.name), Description(m.name), GetCategory(m.name), m.keywords.GetOr([]))
  }

  /** `metadata.icons.map(...)`. */
  function BuildCatalog(metas: seq<MetaIcon>): (all: seq<Icon>)
    ensures |all| == |metas|
    ensures forall i :: 0 <= i < |metas| ==> all[i] == BuildIcon(metas[i])
  {
    seq(|metas|, i requires 0 <= i < |metas| => BuildIcon(metas[i]))
  }

  /**
   * The built catalog keeps the names and their order, every category is a
   * known one or `other`, and every icon is found by searching for its own name.
   */
  lemma BuildCatalogSpec(metas: seq<MetaIcon>)
    ensures forall i :: 0 <= i < |metas| ==> BuildCatalog(metas)[i].name == metas[i].name
    ensures forall icon :: icon in BuildCatalog(metas) ==> icon.category in KnownCategories || icon.category == "other"
    ensures forall i :: 0 <= i < |metas| ==> BuildCatalog(metas)[i] in SearchIcons(BuildCatalog(metas), metas[i].name)
  {
    var all := BuildCatalog(metas);
    forall icon | icon in all ensures icon.category in KnownCategories || icon.category == "other" {
      var i :| 0 <= i < |all| && all[i] == icon;
      GetCategorySpec(metas[i].name);
    }
    forall i | 0 <= i < |metas| ensures all[i] in SearchIcons(all, metas[i].name) {
      FoundByOwnName(all[i]);
      SearchIconsSpec(all, metas[i].name);
    }
  }

  lemma FoundByOwnName(icon: Icon)
    ensures MatchesTerm(icon, Lower(icon.name))
  {
    assert MatchAt(Lower(icon.name), 0, Lower(icon.name));
  }

  // ---------------------------------------------------------------------------
  // Category statistics

  /** One `[category, count]` pair of `Object.entries(categories)`. */
  datatype Stat = Stat(category: string, count: nat)

  /** The `categories` object the `forEach` fills: the number of catalog entries of each category. */
  function Tally(all: seq<Icon>): map<string, nat> {
    map c | c in CategorySet(all) :: |Bucket(all, c)|
  }

  lemma TallyKeys(all: seq<Icon>)
    ensures Tally(all).Keys == CategorySet(all)
  {
  }

  /** The key order of that object: the categories in the order they first occur. */
  function FirstOccurrences(all: seq<Icon>): seq<string>
    decreases |all|
  {
    if all == [] then []
    else
      var ks := FirstOccurrences(all[..|all| - 1]);
      var c := all[|all| - 1].category;
      if c in ks then ks else ks + [c]
  }

  /** Each category occurs in the key order exactly once. */
  lemma {:induction false} FirstOccurrencesSpec(all: seq<Icon>)
    ensures Distinct(FirstOccurrences(all))
    ensures forall c :: c in FirstOccurrences(all) <==> c in CategorySet(all)
    decreases |all|
  {
    if all != [] {
      var init := all[..|all| - 1];
      FirstOccurrencesSpec(init);
      assert all == init + [all[|all| - 1]];
      CategorySetSnoc(init, all[|all| - 1]);
    }
  }

  /** One step of the `forEach`: the count of the entry's category goes up by one, from 0 when it is new. */
  lemma TallySnoc(xs: seq<Icon>, x: Icon)
    ensures Tally(xs + [x]) == Increment(Tally(xs), x.category)
  {
    var lhs := Tally(xs + [x]);
    var rhs := Increment(Tally(xs), x.category);
    CategorySetSnoc(xs, x);
    forall c | c in lhs ensures lhs[c] == rhs[c] {
      FilterSnoc(xs, x, (icon: Icon) => icon.category == c);
      if c !in CategorySet(xs) {
        BucketEmpty(xs, c);
      }
    }
  }

  /** `categories[cat] = (categories[cat] || 0) + 1`. */
  function Increment(counts: map<string, nat>, c: string): map<string, nat> {
    counts[c := (if c in counts then counts[c] else 0) + 1]
  }

  /** The counts the `forEach` has built after the entries of `xs`, one increment per entry. */
  function Counts(xs: seq<Icon>): map<string, nat>
    decreases |xs|
  {
    if xs == [] then map[] else Increment(Counts(xs[..|xs| - 1]), xs[|xs| - 1].category)
  }

  /** Counting entry by entry gives the size of each category's bucket. */
  lemma {:induction false} CountsIsTally(xs: seq<Icon>)
    ensures Counts(xs) == Tally(xs)
    decreases |xs|
  {
    if xs != [] {
      var init := xs[..|xs| - 1];
      CountsIsTally(init);
      assert xs == init + [xs[|xs| - 1]];
      TallySnoc(init, xs[|xs| - 1]);
    }
  }

  lemma CountsSnoc(all: seq<Icon>, k: nat)
    requires k < |all|
    ensures Counts(all[..k + 1]) == Increment(Counts(all[..k]), all[k].category)
  {
    assert all[..k + 1][..k] == all[..k];
  }

  /** What one iteration of the counting loop does to the key order. */
  lemma OrderStep(all: seq<Icon>, k: nat, order: seq<string>, counts: map<string, nat>)
    requires k < |all| && order == FirstOccurrences(all[..k]) && counts == Counts(all[..k])
    ensures (if all[k].category in counts then order else order + [all[k].category]) == FirstOccurrences(all[..k + 1])
  {
    FirstOccurrencesSpec(all[..k]);
    CountsIsTally(all[..k]);
    TallyKeys(all[..k]);
    assert all[..k + 1] == all[..k] + [all[k]];
    assert all[..k + 1][..k] == all[..k];
  }

  /** The counting loop: the key order and the counts after the `forEach`. */
  method CountCategories(all: seq<Icon>) returns (order: seq<string>, counts: map<string, nat>)
    ensures order == FirstOccurrences(all) && counts == Tally(all)
  {
    order := [];
    counts := map[];
    var k := 0;
    while k < |all|
      invariant 0 <= k <= |all|
      invariant order == FirstOccurrences(all[..k])
      invariant counts == Counts(all[..k])
    {
      var c := all[k].category;
      OrderStep(all, k, order, counts);
      CountsSnoc(all, k);
      if c !in counts {
        order := order + [c];
      }
      counts := Increment(counts, c);
      k := k + 1;
    }
    assert all[..k] == all;
    CountsIsTally(all);
  }

  /** `Object.entries(categories)`: the pairs in key order. */
  function Entries(order: seq<string>, counts: map<string, nat>): (r: seq<Stat>)
    requires forall c :: c in order ==> c in counts
    ensures |r| == |order|
    ensures forall i :: 0 <= i < |order| ==> r[i] == Stat(order[i], counts[order[i]])
  {
    seq(|order|, i requires 0 <= i < |order| => Stat(order[i], counts[order[i]]))
  }

  /** Inserts `x` before the first pair whose count is not larger. */
  function InsertDesc(x: Stat, sorted: seq<Stat>): seq<Stat>
    decreases |sorted|
  {
    if sorted == [] || x.count >= sorted[0].count then [x] + sorted
    else [sorted[0]] + InsertDesc(x, sorted[1..])
  }

  /** `sort((a, b) => b[1] - a[1])`: a stable sort by descending count. */
  function SortDesc(s: seq<Stat>): seq<Stat>
    decreases |s|
  {
    if s == [] then [] else InsertDesc(s[0], SortDesc(s[1..]))
  }

  predicate NonIncreasing(s: seq<Stat>) {
    forall i, j :: 0 <= i < j < |s| ==> s[i].count >= s[j].count
  }

  function SumCounts(s: seq<Stat>): nat
    decreases |s|
  {
    if s == [] then 0 else s[0].count + SumCounts(s[1..])
  }

  /** The first element of a non-empty insertion is `x` or the old first element. */
  lemma InsertDescHead(x: Stat, t: seq<Stat>)
    ensures InsertDesc(x, t) != [] && (InsertDesc(x, t)[0] == x || (t != [] && InsertDesc(x, t)[0] == t[0]))
  {
  }

  lemma {:induction false} InsertDescSorted(x: Stat, t: seq<Stat>)
    requires NonIncreasing(t)
    ensures NonIncreasing(InsertDesc(x, t))
    decreases |t|
  {
    if t != [] && x.count < t[0].count {
      var rest := InsertDesc(x, t[1..]);
      InsertDescSorted(x, t[1..]);
      InsertDescHead(x, t[1..]);
      var r := [t[0]] + rest;
      assert r[1..] == rest;
      assert t[0].count >= rest[0].count;
    }
  }

  lemma {:induction false} InsertDescPermutes(x: Stat, t: seq<Stat>)
    ensures multiset(InsertDesc(x, t)) == multiset{x} + multiset(t)
    decreases |t|
  {
    if t != [] && x.count < t[0].count {
      InsertDescPermutes(x, t[1..]);
      assert t == [t[0]] + t[1..];
    }
  }

  lemma {:induction false} InsertDescSum(x: Stat, t: seq<Stat>)
    ensures SumCounts(InsertDesc(x, t)) == x.count + SumCounts(t)
    decreases |t|
  {
    if t != [] && x.count < t[0].count {
      InsertDescSum(x, t[1..]);
      assert ([t[0]] + InsertDesc(x, t[1..]))[1..] == InsertDesc(x, t[1..]);
    } else {
      assert ([x] + t)[1..] == t;
    }
  }

  /** Insertion puts `x` before the pairs of equal count and keeps those in their order. */
  lemma {:induction false} InsertDescStable(x: Stat, t: seq<Stat>, p: Stat -> bool, n: nat)
    requires forall e :: p(e) == (e.count == n)
    ensures Filter(InsertDesc(x, t), p) == (if p(x) then [x] else []) + Filter(t, p)
    decreases |t|
  {
    if t != [] && x.count < t[0].count {
      InsertDescStable(x, t[1..], p, n);
      FilterCons(t[0], InsertDesc(x, t[1..]), p);
      assert t == [t[0]] + t[1..];
      FilterCons(t[0], t[1..], p);
      assert !p(x) || !p(t[0]);
    } else {
      FilterCons(x, t, p);
    }
  }

  /** The sort orders by descending count, permutes its input and keeps the sum of the counts. */
  lemma {:induction false} SortDescSpec(s: seq<Stat>)
    ensures NonIncreasing(SortDesc(s))
    ensures multiset(SortDesc(s)) == multiset(s)
    ensures SumCounts(SortDesc(s)) == SumCounts(s)
    decreases |s|
  {
    if s != [] {
      SortDescSpec(s[1..]);
      InsertDescSorted(s[0], SortDesc(s[1..]));
      InsertDescPermutes(s[0], SortDesc(s[1..]));
      InsertDescSum(s[0], SortDesc(s[1..]));
      assert s == [s[0]] + s[1..];
    }
  }

  /** The sort is stable: the pairs of any one count keep their order. */
  lemma {:induction false} SortDescStable(s: seq<Stat>, p: Stat -> bool, n: nat)
    requires forall e :: p(e) == (e.count == n)
    ensures Filter(SortDesc(s), p) == Filter(s, p)
    decreases |s|
  {
    if s != [] {
      SortDescStable(s[1..], p, n);
      InsertDescStable(s[0], SortDesc(s[1..]), p, n);
    }
  }

  /** The pairs of the given categories sum to the sizes of their buckets. */
  lemma {:induction false} SumEntries(all: seq<Icon>, ks: seq<string>)
    requires forall c :: c in ks ==> c in CategorySet(all)
    ensures SumCounts(Entries(ks, Tally(all))) == TotalSize(CategoryIndex(all), ks)
    decreases |ks|
  {
    if ks != [] {
      SumEntries(all, ks[1..]);
      assert Entries(ks, Tally(all))[1..] == Entries(ks[1..], Tally(all));
    }
  }

  /** The statistics the script reports: the pairs in key order, sorted by descending count. */
  function Statistics(all: seq<Icon>): seq<Stat> {
    FirstOccurrencesSpec(all);
    TallyKeys(all);
    SortDesc(Entries(FirstOccurrences(all), Tally(all)))
  }

  /** The pairs of `Object.entries` are the keys of the order with their counts. */
  lemma EntriesMembers(order: seq<string>, counts: map<string, nat>)
    requires forall c :: c in order ==> c in counts
    ensures forall e :: e in Entries(order, counts) <==> e.category in order && e.count == counts[e.category]
  {
    var r := Entries(order, counts);
    forall e: Stat | e.category in order && e.count == counts[e.category] ensures e in r {
      var i :| 0 <= i < |order| && order[i] == e.category;
      assert r[i] == e;
    }
  }

  /** The pairs in key order: one per category, with the size of its bucket, which is never empty. */
  lemma EntriesSpec(all: seq<Icon>)
    ensures forall c :: c in FirstOccurrences(all) ==> c in Tally(all)
    ensures forall e :: e in Entries(FirstOccurrences(all), Tally(all)) <==> e.category in CategorySet(all) && e.count == |Bucket(all, e.category)|
    ensures forall e :: e in Entries(FirstOccurrences(all), Tally(all)) ==> e.count > 0
  {
    FirstOccurrencesSpec(all);
    TallyKeys(all);
    EntriesMembers(FirstOccurrences(all), Tally(all));
    CategoryIndexPartition(all);
    forall c | c in CategorySet(all) ensures |Bucket(all, c)| > 0 {
      assert CategoryIndex(all)[c] != [];
    }
  }

  /**
   * The statistics list each category of the catalog once, with the number of
   * its entries (at least one), by descending count.
   */
  lemma StatisticsSpec(all: seq<Icon>)
    ensures NonIncreasing(Statistics(all))
    ensures forall e :: e in Statistics(all) <==> e.category in CategorySet(all) && e.count == |Bucket(all, e.category)|
    ensures forall e :: e in Statistics(all) ==> e.count > 0
  {
    EntriesSpec(all);
    var entries := Entries(FirstOccurrences(all), Tally(all));
    SortDescSpec(entries);
    assert forall e :: e in Statistics(all) <==> e in multiset(entries);
  }

  /** The counts add up to the size of the catalog. */
  lemma StatisticsSum(all: seq<Icon>)
    ensures SumCounts(Statistics(all)) == |all|
  {
    FirstOccurrencesSpec(all);
    var ks := FirstOccurrences(all);
    SortDescSpec(Entries(ks, Tally(all)));
    SumEntries(all, ks);
    forall icon | icon in all ensures icon.category in ks {
      assert icon.category in CategorySet(all);
    }
    TotalSizeCovers(all, ks);
  }

  /** The counting loop followed by the sort. */
  method CategoryStatistics(all: seq<Icon>) returns (stats: seq<Stat>)
    ensures stats == Statistics(all)
    ensures NonIncreasing(stats) && SumCounts(stats) == |all|
    ensures forall e :: e in stats <==> e.category in CategorySet(all) && e.count == |Bucket(all, e.category)|
  {
    var order, counts := CountCategories(all);
    FirstOccurrencesSpec(all);
    stats := SortDesc(Entries(order, counts));
    StatisticsSpec(all);
    StatisticsSum(all);
  }
}
