/**
 * The icon catalog loaded from `all-icons.json`, and the read-only queries
 * the v2 and v3 icon systems answer from it: case-insensitive search, the
 * category index built by `categorizeIcons`, the sorted category list and
 * the fixed list of popular icons.
 */
module Catalog {
  import opened Wrappers
  import opened Strings
  import opened Seqs

  /** One entry of `all-icons.json`. */
  datatype Icon = Icon(name: string, displayName: string, description: string, category: string, keywords: seq<string>)

  /** The `{ name, displayName }` pairs that popular-icon lists and the picker work with. */
  datatype Entry = Entry(name: string, displayName: string)

  function EntryOf(icon: Icon): Entry {
    Entry(icon.name, icon.displayName)
  }

  /** The outcome of fetching and parsing a JSON document: parsed, or the fetch or the parse threw. */
  datatype JsonOutcome<T> = Parsed(value: T) | Failed

  // ---------------------------------------------------------------------------
  // searchIcons

  /** The search predicate, for an already lower-cased search term. */
  predicate MatchesTerm(icon: Icon, term: string) {
    || Contains(Lower(icon.name), term)
    || Contains(Lower(icon.displayName), term)
    || exists k | k in icon.keywords :: Contains(Lower(k), term)
  }

  /** `searchIcons(query)` over the catalog `all`. */
  function SearchIcons(all: seq<Icon>, query: string): seq<Icon> {
    Filter(all, (icon: Icon) => MatchesTerm(icon, Lower(query)))
  }

  /**
   * Search returns exactly the catalog entries whose lower-cased name, display
   * name or some keyword contains the lower-cased query, each as often as it
   * occurs in the catalog, in catalog order.
   */
  lemma SearchIconsSpec(all: seq<Icon>, query: string)
    ensures forall icon :: icon in SearchIcons(all, query) <==> icon in all && MatchesTerm(icon, Lower(query))
    ensures forall icon :: multiset(SearchIcons(all, query))[icon] == if MatchesTerm(icon, Lower(query)) then multiset(all)[icon] else 0
    ensures IsSubsequence(SearchIcons(all, query), all)
  {
    var p := (icon: Icon) => MatchesTerm(icon, Lower(query));
    FilterIsSubsequence(all, p);
    forall icon ensures multiset(SearchIcons(all, query))[icon] == if MatchesTerm(icon, Lower(query)) then multiset(all)[icon] else 0 {
      FilterCount(all, p, icon);
    }
  }

  /** The empty query matches every entry, so it returns the whole catalog. */
  lemma SearchEmptyQuery(all: seq<Icon>)
    ensures SearchIcons(all, "") == all
  {
    forall icon | icon in all ensures MatchesTerm(icon, Lower("")) {
      ContainsEmpty(Lower(icon.name));
    }
    FilterAllPass(all, (icon: Icon) => MatchesTerm(icon, Lower("")));
  }

  /** Search ignores the case of the query. */
  lemma SearchCaseInsensitive(all: seq<Icon>, query: string)
    ensures SearchIcons(all, Lower(query)) == SearchIcons(all, query)
  {
    LowerIsLower(query);
  }

  // ---------------------------------------------------------------------------
  // categorizeIcons, getIconsByCategory, getCategories

  function CategorySet(all: seq<Icon>): set<string> {
    set icon | icon in all :: icon.category
  }

  /** The icons of category `c`, in catalog order. */
  function Bucket(all: seq<Icon>, c: string): seq<Icon> {
    Filter(all, (icon: Icon) => icon.category == c)
  }

  /** The `categories` map that `categorizeIcons` builds from the catalog. */
  function CategoryIndex(all: seq<Icon>): map<string, seq<Icon>> {
    map c | c in CategorySet(all) :: Bucket(all, c)
  }

  /** `getIconsByCategory(c)`: `categories.get(c) || []`. */
  function IconsByCategory(index: map<string, seq<Icon>>, c: string): seq<Icon> {
    if c in index then index[c] else []
  }

  /** `getCategories()`: the keys of the index, sorted. */
  ghost function Categories(index: map<string, seq<Icon>>): seq<string> {
    SortedKeys(index.Keys)
  }

  lemma {:induction false} BucketEmpty(all: seq<Icon>, c: string)
    requires c !in CategorySet(all)
    ensures Bucket(all, c) == []
    decreases |all|
  {
    if all != [] {
      assert all[0] in all;
      assert forall icon :: icon in all[1..] ==> icon in all;
      BucketEmpty(all[1..], c);
    }
  }

  /**
   * The index partitions the catalog: its keys are exactly the categories that
   * occur, every entry sits in the bucket of its own category, a bucket holds
   * only entries of its category, each bucket is non-empty and keeps catalog
   * order, and an unknown category gives the empty list.
   */
  lemma CategoryIndexPartition(all: seq<Icon>)
    ensures CategoryIndex(all).Keys == CategorySet(all)
    ensures forall i :: 0 <= i < |all| ==> all[i] in CategoryIndex(all)[all[i].category]
    ensures forall c, icon :: c in CategoryIndex(all) && icon in CategoryIndex(all)[c] ==> icon.category == c && icon in all
    ensures forall c :: c in CategoryIndex(all) ==> CategoryIndex(all)[c] != [] && IsSubsequence(CategoryIndex(all)[c], all)
    ensures forall c :: c !in CategorySet(all) ==> IconsByCategory(CategoryIndex(all), c) == []
  {
    var index := CategoryIndex(all);
    forall i | 0 <= i < |all| ensures all[i] in index[all[i].category] {
      assert all[i] in all;
    }
    forall c | c in index ensures index[c] != [] && IsSubsequence(index[c], all) {
      var icon :| icon in all && icon.category == c;
      assert icon in index[c];
      FilterIsSubsequence(all, (icon: Icon) => icon.category == c);
    }
  }

  /** Looking a category up in the index gives exactly the catalog entries of that category, in catalog order. */
  lemma IconsByCategorySpec(all: seq<Icon>, c: string)
    ensures forall icon :: icon in IconsByCategory(CategoryIndex(all), c) <==> icon in all && icon.category == c
    ensures IsSubsequence(IconsByCategory(CategoryIndex(all), c), all)
  {
    if c in CategorySet(all) {
      FilterIsSubsequence(all, (icon: Icon) => icon.category == c);
    } else {
      BucketEmpty(all, c);
    }
  }

  /** Appending an entry adds its category to the set of categories, and nothing else. */
  lemma CategorySetSnoc(xs: seq<Icon>, x: Icon)
    ensures CategorySet(xs + [x]) == CategorySet(xs) + {x.category}
  {
    forall c | c in CategorySet(xs + [x]) ensures c in CategorySet(xs) + {x.category} {
      var icon :| icon in xs + [x] && icon.category == c;
      if icon != x { assert icon in xs; }
    }
    forall c | c in CategorySet(xs) ensures c in CategorySet(xs + [x]) {
      var icon :| icon in xs && icon.category == c;
      assert icon in xs + [x];
    }
    assert x in xs + [x];
  }

  /** One step of the `forEach` in `categorizeIcons`: the icon is appended to its category's bucket, created if missing. */
  function AddToBucket(index: map<string, seq<Icon>>, x: Icon): map<string, seq<Icon>> {
    index[x.category := IconsByCategory(index, x.category) + [x]]
  }

  /** Indexing one more entry is one more step. */
  lemma CategoryIndexSnoc(xs: seq<Icon>, x: Icon)
    ensures CategoryIndex(xs + [x]) == AddToBucket(CategoryIndex(xs), x)
  {
    var index := CategoryIndex(xs);
    var lhs := CategoryIndex(xs + [x]);
    var rhs := index[x.category := IconsByCategory(index, x.category) + [x]];
    CategorySetSnoc(xs, x);
    forall c | c in lhs ensures lhs[c] == rhs[c] {
      FilterSnoc(xs, x, (icon: Icon) => icon.category == c);
      if c == x.category && c !in CategorySet(xs) {
        BucketEmpty(xs, c);
      }
    }
  }

  /** One step of `categorizeIcons`: the index of a prefix grows by the next entry. */
  lemma CategoryIndexStep(all: seq<Icon>, k: nat, index: map<string, seq<Icon>>)
    requires k < |all| && index == CategoryIndex(all[..k])
    ensures AddToBucket(index, all[k]) == CategoryIndex(all[..k + 1])
  {
    assert all[..k + 1] == all[..k] + [all[k]];
    CategoryIndexSnoc(all[..k], all[k]);
  }

  /**
   * The loop of `categorizeIcons`: from an empty index, each catalog entry in
   * turn is appended to the bucket of its category, the bucket being created
   * on first use.
   */
  method IndexCategories(all: seq<Icon>) returns (index: map<string, seq<Icon>>)
    ensures index == CategoryIndex(all)
  {
    index := map[];
    var k := 0;
    while k < |all|
      invariant 0 <= k <= |all|
      invariant index == CategoryIndex(all[..k])
    {
      var icon := all[k];
      CategoryIndexStep(all, k, index);
      index := index[icon.category := IconsByCategory(index, icon.category) + [icon]];
      k := k + 1;
    }
    assert all[..k] == all;
  }

  /** The total size of the buckets named by `ks`. */
  function TotalSize(index: map<string, seq<Icon>>, ks: seq<string>): nat {
    if ks == [] then 0 else |IconsByCategory(index, ks[0])| + TotalSize(index, ks[1..])
  }

  /** How many of the distinct keys `ks` equal `c`. */
  function Occurrences(ks: seq<string>, c: string): nat {
    if ks == [] then 0 else (if ks[0] == c then 1 else 0) + Occurrences(ks[1..], c)
  }

  lemma {:induction false} OccurrencesOfDistinct(ks: seq<string>, c: string)
    requires Distinct(ks)
    ensures Occurrences(ks, c) == if c in ks then 1 else 0
  {
    if ks != [] {
      assert Distinct(ks[1..]);
      OccurrencesOfDistinct(ks[1..], c);
      if ks[0] == c {
        assert c !in ks[1..];
      }
    }
  }

  /** Removing the first catalog entry removes one from the bucket of its category. */
  lemma {:induction false} TotalSizeStep(all: seq<Icon>, ks: seq<string>)
    requires all != []
    ensures TotalSize(CategoryIndex(all), ks) == Occurrences(ks, all[0].category) + TotalSize(CategoryIndex(all[1..]), ks)
  {
    if ks != [] {
      TotalSizeStep(all, ks[1..]);
      var c := ks[0];
      assert all == [all[0]] + all[1..];
      if c in CategorySet(all) && c !in CategorySet(all[1..]) {
        BucketEmpty(all[1..], c);
      }
      if c !in CategorySet(all) {
        assert all[0] in all;
        forall icon | icon in all[1..] ensures icon.category != c {
          assert icon in all;
        }
      }
    }
  }

  lemma {:induction false} TotalSizeCovers(all: seq<Icon>, ks: seq<string>)
    requires Distinct(ks) && forall icon :: icon in all ==> icon.category in ks
    ensures TotalSize(CategoryIndex(all), ks) == |all|
    decreases |all|
  {
    if all == [] {
      TotalSizeEmpty(ks);
    } else {
      assert all[0] in all;
      TotalSizeStep(all, ks);
      OccurrencesOfDistinct(ks, all[0].category);
      TotalSizeCovers(all[1..], ks);
    }
  }

  lemma {:induction false} TotalSizeEmpty(ks: seq<string>)
    ensures TotalSize(CategoryIndex([]), ks) == 0
  {
    if ks != [] {
      TotalSizeEmpty(ks[1..]);
    }
  }

  /** The sizes of the buckets of the sorted category list add up to the size of the catalog. */
  lemma BucketSizesSum(all: seq<Icon>)
    ensures TotalSize(CategoryIndex(all), Categories(CategoryIndex(all))) == |all|
  {
    var ks := Categories(CategoryIndex(all));
    forall icon | icon in all ensures icon.category in ks {
      assert icon.category in CategorySet(all);
    }
    TotalSizeCovers(all, ks);
  }

  /** `getCategories()` lists each category that occurs exactly once, in sorted order. */
  lemma CategoriesSpec(all: seq<Icon>)
    ensures StrictlySorted(Categories(CategoryIndex(all)))
    ensures forall c :: c in Categories(CategoryIndex(all)) <==> exists icon :: icon in all && icon.category == c
    ensures forall c :: c in Categories(CategoryIndex(all)) ==> IconsByCategory(CategoryIndex(all), c) != []
  {
    CategoryIndexPartition(all);
  }

  // ---------------------------------------------------------------------------
  // getPopularIcons (v3)

  /** The twelve names that `getPopularIcons` offers when the catalog has them. */
  const PopularCandidates: seq<Entry> := [
    Entry("star", "Star"), Entry("heart", "Heart"), Entry("plus", "Plus"), Entry("minus", "Minus"),
    Entry("check", "Check"), Entry("camera", "Camera"), Entry("clock", "Clock"), Entry("eye", "Eye"),
    Entry("eye-slash", "Eye Slash"), Entry("lock", "Lock"), Entry("folder", "Folder"),
    Entry("credit-card", "Credit Card")
  ]

  predicate InCatalog(all: seq<Icon>, name: string) {
    exists icon | icon in all :: icon.name == name
  }

  function PopularIcons(all: seq<Icon>): seq<Entry> {
    Filter(PopularCandidates, (e: Entry) => InCatalog(all, e.name))
  }

  /**
   * The popular icons are the candidates whose name occurs in the catalog,
   * in the candidates' order; an empty catalog has none.
   */
  lemma PopularIconsSpec(all: seq<Icon>)
    ensures forall e :: e in PopularIcons(all) <==> e in PopularCandidates && InCatalog(all, e.name)
    ensures IsSubsequence(PopularIcons(all), PopularCandidates) && |PopularIcons(all)| <= 12
    ensures all == [] ==> PopularIcons(all) == []
  {
    FilterIsSubsequence(PopularCandidates, (e: Entry) => InCatalog(all, e.name));
  }
}
