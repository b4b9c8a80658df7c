# Icon system and UI kit of rc_exp, modelled in Dafny

This project models the logic of the rc_exp UI kit that needs no browser.

**Icon systems.** There are three generations:
- `IconSystem`, the local icons.
- `IconSystemV2` and `IconSystemV3`, which work from the Gravity UI catalog.

The model covers:
- the lazy SVG cache behind `getIcon`;
- the catalog loaded from `all-icons.json` and its category index;
- search, the category list and the popular icons;
- the renderers, which rebuild an `<svg>` element around the fetched markup.

**Catalog builder.** `extract-all-icons.js` turns `metadata.json` into the catalog. The model covers:
- the first-match-wins category rules;
- the derived display name, description and keywords;
- the table of icons per category, printed by descending count.

**UI kit page (`script.js`).** The model covers:
- the parser that turns a free-text request into a button configuration;
- the builder that picks the button's kind and icon size;
- the state changed by the theme toggle, the collapsible blocks and the select component.

**Icon picker.** The model covers:
- how the dialog merges its options;
- how it waits for the v3 icon system;
- how it chooses what to list;
- how many results it renders, and how it counts them;
- how one icon is selected.

**Docs updater (`update-docs.js`).** The model covers:
- the regular-expression pipeline of `markdownToHtml`;
- frontmatter stripping;
- the `.mdc` to `.html` naming;
- the rule-page loop, which goes on after an error.

**How the outside world appears in the model:**
- **The network is an input.** An SVG request ends in `FetchOutcome`: `Ok(body)`, `NotOk(status)` or `NetworkError`. A JSON document ends in `JsonOutcome`: parsed, or failed. Where several requests are made, `net` maps each URL to its outcome.
- **Regular expressions are scanners.** Each one the code uses is a hand-written scanner that follows JavaScript's rules: the leftmost match, lazy `*?`, the `m` flag for `^` and `$`, `.` excluding line terminators, and the `g` flag resuming after each match. Each scanner's contract, or the lemmas stated next to it, says declaratively which match it finds and what it captures. For `Strings.ReplaceAll` these are `ReplaceAllWithout` and `ReplaceAllAt`, for the heading pass `HeadingsPerLine`, and for the inline spans `SpanPassSkip`, `SpanPassNone` and `SpanPassMatch`.
- **Emptiness follows JavaScript.** The JavaScript test `!x` treats `null` and `""` alike (`Truthy`).
- **Classes whose fields the code updates are Dafny classes.** These are the icon systems, the page, the blocks, the select, the picker and the docs folder. Their handlers are methods, proved against the functions that specify them.

Modules:

| module | models |
|---|---|
| `IconCache` | `getIcon`'s cache (v2 and v3) and sessions of lookups |
| `Catalog` | the catalog entries and the read-only queries |
| `SvgMarkup` | the placeholders, the SVG wrappers, the extraction scanners and the `replace` chain of `renderIconOriginal` |
| `IconsV1`, `IconsV2`, `IconsV3` | the three icon-system classes and their `connectIcon` functions |
| `KeywordRules` | ordered substring rules, first match wins |
| `CatalogBuilder` | `extract-all-icons.js` |
| `ButtonRequest` | `parseButtonRequest` and `createButtonWithIcon` |
| `PageState` | theme, blocks and the select component |
| `Picker` | `IconPicker` |
| `UpdateDocs` | `markdownToHtml` and `updateRulesHtml` |
| `Strings`, `Seqs`, `Wrappers` | shared helpers: `includes`, `toLowerCase` and `trim`, filters, and `Option` |

## Model

| member | source | states |
|---|---|---|
| IconCache.LookupOrFetch | icons/icon-system-v3.js:44-65 | A cached name is answered from the cache with no request. A miss issues exactly one request, for `<repo><name>.svg`. Only an ok response is stored, under the name and with its body. Every other entry is kept. The result is the stored text, or null. |
| IconCache.SecondCallHitsCache | icons/icon-system-v3.js:44-55 | After a successful lookup, a second lookup of the same name issues no request and returns the same text. |
| IconCache.FailureIsRetried | icons/icon-system-v3.js:56-64 | A non-ok status or a thrown error leaves the cache unchanged, so the next lookup of that name requests it again. |
| IconCache.RunSnoc | icons/icon-system-v2.js:43-64 | A session of lookups grows one call at a time. The call adds its request, if it makes one, and its effect on the cache. |
| IconCache.AtMostOneDownloadPerName | icons/icon-system-v2.js:43-64 | In any session of sequential lookups, each name is downloaded successfully at most once, and never when it was cached at the start. |
| IconCache.OkDownloadsAppend | icons/icon-system-v2.js:43-64 | Counting the successful downloads of a name distributes over joined sessions. |
| IconCache.CacheHoldsOnlySuccesses | icons/icon-system-v2.js:51-63 | Failures are never cached. Every entry at the end of a session was cached at the start or came from an ok response to a call for that name. |
| Catalog.SearchIconsSpec | icons/icon-system-v3.js:108-115 | Search returns exactly the entries whose lower-cased name, display name or some keyword contains the lower-cased query. Each entry appears as often as in the catalog, and catalog order is kept. |
| Catalog.SearchEmptyQuery | icons/icon-system-v3.js:108-115 | The empty query returns the whole catalog. |
| Catalog.SearchCaseInsensitive | icons/icon-system-v2.js:67-74 | Search ignores the case of the query. |
| Catalog.BucketEmpty | icons/icon-system-v3.js:118-120 | A category that no entry has gets no entries. |
| Catalog.CategoryIndexPartition | icons/icon-system-v3.js:32-41 | The index has a key for exactly the categories present. Every entry is in the bucket of its category. A bucket holds only entries of its category, in catalog order, and is never empty. An unknown category gives []. |
| Catalog.IconsByCategorySpec | icons/icon-system-v3.js:118-120 | `getIconsByCategory(c)` gives exactly the catalog entries of category `c`, in catalog order. |
| Catalog.CategorySetSnoc | icons/icon-system-v3.js:34-39 | Appending an entry adds its category to the set of categories, and nothing else. |
| Catalog.CategoryIndexSnoc | icons/icon-system-v3.js:34-39 | Indexing one more entry appends it to the bucket of its category, which is created when missing. |
| Catalog.CategoryIndexStep | icons/icon-system-v3.js:34-39 | One iteration of the `forEach` extends the index of a prefix to the index of the next prefix. |
| Catalog.IndexCategories | icons/icon-system-v3.js:32-41 | The loop that clears the index and pushes each entry into its bucket builds the category index of the catalog. |
| Catalog.OccurrencesOfDistinct | icons/icon-system-v3.js:123-125 | A key occurs once in a list of distinct keys when it is present, and otherwise not at all. |
| Catalog.TotalSizeStep | icons/icon-system-v3.js:34-39 | Removing the first entry lowers the total bucket size by one, in the bucket of its category. |
| Catalog.TotalSizeCovers | icons/icon-system-v3.js:32-41 | The buckets of distinct keys that cover every category add up to the size of the catalog. |
| Catalog.TotalSizeEmpty | icons/icon-system-v3.js:32-41 | The index of an empty catalog has no entries. |
| Catalog.BucketSizesSum | icons/icon-system-v3.js:32-41 | The sizes of the buckets of the listed categories add up to `allIcons.length`. |
| Catalog.CategoriesSpec | icons/icon-system-v3.js:123-125 | `getCategories()` is strictly sorted, so each category appears once. It lists exactly the categories some entry has, and each listed category has a non-empty bucket. |
| Strings.UnitRankIsCodeUnitOrder | icons/icon-system-v3.js:124 | Characters compare by rank exactly as their UTF-16 encodings compare, which is how `sort()` orders the category names. Equal ranks mean equal characters. |
| Catalog.PopularIconsSpec | icons/icon-system-v3.js:128-146 | The popular icons are exactly those of the twelve fixed entries whose name occurs in the catalog, in the fixed order. There are at most 12, and none when the catalog is empty. |
| IconsV3.IconSystemV3.constructor | icons/icon-system-v3.js:7-13 | A new system has an empty cache, an empty catalog and an empty index. |
| IconsV3.IconSystemV3.LoadAllIcons | icons/icon-system-v3.js:21-30 | The catalog becomes the parsed document. When the fetch or the parse fails, it becomes empty. Nothing else changes. |
| IconsV3.IconSystemV3.CategorizeIcons | icons/icon-system-v3.js:32-41 | The index becomes the category index of the catalog. The cache and the catalog are unchanged. |
| IconsV3.IconSystemV3.Init | icons/icon-system-v3.js:15-19 | Loading then indexing leaves the catalog, or [] on failure, with its own index. |
| IconsV3.IconSystemV3.GetIcon | icons/icon-system-v3.js:44-65 | Returns, requests and stores what `LookupOrFetch` specifies, and changes nothing else. |
| IconsV3.IconSystemV3.RenderIcon | icons/icon-system-v3.js:68-88 | Looks the name up as `getIcon` does, then renders the result without forcing paint, with the name as the placeholder text. |
| IconsV3.IconSystemV3.RenderIconOriginal | icons/icon-system-v3.js:91-105 | Looks the name up as `getIcon` does. A missing SVG gives the `?` placeholder. Otherwise the first width, height and class are rewritten and a class is inserted at the first `<svg`. |
| IconsV3.IconSystemV3.SearchIcons | icons/icon-system-v3.js:108-115 | Keeps exactly the matching catalog entries, in catalog order. The empty query keeps them all. |
| IconsV3.IconSystemV3.GetIconsByCategory | icons/icon-system-v3.js:118-120 | With the index built, gives exactly the entries of that category, in catalog order. |
| IconsV3.IconSystemV3.GetCategories | icons/icon-system-v3.js:123-125 | Strictly sorted, with exactly the keys of the index. With the index built, these are the categories that occur in the catalog. |
| IconsV3.IconSystemV3.GetPopularIcons | icons/icon-system-v3.js:128-146 | The fixed popular entries whose name the catalog has, in their order. There are at most 12. |
| IconsV3.ConnectIconV3 | icons/icon-system-v3.js:219-227 | Renders the icon when its lookup gives non-empty text. Otherwise it renders `question` instead, after a second lookup that may fetch. |
| IconsV2.IconSystemV2.constructor | icons/icon-system-v2.js:7-13 | A new system has an empty cache, an empty catalog and an empty index. |
| IconsV2.IconSystemV2.LoadAllIcons | icons/icon-system-v2.js:20-29 | The catalog becomes the parsed document, or [] when loading fails. Nothing else changes. |
| IconsV2.IconSystemV2.CategorizeIcons | icons/icon-system-v2.js:31-40 | The index becomes the category index of the catalog. |
| IconsV2.IconSystemV2.Init | icons/icon-system-v2.js:15-18 | Loading then indexing leaves the catalog, or [] on failure, with its own index. |
| IconsV2.IconSystemV2.GetIcon | icons/icon-system-v2.js:43-64 | The cache contract of `LookupOrFetch`: a hit makes no request, an ok response is stored and returned, and a failure gives null with the cache unchanged. |
| IconsV2.IconSystemV2.RenderIcon | icons/icon-system-v2.js:108-126 | The stroked wrapper, with `fill="none"`, `stroke-width="2"` and round caps and joins. It uses the first viewBox or `0 0 24 24`. A missing SVG gives the `?` placeholder, and raw content is returned when there is no `<svg>…</svg>`. |
| IconsV2.IconSystemV2.RenderIconHighQuality | icons/icon-system-v2.js:87-105 | The same extraction and fallbacks as `renderIcon`, with `fill="currentColor"`, `stroke-width="1.5"` and geometric precision. |
| IconsV2.IconSystemV2.LoadIconsAsync | icons/icon-system-v2.js:186-200 | Looks each listed icon up in turn, and renders the found ones in high quality from the cache. The requests made and the final cache are those of the session of lookups. |
| IconsV2.IconSystemV2.SearchIcons | icons/icon-system-v2.js:67-74 | A case-insensitive filter over name, display name and keywords that keeps catalog order. |
| IconsV2.IconSystemV2.GetIconsByCategory | icons/icon-system-v2.js:77-79 | With the index built, gives exactly the entries of that category, in catalog order. An unknown category gives []. |
| IconsV2.IconSystemV2.GetCategories | icons/icon-system-v2.js:82-84 | Strictly sorted and distinct, with exactly the keys of the index. |
| IconsV2.LookupsStep | icons/icon-system-v2.js:186-190 | The lookups of one more icon add one call, for its name. |
| IconsV2.LoadIconsAsyncDownloadsOnce | icons/icon-system-v2.js:186-200 | However often the grid lists a name, `loadIconsAsync` downloads it at most once, and not at all when it is already cached. |
| IconsV2.StagesAreOneFilter | icons/icon-system-v2.js:214-227 | The category stage followed by the search stage keeps exactly the icons that pass both, in catalog order. |
| IconsV2.FilterIconsSpec | icons/icon-system-v2.js:210-230 | The grid shows the first 50 catalog entries of the selected category, or of all categories, whose lower-cased name or display name contains the lower-cased term. |
| IconsV2.KeywordsIgnored | icons/icon-system-v2.js:222-227 | An icon that matches the search only through a keyword is not shown in the grid. |
| IconsV2.ConnectIconV2 | icons/icon-system-v2.js:257-265 | Without an instance the result is `<div class="icon-placeholder">?</div>`. Otherwise it is `renderIcon(name)` at size 24 with no extra class. |
| IconsV1.LoadedSpec | icons/icon-system.js:39-52 | The loader adds exactly the names whose fetch is ok, each with its response text, and keeps every other entry. |
| IconsV1.IconSystem.constructor | icons/icon-system.js:7-11 | A new system has an empty cache and no popular icons. |
| IconsV1.IconSystem.LoadPopularIcons | icons/icon-system.js:18-26 | The popular list becomes the parsed document, or [] when the fetch or the parse fails. |
| IconsV1.IconSystem.LoadAvailableIcons | icons/icon-system.js:28-53 | Tries the 34 fixed names in order and stores exactly those whose fetch is ok. Only local names are ever cached. |
| IconsV1.IconSystem.Init | icons/icon-system.js:13-16 | Loads the popular list, then the local icons. |
| IconsV1.IconSystem.GetIcon | icons/icon-system.js:55-57 | A plain lookup of the cache, which never fetches. |
| IconsV1.IconSystem.GetPopularIcons | icons/icon-system.js:59-61 | Exactly the popular entries whose icon is loaded, in their original order. |
| IconsV1.IconSystem.RenderIcon | icons/icon-system.js:63-76 | A missing or empty icon gives the `?` placeholder of the requested size. Otherwise the first `<path>` tag goes in the stroked 24x24 wrapper, and an SVG without one is returned as it is. |
| IconsV1.IconSystem.ConnectIcon | icons/icon-system.js:120-128 | A loaded, non-empty icon renders itself at size 24. Anything else renders `question` at size 24 instead. |
| IconsV1.QuestionNotAvailable | icons/icon-system.js:30-37 | The fallback name `question` is not one of the 34 local names. |
| IconsV1.NotLoadedUnlessAvailable | icons/icon-system.js:39-52 | A name outside the fixed list is never found. |
| IconsV1.ConnectMissing | icons/icon-system.js:120-128 | An icon that is missing or empty always comes out as the `?` placeholder at size 24, because the `question` fallback is never loaded. |
| IconsV1.FallbackIsPlaceholder | icons/icon-system.js:120-128 | With `question` not loaded, a name that is not found falls back to the placeholder. |
| SvgMarkup.RenderPath | icons/icon-system.js:63-76 | A missing or empty SVG gives the `?` placeholder of the given size. Otherwise only the first `<path…>` tag is kept, in the stroked wrapper with the fixed `0 0 24 24` viewBox. The raw content is returned when there is no `<path`. |
| SvgMarkup.FirstPathTag | icons/icon-system.js:70 | Found exactly when some `<path` is followed later by a `>`. The tag is the one at the first position where `<path[^>]*>` matches, with no match before it, and runs to the next `>`, with no `>` inside it. |
| SvgMarkup.WrapPathRoundTrip | icons/icon-system.js:70-72 | The first path tag of the wrapper built around a path tag is that tag. |
| SvgMarkup.PathAfterTag | icons/icon-system.js:70 | Behind an opening tag that holds no `<`, the first path tag found is the first one placed after it. |
| SvgMarkup.RenderPathIdempotent | icons/icon-system.js:63-76 | Rendering the output of `renderIcon` again gives the same markup. |
| SvgMarkup.RenderExtracted | icons/icon-system-v3.js:68-88 | A missing or empty SVG gives a placeholder: the icon name in v3 and `?` in v2. Without an `<svg…>…</svg>` pair the raw content is returned. Otherwise the inner markup is wrapped with the size, the class and the first viewBox, or `0 0 24 24`. |
| SvgMarkup.ViewBox | icons/icon-system-v2.js:115-116 | Found exactly when some `viewBox="…"` has a non-empty value. The value is the one between the quotes of the first such match, with no match before it. It is non-empty and holds no quote. |
| SvgMarkup.QuotedValue | icons/icon-system-v2.js:115-116 | The value of the leftmost `open[^"]{minLen,}"` match: found exactly when one exists, taken between the quotes of the first one, at least `minLen` long and free of quotes. |
| SvgMarkup.SvgInner | icons/icon-system-v2.js:119-121 | Found exactly when some `<svg` has a `>` followed later by `</svg>`. The inner markup runs from the first such tag's `>` to the last `</svg>`. |
| SvgMarkup.FindQuoted | icons/icon-system-v3.js:97-101 | Finds the leftmost position where `open` is followed by a closing quote. |
| SvgMarkup.WrapInnerRoundTrip | icons/icon-system-v3.js:79-84 | Extracting the inner markup of a generated wrapper gives back what was wrapped. |
| SvgMarkup.WrapViewBoxRoundTrip | icons/icon-system-v3.js:75-84 | The viewBox found in a generated wrapper is the one it was built with. |
| SvgMarkup.RenderSvgIdempotent | icons/icon-system-v2.js:114-125 | Re-rendering a rendered icon with the same style, size and class gives the same markup. |
| SvgMarkup.PlaceholderShape | icons/icon-system-v3.js:70-72 | The placeholder sets width and height to the requested size and ends with its text and `</div>`. |
| SvgMarkup.ExpandLiteral | icons/icon-system-v3.js:98-102 | A replacement without `$` is inserted as written. |
| SvgMarkup.ExpandMatched | icons/icon-system-v3.js:98-102 | `$&` in a replacement stands for the matched text. |
| SvgMarkup.ReplaceQuoted | icons/icon-system-v3.js:99-101 | When the pattern does not match, the text is returned unchanged. |
| SvgMarkup.ReplaceQuotedSpec | icons/icon-system-v3.js:99-101 | With a `$`-free replacement, only the leftmost `open…"` is replaced. The text before it and after its closing quote is kept. |
| SvgMarkup.InsertAtSvg | icons/icon-system-v3.js:102 | Without a `<svg`, the text is unchanged. |
| SvgMarkup.InsertAtSvgSpec | icons/icon-system-v3.js:102 | With a `$`-free replacement, only the first `<svg` is replaced. |
| SvgMarkup.RenderOriginal | icons/icon-system-v3.js:91-105 | A missing or empty SVG gives the `?` placeholder. Otherwise the four replacements are applied in order. |
| SvgMarkup.RewriteBareSvg | icons/icon-system-v3.js:97-104 | An SVG without width, height or class only gains `class="icon …"` right after its first `<svg`. |
| SvgMarkup.StrokeWidthIsRewritten | icons/icon-system-v3.js:99 | The width pattern has no word boundary, so a `stroke-width="…"` that comes first is the attribute rewritten. |
| KeywordRules.FirstMatch | icons/extract-all-icons.js:18-57 | Gives the index of the first rule with a keyword in the name. No earlier rule matches. `|rules|` means none matches. |
| KeywordRules.FirstMatchIs | script.js:386-391 | A matching rule with no match before it is the one chosen. |
| CatalogBuilder.GetCategorySpec | icons/extract-all-icons.js:18-57 | The category is one of the 17 fixed names or `other`. It is `other` exactly when no rule matches, and otherwise it is the first matching rule's category. |
| CatalogBuilder.RuleCategoriesKnownLow | icons/extract-all-icons.js:19-37 | Each rule on these lines hands out one of the 17 categories. |
| CatalogBuilder.RuleCategoriesKnownHigh | icons/extract-all-icons.js:38-55 | Each rule on these lines hands out one of the 17 categories. |
| CatalogBuilder.OtherIsNotKnown | icons/extract-all-icons.js:56 | `other` is not one of the 17 rule categories. |
| CatalogBuilder.ArrowIsNavigation | icons/extract-all-icons.js:19 | Any name with `arrow` or `chevron` is `navigation`, whatever else it contains. |
| CatalogBuilder.NoTimeBeforeLine32 | icons/extract-all-icons.js:19-31 | No rule before line 32 gives `time`. |
| CatalogBuilder.ClockIsNeverTime | icons/extract-all-icons.js:31-32 | A name with `clock` is never `time`: line 31's `lock` comes first. |
| CatalogBuilder.XRuleCatchesX | icons/extract-all-icons.js:51 | Line 51 matches every name containing `x`. |
| CatalogBuilder.XShadowsLaterRules | icons/extract-all-icons.js:51-55 | A name that reaches a rule after line 51 has no `x`. |
| CatalogBuilder.SkipsLines19To24 | icons/extract-all-icons.js:19-24 | Every key of lines 19-24 has one of `o`, `p`, `s`, `u`, `f` and `g`, so a name without these letters matches none of those lines. |
| CatalogBuilder.CreditCardIsAction | icons/extract-all-icons.js:19-25 | `credit-card` is `action`: it lacks the letters of lines 19-24 and line 25 matches through the `edit` inside `credit`. |
| CatalogBuilder.Spaced | icons/extract-all-icons.js:11 | Every `-` becomes a space and every other character is kept, so the length is unchanged. |
| CatalogBuilder.DisplayName | icons/extract-all-icons.js:11 | The display name is as long as the name. Each `-` becomes a space, each word character at a word boundary (the start or after a non-word character) is upper-cased, and every other character is kept. |
| CatalogBuilder.Hyphenate | icons/extract-all-icons.js:11 | Spaces go back to hyphens. The script has no such step: it is the inverse of the first replacement, for the round trip. |
| CatalogBuilder.DisplayNameRoundTrip | icons/extract-all-icons.js:11 | For a lower-case name without spaces, lower-casing the display name and turning spaces back into hyphens gives the name. |
| CatalogBuilder.WordStartIsCapital | icons/extract-all-icons.js:11 | A lower-case letter at the start or after a hyphen is upper-cased. |
| CatalogBuilder.InsideWordUnchanged | icons/extract-all-icons.js:11 | A character after a word character keeps its case. |
| CatalogBuilder.WordBoundaryIsUpperCased | icons/extract-all-icons.js:11 | A word character at the start or after any non-word character, such as `.`, is upper-cased. |
| CatalogBuilder.NonWordCharKept | icons/extract-all-icons.js:11 | A character that is neither a word character nor a hyphen is kept as it is. |
| CatalogBuilder.Description | icons/extract-all-icons.js:12 | The description is `Иконка ` followed by the name. |
| CatalogBuilder.BuildIcon | icons/extract-all-icons.js:9-15 | An entry keeps the name and carries the derived display name, description and category. Its keywords are the metadata's, or [] when absent. |
| CatalogBuilder.BuildCatalog | icons/extract-all-icons.js:9-15 | One entry per metadata icon, in order. |
| CatalogBuilder.BuildCatalogSpec | icons/extract-all-icons.js:9-15 | Names are kept and every category is known or `other`. Each entry is found by searching for its own name. |
| CatalogBuilder.FoundByOwnName | icons/icon-system-v3.js:108-115 | An entry matches a search for its own name. |
| CatalogBuilder.TallyKeys | icons/extract-all-icons.js:66-69 | The count table has a key for exactly the categories that occur. |
| CatalogBuilder.FirstOccurrencesSpec | icons/extract-all-icons.js:66-72 | The key order of the table lists each category present exactly once. |
| CatalogBuilder.TallySnoc | icons/extract-all-icons.js:68 | One more entry raises the count of its category by one, from 0 when the category is new. |
| CatalogBuilder.CountsIsTally | icons/extract-all-icons.js:66-69 | Counting entry by entry gives the size of each category's bucket. |
| CatalogBuilder.CountsSnoc | icons/extract-all-icons.js:67-69 | One iteration of the counting loop is one increment. |
| CatalogBuilder.OrderStep | icons/extract-all-icons.js:67-69 | An iteration adds a key to the key order only when the category is new. |
| CatalogBuilder.CountCategories | icons/extract-all-icons.js:66-69 | The `forEach` leaves the keys in first-occurrence order, with the number of entries of each category. |
| CatalogBuilder.Entries | icons/extract-all-icons.js:72 | `Object.entries` pairs each key, in order, with its count. |
| CatalogBuilder.EntriesMembers | icons/extract-all-icons.js:72 | The pairs are exactly the keys of the order with their counts. |
| CatalogBuilder.EntriesSpec | icons/extract-all-icons.js:66-72 | There is one pair per category, with the size of its bucket, which is never 0. |
| CatalogBuilder.InsertDescHead | icons/extract-all-icons.js:72 | An insertion starts with the inserted pair or with the old first pair. |
| CatalogBuilder.InsertDescSorted | icons/extract-all-icons.js:72 | Inserting into a list in descending count order keeps it in that order. |
| CatalogBuilder.InsertDescPermutes | icons/extract-all-icons.js:72 | Insertion adds exactly the inserted pair. |
| CatalogBuilder.InsertDescSum | icons/extract-all-icons.js:72 | Insertion adds the inserted pair's count to the sum. |
| CatalogBuilder.InsertDescStable | icons/extract-all-icons.js:72 | Pairs of equal count keep their order, and the inserted pair goes before them. |
| CatalogBuilder.SortDescSpec | icons/extract-all-icons.js:72 | The sort yields non-increasing counts, permutes its input and keeps the total. |
| CatalogBuilder.SortDescStable | icons/extract-all-icons.js:72 | The sort is stable: pairs of equal count keep their order. |
| CatalogBuilder.SumEntries | icons/extract-all-icons.js:66-72 | The counts of the given categories add up to the sizes of their buckets. |
| CatalogBuilder.StatisticsSpec | icons/extract-all-icons.js:66-74 | The printed table is in non-increasing count order. It has one row per category present, with its number of icons, which is positive. |
| CatalogBuilder.StatisticsSum | icons/extract-all-icons.js:66-74 | The printed counts sum to the number of icons. |
| CatalogBuilder.CategoryStatistics | icons/extract-all-icons.js:66-74 | The counting loop followed by the sort gives the table. Its counts are non-increasing, sum to the number of icons and match the bucket sizes. |
| ButtonRequest.StyleOf | script.js:300-310 | The style is the result of the first group, in the order tested, with a keyword in the request. It is `action` when no keyword occurs, so it is always one of action, fill, outline or blank. |
| ButtonRequest.OutlineStyle | script.js:306-307 | A request with `outline` and no action or fill keyword gets the outline style. |
| ButtonRequest.SizeOf | script.js:312-318 | The size is 32 exactly when the request has `32`, `маленьк` or `мелк`, and 40 otherwise. |
| ButtonRequest.SkipRun | script.js:322 | The scanner for `[ом]*` and `\s*` stops at the first character outside the class. |
| ButtonRequest.TextAt | script.js:322 | Some exactly when the pattern matches at the given place: `текст`, a run of `о`/`м`, a run of spaces, a quote, a non-empty quote-free text and a quote. The capture is the text between the two quotes. It occurs in the request, and it is lower-case when the request is. |
| ButtonRequest.TextMatchIsGreedy | script.js:322 | The classes of the pattern do not overlap, so any match at a place is made of the greedy runs: there is only one. |
| ButtonRequest.TextAtIsTheMatch | script.js:322-325 | Whatever match the pattern has at a place, its capture is what `TextAt` gives there. |
| ButtonRequest.Leftmost | script.js:322 | The leftmost position where a match exists, if any, with none before it. |
| ButtonRequest.LeftmostIs | script.js:322 | A match with no match before it is the leftmost one. |
| ButtonRequest.FindText | script.js:322-325 | The capture of the match at the leftmost place where the pattern matches, with no match before it. None exactly when it matches nowhere. |
| ButtonRequest.IconNameOf | script.js:331-391 | Null exactly when no dictionary keyword occurs. Otherwise the icon of the first matching keyword in declaration order: a keyword occurs, and none declared before it does. |
| ButtonRequest.WrenchBeforeKey | script.js:332-333 | `гаечный ключ` gives `wrench`, although it also contains `ключ`. |
| ButtonRequest.ParseButtonRequestSpec | script.js:297-405 | The style, size and icon name are those the lower-cased request selects (`StyleOf`, `SizeOf`, `IconNameOf`). The text is null exactly when an icon-only button is asked for. Otherwise it is the quoted text when the request has one, and `Кнопка` when it has none. A quoted text is non-empty, lower-case, free of quotes and found in the request. A parsed icon name is non-empty. |
| ButtonRequest.IconNamesNonEmpty | script.js:331-391 | Every icon name the dictionary gives is non-empty, so a found icon is truthy. |
| ButtonRequest.IconSize | script.js:284 | The icon is 12 pixels in a 32-pixel button, and 16 otherwise. |
| ButtonRequest.CreateButtonSpec | script.js:256-294 | Text and icon give an icon-start button showing the text, and an icon alone an icon-only button with no text. Without an icon the button is text-only and shows its text, or `Кнопка` when it has none. The class list is `btn btn--size-<size> btn--style-<style>` followed by `btn--icon-start`, `btn--icon-only` or nothing. Only the kinds with an icon fill the icon slot, with the fallback glyph when rendering threw. |
| ButtonRequest.ButtonFromRequestKind | script.js:408-420 | A request with no dictionary keyword gives a text button. With a keyword, it gives an icon-only button exactly when that is asked for, and an icon-and-text button otherwise. |
| PageState.BoolText | script.js:61-65 | `toString` of a boolean is `"true"` exactly for true, and `"false"` otherwise. |
| PageState.NextTheme | script.js:29-31 | From `light` or a missing theme the next theme is `dark`. From anything else it is `light`. |
| PageState.NextThemeAlternates | script.js:29-31 | Every toggle changes the theme, and two toggles from light or dark come back to it. |
| PageState.GlyphFor | script.js:47-58 | The sun is drawn for the light theme, and the moon otherwise. |
| PageState.Page.constructor | script.js:31 | The page's `data-theme` attribute, which `toggleTheme` reads, its stored theme and its glyph are inputs: the page starts with exactly the given ones. |
| PageState.Page.ToggleTheme | script.js:29-44 | Writes the next theme to `data-theme` and to storage, and redraws the glyph to match. |
| PageState.ToggledClasses | script.js:6-23 | A collapsed block expands and any other block collapses. Afterwards exactly one class is present. |
| PageState.ToggleTwice | script.js:2-26 | From a block with exactly one class, two toggles come back to it. |
| PageState.Block.constructor | script.js:6 | A block's `collapsed`/`expanded` classes, which `toggleBlock` reads, and its `aria-expanded` attribute are inputs: the block starts with exactly the given ones and an unrotated chevron. |
| PageState.Block.UpdateAriaExpanded | script.js:61-65 | `aria-expanded` becomes whether the `expanded` class is present. Nothing else changes. |
| PageState.Block.Toggle | script.js:2-26 | Flips the classes, turns the chevron to 180 or 0 degrees and keeps `aria-expanded` equal to the `expanded` class. It schedules the icon demo exactly when the `icons` block expands and the v3 system exists. |
| PageState.OptionText | script.js:656 | The shown text is the option's caption when non-empty, and else its trimmed text. |
| PageState.SelectEventsSpec | script.js:664-678 | Enter, Space and ArrowDown only open, and Escape and outside clicks only close. Other keys and inside clicks change nothing, and repeating an event changes nothing more. |
| PageState.Select.constructor | script.js:624-628 | A select starts closed. It keeps the options, their selection marks and the button text that the page has. |
| PageState.Select.ToggleDropdown | script.js:630-643 | Flips `isOpen`. `aria-expanded` becomes `isOpen` and `aria-hidden` its negation, and the classes follow. |
| PageState.Select.KeyDown | script.js:664-674 | The opening keys open a closed dropdown, and Escape closes an open one. |
| PageState.Select.DocumentClick | script.js:676-678 | A click outside closes an open dropdown. |
| PageState.Select.ButtonClick | script.js:645-649 | A click on the button toggles the dropdown. |
| PageState.Select.OptionClick | script.js:651-662 | The option's text goes into the button, the option becomes the only one selected, and the dropdown toggles. |
| Picker.MergeOptionsSpec | icons/icon-picker.js:9-16 | An absent key takes its default: 50 results, both controls shown and the default placeholder. A present key overrides the computed default, whatever its value. |
| Picker.Limit | icons/icon-picker.js:123 | `slice(0, maxResults)` keeps at most the list. It keeps all of it for `undefined`, none for `null`, and `min(n, length)` for a number `n ≥ 0`. |
| Picker.WaitForIconSystem | icons/icon-picker.js:38-48 | Checks at most 51 times. It succeeds exactly when the system is present at one of those checks, and fails after 50 waits otherwise. |
| Picker.SourceOf | icons/icon-picker.js:202-215 | The untrimmed query is searched when its trimmed form is non-empty. Otherwise a category other than `all` or empty is looked up. Otherwise the popular icons are used. |
| Picker.EntriesOf | icons/icon-picker.js:123-136 | Each icon becomes its name and display name, in order. |
| Picker.EntriesOfMembers | icons/icon-picker.js:123-136 | An entry is listed exactly when some icon of the list has it. |
| Picker.ResultsSpec | icons/icon-picker.js:202-218 | The results are the search matches for the query, or the icons of the chosen category, or the popular icons, in that order of precedence. |
| Picker.RenderedItemsSpec | icons/icon-picker.js:120-141 | There are at most as many items as entries. Each item comes from an entry with the markup its rendering gave. Every entry that rendered has its item, and when nothing throws every entry has one. |
| Picker.LoadedCountBound | icons/icon-picker.js:120-144 | The count shown is at most the list's length and at most a non-negative `maxResults`. |
| Picker.IconPicker.constructor | icons/icon-picker.js:7-23 | The options are merged. The query is empty, the category is `all` and nothing is selected. |
| Picker.IconPicker.RenderResults | icons/icon-picker.js:104-148 | A null or empty list shows the no-results view with count `0`. Otherwise the first `maxResults` entries are rendered, throwing ones are skipped, and the count is the number rendered. |
| Picker.IconPicker.Render | icons/icon-picker.js:50-102 | A fresh dialog with the select button disabled, listing the popular icons. |
| Picker.IconPicker.PerformSearch | icons/icon-picker.js:202-218 | Lists what the current query and category call for. |
| Picker.IconPicker.InputQuery | icons/icon-picker.js:186-189 | Stores the query and lists its results. |
| Picker.IconPicker.ChangeCategory | icons/icon-picker.js:195-198 | Stores the category and lists its results. |
| Picker.IconPicker.ClickItem | icons/icon-picker.js:154-170 | The clicked item becomes the only marked one and the selection, and the select button is enabled. |
| Picker.IconPicker.ClickSelect | icons/icon-picker.js:174-179 | With a selection, reports it and closes the picker. Without one, does nothing. |
| UpdateDocs.LineEnd | update-docs.js:94 | Finds the first line terminator. The text before it is a single line. |
| UpdateDocs.HeadingLinesInOrder | update-docs.js:94-96 | On one line the three rules give that line's heading, with `### ` tried before `## ` and `## ` before `# `. |
| UpdateDocs.HeadingsOfLine | update-docs.js:94-96 | The heading rules applied to a single line give its heading. |
| UpdateDocs.HeadingsPerLine | update-docs.js:94-96 | Headings are rewritten line by line: each line becomes its heading, and the terminators are kept. |
| UpdateDocs.HeadingPassSplit | update-docs.js:94 | A heading rule rewrites the first line and goes on after its terminator. |
| UpdateDocs.HeadingLineUnmarked | update-docs.js:94-96 | A line that does not start with `#` is left alone. |
| UpdateDocs.CloseOf | update-docs.js:97-100 | The lazy match that starts at a position closes at the first place allowed, if any. |
| UpdateDocs.SpanPassSkip | update-docs.js:97-100 | A prefix where no match can start is copied as it is. |
| UpdateDocs.SpanPassNone | update-docs.js:97-100 | A text where no match can start is unchanged. |
| UpdateDocs.SpanPassWithout | update-docs.js:97-100 | A text without the rule's first character is unchanged. |
| UpdateDocs.SpanPassMatch | update-docs.js:97-100 | A match is replaced and the search resumes after it. |
| UpdateDocs.BoldWraps | update-docs.js:97 | `**x**` becomes `<strong>x</strong>`. |
| UpdateDocs.BoldBeforeItalic | update-docs.js:97-98 | `**x**` becomes `<strong>x</strong>` before the italic rule runs, which then finds nothing. |
| UpdateDocs.BoldSkipsLoneStars | update-docs.js:97 | The bold rule leaves `*x*` alone. |
| UpdateDocs.ItalicAfterBold | update-docs.js:97-98 | `*x*` becomes `<em>x</em>`. |
| UpdateDocs.CodeEmphasisBold | update-docs.js:97 | The bold rule leaves `` `*x*` `` alone. |
| UpdateDocs.CodeEmphasisItalic | update-docs.js:98 | The italic rule wraps the inside of `` `*x*` ``. |
| UpdateDocs.CodeEmphasisCode | update-docs.js:99-100 | Backticks around a text without backticks give no fence and one inline code span. |
| UpdateDocs.CodeAfterEmphasis | update-docs.js:97-100 | Code runs after emphasis: `` `*x*` `` becomes `<code><em>x</em></code>`. |
| UpdateDocs.ParagraphsNoBlankLine | update-docs.js:101 | After the paragraph rule no two newlines in a row remain. |
| Strings.ReplaceAllWithout | update-docs.js:101 | A `g` replacement of a fixed pattern leaves a text without an occurrence unchanged. |
| Strings.ReplaceAllAt | update-docs.js:101 | At the leftmost occurrence, the text before it is kept, the occurrence becomes the replacement, and replacing resumes right after it, so occurrences never overlap. |
| UpdateDocs.StripLeadingParagraph | update-docs.js:102 | Only a `<p>` at the very start is removed. |
| UpdateDocs.StripTrailingParagraph | update-docs.js:103 | Only a `</p>` at the very end is removed. |
| UpdateDocs.MarkdownToHtmlSpec | update-docs.js:92-105 | The HTML is the paragraph-broken text with at most one leading `<p>` and at most one trailing `</p>` removed, each only when it is there. The final replacement is the identity, and no blank line remains. |
| UpdateDocs.FrontmatterLength | update-docs.js:156 | Measures the shortest `---` … `---\n` prefix, or gives 0 when there is none. |
| UpdateDocs.StripFrontmatter | update-docs.js:156 | Removes exactly that shortest prefix. |
| UpdateDocs.OutputNameOf | update-docs.js:162 | A name ending in its only `.mdc` keeps its stem and ends in `.html`. |
| UpdateDocs.OutputNamesFromStems | update-docs.js:142-162 | Files named by distinct dot-free stems get different page names. |
| UpdateDocs.RuleOutputNames | update-docs.js:142-162 | The five rule files get five different `.html` names. |
| UpdateDocs.RuleOutputName | update-docs.js:162 | A dot-free stem followed by `.mdc` gets the name stem + `.html`. |
| UpdateDocs.Failures | update-docs.js:165-167 | The errors logged name exactly the existing files whose read or write failed. |
| UpdateDocs.PublishedSpec | update-docs.js:150-168 | Every rule that can be republished is, whatever happened to the rules around it. |
| UpdateDocs.PublishedNames | update-docs.js:150-168 | The folder gains exactly the page names of the republished rules. |
| UpdateDocs.PublishedKeeps | update-docs.js:150-168 | A page that no republished rule names stays as it was. |
| UpdateDocs.DocsFolder.constructor | update-docs.js:140-141 | The folder starts with the given pages. |
| UpdateDocs.DocsFolder.UpdateRulesHtml | update-docs.js:140-169 | Processes the five rules in order. Existing, readable ones are written under their `.html` name, and an error is logged and the loop goes on. |
| UpdateDocs.RulesPublished | update-docs.js:140-169 | Each of the five rules that can be republished is, under its own `.html` name. |

## Left out

- Input and output are parameters or are left out. This covers `fetch`, `fs`, `https`, `localStorage`, the clipboard and console logging. Every fetch outcome is an input (`FetchOutcome`, `JsonOutcome`, or `net` from URL to outcome), and a failing file read or write is a member of `failing`.
- The DOM is not modelled: element creation, `innerHTML` templates, CSS, focus and hover, and listener registration. Only the state that the handlers change is modelled.
- `renderIconDemo` and `setupSearch`'s DOM wiring are left out in all three generations. `setupSearch`'s filter in v2 is modelled as `IconsV2.FilterIcons`.
- Concurrency and timers are left out:
  - `setTimeout` delays.
  - The asynchronous `init` chains; calls are modelled in sequence.
  - The v3 `loadIconsAsync`: it runs `Promise.all` over concurrent `getIcon` calls with no de-duplication of requests in flight, so requests can interleave.
- `createHtmlFromMarkdown` is modelled as its inputs (`Page`: title, body, source). Its HTML template is plain interpolation, and its date comes from `toLocaleDateString`, which depends on the clock and the locale.
- `updateReadmeHtml`, `updateMilestoneHtml` and `updateAllDocs` are left out. They apply the same conversion to fixed files and create the `docs` folder on disk.
- `update-high-quality-icons.js` is not part of this model. It is a download-and-backup command-line script.
- `uikit-input.js` is not part of this model. It is DOM wiring only.
- `script.js:685-726` is left out. It uses variables that are never declared and throws when reached.
- `Strings.Lower`: models `toLowerCase` for the ASCII Latin capitals and the Cyrillic capitals U+0400–U+042F only. Other scripts and special case mappings are not modelled.
- `IconsV3.IconSystemV3.GetCategories` and `IconsV2.IconSystemV2.GetCategories` are ghost functions. The sorted key list is specified by choice of the least key.
- `Catalog.IndexCategories`: `categorizeIcons` pushes into arrays that the index shares. The model builds new sequences, so aliasing of the bucket arrays is not modelled.
- `ButtonRequest.CreateButtonWithIcon`: models `buttonText` as null or a string. The JavaScript default `'Кнопка'` for an `undefined` argument is not a separate case, because the only caller passes the parsed text.
- `Picker.IconPicker.RenderResults`: the v3 `renderIcon` call for each entry is an input (`render`), which gives its markup or `None` when it throws.
- `Picker.MergeOptions`: the `onSelect` callback is left out. Option values of types other than the ones declared are not modelled.
- `PageState.Select.OptionClick`: the option's `data-value` is read and never used, so it is left out. Focusing the first option after a key press is left out as well.
