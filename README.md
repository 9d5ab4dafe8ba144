# ai-news-collector, modelled in Dafny

This project models the deterministic core of the ai-news-collector daily AI-news digest:

- **Collector (src/fetcher.js).** For every configured RSS feed, the collector:
  - reads the feed's parsed `channel`/`item` records;
  - cleans their text (strips CDATA markers and tags, collapses whitespace, trims);
  - maps each item to an article record, isolating per-feed failures;
  - concatenates the per-feed lists and sorts them newest-first.
- **Digest engine (src/daily-digest.js).** The digest engine:
  - keeps the articles of the last 24 hours;
  - buckets them by source in order of first occurrence;
  - sorts each bucket newest-first and records the bucket's latest time;
  - orders the buckets by that time;
  - rebuilds them as an object keyed by source name.
- **Classifier (src/classifier.js).** It uses the keyword tables of src/config.js to:
  - pick a category by keyword counts, with ties going to the first category declared;
  - cut a 200-character summary;
  - score importance from 5 to 10;
  - group processed articles by category.
- **Report reader (scripts/daily-collect.js).** `extractSummary` reads back three things from a Markdown report:
  - the article total;
  - the generation date;
  - the first five `### N.` headings.

Modules, one per file:

| file | module | models |
|---|---|---|
| seqs.dfy | `Wrappers`, `Seqs` | `Option`; the stable descending sort that `Array.prototype.sort` performs with a `b - a` comparator, and its properties |
| grouping.dfy | `Grouping` | a plain JavaScript object used as an ordered dictionary; the `if (!g[k]) g[k] = []; g[k].push(x)` bucketing loop |
| text.dfy | `Text` | the string primitives: whitespace as JavaScript's `\s`, ASCII lower-casing, substring search, match counting, `trim` |
| config.dfy | `Config` | the `sources`, `categories` and `keywords` tables and facts about them |
| fetcher.dfy | `Fetcher` | `cleanText`, `extractArticles`, `fetchSource`, `fetchAll` |
| classifier.dfy | `Classifier` | `classify`, `generateSummary`, `calculateImportance`, `processArticles`, `groupByCategory` |
| digest.dfy | `Digest` | the digest pipeline of `main` |
| daily_collect.dfy | `DailyCollect` | `extractSummary` and the three regular expressions it uses |

**How time, the sort and the regular expressions are modelled**

- **Time.** Timestamps are integer milliseconds. The clock reading `now` is a parameter, and so is the fallback date string of `extractSummary`.
- **The sort.** JavaScript's sort is the function `Seqs.StableSortDesc`, an insertion sort.
  - `Seqs.SortedAndStableDetermine` shows why this choice is faithful. Any ordering that is sorted by the key and keeps equal-key elements in input order equals `StableSortDesc`. ECMA-262 (2019 and later) guarantees exactly such an ordering for a consistent comparator.
- **Regular expressions.** There is no general regex engine. Each regular expression is a hand-written matcher with JavaScript's semantics:
  - greedy `\s*` and `\d+`;
  - the lazy `.+?`;
  - `.` not matching line terminators;
  - `match` returning the leftmost match;
  - `matchAll` resuming at the end of the previous match.

## Model

| member | source | states |
|---|---|---|
| Digest.RecentKeepsExactly | src/daily-digest.js:27-31 | an article is kept exactly when its pubDate is at least now - 86 400 000 ms (boundary inclusive), with its full multiplicity |
| Digest.RecentConcat | src/daily-digest.js:28-31 | the filter works element by element, so it preserves input order: filtering a concatenation is the concatenation of the filtered parts |
| Digest.BuildDigest | src/daily-digest.js:27-65 | the pipeline returns the digest groups; the rebuilt object has the group names as keys, in sorted group order, each mapped to that group's unchanged articles |
| Digest.SourceEntries | src/daily-digest.js:46-56 | the entries follow the object's key order; each entry is one bucket sorted newest-first, with latestTime = its first article's pubDate |
| Digest.Rebuild | src/daily-digest.js:62-65 | for distinct names, the rebuilt object's key order is the group order and each key maps to that group's articles |
| Digest.EntryAt | src/daily-digest.js:47-55 | entry i is named by the i-th key; its articles are the stable newest-first sort of that source's bucket; they are non-empty; latestTime is the head's pubDate |
| Digest.GroupContents | src/daily-digest.js:36-54 | each group is a permutation of its source's recent articles, has non-increasing pubDate, keeps ties in input order, is non-empty, and has latestTime = first pubDate = the maximum pubDate |
| Digest.GroupMembers | src/daily-digest.js:27-43 | every article in a group is named by that group's source, comes from the input, and is recent |
| Digest.RecentArticleGrouped | src/daily-digest.js:36-43 | every recent article lies in the group named by its source, with all its occurrences |
| Digest.SizesSum | src/daily-digest.js:36-56 | the group sizes add up to the number of recent articles |
| Digest.NamesDistinct | src/daily-digest.js:36-65 | group names are pairwise distinct and are exactly the sources of the recent articles |
| Digest.GroupsSortedByLatest | src/daily-digest.js:59 | groups are ordered non-increasing by latestTime |
| Digest.GroupTiesKeepFirstOccurrence | src/daily-digest.js:46-59 | groups with equal latestTime keep their first-occurrence order |
| Digest.NoRecentNoGroups | src/daily-digest.js:36-72 | with no article in the last 24 hours there are no groups |
| Digest.SortKeepsNames | src/daily-digest.js:59 | sorting the entries keeps the set of names and their distinctness |
| Digest.DigestExample | src/daily-digest.js:49-59 | source A with articles at T-1h and T, and B with one at T-30m, give [A, B], with A's articles in the order [T, T-1h] |
| Grouping.GroupBy | src/daily-digest.js:36-43 | keys appear in order of first occurrence, and each key's bucket is the input's elements with that key, in input order |
| Grouping.PushStep | src/classifier.js:86-90 | one `if (!g[k]) g[k] = []; g[k].push(x)` step extends the first-occurrence key order and every bucket by one element |
| Grouping.KeyOrder | src/daily-digest.js:39-41 | the key order is duplicate-free and holds exactly the keys that occur |
| Grouping.KeyOrderIsFirstOccurrenceOrder | src/daily-digest.js:37-43 | a key listed earlier first occurs earlier in the input |
| Grouping.GroupNonEmpty | src/daily-digest.js:39-42 | no listed key has an empty bucket |
| Grouping.GroupSizesSum | src/classifier.js:86-90 | the bucket sizes add up to the input length |
| Seqs.SortPermutes | src/fetcher.js:93 | the sort is a permutation of its input |
| Seqs.SortSorted | src/fetcher.js:93 | the sort output is non-increasing by key |
| Seqs.SortStable | src/daily-digest.js:49 | elements with equal keys keep their input order |
| Seqs.SortedAndStableDetermine | src/daily-digest.js:59 | any sorted ordering that keeps equal keys in input order is the sort's output, so ties are deterministic |
| Seqs.SortHeadIsFirstMax | src/classifier.js:24-25 | the head of the sort is the first element of maximum key |
| Seqs.InsertMultiset | src/fetcher.js:93 | one insertion step adds exactly the inserted element |
| Seqs.InsertSorted | src/fetcher.js:93 | one insertion step keeps the order |
| Seqs.InsertSelect | src/daily-digest.js:49 | one insertion step places the element after all earlier elements with its key |
| Seqs.SelectConcat | src/fetcher.js:88 | the elements of a given key in a concatenation are those of the parts, in order |
| Seqs.SelectCount | src/daily-digest.js:36-43 | a bucket holds every element of its key with its full multiplicity, and nothing else |
| Config.KeywordTableFollowsCategories | src/config.js:27-48 | the keyword table has the eight category labels, in declaration order |
| Config.KeywordListsNonEmpty | src/config.js:40-47 | every category has at least one keyword, and no keyword is empty |
| Config.KeywordsAreLiteral | src/config.js:40-47 | no keyword holds a regex metacharacter, so `new RegExp(word)` matches it literally |
| Config.SourcesDistinctAndHigh | src/config.js:2-24 | source names are pairwise distinct, and every source has priority "high" |
| Config.ConfiguredKeysArePlain | src/config.js:2-36 | no source name or category label is an array index or an Object.prototype member name, so the objects keep insertion order and start out without them |
| Classifier.Classify | src/classifier.js:11-30 | the method that builds the score table and takes the stable-sort head computes Category |
| Classifier.Scores | src/classifier.js:13-21 | one score per table entry, in table order, labelled with that entry's category |
| Classifier.ClassifyText | src/classifier.js:12 | the classified text is the lower-cased title, one space, then the lower-cased description, so its length is theirs plus one |
| Classifier.WordsScoreZeroIff | src/classifier.js:16-20 | a category scores 0 exactly when none of its lowercased keywords occurs in the text |
| Classifier.ClassifyIsFirstMax | src/classifier.js:24-29 | when some score is positive, the result is a category with maximal, positive score, and no earlier category has that score |
| Classifier.ClassifyAllZero | src/classifier.js:27-29 | when every score is 0, the result is '其他' |
| Classifier.ClassifyOtherIff | src/classifier.js:11-30 | for a table without the label '其他', the result is '其他' exactly when no keyword occurs; otherwise it is some table entry's category |
| Classifier.ConfiguredClassify | src/classifier.js:11-30 | with the configured table, the result is '其他' exactly when no keyword occurs in the text; otherwise it is one of the eight categories |
| Classifier.GenerateSummary | src/classifier.js:35-41 | a missing or empty description gives ""; up to 200 characters it is returned unchanged; longer, it becomes its first 200 characters plus "..." (203 in all) |
| Classifier.SummaryIdempotent | src/classifier.js:35-41 | summarising a summary changes nothing |
| Classifier.RecencyBonusIsDaysSince | src/classifier.js:53-55 | the integer thresholds on the age in ms give the same bonus as the source's real-valued `daysSince` compared with 1 and 3: 2, 1 or 0 |
| Classifier.KeywordHits | src/classifier.js:58-62 | at most one hit per important keyword, however often it occurs |
| Classifier.HitsBounds | src/classifier.js:58-62 | no hits exactly when no important keyword is contained in the title |
| Classifier.HitsDependOnPresence | src/classifier.js:60-61 | the hits depend only on which keywords are contained (`includes` is boolean), not on how often |
| Classifier.Importance | src/classifier.js:46-65 | the importance is an integer between 5 and 10 |
| Classifier.CalculateImportance | src/classifier.js:46-65 | the step-by-step score in half-points equals Importance and lies in [5, 10] |
| Classifier.RoundHalfPoints | src/classifier.js:64 | (h + 1) / 2 is Math.round(h / 2), i.e. floor(h / 2 + 0.5) |
| Classifier.ImportanceMonotoneInAge | src/classifier.js:53-55 | a newer article never scores lower than an older one that is otherwise the same |
| Classifier.ImportanceWithoutKeywords | src/classifier.js:46-64 | a fresh high-priority article without keywords scores 9 |
| Classifier.ImportanceOneKeyword | src/classifier.js:46-64 | a fresh high-priority article whose title holds one important keyword ("major") scores min(round(9.5), 10) = 10 |
| Classifier.ImportanceBase | src/classifier.js:47-64 | an old, low-priority article without keywords scores the base 5 |
| Classifier.Process | src/classifier.js:71-77 | the record keeps the article and the processing time; its importance is in [5, 10] and its summary has at most 203 characters |
| Classifier.ProcessArticles | src/classifier.js:70-78 | one record per article, in input order |
| Classifier.ProcessConcat | src/classifier.js:70-78 | processing a concatenation is the concatenation of the processed parts |
| Classifier.GroupByCategory | src/classifier.js:83-93 | categories appear in order of first occurrence; each group holds its category's articles in input order; no group is empty; each article is in its own category's group with all its occurrences; the sizes add up to the input length |
| Fetcher.StripTags | src/fetcher.js:73 | stripping tags never adds a '>' and never lengthens the text |
| Fetcher.CleanText | src/fetcher.js:68-76 | a falsy input gives ""; the result has no whitespace at either end, no two whitespace characters in a row, no whitespace but single spaces, and no `<`…`>` tag |
| Fetcher.StripTagsNoTag | src/fetcher.js:73 | after tag stripping, no '<' is followed by one or more non-'>' characters and then a '>' |
| Fetcher.CollapseSpacing | src/fetcher.js:74 | after collapsing, whitespace occurs only as single spaces |
| Fetcher.CollapseKeepsNoTag | src/fetcher.js:73-74 | collapsing whitespace does not create a tag |
| Fetcher.TrimKeepsSpacing | src/fetcher.js:74-75 | trimming keeps the single-space property |
| Fetcher.NoTagMeaning | src/fetcher.js:73 | in tag-free text, each '<' that has a '>' two or more places later also has a '>' in between |
| Fetcher.CleanTextIdentity | src/fetcher.js:70-75 | text without CDATA markers or '<', single-spaced and trimmed, is returned unchanged |
| Fetcher.ExtractArticles | src/fetcher.js:44-63 | no channel or no item gives []; otherwise there is one article per item |
| Fetcher.SingleItemIsList | src/fetcher.js:50 | a single non-array item is treated as a one-element list |
| Fetcher.ExtractedFields | src/fetcher.js:52-62 | article i comes from item i, with cleaned title and description; author falls back to channel.title and content to description whenever the item's own field is absent or empty (JavaScript `or`); source name, category and priority are copied |
| Fetcher.FetchSource | src/fetcher.js:19-39 | a network failure, a non-2xx status or an unparseable body yields []; otherwise the extracted articles, all named by the source |
| Fetcher.CollectedLength | src/fetcher.js:85-90 | the concatenated list is as long as the per-source lists together |
| Fetcher.FetchAll | src/fetcher.js:81-97 | the result is the concatenation in config order, stably sorted newest-first: a permutation, non-increasing by pubDate, ties in input order, as long as all lists together |
| Text.ContainsIff | src/classifier.js:61 | `includes` holds exactly when the word occurs at some position |
| Text.CountZeroIff | src/classifier.js:17-19 | the non-overlapping match count is 0 exactly when the word does not occur |
| Text.CountBound | src/classifier.js:17-19 | non-overlapping matches fit in the text |
| Text.ReplaceAbsent | src/fetcher.js:71-72 | replacing an absent pattern changes nothing |
| Text.TrimCut | scripts/daily-collect.js:92 | `trim` removes only whitespace, from both ends, and leaves a slice of the input |
| Text.TrimUntrimmed | src/fetcher.js:75 | text without whitespace at either end is unchanged by `trim` |
| Text.DigitRun | scripts/daily-collect.js:80 | greedy `\d+`: the longest prefix of digits |
| DailyCollect.LeftmostSpec | scripts/daily-collect.js:80-84 | `match` returns the match at the first position where the pattern matches, or none when it matches nowhere |
| DailyCollect.TotalAt | scripts/daily-collect.js:80 | a match of `总计:\s*(\d+)\s*篇文章` captures a non-empty run of digits |
| DailyCollect.TotalArticlesSpec | scripts/daily-collect.js:80-81 | totalArticles is the decimal value of the leftmost match's digits, or 0 when there is no match |
| DailyCollect.TotalExample | scripts/daily-collect.js:80 | "总计: 42 篇文章" matches with capture "42" |
| DailyCollect.DateAt | scripts/daily-collect.js:84 | a captured date has the shape YYYY/M/D: four digits, '/', a one- or two-digit month, '/', a one- or two-digit day, 8 to 10 characters in all |
| DailyCollect.DateOf | scripts/daily-collect.js:84-85 | with no `生成时间:` match, the fallback date is used |
| DailyCollect.DateSpec | scripts/daily-collect.js:84-85 | the date is the leftmost match's capture, or the fallback when nothing matches |
| DailyCollect.HeadingAt | scripts/daily-collect.js:89 | a `### N.` heading match ends after its start and captures a non-empty text with no line terminator |
| DailyCollect.MatchAllFrom | scripts/daily-collect.js:89-90 | `matchAll` yields the capture at the first matching position, then continues after that match; it yields nothing exactly when no position matches |
| DailyCollect.MatchAllSource | scripts/daily-collect.js:89-90 | every capture `matchAll` yields comes from a match at some position |
| DailyCollect.FirstHeading | scripts/daily-collect.js:89-90 | the first heading capture comes from the leftmost heading match, and the rest come from after it |
| DailyCollect.HeadingsAreLines | scripts/daily-collect.js:89 | every heading capture is non-empty and stays on one line |
| DailyCollect.HeadingExample | scripts/daily-collect.js:89 | in "### 1.\nAB", `\s*` crosses the newline and the capture is "AB" |
| DailyCollect.Top5Titles | scripts/daily-collect.js:88-94 | at most five titles, namely the first min(5, n) captures trimmed, in document order |
| DailyCollect.ExtractSummary | scripts/daily-collect.js:78-111 | the summary holds the total, the date, up to five trimmed heading captures in document order, and the fixed category list |
| DailyCollect.SummaryCategoriesReorderConfig | scripts/daily-collect.js:100-109 | the fixed list holds the eight configured categories, with '行业动态' and '技术教程' exchanged, so it differs from the configured order |

## Left out

- Network access and XML parsing are left out.
  - `fetch` and fast-xml-parser are a network call and a foreign library.
  - The outcome of one fetch is the `Fetcher.FetchOutcome` value, and in `FetchAll` the fetch is a function parameter.
  - The parsed document is the `Fetcher.Feed` record.
- Non-string parsed values are left out. An item field that the parser yields as a number or an object is not modelled: fields are optional strings.
- Date parsing is left out. `new Date(item.pubDate)` is taken to yield a valid integer timestamp, and the NaN path is not modelled.
  - With NaN, the comparator of a sort is inconsistent, and the recency comparisons of `calculateImportance` are all false.
- Clock reads are parameters. Each `new Date()` is the parameter `now`, and the default date of `extractSummary` is the parameter `fallbackDate`.
  - `processArticles` reads the clock separately for `importance` and `processedAt`. The model uses one `now` for both.
- Case and length are simplified.
  - `toLowerCase` is modelled for ASCII letters only.
  - String length counts characters rather than UTF-16 code units, which matters for `substring(0, 200)` on characters outside the Basic Multilingual Plane.
- `parseInt` is modelled as an unbounded decimal value, with no loss of precision for very long digit runs.
- Keyword patterns are taken as literal words. `new RegExp(word)` is modelled as literal, non-overlapping substring counting, which is exact for the configured keywords (`Config.KeywordsAreLiteral`).
  - A table whose keywords hold metacharacters is not modelled.
  - A table with repeated category labels is not modelled: a JavaScript object would merge them.
- Some object-key behaviour is not modelled.
  - Plain objects are modelled as insertion-ordered dictionaries. JavaScript's numeric-first order for array-index keys is not modelled, nor are keys that name Object.prototype members: `!g[k]` would be false for those.
  - `Config.ConfiguredKeysArePlain` shows that the configured names and labels are neither.
  - Source names come from the configured sources (`Fetcher.FetchSource`). Category names come from the keyword table, or are '其他'.
- The sort is modelled on values. `Array.prototype.sort` sorts in place, and the rebuilt digest object shares its arrays with the sorted entries. The model works on values, so this aliasing is not represented.
- Output and side effects are left out: `printSummary`, all console output, src/mailer.js, src/index.js, scripts/send-email.js, scripts/send-feishu.js and the `main` functions (file I/O, e-mail, shell commands).
- Classifier.Importance: its own contract states only the range [5, 10]. The exact value is the defining function, and it is pinned down by `Classifier.RecencyBonusIsDaysSince`, `Classifier.KeywordHits`, `Classifier.RoundHalfPoints`, the monotonicity lemma and the worked examples.
- Classifier.Process: its contract does not restate that the category, summary and importance fields are `Category`, `GenerateSummary` and `Importance` of the article. The definition makes them exactly those.
