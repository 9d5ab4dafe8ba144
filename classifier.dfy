/**
 * src/classifier.js: keyword classification, the summary, the importance
 * score, the per-article mapping and the grouping by category.
 *
 * The keyword table is a parameter (the entries of the `keywords` object, in
 * declaration order); `Config.Keywords` is the configured one. The clock read
 * by `calculateImportance` and `processArticles` is the parameter `now`, in
 * milliseconds like `pubDate`.
 */
module Classifier {
  import opened Wrappers
  import opened Seqs
  import opened Text
  import opened Config
  import opened Grouping
  import opened Fetcher

  /** The label given when no keyword occurs. */
  const Other: string := "其他"

  // ---------------------------------------------------------------- classify

  /** One entry of `Object.entries(scores)`. */
  datatype ScoreEntry = ScoreEntry(category: string, score: nat)

  function ScoreKey(e: ScoreEntry): int { e.score }

  /** `words.reduce(...)`: the number of matches of each lowercased word in `text`, added up. */
  function WordsScore(text: string, words: seq<string>): nat
  {
    if words == [] then 0
    else WordsScore(text, words[..|words| - 1]) + MatchCount(text, Lower(words[|words| - 1]))
  }

  /** The text `classify` searches: title, a space, description, lowercased. */
  function ClassifyText(title: string, description: string): (t: string)
    ensures |t| == |title| + 1 + |description|
    ensures t[..|title|] == Lower(title) && t[|title|] == ' ' && t[|title| + 1..] == Lower(description)
  {
    Lower(title + " " + description)
  }

  /** The score of every category of the table, in table order. */
  function Scores(table: seq<KeywordEntry>, text: string): (r: seq<ScoreEntry>)
    ensures |r| == |table|
    ensures forall i :: 0 <= i < |r| ==> r[i].category == table[i].category
  {
    seq(|table|, i requires 0 <= i < |table| => ScoreEntry(table[i].category, WordsScore(text, table[i].words)))
  }

  /**
   * What `classify` returns: the head of the score entries stably sorted by
   * score, highest first, when that score is positive; `'其他'` otherwise.
   */
  function Category(table: seq<KeywordEntry>, title: string, description: string): string
  {
    var entries := Scores(table, ClassifyText(title, description));
    var sorted := StableSortDesc(entries, ScoreKey);
    if sorted != [] && sorted[0].score > 0 then sorted[0].category else Other
  }

  /** `classify(article)` */
  method Classify(table: seq<KeywordEntry>, title: string, description: string) returns (category: string)
    ensures category == Category(table, title, description)
  {
    var text := ClassifyText(title, description);
    var scores: seq<ScoreEntry> := [];
    var i := 0;
    while i < |table|
      invariant 0 <= i <= |table|
      invariant scores == Scores(table[..i], text)
    {
      scores := scores + [ScoreEntry(table[i].category, WordsScore(text, table[i].words))];
      i := i + 1;
    }
    assert table[..i] == table;
    var sorted := StableSortDesc(scores, ScoreKey);
    if |sorted| > 0 && sorted[0].score > 0 {
      category := sorted[0].category;
    } else {
      category := Other;
    }
  }

  /** A category scores 0 exactly when none of its lowercased words occurs in the text. */
  lemma {:induction false} WordsScoreZeroIff(text: string, words: seq<string>)
    ensures WordsScore(text, words) == 0 <==> forall w :: w in words ==> !Contains(text, Lower(w))
  {
    if words != [] {
      var p, w := words[..|words| - 1], words[|words| - 1];
      WordsScoreZeroIff(text, p);
      assert words == p + [w];
      if Lower(w) == [] {
        assert StartsWith(text, Lower(w));
      } else {
        CountZeroIff(text, Lower(w));
      }
    }
  }

  /**
   * When some category scores above 0, `classify` returns a category of maximum
   * score, and every category declared before it scores strictly less.
   */
  lemma ClassifyIsFirstMax(table: seq<KeywordEntry>, title: string, description: string) returns (i: nat)
    requires exists j :: 0 <= j < |table| && Scores(table, ClassifyText(title, description))[j].score > 0
    ensures var sc := Scores(table, ClassifyText(title, description));
      && i < |table| && Category(table, title, description) == table[i].category
      && sc[i].score > 0
      && (forall j :: 0 <= j < |table| ==> sc[j].score <= sc[i].score)
      && (forall j :: 0 <= j < i ==> sc[j].score < sc[i].score)
  {
    var sc := Scores(table, ClassifyText(title, description));
    i := SortHeadIsFirstMax(sc, ScoreKey);
  }

  /** When every category scores 0 (or the table is empty), `classify` returns `'其他'`. */
  lemma ClassifyAllZero(table: seq<KeywordEntry>, title: string, description: string)
    requires forall j :: 0 <= j < |table| ==> Scores(table, ClassifyText(title, description))[j].score == 0
    ensures Category(table, title, description) == Other
  {
    var sc := Scores(table, ClassifyText(title, description));
    if sc != [] {
      var i := SortHeadIsFirstMax(sc, ScoreKey);
    }
  }

  /**
   * With the configured table, `classify` returns `'其他'` exactly when no
   * keyword occurs; otherwise it returns one of the configured labels.
   */
  lemma ConfiguredClassify(title: string, description: string)
    ensures var text := ClassifyText(title, description);
      Category(Keywords, title, description) == Other
      <==> forall e, w :: e in Keywords && w in e.words ==> !Contains(text, Lower(w))
    ensures Category(Keywords, title, description) == Other || Category(Keywords, title, description) in Categories
  {
    KeywordTableFollowsCategories();
    assert Other !in Categories;
    var i := ClassifyOtherIff(Keywords, title, description);
  }

  /**
   * For a table none of whose labels is `'其他'`: `classify` returns `'其他'`
   * exactly when no keyword occurs, and otherwise the label of entry `i`.
   */
  lemma ClassifyOtherIff(table: seq<KeywordEntry>, title: string, description: string) returns (i: nat)
    requires forall j :: 0 <= j < |table| ==> table[j].category != Other
    ensures var text := ClassifyText(title, description);
      Category(table, title, description) == Other
      <==> forall e, w :: e in table && w in e.words ==> !Contains(text, Lower(w))
    ensures Category(table, title, description) != Other ==> i < |table| && Category(table, title, description) == table[i].category
  {
    var text := ClassifyText(title, description);
    var sc := Scores(table, text);
    forall j | 0 <= j < |table| ensures sc[j].score == 0 <==> forall w :: w in table[j].words ==> !Contains(text, Lower(w)) {
      WordsScoreZeroIff(text, table[j].words);
    }
    if exists j :: 0 <= j < |table| && sc[j].score > 0 {
      i := ClassifyIsFirstMax(table, title, description);
      var w :| w in table[i].words && Contains(text, Lower(w));
    } else {
      i := 0;
      ClassifyAllZero(table, title, description);
      forall e, w | e in table && w in e.words ensures !Contains(text, Lower(w)) {
        var j :| 0 <= j < |table| && table[j] == e;
      }
    }
  }

  // ---------------------------------------------------------------- generateSummary

  const SummaryLength: nat := 200

  /** `generateSummary`: the description, cut to its first 200 characters plus `'...'` when longer. */
  function GenerateSummary(description: Option<string>): (r: string)
    ensures !Truthy(description) ==> r == ""
    ensures Truthy(description) && |description.value| <= SummaryLength ==> r == description.value
    ensures Truthy(description) && |description.value| > SummaryLength ==>
      |r| == SummaryLength + 3 && r[..SummaryLength] == description.value[..SummaryLength] && r[SummaryLength..] == "..."
    ensures |r| <= SummaryLength + 3
  {
    var content := if Truthy(description) then description.value else "";
    if |content| > SummaryLength then content[..SummaryLength] + "..." else content
  }

  /** Summarising a summary changes nothing. */
  lemma SummaryIdempotent(description: Option<string>)
    ensures GenerateSummary(Some(GenerateSummary(description))) == GenerateSummary(description)
  {
    var r := GenerateSummary(description);
    if |r| > SummaryLength {
      assert r == r[..SummaryLength] + "...";
    }
  }

  // ---------------------------------------------------------------- calculateImportance

  /** The title words that raise the importance, in source order. */
  const ImportantKeywords: seq<string> := ["breakthrough", "release", "launch", "major", "new", "AI"]

  /** The recency bonus for an article `age` milliseconds old: under a day 2, under three days 1. */
  function RecencyBonus(age: int): (b: nat)
    ensures b <= 2
    ensures age < DayMs ==> b == 2
    ensures DayMs <= age < 3 * DayMs ==> b == 1
    ensures 3 * DayMs <= age ==> b == 0
  {
    if age < DayMs then 2 else if age < 3 * DayMs then 1 else 0
  }

  /**
   * The integer thresholds of `RecencyBonus` are the source's comparisons of
   * `daysSince`, the age divided by the milliseconds of a day as a real number,
   * with 1 and 3.
   */
  lemma RecencyBonusIsDaysSince(now: int, pubDate: int)
    ensures var daysSince := ((now - pubDate) as real) / (DayMs as real);
      RecencyBonus(now - pubDate) == if daysSince < 1.0 then 2 else if daysSince < 3.0 then 1 else 0
  {
  }

  /** The number of words of `kws` that `t` contains, each counted once. */
  function KeywordHits(t: string, kws: seq<string>): (n: nat)
    ensures n <= |kws|
  {
    if kws == [] then 0
    else KeywordHits(t, kws[..|kws| - 1]) + (if Contains(t, Lower(kws[|kws| - 1])) then 1 else 0)
  }

  /** The unrounded score in half-points: base 5, priority 2, recency 2 or 1, each keyword found 0.5. */
  function ImportanceHalfPoints(priority: string, pubDate: int, title: string, now: int): nat
  {
    10 + (if priority == "high" then 4 else 0) + 2 * RecencyBonus(now - pubDate) + KeywordHits(Lower(title), ImportantKeywords)
  }

  /** `Math.min(Math.round(score), 10)`, with the score given in half-points. */
  function Importance(priority: string, pubDate: int, title: string, now: int): (r: int)
    ensures 5 <= r <= 10
  {
    var half := ImportanceHalfPoints(priority, pubDate, title, now);
    var rounded := (half + 1) / 2;
    if rounded < 10 then rounded else 10
  }

  /** `calculateImportance(article)` at time `now`, the score kept in half-points. */
  method CalculateImportance(priority: string, pubDate: int, title: string, now: int) returns (importance: int)
    ensures importance == Importance(priority, pubDate, title, now)
    ensures 5 <= importance <= 10
  {
    var half := 10;
    if priority == "high" {
      half := half + 4;
    }
    var age := now - pubDate;
    if age < DayMs {
      half := half + 4;
    } else if age < 3 * DayMs {
      half := half + 2;
    }
    var t := Lower(title);
    var base := half;
    assert base == 10 + (if priority == "high" then 4 else 0) + 2 * RecencyBonus(now - pubDate);
    var i := 0;
    while i < |ImportantKeywords|
      invariant 0 <= i <= |ImportantKeywords|
      invariant half == base + KeywordHits(t, ImportantKeywords[..i])
    {
      assert ImportantKeywords[..i + 1][..i] == ImportantKeywords[..i];
      if Contains(t, Lower(ImportantKeywords[i])) {
        half := half + 1;
      }
      i := i + 1;
    }
    assert ImportantKeywords[..i] == ImportantKeywords;
    assert half == ImportanceHalfPoints(priority, pubDate, title, now);
    var rounded := (half + 1) / 2;
    importance := if rounded < 10 then rounded else 10;
  }

  /** `Math.round` of a half-integer rounds up: in half-points it is `(h + 1) / 2`. */
  lemma RoundHalfPoints(h: nat)
    ensures (h + 1) / 2 == ((h as real) / 2.0 + 0.5).Floor
  {
    var q := (h + 1) / 2;
    assert (h as real) / 2.0 + 0.5 == ((h + 1) as real) / 2.0;
    if (h + 1) % 2 == 0 {
      assert (h + 1) == 2 * q;
      assert ((h + 1) as real) / 2.0 == q as real;
    } else {
      assert (h + 1) == 2 * q + 1;
      assert ((h + 1) as real) / 2.0 == q as real + 0.5;
    }
  }

  /** How often a keyword occurs does not matter, only whether it does. */
  lemma {:induction false} HitsDependOnPresence(t: string, t': string, kws: seq<string>)
    requires forall w :: w in kws ==> (Contains(t, Lower(w)) <==> Contains(t', Lower(w)))
    ensures KeywordHits(t, kws) == KeywordHits(t', kws)
  {
    if kws != [] {
      assert forall w :: w in kws[..|kws| - 1] ==> w in kws;
      HitsDependOnPresence(t, t', kws[..|kws| - 1]);
    }
  }

  /** An older article is never more important than a newer one with the same title and priority. */
  lemma ImportanceMonotoneInAge(priority: string, older: int, newer: int, title: string, now: int)
    requires older <= newer
    ensures Importance(priority, older, title, now) <= Importance(priority, newer, title, now)
  {
  }

  /** A title containing none of the words has no hits; one containing any of them has at least one. */
  lemma {:induction false} HitsBounds(t: string, kws: seq<string>)
    ensures (forall w :: w in kws ==> !Contains(t, Lower(w))) <==> KeywordHits(t, kws) == 0
  {
    if kws != [] {
      assert forall w :: w in kws <==> w in kws[..|kws| - 1] || w == kws[|kws| - 1];
      HitsBounds(t, kws[..|kws| - 1]);
    }
  }

  /** Without an important keyword, a high-priority article of today scores 5 + 2 + 2. */
  lemma ImportanceWithoutKeywords(now: int)
    ensures Importance("high", now, "gpu specs", now) == 9
  {
    var t := Lower("gpu specs");
    assert t == "gpu specs";
    forall w | w in ImportantKeywords ensures !Contains(t, Lower(w)) {
      AbsentHeadNotContained(t, Lower(w));
    }
    HitsBounds(t, ImportantKeywords);
  }

  /** One important keyword lifts 9 to 9.5, which rounds up to the cap. */
  lemma ImportanceOneKeyword(now: int)
    ensures Importance("high", now, "Major models", now) == 10
  {
    var u := Lower("Major models");
    assert u == "major models";
    assert Lower(ImportantKeywords[3]) == "major";
    assert StartsWith(u, "major");
    HitsBounds(u, ImportantKeywords);
  }

  /** An old article of another priority with no keyword keeps the base score. */
  lemma ImportanceBase(now: int)
    ensures Importance("low", now - 5 * DayMs, "x", now) == 5
  {
    var v := Lower("x");
    assert v == "x";
    forall w | w in ImportantKeywords ensures !Contains(v, Lower(w)) {
      AbsentHeadNotContained(v, Lower(w));
    }
    HitsBounds(v, ImportantKeywords);
  }

  // ---------------------------------------------------------------- processArticles, groupByCategory

  /** An article with the fields `processArticles` adds. */
  datatype ProcessedArticle = ProcessedArticle(
    article: Article,
    category: string,
    summary: string,
    importance: int,
    processedAt: int)

  function CategoryKey(p: ProcessedArticle): string { p.category }

  /** The record `processArticles` makes of one article at time `now`. */
  function Process(table: seq<KeywordEntry>, a: Article, now: int): (p: ProcessedArticle)
    ensures p.article == a && p.processedAt == now
    ensures 5 <= p.importance <= 10 && |p.summary| <= SummaryLength + 3
  {
    ProcessedArticle(
      a,
      Category(table, a.title, a.description),
      GenerateSummary(Some(a.description)),
      Importance(a.priority, a.pubDate, a.title, now),
      now)
  }

  /** `processArticles(articles)`: one record per article, in order. */
  function ProcessArticles(table: seq<KeywordEntry>, articles: seq<Article>, now: int): (r: seq<ProcessedArticle>)
    ensures |r| == |articles|
    ensures forall i :: 0 <= i < |r| ==> r[i] == Process(table, articles[i], now)
  {
    seq(|articles|, i requires 0 <= i < |articles| => Process(table, articles[i], now))
  }

  /** Processing works article by article: it distributes over concatenation. */
  lemma ProcessConcat(table: seq<KeywordEntry>, a: seq<Article>, b: seq<Article>, now: int)
    ensures ProcessArticles(table, a + b, now) == ProcessArticles(table, a, now) + ProcessArticles(table, b, now)
  {
  }

  /**
   * `groupByCategory`: one bucket per category in order of first occurrence,
   * each with its articles in input order; every article is in the bucket of
   * its own category as often as in the input, and the sizes add up.
   */
  method GroupByCategory(ps: seq<ProcessedArticle>) returns (groups: Dict<seq<ProcessedArticle>>)
    ensures Valid(groups)
    ensures groups.keys == KeyOrder(ps, CategoryKey)
    ensures forall c :: c in groups.values ==> groups.values[c] == Select(ps, CategoryKey, c)
    ensures forall c :: c in groups.values ==> |groups.values[c]| > 0
    ensures forall p :: p in ps ==> p.category in groups.values && multiset(groups.values[p.category])[p] == multiset(ps)[p]
    ensures GroupSizes(ps, CategoryKey, groups.keys) == |ps|
  {
    groups := GroupBy(ps, CategoryKey);
    forall c | c in groups.values ensures |groups.values[c]| > 0 {
      GroupNonEmpty(ps, CategoryKey, c);
    }
    forall p | p in ps ensures p.category in groups.values && multiset(groups.values[p.category])[p] == multiset(ps)[p] {
      SelectCount(ps, CategoryKey, p.category, p);
    }
    GroupSizesSum(ps, CategoryKey);
  }
}
