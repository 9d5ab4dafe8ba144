/**
 * The digest engine of src/daily-digest.js: keep the articles of the last 24
 * hours, bucket them by source, sort each bucket newest first and note its
 * latest time, sort the buckets by that time, newest first, and rebuild the
 * object in that order.
 */
module Digest {
  import opened Wrappers
  import opened Seqs
  import opened Grouping
  import opened Fetcher

  /** One entry of `sourceEntries`. */
  datatype SourceGroup = SourceGroup(name: string, articles: seq<Article>, latestTime: int)

  function LatestKey(g: SourceGroup): int { g.latestTime }

  function IsRecentKey(now: int): Article -> bool
  {
    (a: Article) => a.pubDate >= now - DayMs
  }

  /** `allArticles.filter(...)`: the articles published at most a day before `now`, in input order. */
  function Recent(all: seq<Article>, now: int): seq<Article>
  {
    Select(all, IsRecentKey(now), true)
  }

  /**
   * The filter keeps exactly the articles with `pubDate >= now - 86400000`,
   * each as often as it occurs in the input.
   */
  lemma RecentKeepsExactly(all: seq<Article>, now: int, a: Article)
    ensures multiset(Recent(all, now))[a] == if a.pubDate >= now - DayMs then multiset(all)[a] else 0
    ensures a in Recent(all, now) <==> a in all && a.pubDate >= now - DayMs
  {
    SelectCount(all, IsRecentKey(now), true, a);
  }

  /** The filter keeps input order: it commutes with concatenation. */
  lemma RecentConcat(a: seq<Article>, b: seq<Article>, now: int)
    ensures Recent(a + b, now) == Recent(a, now) + Recent(b, now)
  {
    SelectConcat(a, b, IsRecentKey(now), true);
  }

  /** The entry for one bucket: its articles newest first, and the time of the first. */
  function MakeGroup(name: string, bucket: seq<Article>): SourceGroup
    requires bucket != []
  {
    var sorted := StableSortDesc(bucket, PubDateKey);
    SourceGroup(name, sorted, sorted[0].pubDate)
  }

  /** `sourceEntries` before the sort: one entry per key of `ks`, in that order. */
  function Entries(recent: seq<Article>, ks: seq<string>): (es: seq<SourceGroup>)
    requires forall k :: k in ks ==> k in KeyOrder(recent, SourceKey)
    ensures |es| == |ks|
  {
    if ks == [] then []
    else
      var k := ks[|ks| - 1];
      GroupNonEmpty(recent, SourceKey, k);
      Entries(recent, ks[..|ks| - 1]) + [MakeGroup(k, Select(recent, SourceKey, k))]
  }

  /** The digest: the entries of the recent articles' sources, stably sorted by latest time, newest first. */
  function DigestGroups(all: seq<Article>, now: int): seq<SourceGroup>
  {
    var recent := Recent(all, now);
    StableSortDesc(Entries(recent, KeyOrder(recent, SourceKey)), LatestKey)
  }

  function Names(gs: seq<SourceGroup>): (ns: seq<string>)
    ensures |ns| == |gs| && forall i :: 0 <= i < |gs| ==> ns[i] == gs[i].name
  {
    seq(|gs|, i requires 0 <= i < |gs| => gs[i].name)
  }

  /** `main`'s steps 2 to 6: returns `sourceEntries` after its sort and the rebuilt `sortedGroupedBySource`. */
  method BuildDigest(all: seq<Article>, now: int) returns (groups: seq<SourceGroup>, rebuilt: Dict<seq<Article>>)
    ensures groups == DigestGroups(all, now)
    ensures Valid(rebuilt) && rebuilt.keys == Names(groups)
    ensures forall i :: 0 <= i < |groups| ==> rebuilt.values[groups[i].name] == groups[i].articles
  {
    var recent := Recent(all, now);
    var grouped := GroupBy(recent, SourceKey);
    var entries := SourceEntries(recent, grouped);
    groups := StableSortDesc(entries, LatestKey);
    NamesDistinct(all, now);
    rebuilt := Rebuild(groups);
  }

  /** Steps 4 and 5 up to the sort: for each bucket in key order, its articles newest first and its latest time. */
  method SourceEntries(recent: seq<Article>, grouped: Dict<seq<Article>>) returns (entries: seq<SourceGroup>)
    requires Valid(grouped) && grouped.keys == KeyOrder(recent, SourceKey)
    requires forall k :: k in grouped.values ==> grouped.values[k] == Select(recent, SourceKey, k)
    ensures entries == Entries(recent, grouped.keys)
  {
    entries := [];
    var ks := grouped.keys;
    var i := 0;
    while i < |ks|
      invariant 0 <= i <= |ks|
      invariant entries == Entries(recent, ks[..i])
    {
      var name := ks[i];
      assert name in grouped.values;
      var bucket := grouped.values[name];
      assert bucket == Select(recent, SourceKey, name);
      GroupNonEmpty(recent, SourceKey, name);
      var sorted := StableSortDesc(bucket, PubDateKey);
      ghost var next := ks[..i + 1];
      assert next[..i] == ks[..i] && next[i] == name;
      assert Entries(recent, next) == Entries(recent, ks[..i]) + [MakeGroup(name, bucket)];
      entries := entries + [SourceGroup(name, sorted, sorted[0].pubDate)];
      i := i + 1;
    }
    assert ks[..i] == ks;
  }

  /** Step 6: an object keyed by group name, filled in group order. */
  method Rebuild(groups: seq<SourceGroup>) returns (rebuilt: Dict<seq<Article>>)
    requires Distinct(Names(groups))
    ensures Valid(rebuilt) && rebuilt.keys == Names(groups)
    ensures forall i :: 0 <= i < |groups| ==> rebuilt.values[groups[i].name] == groups[i].articles
  {
    rebuilt := EmptyDict();
    var j := 0;
    while j < |groups|
      invariant 0 <= j <= |groups|
      invariant Valid(rebuilt) && rebuilt.keys == Names(groups[..j])
      invariant forall m :: 0 <= m < j ==> rebuilt.values[groups[m].name] == groups[m].articles
    {
      var g := groups[j];
      assert g.name !in rebuilt.keys;
      rebuilt := Put(rebuilt, g.name, g.articles);
      assert Names(groups[..j + 1]) == Names(groups[..j]) + [g.name];
      j := j + 1;
    }
    assert groups[..j] == groups;
  }

  // ---------------------------------------------------------------- the entries

  /** The entry at position `i` is the bucket of the `i`-th key, sorted, with the time of its first article. */
  lemma {:induction false} EntryAt(recent: seq<Article>, ks: seq<string>, i: nat)
    requires forall k :: k in ks ==> k in KeyOrder(recent, SourceKey)
    requires i < |ks|
    ensures var e := Entries(recent, ks)[i];
      && e.name == ks[i]
      && e.articles == StableSortDesc(Select(recent, SourceKey, ks[i]), PubDateKey)
      && e.articles != []
      && e.latestTime == e.articles[0].pubDate
  {
    var ks' := ks[..|ks| - 1];
    GroupNonEmpty(recent, SourceKey, ks[|ks| - 1]);
    if i < |ks| - 1 {
      EntryAt(recent, ks', i);
    }
  }

  /** Every unsorted entry is one of the buckets, as `MakeGroup` makes it. */
  lemma EntryFacts(recent: seq<Article>, g: SourceGroup)
    requires g in Entries(recent, KeyOrder(recent, SourceKey))
    ensures g.name in KeyOrder(recent, SourceKey)
    ensures g.articles == StableSortDesc(Select(recent, SourceKey, g.name), PubDateKey)
    ensures g.articles != [] && g.latestTime == g.articles[0].pubDate
  {
    var es := Entries(recent, KeyOrder(recent, SourceKey));
    var i :| 0 <= i < |es| && es[i] == g;
    EntryAt(recent, KeyOrder(recent, SourceKey), i);
  }

  /** Each digest group is one of the entries. */
  lemma GroupIsEntry(all: seq<Article>, now: int, g: SourceGroup)
    requires g in DigestGroups(all, now)
    ensures g in Entries(Recent(all, now), KeyOrder(Recent(all, now), SourceKey))
  {
    var recent := Recent(all, now);
    var es := Entries(recent, KeyOrder(recent, SourceKey));
    SortPermutes(es, LatestKey);
    assert g in multiset(DigestGroups(all, now));
  }

  lemma InsertNames(x: SourceGroup, s: seq<SourceGroup>)
    requires Distinct(Names(s)) && x.name !in Names(s)
    ensures Distinct(Names(Insert(x, s, LatestKey)))
    ensures forall n :: n in Names(Insert(x, s, LatestKey)) <==> n in Names(s) || n == x.name
  {
    InsertNameSet(x, s);
    InsertNamesDistinct(x, s);
  }

  lemma NamesCons(g: SourceGroup, gs: seq<SourceGroup>)
    ensures Names([g] + gs) == [g.name] + Names(gs)
  {
  }

  lemma {:induction false} InsertNameSet(x: SourceGroup, s: seq<SourceGroup>)
    ensures forall n :: n in Names(Insert(x, s, LatestKey)) <==> n in Names(s) || n == x.name
  {
    if s == [] || LatestKey(x) > LatestKey(s[0]) {
      NamesCons(x, s);
    } else {
      InsertNameSet(x, s[1..]);
      NamesCons(s[0], Insert(x, s[1..], LatestKey));
      NamesCons(s[0], s[1..]);
      assert s == [s[0]] + s[1..];
    }
  }

  lemma {:induction false} InsertNamesDistinct(x: SourceGroup, s: seq<SourceGroup>)
    requires Distinct(Names(s)) && x.name !in Names(s)
    ensures Distinct(Names(Insert(x, s, LatestKey)))
  {
    if s == [] || LatestKey(x) > LatestKey(s[0]) {
      NamesCons(x, s);
      ConsDistinct(x.name, Names(s));
    } else {
      var t := Insert(x, s[1..], LatestKey);
      assert s == [s[0]] + s[1..];
      NamesCons(s[0], s[1..]);
      InsertNamesDistinct(x, s[1..]);
      InsertNameSet(x, s[1..]);
      NamesCons(s[0], t);
      ConsDistinct(s[0].name, Names(t));
    }
  }

  /** A new key in front of distinct keys keeps them distinct. */
  lemma ConsDistinct(n: string, ns: seq<string>)
    requires Distinct(ns) && n !in ns
    ensures Distinct([n] + ns)
  {
    forall a, b | 0 <= a < b < |[n] + ns| ensures ([n] + ns)[a] != ([n] + ns)[b] {
      assert ([n] + ns)[b] == ns[b - 1];
    }
  }

  /** Sorting groups with distinct names keeps their names distinct and the same. */
  lemma {:induction false} SortKeepsNames(s: seq<SourceGroup>)
    requires Distinct(Names(s))
    ensures Distinct(Names(StableSortDesc(s, LatestKey)))
    ensures forall n :: n in Names(StableSortDesc(s, LatestKey)) <==> n in Names(s)
  {
    if s != [] {
      var p, x := s[..|s| - 1], s[|s| - 1];
      assert Names(s) == Names(p) + [x.name];
      assert Distinct(Names(p));
      SortKeepsNames(p);
      InsertNames(x, StableSortDesc(p, LatestKey));
    }
  }

  /** The digest names each source once. */
  lemma NamesDistinct(all: seq<Article>, now: int)
    ensures Distinct(Names(DigestGroups(all, now)))
    ensures forall n :: n in Names(DigestGroups(all, now)) <==> n in KeyOrder(Recent(all, now), SourceKey)
  {
    var recent := Recent(all, now);
    var ks := KeyOrder(recent, SourceKey);
    var es := Entries(recent, ks);
    forall i | 0 <= i < |ks| ensures Names(es)[i] == ks[i] {
      EntryAt(recent, ks, i);
    }
    assert Names(es) == ks;
    SortKeepsNames(es);
  }

  // ---------------------------------------------------------------- sizes

  /** The number of articles in `gs`. */
  function TotalSize(gs: seq<SourceGroup>): nat
  {
    if gs == [] then 0 else |gs[0].articles| + TotalSize(gs[1..])
  }

  lemma {:induction false} TotalSizeAppend(gs: seq<SourceGroup>, g: SourceGroup)
    ensures TotalSize(gs + [g]) == TotalSize(gs) + |g.articles|
  {
    if gs != [] {
      assert (gs + [g])[1..] == gs[1..] + [g];
      TotalSizeAppend(gs[1..], g);
    }
  }

  lemma {:induction false} TotalSizeInsert(x: SourceGroup, s: seq<SourceGroup>)
    ensures TotalSize(Insert(x, s, LatestKey)) == TotalSize(s) + |x.articles|
  {
    if s != [] && LatestKey(x) <= LatestKey(s[0]) {
      TotalSizeInsert(x, s[1..]);
      assert Insert(x, s, LatestKey)[1..] == Insert(x, s[1..], LatestKey);
    }
  }

  lemma {:induction false} TotalSizeSort(s: seq<SourceGroup>)
    ensures TotalSize(StableSortDesc(s, LatestKey)) == TotalSize(s)
  {
    if s != [] {
      var p, x := s[..|s| - 1], s[|s| - 1];
      TotalSizeSort(p);
      TotalSizeInsert(x, StableSortDesc(p, LatestKey));
      assert s == p + [x];
      TotalSizeAppend(p, x);
    }
  }

  lemma {:induction false} TotalSizeEntries(recent: seq<Article>, ks: seq<string>)
    requires forall k :: k in ks ==> k in KeyOrder(recent, SourceKey)
    ensures TotalSize(Entries(recent, ks)) == GroupSizes(recent, SourceKey, ks)
  {
    if ks != [] {
      var k := ks[|ks| - 1];
      TotalSizeEntries(recent, ks[..|ks| - 1]);
      GroupNonEmpty(recent, SourceKey, k);
      TotalSizeAppend(Entries(recent, ks[..|ks| - 1]), MakeGroup(k, Select(recent, SourceKey, k)));
    }
  }

  /** The group sizes add up to the number of recent articles. */
  lemma SizesSum(all: seq<Article>, now: int)
    ensures TotalSize(DigestGroups(all, now)) == |Recent(all, now)|
  {
    var recent := Recent(all, now);
    var ks := KeyOrder(recent, SourceKey);
    TotalSizeSort(Entries(recent, ks));
    TotalSizeEntries(recent, ks);
    GroupSizesSum(recent, SourceKey);
  }

  // ---------------------------------------------------------------- the promised properties

  /** The groups are ordered newest first by latest time. */
  lemma GroupsSortedByLatest(all: seq<Article>, now: int)
    ensures SortedDesc(DigestGroups(all, now), LatestKey)
  {
    var recent := Recent(all, now);
    SortSorted(Entries(recent, KeyOrder(recent, SourceKey)), LatestKey);
  }

  /** Groups with equal latest times keep the order in which their sources first occur among the recent articles. */
  lemma GroupTiesKeepFirstOccurrence(all: seq<Article>, now: int, t: int)
    ensures var recent := Recent(all, now);
      Select(DigestGroups(all, now), LatestKey, t) == Select(Entries(recent, KeyOrder(recent, SourceKey)), LatestKey, t)
  {
    var recent := Recent(all, now);
    SortStable(Entries(recent, KeyOrder(recent, SourceKey)), LatestKey, t);
  }

  /**
   * Each group: its articles are the recent articles of its source, newest
   * first, equal times in input order; none is empty; its latest time is the
   * time of its first article and no article is newer.
   */
  lemma GroupContents(all: seq<Article>, now: int, g: SourceGroup)
    requires g in DigestGroups(all, now)
    ensures var recent := Recent(all, now);
      && multiset(g.articles) == multiset(Select(recent, SourceKey, g.name))
      && SortedDesc(g.articles, PubDateKey)
      && (forall t :: Select(g.articles, PubDateKey, t) == Select(Select(recent, SourceKey, g.name), PubDateKey, t))
      && g.articles != [] && g.latestTime == g.articles[0].pubDate
      && (forall a :: a in g.articles ==> a.pubDate <= g.latestTime)
  {
    var recent := Recent(all, now);
    GroupIsEntry(all, now, g);
    EntryFacts(recent, g);
    var bucket := Select(recent, SourceKey, g.name);
    SortPermutes(bucket, PubDateKey);
    SortSorted(bucket, PubDateKey);
    forall t ensures Select(g.articles, PubDateKey, t) == Select(bucket, PubDateKey, t) {
      SortStable(bucket, PubDateKey, t);
    }
  }

  /** A group holds only recent articles of the source it is named after. */
  lemma GroupMembers(all: seq<Article>, now: int, g: SourceGroup, a: Article)
    requires g in DigestGroups(all, now) && a in g.articles
    ensures a.source == g.name && a in all && a.pubDate >= now - DayMs
  {
    var recent := Recent(all, now);
    GroupContents(all, now, g);
    assert a in multiset(Select(recent, SourceKey, g.name));
    SelectMembers(recent, SourceKey, g.name, a);
    RecentKeepsExactly(all, now, a);
  }

  /** Every recent article is in the group of its source, as often as it is recent. */
  lemma RecentArticleGrouped(all: seq<Article>, now: int, a: Article)
    requires a in Recent(all, now)
    ensures exists i ::
      && 0 <= i < |DigestGroups(all, now)|
      && DigestGroups(all, now)[i].name == a.source
      && multiset(DigestGroups(all, now)[i].articles)[a] == multiset(Recent(all, now))[a]
  {
    var recent := Recent(all, now);
    var gs := DigestGroups(all, now);
    NamesDistinct(all, now);
    assert a.source in KeyOrder(recent, SourceKey);
    assert a.source in Names(gs);
    var i :| 0 <= i < |gs| && Names(gs)[i] == a.source;
    GroupContents(all, now, gs[i]);
    SelectCount(recent, SourceKey, a.source, a);
  }

  /** Without recent articles there are no groups. */
  lemma NoRecentNoGroups(all: seq<Article>, now: int)
    requires forall a :: a in all ==> a.pubDate < now - DayMs
    ensures DigestGroups(all, now) == []
  {
    var recent := Recent(all, now);
    if recent != [] {
      RecentKeepsExactly(all, now, recent[0]);
    }
  }

  function ExampleA1(t: int): Article { Article("a1", None, "", t, None, "A", "", "high", None) }
  function ExampleA2(t: int): Article { Article("a2", None, "", t - 3600000, None, "A", "", "high", None) }
  function ExampleB1(t: int): Article { Article("b1", None, "", t - 1800000, None, "B", "", "high", None) }

  function ExampleInput(t: int): seq<Article> { [ExampleA2(t), ExampleB1(t), ExampleA1(t)] }

  lemma ExampleRecent(t: int)
    ensures Recent(ExampleInput(t), t) == ExampleInput(t)
  {
    var all := ExampleInput(t);
    assert all[..2][..1] == all[..1] && all[..1][..0] == [];
    assert IsRecentKey(t)(all[0]) && IsRecentKey(t)(all[1]) && IsRecentKey(t)(all[2]);
    assert Recent(all[..1], t) == all[..1];
    assert Recent(all[..2], t) == all[..2];
  }

  lemma ExampleKeys(t: int)
    ensures KeyOrder(ExampleInput(t), SourceKey) == ["A", "B"]
  {
    var all := ExampleInput(t);
    assert all[..2][..1] == all[..1] && all[..1][..0] == [];
    assert KeyOrder(all[..1], SourceKey) == ["A"];
    assert KeyOrder(all[..2], SourceKey) == ["A", "B"];
  }

  lemma ExampleBuckets(t: int)
    ensures Select(ExampleInput(t), SourceKey, "A") == [ExampleA2(t), ExampleA1(t)]
    ensures Select(ExampleInput(t), SourceKey, "B") == [ExampleB1(t)]
  {
    var all := ExampleInput(t);
    assert all[..2][..1] == all[..1] && all[..1][..0] == [];
    assert Select(all[..1], SourceKey, "A") == [ExampleA2(t)];
    assert Select(all[..2], SourceKey, "A") == [ExampleA2(t)];
    assert Select(all[..1], SourceKey, "B") == [];
    assert Select(all[..2], SourceKey, "B") == [ExampleB1(t)];
  }

  lemma ExampleGroups(t: int)
    ensures MakeGroup("A", [ExampleA2(t), ExampleA1(t)]) == SourceGroup("A", [ExampleA1(t), ExampleA2(t)], t)
    ensures MakeGroup("B", [ExampleB1(t)]) == SourceGroup("B", [ExampleB1(t)], t - 1800000)
  {
    var selA := [ExampleA2(t), ExampleA1(t)];
    assert selA[..1] == [ExampleA2(t)] && selA[..1][..0] == [];
    assert StableSortDesc(selA[..1], PubDateKey) == [ExampleA2(t)];
    assert StableSortDesc(selA, PubDateKey) == [ExampleA1(t), ExampleA2(t)];
    assert [ExampleB1(t)][..0] == [];
    assert StableSortDesc([ExampleB1(t)], PubDateKey) == [ExampleB1(t)];
  }

  lemma ExampleEntries(t: int)
    ensures Entries(ExampleInput(t), ["A", "B"])
         == [SourceGroup("A", [ExampleA1(t), ExampleA2(t)], t), SourceGroup("B", [ExampleB1(t)], t - 1800000)]
  {
    var all := ExampleInput(t);
    ExampleKeys(t);
    ExampleBuckets(t);
    ExampleGroups(t);
    EntryAt(all, ["A", "B"], 0);
    EntryAt(all, ["A", "B"], 1);
  }

  /**
   * Source A has articles at T and an hour earlier, B one at half an hour
   * earlier: A comes first, with its newer article first.
   */
  lemma DigestExample(t: int)
    ensures DigestGroups(ExampleInput(t), t)
         == [SourceGroup("A", [ExampleA1(t), ExampleA2(t)], t), SourceGroup("B", [ExampleB1(t)], t - 1800000)]
  {
    ExampleRecent(t);
    ExampleKeys(t);
    ExampleEntries(t);
    ExampleOrder(SourceGroup("A", [ExampleA1(t), ExampleA2(t)], t), SourceGroup("B", [ExampleB1(t)], t - 1800000));
  }

  lemma ExampleOrder(gA: SourceGroup, gB: SourceGroup)
    requires gA.latestTime > gB.latestTime
    ensures StableSortDesc([gA, gB], LatestKey) == [gA, gB]
  {
    var es := [gA, gB];
    assert es[..1] == [gA] && es[..1][..0] == [];
    assert StableSortDesc([gA], LatestKey) == [gA];
    assert Insert(gB, [gA], LatestKey) == [gA, gB];
  }
}
