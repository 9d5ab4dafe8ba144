/**
 * src/fetcher.js: the text normaliser `cleanText`, the mapping of a parsed
 * RSS 2.0 channel to article records, the error isolation of `fetchSource`
 * and the concatenate-then-sort of `fetchAll`.
 *
 * The network request and the XML parser are not modelled: a fetch is given as
 * its outcome, and a parsed document as the `Feed` record it yields.
 */
module Fetcher {
  import opened Wrappers
  import opened Seqs
  import opened Text
  import opened Config

  /** An article record as `extractArticles` builds it; `pubDate` in milliseconds since the epoch. */
  datatype Article = Article(
    title: string,
    link: Option<string>,
    description: string,
    pubDate: int,
    author: Option<string>,
    source: string,
    sourceCategory: string,
    priority: string,
    content: Option<string>)

  /** One day in milliseconds. */
  const DayMs: int := 24 * 60 * 60 * 1000

  function PubDateKey(a: Article): int { a.pubDate }

  function SourceKey(a: Article): string { a.source }

  /** An RSS `<item>` as the parser yields it; an absent element is `None`, `pubDate` already a timestamp. */
  datatype Item = Item(
    title: Option<string>,
    link: Option<string>,
    description: Option<string>,
    pubDate: int,
    author: Option<string>,
    contentEncoded: Option<string>)

  /** `channel.item`: absent, a single element (the parser does not wrap it), or a list of elements. */
  datatype ItemField = NoItem | OneItem(item: Item) | ItemList(items: seq<Item>)

  datatype Channel = Channel(title: Option<string>, item: ItemField)

  /** The parsed document, reduced to `rss.channel`: `None` when `rss` or `channel` is missing. */
  datatype Feed = Feed(channel: Option<Channel>)

  /** A string value JavaScript treats as true: present and non-empty. */
  predicate Truthy(o: Option<string>)
  {
    o.Some? && o.value != ""
  }

  /** `a || b` on string values. */
  function OrElse(a: Option<string>, b: Option<string>): (r: Option<string>)
    ensures Truthy(a) ==> r == a
    ensures !Truthy(a) ==> r == b
  {
    if Truthy(a) then a else b
  }

  // ---------------------------------------------------------------- cleanText

  /** The position of the first `c` in `s`. */
  function IndexOf(s: string, c: char): (i: nat)
    requires c in s
    ensures i < |s| && s[i] == c
    ensures forall k :: 0 <= k < i ==> s[k] != c
  {
    if s[0] == c then 0 else 1 + IndexOf(s[1..], c)
  }

  /**
   * `/<[^>]+>/` matches at the front of `s`: a `<`, then at least one character
   * before the first `>` that follows it.
   */
  predicate TagAtFront(s: string)
  {
    |s| > 1 && s[0] == '<' && s[1] != '>' && '>' in s[1..]
  }

  /** No match of `/<[^>]+>/` starts anywhere in `s`. */
  predicate NoTag(s: string)
  {
    forall i :: 0 <= i < |s| ==> !TagAtFront(s[i..])
  }

  /** `s.replace(/<[^>]+>/g, ' ')`: every tag, scanning left to right, becomes one space. */
  function StripTags(s: string): (r: string)
    ensures '>' !in s ==> '>' !in r
    ensures |r| <= |s|
    decreases |s|
  {
    if s == [] then []
    else if TagAtFront(s) then
      var j := 1 + IndexOf(s[1..], '>');
      " " + StripTags(s[j + 1..])
    else [s[0]] + StripTags(s[1..])
  }

  /** `s.replace(/\s+/g, ' ')`: every run of whitespace becomes one space. */
  function CollapseWhitespace(s: string): (r: string)
    ensures '>' !in s ==> '>' !in r
    ensures |r| <= |s|
    decreases |s|
  {
    if s == [] then []
    else if IsWhitespace(s[0]) then " " + CollapseWhitespace(TrimStart(s))
    else [s[0]] + CollapseWhitespace(s[1..])
  }

  /** No two adjacent characters are both whitespace. */
  predicate NoDoubleWhitespace(s: string)
  {
    forall i :: 0 <= i < |s| - 1 ==> !(IsWhitespace(s[i]) && IsWhitespace(s[i + 1]))
  }

  /** The only whitespace character is the plain space. */
  predicate OnlySpaces(s: string)
  {
    forall i :: 0 <= i < |s| ==> IsWhitespace(s[i]) ==> s[i] == ' '
  }

  /**
   * `cleanText`: a missing or empty text gives `''`; otherwise CDATA markers go,
   * tags become spaces, whitespace runs become one space, and the ends are trimmed.
   */
  function CleanText(text: Option<string>): (r: string)
    ensures !Truthy(text) ==> r == ""
    ensures r == [] || (!IsWhitespace(r[0]) && !IsWhitespace(r[|r| - 1]))
    ensures NoDoubleWhitespace(r) && OnlySpaces(r)
    ensures NoTag(r)
  {
    if !Truthy(text) then ""
    else
      var a := ReplaceAll(text.value, "<![CDATA[", "");
      var b := ReplaceAll(a, "]]>", "");
      var c := StripTags(b);
      var d := CollapseWhitespace(c);
      StripTagsNoTag(b);
      CollapseKeepsNoTag(c);
      CollapseSpacing(c);
      TrimKeepsSpacing(d);
      TrimKeepsNoTag(d);
      Trim(d)
  }

  /** The first character of a collapsed text. */
  lemma CollapseHead(s: string)
    requires s != []
    ensures CollapseWhitespace(s) != []
    ensures CollapseWhitespace(s)[0] == if IsWhitespace(s[0]) then ' ' else s[0]
  {
  }

  /** Prepending one character to a text without tags. */
  lemma NoTagCons(c: char, t: string)
    requires NoTag(t) && !TagAtFront([c] + t)
    ensures NoTag([c] + t)
  {
    var s := [c] + t;
    forall i | 0 <= i < |s| ensures !TagAtFront(s[i..]) {
      if i > 0 {
        assert s[i..] == t[i - 1..];
      }
    }
  }

  /** Stripping tags leaves none behind. */
  lemma {:induction false} StripTagsNoTag(s: string)
    ensures NoTag(StripTags(s))
    decreases |s|
  {
    if s == [] {
    } else if TagAtFront(s) {
      StripTagsNoTag(s[2 + IndexOf(s[1..], '>')..]);
      StripTagCase(s);
    } else {
      StripTagsNoTag(s[1..]);
      StripKeptCase(s);
    }
  }

  /** A tag at the front becomes a space in front of the rest, stripped. */
  lemma StripTagCase(s: string)
    requires TagAtFront(s) && NoTag(StripTags(s[2 + IndexOf(s[1..], '>')..]))
    ensures NoTag(StripTags(s))
  {
    var t := StripTags(s[2 + IndexOf(s[1..], '>')..]);
    assert StripTags(s) == " " + t;
    NoTagCons(' ', t);
  }

  /** A character that starts no tag is kept in front of the rest, stripped. */
  lemma StripKeptCase(s: string)
    requires s != [] && !TagAtFront(s) && NoTag(StripTags(s[1..]))
    ensures NoTag(StripTags(s))
  {
    var t := StripTags(s[1..]);
    assert StripTags(s) == [s[0]] + t;
    StripKeptHead(s);
    NoTagCons(s[0], t);
  }

  /** A character kept by the stripping does not start a tag in the result. */
  lemma StripKeptHead(s: string)
    requires s != [] && !TagAtFront(s)
    ensures !TagAtFront([s[0]] + StripTags(s[1..]))
  {
    var t := StripTags(s[1..]);
    if s[0] == '<' && |s| > 1 {
      if s[1] == '>' {
        assert !TagAtFront(s[1..]);
        assert t == [s[1]] + StripTags(s[2..]);
      } else {
        assert '>' !in s[1..];
        assert '>' !in t;
      }
    }
  }

  /** A suffix of a text without tags has none. */
  lemma NoTagSuffix(s: string, k: nat)
    requires NoTag(s) && k <= |s|
    ensures NoTag(s[k..])
  {
    forall i | 0 <= i < |s[k..]| ensures !TagAtFront(s[k..][i..]) {
      assert s[k..][i..] == s[k + i..];
    }
  }

  /** Collapsing whitespace creates no tag. */
  lemma {:induction false} CollapseKeepsNoTag(s: string)
    requires NoTag(s)
    ensures NoTag(CollapseWhitespace(s))
    decreases |s|
  {
    if s == [] {
    } else if IsWhitespace(s[0]) {
      var t := TrimStart(s);
      NoTagSuffix(s, |s| - |t|);
      CollapseKeepsNoTag(t);
      NoTagCons(' ', CollapseWhitespace(t));
    } else {
      NoTagSuffix(s, 1);
      CollapseKeepsNoTag(s[1..]);
      var t := CollapseWhitespace(s[1..]);
      assert !TagAtFront(s[0..]);
      if s[0] == '<' && |s| > 1 {
        if s[1] == '>' {
          CollapseHead(s[1..]);
        }
      }
      NoTagCons(s[0], t);
    }
  }

  /** Collapsed text has single spaces for whitespace. */
  lemma {:induction false} CollapseSpacing(s: string)
    ensures NoDoubleWhitespace(CollapseWhitespace(s)) && OnlySpaces(CollapseWhitespace(s))
    decreases |s|
  {
    if s == [] {
    } else if IsWhitespace(s[0]) {
      var t := TrimStart(s);
      CollapseSpacing(t);
      var r := CollapseWhitespace(t);
      if t != [] {
        CollapseHead(t);
      }
      assert forall i :: 1 <= i < |" " + r| ==> (" " + r)[i] == r[i - 1];
    } else {
      CollapseSpacing(s[1..]);
      var r := CollapseWhitespace(s[1..]);
      assert forall i :: 1 <= i < |[s[0]] + r| ==> ([s[0]] + r)[i] == r[i - 1];
    }
  }

  /** A prefix of a text without tags has none. */
  lemma NoTagPrefix(s: string, k: nat)
    requires NoTag(s) && k <= |s|
    ensures NoTag(s[..k])
  {
    forall i | 0 <= i < k ensures !TagAtFront(s[..k][i..]) {
      var u, v := s[..k][i..], s[i..];
      assert !TagAtFront(v);
    }
  }

  /** Trimming keeps the spacing facts: its result is a slice of its input. */
  lemma TrimKeepsSpacing(s: string)
    requires NoDoubleWhitespace(s) && OnlySpaces(s)
    ensures NoDoubleWhitespace(Trim(s)) && OnlySpaces(Trim(s))
  {
    var i := TrimSlice(s);
    var j := i + |Trim(s)|;
    SliceSpacing(s, i, j);
    assert Trim(s) == s[i..j];
  }

  /** Any slice of a text keeps its spacing facts. */
  lemma SliceSpacing(s: string, i: nat, j: nat)
    requires i <= j <= |s| && NoDoubleWhitespace(s) && OnlySpaces(s)
    ensures NoDoubleWhitespace(s[i..j]) && OnlySpaces(s[i..j])
  {
    assert forall k :: 0 <= k < j - i ==> s[i..j][k] == s[i + k];
  }

  /** Trimming creates no tag. */
  lemma TrimKeepsNoTag(s: string)
    requires NoTag(s)
    ensures NoTag(Trim(s))
  {
    var r := Trim(s);
    var i := TrimSlice(s);
    NoTagSuffix(s, i);
    NoTagPrefix(s[i..], |r|);
    assert s[i..][..|r|] == r;
  }

  /** Text without `<`, whose only whitespace is single spaces, is not changed by collapsing. */
  lemma {:induction false} CollapseIdentity(s: string)
    requires NoDoubleWhitespace(s) && OnlySpaces(s)
    ensures CollapseWhitespace(s) == s
    decreases |s|
  {
    if s != [] {
      assert NoDoubleWhitespace(s[1..]) && OnlySpaces(s[1..]) by {
        assert forall i :: 0 <= i < |s[1..]| ==> s[1..][i] == s[i + 1];
      }
      CollapseIdentity(s[1..]);
      if IsWhitespace(s[0]) {
        assert TrimStart(s) == s[1..] by {
          assert TrimStart(s) == TrimStart(s[1..]);
          if s[1..] != [] {
            assert !IsWhitespace(s[1..][0]);
          }
        }
        assert s[0] == ' ';
      }
      assert s == [s[0]] + s[1..];
    }
  }

  /** Text without `<` has no tag to strip. */
  lemma {:induction false} StripIdentity(s: string)
    requires '<' !in s
    ensures StripTags(s) == s
  {
    if s != [] {
      StripIdentity(s[1..]);
      assert s == [s[0]] + s[1..];
    }
  }

  /**
   * Text that is already clean comes back unchanged: no CDATA end marker, no `<`,
   * whitespace only as single spaces, and none at either end.
   */
  lemma CleanTextIdentity(s: string)
    requires !Contains(s, "]]>") && '<' !in s
    requires NoDoubleWhitespace(s) && OnlySpaces(s)
    requires s == [] || (!IsWhitespace(s[0]) && !IsWhitespace(s[|s| - 1]))
    ensures CleanText(Some(s)) == s
  {
    if s != [] {
      AbsentHeadNotContained(s, "<![CDATA[");
      ReplaceAbsent(s, "<![CDATA[", "");
      ReplaceAbsent(s, "]]>", "");
      StripIdentity(s);
      CollapseIdentity(s);
      TrimUntrimmed(s);
    }
  }

  /** `NoTag` says what the pattern says: no `<`, one or more non-`>` characters, then `>`. */
  lemma NoTagMeaning(s: string, i: nat, j: nat)
    requires NoTag(s)
    requires i + 2 <= j < |s| && s[i] == '<' && s[j] == '>'
    ensures exists k :: i < k < j && s[k] == '>'
  {
    var t := s[i..];
    assert !TagAtFront(t);
    assert t[j - i] == '>';
    assert '>' in t[1..] by { assert t[1..][j - i - 1] == '>'; }
    assert t[1] == '>';
    assert s[i + 1] == '>';
  }

  // ---------------------------------------------------------------- extractArticles

  /** The items of a channel, a single item counted as a one-element list. */
  function Items(f: ItemField): (r: seq<Item>)
    ensures f.NoItem? ==> r == []
    ensures f.OneItem? ==> r == [f.item]
    ensures f.ItemList? ==> r == f.items
  {
    match f
    case NoItem => []
    case OneItem(it) => [it]
    case ItemList(its) => its
  }

  /** The record `extractArticles` builds from one item. */
  function ToArticle(it: Item, channelTitle: Option<string>, src: Source): Article
  {
    Article(
      title := CleanText(it.title),
      link := it.link,
      description := CleanText(it.description),
      pubDate := it.pubDate,
      author := OrElse(it.author, channelTitle),
      source := src.name,
      sourceCategory := src.category,
      priority := src.priority,
      content := OrElse(it.contentEncoded, it.description))
  }

  /** `extractArticles(parsed, source)`: one record per item, in item order. */
  function ExtractArticles(feed: Feed, src: Source): (r: seq<Article>)
    ensures feed.channel.None? || feed.channel.value.item.NoItem? ==> r == []
    ensures feed.channel.Some? ==> |r| == |Items(feed.channel.value.item)|
  {
    match feed.channel
    case None => []
    case Some(ch) =>
      var items := Items(ch.item);
      seq(|items|, i requires 0 <= i < |items| => ToArticle(items[i], ch.title, src))
  }

  /** A lone item is extracted as a one-element list would be. */
  lemma SingleItemIsList(title: Option<string>, it: Item, src: Source)
    ensures ExtractArticles(Feed(Some(Channel(title, OneItem(it)))), src)
         == ExtractArticles(Feed(Some(Channel(title, ItemList([it])))), src)
    ensures |ExtractArticles(Feed(Some(Channel(title, OneItem(it)))), src)| == 1
  {
  }

  /** Each record comes from the item at the same position, with the fallbacks of the source. */
  lemma ExtractedFields(feed: Feed, src: Source, i: nat)
    requires feed.channel.Some? && i < |Items(feed.channel.value.item)|
    ensures var a, it, ch := ExtractArticles(feed, src)[i], Items(feed.channel.value.item)[i], feed.channel.value;
      && a.title == CleanText(it.title)
      && a.description == CleanText(it.description)
      && a.link == it.link
      && a.pubDate == it.pubDate
      && (Truthy(it.author) ==> a.author == it.author)
      && (!Truthy(it.author) ==> a.author == ch.title)
      && (Truthy(it.contentEncoded) ==> a.content == it.contentEncoded)
      && (!Truthy(it.contentEncoded) ==> a.content == it.description)
      && a.source == src.name && a.sourceCategory == src.category && a.priority == src.priority
  {
  }

  // ---------------------------------------------------------------- fetchSource, fetchAll

  /**
   * What a request for a feed came to: it failed before a response, or a
   * response arrived with a status and, when its body parsed, the document.
   */
  datatype FetchOutcome = NetworkFailure | Response(status: int, parsed: Option<Feed>)

  /** `response.ok` */
  predicate IsOk(status: int)
  {
    200 <= status <= 299
  }

  /** `fetchSource`: any failure is caught and gives no articles. */
  function FetchSource(outcome: FetchOutcome, src: Source): (r: seq<Article>)
    ensures outcome.NetworkFailure? ==> r == []
    ensures outcome.Response? && !IsOk(outcome.status) ==> r == []
    ensures outcome.Response? && outcome.parsed.None? ==> r == []
    ensures outcome.Response? && IsOk(outcome.status) && outcome.parsed.Some? ==> r == ExtractArticles(outcome.parsed.value, src)
    ensures forall a :: a in r ==> a.source == src.name
  {
    match outcome
    case NetworkFailure => []
    case Response(status, parsed) =>
      if !IsOk(status) then []
      else match parsed
        case None => []
        case Some(feed) => ExtractArticles(feed, src)
  }

  /** The per-source lists concatenated in configuration order. */
  function Collected(srcs: seq<Source>, fetch: Source -> FetchOutcome): seq<Article>
  {
    if srcs == [] then []
    else Collected(srcs[..|srcs| - 1], fetch) + FetchSource(fetch(srcs[|srcs| - 1]), srcs[|srcs| - 1])
  }

  /** The total number of articles the sources yield. */
  function TotalFetched(srcs: seq<Source>, fetch: Source -> FetchOutcome): nat
  {
    if srcs == [] then 0
    else TotalFetched(srcs[..|srcs| - 1], fetch) + |FetchSource(fetch(srcs[|srcs| - 1]), srcs[|srcs| - 1])|
  }

  lemma {:induction false} CollectedLength(srcs: seq<Source>, fetch: Source -> FetchOutcome)
    ensures |Collected(srcs, fetch)| == TotalFetched(srcs, fetch)
  {
    if srcs != [] {
      CollectedLength(srcs[..|srcs| - 1], fetch);
    }
  }

  /**
   * `fetchAll`: fetch each source in turn, append what it yields, then sort
   * newest first. `fetch` gives the outcome of requesting each source.
   */
  method FetchAll(srcs: seq<Source>, fetch: Source -> FetchOutcome) returns (all: seq<Article>)
    ensures all == StableSortDesc(Collected(srcs, fetch), PubDateKey)
    ensures multiset(all) == multiset(Collected(srcs, fetch))
    ensures |all| == TotalFetched(srcs, fetch)
    ensures SortedDesc(all, PubDateKey)
    ensures forall t :: Select(all, PubDateKey, t) == Select(Collected(srcs, fetch), PubDateKey, t)
  {
    all := [];
    var i := 0;
    while i < |srcs|
      invariant 0 <= i <= |srcs|
      invariant all == Collected(srcs[..i], fetch)
    {
      var articles := FetchSource(fetch(srcs[i]), srcs[i]);
      assert srcs[..i + 1][..i] == srcs[..i];
      all := all + articles;
      i := i + 1;
    }
    assert srcs[..i] == srcs;
    var collected := all;
    all := StableSortDesc(collected, PubDateKey);
    SortPermutes(collected, PubDateKey);
    SortSorted(collected, PubDateKey);
    CollectedLength(srcs, fetch);
    forall t ensures Select(all, PubDateKey, t) == Select(collected, PubDateKey, t) {
      SortStable(collected, PubDateKey, t);
    }
  }
}
