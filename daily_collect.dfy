/**
 * `extractSummary` of scripts/daily-collect.js: the article count, the report
 * date and the first five headings read out of the Markdown report.
 *
 * Each regular expression is a matcher at one position, written out with the
 * backtracking the expression performs; a leftmost search runs it from the
 * start of the text.
 */
module DailyCollect {
  import opened Wrappers
  import opened Text
  import opened Config

  // ---------------------------------------------------------------- leftmost search

  /** `s.match(re)` without `g`: the result of the first position, from `p` on, where the matcher succeeds. */
  function Leftmost<R>(c: string, p: nat, m: (string, nat) -> Option<R>): Option<R>
    decreases |c| - p
  {
    if p > |c| then None
    else if m(c, p).Some? then m(c, p)
    else Leftmost(c, p + 1, m)
  }

  /** The leftmost search returns the first success, and fails only when every position fails. */
  lemma {:induction false} LeftmostSpec<R>(c: string, p: nat, m: (string, nat) -> Option<R>) returns (q: nat)
    ensures Leftmost(c, p, m).None? ==> forall q' :: p <= q' <= |c| ==> m(c, q').None?
    ensures Leftmost(c, p, m).Some? ==>
      && p <= q <= |c| && m(c, q) == Leftmost(c, p, m)
      && forall q' :: p <= q' < q ==> m(c, q').None?
    decreases |c| - p
  {
    q := p;
    if p > |c| {
    } else if m(c, p).Some? {
    } else {
      q := LeftmostSpec(c, p + 1, m);
    }
  }

  /** The first `n` digits at most of the digit run at the front of `s`: what a greedy `\d{1,n}` takes. */
  function DigitsUpTo(s: string, n: nat): (k: nat)
    ensures k <= n && k <= |s|
    ensures forall i :: 0 <= i < k ==> IsDigit(s[i])
  {
    var d := |DigitRun(s)|;
    if d < n then d else n
  }

  // ---------------------------------------------------------------- totalArticles

  const TotalLabel: string := "总计:"
  const TotalUnit: string := "篇文章"

  /**
   * `/总计:\s*(\d+)\s*篇文章/` at position `p`: the digits it captures. Every
   * quantifier takes its whole run: giving back a character would leave a
   * whitespace or a digit where the next part cannot match it.
   */
  function TotalAt(c: string, p: nat): (r: Option<string>)
    ensures r.Some? ==> r.value != [] && forall i :: 0 <= i < |r.value| ==> IsDigit(r.value[i])
  {
    if !OccursAt(c, TotalLabel, p) then None
    else
      var rest := TrimStart(c[p + |TotalLabel|..]);
      var d := DigitRun(rest);
      if d != [] && StartsWith(TrimStart(rest[|d|..]), TotalUnit) then Some(d) else None
  }

  /** `totalArticles`: `parseInt` of the first capture, 0 without a match. */
  function TotalArticles(c: string): nat
  {
    match Leftmost(c, 0, TotalAt)
    case None => 0
    case Some(d) => DecimalValue(d)
  }

  /** The count is read from the first place the pattern matches, and is 0 when it matches nowhere. */
  lemma TotalArticlesSpec(c: string) returns (p: nat)
    ensures Leftmost(c, 0, TotalAt).None? ==> TotalArticles(c) == 0 && forall q :: 0 <= q <= |c| ==> TotalAt(c, q).None?
    ensures Leftmost(c, 0, TotalAt).Some? ==>
      && p <= |c| && TotalAt(c, p).Some? && TotalArticles(c) == DecimalValue(TotalAt(c, p).value)
      && forall q :: 0 <= q < p ==> TotalAt(c, q).None?
  {
    p := LeftmostSpec(c, 0, TotalAt);
  }

  /** A report line the count is read from. */
  lemma TotalExample()
    ensures TotalAt("总计: 42 篇文章", 0) == Some("42")
  {
    var c := "总计: 42 篇文章";
    assert c[0..|TotalLabel|] == TotalLabel;
    assert OccursAt(c, TotalLabel, 0);
    assert c[|TotalLabel|..] == " 42 篇文章";
    TotalExampleSpace();
    TotalExampleDigits();
    TotalExampleUnit();
    var rest := "42 篇文章";
    assert rest[2..] == " 篇文章";
    assert StartsWith("篇文章", TotalUnit);
  }

  lemma TotalExampleSpace()
    ensures TrimStart(" 42 篇文章") == "42 篇文章"
  {
    var s := " 42 篇文章";
    assert IsWhitespace(s[0]) && s[1..] == "42 篇文章" && !IsWhitespace(s[1..][0]);
  }

  lemma TotalExampleDigits()
    ensures DigitRun("42 篇文章") == "42"
  {
    var t := "42 篇文章";
    assert t[1..] == "2 篇文章" && t[1..][1..] == " 篇文章";
    assert DigitRun(" 篇文章") == [];
  }

  lemma TotalExampleUnit()
    ensures TrimStart(" 篇文章") == "篇文章"
  {
    var u := " 篇文章";
    assert u[1..] == "篇文章" && !IsWhitespace(u[1..][0]);
  }

  // ---------------------------------------------------------------- date

  const DateLabel: string := "生成时间:"

  /**
   * `s` reads `YYYY/M/D` with a month of `m` digits and a day of one or two:
   * four digits, '/', `m` digits, '/', then the day's digits to the end.
   */
  predicate DateParts(s: string, m: nat)
  {
    && 6 + m < |s| <= 8 + m
    && (forall i :: 0 <= i < 4 ==> IsDigit(s[i]))
    && s[4] == '/'
    && (forall i :: 5 <= i < 5 + m ==> IsDigit(s[i]))
    && s[5 + m] == '/'
    && (forall i :: 6 + m <= i < |s| ==> IsDigit(s[i]))
  }

  /**
   * `/生成时间:\s*(\d{4}\/\d{1,2}\/\d{1,2})/` at position `p`: its capture.
   * Each `\d{1,2}` takes two digits when there are two: the part after it
   * never matches a digit, so giving one back cannot help.
   */
  function DateAt(c: string, p: nat): (r: Option<string>)
    ensures r.Some? ==> 8 <= |r.value| <= 10 && (DateParts(r.value, 1) || DateParts(r.value, 2))
  {
    if !OccursAt(c, DateLabel, p) then None
    else
      var s := TrimStart(c[p + |DateLabel|..]);
      if DigitsUpTo(s, 4) < 4 || |s| <= 4 || s[4] != '/' then None
      else
        var m := DigitsUpTo(s[5..], 2);
        if m == 0 || |s| <= 5 + m || s[5 + m] != '/' then None
        else
          var d := DigitsUpTo(s[6 + m..], 2);
          if d == 0 then None else DatePartsOf(s, m, d, s[5..], s[6 + m..]); Some(s[..6 + m + d])
  }

  /**
   * Year digits, '/', `m` month digits, '/' and `d` day digits at the front of
   * `s` make a `DateParts` prefix; `month` and `day` are the rest of `s` after
   * each '/'.
   */
  lemma DatePartsOf(s: string, m: nat, d: nat, month: string, day: string)
    requires 1 <= m <= 2 && 1 <= d <= 2 && 6 + m + d <= |s|
    requires month == s[5..] && day == s[6 + m..]
    requires (forall i :: 0 <= i < 4 ==> IsDigit(s[i])) && s[4] == '/'
    requires (forall i :: 0 <= i < m ==> IsDigit(month[i])) && s[5 + m] == '/'
    requires forall i :: 0 <= i < d ==> IsDigit(day[i])
    ensures DateParts(s[..6 + m + d], m)
  {
    var r := s[..6 + m + d];
    assert forall i :: 5 <= i < 5 + m ==> r[i] == month[i - 5];
    assert forall i :: 6 + m <= i < |r| ==> r[i] == day[i - 6 - m];
  }

  /** `date`: the first capture, or the fallback (today's date in the source, read from the clock). */
  function DateOf(c: string, fallback: string): (r: string)
    ensures Leftmost(c, 0, DateAt).None? ==> r == fallback
  {
    match Leftmost(c, 0, DateAt)
    case None => fallback
    case Some(d) => d
  }

  /** The date is the capture at the first place the pattern matches. */
  lemma DateSpec(c: string, fallback: string) returns (p: nat)
    ensures Leftmost(c, 0, DateAt).None? ==> forall q :: 0 <= q <= |c| ==> DateAt(c, q).None?
    ensures Leftmost(c, 0, DateAt).Some? ==>
      && p <= |c| && DateAt(c, p).Some? && DateOf(c, fallback) == DateAt(c, p).value
      && forall q :: 0 <= q < p ==> DateAt(c, q).None?
  {
    p := LeftmostSpec(c, 0, DateAt);
  }

  // ---------------------------------------------------------------- headings

  const HeadingMark: string := "### "

  /** The characters up to the first line terminator: what `.` can match in a row. */
  function LineRun(s: string): (r: nat)
    ensures r <= |s|
    ensures forall i :: 0 <= i < r ==> !IsLineTerminator(s[i])
    ensures r == |s| || IsLineTerminator(s[r])
  {
    if s == [] || IsLineTerminator(s[0]) then 0 else 1 + LineRun(s[1..])
  }

  /**
   * `(.+?)(?:\n|$)` at position `s0`: the length of the capture. The lazy
   * group grows one character at a time and cannot cross a line terminator,
   * so it succeeds only when its line is non-empty and ends in `\n` or at the
   * end of the text.
   */
  function LazyLine(c: string, s0: nat): (r: Option<nat>)
    requires s0 <= |c|
    ensures r.Some? ==> 1 <= r.value && s0 + r.value <= |c|
  {
    var l := LineRun(c[s0..]);
    if l >= 1 && (s0 + l == |c| || c[s0 + l] == '\n') then Some(l) else None
  }

  /**
   * `\s*(.+?)(?:\n|$)` where `\s*` can take up to `k` characters from `q`:
   * the greedy `\s*` gives back one character at a time until the rest matches.
   * The result is where the capture starts and its length.
   */
  function Backtrack(c: string, q: nat, k: nat): (r: Option<(nat, nat)>)
    requires q + k <= |c|
    ensures r.Some? ==> q <= r.value.0 <= q + k && 1 <= r.value.1 && r.value.0 + r.value.1 <= |c|
    decreases k
  {
    match LazyLine(c, q + k)
    case Some(l) => Some((q + k, l))
    case None => if k == 0 then None else Backtrack(c, q, k - 1)
  }

  /** One match found by a global search: where it ends, and its capture. */
  datatype Match = Match(end: nat, capture: string)

  /**
   * `matchAll` from position `p` with matcher `m`: each search resumes where
   * the last match ended, or one further on after an empty match.
   */
  function MatchAll(c: string, p: nat, m: (string, nat) -> Option<Match>): seq<string>
    decreases |c| - p
  {
    if p > |c| then []
    else match m(c, p)
      case Some(hm) => [hm.capture] + MatchAll(c, if hm.end > p then hm.end else p + 1, m)
      case None => MatchAll(c, p + 1, m)
  }

  /** The first match of a global search is found at the first position where the matcher succeeds. */
  lemma {:induction false} MatchAllFrom(c: string, p: nat, m: (string, nat) -> Option<Match>) returns (q: nat)
    ensures MatchAll(c, p, m) == [] <==> forall q' :: p <= q' <= |c| ==> m(c, q').None?
    ensures MatchAll(c, p, m) != [] ==>
      && p <= q <= |c| && m(c, q).Some? && MatchAll(c, p, m)[0] == m(c, q).value.capture
      && MatchAll(c, p, m)[1..] == MatchAll(c, if m(c, q).value.end > q then m(c, q).value.end else q + 1, m)
      && forall q' :: p <= q' < q ==> m(c, q').None?
    decreases |c| - p
  {
    q := p;
    if p <= |c| && m(c, p).None? {
      q := MatchAllFrom(c, p + 1, m);
    }
  }

  /** Every capture of a global search is the capture of a match at some position. */
  lemma {:induction false} MatchAllSource(c: string, p: nat, m: (string, nat) -> Option<Match>, h: string) returns (q: nat)
    requires h in MatchAll(c, p, m)
    ensures p <= q <= |c| && m(c, q).Some? && m(c, q).value.capture == h
    decreases |c| - p
  {
    match m(c, p)
    case Some(hm) =>
      if h == hm.capture {
        q := p;
      } else {
        q := MatchAllSource(c, if hm.end > p then hm.end else p + 1, m, h);
      }
    case None =>
      q := MatchAllSource(c, p + 1, m, h);
  }

  /**
   * `/### \d+\.\s*(.+?)(?:\n|$)/` at position `p`. The capture is non-empty and
   * stays on one line: `.` does not match a line terminator.
   */
  function HeadingAt(c: string, p: nat): (r: Option<Match>)
    ensures r.Some? ==> p < r.value.end <= |c| && r.value.capture != []
    ensures r.Some? ==> forall i :: 0 <= i < |r.value.capture| ==> !IsLineTerminator(r.value.capture[i])
  {
    if !OccursAt(c, HeadingMark, p) then None
    else
      var d := DigitRun(c[p + |HeadingMark|..]);
      var dot := p + |HeadingMark| + |d|;
      if d == [] || dot >= |c| || c[dot] != '.' then None
      else HeadingAfterDot(c, dot + 1)
  }

  /** `\s*(.+?)(?:\n|$)` at position `q`, just after the dot. */
  function HeadingAfterDot(c: string, q: nat): (r: Option<Match>)
    requires q <= |c|
    ensures r.Some? ==> q < r.value.end <= |c| && r.value.capture != []
    ensures r.Some? ==> forall i :: 0 <= i < |r.value.capture| ==> !IsLineTerminator(r.value.capture[i])
  {
    var w := |c[q..]| - |TrimStart(c[q..])|;
    var bt := Backtrack(c, q, w);
    if bt.None? then None
    else
      var s0, l := bt.value.0, bt.value.1;
      BacktrackLine(c, q, w);
      Some(Match(if s0 + l < |c| then s0 + l + 1 else s0 + l, c[s0..s0 + l]))
  }

  /** What `Backtrack` finds is a line run. */
  lemma {:induction false} BacktrackLine(c: string, q: nat, k: nat)
    requires q + k <= |c| && Backtrack(c, q, k).Some?
    ensures var s0, l := Backtrack(c, q, k).value.0, Backtrack(c, q, k).value.1;
      forall i :: s0 <= i < s0 + l ==> !IsLineTerminator(c[i])
    decreases k
  {
    if LazyLine(c, q + k).None? {
      BacktrackLine(c, q, k - 1);
    } else {
      var s0 := q + k;
      var l := LineRun(c[s0..]);
      assert forall i :: s0 <= i < s0 + l ==> c[i] == c[s0..][i - s0];
    }
  }

  /** `content.matchAll(/### \d+\.\s*(.+?)(?:\n|$)/g)`: the captures, in order. */
  function AllHeadings(c: string): seq<string>
  {
    MatchAll(c, 0, HeadingAt)
  }

  /** The first heading is found at the first position where the pattern matches. */
  lemma FirstHeading(c: string) returns (p: nat)
    ensures AllHeadings(c) == [] <==> forall q :: 0 <= q <= |c| ==> HeadingAt(c, q).None?
    ensures AllHeadings(c) != [] ==>
      && p <= |c| && HeadingAt(c, p).Some? && AllHeadings(c)[0] == HeadingAt(c, p).value.capture
      && AllHeadings(c)[1..] == MatchAll(c, HeadingAt(c, p).value.end, HeadingAt)
      && forall q :: 0 <= q < p ==> HeadingAt(c, q).None?
  {
    p := MatchAllFrom(c, 0, HeadingAt);
  }

  /** Every heading found is a non-empty run of one line. */
  lemma HeadingsAreLines(c: string)
    ensures forall h :: h in AllHeadings(c) ==> h != [] && forall i :: 0 <= i < |h| ==> !IsLineTerminator(h[i])
  {
    forall h | h in AllHeadings(c)
      ensures h != [] && forall i :: 0 <= i < |h| ==> !IsLineTerminator(h[i])
    {
      var q := MatchAllSource(c, 0, HeadingAt, h);
    }
  }

  /** A numbered heading with nothing after the dot: `\s*` crosses the line break and the next line is its title. */
  lemma HeadingExample()
    ensures HeadingAt("### 1.\nAB", 0) == Some(Match(9, "AB"))
  {
    var c := "### 1.\nAB";
    assert c[0..4] == HeadingMark;
    assert c[4..] == "1.\nAB";
    HeadingExampleNumber();
    assert c[5] == '.';
    HeadingExampleTitle();
  }

  lemma HeadingExampleNumber()
    ensures DigitRun("1.\nAB") == "1"
  {
    assert "1.\nAB"[1..] == ".\nAB";
  }

  lemma HeadingExampleTitle()
    ensures HeadingAfterDot("### 1.\nAB", 6) == Some(Match(9, "AB"))
  {
    var c := "### 1.\nAB";
    assert c[6..] == "\nAB";
    HeadingExampleSkip();
    HeadingExampleLine();
    assert c[7..9] == "AB";
  }

  lemma HeadingExampleSkip()
    ensures TrimStart("\nAB") == "AB"
  {
    assert "\nAB"[1..] == "AB";
    assert !IsWhitespace('A');
  }

  lemma HeadingExampleLine()
    ensures Backtrack("### 1.\nAB", 6, 1) == Some((7, 2))
  {
    var c := "### 1.\nAB";
    assert c[7..] == "AB";
    assert LineRun("AB") == 2 by {
      assert "AB"[1..] == "B";
      assert "B"[1..] == [];
    }
  }

  // ---------------------------------------------------------------- extractSummary

  /** The category list `extractSummary` reports, in its own order. */
  const SummaryCategories: seq<string> := [
    "AI基础设施", "机器学习研究", "AI安全与对齐", "AI产品应用",
    "开发工具", "技术教程", "创业/商业", "行业动态"
  ]

  /** The reported list holds the configured categories, but in a different order. */
  lemma SummaryCategoriesReorderConfig()
    ensures multiset(SummaryCategories) == multiset(Categories)
    ensures SummaryCategories != Categories
    ensures SummaryCategories[5] == Categories[7] && SummaryCategories[7] == Categories[5]
  {
    SummaryCategoriesShape();
    SwapLastThree(Categories[..5], Categories[5], Categories[6], Categories[7]);
  }

  lemma SummaryCategoriesShape()
    ensures SummaryCategories == Categories[..5] + [Categories[7], Categories[6], Categories[5]]
    ensures Categories == Categories[..5] + [Categories[5], Categories[6], Categories[7]]
    ensures Categories[5] != Categories[7]
  {
  }

  /** Exchanging the first and last of three trailing elements keeps the multiset. */
  lemma SwapLastThree<T>(p: seq<T>, x: T, y: T, z: T)
    ensures multiset(p + [x, y, z]) == multiset(p + [z, y, x])
  {
  }

  datatype Summary = Summary(date: string, totalArticles: nat, top5Titles: seq<string>, categories: seq<string>)

  const TopCount: nat := 5

  /**
   * The `top5Titles` loop over the captures of `content.matchAll(...)`: every
   * match is visited, and the first five are kept, trimmed.
   */
  method Top5Titles(matches: seq<string>) returns (titles: seq<string>)
    ensures |titles| == if |matches| < TopCount then |matches| else TopCount
    ensures forall i :: 0 <= i < |titles| ==> titles[i] == Trim(matches[i])
  {
    titles := [];
    var i := 0;
    while i < |matches|
      invariant 0 <= i <= |matches|
      invariant |titles| == if i < TopCount then i else TopCount
      invariant forall j :: 0 <= j < |titles| ==> titles[j] == Trim(matches[j])
    {
      if |titles| < TopCount {
        titles := titles + [Trim(matches[i])];
      }
      i := i + 1;
    }
  }

  /** `extractSummary(content)`; `fallbackDate` stands for the clock's current date. */
  method ExtractSummary(content: string, fallbackDate: string) returns (s: Summary)
    ensures s.totalArticles == TotalArticles(content)
    ensures s.date == DateOf(content, fallbackDate)
    ensures |s.top5Titles| == if |AllHeadings(content)| < TopCount then |AllHeadings(content)| else TopCount
    ensures forall i :: 0 <= i < |s.top5Titles| ==> s.top5Titles[i] == Trim(AllHeadings(content)[i])
    ensures s.categories == SummaryCategories
  {
    var total := TotalArticles(content);
    var date := DateOf(content, fallbackDate);
    var titles := Top5Titles(AllHeadings(content));
    s := Summary(date, total, titles, SummaryCategories);
  }
}
