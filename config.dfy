/**
 * The constant tables of src/config.js: the configured feeds, the category
 * labels, and the keyword table the classifier scores against.
 */
module Config {
  import opened Text

  /** One configured feed. */
  datatype Source = Source(name: string, url: string, category: string, priority: string)

  /** One entry of the keyword table: a category label and its keywords, in declaration order. */
  datatype KeywordEntry = KeywordEntry(category: string, words: seq<string>)

  const Sources: seq<Source> := [
    Source("机器之心", "https://www.jiqizhixin.com/rss", "AI资讯", "high"),
    Source("量子位", "https://www.qbitai.com/feed", "AI资讯", "high"),
    Source("Daniel Miessler", "https://danielmiessler.com/feed.rss", "AI基础设施/安全", "high")
  ]

  const Categories: seq<string> := [
    "AI基础设施", "机器学习研究", "AI安全与对齐", "AI产品应用",
    "开发工具", "行业动态", "创业/商业", "技术教程"
  ]

  /** The keyword table, one entry per category label, in declaration order. */
  const Keywords: seq<KeywordEntry> := [
    KeywordEntry("AI基础设施", InfrastructureWords),
    KeywordEntry("机器学习研究", ResearchWords),
    KeywordEntry("AI安全与对齐", SafetyWords),
    KeywordEntry("AI产品应用", ProductWords),
    KeywordEntry("开发工具", ToolingWords),
    KeywordEntry("行业动态", IndustryWords),
    KeywordEntry("创业/商业", BusinessWords),
    KeywordEntry("技术教程", TutorialWords)
  ]

  const InfrastructureWords: seq<string> := ["infrastructure", "platform", "system", "framework", "PAI", "agent"]
  const ResearchWords: seq<string> := ["research", "model", "training", "RL", "reinforcement", "paper"]
  const SafetyWords: seq<string> := ["safety", "alignment", "security", "risk", "ethics"]
  const ProductWords: seq<string> := ["product", "application", "tool", "feature", "launch"]
  const ToolingWords: seq<string> := ["coding", "development", "API", "CLI", "SDK"]
  const IndustryWords: seq<string> := ["news", "announcement", "update", "release"]
  const BusinessWords: seq<string> := ["startup", "business", "market", "investment"]
  const TutorialWords: seq<string> := ["tutorial", "guide", "how-to", "learn"]

  /** The characters that are special in a regular expression outside a character class. */
  predicate IsRegexMeta(c: char)
  {
    c == '\\' || c == '^' || c == '$' || c == '.' || c == '|' || c == '?' || c == '*'
    || c == '+' || c == '(' || c == ')' || c == '[' || c == ']' || c == '{' || c == '}'
  }

  /** A word that `new RegExp(word)` matches literally. */
  predicate IsLiteralPattern(w: string)
  {
    forall i :: 0 <= i < |w| ==> !IsRegexMeta(w[i])
  }

  /**
   * A key a plain object enumerates before all others, in numeric order
   * (an array index such as "0" or "42"), rather than in insertion order.
   */
  predicate IsIntegerLike(k: string)
  {
    |k| > 0 && (forall i :: 0 <= i < |k| ==> IsDigit(k[i])) && (k[0] != '0' || |k| == 1)
  }

  /** Names that `{}` already resolves through Object.prototype: `!obj[k]` is false for them. */
  const PrototypeNames: set<string> := {
    "constructor", "toString", "toLocaleString", "valueOf", "hasOwnProperty",
    "isPrototypeOf", "propertyIsEnumerable", "__proto__", "__defineGetter__",
    "__defineSetter__", "__lookupGetter__", "__lookupSetter__"
  }

  /** A key that a plain object keeps in insertion order and that starts out absent. */
  predicate IsPlainKey(k: string)
  {
    !IsIntegerLike(k) && k !in PrototypeNames
  }

  /** The keyword table has one entry per category label, in the same order. */
  lemma KeywordTableFollowsCategories()
    ensures |Keywords| == |Categories| == 8
    ensures forall i :: 0 <= i < |Keywords| ==> Keywords[i].category == Categories[i]
  {
  }

  /** Every category has at least one keyword, and no keyword is empty. */
  lemma KeywordListsNonEmpty()
    ensures forall e :: e in Keywords ==> |e.words| > 0
    ensures forall e, w :: e in Keywords && w in e.words ==> |w| > 0
  {
  }

  /** Every word of `ws` is matched literally by `new RegExp(word)`. */
  predicate AllLiteral(ws: seq<string>)
  {
    forall w :: w in ws ==> IsLiteralPattern(w)
  }

  /** No keyword holds a regular-expression metacharacter, so `new RegExp(word)` matches the word literally. */
  lemma KeywordsAreLiteral()
    ensures forall e :: e in Keywords ==> AllLiteral(e.words)
  {
    InfrastructureWordsAreLiteral();
    ResearchWordsAreLiteral();
    SafetyWordsAreLiteral();
    ProductWordsAreLiteral();
    ToolingWordsAreLiteral();
    IndustryWordsAreLiteral();
    BusinessWordsAreLiteral();
    TutorialWordsAreLiteral();
  }

  lemma InfrastructureWordsAreLiteral()
    ensures AllLiteral(InfrastructureWords)
  {
    assert IsLiteralPattern("infrastructure");
    assert IsLiteralPattern("platform");
    assert IsLiteralPattern("system");
    assert IsLiteralPattern("framework");
    assert IsLiteralPattern("PAI");
    assert IsLiteralPattern("agent");
  }

  lemma ResearchWordsAreLiteral()
    ensures AllLiteral(ResearchWords)
  {
    assert IsLiteralPattern("research");
    assert IsLiteralPattern("model");
    assert IsLiteralPattern("training");
    assert IsLiteralPattern("RL");
    assert IsLiteralPattern("reinforcement");
    assert IsLiteralPattern("paper");
  }

  lemma SafetyWordsAreLiteral()
    ensures AllLiteral(SafetyWords)
  {
    assert IsLiteralPattern("safety");
    assert IsLiteralPattern("alignment");
    assert IsLiteralPattern("security");
    assert IsLiteralPattern("risk");
    assert IsLiteralPattern("ethics");
  }

  lemma ProductWordsAreLiteral()
    ensures AllLiteral(ProductWords)
  {
    assert IsLiteralPattern("product");
    assert IsLiteralPattern("application");
    assert IsLiteralPattern("tool");
    assert IsLiteralPattern("feature");
    assert IsLiteralPattern("launch");
  }

  lemma ToolingWordsAreLiteral()
    ensures AllLiteral(ToolingWords)
  {
    assert IsLiteralPattern("coding");
    assert IsLiteralPattern("development");
    assert IsLiteralPattern("API");
    assert IsLiteralPattern("CLI");
    assert IsLiteralPattern("SDK");
  }

  lemma IndustryWordsAreLiteral()
    ensures AllLiteral(IndustryWords)
  {
    assert IsLiteralPattern("news");
    assert IsLiteralPattern("announcement");
    assert IsLiteralPattern("update");
    assert IsLiteralPattern("release");
  }

  lemma BusinessWordsAreLiteral()
    ensures AllLiteral(BusinessWords)
  {
    assert IsLiteralPattern("startup");
    assert IsLiteralPattern("business");
    assert IsLiteralPattern("market");
    assert IsLiteralPattern("investment");
  }

  lemma TutorialWordsAreLiteral()
    ensures AllLiteral(TutorialWords)
  {
    assert IsLiteralPattern("tutorial");
    assert IsLiteralPattern("guide");
    assert IsLiteralPattern("how-to");
    assert IsLiteralPattern("learn");
  }

  /** The configured feeds have pairwise distinct names, and all have priority "high". */
  lemma SourcesDistinctAndHigh()
    ensures forall i, j :: 0 <= i < j < |Sources| ==> Sources[i].name != Sources[j].name
    ensures forall s :: s in Sources ==> s.priority == "high"
  {
  }

  /** A key whose first character is not a digit is not an array index. */
  lemma NonDigitHeadNotIntegerLike(k: string)
    requires |k| > 0 && !IsDigit(k[0])
    ensures !IsIntegerLike(k)
  {
  }

  /** A key that begins with a character no prototype name begins with is not a prototype name. */
  lemma ForeignHeadNotPrototypeName(k: string)
    requires |k| > 0 && k[0] !in "ctvhip_"
    ensures k !in PrototypeNames
  {
  }

  /** A key whose first character is neither a digit nor the first letter of a prototype name is plain. */
  lemma PlainByHead(k: string)
    requires |k| > 0 && !IsDigit(k[0]) && k[0] !in "ctvhip_"
    ensures IsPlainKey(k)
  {
    NonDigitHeadNotIntegerLike(k);
    ForeignHeadNotPrototypeName(k);
  }

  /** Source names and category labels behave as insertion-ordered, initially absent object keys. */
  lemma ConfiguredKeysArePlain()
    ensures forall s :: s in Sources ==> IsPlainKey(s.name)
    ensures forall c :: c in Categories ==> IsPlainKey(c)
  {
    SourceNamesArePlain();
    CategoriesArePlain();
  }

  lemma SourceNamesArePlain()
    ensures forall s :: s in Sources ==> IsPlainKey(s.name)
  {
    PlainByHead("机器之心");
    PlainByHead("量子位");
    PlainByHead("Daniel Miessler");
  }

  lemma CategoriesArePlain()
    ensures forall c :: c in Categories ==> IsPlainKey(c)
  {
    PlainByHead("AI基础设施");
    PlainByHead("机器学习研究");
    PlainByHead("AI安全与对齐");
    PlainByHead("AI产品应用");
    PlainByHead("开发工具");
    PlainByHead("行业动态");
    PlainByHead("创业/商业");
    PlainByHead("技术教程");
  }
}
