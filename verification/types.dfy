/** The record shapes of the application (types.ts). JavaScript `number`s are
    modelled as unbounded integers; fields the code reads defensively
    (with `||` or `?.`) are `Option`s or strings whose empty value is falsy. */
module Types {
  import opened Base

  /** The documented range of every score the AI returns: 0 to 100. */
  predicate IsPercent(n: int) {
    0 <= n <= 100
  }

  datatype SentimentBreakdown = SentimentBreakdown(positive: int, neutral: int, negative: int)

  /** The structured analysis the AI returns for a book. */
  datatype AnalysisResult = AnalysisResult(
    title: string,
    author: string,
    authorBio: string,
    summary: string,
    sentimentScore: int,
    sentimentBreakdown: SentimentBreakdown,
    targetAudience: seq<string>,
    keywords: seq<string>,
    strengths: seq<string>,
    weaknesses: seq<string>,
    weaknessFixes: seq<string>,
    marketingHooks: seq<string>,
    categoryPrediction: string,
    pageCountEstimate: string,
    titleSuggestions: seq<string>,
    coverDesignIdeas: seq<string>,
    recommendedPrice: string,
    pricingStrategyDescription: string,
    marketingStrategy: seq<string>,
    improvementTips: seq<string>,
    improvedDescription: string,
    amazonKdpHtml: string)

  /** The A+ content plan: stored and restored, never inspected here. */
  datatype AplusContent = AplusContent(document: string)

  /** Per-weakness fixes and per-concept cover images, keyed by array index. */
  type IndexMap = map<nat, string>

  /** The user's edits layered over a result, as persisted. Fields that
      older saved sessions may lack are optional. */
  datatype InteractiveState = InteractiveState(
    activeTitle: string,
    currentCoverIdeas: seq<string>,
    specificFixes: IndexMap,
    coverImages: IndexMap,
    customTitles: Option<seq<string>>,
    authorName: Option<string>,
    authorUrl: Option<string>,
    authorBio: Option<string>,
    aplusContent: Option<AplusContent>,
    aplusImages: Option<IndexMap>)

  /** One saved session; `id` is the store's primary key. */
  datatype HistoryItem = HistoryItem(
    id: string,
    timestamp: int,
    title: string,
    summary: string,
    result: AnalysisResult,
    interactiveState: InteractiveState)

  /** A trending book topic; a score the AI omitted is `None`. */
  datatype TrendingTopic = TrendingTopic(
    id: string,
    topic: string,
    description: string,
    reason: string,
    audience: string,
    interestScore: Option<int>,
    marketDemandScore: Option<int>)

  datatype TrendingCategory = TrendingCategory(categoryName: string, topics: seq<TrendingTopic>)

  /** The two top-level views of the application. */
  datatype AppMode = Analyze | Trends

  /** The two tabs of the input form. */
  datatype InputMode = TextMode | FileMode
}
