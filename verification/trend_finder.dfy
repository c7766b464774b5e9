/** The trend finder (components/TrendFinder.tsx): scanning for trending
    topics, giving every topic an id, and turning a selected topic into a book
    concept (title, pen name, cover). AI replies are inputs. */
module TrendFinder {
  import opened Base
  import opened Text
  import opened Types
  import Gemini

  /** The component's state. */
  datatype TrendState = TrendState(
    loading: bool,
    categories: seq<TrendingCategory>,
    selectedTopic: Option<TrendingTopic>,
    generatingConcept: bool,
    searchTerm: string,
    generatedTitle: string,
    generatedSubtitle: string,
    generatedCover: string,
    penName: string,
    authorBio: string)

  /** The state the component mounts with: idle, no categories, no topic
      selected, no concept and an empty search box. */
  function InitialTrends(): (r: TrendState)
    ensures !r.loading && !r.generatingConcept
    ensures r.categories == [] && r.selectedTopic == None && r.searchTerm == ""
    ensures r.generatedTitle == "" && r.generatedSubtitle == "" && r.generatedCover == ""
    ensures r.penName == "" && r.authorBio == ""
  {
    TrendState(false, [], None, false, "", "", "", "", "", "")
  }

  // ---------------------------------------------------------------------------
  // Topic ids

  /** The id a topic without one receives from its position. */
  function FallbackId(categoryIndex: nat, topicIndex: nat): string {
    "topic-" + NatToString(categoryIndex) + "-" + NatToString(topicIndex)
  }

  /** Splitting at a separator is unambiguous when the left parts are digit strings. */
  lemma DigitsSplit(a: string, b: string, a': string, b': string)
    requires forall i :: 0 <= i < |a| ==> IsDigit(a[i])
    requires forall i :: 0 <= i < |a'| ==> IsDigit(a'[i])
    requires a + "-" + b == a' + "-" + b'
    ensures a == a' && b == b'
  {
    var s := a + "-" + b;
    SeparatorAfterDigits(a, b, |a'|);
    SeparatorAfterDigits(a', b', |a|);
    if |a| == |a'| {
      assert a == s[..|a|];
      assert b == s[|a| + 1..];
    }
  }

  /** In `a + "-" + b` with `a` all digits, position |a| is the first '-'. */
  lemma SeparatorAfterDigits(a: string, b: string, k: nat)
    ensures (a + "-" + b)[|a|] == '-'
    ensures (forall i :: 0 <= i < |a| ==> IsDigit(a[i])) && k < |a| ==> IsDigit((a + "-" + b)[k])
  {
  }

  /** Distinct positions never receive the same fallback id. */
  lemma FallbackIdInjective(c: nat, t: nat, c': nat, t': nat)
    requires FallbackId(c, t) == FallbackId(c', t')
    ensures c == c' && t == t'
  {
    var p := "topic-";
    var x := FallbackId(c, t);
    assert x == p + (NatToString(c) + "-" + NatToString(t));
    assert x == p + (NatToString(c') + "-" + NatToString(t'));
    assert x[|p|..] == NatToString(c) + "-" + NatToString(t);
    assert x[|p|..] == NatToString(c') + "-" + NatToString(t');
    DigitsSplit(NatToString(c), NatToString(t), NatToString(c'), NatToString(t'));
    NatToStringInjective(c, c');
    NatToStringInjective(t, t');
  }

  /** `t.id || "topic-<c>-<t>"`. */
  function TopicWithId(topic: TrendingTopic, c: nat, t: nat): (r: TrendingTopic)
    ensures r == topic.(id := r.id)
    ensures topic.id != "" ==> r.id == topic.id
    ensures topic.id == "" ==> r.id == FallbackId(c, t)
    ensures r.id != ""
  {
    topic.(id := OrElse(topic.id, FallbackId(c, t)))
  }

  function NormaliseTopics(topics: seq<TrendingTopic>, c: nat): (r: seq<TrendingTopic>)
    ensures |r| == |topics|
    ensures forall t :: 0 <= t < |r| ==> r[t] == TopicWithId(topics[t], c, t)
  {
    seq(|topics|, t requires 0 <= t < |topics| => TopicWithId(topics[t], c, t))
  }

  /** The id pass of `handleScanTrends`: every topic keeps its fields and
      gets an id; the shape of the result is unchanged. */
  function NormaliseIds(categories: seq<TrendingCategory>): (r: seq<TrendingCategory>)
    ensures |r| == |categories|
    ensures forall c :: 0 <= c < |r| ==>
              && r[c].categoryName == categories[c].categoryName
              && |r[c].topics| == |categories[c].topics|
    ensures forall c, t :: 0 <= c < |r| && 0 <= t < |r[c].topics| ==>
              r[c].topics[t] == TopicWithId(categories[c].topics[t], c, t)
  {
    seq(|categories|, c requires 0 <= c < |categories| =>
      categories[c].(topics := NormaliseTopics(categories[c].topics, c)))
  }

  /** After normalisation no topic id is empty, and two topics that arrived
      without ids never share one. */
  lemma NormalisedIdsDistinct(categories: seq<TrendingCategory>, c: nat, t: nat, c': nat, t': nat)
    requires c < |categories| && t < |categories[c].topics| && categories[c].topics[t].id == ""
    requires c' < |categories| && t' < |categories[c'].topics| && categories[c'].topics[t'].id == ""
    requires (c, t) != (c', t')
    ensures NormaliseIds(categories)[c].topics[t].id != NormaliseIds(categories)[c'].topics[t'].id
  {
    var r := NormaliseIds(categories);
    if r[c].topics[t].id == r[c'].topics[t'].id {
      FallbackIdInjective(c, t, c', t');
    }
  }

  /** Normalising twice changes nothing. */
  lemma NormaliseIdempotent(categories: seq<TrendingCategory>)
    ensures NormaliseIds(NormaliseIds(categories)) == NormaliseIds(categories)
  {
    var r := NormaliseIds(categories);
    var rr := NormaliseIds(r);
    forall c | 0 <= c < |r| ensures rr[c] == r[c] {
      assert rr[c].topics == r[c].topics;
    }
  }

  // ---------------------------------------------------------------------------
  // Scanning

  /** The synchronous start of `handleScanTrends`: loading, every result
      cleared, and the search box showing a non-empty custom topic. */
  function StartScan(st: TrendState, customTopic: string): (r: TrendState)
    ensures r.loading
    ensures r.categories == [] && r.selectedTopic == None
    ensures r.generatedTitle == "" && r.generatedSubtitle == "" && r.generatedCover == ""
    ensures r.penName == "" && r.authorBio == ""
    ensures r.searchTerm == (if customTopic != "" then customTopic else st.searchTerm)
    ensures r.generatingConcept == st.generatingConcept
  {
    st.(loading := true, categories := [], selectedTopic := None,
        generatedTitle := "", generatedSubtitle := "", generatedCover := "",
        penName := "", authorBio := "",
        searchTerm := OrElse(customTopic, st.searchTerm))
  }

  /** Starting a scan discards everything but the search box and the concept
      flag: it is the mounted state, loading. Starting twice is starting once. */
  lemma StartScanForgets(st: TrendState, customTopic: string)
    ensures StartScan(st, customTopic) ==
              InitialTrends().(loading := true, generatingConcept := st.generatingConcept,
                               searchTerm := OrElse(customTopic, st.searchTerm))
    ensures StartScan(StartScan(st, customTopic), customTopic) == StartScan(st, customTopic)
  {
  }

  /** The whole scan: the categories returned, with ids, or none after a failure. */
  function ScanTrends(st: TrendState, customTopic: string,
                      reply: Gemini.Reply<Option<seq<TrendingCategory>>>): (r: TrendState)
    ensures !r.loading
    ensures reply.Failed? ==> r.categories == []
    ensures reply.Received? ==> r.categories == NormaliseIds(reply.value.GetOr([]))
    ensures r == StartScan(st, customTopic).(loading := false, categories := r.categories)
  {
    var s1 := StartScan(st, customTopic);
    match Gemini.TrendingTopics(reply)
    case Err(_) => s1.(loading := false)
    case Ok(categories) => s1.(loading := false, categories := NormaliseIds(categories))
  }

  /** After a scan every listed topic has an id, and two topics that arrived
      without one never share an id. */
  lemma ScanTrendsIds(st: TrendState, customTopic: string,
                      reply: Gemini.Reply<Option<seq<TrendingCategory>>>,
                      c: nat, t: nat, c': nat, t': nat)
    requires reply.Received?
    requires var raw := reply.value.GetOr([]);
             && c < |raw| && t < |raw[c].topics| && raw[c].topics[t].id == ""
             && c' < |raw| && t' < |raw[c'].topics| && raw[c'].topics[t'].id == ""
             && (c, t) != (c', t')
    ensures var r := ScanTrends(st, customTopic, reply).categories;
            && r[c].topics[t].id != "" && r[c'].topics[t'].id != ""
            && r[c].topics[t].id != r[c'].topics[t'].id
  {
    NormalisedIdsDistinct(reply.value.GetOr([]), c, t, c', t');
  }

  /** Every topic a scan lists has a non-empty id. */
  lemma ScanTrendsIdsNonEmpty(st: TrendState, customTopic: string,
                              reply: Gemini.Reply<Option<seq<TrendingCategory>>>)
    ensures var r := ScanTrends(st, customTopic, reply).categories;
            forall c, t :: 0 <= c < |r| && 0 <= t < |r[c].topics| ==> r[c].topics[t].id != ""
  {
  }

  // ---------------------------------------------------------------------------
  // Book concept

  /** The title the cover prompt names. */
  function FullTitle(title: string, subtitle: string): (r: string)
    ensures |title| <= |r| && r[..|title|] == title
    ensures subtitle == "" ==> r == title
    ensures subtitle != "" ==> r[|title|..] == ": " + subtitle
  {
    if subtitle != "" then title + ": " + subtitle else title
  }

  /** The author name the trend finder receives from the application. */
  const FallbackAuthor: string := "Bill Hanoman"

  function AuthorProp(authorName: string): (r: string)
    ensures r != ""
    ensures authorName != "" ==> r == authorName
    ensures authorName == "" ==> r == FallbackAuthor
  {
    OrElse(authorName, FallbackAuthor)
  }

  /** The name printed on the cover: the pen name, else the author prop. */
  function CoverAuthor(penName: string, authorProp: string): (r: string)
    ensures penName != "" ==> r == penName
    ensures penName == "" ==> r == authorProp
  {
    OrElse(penName, authorProp)
  }

  /** The cover request of `handleSelectTopic`. Its concept is the full
      title; the rest of the prompt (topic and audience) is wording. */
  function ConceptCoverRequest(categoryName: string, authorName: string,
                               titleData: (string, string), persona: (string, string))
    : (r: Gemini.CoverRequest)
    ensures r.concept == FullTitle(titleData.0, titleData.1)
    ensures r.author == CoverAuthor(persona.0, AuthorProp(authorName))
    ensures r.title == OrElse(titleData.0, "Book Title") && r.genre == OrElse(categoryName, "General")
  {
    Gemini.CoverRequestFor(FullTitle(titleData.0, titleData.1), titleData.0, categoryName,
                           CoverAuthor(persona.0, AuthorProp(authorName)))
  }

  /** A cover generated from a topic always carries an author: the persona
      fallback and the application's fallback both are non-empty. */
  lemma ConceptCoverHasAuthor(categoryName: string, authorName: string,
                              titleReply: Gemini.Reply<Gemini.TitleFields>,
                              personaReply: Gemini.Reply<Gemini.PersonaFields>)
    ensures ConceptCoverRequest(categoryName, authorName,
                                Gemini.TitleFromTopic(titleReply), Gemini.Persona(personaReply)).author != ""
  {
  }

  /** The persona call never yields an empty pen name, so the cover always
      names the pen name and the application's author never reaches it. */
  lemma CoverAuthorIsPenName(categoryName: string, authorName: string, titleData: (string, string),
                             personaReply: Gemini.Reply<Gemini.PersonaFields>)
    ensures ConceptCoverRequest(categoryName, authorName, titleData, Gemini.Persona(personaReply)).author
              == Gemini.Persona(personaReply).0
  {
  }

  /** `handleSelectTopic`: the topic is selected, the title and persona are
      shown whatever happens (their calls never fail), and the cover is set
      only when an image arrives. */
  function SelectTopic(st: TrendState, topic: TrendingTopic,
                       titleReply: Gemini.Reply<Gemini.TitleFields>,
                       personaReply: Gemini.Reply<Gemini.PersonaFields>,
                       coverReply: Gemini.Reply<Option<seq<Gemini.ResponsePart>>>): (r: TrendState)
    ensures r.selectedTopic == Some(topic) && !r.generatingConcept
    ensures (r.generatedTitle, r.generatedSubtitle) == Gemini.TitleFromTopic(titleReply)
    ensures (r.penName, r.authorBio) == Gemini.Persona(personaReply)
    ensures r.generatedTitle != "" && r.penName != ""
    ensures r.generatedCover == (match Gemini.CoverImage(coverReply) case Ok(url) => url case Err(_) => "")
    ensures r.loading == st.loading && r.categories == st.categories && r.searchTerm == st.searchTerm
  {
    var titleData := Gemini.TitleFromTopic(titleReply);
    var persona := Gemini.Persona(personaReply);
    var cover := match Gemini.CoverImage(coverReply) case Ok(url) => url case Err(_) => "";
    st.(selectedTopic := Some(topic), generatingConcept := false,
        generatedTitle := titleData.0, generatedSubtitle := titleData.1,
        penName := persona.0, authorBio := persona.1, generatedCover := cover)
  }

  // ---------------------------------------------------------------------------
  // Score display

  /** A score as displayed: a missing or zero score shows `fallback`. */
  function DisplayScore(score: Option<int>, fallback: int): (r: int)
    ensures score.Some? && score.value != 0 ==> r == score.value
    ensures score.None? || score.value == 0 ==> r == fallback
  {
    if score.Some? && score.value != 0 then score.value else fallback
  }

  /** The interest score on a grid card; 75 when missing or zero. */
  function GridInterest(t: TrendingTopic): (r: int)
    ensures t.interestScore.Some? && t.interestScore.value != 0 ==> r == t.interestScore.value
    ensures t.interestScore.None? || t.interestScore.value == 0 ==> r == 75
  {
    DisplayScore(t.interestScore, 75)
  }

  /** The demand score on a grid card; 60 when missing or zero. */
  function GridDemand(t: TrendingTopic): (r: int)
    ensures t.marketDemandScore.Some? && t.marketDemandScore.value != 0 ==> r == t.marketDemandScore.value
    ensures t.marketDemandScore.None? || t.marketDemandScore.value == 0 ==> r == 60
  {
    DisplayScore(t.marketDemandScore, 60)
  }

  /** The interest score in the detail view; 80 when missing or zero. */
  function DetailInterest(t: TrendingTopic): (r: int)
    ensures t.interestScore.Some? && t.interestScore.value != 0 ==> r == t.interestScore.value
    ensures t.interestScore.None? || t.interestScore.value == 0 ==> r == 80
  {
    DisplayScore(t.interestScore, 80)
  }

  /** The demand score in the detail view; 80 when missing or zero. */
  function DetailDemand(t: TrendingTopic): (r: int)
    ensures t.marketDemandScore.Some? && t.marketDemandScore.value != 0 ==> r == t.marketDemandScore.value
    ensures t.marketDemandScore.None? || t.marketDemandScore.value == 0 ==> r == 80
  {
    DisplayScore(t.marketDemandScore, 80)
  }

  /** The grid and the detail view agree on every score the reply gives; for
      a missing one the detail view shows more than the grid. */
  lemma GridAndDetailAgree(t: TrendingTopic)
    ensures t.interestScore.Some? && t.interestScore.value != 0 ==> GridInterest(t) == DetailInterest(t)
    ensures t.marketDemandScore.Some? && t.marketDemandScore.value != 0 ==> GridDemand(t) == DetailDemand(t)
    ensures t.interestScore.None? || t.interestScore.value == 0 ==> GridInterest(t) < DetailInterest(t)
    ensures t.marketDemandScore.None? || t.marketDemandScore.value == 0 ==> GridDemand(t) < DetailDemand(t)
  {
  }

  /** Displayed scores are percentages and never zero when the reply's
      scores are within the documented range (or missing). */
  lemma DisplayedScoresArePercent(t: TrendingTopic)
    requires t.interestScore.Some? ==> IsPercent(t.interestScore.value)
    requires t.marketDemandScore.Some? ==> IsPercent(t.marketDemandScore.value)
    ensures IsPercent(GridInterest(t)) && IsPercent(GridDemand(t))
    ensures IsPercent(DetailInterest(t)) && IsPercent(DetailDemand(t))
    ensures GridInterest(t) > 0 && GridDemand(t) > 0 && DetailInterest(t) > 0 && DetailDemand(t) > 0
  {
  }
}
