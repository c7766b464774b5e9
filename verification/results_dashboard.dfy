/** The results dashboard (components/ResultsDashboard.tsx): title selection,
    custom titles, the per-weakness fix button, the description rewrite, the
    bio generator and the sentiment score colour. Its callbacks are the
    application's handlers, so each event is a transition of the session
    state; AI replies are inputs. */
module Dashboard {
  import opened Base
  import opened Text
  import opened Types
  import opened Session
  import Gemini

  // ---------------------------------------------------------------------------
  // Titles

  /** `handleTitleSelect`, given the concepts `generateNewCoverConcepts`
      returned for the new title (it never fails; its fallback is []). */
  function TitleSelect(s: AppState, newTitle: string, concepts: seq<string>): (r: AppState)
    ensures newTitle == s.activeTitle ==> r == s
    ensures newTitle != s.activeTitle ==> r.activeTitle == newTitle
    ensures r.currentCoverIdeas == (if newTitle != s.activeTitle && |concepts| > 0 then concepts else s.currentCoverIdeas)
    ensures r == s.(activeTitle := r.activeTitle, currentCoverIdeas := r.currentCoverIdeas)
  {
    if newTitle == s.activeTitle then s
    else
      var s1 := s.(activeTitle := newTitle);
      if |concepts| > 0 then s1.(currentCoverIdeas := concepts) else s1
  }

  /** `handleAddCustomTitle` on the title input `input`: returns the new state
      and the new content of the input box. The dashboard is only shown with
      a result, whose suggestions also count as existing titles. */
  function AddCustomTitle(s: AppState, input: string, concepts: seq<string>)
    : (r: (AppState, string))
    requires s.data.Some?
    ensures var suggestions := s.data.value.titleSuggestions;
            !Blank(input) ==> && r.0.customTitles ==
                                   (if Trim(input) in s.customTitles || Trim(input) in suggestions
                                    then s.customTitles else s.customTitles + [Trim(input)])
    ensures Blank(input) ==> r == (s, input)
    ensures !Blank(input) ==> && r.1 == ""
                              && r.0.activeTitle == Trim(input)
    ensures r.0.customTitles[..|s.customTitles|] == s.customTitles
    ensures !Blank(input) ==> Trim(input) in r.0.customTitles || Trim(input) in s.data.value.titleSuggestions
    ensures r.0 == s.(activeTitle := r.0.activeTitle, currentCoverIdeas := r.0.currentCoverIdeas,
                      customTitles := r.0.customTitles)
    ensures !Blank(input) ==> r.0 == TitleSelect(s.(customTitles := r.0.customTitles), Trim(input), concepts)
  {
    var t := Trim(input);
    var suggestions := s.data.value.titleSuggestions;
    if t == "" then (s, input)
    else
      var custom := if t !in s.customTitles && t !in suggestions then s.customTitles + [t] else s.customTitles;
      (TitleSelect(s.(customTitles := custom), t, concepts), "")
  }

  /** No title is listed twice, counting the generated suggestions. */
  ghost predicate TitlesDistinct(custom: seq<string>, suggestions: seq<string>) {
    && (forall i, j :: 0 <= i < j < |custom| ==> custom[i] != custom[j])
    && (forall i :: 0 <= i < |custom| ==> custom[i] !in suggestions)
  }

  /** Adding a custom title never introduces a duplicate. */
  lemma AddCustomTitleKeepsDistinct(s: AppState, input: string, concepts: seq<string>)
    requires s.data.Some? && TitlesDistinct(s.customTitles, s.data.value.titleSuggestions)
    ensures TitlesDistinct(AddCustomTitle(s, input, concepts).0.customTitles, s.data.value.titleSuggestions)
  {
  }

  /** Typing the same title again changes no list: the second add only selects it. */
  lemma AddCustomTitleTwice(s: AppState, input: string, concepts: seq<string>,
                            input2: string, concepts2: seq<string>)
    requires s.data.Some? && Trim(input2) == Trim(input)
    ensures var s1 := AddCustomTitle(s, input, concepts).0;
            s1.data.Some? && AddCustomTitle(s1, input2, concepts2).0.customTitles == s1.customTitles
  {
  }

  /** Choosing another title in an open session and letting autosave fire
      stores that title, and the concepts fetched for it when there were any. */
  lemma TitleSelectThenAutosave(s: AppState, newTitle: string, concepts: seq<string>, now: int)
    requires HasSession(s) && newTitle != s.activeTitle
    ensures var item := Autosave(TitleSelect(s, newTitle, concepts), now).1;
            && item.Some?
            && item.value.interactiveState.activeTitle == newTitle
            && (newTitle != "" ==> item.value.title == newTitle)
            && item.value.interactiveState.currentCoverIdeas ==
                 (if |concepts| > 0 then concepts else s.currentCoverIdeas)
            && item.value.result == s.data.value
  {
  }

  /** When the concept request fails, choosing another title keeps the
      concepts on screen. */
  lemma FailedConceptsKeepIdeas(s: AppState, newTitle: string, reply: Gemini.Reply<Option<seq<string>>>)
    requires reply.Failed? || reply.value.None?
    ensures TitleSelect(s, newTitle, Gemini.NewCoverConcepts(reply)).currentCoverIdeas == s.currentCoverIdeas
  {
  }

  // ---------------------------------------------------------------------------
  // Fixes and the rewritten description

  /** The label of the fix button for weakness `index`: a stored, non-empty fix
      makes it a retry. */
  function FixLabel(fixes: IndexMap, index: nat): (r: string)
    ensures r == "Fix Again" <==> index in fixes && fixes[index] != ""
    ensures r == "Fix This" <==> !(index in fixes && fixes[index] != "")
  {
    if index in fixes && fixes[index] != "" then "Fix Again" else "Fix This"
  }

  /** `handleGenerateFix`: a fix that arrives is stored for that weakness; a
      failure leaves the state alone. */
  function GenerateFix(s: AppState, index: nat, reply: Gemini.Reply<string>): (r: AppState)
    ensures reply.Failed? ==> r == s
    ensures reply.Received? ==> r == HandleFixUpdate(s, index, Gemini.SpecificFix(reply).value)
  {
    match Gemini.SpecificFix(reply)
    case Err(_) => s
    case Ok(fix) => HandleFixUpdate(s, index, fix)
  }

  /** After any fix arrives for a weakness, its button offers to fix it again. */
  lemma GeneratedFixRelabels(s: AppState, index: nat, reply: Gemini.Reply<string>)
    requires reply.Received?
    ensures FixLabel(GenerateFix(s, index, reply).specificFixes, index) == "Fix Again"
  {
  }

  /** `handleRewriteDescription`: nothing happens without fixes; otherwise the
      rewrite replaces the description and its HTML, and a failure changes nothing. */
  function RewriteDescription(s: AppState, reply: Gemini.Reply<(string, string)>): (r: AppState)
    requires s.data.Some?
    ensures |s.specificFixes| == 0 ==> r == s
    ensures reply.Failed? ==> r == s
    ensures |s.specificFixes| > 0 && reply.Received? ==>
              r.data == Some(s.data.value.(improvedDescription := reply.value.0, amazonKdpHtml := reply.value.1))
    ensures r == s.(data := r.data)
  {
    if |s.specificFixes| == 0 then s
    else
      match Gemini.IntegrateFixes(s.specificFixes, s.data.value.weaknesses, reply)
      case Err(_) => s
      case Ok((desc, html)) => HandleDescriptionUpdate(s, desc, html)
  }

  /** A rewrite that arrives in an open session reaches the history with the
      next autosave: the stored result carries the new description and HTML. */
  lemma RewriteThenAutosave(s: AppState, reply: Gemini.Reply<(string, string)>, now: int)
    requires HasSession(s) && |s.specificFixes| > 0 && reply.Received?
    ensures var item := Autosave(RewriteDescription(s, reply), now).1;
            && item.Some?
            && item.value.result.improvedDescription == reply.value.0
            && item.value.result.amazonKdpHtml == reply.value.1
            && item.value.result == s.data.value.(improvedDescription := reply.value.0,
                                                  amazonKdpHtml := reply.value.1)
  {
  }

  /** `handleGenerateBio`: a non-empty bio replaces the current one; an empty
      reply or a failure keeps it. */
  function GenerateBio(s: AppState, reply: Gemini.Reply<string>): (r: AppState)
    ensures reply.Received? && reply.value != "" ==> r == s.(authorBio := reply.value)
    ensures reply.Failed? || reply.value == "" ==> r == s
  {
    var bio := Gemini.AuthorBio(reply);
    if bio != "" then s.(authorBio := bio) else s
  }

  /** The bio generator never empties a bio, and repeating it with the same
      reply changes nothing further. */
  lemma GenerateBioKeepsBio(s: AppState, reply: Gemini.Reply<string>)
    ensures s.authorBio != "" ==> GenerateBio(s, reply).authorBio != ""
    ensures GenerateBio(GenerateBio(s, reply), reply) == GenerateBio(s, reply)
  {
  }

  /** `handleGenerateCover`: the cover for concept `index` is stored when an
      image arrives; otherwise nothing changes. */
  function GenerateCover(s: AppState, index: nat, reply: Gemini.Reply<Option<seq<Gemini.ResponsePart>>>)
    : (r: AppState)
    ensures Gemini.CoverImage(reply).Err? ==> r == s
    ensures Gemini.CoverImage(reply).Ok? ==> r == HandleCoverImageUpdate(s, index, Gemini.CoverImage(reply).value)
  {
    match Gemini.CoverImage(reply)
    case Err(_) => s
    case Ok(url) => HandleCoverImageUpdate(s, index, url)
  }

  // ---------------------------------------------------------------------------
  // Sentiment score colour

  datatype Band = Red | Yellow | Green

  function BandRank(b: Band): nat {
    match b
    case Red => 0
    case Yellow => 1
    case Green => 2
  }

  /** The colour of the sentiment score. */
  function ScoreBand(score: int): (r: Band)
    ensures r == Green <==> score > 75
    ensures r == Yellow <==> 40 < score <= 75
    ensures r == Red <==> score <= 40
  {
    if score > 75 then Green else if score > 40 then Yellow else Red
  }

  /** A higher score never gets a worse colour. */
  lemma ScoreBandMonotone(a: int, b: int)
    requires a <= b
    ensures BandRank(ScoreBand(a)) <= BandRank(ScoreBand(b))
  {
  }
}
