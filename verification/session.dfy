/** The session controller of the application component (App.tsx): the
    interactive state, its autosave into the history list, loading a saved
    session, reset, delete, and the per-index edits. Each handler is a pure
    transition from the state before the event to the state after it; the
    clock is a parameter and AI replies are inputs. */
module Session {
  import opened Base
  import opened Text
  import opened Types
  import HistoryStore

  /** The author page the form starts with and falls back to. */
  const DefaultAuthorUrl: string := "https://www.amazon.com/author/billhanoman"

  /** Shown when a failed analysis carries no message. */
  const AnalysisFailedMessage: string := "Something went wrong during analysis."

  /** Everything the application component keeps in React state. */
  datatype AppState = AppState(
    mode: AppMode,
    isLoading: bool,
    data: Option<AnalysisResult>,
    error: Option<string>,
    history: seq<HistoryItem>,
    currentId: Option<string>,
    showHistoryModal: bool,
    activeTitle: string,
    currentCoverIdeas: seq<string>,
    specificFixes: IndexMap,
    coverImages: IndexMap,
    customTitles: seq<string>,
    authorName: string,
    authorUrl: string,
    authorBio: string,
    aplusContent: Option<AplusContent>,
    aplusImages: IndexMap)

  /** The state on first render: no result, no session, an empty list, and
      the default author page. */
  function Initial(): (r: AppState)
    ensures !HasSession(r) && r.data == None && r.error == None && r.currentId == None
    ensures r.mode == Analyze && !r.isLoading && !r.showHistoryModal && r.history == []
    ensures r.authorUrl == DefaultAuthorUrl
  {
    AppState(Analyze, false, None, None, [], None, false, "", [], map[], map[], [],
             "", DefaultAuthorUrl, "", None, map[])
  }

  /** The autosave guard `data && currentHistoryId`: a result is shown and the
      session id is set (an empty id is falsy). */
  predicate HasSession(s: AppState) {
    s.data.Some? && s.currentId.Some? && s.currentId.value != ""
  }

  // ---------------------------------------------------------------------------
  // Autosave

  /** The interactive part of the state, frozen for persistence. */
  function Freeze(s: AppState): InteractiveState {
    InteractiveState(s.activeTitle, s.currentCoverIdeas, s.specificFixes, s.coverImages,
                     Some(s.customTitles), Some(s.authorName), Some(s.authorUrl),
                     Some(s.authorBio), s.aplusContent, Some(s.aplusImages))
  }

  /** The item autosave builds at time `now`, if it fires at all. */
  function Snapshot(s: AppState, now: int): (r: Option<HistoryItem>)
    ensures r.Some? <==> HasSession(s)
    ensures r.Some? ==> r.value.id == s.currentId.value && r.value.timestamp == now
    ensures r.Some? ==> r.value.title != "" || (s.activeTitle == "" && s.data.value.title == "")
    ensures r.Some? && s.activeTitle != "" ==> r.value.title == s.activeTitle
    ensures r.Some? && s.activeTitle == "" ==> r.value.title == s.data.value.title
    ensures r.Some? ==> && r.value.result == s.data.value
                        && r.value.summary == s.data.value.summary
                        && r.value.interactiveState == Freeze(s)
  {
    if HasSession(s) then
      var d := s.data.value;
      Some(HistoryItem(s.currentId.value, now, OrElse(s.activeTitle, d.title), d.summary, d, Freeze(s)))
    else None
  }

  /** First position holding `id`, or -1 (`Array.prototype.findIndex`). */
  function FindIndex(h: seq<HistoryItem>, id: string): (r: int)
    ensures -1 <= r < |h|
    ensures r >= 0 ==> h[r].id == id && forall j :: 0 <= j < r ==> h[j].id != id
    ensures r == -1 <==> forall j :: 0 <= j < |h| ==> h[j].id != id
  {
    if h == [] then -1
    else if h[0].id == id then 0
    else
      var k := FindIndex(h[1..], id);
      if k == -1 then -1 else k + 1
  }

  /** The in-memory list update: replace the entry with the item's id in place,
      otherwise put the item in front. */
  function Merge(h: seq<HistoryItem>, item: HistoryItem): (r: seq<HistoryItem>)
    ensures FindIndex(h, item.id) >= 0 ==>
              var i := FindIndex(h, item.id);
              |r| == |h| && r[i] == item && forall j :: 0 <= j < |h| && j != i ==> r[j] == h[j]
    ensures FindIndex(h, item.id) == -1 ==> |r| == |h| + 1 && r[0] == item && r[1..] == h
  {
    var i := FindIndex(h, item.id);
    if i >= 0 then h[i := item] else [item] + h
  }

  /** Ids are unique in a list. */
  ghost predicate UniqueIds(h: seq<HistoryItem>) {
    forall i, j :: 0 <= i < j < |h| ==> h[i].id != h[j].id
  }

  /** Merging keeps the list free of duplicate ids and leaves exactly one entry,
      the new item, under its id. */
  lemma MergeKeepsIdsUnique(h: seq<HistoryItem>, item: HistoryItem)
    requires UniqueIds(h)
    ensures UniqueIds(Merge(h, item))
    ensures forall j :: 0 <= j < |Merge(h, item)| && Merge(h, item)[j].id == item.id ==>
              Merge(h, item)[j] == item
  {
  }

  /** An autosave step: the new state and the item handed to the store.
      Nothing happens without an active session; otherwise only the history
      list changes. */
  function Autosave(s: AppState, now: int): (r: (AppState, Option<HistoryItem>))
    ensures !HasSession(s) ==> r.0 == s && r.1 == None
    ensures HasSession(s) ==> r.1.Some? && r.0 == s.(history := Merge(s.history, r.1.value))
    ensures r.1 == Snapshot(s, now)
  {
    var item := Snapshot(s, now);
    if item.Some? then (s.(history := Merge(s.history, item.value)), item) else (s, None)
  }

  /** Autosave together with the fire-and-forget write: the in-memory list is
      updated from the snapshot whatever the store does with the item, and the
      store receives the snapshot through `saveHistoryItem`, retention included. */
  method AutosaveAndPersist(s: AppState, db: HistoryStore.Db, now: int)
    returns (s': AppState, db': HistoryStore.Db)
    requires HistoryStore.Valid(db)
    ensures HistoryStore.Valid(db')
    ensures s' == Autosave(s, now).0
    ensures !HasSession(s) ==> db' == db
    ensures HasSession(s) && db.Available? ==> db'.Available?
    ensures HasSession(s) && db.Available? && s.currentId.value in db'.store ==>
              db'.store[s.currentId.value] == Snapshot(s, now).value
    ensures HasSession(s) && db.Unavailable? ==> db' == db
    ensures HasSession(s) && db.Available? ==>
              HistoryStore.RetainsNewest(HistoryStore.Put(db.store, Snapshot(s, now).value), db'.store)
    ensures HasSession(s) && db.Available? ==>
              exists all :: && HistoryStore.Enumerates(all, HistoryStore.Put(db.store, Snapshot(s, now).value))
                            && db' == HistoryStore.Save(db, Snapshot(s, now).value, all)
  {
    var step := Autosave(s, now);
    s' := step.0;
    db' := db;
    if step.1.Some? {
      db' := HistoryStore.SaveHistoryItem(db, step.1.value);
    }
  }

  // ---------------------------------------------------------------------------
  // Start-up, analysis, load, delete, reset

  /** Start-up: the list is whatever `getHistory` returns ([] on failure). */
  method InitHistory(s: AppState, db: HistoryStore.Db) returns (s': AppState)
    requires HistoryStore.Valid(db)
    ensures s' == s.(history := s'.history)
    ensures db.Unavailable? ==> s'.history == []
    ensures db.Available? ==> HistoryStore.Enumerates(s'.history, db.store)
                              && HistoryStore.SortedDesc(s'.history)
  {
    var loaded := HistoryStore.GetHistory(db);
    s' := s.(history := loaded);
  }

  /** `handleAnalyze` once the analysis call has settled with `outcome`; `now`
      is the clock reading that becomes the new session id. */
  function HandleAnalyze(s: AppState, outcome: Result<AnalysisResult>, now: nat): (r: AppState)
    ensures !r.isLoading
    ensures outcome.Ok? ==> HasSession(r) && r.data == Some(outcome.value) && r.error == None
    ensures outcome.Ok? ==> r.currentId == Some(NatToString(now))
    ensures outcome.Ok? ==> r.activeTitle == outcome.value.title
                            && r.currentCoverIdeas == outcome.value.coverDesignIdeas
                            && r.specificFixes == map[] && r.coverImages == map[]
                            && r.customTitles == [] && r.aplusContent == None
                            && r.aplusImages == map[]
    ensures outcome.Ok? ==> r.authorUrl != "" && (s.authorUrl != "" ==> r.authorUrl == s.authorUrl)
    ensures outcome.Ok? && s.authorUrl == "" ==> r.authorUrl == DefaultAuthorUrl
    ensures outcome.Ok? ==> r.authorName == outcome.value.author && r.authorBio == outcome.value.authorBio
    ensures outcome.Ok? ==> r.showHistoryModal == s.showHistoryModal
    ensures outcome.Ok? ==> r.history == s.history && r.mode == s.mode
    ensures outcome.Err? ==> r == s.(isLoading := false, error := r.error)
    ensures outcome.Err? ==> r.error.Some? && r.error.value != ""
    ensures outcome.Err? && outcome.message != "" ==> r.error == Some(outcome.message)
    ensures outcome.Err? && outcome.message == "" ==> r.error == Some(AnalysisFailedMessage)
  {
    match outcome
    case Ok(result) =>
      s.(isLoading := false, error := None, data := Some(result),
         activeTitle := result.title, currentCoverIdeas := result.coverDesignIdeas,
         specificFixes := map[], coverImages := map[], customTitles := [],
         authorName := result.author,
         authorUrl := OrElse(s.authorUrl, DefaultAuthorUrl),
         authorBio := result.authorBio, aplusContent := None, aplusImages := map[],
         currentId := Some(NatToString(now)))
    case Err(message) =>
      s.(isLoading := false, error := Some(OrElse(message, AnalysisFailedMessage)))
  }

  /** `loadHistoryItem`: restore a saved session, defaulting the fields older
      sessions may lack, and switch to the analysis view. */
  function LoadHistoryItem(s: AppState, item: HistoryItem): (r: AppState)
    ensures r.currentId == Some(item.id) && r.data == Some(item.result)
    ensures r.mode == Analyze && !r.showHistoryModal
    ensures r.history == s.history && r.error == s.error && r.isLoading == s.isLoading
    ensures var st := item.interactiveState;
            && r.activeTitle == st.activeTitle && r.currentCoverIdeas == st.currentCoverIdeas
            && r.specificFixes == st.specificFixes && r.coverImages == st.coverImages
            && r.aplusContent == st.aplusContent
    ensures var st := item.interactiveState;
            r.customTitles == (if st.customTitles.Some? then st.customTitles.value else [])
    ensures var st := item.interactiveState;
            r.aplusImages == (if st.aplusImages.Some? then st.aplusImages.value else map[])
    ensures var n := item.interactiveState.authorName;
            r.authorName == (if n.Some? && n.value != "" then n.value else item.result.author)
    ensures var u := item.interactiveState.authorUrl;
            r.authorUrl == (if u.Some? && u.value != "" then u.value else DefaultAuthorUrl)
    ensures var b := item.interactiveState.authorBio;
            r.authorBio == (if b.Some? && b.value != "" then b.value else item.result.authorBio)
    ensures r.authorUrl != ""
  {
    var st := item.interactiveState;
    s.(data := Some(item.result),
       activeTitle := st.activeTitle,
       currentCoverIdeas := st.currentCoverIdeas,
       specificFixes := st.specificFixes,
       coverImages := st.coverImages,
       customTitles := st.customTitles.GetOr([]),
       authorName := OptOrElse(st.authorName, OrElse(item.result.author, "")),
       authorUrl := OptOrElse(st.authorUrl, DefaultAuthorUrl),
       authorBio := OptOrElse(st.authorBio, OrElse(item.result.authorBio, "")),
       aplusContent := st.aplusContent,
       aplusImages := st.aplusImages.GetOr(map[]),
       currentId := Some(item.id),
       showHistoryModal := false,
       mode := Analyze)
  }

  /** Loading what autosave saved restores the session: the same result, id and
      edits, with the author fields read through their fallbacks. */
  lemma LoadSnapshotRoundTrip(s: AppState, t: AppState, now: int)
    requires HasSession(s)
    ensures var r := LoadHistoryItem(t, Snapshot(s, now).value);
            && r.data == s.data && r.currentId == s.currentId
            && r.activeTitle == s.activeTitle
            && r.currentCoverIdeas == s.currentCoverIdeas
            && r.specificFixes == s.specificFixes && r.coverImages == s.coverImages
            && r.customTitles == s.customTitles
            && r.authorName == OrElse(s.authorName, s.data.value.author)
            && r.authorUrl == OrElse(s.authorUrl, DefaultAuthorUrl)
            && r.authorBio == OrElse(s.authorBio, s.data.value.authorBio)
            && r.aplusContent == s.aplusContent && r.aplusImages == s.aplusImages
            && HasSession(r)
  {
  }

  /** A successful analysis under a fresh id is saved as a new entry at the
      front of the list on the next autosave. */
  lemma AnalyzeThenAutosavePrepends(s: AppState, result: AnalysisResult, now: nat, later: int)
    requires forall j :: 0 <= j < |s.history| ==> s.history[j].id != NatToString(now)
    ensures var a := HandleAnalyze(s, Ok(result), now);
            var step := Autosave(a, later);
            && step.1.Some? && step.1.value.id == NatToString(now)
            && step.0.history == [step.1.value] + s.history
  {
  }

  /** `handleReset`: back to the no-session baseline; the author URL, the
      history list and the view mode are kept. */
  function HandleReset(s: AppState): (r: AppState)
    ensures !HasSession(r) && r.currentId == None && r.data == None && r.error == None
    ensures r.activeTitle == "" && r.currentCoverIdeas == [] && r.customTitles == []
    ensures r.specificFixes == map[] && r.coverImages == map[] && r.aplusImages == map[]
    ensures r.authorName == "" && r.authorBio == "" && r.aplusContent == None
    ensures r.authorUrl == s.authorUrl && r.history == s.history && r.mode == s.mode
    ensures r.isLoading == s.isLoading && r.showHistoryModal == s.showHistoryModal
  {
    s.(data := None, error := None, activeTitle := "", currentCoverIdeas := [],
       specificFixes := map[], coverImages := map[], customTitles := [],
       authorName := "", authorBio := "", aplusContent := None, aplusImages := map[],
       currentId := None)
  }

  /** Reset returns to the first-render state, except for what it keeps: the
      author URL, the history list, the view and the two flags. */
  lemma ResetRestoresInitial(s: AppState)
    ensures HandleReset(s) == Initial().(authorUrl := s.authorUrl, history := s.history, mode := s.mode,
                                         isLoading := s.isLoading, showHistoryModal := s.showHistoryModal)
  {
  }

  /** Resetting twice is resetting once, and autosave does nothing after a reset. */
  lemma ResetIdempotent(s: AppState, now: int)
    ensures HandleReset(HandleReset(s)) == HandleReset(s)
    ensures Autosave(HandleReset(s), now).0 == HandleReset(s)
    ensures Autosave(HandleReset(s), now).1 == None
  {
  }

  /** `handleDeleteHistory` once the store returned the refreshed list: adopt
      it, and reset only if the deleted session is the one shown. */
  function HandleDeleteHistory(s: AppState, id: string, updated: seq<HistoryItem>): (r: AppState)
    ensures r.history == updated
    ensures s.currentId == Some(id) ==> r == HandleReset(s).(history := updated)
    ensures s.currentId != Some(id) ==> r == s.(history := updated)
  {
    var s1 := s.(history := updated);
    if s.currentId == Some(id) then HandleReset(s1) else s1
  }

  /** Deleting through the store: the store loses the id, the list becomes
      its refreshed newest-first listing, and the session is reset exactly
      when it was the one deleted. */
  method DeleteSession(s: AppState, db: HistoryStore.Db, id: string)
    returns (s': AppState, db': HistoryStore.Db)
    requires HistoryStore.Valid(db)
    ensures HistoryStore.Valid(db')
    ensures forall i :: 0 <= i < |s'.history| ==> s'.history[i].id != id
    ensures s.currentId == Some(id) ==> !HasSession(s')
    ensures s.currentId == Some(id) ==> s' == HandleReset(s).(history := s'.history)
    ensures s.currentId != Some(id) ==> s' == s.(history := s'.history)
    ensures db.Unavailable? ==> s'.history == []
    ensures db' == (if db.Available? then HistoryStore.Available(HistoryStore.Remove(db.store, id)) else db)
    ensures db.Available? ==> HistoryStore.Enumerates(s'.history, db'.store) && HistoryStore.SortedDesc(s'.history)
  {
    var updated;
    db', updated := HistoryStore.DeleteHistoryItem(db, id);
    s' := HandleDeleteHistory(s, id, updated);
  }

  // ---------------------------------------------------------------------------
  // Per-index edits

  /** `handleFixUpdate`: set the fix for one weakness; nothing else changes. */
  function HandleFixUpdate(s: AppState, index: nat, fix: string): (r: AppState)
    ensures index in r.specificFixes && r.specificFixes[index] == fix
    ensures forall k :: k != index ==> (k in r.specificFixes <==> k in s.specificFixes)
    ensures forall k :: k != index && k in s.specificFixes ==> r.specificFixes[k] == s.specificFixes[k]
    ensures r == s.(specificFixes := r.specificFixes)
  {
    s.(specificFixes := s.specificFixes[index := fix])
  }

  /** `handleCoverImageUpdate`: set the image for one cover concept; nothing else changes. */
  function HandleCoverImageUpdate(s: AppState, index: nat, url: string): (r: AppState)
    ensures index in r.coverImages && r.coverImages[index] == url
    ensures forall k :: k != index ==> (k in r.coverImages <==> k in s.coverImages)
    ensures forall k :: k != index && k in s.coverImages ==> r.coverImages[k] == s.coverImages[k]
    ensures r == s.(coverImages := r.coverImages)
  {
    s.(coverImages := s.coverImages[index := url])
  }

  /** `handleAplusImageUpdate`: set the image for one A+ module; nothing else changes. */
  function HandleAplusImageUpdate(s: AppState, index: nat, url: string): (r: AppState)
    ensures index in r.aplusImages && r.aplusImages[index] == url
    ensures forall k :: k != index ==> (k in r.aplusImages <==> k in s.aplusImages)
    ensures forall k :: k != index && k in s.aplusImages ==> r.aplusImages[k] == s.aplusImages[k]
    ensures r == s.(aplusImages := r.aplusImages)
  {
    s.(aplusImages := s.aplusImages[index := url])
  }

  /** `handleDescriptionUpdate`: replace the rewritten description and its
      HTML when a result is shown; otherwise nothing happens. */
  function HandleDescriptionUpdate(s: AppState, desc: string, html: string): (r: AppState)
    ensures s.data.None? ==> r == s
    ensures s.data.Some? ==> r.data.Some? && r.data.value.improvedDescription == desc
                             && r.data.value.amazonKdpHtml == html
    ensures s.data.Some? ==> r.data.value == s.data.value.(improvedDescription := desc, amazonKdpHtml := html)
    ensures r == s.(data := r.data)
  {
    if s.data.Some? then
      s.(data := Some(s.data.value.(improvedDescription := desc, amazonKdpHtml := html)))
    else s
  }
}
