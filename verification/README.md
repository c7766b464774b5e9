# BookScope core, modelled in Dafny

BookScope is a browser application that analyses an ebook listing with a
generative-AI service. It keeps the user's working sessions in a local
history store and helps them improve titles, covers, descriptions and
fixes for weaknesses. This project models the deterministic core under the
React rendering and the AI SDK. It proves properties of that core. The
core consists of:

- **History store** (`HistoryStore`, services/historyService.ts). This is
  a keyed store of saved sessions. It supports listing newest-first,
  upsert by id, a retention rule that keeps the 20 newest sessions, and
  delete-by-id.
- **Session controller** (`Session`, App.tsx). This covers:
  - when autosave fires, and how it merges an item into the in-memory list;
  - starting an analysis, loading a saved session with defaults, reset
    and delete;
  - the per-index edits.
- **Report rules** (`Report`, App.tsx). These are the report title, the
  fix shown for each weakness, and the download file names.
- **AI service wrapper** (`Gemini`, services/geminiService.ts). This
  covers:
  - the data-URL parser and formatter;
  - the order of the analysis request's parts and its "no content" guard;
  - picking the image out of a cover reply and building the fix list;
  - the fallback values that stand in for missing or failed replies.
- **Results dashboard** (`Dashboard`, components/ResultsDashboard.tsx).
  This covers title selection, custom titles, fix generation and its
  button label, the description rewrite, bio generation and the score
  colour.
- **Trend finder** (`TrendFinder`, components/TrendFinder.tsx). This
  covers the topic-id pass, the state reset when a scan starts, the book
  concept built from a topic, and the displayed score defaults.
- **Input form** (`Input`, components/InputSection.tsx). This covers
  upload validation, clearing the file, the submit guard, the
  disabled-button rule and the mode switch.
- **Record shapes** (`Types`, types.ts). These are `AnalysisResult`,
  `HistoryItem`, `TrendingTopic`/`TrendingCategory`, `AppMode` and
  `InputMode`.
- **Shared helpers**. `Base` holds `Option` and `Result`. `Text` holds
  JavaScript's `trim`, `||` on strings, and decimal number strings.

Every handler is a pure transition from the state before an event to the
state after it. The browser database is an abstract map that may be
unavailable. AI replies are inputs: the call either failed with a message
or returned a value. The clock reading is a parameter.

Some choices in the model follow from how the code behaves:

- A JavaScript string used as a condition is false when empty. `a || b`
  on strings is therefore `OrElse(a, b)`, and `undefined` becomes an
  `Option`.
- `HistoryItem.interactiveState` declares `customTitles` and `authorName`
  as required (types.ts:56-57). `loadHistoryItem` still defaults them for
  older records, so the model makes them optional. The model also carries
  the optional A+ fields that App.tsx stores but types.ts does not
  declare.
- The regular expression `^data:(.+);base64,(.+)$` is modelled with
  JavaScript's regex semantics:
  - `.` matches no line terminator (`\n`, `\r`, U+2028, U+2029);
  - the greedy first group ends at the last `;base64,` that still leaves
    a non-empty payload.
- The fix and cover-image maps are keyed by array positions, so their
  keys are natural numbers. `Object.entries` then lists them in ascending
  order.

## Model

| member | source | states |
|---|---|---|
| HistoryStore.GetAll | services/historyService.ts:38-41 | The listing holds every stored item exactly as often as the store holds it, whatever order the store produces. |
| HistoryStore.SortDesc | services/historyService.ts:43 | The result is sorted newest-first by timestamp and is a permutation of the input. |
| HistoryStore.GetHistory | services/historyService.ts:32-53 | An unavailable database lists as []. Otherwise the result lists every stored item once, newest first. |
| HistoryStore.EnumeratesDistinct | services/historyService.ts:23 | Because `id` is the key path, a listing never holds two items with one id. |
| HistoryStore.EnumeratesLength | services/historyService.ts:73-77 | A listing has exactly as many entries as the store has keys, which is the count the retention rule tests. |
| HistoryStore.Put | services/historyService.ts:63 | The item is stored under its id and every other key is unchanged. The store grows by one exactly when the id was new. |
| HistoryStore.Prune | services/historyService.ts:77-84 | The sweep only deletes: survivors keep their fields. A store of 20 or fewer items is untouched. Above 20, every item listed from position 20 on is gone. |
| HistoryStore.PruneOnlyRemoves | services/historyService.ts:80-84 | Pruning deletes whole items only: every survivor keeps identical fields and the store stays keyed by id. With 20 or fewer items nothing is removed. |
| HistoryStore.PruneKeepsNewest | services/historyService.ts:77-84 | Above 20 items, exactly the ids of the first 20 of the newest-first listing survive, so 20 items remain. |
| HistoryStore.PruneEvictsOldest | services/historyService.ts:79-84 | No removed item is newer than any kept item. |
| HistoryStore.KeptNotOlder | services/historyService.ts:73-84 | In a newest-first listing of more than 20 items, an item among the first 20 is no older than any item outside them. |
| HistoryStore.OldestEvicted | services/historyService.ts:77-84 | When the store holds more than 20 items, the single oldest one is pruned. |
| HistoryStore.Save | services/historyService.ts:55-92 | An unavailable database stays unavailable. An available one stays available and keyed by id. With 20 or fewer items after the put, the store is exactly the store after the put. Above 20, exactly 20 of its items survive with unchanged fields, and no evicted item is newer than a survivor. |
| HistoryStore.SaveHistoryItem | services/historyService.ts:55-92 | An unavailable database is left untouched. Otherwise the result is the store after the put, or a pruned store of at most 20 items. Nothing new appears except the item, and survivors keep their fields. Above 20 items exactly 20 remain and no evicted item is newer than a survivor. The result is `Save` on some listing of the store after the put. |
| HistoryStore.SaveKeepsNewest | services/historyService.ts:69-85 | An item newer than every other stored item survives its own save, with its fields intact. |
| HistoryStore.SaveOverwrites | services/historyService.ts:63 | Saving an id that is already stored never grows the store. |
| HistoryStore.Remove | services/historyService.ts:100 | The id is gone and every other entry is untouched. |
| HistoryStore.RemoveIdempotent | services/historyService.ts:100 | Deleting twice is deleting once. Deleting an absent id changes nothing. |
| HistoryStore.DeleteHistoryItem | services/historyService.ts:94-112 | The store loses exactly that id. The refreshed list is newest-first and lacks the id. An unavailable database yields []. |
| Session.Snapshot | App.tsx:56-75 | An item is built exactly when a result and a non-empty session id exist. It carries the session id and the clock reading. Its title is the active title, or the result's title when the active title is empty. It stores the shown result, that result's summary, and the frozen interactive fields. |
| Session.FindIndex | App.tsx:81 | Returns the first position holding the id, or -1 exactly when the id is absent. |
| Session.Merge | App.tsx:80-88 | An entry with the same id is replaced in place, keeping the length and every other entry. Otherwise the item is prepended. |
| Session.MergeKeepsIdsUnique | App.tsx:80-88 | Merging keeps the ids in the list distinct. The only entry under the item's id is the item itself. |
| Session.Autosave | App.tsx:55-90 | Without a session nothing happens. Otherwise only the history list changes: the snapshot is merged into it by id. The item handed to the store is exactly the snapshot of the state. |
| Session.AutosaveAndPersist | App.tsx:77-88 | The in-memory list follows the snapshot whatever the store does. The store receives the snapshot through the save with retention: it equals `Save` of the snapshot on some listing, so the 20-newest rule holds. An unavailable store is untouched. A stored entry under the session id is the snapshot. |
| Session.InitHistory | App.tsx:43-51 | At start-up the list is the store's newest-first listing, or [] when the database is unavailable. |
| Session.HandleAnalyze | App.tsx:92-121 | On success, all interactive fields restart from the result and the session id becomes the clock reading. The author name and bio come from the result. The author URL keeps a non-empty value, or takes the default when empty. The history list, mode and history-modal flag are kept. On failure only the loading flag and the error change. The error is the failure's message, or "Something went wrong during analysis." when that is empty. |
| Session.AnalyzeThenAutosavePrepends | App.tsx:112-114 | After a successful analysis under a fresh id, the next autosave puts a new entry with that id in front of the old list. |
| Session.LoadHistoryItem | App.tsx:123-140 | The saved result, id and edits are restored. Missing fields default: custom titles to []; author name to the result's author; author URL to the fixed URL; bio to the result's bio; A+ images to {}. |
| Session.LoadSnapshotRoundTrip | App.tsx:123-136 | Loading what autosave saved restores the session, with the author fields read through their fallbacks. |
| Session.Initial | App.tsx:15-38 | The application mounts without a session, result, error or session id, in analyse mode, idle, with the history modal closed, an empty list and the default author URL. |
| Session.ResetRestoresInitial | App.tsx:154-168 | After a reset the state is the mount state, except that the author URL, history list, mode, loading flag and history-modal flag are carried over. |
| Session.HandleReset | App.tsx:154-168 | All session data and the session id are cleared. The author URL, history and mode are kept. |
| Session.ResetIdempotent | App.tsx:154-168 | Resetting twice is resetting once, and autosave does nothing after a reset. |
| Session.HandleDeleteHistory | App.tsx:142-152 | The list becomes the refreshed one. State is reset exactly when the deleted id is the active session. |
| Session.DeleteSession | App.tsx:142-152 | An available store loses exactly that id, and an unavailable one is left alone. The list becomes the store's refreshed newest-first listing, or [] when the store is unavailable, so it lacks the id. When the deleted id is the session on screen, the state is exactly the reset state with the new list. Otherwise only the list changes. |
| Session.HandleFixUpdate | App.tsx:170-172 | Only the fix at that index is set. Every other key and field is unchanged. |
| Session.HandleCoverImageUpdate | App.tsx:174-176 | Only the cover image at that index is set. Every other key and field is unchanged. |
| Session.HandleAplusImageUpdate | App.tsx:178-180 | Only the A+ image at that index is set. Every other key and field is unchanged. |
| Session.HandleDescriptionUpdate | App.tsx:182-190 | With a result shown, only its description and HTML change. Otherwise nothing changes. |
| Report.ReportTitle | App.tsx:196 | The title is never empty. It is the active title if non-empty; otherwise the result's title if non-empty; otherwise "BookScope Analysis". Each case is stated separately. |
| Report.WeaknessFix | App.tsx:230-232 | A non-empty interactive fix wins. Without one, a non-empty generated fix at that position is shown. Without either, the fixed placeholder is shown. The text is never empty. |
| Report.WeaknessFixes | App.tsx:226-236 | There is one reported fix per weakness, in weakness order. |
| Report.FixUpdateChangesOneLine | App.tsx:170-172 | Recording a fix changes the report at that weakness only, and the report then shows the recorded fix. |
| Report.Sanitize | App.tsx:272 | Same length: ASCII letters and digits are kept and every other character becomes '_'. |
| Report.MarkdownStem | App.tsx:272 | The stem has the title's length and uses only [a-z0-9_]. Each position holds the lower-cased title character when that is an ASCII letter or digit, and '_' otherwise. |
| Report.MarkdownStemIdempotent | App.tsx:272 | A stem used as a title yields itself. |
| Report.MarkdownStemCollides | App.tsx:272 | Titles differing only in letter case or in which non-alphanumeric characters they use share one file name. |
| Report.MarkdownFileName | App.tsx:272 | The name is the stem of the report title followed by "_report.md". Character by character, the stem is the lower-cased title with every non-alphanumeric character replaced by '_'. |
| Report.PdfFileName | App.tsx:441 | The name is the sanitised report title followed by "_Fixed_Assets.pdf". Character by character, ASCII letters and digits are kept with their case and every other character becomes '_'. |
| Gemini.ParseDataUrl | services/geminiService.ts:116-120 | The parse succeeds exactly when the pattern matches. It then yields the groups of the match whose first group is longest. |
| Gemini.ParseSound | services/geminiService.ts:116-120 | A data URL that parses is exactly the formatting of what it parses to. |
| Gemini.FormatParseRoundTrip | services/geminiService.ts:201 | `FormatDataUrl` is the `data:<mime type>;base64,<data>` template of this line. Formatting then parsing recovers (mime type, data) when both are non-empty, contain no line terminator, and the data contains no ';'. |
| Gemini.BuildParts | services/geminiService.ts:111-156 | Without usable file data and with empty text, the result is "No content provided for analysis.". Otherwise the parts are: inline data, then its instruction (the PDF instruction exactly for "application/pdf"), then the text, then the consultant instruction, which is always last. A file that does not parse adds nothing. |
| Gemini.AnalyzeContent | services/geminiService.ts:109-178 | The no-content failure comes before any call. A failed call passes its message on. An empty reply fails with "Empty response from AI.". Otherwise the parsed result is returned. |
| Gemini.CoverRequestFor | services/geminiService.ts:182-186 | The cover prompt uses the title or "Book Title", the author or "", and the genre or "General". |
| Gemini.FirstImage | services/geminiService.ts:199-203 | Returns the position of the first part with both a media type and data, or -1 exactly when there is none. |
| Gemini.CoverImage | services/geminiService.ts:196-206 | When the reply holds an image part, the result is the first one formatted as a data URL. It is "No image generated in the response." when there is none, and the call's error when the call failed. |
| Gemini.SortedKeys | services/geminiService.ts:321 | The fix indices come out in strictly ascending order, each exactly once. |
| Gemini.FixEntries | services/geminiService.ts:321-324 | There is one entry per fix, carrying the fix and the weakness at its index. The weakness is missing when the index is out of range. |
| Gemini.FixEntriesOrdered | services/geminiService.ts:321-324 | Every fix is listed, in ascending index order. |
| Gemini.IntegrateFixes | services/geminiService.ts:321-326 | An empty fix map fails with "No fixes provided to integrate." before any call. Otherwise the reply is passed through. |
| Gemini.TitleFromTopic | services/geminiService.ts:487-492 | Missing fields give the title "Untitled" and the subtitle "". A failure gives ("Untitled Book", ""). The title is never empty. |
| Gemini.Persona | services/geminiService.ts:521-526 | A missing pen name is "Author Name" and a missing bio is "". A failure gives both defaults. |
| Gemini.NewCoverConcepts | services/geminiService.ts:307-312 | The result is the returned concepts, else []. It never fails. |
| Gemini.SpecificFix | services/geminiService.ts:241-245 | The result is the reply text, or "Unable to generate a fix." for an empty reply. Failures propagate. |
| Gemini.AuthorBio | services/geminiService.ts:267-271 | The result is the reply text, or "" on failure. |
| Gemini.TrendingTopics | services/geminiService.ts:456-461 | The result is the returned categories, else []. Failures propagate. |
| Dashboard.TitleSelect | components/ResultsDashboard.tsx:99-115 | Selecting the active title does nothing. Otherwise the title is set, and the cover ideas are replaced only by a non-empty concept list. |
| Dashboard.AddCustomTitle | components/ResultsDashboard.tsx:117-128 | Blank input changes nothing. Otherwise the trimmed title is appended only when absent from both the custom titles and the shown result's suggestions, the existing order is kept, and the input is cleared. The title is then selected exactly as choosing it on the dashboard would, so the cover ideas follow the concept rule. |
| Dashboard.AddCustomTitleKeepsDistinct | components/ResultsDashboard.tsx:119-124 | Adding never lists a title twice, counting the generated suggestions. |
| Dashboard.AddCustomTitleTwice | components/ResultsDashboard.tsx:117-128 | Adding the same trimmed title again leaves the custom titles unchanged. |
| Dashboard.TitleSelectThenAutosave | components/ResultsDashboard.tsx:99-115 | Choosing another title in an open session, then autosaving, stores that title and the concepts fetched for it (or the old ones when none came), with the result unchanged. |
| Dashboard.FailedConceptsKeepIdeas | components/ResultsDashboard.tsx:106-111 | When the concept request fails or returns nothing, the cover ideas on screen are kept. |
| Dashboard.FixLabel | components/ResultsDashboard.tsx:321 | The label is "Fix Again" exactly when a non-empty fix is stored for the index, otherwise "Fix This". |
| Dashboard.GenerateFix | components/ResultsDashboard.tsx:144-155 | A fix that arrives is stored for that weakness. A failure changes nothing. |
| Dashboard.GeneratedFixRelabels | components/ResultsDashboard.tsx:321 | After any fix arrives for a weakness, its button reads "Fix Again". |
| Dashboard.RewriteDescription | components/ResultsDashboard.tsx:157-174 | An empty fix map changes nothing. Otherwise the reply replaces the description and HTML, and a failure changes nothing. |
| Dashboard.RewriteThenAutosave | components/ResultsDashboard.tsx:157-174 | A rewrite that arrives in an open session reaches the next autosaved item: its result carries the new description and HTML and is otherwise the shown result. |
| Dashboard.GenerateBio | components/ResultsDashboard.tsx:176-188 | A non-empty bio replaces the current one. An empty reply or a failure keeps it. |
| Dashboard.GenerateBioKeepsBio | components/ResultsDashboard.tsx:176-188 | Generating a bio never empties an existing bio, and repeating it with the same reply changes nothing further. |
| Dashboard.GenerateCover | components/ResultsDashboard.tsx:130-142 | An arriving image is stored for that concept index. Otherwise nothing changes. |
| Dashboard.ScoreBand | components/ResultsDashboard.tsx:243 | Scores above 75 are green, scores above 40 are yellow, and all others are red. |
| Dashboard.ScoreBandMonotone | components/ResultsDashboard.tsx:243 | A higher score never gets a worse colour. |
| TrendFinder.InitialTrends | components/TrendFinder.tsx:11-25 | The finder mounts idle with no categories, no selected topic, no concept and an empty search box. |
| TrendFinder.TopicWithId | components/TrendFinder.tsx:53-56 | A non-empty id is kept, else the id becomes "topic-c-t". All other fields are unchanged, and the id is never empty. |
| TrendFinder.NormaliseIds | components/TrendFinder.tsx:51-57 | The category count, names and topic counts are preserved. Each topic gets its id from its position. |
| TrendFinder.FallbackIdInjective | components/TrendFinder.tsx:55 | Distinct (category, topic) positions get distinct fallback ids. |
| TrendFinder.NormalisedIdsDistinct | components/TrendFinder.tsx:51-57 | Two topics that arrived without ids never share an id afterwards. |
| TrendFinder.NormaliseIdempotent | components/TrendFinder.tsx:51-57 | Normalising twice is normalising once. |
| TrendFinder.StartScan | components/TrendFinder.tsx:29-43 | A scan clears the categories, the selected topic, the generated title, subtitle and cover, the pen name and the bio. A non-empty custom topic becomes the search term. |
| TrendFinder.StartScanForgets | components/TrendFinder.tsx:29-43 | Starting a scan returns the mount state, loading, keeping only the search box and the concept flag. Starting twice is starting once. |
| TrendFinder.ScanTrends | components/TrendFinder.tsx:28-63 | The categories become the returned ones with normalised ids, or stay empty after a failure. Loading ends. |
| TrendFinder.ScanTrendsIds | components/TrendFinder.tsx:50-57 | After a scan, two topics that arrived without ids have non-empty, distinct ids. |
| TrendFinder.ScanTrendsIdsNonEmpty | components/TrendFinder.tsx:50-57 | Every topic a scan lists has a non-empty id. |
| TrendFinder.FullTitle | components/TrendFinder.tsx:89 | The full title is "title: subtitle" when the subtitle is non-empty, otherwise the title alone. |
| TrendFinder.AuthorProp | App.tsx:564 | The author handed to the trend finder is never empty: the user's name, or "Bill Hanoman". |
| TrendFinder.CoverAuthor | components/TrendFinder.tsx:97 | The cover author is the pen name, else the author prop. |
| TrendFinder.ConceptCoverRequest | components/TrendFinder.tsx:89-100 | The cover request names the full title, the generated title (or its default), the category as genre, and the cover author. |
| TrendFinder.ConceptCoverHasAuthor | components/TrendFinder.tsx:97 | A cover generated from a topic always carries a non-empty author name. |
| TrendFinder.CoverAuthorIsPenName | components/TrendFinder.tsx:97 | The persona's pen name is never empty, so the cover always names it. The fallback to the application's author name is never reached. |
| TrendFinder.SelectTopic | components/TrendFinder.tsx:67-109 | The topic is selected. Title and persona come from their fallbacks and are never empty. The cover is set only when an image arrives. The scan state is unchanged. |
| TrendFinder.DisplayScore | components/TrendFinder.tsx:212 | A missing or zero score shows the fallback. Any other score shows itself. |
| TrendFinder.GridInterest | components/TrendFinder.tsx:212 | A grid card shows the interest score, or 75 when it is missing or zero. |
| TrendFinder.GridDemand | components/TrendFinder.tsx:221 | A grid card shows the demand score, or 60 when it is missing or zero. |
| TrendFinder.DetailInterest | components/TrendFinder.tsx:332 | The detail view shows the interest score, or 80 when it is missing or zero. |
| TrendFinder.DetailDemand | components/TrendFinder.tsx:344 | The detail view shows the demand score, or 80 when it is missing or zero. |
| TrendFinder.GridAndDetailAgree | components/TrendFinder.tsx:212-344 | The grid and the detail view show the same score when the reply gives one. For a missing score the detail view shows more. |
| TrendFinder.DisplayedScoresArePercent | components/TrendFinder.tsx:332-344 | With in-range or missing scores, every displayed score is a non-zero percentage. |
| Input.InitialInput | components/InputSection.tsx:11-15 | The form mounts on the text tab with no text and no file, name or type. |
| Input.InitialCannotSubmit | components/InputSection.tsx:47-51 | The fresh form submits nothing and its button is disabled. |
| Input.AcceptsFileType | components/InputSection.tsx:22 | A file is accepted exactly when its type starts with "image/" or equals "application/pdf". |
| Input.FileUpload | components/InputSection.tsx:18-36 | A missing or rejected file leaves the state untouched. An accepted one records its name and type. |
| Input.UploadKeepsAcceptedType | components/InputSection.tsx:22-28 | Only accepted types ever become the recorded file type. |
| Input.FileLoaded | components/InputSection.tsx:30-33 | The reader's data URL becomes the selected file and nothing else changes. |
| Input.ClearFile | components/InputSection.tsx:38-45 | The file, its name and its type are cleared together. The mode and text are kept. |
| Input.ClearFileSubmit | components/InputSection.tsx:38-51 | After clearing the file, blank text submits nothing, and any other text is submitted without a file. |
| Input.SetMode | components/InputSection.tsx:59 | Switching tabs changes only the mode. |
| Input.Submit | components/InputSection.tsx:47-51 | Nothing is submitted exactly when the text is whitespace-only and there is no file. Otherwise the untrimmed text and the file are submitted. |
| Input.ButtonDisabled | components/InputSection.tsx:156 | The button is disabled exactly while loading, or when the raw text is empty and there is no file. |
| Input.SubmitImpliesEnabled | components/InputSection.tsx:156 | Whatever the submit guard lets through, the idle button allowed. |
| Input.WhitespaceEnabledButIgnored | components/InputSection.tsx:49 | Whitespace-only text enables the button, yet submitting it does nothing. |
| Input.SubmittedTextIsContent | components/InputSection.tsx:49-50 | Submitted non-blank text always gives the analysis request content. |
| Text.Trim | components/ResultsDashboard.tsx:118 | The result is a slice with only whitespace outside it, and its ends are not whitespace. It is empty exactly when the input is all whitespace. |
| Text.NatToString | App.tsx:113 | The result is a non-empty digit string without a leading zero unless it is "0". |
| Text.ParseNatToString | App.tsx:113 | Reading the id string back as a decimal number gives the clock reading. |
| Text.NatToStringInjective | App.tsx:113 | Distinct clock readings give distinct session ids. |

## Left out

- IndexedDB mechanics are not modelled: opening, the upgrade callback, transactions and request callbacks. The store is a map that is either available or not. Transient failures of a single request are not distinguished from an unavailable database.
- HistoryStore.SaveHistoryItem: the put and the prune run as one step. In the source the prune is a second, unawaited transaction, so no atomicity is claimed for real runs. The listing order is not modelled. In the source it is fixed: `getAll` returns records in key order, and the sort is stable. Every property here is proved for every listing order, which covers that one.
- The AI SDK calls and all prompt wording are not modelled. Every reply is an input: either a failure with its message or the parsed value. Instruction parts are tagged by kind rather than carrying their text, and the user text part carries the raw text without its preamble.
- Gemini.AnalyzeContent: malformed JSON is one kind of failed reply. The shape of the parsed object is not checked, as in the source.
- Gemini.IntegrateFixes: the fields of the rewrite reply are taken as present. The source would pass `undefined` on if the reply lacked them.
- React effects and their dependency lists are not modelled. Autosave is an explicit transition that the caller applies after each state change.
- `Date.now()` and `toLocaleDateString` are parameters, not clock reads.
- The jsPDF layout, the Markdown body text apart from the fix and title rules, the clipboard, `setTimeout`, `alert`, `FileReader`, `window.scrollTo` and the charts are not modelled.
- The social-media kit handler and the copy buttons of the dashboard only display AI output, so they are not modelled.
- components/HistoryList.tsx is not part of this model. It only renders the list.
- The A+ content is carried as an opaque document. Its modules and their generation are not modelled.
- JavaScript numbers are modelled as unbounded integers. Scores and timestamps are never NaN or fractional here.
- `result.author || ''` and similar fallbacks on result fields are plain strings, because the result record is modelled with every field present.
- `weaknessFixes?.[i]` is read from a sequence that is always present.
- Text.Trim: the whitespace set of the ECMAScript `trim` is modelled. No other Unicode processing is done.
- Report.Sanitize: strings are sequences of code points. A character outside the Basic Multilingual Plane becomes one '_', where the source's regex, which has no `u` flag, replaces each of its two UTF-16 code units. Report.MarkdownStem, Report.MarkdownFileName and Report.PdfFileName differ from the source in the same way.
- Lower-casing is modelled only for the ASCII characters a sanitised title can hold, which is all that reaches it.
