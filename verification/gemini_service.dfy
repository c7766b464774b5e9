/** The deterministic parts of the AI service wrapper (services/geminiService.ts):
    the data-URL parser and formatter, the assembly of the analysis request's
    parts, the fix list sent for a description rewrite, and the fallback values
    each call substitutes for a missing or failed reply. The AI calls
    themselves are inputs: a `Reply` is either the call's failure or what it
    returned. Prompt wording is not modelled; instruction parts are tagged by kind. */
module Gemini {
  import opened Base
  import opened Text
  import opened Types

  /** What an AI call produced: it threw with a message, or it returned a value.
      For JSON replies the value is the parsed object with each field optional;
      an empty response text parses as the call's default object. */
  datatype Reply<T> = Failed(message: string) | Received(value: T)

  // ---------------------------------------------------------------------------
  // Data URLs

  /** Base64 payload with its media type. */
  datatype InlineData = InlineData(mimeType: string, data: string)

  const DataScheme: string := "data:"
  const Base64Marker: string := ";base64,"
  const PdfMimeType: string := "application/pdf"

  /** `data:<mimeType>;base64,<data>`: the template with which the cover
      generator turns an image part into a URL (services/geminiService.ts:201). */
  function FormatDataUrl(blob: InlineData): string {
    DataScheme + blob.mimeType + Base64Marker + blob.data
  }

  predicate MarkerAt(s: string, p: nat) {
    p + |Base64Marker| <= |s| && s[p..p + |Base64Marker|] == Base64Marker
  }

  /** The pattern `^data:(.+);base64,(.+)$` matches `s` with group 1 ending at
      `p`: both groups non-empty and no line terminator after the scheme
      (`.` does not match one, and `$` is the end of the input). */
  ghost predicate PatternMatchAt(s: string, p: nat) {
    && StartsWith(s, DataScheme)
    && |DataScheme| < p
    && MarkerAt(s, p)
    && p + |Base64Marker| < |s|
    && forall i :: |DataScheme| <= i < |s| ==> !IsLineTerminator(s[i])
  }

  /** The greatest position in [lo, hi] where the marker starts, or -1. */
  function LastMarker(s: string, lo: nat, hi: int): (r: int)
    ensures r == -1 || (lo <= r <= hi && MarkerAt(s, r))
    ensures forall p: nat :: lo <= p <= hi && r < p ==> !MarkerAt(s, p)
    decreases hi - lo + 1
  {
    if hi < lo then -1
    else if MarkerAt(s, hi) then hi
    else LastMarker(s, lo, hi - 1)
  }

  /** The regular-expression parse in `analyzeContent`. Group 1 is greedy, so
      it ends at the LAST marker that leaves a non-empty group 2. */
  function ParseDataUrl(s: string): (r: Option<InlineData>)
    ensures r.Some? <==> exists p: nat :: PatternMatchAt(s, p)
    ensures r.Some? ==> exists p: nat :: && PatternMatchAt(s, p)
                                         && r.value == InlineData(s[|DataScheme|..p], s[p + |Base64Marker|..])
                                         && forall q: nat :: PatternMatchAt(s, q) ==> q <= p
  {
    var n := |DataScheme|;
    if !StartsWith(s, DataScheme) || |s| < n + |Base64Marker| + 2 then None
    else if exists i :: n <= i < |s| && IsLineTerminator(s[i]) then None
    else
      var p := LastMarker(s, n + 1, |s| - |Base64Marker| - 1);
      if p < 0 then None
      else
        assert PatternMatchAt(s, p);
        Some(InlineData(s[n..p], s[p + |Base64Marker|..]))
  }

  /** A data URL that parses is exactly the formatting of what it parses to. */
  lemma ParseSound(s: string)
    requires ParseDataUrl(s).Some?
    ensures FormatDataUrl(ParseDataUrl(s).value) == s
  {
  }

  /** Formatting then parsing recovers the media type and payload, provided
      both are non-empty and free of line terminators and the payload holds no
      ';' (base64 never does). */
  lemma {:induction false} FormatParseRoundTrip(blob: InlineData)
    requires blob.mimeType != "" && blob.data != ""
    requires forall i :: 0 <= i < |blob.mimeType| ==> !IsLineTerminator(blob.mimeType[i])
    requires forall i :: 0 <= i < |blob.data| ==> !IsLineTerminator(blob.data[i]) && blob.data[i] != ';'
    ensures ParseDataUrl(FormatDataUrl(blob)) == Some(blob)
  {
    var s := FormatDataUrl(blob);
    var m := blob.mimeType;
    var p0 := |DataScheme| + |m|;
    assert s[..|DataScheme|] == DataScheme;
    assert s[p0..p0 + |Base64Marker|] == Base64Marker;
    assert s[|DataScheme|..p0] == m;
    assert s[p0 + |Base64Marker|..] == blob.data;
    forall i | |DataScheme| <= i < |s| ensures !IsLineTerminator(s[i]) {
      if i < p0 { assert s[i] == m[i - |DataScheme|]; }
      else if i < p0 + |Base64Marker| { assert s[i] == Base64Marker[i - p0]; }
      else { assert s[i] == blob.data[i - p0 - |Base64Marker|]; }
    }
    assert PatternMatchAt(s, p0);
    forall q: nat | p0 < q ensures !PatternMatchAt(s, q) {
      NoMarkerAfter(blob, q);
    }
  }

  /** Past the marker it inserts, a formatted URL holds no further marker. */
  lemma NoMarkerAfter(blob: InlineData, q: nat)
    requires forall i :: 0 <= i < |blob.data| ==> blob.data[i] != ';'
    requires |DataScheme| + |blob.mimeType| < q
    ensures !MarkerAt(FormatDataUrl(blob), q)
  {
    var s := FormatDataUrl(blob);
    var p0 := |DataScheme| + |blob.mimeType|;
    MarkerOpensWithSemicolon(s, q);
    if q < |s| {
      if q < p0 + |Base64Marker| {
        assert s[q] == Base64Marker[q - p0];
      } else {
        assert s[q] == blob.data[q - p0 - |Base64Marker|];
      }
    }
  }

  lemma MarkerOpensWithSemicolon(s: string, q: nat)
    ensures MarkerAt(s, q) ==> q < |s| && s[q] == ';'
  {
  }

  // ---------------------------------------------------------------------------
  // The analysis request

  const NoContentMessage: string := "No content provided for analysis."
  const EmptyResponseMessage: string := "Empty response from AI."

  datatype InstructionKind = PdfInstruction | ImageInstruction | ConsultantInstruction

  /** One part of the request: inline file data, a fixed instruction, or the
      user's text (wrapped in a fixed preamble). */
  datatype Part = Inline(blob: InlineData) | Instruction(kind: InstructionKind) | UserText(text: string)

  /** The file data the request carries: a non-empty data URL that parses. */
  function FileBlob(fileDataUrl: Option<string>): Option<InlineData> {
    if fileDataUrl.Some? && fileDataUrl.value != "" then ParseDataUrl(fileDataUrl.value) else None
  }

  /** The parts `analyzeContent` sends, or its "no content" failure. A file
      string that does not parse adds nothing (the source only logs a warning). */
  function BuildParts(text: string, fileDataUrl: Option<string>): (r: Result<seq<Part>>)
    ensures r.Err? <==> FileBlob(fileDataUrl).None? && text == ""
    ensures r.Err? ==> r.message == NoContentMessage
    ensures r.Ok? ==> |r.value| == 1 + (if FileBlob(fileDataUrl).Some? then 2 else 0) + (if text != "" then 1 else 0)
    ensures r.Ok? ==> r.value[|r.value| - 1] == Instruction(ConsultantInstruction)
                      && forall i :: 0 <= i < |r.value| - 1 ==> r.value[i] != Instruction(ConsultantInstruction)
    ensures r.Ok? && FileBlob(fileDataUrl).Some? ==>
              && r.value[0] == Inline(FileBlob(fileDataUrl).value)
              && (r.value[1] == Instruction(PdfInstruction) <==> FileBlob(fileDataUrl).value.mimeType == PdfMimeType)
              && (r.value[1] == Instruction(ImageInstruction) <==> FileBlob(fileDataUrl).value.mimeType != PdfMimeType)
    ensures r.Ok? && text != "" ==> r.value[|r.value| - 2] == UserText(text)
    ensures r.Ok? ==> forall i :: 0 <= i < |r.value| && r.value[i].Inline? ==> i == 0 && FileBlob(fileDataUrl).Some?
  {
    var fileParts :=
      match FileBlob(fileDataUrl)
      case Some(blob) =>
        [Inline(blob), Instruction(if blob.mimeType == PdfMimeType then PdfInstruction else ImageInstruction)]
      case None => [];
    var textParts := if text != "" then [UserText(text)] else [];
    var parts := fileParts + textParts;
    if parts == [] then Err(NoContentMessage)
    else Ok(parts + [Instruction(ConsultantInstruction)])
  }

  /** `analyzeContent`: fail before any call when there is nothing to analyse;
      otherwise the AI reply decides (an empty reply text is an error). */
  function AnalyzeContent(text: string, fileDataUrl: Option<string>,
                          reply: Reply<Option<AnalysisResult>>): (r: Result<AnalysisResult>)
    ensures BuildParts(text, fileDataUrl).Err? ==> r == Err(NoContentMessage)
    ensures r.Ok? ==> BuildParts(text, fileDataUrl).Ok? && reply == Received(Some(r.value))
    ensures BuildParts(text, fileDataUrl).Ok? && reply == Received(None) ==> r == Err(EmptyResponseMessage)
    ensures BuildParts(text, fileDataUrl).Ok? && reply.Failed? ==> r == Err(reply.message)
    ensures BuildParts(text, fileDataUrl).Ok? && reply.Received? && reply.value.Some? ==> r == Ok(reply.value.value)
  {
    match BuildParts(text, fileDataUrl)
    case Err(m) => Err(m)
    case Ok(_) =>
      match reply
      case Failed(m) => Err(m)
      case Received(None) => Err(EmptyResponseMessage)
      case Received(Some(result)) => Ok(result)
  }

  // ---------------------------------------------------------------------------
  // Cover images

  const NoImageMessage: string := "No image generated in the response."

  /** What `generateCoverImage` puts into its prompt besides the concept:
      title, author and genre, each with its default. */
  datatype CoverRequest = CoverRequest(concept: string, title: string, author: string, genre: string)

  function CoverRequestFor(concept: string, title: string, genre: string, author: string): (r: CoverRequest)
    ensures r.concept == concept
    ensures r.title == OrElse(title, "Book Title") && r.genre == OrElse(genre, "General")
    ensures r.author == author
    ensures r.title != "" && r.genre != ""
  {
    CoverRequest(concept, OrElse(title, "Book Title"), OrElse(author, ""), OrElse(genre, "General"))
  }

  /** A response part; `inlineData` fields the reply lacks are empty strings. */
  datatype ResponsePart = ResponsePart(inlineData: Option<InlineData>)

  predicate IsImagePart(p: ResponsePart) {
    p.inlineData.Some? && p.inlineData.value.mimeType != "" && p.inlineData.value.data != ""
  }

  /** `parts[i]` is the first image part. */
  predicate FirstImageAt(parts: seq<ResponsePart>, i: int) {
    0 <= i < |parts| && IsImagePart(parts[i]) && forall j :: 0 <= j < i ==> !IsImagePart(parts[j])
  }

  /** Position of the first part carrying both a media type and data, or -1. */
  function FirstImage(parts: seq<ResponsePart>): (r: int)
    ensures -1 <= r < |parts|
    ensures r >= 0 ==> FirstImageAt(parts, r)
    ensures r == -1 <==> forall j :: 0 <= j < |parts| ==> !IsImagePart(parts[j])
  {
    if parts == [] then -1
    else if IsImagePart(parts[0]) then 0
    else
      var k := FirstImage(parts[1..]);
      if k == -1 then -1 else k + 1
  }

  /** `generateCoverImage`'s result: the first image part as a data URL; a
      failure when the call failed or no part (or no part list) holds an image. */
  function CoverImage(reply: Reply<Option<seq<ResponsePart>>>): (r: Result<string>)
    ensures reply.Failed? ==> r == Err(reply.message)
    ensures r.Ok? ==> && reply.Received? && reply.value.Some?
                      && exists i :: FirstImageAt(reply.value.value, i)
                                     && r.value == FormatDataUrl(reply.value.value[i].inlineData.value)
    ensures reply.Received? && (reply.value.None? ||
              forall j :: 0 <= j < |reply.value.value| ==> !IsImagePart(reply.value.value[j]))
            ==> r == Err(NoImageMessage)
    ensures reply.Received? && reply.value.Some? && FirstImage(reply.value.value) >= 0 ==>
              r == Ok(FormatDataUrl(reply.value.value[FirstImage(reply.value.value)].inlineData.value))
  {
    match reply
    case Failed(m) => Err(m)
    case Received(None) => Err(NoImageMessage)
    case Received(Some(parts)) =>
      var i := FirstImage(parts);
      if i < 0 then Err(NoImageMessage) else Ok(FormatDataUrl(parts[i].inlineData.value))
  }

  // ---------------------------------------------------------------------------
  // Rewriting the description with fixes

  const NoFixesMessage: string := "No fixes provided to integrate."

  /** One line of the fix list: the weakness at that index (`None` prints as
      "undefined" when the index is out of range) and its fix. */
  datatype FixEntry = FixEntry(index: nat, weakness: Option<string>, fix: string)

  /** A set holding `x` has a least element; descend while a smaller one exists. */
  lemma MinExists(s: set<nat>, x: nat)
    requires x in s
    ensures exists k :: k in s && forall j :: j in s ==> k <= j
    decreases x
  {
    if !forall j :: j in s ==> x <= j {
      var y :| y in s && y < x;
      MinExists(s, y);
    }
  }

  function Min(s: set<nat>): (k: nat)
    requires s != {}
    ensures k in s && forall j :: j in s ==> k <= j
  {
    var x :| x in s;
    MinExists(s, x);
    var k :| k in s && forall j :: j in s ==> k <= j;
    k
  }

  /** The keys in ascending order: `Object.entries` lists integer keys that way. */
  function SortedKeys(s: set<nat>): (r: seq<nat>)
    ensures |r| == |s|
    ensures forall k :: k in s <==> k in r
    ensures forall i, j :: 0 <= i < j < |r| ==> r[i] < r[j]
    decreases |s|
  {
    if s == {} then []
    else
      var k := Min(s);
      [k] + SortedKeys(s - {k})
  }

  function EntriesFor(keys: seq<nat>, fixes: IndexMap, weaknesses: seq<string>): (r: seq<FixEntry>)
    requires forall i :: 0 <= i < |keys| ==> keys[i] in fixes
    ensures |r| == |keys|
    ensures forall i :: 0 <= i < |r| ==> r[i].index == keys[i] && r[i].fix == fixes[keys[i]]
    ensures forall i :: 0 <= i < |r| ==>
              r[i].weakness == (if keys[i] < |weaknesses| then Some(weaknesses[keys[i]]) else None)
  {
    if keys == [] then []
    else
      var k := keys[0];
      [FixEntry(k, if k < |weaknesses| then Some(weaknesses[k]) else None, fixes[k])]
        + EntriesFor(keys[1..], fixes, weaknesses)
  }

  /** The fix list `integrateFixesIntoDescription` builds: one entry per fix,
      in ascending index order. */
  function FixEntries(fixes: IndexMap, weaknesses: seq<string>): (r: seq<FixEntry>)
    ensures |r| == |fixes|
    ensures forall i :: 0 <= i < |r| ==> r[i].index in fixes && r[i].fix == fixes[r[i].index]
    ensures forall i :: 0 <= i < |r| ==>
              r[i].weakness == (if r[i].index < |weaknesses| then Some(weaknesses[r[i].index]) else None)
  {
    var keys := SortedKeys(fixes.Keys);
    assert |fixes.Keys| == |fixes|;
    EntriesFor(keys, fixes, weaknesses)
  }

  /** Every fix is listed, and the list runs in strictly ascending index order. */
  lemma FixEntriesOrdered(fixes: IndexMap, weaknesses: seq<string>)
    ensures forall k :: k in fixes ==>
              exists i :: 0 <= i < |FixEntries(fixes, weaknesses)| && FixEntries(fixes, weaknesses)[i].index == k
    ensures forall i, j :: 0 <= i < j < |FixEntries(fixes, weaknesses)| ==>
              FixEntries(fixes, weaknesses)[i].index < FixEntries(fixes, weaknesses)[j].index
  {
    var keys := SortedKeys(fixes.Keys);
    var r := FixEntries(fixes, weaknesses);
    assert r == EntriesFor(keys, fixes, weaknesses);
    forall k | k in fixes ensures exists i :: 0 <= i < |r| && r[i].index == k {
      var i :| 0 <= i < |keys| && keys[i] == k;
      assert r[i].index == k;
    }
  }

  /** `integrateFixesIntoDescription`: fail before any call when there are no
      fixes; otherwise the rewritten description and HTML the AI returned. */
  function IntegrateFixes(fixes: IndexMap, weaknesses: seq<string>,
                          reply: Reply<(string, string)>): (r: Result<(string, string)>)
    ensures |fixes| == 0 ==> r == Err(NoFixesMessage)
    ensures |fixes| > 0 && reply.Failed? ==> r == Err(reply.message)
    ensures |fixes| > 0 && reply.Received? ==> r == Ok(reply.value)
  {
    if |FixEntries(fixes, weaknesses)| == 0 then Err(NoFixesMessage)
    else match reply
      case Failed(m) => Err(m)
      case Received(v) => Ok(v)
  }

  // ---------------------------------------------------------------------------
  // Fallback values

  const UntitledTitle: string := "Untitled"
  const UntitledBook: string := "Untitled Book"
  const DefaultPenName: string := "Author Name"
  const NoFixMessage: string := "Unable to generate a fix."

  datatype TitleFields = TitleFields(title: Option<string>, subtitle: Option<string>)
  datatype PersonaFields = PersonaFields(penName: Option<string>, bio: Option<string>)

  /** `generateTitleFromTopic`: missing fields default, failures give "Untitled Book". */
  function TitleFromTopic(reply: Reply<TitleFields>): (r: (string, string))
    ensures r.0 != ""
    ensures reply.Failed? ==> r == (UntitledBook, "")
    ensures reply.Received? ==> r.0 == OptOrElse(reply.value.title, UntitledTitle)
                                && r.1 == OptOrElse(reply.value.subtitle, "")
  {
    match reply
    case Failed(_) => (UntitledBook, "")
    case Received(f) => (OptOrElse(f.title, UntitledTitle), OptOrElse(f.subtitle, ""))
  }

  /** `generatePersona`: a missing or failed pen name is "Author Name", a missing bio is empty. */
  function Persona(reply: Reply<PersonaFields>): (r: (string, string))
    ensures r.0 != ""
    ensures reply.Failed? ==> r == (DefaultPenName, "")
    ensures reply.Received? ==> r.0 == OptOrElse(reply.value.penName, DefaultPenName)
                                && r.1 == OptOrElse(reply.value.bio, "")
  {
    match reply
    case Failed(_) => (DefaultPenName, "")
    case Received(f) => (OptOrElse(f.penName, DefaultPenName), OptOrElse(f.bio, ""))
  }

  /** `generateNewCoverConcepts`: the concepts returned, else the empty list; never fails. */
  function NewCoverConcepts(reply: Reply<Option<seq<string>>>): (r: seq<string>)
    ensures reply.Received? && reply.value.Some? ==> r == reply.value.value
    ensures reply.Failed? || reply.value.None? ==> r == []
  {
    match reply
    case Received(Some(c)) => c
    case _ => []
  }

  /** `generateSpecificFix`: the reply text, a fixed message for an empty one;
      failures propagate. */
  function SpecificFix(reply: Reply<string>): (r: Result<string>)
    ensures reply.Failed? ==> r == Err(reply.message)
    ensures reply.Received? ==> r.Ok? && r.value != ""
    ensures reply.Received? && reply.value != "" ==> r == Ok(reply.value)
    ensures reply == Received("") ==> r == Ok(NoFixMessage)
  {
    match reply
    case Failed(m) => Err(m)
    case Received(t) => Ok(OrElse(t, NoFixMessage))
  }

  /** `generateAuthorBio`: the reply text; empty on failure. */
  function AuthorBio(reply: Reply<string>): (r: string)
    ensures reply.Failed? ==> r == ""
    ensures reply.Received? ==> r == reply.value
  {
    match reply
    case Failed(_) => ""
    case Received(t) => t
  }

  /** `getTrendingTopics`: the categories returned, else the empty list;
      failures propagate. */
  function TrendingTopics(reply: Reply<Option<seq<TrendingCategory>>>): (r: Result<seq<TrendingCategory>>)
    ensures reply.Failed? ==> r == Err(reply.message)
    ensures reply.Received? ==> r == Ok(reply.value.GetOr([]))
  {
    match reply
    case Failed(m) => Err(m)
    case Received(c) => Ok(c.GetOr([]))
  }
}
