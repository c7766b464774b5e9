/** The rules of the Markdown and PDF report downloads (App.tsx) that do not
    depend on layout: the report title, the fix shown for each weakness, and
    the download file names. */
module Report {
  import opened Text
  import opened Types

  /** The report title when neither the active title nor the result's title is set. */
  const DefaultReportTitle: string := "BookScope Analysis"

  /** Shown for a weakness that has neither an interactive nor a generated fix. */
  const FixPlaceholder: string := "Use the dashboard \"Fix This\" button to generate a specific solution."

  /** `activeTitle || data.title || 'BookScope Analysis'`. */
  function ReportTitle(activeTitle: string, data: AnalysisResult): (r: string)
    ensures r != ""
    ensures r in {activeTitle, data.title, DefaultReportTitle}
    ensures activeTitle != "" ==> r == activeTitle
    ensures activeTitle == "" && data.title != "" ==> r == data.title
    ensures activeTitle == "" && data.title == "" ==> r == DefaultReportTitle
  {
    OrElse(activeTitle, OrElse(data.title, DefaultReportTitle))
  }

  /** The fix reported for weakness `i`: the interactive fix if it is
      non-empty, else the generated fix at `i` if non-empty, else the placeholder. */
  function WeaknessFix(fixes: IndexMap, generated: seq<string>, i: nat): (r: string)
    ensures r != ""
    ensures i in fixes && fixes[i] != "" ==> r == fixes[i]
    ensures !(i in fixes && fixes[i] != "") && i < |generated| && generated[i] != "" ==> r == generated[i]
    ensures !(i in fixes && fixes[i] != "") && !(i < |generated| && generated[i] != "") ==> r == FixPlaceholder
    ensures r == FixPlaceholder || (i in fixes && r == fixes[i]) || (i < |generated| && r == generated[i])
  {
    if i in fixes && fixes[i] != "" then fixes[i]
    else if i < |generated| && generated[i] != "" then generated[i]
    else FixPlaceholder
  }

  /** One reported fix per weakness, in weakness order. */
  function WeaknessFixes(fixes: IndexMap, data: AnalysisResult): (r: seq<string>)
    ensures |r| == |data.weaknesses|
    ensures forall i :: 0 <= i < |r| ==> r[i] == WeaknessFix(fixes, data.weaknessFixes, i)
  {
    seq(|data.weaknesses|, i requires 0 <= i => WeaknessFix(fixes, data.weaknessFixes, i))
  }

  /** Recording an interactive fix changes the report at that weakness only,
      and the report then shows the recorded fix. */
  lemma FixUpdateChangesOneLine(fixes: IndexMap, data: AnalysisResult, index: nat, fix: string)
    requires index < |data.weaknesses| && fix != ""
    ensures var before := WeaknessFixes(fixes, data);
            var after := WeaknessFixes(fixes[index := fix], data);
            && after[index] == fix
            && forall i :: 0 <= i < |after| && i != index ==> after[i] == before[i]
  {
  }

  predicate IsAsciiAlnum(c: char) {
    ('a' <= c <= 'z') || ('A' <= c <= 'Z') || ('0' <= c <= '9')
  }

  /** `replace(/[^a-z0-9]/gi, '_')`: every character outside [a-zA-Z0-9] becomes '_'. */
  function Sanitize(t: string): (r: string)
    ensures |r| == |t|
    ensures forall i :: 0 <= i < |t| ==> (IsAsciiAlnum(t[i]) ==> r[i] == t[i])
    ensures forall i :: 0 <= i < |t| ==> (!IsAsciiAlnum(t[i]) ==> r[i] == '_')
  {
    seq(|t|, i requires 0 <= i < |t| => if IsAsciiAlnum(t[i]) then t[i] else '_')
  }

  function AsciiLower(c: char): char {
    if 'A' <= c <= 'Z' then (c as int + 32) as char else c
  }

  /** `toLowerCase()` on a sanitised title. Its characters are all ASCII, so
      lowering the letters A-Z is the whole of JavaScript's case mapping. */
  function LowerSanitized(t: string): (r: string)
    requires forall i :: 0 <= i < |t| ==> IsAsciiAlnum(t[i]) || t[i] == '_'
    ensures |r| == |t|
    ensures forall i :: 0 <= i < |r| ==> r[i] == AsciiLower(t[i])
  {
    seq(|t|, i requires 0 <= i < |t| => AsciiLower(t[i]))
  }

  /** The stem of the Markdown file name: the title sanitised, then lower-cased. */
  function MarkdownStem(title: string): (r: string)
    ensures |r| == |title|
    ensures forall i :: 0 <= i < |r| ==> ('a' <= r[i] <= 'z') || ('0' <= r[i] <= '9') || r[i] == '_'
    ensures forall i :: 0 <= i < |r| ==> (r[i] == '_' <==> !IsAsciiAlnum(title[i]))
    ensures forall i :: 0 <= i < |r| ==> r[i] == (if IsAsciiAlnum(title[i]) then AsciiLower(title[i]) else '_')
  {
    LowerSanitized(Sanitize(title))
  }

  /** Stems are stable: a stem used as a title yields itself. */
  lemma MarkdownStemIdempotent(title: string)
    ensures MarkdownStem(MarkdownStem(title)) == MarkdownStem(title)
  {
  }

  /** Titles that differ only in letter case or in which non-alphanumeric
      characters they use share one file name. */
  lemma MarkdownStemCollides(a: string, b: string)
    requires |a| == |b|
    requires forall i :: 0 <= i < |a| ==> IsAsciiAlnum(a[i]) == IsAsciiAlnum(b[i])
    requires forall i :: 0 <= i < |a| && IsAsciiAlnum(a[i]) ==> AsciiLower(a[i]) == AsciiLower(b[i])
    ensures MarkdownStem(a) == MarkdownStem(b)
  {
  }

  /** The downloaded Markdown report's file name: the stem of the report
      title, then `_report.md`. */
  function MarkdownFileName(activeTitle: string, data: AnalysisResult): (r: string)
    ensures var n := |ReportTitle(activeTitle, data)|;
            |r| == n + 10 && r[n..] == "_report.md"
            && forall i :: 0 <= i < n ==> ('a' <= r[i] <= 'z') || ('0' <= r[i] <= '9') || r[i] == '_'
    ensures var t := ReportTitle(activeTitle, data);
            r[..|t|] == MarkdownStem(t)
            && forall i :: 0 <= i < |t| ==> r[i] == (if IsAsciiAlnum(t[i]) then AsciiLower(t[i]) else '_')
  {
    MarkdownStem(ReportTitle(activeTitle, data)) + "_report.md"
  }

  /** The downloaded PDF's file name: the report title sanitised but not
      lower-cased, then `_Fixed_Assets.pdf`. */
  function PdfFileName(activeTitle: string, data: AnalysisResult): (r: string)
    ensures var t := ReportTitle(activeTitle, data);
            |r| == |t| + 17 && r[|t|..] == "_Fixed_Assets.pdf"
            && forall i :: 0 <= i < |t| ==> (r[i] == t[i] <==> IsAsciiAlnum(t[i]) || t[i] == '_')
    ensures var t := ReportTitle(activeTitle, data);
            r[..|t|] == Sanitize(t)
            && forall i :: 0 <= i < |t| ==> r[i] == (if IsAsciiAlnum(t[i]) then t[i] else '_')
  {
    Sanitize(ReportTitle(activeTitle, data)) + "_Fixed_Assets.pdf"
  }
}
