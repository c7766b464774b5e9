/** The input form (components/InputSection.tsx): the text/file mode switch,
    upload validation, clearing the file, the submit guard and the
    disabled-button rule. Reading the file is a separate event carrying the
    data URL the browser produced. */
module Input {
  import opened Base
  import opened Text
  import opened Types
  import Gemini

  datatype InputState = InputState(
    mode: InputMode,
    textInput: string,
    selectedFile: Option<string>,
    selectedFileName: string,
    selectedFileType: string)

  /** The form as it mounts: the text tab, nothing typed, no file. */
  function InitialInput(): (r: InputState)
    ensures r.mode == TextMode && r.textInput == ""
    ensures r.selectedFile == None && r.selectedFileName == "" && r.selectedFileType == ""
  {
    InputState(TextMode, "", None, "", "")
  }

  /** The fresh form cannot submit, and its button is disabled. */
  lemma InitialCannotSubmit(isLoading: bool)
    ensures Submit(InitialInput()).None?
    ensures ButtonDisabled(InitialInput(), isLoading)
  {
  }

  /** The first file of the picker. */
  datatype PickedFile = PickedFile(name: string, mimeType: string)

  /** Images of any kind and PDF documents are accepted. */
  function AcceptsFileType(mimeType: string): (r: bool)
    ensures r <==> StartsWith(mimeType, "image/") || mimeType == Gemini.PdfMimeType
  {
    StartsWith(mimeType, "image/") || mimeType == Gemini.PdfMimeType
  }

  /** `handleFileUpload`: nothing happens without a file or for a rejected
      type; an accepted file records its name and type, and its data arrives
      later (`FileLoaded`). */
  function FileUpload(st: InputState, file: Option<PickedFile>): (r: InputState)
    ensures file.None? || !AcceptsFileType(file.value.mimeType) ==> r == st
    ensures file.Some? && AcceptsFileType(file.value.mimeType) ==>
              r == st.(selectedFileName := file.value.name, selectedFileType := file.value.mimeType)
  {
    match file
    case None => st
    case Some(f) =>
      if !AcceptsFileType(f.mimeType) then st
      else st.(selectedFileName := f.name, selectedFileType := f.mimeType)
  }

  /** The reader finished: its data URL becomes the selected file. */
  function FileLoaded(st: InputState, dataUrl: string): (r: InputState)
    ensures r.selectedFile == Some(dataUrl)
    ensures r == st.(selectedFile := r.selectedFile)
  {
    st.(selectedFile := Some(dataUrl))
  }

  /** Only accepted types ever become the recorded file type. */
  lemma UploadKeepsAcceptedType(st: InputState, file: Option<PickedFile>)
    requires st.selectedFileType == "" || AcceptsFileType(st.selectedFileType)
    ensures var r := FileUpload(st, file);
            r.selectedFileType == "" || AcceptsFileType(r.selectedFileType)
  {
  }

  /** `clearFile`: the file, its name and its type go together. */
  function ClearFile(st: InputState): (r: InputState)
    ensures r.selectedFile == None && r.selectedFileName == "" && r.selectedFileType == ""
    ensures r.mode == st.mode && r.textInput == st.textInput
  {
    st.(selectedFile := None, selectedFileName := "", selectedFileType := "")
  }

  /** After clearing the file only the typed text can be submitted: a blank
      text submits nothing, and otherwise no file goes with it. */
  lemma ClearFileSubmit(st: InputState)
    ensures Submit(ClearFile(st)).None? <==> Blank(st.textInput)
    ensures Submit(ClearFile(st)).Some? ==> Submit(ClearFile(st)).value == (st.textInput, None)
  {
  }

  /** Switching tabs keeps the typed text and the selected file. */
  function SetMode(st: InputState, mode: InputMode): (r: InputState)
    ensures r.mode == mode
    ensures r == st.(mode := r.mode)
  {
    st.(mode := mode)
  }

  /** A selected file counts only when its data is non-empty (`!selectedFile`). */
  predicate HasFile(st: InputState) {
    st.selectedFile.Some? && st.selectedFile.value != ""
  }

  /** `handleSubmit`: the text and file handed to the analysis, or nothing
      when the text is blank and there is no file. The text is not trimmed. */
  function Submit(st: InputState): (r: Option<(string, Option<string>)>)
    ensures r.None? <==> Blank(st.textInput) && !HasFile(st)
    ensures r.Some? ==> r.value == (st.textInput, st.selectedFile)
  {
    if Trim(st.textInput) == "" && !HasFile(st) then None
    else Some((st.textInput, st.selectedFile))
  }

  /** The submit button's `disabled` attribute. It tests the raw text, not
      the trimmed one. */
  function ButtonDisabled(st: InputState, isLoading: bool): (r: bool)
    ensures r <==> isLoading || (st.textInput == "" && !HasFile(st))
  {
    isLoading || (st.textInput == "" && !HasFile(st))
  }

  /** Whatever the guard lets through, the button allowed when idle. */
  lemma SubmitImpliesEnabled(st: InputState)
    requires Submit(st).Some?
    ensures !ButtonDisabled(st, false)
  {
  }

  /** The converse fails: whitespace-only text enables the button, but submitting does nothing. */
  lemma WhitespaceEnabledButIgnored()
    ensures var st := InitialInput().(textInput := " ");
            !ButtonDisabled(st, false) && Submit(st).None?
  {
  }

  /** Submitted non-blank text always gives the analysis something to send. */
  lemma SubmittedTextIsContent(st: InputState)
    requires !Blank(st.textInput)
    ensures Submit(st).Some?
    ensures Gemini.BuildParts(Submit(st).value.0, Submit(st).value.1).Ok?
  {
  }
}
