/** The component of `src/PDFAnalyzerFront.js`, which builds a system prompt from
    the preferences and makes an API call with it. Only its analysis handler is
    written out in that file; the API call inside it is given here as a parameter. */
module Front {
  import opened Text
  import opened View
  import opened Prompt

  /** How the API call inside the analysis handler ends: with the result buffer it
      leaves behind, or with a thrown error. */
  datatype ApiOutcome = Completed(buffer: string) | Threw

  /** The API call, given the system prompt and the document text. */
  type ApiCall = (string, string) -> ApiOutcome

  class Session {
    var pdfText: string
    var isLoading: bool
    var analysisResult: string
    var preferences: Preferences

    /** The initial state of the component. */
    constructor ()
      ensures pdfText == "" && !isLoading && analysisResult == ""
      ensures preferences == DefaultPreferences
    {
      pdfText := "";
      isLoading := false;
      analysisResult := "";
      preferences := DefaultPreferences;
    }

    /** The first two steps of an analysis: raise the loading flag, clear the result. */
    method StartAnalysis()
      modifies this`isLoading, this`analysisResult
      ensures isLoading && analysisResult == ""
    {
      isLoading := true;
      analysisResult := "";
    }

    /** `analyzePDF`: nothing happens for empty text; otherwise the loading flag
        is raised and the buffer cleared, the API call receives the system prompt
        of the current preferences, an error leaves exactly the placeholder in the
        buffer, and the loading flag is cleared in every case. */
    method AnalyzePDF(text: string, api: ApiCall)
      modifies this
      ensures text == "" ==> unchanged(this)
      ensures text != "" ==> !isLoading
      ensures text != "" ==>
        match api(SystemPrompt(old(preferences)), text)
        case Threw => analysisResult == ErrorPlaceholder
        case Completed(buffer) => analysisResult == buffer
      ensures pdfText == old(pdfText) && preferences == old(preferences)
    {
      if text == "" {
        return;
      }
      StartAnalysis();
      var systemPrompt := SystemPrompt(preferences);
      match api(systemPrompt, text) {
        case Completed(buffer) =>
          analysisResult := buffer;
        case Threw =>
          analysisResult := ErrorPlaceholder;
      }
      isLoading := false;
    }
  }
}
