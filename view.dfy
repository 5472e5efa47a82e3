/** What the component renders from its state, in both `src/PDFAnalyzer.js` and
    `src/PDFAnalyzerFront.js`: the text preview and which panels are shown. */
module View {
  import opened Text

  const PreviewLimit := 5000
  const Ellipsis := "..."

  /** The markdown block that replaces the result buffer when an analysis fails. */
  const ErrorPlaceholder := "```\nError analyzing PDF. Please try again.\n```"

  /** `pdfText.substring(0, 5000) + (pdfText.length > 5000 ? '...' : '')`. */
  function Preview(text: string): (r: string)
    ensures |text| <= PreviewLimit ==> r == text
    ensures |text| > PreviewLimit ==> r == text[..PreviewLimit] + Ellipsis
    ensures |r| <= PreviewLimit + |Ellipsis|
    ensures StartsWith(text, r) || StartsWith(r, text[..PreviewLimit])
  {
    text[..if |text| < PreviewLimit then |text| else PreviewLimit]
    + (if |text| > PreviewLimit then Ellipsis else "")
  }

  /** The preview shows the text unchanged exactly when the text is short enough,
      or is 5003 characters ending in the very ellipsis the preview would add. */
  lemma PreviewUnchangedIff(text: string)
    ensures Preview(text) == text
        <==> |text| <= PreviewLimit
             || (|text| == PreviewLimit + |Ellipsis| && text[PreviewLimit..] == Ellipsis)
  {
    if |text| > PreviewLimit {
      var r := Preview(text);
      if r == text {
        assert text[PreviewLimit..] == r[PreviewLimit..];
      }
      if |text| == PreviewLimit + |Ellipsis| && text[PreviewLimit..] == Ellipsis {
        assert text == text[..PreviewLimit] + text[PreviewLimit..];
      }
    }
  }

  /** `{pdfText && ...}`: the preview panel. */
  predicate ShowsPreview(pdfText: string) {
    pdfText != ""
  }

  /** `{analysisResult && ...}`: the result panel. */
  predicate ShowsResult(analysisResult: string) {
    analysisResult != ""
  }

  /** `{isLoading && !analysisResult && ...}`: the loading message. */
  predicate ShowsLoading(isLoading: bool, analysisResult: string) {
    isLoading && analysisResult == ""
  }

  /** The loading message and the result panel never show together, and while
      loading exactly one of them shows. */
  lemma LoadingOrResult(isLoading: bool, analysisResult: string)
    ensures !(ShowsLoading(isLoading, analysisResult) && ShowsResult(analysisResult))
    ensures isLoading ==> ShowsLoading(isLoading, analysisResult) || ShowsResult(analysisResult)
    ensures !isLoading ==> !ShowsLoading(isLoading, analysisResult)
  {
  }
}
