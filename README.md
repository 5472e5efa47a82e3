# PDF analyzer session and stream reader, in Dafny

This project models the two pieces of logic in the PDF analysis component of the
Academic-assistant repository:

- **The streamed-response reader** of `analyzePDF` in `src/PDFAnalyzer.js`. Each
  decoded chunk is split on `"\n\n"`, and whitespace-only records are dropped. A
  record exactly equal to `data: [DONE]` ends the handling of *that chunk only*.
  Every other `data: ` record has its JSON payload parsed, and a truthy `content`
  is appended to the result buffer. Reading goes on until the reader reports `done`.
- **The session state** of the two components (`pdfText`, `isLoading`,
  `analysisResult`, `preferences`) and its handlers:
  - the upload, which resets both buffers and assembles the page text;
  - the analysis, which clears the result, then either streams into it or replaces
    it with a fixed error block, and always clears the loading flag at the end;
  - the preference change, which updates one key;
  - the pure helpers that go with them: the 5000-character preview, the system
    prompt with its `not specified` defaults, and the display conditions.

Layout, one module per file:

| file | module | models |
|---|---|---|
| `wrappers.dfy` | `Wrappers` | `Option` |
| `text.dfy` | `Text` | the JavaScript string operations used: `startsWith`, `trim`, `split`, `join`, concatenation |
| `stream.dfy` | `Stream` | the record parser of the reader loop, as specification functions, and its laws |
| `view.dfy` | `View` | the preview, the display conditions, the error placeholder (both files) |
| `prompt.dfy` | `Prompt` | the preferences record and the system prompt of `src/PDFAnalyzerFront.js` |
| `analyzer.dfy` | `Analyzer` | the component of `src/PDFAnalyzer.js`: `Session` and the page-text loop |
| `front.dfy` | `Front` | the component of `src/PDFAnalyzerFront.js`: `Session` |

The outside world comes in as parameters:
- `JSON.parse` is a function `parse: string -> Payload`. `Payload` is either
  `Malformed` or an object with an optional string `content`.
- `fetch` is a function `server: Request -> Response`. The `Request` carries the
  text and the preferences verbatim. A `Response` is a network rejection, or a reply
  with its `ok` flag and an optional body. A body is the decoded chunks followed by
  either `done` or a rejected read.
- The pdf.js document is a `Document`: `Pdf(pages)` (each page's item strings) or
  `Unreadable`.
- In `src/PDFAnalyzerFront.js` the API call itself is not written out (line 46). It
  is a parameter `api: (systemPrompt, text) -> ApiOutcome`, which either leaves a
  buffer (`Completed`) or throws (`Threw`).

A `data: [DONE]` record does not stop the reading: the `break` at
`src/PDFAnalyzer.js:79` leaves only the `for` over the current chunk's records, and
the `while` goes on reading. `Stream.StreamTextAppend` states this: every later chunk
still contributes its text, whatever terminators came earlier.

## Model

| member | source | states |
|---|---|---|
| `Text.StartsWith` | src/PDFAnalyzer.js:82 | Definition of `line.startsWith(p)`: `p` is no longer than the line and equals its first `\|p\|` characters. |
| `Text.Join` | src/PDFAnalyzer.js:34 | Definition of `items.join(' ')`: the empty array gives `''`, one item gives itself, and otherwise the separator stands between consecutive items. |
| `Text.Trim` | src/PDFAnalyzer.js:75 | `line.trim()` is empty exactly when every character of the line is ECMAScript whitespace or a line terminator. |
| `Text.Split` | src/PDFAnalyzer.js:75 | `split` on a non-empty separator always returns at least one piece. |
| `Text.JoinSplit` | src/PDFAnalyzer.js:75 | Joining the pieces of a split with the separator gives back the original chunk, so splitting loses no text. |
| `Text.SplitCutsLeftmost` | src/PDFAnalyzer.js:75 | Every cut a split makes is at the leftmost occurrence of the separator after the previous cut: the separator does not occur in a piece followed by the separator before the occurrence that ends it. Together with `Text.JoinSplit` and `Text.SplitPartsLackSeparator`, this determines the pieces. |
| `Text.SplitFirstThenSeparator` | src/PDFAnalyzer.js:75 | When a split has more than one piece, the string opens with the first piece followed by the separator. |
| `Text.SplitThreeNewlines` | src/PDFAnalyzer.js:75 | `"\n\n\n".split("\n\n")` is `["", "\n"]`: the cut is at the first two newlines, and the third stays at the front of the next piece. |
| `Text.SplitPartsLackSeparator` | src/PDFAnalyzer.js:75 | No piece of a split contains the separator. |
| `Text.SplitAfterPiece` | src/PDFAnalyzer.js:75 | A leading piece free of the separator's first character, followed by the separator, becomes the first piece, and the rest is split on its own. |
| `Text.SplitWhole` | src/PDFAnalyzer.js:75 | A chunk without the separator's first character is a single record. |
| `Text.ConcatPrefixGrows` | src/PDFAnalyzer.js:86-88 | Appending fragments one after another only extends the buffer: the buffer after fewer fragments is a prefix of the buffer after more. |
| `Stream.Records` | src/PDFAnalyzer.js:75 | Definition of a chunk's records: the chunk split on `"\n\n"`, without the pieces whose `trim()` is empty. Characterised by `Text.JoinSplit`, `Text.SplitCutsLeftmost`, `Stream.NonBlankOnlyNonBlank` and `Stream.NonBlankPiece`. |
| `Stream.NonBlankOnlyNonBlank` | src/PDFAnalyzer.js:75 | Every record the filter keeps is non-blank and is one of the split pieces. |
| `Text.FilterAppend` | src/PDFAnalyzer.js:75 | `filter` works piece by piece: filtering two runs of pieces gives the two filtered runs in order. |
| `Text.FilterKeeps` | src/PDFAnalyzer.js:75 | `filter` keeps only elements that satisfy its test, and each one it keeps comes from the input. |
| `Stream.NonBlankPiece` | src/PDFAnalyzer.js:75 | A whitespace-only piece is dropped, and a non-blank piece is kept in its place, without disturbing the order of the others. |
| `Stream.RecordFragment` | src/PDFAnalyzer.js:82-92 | A record yields a fragment only if it starts with `data: ` and its payload parses to an object whose `content` is that fragment, which is non-empty. It yields none exactly when it is silent: not a `data: ` record, a payload that fails to parse, or a `content` that is absent or empty. |
| `Stream.RecordsFragments` | src/PDFAnalyzer.js:77-94 | Definition of the inner `for` as a function: the fragments of the records in order, up to the first `data: [DONE]`. Characterised by the `Stream.Records…` lemmas below. |
| `Stream.RecordsFragmentsTruthy` | src/PDFAnalyzer.js:77-94 | Each record yields at most one fragment, and every fragment is a non-empty `content`. |
| `Stream.RecordsFragmentsAppend` | src/PDFAnalyzer.js:77-94 | Records after the first `data: [DONE]` of a chunk contribute nothing. Before it, consecutive runs of records contribute their fragments in order. |
| `Stream.RecordText` | src/PDFAnalyzer.js:82-93 | A single record other than the terminator appends its fragment if it has one, and nothing otherwise. |
| `Stream.RecordsTextStep` | src/PDFAnalyzer.js:77-93 | Before any terminator, one more record extends the text of the records before it by exactly that record's own text. |
| `Stream.RecordsFragmentsAtDone` | src/PDFAnalyzer.js:78-80 | At the first `data: [DONE]` of a chunk, the records before it give all of the chunk's fragments. |
| `Stream.RecordsTextAtDone` | src/PDFAnalyzer.js:78-80 | At the first `data: [DONE]` of a chunk, the records before it give all of the chunk's text. |
| `Stream.RecordsTextAtEnd` | src/PDFAnalyzer.js:77-94 | When no terminator stops the `for`, all the records together give the chunk's text. |
| `Stream.DoneSkipsRest` | src/PDFAnalyzer.js:78-80 | A `data: [DONE]` record causes every later record of the same chunk to be skipped. |
| `Stream.SilentRecordIgnored` | src/PDFAnalyzer.js:82-92 | Some records can be removed without changing the fragments or their order: a record not starting with `data: `, one whose payload fails to parse, and one whose `content` is absent or empty. |
| `Stream.ContentRecordAppends` | src/PDFAnalyzer.js:82-89 | A `data: ` record whose payload parses to an object with non-empty `content` contributes exactly that content, at its position. |
| `Stream.ChunkFragments` | src/PDFAnalyzer.js:74-94 | Definition of the fragments one decoded chunk yields: the fragments of its records. |
| `Stream.ChunkText` | src/PDFAnalyzer.js:74-94 | Definition of the text one chunk appends: its fragments concatenated in order. |
| `Stream.StreamText` | src/PDFAnalyzer.js:70-95 | Definition of the buffer after a run of chunks: each chunk's text appended in turn. Characterised by `Stream.StreamTextAppend`, `Stream.StreamTextStep` and `Stream.StreamTextIsFragments`. |
| `Stream.StreamTextStep` | src/PDFAnalyzer.js:70-75 | Reading one more chunk appends exactly that chunk's text to the buffer. |
| `Stream.StreamTextAppend` | src/PDFAnalyzer.js:70-75 | Chunks are processed independently, with no carry-over between them. The buffer over two runs of chunks is the first run's buffer followed by the second's, even if the first run contains terminators. |
| `Stream.StreamTextIsFragments` | src/PDFAnalyzer.js:70-95 | The final buffer is the in-order concatenation, over all chunks, of each chunk's fragments. |
| `Stream.StreamTextGrows` | src/PDFAnalyzer.js:86-88 | During streaming the buffer only grows: the buffer after fewer chunks is a prefix of the buffer after more. |
| `View.Preview` | src/PDFAnalyzerFront.js:113 | The preview equals the text when the text has at most 5000 characters. Otherwise it is the first 5000 characters plus `...`. It never exceeds 5003 characters. The same expression is at src/PDFAnalyzer.js:172. |
| `View.PreviewUnchangedIff` | src/PDFAnalyzerFront.js:113 | The preview equals the text exactly when the text has at most 5000 characters, or has 5003 characters ending in `...`. Both directions are proved. |
| `View.ShowsPreview` | src/PDFAnalyzerFront.js:109 | Definition of `{pdfText && …}`: the preview panel shows when the extracted text is non-empty. |
| `View.ShowsResult` | src/PDFAnalyzerFront.js:120 | Definition of `{analysisResult && …}`: the result panel shows when the buffer is non-empty. |
| `View.ShowsLoading` | src/PDFAnalyzerFront.js:134 | Definition of `{isLoading && !analysisResult && …}`: the loading message shows while loading with an empty buffer. |
| `View.LoadingOrResult` | src/PDFAnalyzerFront.js:120-135 | The loading message and the result panel never show together. While loading, exactly one of them shows. When not loading, the loading message does not show. |
| `Prompt.Shown` | src/PDFAnalyzerFront.js:42-44 | A preference field shows verbatim when it is non-empty, and as `not specified` when it is empty or missing. The shown value is never empty. |
| `Prompt.SystemPrompt` | src/PDFAnalyzerFront.js:30-44 | The prompt opens with the fixed instructions and the first label, and ends with the threshold label and the shown threshold value. |
| `Prompt.PromptShowsEachField` | src/PDFAnalyzerFront.js:42-44 | Each of the three preference fields appears in the prompt right after its own label, as its shown value. |
| `Prompt.PromptDependsOnlyOnFields` | src/PDFAnalyzerFront.js:30-44 | Only the three fields reach the prompt: preferences that show the same three values give the same prompt. |
| `Analyzer.PageText` | src/PDFAnalyzer.js:34 | One page's share of the text: its items joined by `' '`, then `'\n'`. The result is never empty and ends with `'\n'`. |
| `Analyzer.PagesText` | src/PDFAnalyzer.js:30-35 | Definition of the extracted text: each page's share, for pages 1..numPages in order. Characterised by `Analyzer.PagesTextEmptyIff` and `Analyzer.PagesTextAppend`. |
| `Analyzer.PagesTextEmptyIff` | src/PDFAnalyzer.js:30-35 | The extracted text is empty exactly when the document has no pages, because every page adds at least its `'\n'`. |
| `Analyzer.PagesTextAppend` | src/PDFAnalyzer.js:31-35 | The extracted text of consecutive runs of pages is the two texts in page order. |
| `Analyzer.ExtractText` | src/PDFAnalyzer.js:30-35 | The page loop builds the concatenation, for pages 1..numPages in order, of each page's items joined by `' '` and followed by `'\n'`. |
| `Analyzer.PreviewShownIffPages` | src/PDFAnalyzer.js:30-38 | After an upload, the preview panel (`src/PDFAnalyzer.js:168`, and `src/PDFAnalyzerFront.js:109` in the other component) shows exactly when the document has at least one page. |
| `Analyzer.FinalBuffer` | src/PDFAnalyzer.js:63-64 | Definition of the buffer after an analysis of non-empty text: the error placeholder on any failure (lines 63-64, 96-97), otherwise the streamed text. |
| `Analyzer.Session.constructor` | src/PDFAnalyzer.js:6-13 | Initial state: both buffers empty, not loading, all three preference fields `''`. |
| `Analyzer.Session.StartAnalysis` | src/PDFAnalyzer.js:50-51 | Starting an analysis sets `isLoading` and clears the result buffer. |
| `Analyzer.Session.HandleRecord` | src/PDFAnalyzer.js:82-93 | One record appends its fragment to both the local `result` and the displayed buffer, which stay equal. |
| `Analyzer.Session.ProcessRecords` | src/PDFAnalyzer.js:77-94 | The inner `for` appends exactly the fragments of the chunk's records up to the first terminator. The local `result` equals the displayed buffer throughout. |
| `Analyzer.Session.ProcessChunk` | src/PDFAnalyzer.js:74-94 | Handling a chunk appends exactly that chunk's text to the buffer. |
| `Analyzer.Session.ConsumeStream` | src/PDFAnalyzer.js:66-95 | The reader loop leaves the buffer equal to the text of all chunks read. It reports a thrown error exactly when a read rejects. |
| `Analyzer.Session.AnalyzePDF` | src/PDFAnalyzer.js:47-102 | Empty text changes no state. Otherwise the request carries the text and the current preferences verbatim. On a rejected fetch, a non-OK status, a missing body or a failed read, the buffer is exactly the placeholder and earlier fragments are discarded. Otherwise the buffer is the streamed text. `isLoading` is false afterwards. |
| `Analyzer.Session.StartUpload` | src/PDFAnalyzer.js:20-22 | Before any page is read, the upload raises `isLoading` and clears both `pdfText` and `analysisResult`. |
| `Analyzer.Session.HandleFileUpload` | src/PDFAnalyzer.js:16-45 | Selecting no file changes nothing. Otherwise the upload opens with `Analyzer.Session.StartUpload`. An unreadable document leaves both buffers empty. A document stores its page text, and a zero-page document then leaves the result empty without a request. Otherwise the result is that of the analysis. `isLoading` is false afterwards and the preferences are untouched. |
| `Analyzer.Session.HandlePreferenceChange` | src/PDFAnalyzer.js:104-110 | The named key takes the new value. Every other key keeps its value, and no key is removed. |
| `Front.Session.constructor` | src/PDFAnalyzerFront.js:9-16 | Initial state: both buffers empty, not loading, all three preference fields `''`. |
| `Front.Session.StartAnalysis` | src/PDFAnalyzerFront.js:26-27 | Starting an analysis sets `isLoading` and clears the result buffer. |
| `Front.Session.AnalyzePDF` | src/PDFAnalyzerFront.js:23-53 | Empty text changes no state. Otherwise the API call receives the system prompt of the current preferences. A thrown error leaves exactly the placeholder in the buffer. `isLoading` is false afterwards, whether or not the call failed. |

## Left out

- Rendering is not modelled: JSX, CSS, ReactMarkdown with its remark and rehype plugins, and KaTeX. These are UI and third-party renderers.
- pdf.js loading and `getTextContent` are not modelled. A document is given as its pages' item strings, and any failure while loading it is `Unreadable`.
- HTTP is not modelled: `fetch`, the transport, `reader.read()` and the `TextDecoder`. The body is a sequence of already-decoded chunks plus a flag for a rejected read. A multi-byte character split across two chunks, which `decode` without `{stream: true}` would garble, is not represented.
- `JSON.stringify` of the request is not modelled; the request is a datatype that carries the text and the preferences.
- `JSON.parse` internals are not modelled; it is the `parse` parameter, and `content` is assumed to be a string when present. A truthy non-string `content`, such as a number, is not representable. A parsed value whose `.content` access throws (`null`) counts as `Malformed`, since the same `catch` handles both.
- `alert`, `console.error` and `triggerFileInput` (`fileInputRef.current.click()`) are left out. They are side effects with no state the model tracks.
- React's asynchronous scheduling and batching of state setters are left out. Each setter is an immediate assignment, and the updater `prev => prev + x` is an append.
- Disabling the upload control while loading is left out. It is the only guard against overlapping runs, and the model runs one handler at a time.
- The upload handler, the API call, `handlePreferenceChange` and `triggerFileInput` of `src/PDFAnalyzerFront.js` are written there only as "unchanged" comments (lines 20, 46, 55). Only the analysis handler around the call is modelled. `Front.Session` therefore has no preference handler; its `preferences` field is assigned directly.
- View.Preview: lengths count Unicode scalar values, whereas JavaScript's `length` and `substring` count UTF-16 code units. For text outside the Basic Multilingual Plane the 5000 cut falls elsewhere, and the model never splits a surrogate pair.
