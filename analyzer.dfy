/** The component of `src/PDFAnalyzer.js`, which sends the extracted text to a local
    analysis endpoint: its session state and its upload, analysis and preference
    handlers. */
module Analyzer {
  import opened Wrappers
  import opened Text
  import opened Stream
  import opened View
  import opened Prompt

  /** The JSON body of the analysis request. */
  datatype Request = Request(text: string, preferences: Preferences)

  /** A response body as its reader delivers it: the decoded chunks in order, then
      either the end of the stream or a read that rejects. */
  datatype Body = Body(chunks: seq<string>, readFails: bool)

  /** What `fetch` settles to: a rejection, or a response with its `ok` flag and,
      where the platform provides one, its body stream. */
  datatype Response = NetworkError | Reply(ok: bool, body: Option<Body>)

  /** The analysis endpoint, supplied by the caller. */
  type Server = Request -> Response

  /** What reading the selected file yields: the text items of each page in page
      order, or a failure at any step of loading the document or its pages. */
  datatype Document = Unreadable | Pdf(pages: seq<seq<string>>)

  /** One page's share of the extracted text: its items joined by spaces, then a
      newline. */
  function PageText(items: seq<string>): (r: string)
    ensures |r| > 0 && r[|r| - 1] == '\n'
  {
    Join(items, " ") + "\n"
  }

  /** The extracted text of a document: the text of pages 1 to `numPages`, in order. */
  function PagesText(pages: seq<seq<string>>): string {
    ConcatMap(pages, PageText)
  }

  /** Every page adds at least its newline, so only a document without pages
      gives the empty text. */
  lemma PagesTextEmptyIff(pages: seq<seq<string>>)
    ensures PagesText(pages) == "" <==> |pages| == 0
  {
    if |pages| > 0 {
      var last := PageText(pages[|pages| - 1]);
      assert PagesText(pages) == PagesText(pages[..|pages| - 1]) + last;
      assert last[|last| - 1] == '\n';
    }
  }

  /** The documents read one after the other give the two texts one after the other. */
  lemma PagesTextAppend(a: seq<seq<string>>, b: seq<seq<string>>)
    ensures PagesText(a + b) == PagesText(a) + PagesText(b)
  {
    ConcatMapAppend(a, b, PageText);
  }

  /** After an upload, the preview panel shows exactly when the document has a page. */
  lemma PreviewShownIffPages(pages: seq<seq<string>>)
    ensures ShowsPreview(PagesText(pages)) <==> |pages| > 0
  {
    PagesTextEmptyIff(pages);
  }

  /** The page loop of the upload handler: `fullText += items.join(' ') + '\n'`. */
  method ExtractText(pages: seq<seq<string>>) returns (fullText: string)
    ensures fullText == PagesText(pages)
  {
    fullText := "";
    for i := 0 to |pages|
      invariant fullText == PagesText(pages[..i])
    {
      fullText := fullText + Join(pages[i], " ") + "\n";
      assert pages[..i + 1][..i] == pages[..i];
    }
    assert pages[..|pages|] == pages;
  }

  /** The response ends in the error path: `fetch` rejects, the status is not OK,
      there is no body, or a read of the body rejects. */
  predicate Fails(resp: Response) {
    resp.NetworkError? || !resp.ok || resp.body.None? || resp.body.value.readFails
  }

  /** The result buffer once an analysis of non-empty text has finished. */
  function FinalBuffer(resp: Response, parse: Parser): string {
    if Fails(resp) then ErrorPlaceholder else StreamText(resp.body.value.chunks, parse)
  }

  class Session {
    var pdfText: string
    var isLoading: bool
    var analysisResult: string
    var preferences: Preferences

    /** The initial state of the component. */
    constructor ()
      ensures pdfText == "" && !isLoading && analysisResult == ""
      ensures preferences == DefaultPreferences
    {
      pdfText := "";
      isLoading := false;
      analysisResult := "";
      preferences := DefaultPreferences;
    }

    /** The first two steps of an analysis: raise the loading flag, clear the result. */
    method StartAnalysis()
      modifies this`isLoading, this`analysisResult
      ensures isLoading && analysisResult == ""
    {
      isLoading := true;
      analysisResult := "";
    }

    /** The handling of one decoded chunk: split it into records, then run the
        inner `for` over them. */
    method ProcessChunk(chunk: string, result: string, parse: Parser) returns (result': string)
      requires result == analysisResult
      modifies this`analysisResult
      ensures result' == analysisResult
      ensures analysisResult == old(analysisResult) + ChunkText(chunk, parse)
    {
      var lines := Records(chunk);
      result' := ProcessRecords(lines, result, parse);
    }

    /** The inner `for` over the records of a chunk. Each fragment is appended both
        to the local `result` and to the displayed buffer, so the two stay equal; a
        terminator record leaves the loop. */
    method ProcessRecords(lines: seq<string>, result: string, parse: Parser) returns (result': string)
      requires result == analysisResult
      modifies this`analysisResult
      ensures result' == analysisResult
      ensures analysisResult == old(analysisResult) + Concat(RecordsFragments(lines, parse))
    {
      result' := result;
      var i := 0;
      while i < |lines|
        invariant 0 <= i <= |lines|
        invariant DoneRecord !in lines[..i]
        invariant result' == analysisResult == old(analysisResult) + PrefixText(lines, i, parse)
      {
        var line := lines[i];
        if line == DoneRecord {
          break;
        }
        result' := HandleRecord(line, result', parse);
        RecordsTextStep(lines, i, parse);
        i := i + 1;
      }
      if i < |lines| {
        RecordsTextAtDone(lines, i, parse);
      } else {
        RecordsTextAtEnd(lines, parse);
      }
    }

    /** The body of the inner `for` for a record other than the terminator: a
        `data: ` record whose payload parses to an object with a truthy `content`
        appends that content; any other record appends nothing. */
    method HandleRecord(line: string, result: string, parse: Parser) returns (result': string)
      requires line != DoneRecord && result == analysisResult
      modifies this`analysisResult
      ensures result' == analysisResult
      ensures analysisResult == old(analysisResult) + RecordOutput(line, parse)
    {
      result' := result;
      if StartsWith(line, DataPrefix) {
        var data := line[|DataPrefix|..];
        match parse(data) {
          case Object(Some(content)) =>
            if content != "" {
              result' := result' + content;
              analysisResult := analysisResult + content;
            }
          case _ =>
        }
      }
      RecordText(line, parse);
    }

    /** The reader loop: read chunks until the reader reports `done`; a terminator
        record ends only the chunk it is in. Returns whether a read rejected. */
    method ConsumeStream(body: Body, parse: Parser) returns (threw: bool)
      requires analysisResult == ""
      modifies this`analysisResult
      ensures threw == body.readFails
      ensures analysisResult == StreamText(body.chunks, parse)
    {
      var result := "";
      var i := 0;
      while true
        invariant 0 <= i <= |body.chunks|
        invariant result == analysisResult
        invariant analysisResult == StreamText(body.chunks[..i], parse)
        decreases |body.chunks| - i
      {
        if i == |body.chunks| {
          threw := body.readFails;
          break;
        }
        var chunk := body.chunks[i];
        result := ProcessChunk(chunk, result, parse);
        StreamTextStep(body.chunks, i, parse);
        i := i + 1;
      }
      assert body.chunks[..i] == body.chunks;
    }

    /** `analyzePDF`: nothing happens for empty text; otherwise the request carries
        the text and the current preferences, the buffer ends as the streamed text
        or, on any failure, as the error placeholder alone, and the loading flag is
        cleared in every case. */
    method AnalyzePDF(text: string, server: Server, parse: Parser)
      modifies this
      ensures text == "" ==> unchanged(this)
      ensures text != "" ==> !isLoading
      ensures text != "" && Fails(server(Request(text, old(preferences)))) ==>
        analysisResult == ErrorPlaceholder
      ensures text != "" && !Fails(server(Request(text, old(preferences)))) ==>
        analysisResult == StreamText(server(Request(text, old(preferences))).body.value.chunks, parse)
      ensures text != "" ==> analysisResult == FinalBuffer(server(Request(text, old(preferences))), parse)
      ensures pdfText == old(pdfText) && preferences == old(preferences)
    {
      if text == "" {
        return;
      }
      StartAnalysis();
      var threw: bool;
      var response := server(Request(text, preferences));
      if response.NetworkError? || !response.ok || response.body.None? {
        threw := true;
      } else {
        threw := ConsumeStream(response.body.value, parse);
      }
      if threw {
        analysisResult := ErrorPlaceholder;
      }
      isLoading := false;
    }

    /** The first steps of an upload, before any page is read: raise the loading
        flag and clear both buffers. */
    method StartUpload()
      modifies this`isLoading, this`pdfText, this`analysisResult
      ensures isLoading && pdfText == "" && analysisResult == ""
    {
      isLoading := true;
      pdfText := "";
      analysisResult := "";
    }

    /** `handleFileUpload`: no file changes nothing; otherwise both buffers are
        cleared, the extracted text is stored and analysed, and the loading flag is
        cleared at the end. A document that cannot be read leaves both buffers empty. */
    method HandleFileUpload(file: Option<Document>, server: Server, parse: Parser)
      modifies this
      ensures file.None? ==> unchanged(this)
      ensures file.Some? ==> !isLoading
      ensures file == Some(Unreadable) ==> pdfText == "" && analysisResult == ""
      ensures file.Some? && file.value.Pdf? ==>
        var text := PagesText(file.value.pages);
        pdfText == text
        && analysisResult == if |file.value.pages| == 0 then ""
                             else FinalBuffer(server(Request(text, old(preferences))), parse)
      ensures preferences == old(preferences)
    {
      if file.None? {
        return;
      }
      StartUpload();
      match file.value {
        case Unreadable =>
        case Pdf(pages) =>
          var fullText := ExtractText(pages);
          pdfText := fullText;
          PagesTextEmptyIff(pages);
          AnalyzePDF(fullText, server, parse);
      }
      isLoading := false;
    }

    /** `handlePreferenceChange`: the named field takes the new value and every
        other field keeps its own. */
    method HandlePreferenceChange(name: string, value: string)
      modifies this`preferences
      ensures name in preferences && preferences[name] == value
      ensures preferences.Keys == old(preferences).Keys + {name}
      ensures forall k :: k in old(preferences) && k != name ==> preferences[k] == old(preferences)[k]
    {
      preferences := preferences[name := value];
    }
  }
}
