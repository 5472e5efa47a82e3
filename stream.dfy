/** The streamed analysis response of `src/PDFAnalyzer.js`: how each decoded chunk
    is cut into records, which records yield a text fragment, and what the result
    buffer holds after a sequence of chunks. */
module Stream {
  import opened Wrappers
  import opened Text

  const RecordSeparator := "\n\n"
  const DoneRecord := "data: [DONE]"
  const DataPrefix := "data: "

  /** What `JSON.parse` makes of a record's payload, as far as the reader looks at it:
      either it throws (or yields a value whose `content` cannot be read), or it gives
      an object whose `content` field is a string or absent. */
  datatype Payload = Malformed | Object(content: Option<string>)

  /** `JSON.parse`, supplied by the caller. */
  type Parser = string -> Payload

  /** The filter's test: `line.trim() !== ''`. */
  predicate KeepLine(line: string) {
    Trim(line) != ""
  }

  /** `lines.filter(line => line.trim() !== '')`. */
  function NonBlank(lines: seq<string>): seq<string> {
    Filter(lines, KeepLine)
  }

  /** The filter keeps only non-blank pieces, each one taken from its input. */
  lemma NonBlankOnlyNonBlank(lines: seq<string>)
    ensures forall k :: 0 <= k < |NonBlank(lines)| ==> !IsBlank(NonBlank(lines)[k]) && NonBlank(lines)[k] in lines
  {
    FilterKeeps(lines, KeepLine);
  }

  /** A blank piece of a chunk is dropped, and a non-blank one is kept in its place. */
  lemma NonBlankPiece(before: seq<string>, piece: string, after: seq<string>)
    ensures NonBlank(before + [piece] + after)
         == NonBlank(before) + (if IsBlank(piece) then [] else [piece]) + NonBlank(after)
  {
    FilterAppend(before + [piece], after, KeepLine);
    FilterAppend(before, [piece], KeepLine);
    FilterSingle(piece, KeepLine);
  }

  /** The records of one chunk: `chunk.split('\n\n')` without the blank pieces. */
  function Records(chunk: string): seq<string> {
    NonBlank(Split(chunk, RecordSeparator))
  }

  /** The JSON text a `data: ` record carries. */
  function PayloadText(record: string): string
    requires StartsWith(record, DataPrefix)
  {
    record[|DataPrefix|..]
  }

  /** The fragment a record other than the terminator appends: the `content` of
      its parsed payload when the record is a `data: ` record, the payload parses
      and its `content` is truthy (a non-empty string). */
  function RecordFragment(record: string, parse: Parser): (r: Option<string>)
    ensures r.Some? ==>
      StartsWith(record, DataPrefix) && parse(PayloadText(record)) == Object(Some(r.value)) && r.value != ""
    ensures r.None? <==> Silent(record, parse)
  {
    if StartsWith(record, DataPrefix) then
      match parse(PayloadText(record))
      case Object(Some(c)) => if c != "" then Some(c) else None
      case _ => None
    else None
  }

  /** A record that appends nothing: not a `data: ` record, a payload that does not
      parse, or one without a truthy `content`. */
  predicate Silent(record: string, parse: Parser) {
    !StartsWith(record, DataPrefix)
    || parse(PayloadText(record)).Malformed?
    || parse(PayloadText(record)).content.None?
    || parse(PayloadText(record)).content == Some("")
  }

  /** The fragments a run of records appends, in order; the terminator record
      ends the run. */
  function RecordsFragments(records: seq<string>, parse: Parser): seq<string> {
    if |records| == 0 then []
    else if records[0] == DoneRecord then []
    else ToSeq(RecordFragment(records[0], parse)) + RecordsFragments(records[1..], parse)
  }

  /** A run of records yields at most one fragment per record, and every fragment
      is a truthy, that is non-empty, `content`. */
  lemma {:induction false} RecordsFragmentsTruthy(records: seq<string>, parse: Parser)
    ensures |RecordsFragments(records, parse)| <= |records|
    ensures forall k :: 0 <= k < |RecordsFragments(records, parse)| ==> RecordsFragments(records, parse)[k] != ""
  {
    if |records| > 0 && records[0] != DoneRecord {
      RecordsFragmentsTruthy(records[1..], parse);
    }
  }

  /** Records after the first terminator contribute nothing; before it, the
      fragments of consecutive runs of records concatenate. */
  lemma {:induction false} RecordsFragmentsAppend(a: seq<string>, b: seq<string>, parse: Parser)
    ensures DoneRecord in a ==> RecordsFragments(a + b, parse) == RecordsFragments(a, parse)
    ensures DoneRecord !in a ==>
      RecordsFragments(a + b, parse) == RecordsFragments(a, parse) + RecordsFragments(b, parse)
  {
    if |a| == 0 {
      assert a + b == b;
    } else {
      assert (a + b)[0] == a[0];
      assert (a + b)[1..] == a[1..] + b;
      if a[0] != DoneRecord {
        assert DoneRecord in a <==> DoneRecord in a[1..];
        RecordsFragmentsAppend(a[1..], b, parse);
      }
    }
  }

  /** The text one record appends on its own. */
  function RecordOutput(record: string, parse: Parser): string {
    Concat(RecordsFragments([record], parse))
  }

  /** The text a single record other than the terminator appends. */
  lemma RecordText(record: string, parse: Parser)
    requires record != DoneRecord
    ensures RecordOutput(record, parse)
         == if RecordFragment(record, parse).Some? then RecordFragment(record, parse).value else ""
  {
    assert [record][1..] == [];
    var fragments := RecordsFragments([record], parse);
    assert fragments == ToSeq(RecordFragment(record, parse)) + RecordsFragments([], parse);
    match RecordFragment(record, parse) {
      case None =>
        assert fragments == [];
      case Some(c) =>
        assert fragments == [c];
        ConcatSingle(c);
    }
  }

  /** The text the first `n` records append. */
  function PrefixText(records: seq<string>, n: nat, parse: Parser): string
    requires n <= |records|
  {
    Concat(RecordsFragments(records[..n], parse))
  }

  /** One more record, other than the terminator, adds its own text after the
      text of the records before it. */
  lemma RecordsTextStep(records: seq<string>, i: nat, parse: Parser)
    requires i < |records| && records[i] != DoneRecord && DoneRecord !in records[..i]
    ensures DoneRecord !in records[..i + 1]
    ensures PrefixText(records, i + 1, parse)
         == PrefixText(records, i, parse) + RecordOutput(records[i], parse)
  {
    assert records[..i + 1] == records[..i] + [records[i]];
    RecordsFragmentsAppend(records[..i], [records[i]], parse);
    ConcatAppend(RecordsFragments(records[..i], parse), RecordsFragments([records[i]], parse));
  }

  /** At the first terminator, the records before it already give all the fragments. */
  lemma RecordsFragmentsAtDone(records: seq<string>, i: nat, parse: Parser)
    requires i < |records| && records[i] == DoneRecord && DoneRecord !in records[..i]
    ensures RecordsFragments(records, parse) == RecordsFragments(records[..i], parse)
  {
    assert records[..i] + records[i..] == records;
    RecordsFragmentsAppend(records[..i], records[i..], parse);
    assert records[i..][0] == DoneRecord;
  }

  /** At the first terminator, the records before it already give all the text. */
  lemma RecordsTextAtDone(records: seq<string>, i: nat, parse: Parser)
    requires i < |records| && records[i] == DoneRecord && DoneRecord !in records[..i]
    ensures Concat(RecordsFragments(records, parse)) == PrefixText(records, i, parse)
  {
    RecordsFragmentsAtDone(records, i, parse);
  }

  /** All the records of a run together give the text of the whole run. */
  lemma RecordsTextAtEnd(records: seq<string>, parse: Parser)
    ensures Concat(RecordsFragments(records, parse)) == PrefixText(records, |records|, parse)
  {
    assert records[..|records|] == records;
  }

  /** A terminator skips the rest of the records of its chunk. */
  lemma DoneSkipsRest(before: seq<string>, after: seq<string>, parse: Parser)
    requires DoneRecord !in before
    ensures RecordsFragments(before + [DoneRecord] + after, parse) == RecordsFragments(before, parse)
  {
    RecordsFragmentsAppend(before, [DoneRecord] + after, parse);
    assert before + [DoneRecord] + after == before + ([DoneRecord] + after);
  }

  /** A silent record can be removed without changing the fragments or their order. */
  lemma SilentRecordIgnored(before: seq<string>, record: string, after: seq<string>, parse: Parser)
    requires record != DoneRecord && Silent(record, parse)
    ensures RecordsFragments(before + [record] + after, parse) == RecordsFragments(before + after, parse)
  {
    assert before + [record] + after == before + ([record] + after);
    RecordsFragmentsAppend(before, [record] + after, parse);
    RecordsFragmentsAppend(before, after, parse);
    assert ([record] + after)[1..] == after;
  }

  /** A `data: ` record whose payload has a truthy `content` appends exactly it. */
  lemma ContentRecordAppends(before: seq<string>, record: string, c: string, after: seq<string>, parse: Parser)
    requires DoneRecord !in before && record != DoneRecord
    requires StartsWith(record, DataPrefix) && parse(PayloadText(record)) == Object(Some(c)) && c != ""
    ensures RecordsFragments(before + [record] + after, parse)
         == RecordsFragments(before, parse) + [c] + RecordsFragments(after, parse)
  {
    assert before + [record] + after == before + ([record] + after);
    RecordsFragmentsAppend(before, [record] + after, parse);
    assert ([record] + after)[1..] == after;
  }

  /** The fragments one chunk appends. */
  function ChunkFragments(chunk: string, parse: Parser): seq<string> {
    RecordsFragments(Records(chunk), parse)
  }

  /** The text one chunk appends. */
  function ChunkText(chunk: string, parse: Parser): string {
    Concat(ChunkFragments(chunk, parse))
  }

  /** The buffer after reading `chunks`: each chunk's text appended in turn. */
  function StreamText(chunks: seq<string>, parse: Parser): string {
    ConcatMap(chunks, (chunk: string) => ChunkText(chunk, parse))
  }

  /** Reading one more chunk appends that chunk's text to the buffer. */
  lemma StreamTextStep(chunks: seq<string>, i: nat, parse: Parser)
    requires i < |chunks|
    ensures StreamText(chunks[..i + 1], parse) == StreamText(chunks[..i], parse) + ChunkText(chunks[i], parse)
  {
    assert chunks[..i + 1] == chunks[..i] + [chunks[i]];
    StreamTextAppend(chunks[..i], [chunks[i]], parse);
    StreamTextSingle(chunks[i], parse);
  }

  /** All fragments the chunks yield, chunk after chunk. */
  function StreamFragments(chunks: seq<string>, parse: Parser): seq<string> {
    FlatMap(chunks, (chunk: string) => ChunkFragments(chunk, parse))
  }

  /** Chunks are read independently: the buffer over two runs of chunks is the
      buffer over the first followed by the buffer over the second, whatever
      terminators the first contains. */
  lemma StreamTextAppend(a: seq<string>, b: seq<string>, parse: Parser)
    ensures StreamText(a + b, parse) == StreamText(a, parse) + StreamText(b, parse)
  {
    ConcatMapAppend(a, b, (chunk: string) => ChunkText(chunk, parse));
  }

  lemma StreamTextSingle(chunk: string, parse: Parser)
    ensures StreamText([chunk], parse) == ChunkText(chunk, parse)
  {
    ConcatMapSingle(chunk, (chunk: string) => ChunkText(chunk, parse));
  }

  /** The buffer is the in-order concatenation of every chunk's fragments. */
  lemma StreamTextIsFragments(chunks: seq<string>, parse: Parser)
    ensures StreamText(chunks, parse) == Concat(StreamFragments(chunks, parse))
  {
    ConcatMapFlatMap(chunks, (chunk: string) => ChunkText(chunk, parse),
                     (chunk: string) => ChunkFragments(chunk, parse));
  }

  /** While streaming the buffer only grows: the buffer after fewer chunks is a
      prefix of the buffer after more. */
  lemma StreamTextGrows(chunks: seq<string>, i: nat, j: nat, parse: Parser)
    requires i <= j <= |chunks|
    ensures StartsWith(StreamText(chunks[..j], parse), StreamText(chunks[..i], parse))
  {
    assert chunks[..j] == chunks[..i] + chunks[i..j];
    StreamTextAppend(chunks[..i], chunks[i..j], parse);
  }
}
