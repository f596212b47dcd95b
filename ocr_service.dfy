/** The OCR step: after checking that the document-intelligence endpoint and key are
    configured, the service reshapes the layout-analysis result (a content string and
    pages of lines, each line carrying spans into the content) into numbered page
    records, a whole-document text and a page count.

    The analysis itself (client construction, opening the file, the long-running
    poller, the thread pool) is not part of this model: its outcome is an input,
    `None` when any of it raised. */
module OcrService {
  import opened Wrappers
  import opened PyStrings

  /** A span of the analysed content: an offset and a length in characters. */
  datatype Span = Span(offset: int, length: int)

  /** A line of layout text. `spans` is `[]` where the service sees `None` or an empty
      list; both are falsy and skip the span loop alike. */
  datatype Line = Line(content: string, spans: seq<Span>)

  /** A result page; `lines` is `[]` for `None` as well as for an empty list. */
  datatype Page = Page(lines: seq<Line>)

  /** The layout-analysis result: the whole content and its pages (`[]` for `None`). */
  datatype AnalyzeResult = AnalyzeResult(content: string, pages: seq<Page>)

  /** One entry of a page's `words` list. */
  datatype Word = Word(content: string, offset: int, length: int)

  /** One entry of `pages`: `page_number`, `full_text` and `words`. */
  datatype PageRecord = PageRecord(pageNumber: int, fullText: string, words: seq<Word>)

  /** The dictionary the service returns. */
  datatype ProcessedDocument = ProcessedDocument(fullDocumentText: string, pages: seq<PageRecord>, totalPages: int)

  datatype OcrError =
    | CredentialsNotConfigured  // the ValueError raised before any client is built
    | AnalysisFailed            // any exception from the client, the file or the poller, re-raised

  /** The text a page accumulates: each line's content followed by a newline. */
  function LinesText(lines: seq<Line>): string {
    if lines == [] then ""
    else LinesText(lines[..|lines| - 1]) + lines[|lines| - 1].content + "\n"
  }

  /** The `words` entry for one span: the slice of the whole content it designates. */
  function SpanWord(content: string, span: Span): Word {
    Word(Slice(content, span.offset, span.offset + span.length), span.offset, span.length)
  }

  function SpanWords(content: string, spans: seq<Span>): seq<Word> {
    if spans == [] then []
    else SpanWords(content, spans[..|spans| - 1]) + [SpanWord(content, spans[|spans| - 1])]
  }

  /** The `words` a page accumulates over its lines. */
  function LinesWords(content: string, lines: seq<Line>): seq<Word> {
    if lines == [] then []
    else LinesWords(content, lines[..|lines| - 1]) + SpanWords(content, lines[|lines| - 1].spans)
  }

  /** Every span of every line, lines first and spans within a line in order. */
  function AllSpans(lines: seq<Line>): seq<Span> {
    if lines == [] then []
    else AllSpans(lines[..|lines| - 1]) + lines[|lines| - 1].spans
  }

  /** A page's words correspond one to one to the spans of its lines, in line-then-span
      order: the k-th word records the k-th span's offset and length, and its content
      is the slice of the whole content that span designates. */
  lemma {:induction false} WordsFollowSpans(content: string, lines: seq<Line>, k: nat)
    requires k < |AllSpans(lines)|
    ensures |LinesWords(content, lines)| == |AllSpans(lines)|
    ensures LinesWords(content, lines)[k] == SpanWord(content, AllSpans(lines)[k])
  {
    var init, last := lines[..|lines| - 1], lines[|lines| - 1];
    WordCount(content, lines);
    WordCount(content, init);
    SpanWordsCount(content, last.spans);
    if k < |AllSpans(init)| {
      WordsFollowSpans(content, init, k);
    } else {
      SpanWordAt(content, last.spans, k - |AllSpans(init)|);
    }
  }

  lemma {:induction false} WordCount(content: string, lines: seq<Line>)
    ensures |LinesWords(content, lines)| == |AllSpans(lines)|
  {
    if lines != [] {
      WordCount(content, lines[..|lines| - 1]);
      SpanWordsCount(content, lines[|lines| - 1].spans);
    }
  }

  lemma {:induction false} SpanWordsCount(content: string, spans: seq<Span>)
    ensures |SpanWords(content, spans)| == |spans|
  {
    if spans != [] {
      SpanWordsCount(content, spans[..|spans| - 1]);
    }
  }

  lemma {:induction false} SpanWordAt(content: string, spans: seq<Span>, k: nat)
    requires k < |spans|
    ensures |SpanWords(content, spans)| == |spans|
    ensures SpanWords(content, spans)[k] == SpanWord(content, spans[k])
  {
    SpanWordsCount(content, spans);
    if k < |spans| - 1 {
      SpanWordAt(content, spans[..|spans| - 1], k);
      SpanWordsCount(content, spans[..|spans| - 1]);
    }
  }

  /** A word for a span with non-negative offset and length holds the part of the
      content the span covers, cut at the end of the content; a span that starts
      at or past the end gives an empty word. */
  lemma WordIsClampedSlice(content: string, span: Span)
    requires 0 <= span.offset && 0 <= span.length
    ensures SpanWord(content, span).content ==
      content[Min(span.offset, |content|)..Min(span.offset + span.length, |content|)]
    ensures span.offset + span.length <= |content| ==>
      |SpanWord(content, span).content| == span.length
    ensures SpanWord(content, span).offset == span.offset
    ensures SpanWord(content, span).length == span.length
  {
  }

  /** The page records for the result pages, one per page. */
  function PageRecords(content: string, pages: seq<Page>): (records: seq<PageRecord>)
    ensures |records| == |pages|
  {
    if pages == [] then []
    else
      var last := pages[|pages| - 1];
      PageRecords(content, pages[..|pages| - 1]) +
        [PageRecord(|pages|, Strip(LinesText(last.lines)), LinesWords(content, last.lines))]
  }

  /** The i-th page record is numbered i + 1 and holds the i-th page's stripped text
      and its words. */
  lemma {:induction false} PageRecordAt(content: string, pages: seq<Page>, i: nat)
    requires i < |pages|
    ensures PageRecords(content, pages)[i] ==
      PageRecord(i + 1, Strip(LinesText(pages[i].lines)), LinesWords(content, pages[i].lines))
  {
    var init, last := pages[..|pages| - 1], pages[|pages| - 1];
    var earlier := PageRecords(content, init);
    var record := PageRecord(|pages|, Strip(LinesText(last.lines)), LinesWords(content, last.lines));
    assert PageRecords(content, pages) == earlier + [record];
    if i < |pages| - 1 {
      PageRecordAt(content, init, i);
      assert init[i] == pages[i];
      assert (earlier + [record])[i] == earlier[i];
    }
  }

  /** The unstripped whole-document text: each page's accumulated text followed by a
      newline. */
  function DocumentText(pages: seq<Page>): string {
    if pages == [] then ""
    else DocumentText(pages[..|pages| - 1]) + LinesText(pages[|pages| - 1].lines) + "\n"
  }

  /** The dictionary built from an analysis result. */
  function Shaped(result: AnalyzeResult): (doc: ProcessedDocument)
    ensures doc.totalPages == |doc.pages| == |result.pages|
    ensures result.pages == [] ==> doc == ProcessedDocument("", [], 0)
  {
    var records := PageRecords(result.content, result.pages);
    ProcessedDocument(Strip(DocumentText(result.pages)), records, |records|)
  }

  /** A page without lines still yields a record, numbered like any other, with empty
      text and no words, and it counts toward the total. */
  lemma EmptyPageRecorded(result: AnalyzeResult, i: nat)
    requires i < |result.pages| && result.pages[i].lines == []
    ensures Shaped(result).pages[i] == PageRecord(i + 1, "", [])
    ensures Shaped(result).totalPages == |result.pages|
  {
    PageRecordAt(result.content, result.pages, i);
    assert LinesText([]) == "";
  }

  /** For a one-page result the whole-document text is that page's text: the extra
      newline after the page is stripped away. */
  lemma SinglePageText(result: AnalyzeResult)
    requires |result.pages| == 1
    ensures Shaped(result).fullDocumentText == Shaped(result).pages[0].fullText
  {
    var text := LinesText(result.pages[0].lines);
    PageRecordAt(result.content, result.pages, 0);
    assert result.pages[..0] == [];
    assert DocumentText(result.pages) == text + "\n";
    StripTrailingSpace(text, '\n');
  }

  /** What `process_document_with_ocr` returns or raises, given its two settings and
      the outcome of the analysis. */
  function Processed(endpoint: Option<string>, key: Option<string>, analysis: Option<AnalyzeResult>): (r: Result<ProcessedDocument, OcrError>)
    ensures r == Failure(CredentialsNotConfigured) <==> !Truthy(endpoint) || !Truthy(key)
    ensures r.Success? <==> Truthy(endpoint) && Truthy(key) && analysis.Some?
    ensures r.Success? ==>
      r.value.totalPages == |r.value.pages| == |analysis.value.pages| &&
      (analysis.value.pages == [] ==> r.value == ProcessedDocument("", [], 0))
  {
    if !Truthy(endpoint) || !Truthy(key) then Failure(CredentialsNotConfigured)
    else if analysis.None? then Failure(AnalysisFailed)
    else Success(Shaped(analysis.value))
  }

  /** The service's loops over one page's lines and their spans: the page text grows
      by each line's content and a newline, and every span adds one word. */
  method ReadLines(content: string, lines: seq<Line>) returns (pageText: string, words: seq<Word>)
    ensures pageText == LinesText(lines)
    ensures words == LinesWords(content, lines)
  {
    pageText := "";
    words := [];
    var lineIdx := 0;
    while lineIdx < |lines|
      invariant 0 <= lineIdx <= |lines|
      invariant pageText == LinesText(lines[..lineIdx])
      invariant words == LinesWords(content, lines[..lineIdx])
    {
      var line := lines[lineIdx];
      pageText := pageText + line.content + "\n";
      var spanIdx := 0;
      ghost var before := words;
      while spanIdx < |line.spans|
        invariant 0 <= spanIdx <= |line.spans|
        invariant words == before + SpanWords(content, line.spans[..spanIdx])
      {
        var span := line.spans[spanIdx];
        words := words + [Word(Slice(content, span.offset, span.offset + span.length), span.offset, span.length)];
        assert line.spans[..spanIdx + 1][..spanIdx] == line.spans[..spanIdx];
        spanIdx := spanIdx + 1;
      }
      assert line.spans[..spanIdx] == line.spans;
      assert lines[..lineIdx + 1][..lineIdx] == lines[..lineIdx];
      lineIdx := lineIdx + 1;
    }
    assert lines[..lineIdx] == lines;
  }

  /** The service's reshaping loops. Missing credentials fail before the analysis is
      consulted at all; otherwise the outcome is the dictionary `Shaped` describes. */
  method ProcessDocument(endpoint: Option<string>, key: Option<string>, analysis: Option<AnalyzeResult>)
    returns (res: Result<ProcessedDocument, OcrError>)
    ensures !Truthy(endpoint) || !Truthy(key) ==> res == Failure(CredentialsNotConfigured)
    ensures Truthy(endpoint) && Truthy(key) && analysis.None? ==> res == Failure(AnalysisFailed)
    ensures res == Processed(endpoint, key, analysis)
  {
    if !Truthy(endpoint) || !Truthy(key) {
      return Failure(CredentialsNotConfigured);
    }
    if analysis.None? {
      return Failure(AnalysisFailed);
    }
    var result := analysis.value;
    var pages: seq<PageRecord> := [];
    var fullText := "";
    var pageIdx := 0;
    while pageIdx < |result.pages|
      invariant 0 <= pageIdx <= |result.pages|
      invariant pages == PageRecords(result.content, result.pages[..pageIdx])
      invariant fullText == DocumentText(result.pages[..pageIdx])
    {
      var page := result.pages[pageIdx];
      var pageText, words := ReadLines(result.content, page.lines);
      pages := pages + [PageRecord(pageIdx + 1, Strip(pageText), words)];
      fullText := fullText + pageText + "\n";
      ghost var done := result.pages[..pageIdx + 1];
      assert done[..pageIdx] == result.pages[..pageIdx] && done[pageIdx] == page;
      assert PageRecords(result.content, done) ==
        PageRecords(result.content, done[..pageIdx]) + [PageRecord(pageIdx + 1, Strip(pageText), words)];
      assert DocumentText(done) == DocumentText(done[..pageIdx]) + pageText + "\n";
      pageIdx := pageIdx + 1;
    }
    assert result.pages[..pageIdx] == result.pages;
    return Success(ProcessedDocument(Strip(fullText), pages, |pages|));
  }
}
