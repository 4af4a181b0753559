/**
 A worked run of both scripts on a three-row table: a URL whose 200 response
 holds a two-page document with the pages "Hello\n" and "World\n", a missing
 Link, and a URL answered with 404.
 */
module Scenario {

  import opened Wrappers
  import opened PyStr
  import opened Extract
  import opened Fetch
  import opened Table
  import PdfCsv
  import AspxCsv

  /** The example table, in row order. */
  function ExampleTable(): seq<Row>
  {
    [ Row(Url("http://x/a.pdf"), Replied(200, Paged(["Hello\n", "World\n"], None), false)),
      Row(Missing, Raised),
      Row(Url("http://x/b.pdf"), Replied(404, Unopenable, false)) ]
  }
  /** The first URL is saved as "a.pdf". */
  lemma NameA()
    ensures FileName("http://x/a.pdf") == "a.pdf"
  {
    var parts := ["http:", "", "x", "a.pdf"];
    assert Join(parts, '/') == "http://x/a.pdf";
    SplitJoin(parts, '/');
  }
  /** `dropna` removes the row with the missing Link. */
  lemma ExampleDropNa()
    ensures DropNa(ExampleTable()) == [ExampleTable()[0], ExampleTable()[2]]
  {
    var t := ExampleTable();
    assert t[..1][..0] == [];
    assert DropNa(t[..1]) == [t[0]];
    assert t[..2][..1] == t[..1];
    assert DropNa(t[..2]) == [t[0]];
    assert t[..2] == t[..|t| - 1];
  }
  /** The first row's download succeeds and the third row's does not. */
  lemma DownloadedA()
    ensures Downloaded(ExampleTable()[0])
  {
    NameA();
  }
  lemma NotDownloadedB()
    ensures !Downloaded(ExampleTable()[2])
  {
    var r := ExampleTable()[2].response;
    assert r.status == 404;
  }
  /** Both pages of the first document are read, in order. */
  lemma ExtractA()
    ensures ExtractedText(Paged(["Hello\n", "World\n"], None)) == "Hello\nWorld\n"
  {
    var pages := ["Hello\n", "World\n"];
    assert pages[..2] == pages;
    assert pages[..1] == ["Hello\n"];
    assert pages[..1][..0] == [];
    var doc := Paged(pages, None);
    assert PagesRead(doc) == 2;
    assert Concat(pages[..1]) == "Hello\n";
    assert Concat(pages) == Concat(pages[..1]) + "World\n";
  }
  lemma TextA()
    ensures Downloaded(ExampleTable()[0]) && RowText(ExampleTable()[0]) == "Hello\nWorld\n"
  {
    DownloadedA();
    ExtractA();
  }
  /** The only text the run extracts is the first document's. */
  lemma ExampleTexts()
    ensures Texts(DropNa(ExampleTable())) == ["Hello\nWorld\n"]
  {
    var t := ExampleTable();
    ExampleDropNa();
    DownloadedA();
    NotDownloadedB();
    TextA();
    TextsSnoc([t[0]], t[2]);
    TextsSnoc([], t[0]);
    assert [t[0], t[2]] == [t[0]] + [t[2]];
    assert [t[0]] == [] + [t[0]];
  }
  /** The verbatim run writes the one text as it is, then a newline. */
  lemma VerbatimExample()
    ensures PdfCsv.VerbatimOutput(DropNa(ExampleTable())) == "Hello\nWorld\n\n"
  {
    ExampleTexts();
  }
  /** The text splits into its two lines and the empty piece after the final newline. */
  lemma SplitExample()
    ensures Split("Hello\nWorld\n", '\n') == ["Hello", "World", ""]
  {
    var pieces := ["Hello", "World", ""];
    assert Join(pieces, '\n') == "Hello\nWorld\n";
    SplitJoin(pieces, '\n');
  }
  /** None of the pieces has whitespace to strip. */
  lemma StripExample()
    ensures AspxCsv.StripEach(["Hello", "World", ""]) == ["Hello", "World", ""]
  {
    var pieces := ["Hello", "World", ""];
    assert Stripped("Hello") && Stripped("World") && Stripped("");
    StripFixesStripped("Hello");
    StripFixesStripped("World");
    StripFixesStripped("");
    assert pieces[..1][..0] == [];
    assert AspxCsv.StripEach(pieces[..1]) == ["Hello"];
    assert pieces[..2][..1] == pieces[..1];
    assert AspxCsv.StripEach(pieces[..2]) == ["Hello", "World"];
  }
  /** The two lines are new and the empty piece is dropped. */
  lemma FirstExample()
    ensures AspxCsv.FirstOccurrences(["Hello", "World", ""]) == ["Hello", "World"]
  {
    var pieces := ["Hello", "World", ""];
    assert pieces[..1][..0] == [];
    assert AspxCsv.FirstOccurrences(pieces[..1]) == ["Hello"];
    assert pieces[..2][..1] == pieces[..1];
    assert "World"[0] != "Hello"[0];
    assert AspxCsv.FirstOccurrences(pieces[..2]) == ["Hello", "World"];
  }
  /** The blocks the deduplicating run is offered. */
  lemma BlocksExample()
    ensures AspxCsv.BlocksOf(["Hello\nWorld\n"]) == ["Hello", "World", ""]
  {
    var texts := ["Hello\nWorld\n"];
    SplitExample();
    StripExample();
    assert texts[..0] == [];
    assert AspxCsv.TextBlocks(texts[0]) == ["Hello", "World", ""];
  }
  /** Writing the two lines, each with its newline. */
  lemma TerminatedExample()
    ensures Terminated(["Hello", "World"]) == "Hello\nWorld\n"
  {
    var lines := ["Hello", "World"];
    assert lines[1..][1..] == [];
    assert Terminated(lines[1..]) == "World\n";
  }
  /** Any run whose only text is the example's writes its two lines. */
  lemma DedupOfText(rows: seq<Row>)
    requires Texts(rows) == ["Hello\nWorld\n"]
    ensures AspxCsv.DedupOutput(rows) == "Hello\nWorld\n"
  {
    BlocksExample();
    FirstExample();
    TerminatedExample();
    assert AspxCsv.DedupLines(rows) == ["Hello", "World"];
  }
  /** The deduplicating run writes "Hello" and "World" as two lines. */
  lemma DedupExample()
    ensures AspxCsv.DedupOutput(DropNa(ExampleTable())) == "Hello\nWorld\n"
  {
    ExampleTexts();
    DedupOfText(DropNa(ExampleTable()));
  }

  /** The second URL is saved as "b.pdf". */
  lemma NameB()
    ensures FileName("http://x/b.pdf") == "b.pdf"
  {
    var parts := ["http:", "", "x", "b.pdf"];
    assert Join(parts, '/') == "http://x/b.pdf";
    SplitJoin(parts, '/');
  }

  /** The save paths of the two URLs. */
  lemma ExamplePaths()
    ensures SavePath(PdfCsv.PdfDir, "a.pdf") == "pdf_files/a.pdf"
    ensures SavePath(PdfCsv.PdfDir, "b.pdf") == "pdf_files/b.pdf"
  {
  }

  /** The first URL asks for one request, saved under its final path segment. */
  lemma RequestA(response: Response)
    ensures RowRequests(PdfCsv.PdfDir, Row(Url("http://x/a.pdf"), response)) == [Request("http://x/a.pdf", "pdf_files/a.pdf")]
  {
    NameA();
    ExamplePaths();
  }

  /** The second URL asks for one request as well, although its download will fail. */
  lemma RequestB(response: Response)
    ensures RowRequests(PdfCsv.PdfDir, Row(Url("http://x/b.pdf"), response)) == [Request("http://x/b.pdf", "pdf_files/b.pdf")]
  {
    NameB();
    ExamplePaths();
  }

  /** Both string URLs are requested, the failing one too, each saved under its final path segment. */
  lemma RequestsExample()
    ensures Requests(PdfCsv.PdfDir, DropNa(ExampleTable()))
         == [Request("http://x/a.pdf", "pdf_files/a.pdf"), Request("http://x/b.pdf", "pdf_files/b.pdf")]
  {
    var t := ExampleTable();
    ExampleDropNa();
    RequestA(t[0].response);
    RequestB(t[2].response);
    RequestsSnoc(PdfCsv.PdfDir, [t[0]], t[2]);
    RequestsSnoc(PdfCsv.PdfDir, [], t[0]);
    assert [t[0], t[2]] == [t[0]] + [t[2]];
    assert [t[0]] == [] + [t[0]];
  }
}
