/**
 The verbatim pipeline of pdfcsv-to-txt.py: every downloaded document's text
 is written to the combined file as it is, followed by one newline.
 */
module PdfCsv {

  import opened PyStr
  import opened Extract
  import opened Fetch
  import opened Table

  /** The directory downloaded documents are saved in. */
  const PdfDir := "pdf_files"

  /** What the combined file holds after a run: each downloaded text followed by a newline. */
  function VerbatimOutput(rows: seq<Row>): string
  {
    Terminated(Texts(rows))
  }

  /**
   The main loop of the script. The combined file is opened in write mode, so
   whatever it held before (`previous`) is discarded: the result depends on the
   table alone, and a second run on the same table writes the same text. Every
   row with a string Link issues one request; only the rows whose download
   succeeds contribute text.
   */
  method CombinePdfs(previous: string, table: seq<Row>) returns (combined: string, requests: seq<Request>)
    ensures combined == VerbatimOutput(DropNa(table))
    ensures requests == Requests(PdfDir, DropNa(table))
  {
    var rows := DropNa(table);
    combined := "";
    requests := [];
    for i := 0 to |rows|
      invariant combined == Terminated(Texts(rows[..i]))
      invariant requests == Requests(PdfDir, rows[..i])
    {
      var row := rows[i];
      RowStep(PdfDir, rows, i);
      if !row.link.Url? {
        continue;
      }
      var url := row.link.url;
      var name := FileName(url);
      var path := SavePath(PdfDir, name);
      requests := requests + [Request(url, path)];
      if DownloadPdf(row.response, name) {
        var text := PdfToText(row.response.body);
        combined := combined + text;
        combined := combined + "\n";
      }
    }
    assert rows[..|rows|] == rows;
  }

  /** What one more row adds: its request, if any, and its text and newline, if downloaded. */
  lemma {:induction false} RowStep(dir: string, rows: seq<Row>, i: nat)
    requires i < |rows|
    ensures Requests(dir, rows[..i + 1]) == Requests(dir, rows[..i]) + RowRequests(dir, rows[i])
    ensures Terminated(Texts(rows[..i + 1])) == Terminated(Texts(rows[..i]))
      + (if Downloaded(rows[i]) then RowText(rows[i]) + "\n" else [])
  {
    assert rows[..i + 1] == rows[..i] + [rows[i]];
    RequestsSnoc(dir, rows[..i], rows[i]);
    TextsSnoc(rows[..i], rows[i]);
    var extra := if Downloaded(rows[i]) then [RowText(rows[i])] else [];
    TerminatedAppend(Texts(rows[..i]), extra);
  }

  /**
   A row that was not downloaded (its Link is missing or not a string, or the
   download failed) adds nothing to the combined file, wherever it stands.
   */
  lemma {:induction false} UndownloadedRowAddsNothing(rows: seq<Row>, i: nat)
    requires i < |rows| && !Downloaded(rows[i])
    ensures VerbatimOutput(rows) == VerbatimOutput(rows[..i] + rows[i + 1..])
  {
    UndownloadedRowHasNoText(rows, i);
  }

  /**
   A row that downloads but whose saved file cannot be opened still writes the
   newline: extraction yields the empty text, and the empty text is written.
   */
  lemma {:induction false} UnopenableRowAddsNewline(rows: seq<Row>, row: Row)
    requires Downloaded(row) && row.response.body.Unopenable?
    ensures VerbatimOutput(rows + [row]) == VerbatimOutput(rows) + "\n"
  {
    TextsSnoc(rows, row);
    TerminatedAppend(Texts(rows), [RowText(row)]);
  }

  /** `dropna` changes nothing in the combined file: a missing Link is never downloaded. */
  lemma {:induction false} DropNaKeepsOutput(rows: seq<Row>)
    ensures VerbatimOutput(DropNa(rows)) == VerbatimOutput(rows)
  {
    DropNaKeepsTexts(rows);
  }

  /** The number of characters a run writes: each downloaded text's length plus one. */
  function OutputSize(rows: seq<Row>): nat
  {
    if rows == [] then 0
    else
      var last := rows[|rows| - 1];
      OutputSize(rows[..|rows| - 1]) + (if Downloaded(last) then |RowText(last)| + 1 else 0)
  }

  /** The combined file's length is the sum, over the downloaded rows, of the text length plus one. */
  lemma {:induction false} VerbatimLength(rows: seq<Row>)
    ensures |VerbatimOutput(rows)| == OutputSize(rows)
    decreases |rows|
  {
    if rows != [] {
      var init, last := rows[..|rows| - 1], rows[|rows| - 1];
      VerbatimLength(init);
      var extra := if Downloaded(last) then [RowText(last)] else [];
      TerminatedAppend(Texts(init), extra);
    }
  }

  /**
   The combined file is made of the downloaded texts in row order: the k-th
   downloaded text starts right after the earlier texts and their newlines, and
   is followed by a newline.
   */
  lemma {:induction false} VerbatimTextAt(rows: seq<Row>, k: nat)
    requires k < |Texts(rows)|
    ensures var out, texts := VerbatimOutput(rows), Texts(rows);
      var start := |Terminated(texts[..k])|;
      && start + |texts[k]| + 1 <= |out|
      && out[start..start + |texts[k]|] == texts[k]
      && out[start + |texts[k]|] == '\n'
  {
    var texts := Texts(rows);
    assert texts == texts[..k] + ([texts[k]] + texts[k + 1..]);
    TerminatedAppend(texts[..k], [texts[k]] + texts[k + 1..]);
  }
}
