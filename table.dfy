/**
 The rows of the link table and the steps both scripts take on a row before
 their aggregators differ: `dropna` on the Link column, the `isinstance(url,
 str)` check, the file name and save path, and the download.
 */
module Table {

  import opened Extract
  import opened Fetch

  /** The Link cell of a row: missing (NaN), present but not a string, or a URL string. */
  datatype Link = Missing | NotText | Url(url: string)

  /** One row: its Link cell and what fetching that link would do. */
  datatype Row = Row(link: Link, response: Response)

  /** One GET request a run issues: the URL and the path its body is saved to. */
  datatype Request = Request(url: string, path: string)

  /** `df.dropna(subset=['Link'])`: the rows whose Link is present, in table order. */
  function DropNa(rows: seq<Row>): seq<Row>
  {
    if rows == [] then []
    else
      var last := rows[|rows| - 1];
      DropNa(rows[..|rows| - 1]) + (if last.link.Missing? then [] else [last])
  }

  /** `dropna` keeps exactly the rows whose Link is present, and never adds a row. */
  lemma {:induction false} DropNaKeepsPresent(rows: seq<Row>)
    ensures |DropNa(rows)| <= |rows|
    ensures forall r :: r in DropNa(rows) <==> r in rows && !r.link.Missing?
    decreases |rows|
  {
    if rows != [] {
      DropNaKeepsPresent(rows[..|rows| - 1]);
      assert rows == rows[..|rows| - 1] + [rows[|rows| - 1]];
    }
  }

  /**
   Keeping the present rows is an order-keeping filter: it works row by row,
   keeps a row with a present Link as it is and drops one with a missing Link.
   */
  lemma {:induction false} DropNaAppend(a: seq<Row>, b: seq<Row>)
    ensures DropNa(a + b) == DropNa(a) + DropNa(b)
    decreases |b|
  {
    if b == [] {
      assert a + b == a;
    } else {
      var b' := b[..|b| - 1];
      assert (a + b)[..|a + b| - 1] == a + b';
      DropNaAppend(a, b');
    }
  }

  /** A single row survives `dropna` exactly when its Link is present. */
  lemma DropNaOne(row: Row)
    ensures DropNa([row]) == if row.link.Missing? then [] else [row]
  {
    assert [row][..0] == [];
  }

  /**
   A row is downloaded exactly when its Link is a string (the guard of the
   string check) and `download_pdf` on that URL's save path returns true.
   */
  lemma DownloadedSpec(row: Row)
    ensures Downloaded(row) <==>
      && row.link.Url?
      && row.response.Replied? && row.response.status == 200 && !row.response.saveRaises
      && FileName(row.link.url) !in {"", ".", ".."}
  {
  }

  /** A row whose document was downloaded: its Link is a string and `download_pdf` returned true. */
  predicate Downloaded(row: Row)
  {
    row.link.Url? && DownloadPdf(row.response, FileName(row.link.url))
  }

  /** The text `pdf_to_text` extracts from a downloaded row's saved document. */
  function RowText(row: Row): string
    requires Downloaded(row)
  {
    ExtractedText(row.response.body)
  }

  /** The extracted texts of the downloaded rows, in row order. */
  function Texts(rows: seq<Row>): (texts: seq<string>)
    ensures |texts| <= |rows|
  {
    if rows == [] then []
    else
      var last := rows[|rows| - 1];
      Texts(rows[..|rows| - 1]) + (if Downloaded(last) then [RowText(last)] else [])
  }

  /** One more row adds its text, if downloaded, after the earlier ones. */
  lemma {:induction false} TextsSnoc(rows: seq<Row>, row: Row)
    ensures Texts(rows + [row]) == Texts(rows) + (if Downloaded(row) then [RowText(row)] else [])
  {
    assert (rows + [row])[..|rows|] == rows;
  }

  /** The texts of two runs of rows, one after the other, are the texts of each in turn. */
  lemma {:induction false} TextsAppend(a: seq<Row>, b: seq<Row>)
    ensures Texts(a + b) == Texts(a) + Texts(b)
    decreases |b|
  {
    if b == [] {
      assert a + b == a;
    } else {
      var b', last := b[..|b| - 1], b[|b| - 1];
      assert b == b' + [last];
      assert a + b == (a + b') + [last];
      TextsAppend(a, b');
      TextsSnoc(a + b', last);
      TextsSnoc(b', last);
    }
  }

  /**
   A row that was not downloaded (its Link is missing or not a string, or the
   download failed) contributes no text, wherever it stands.
   */
  lemma {:induction false} UndownloadedRowHasNoText(rows: seq<Row>, i: nat)
    requires i < |rows| && !Downloaded(rows[i])
    ensures Texts(rows) == Texts(rows[..i] + rows[i + 1..])
  {
    var before, row, after := rows[..i], rows[i], rows[i + 1..];
    assert rows == (before + [row]) + after;
    TextsAppend(before + [row], after);
    TextsSnoc(before, row);
    TextsAppend(before, after);
  }

  /** `dropna` changes no text: a missing Link is never downloaded. */
  lemma {:induction false} DropNaKeepsTexts(rows: seq<Row>)
    ensures Texts(DropNa(rows)) == Texts(rows)
    decreases |rows|
  {
    if rows != [] {
      var init, last := rows[..|rows| - 1], rows[|rows| - 1];
      assert rows == init + [last];
      TextsSnoc(init, last);
      DropNaKeepsTexts(init);
      if last.link.Missing? {
        assert DropNa(rows) == DropNa(init);
      } else {
        assert DropNa(rows) == DropNa(init) + [last];
        TextsSnoc(DropNa(init), last);
      }
    }
  }

  /** The request a row issues: one for a string URL, none otherwise. */
  function RowRequests(dir: string, row: Row): seq<Request>
  {
    if row.link.Url? then [Request(row.link.url, SavePath(dir, FileName(row.link.url)))] else []
  }

  /** Every request a run over `rows` issues, in row order, saving under `dir`. */
  function Requests(dir: string, rows: seq<Row>): seq<Request>
  {
    if rows == [] then []
    else Requests(dir, rows[..|rows| - 1]) + RowRequests(dir, rows[|rows| - 1])
  }

  /** The requests of two runs of rows, one after the other, are the requests of each in turn. */
  lemma {:induction false} RequestsAppend(dir: string, a: seq<Row>, b: seq<Row>)
    ensures Requests(dir, a + b) == Requests(dir, a) + Requests(dir, b)
    decreases |b|
  {
    if b == [] {
      assert a + b == a;
    } else {
      var b' := b[..|b| - 1];
      assert (a + b)[..|a + b| - 1] == a + b';
      RequestsAppend(dir, a, b');
    }
  }

  /** A request a run over `rows` may issue: for the URL of one of the rows, saved under `dir`. */
  ghost predicate RequestFor(dir: string, rows: seq<Row>, q: Request)
  {
    && q.path == dir + "/" + FileName(q.url)
    && exists i :: 0 <= i < |rows| && rows[i].link == Url(q.url)
  }

  /** A request issued by row `i` is for that row's URL, saved under the URL's final segment. */
  lemma RowRequestFor(dir: string, rows: seq<Row>, i: nat, q: Request)
    requires i < |rows| && q in RowRequests(dir, rows[i])
    ensures rows[i].link == Url(q.url) && q.path == SavePath(dir, FileName(q.url))
    ensures RequestFor(dir, rows, q)
  {
  }

  /** A request for a URL of some rows is still one after more rows are appended. */
  lemma RequestForExtends(dir: string, rows: seq<Row>, row: Row, q: Request)
    requires RequestFor(dir, rows, q)
    ensures RequestFor(dir, rows + [row], q)
  {
    var i :| 0 <= i < |rows| && rows[i].link == Url(q.url);
    assert (rows + [row])[i] == rows[i];
  }

  /**
   Each request is for the URL of some row whose Link is that string, and saves
   to the download directory joined with the URL's final path segment.
   */
  lemma {:induction false} RequestsAreForUrls(dir: string, rows: seq<Row>)
    ensures forall q :: q in Requests(dir, rows) ==> RequestFor(dir, rows, q)
    decreases |rows|
  {
    if rows != [] {
      var init, last := rows[..|rows| - 1], rows[|rows| - 1];
      RequestsAreForUrls(dir, init);
      assert rows == init + [last];
      forall q | q in Requests(dir, rows) ensures RequestFor(dir, rows, q) {
        if q in Requests(dir, init) {
          RequestForExtends(dir, init, last, q);
        } else {
          RowRequestFor(dir, rows, |rows| - 1, q);
        }
      }
    }
  }

  /** One more row adds its own request, if any, after the earlier ones. */
  lemma {:induction false} RequestsSnoc(dir: string, rows: seq<Row>, row: Row)
    ensures Requests(dir, rows + [row]) == Requests(dir, rows) + RowRequests(dir, row)
  {
    assert (rows + [row])[..|rows|] == rows;
  }

  /** A row whose Link is missing or not a string issues no request, wherever it stands. */
  lemma {:induction false} NonUrlRowRequestsNothing(dir: string, rows: seq<Row>, i: nat)
    requires i < |rows| && !rows[i].link.Url?
    ensures Requests(dir, rows) == Requests(dir, rows[..i] + rows[i + 1..])
  {
    var before, row, after := rows[..i], rows[i], rows[i + 1..];
    assert rows == (before + [row]) + after;
    RequestsAppend(dir, before + [row], after);
    RequestsSnoc(dir, before, row);
    RequestsAppend(dir, before, after);
  }

  /**
   `dropna` changes no request: a missing Link would have failed the string
   check anyway.
   */
  lemma {:induction false} DropNaKeepsRequests(dir: string, rows: seq<Row>)
    ensures Requests(dir, DropNa(rows)) == Requests(dir, rows)
    decreases |rows|
  {
    if rows != [] {
      var init, last := rows[..|rows| - 1], rows[|rows| - 1];
      assert rows == init + [last];
      RequestsSnoc(dir, init, last);
      DropNaKeepsRequests(dir, init);
      if last.link.Missing? {
        assert DropNa(rows) == DropNa(init);
        assert RowRequests(dir, last) == [];
      } else {
        assert DropNa(rows) == DropNa(init) + [last];
        RequestsSnoc(dir, DropNa(init), last);
      }
    }
  }
}
