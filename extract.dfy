/**
 `pdf_to_text`: the text of a downloaded document, page by page. PDF parsing
 itself is not modelled; a document is given as the plain text of its pages,
 together with what goes wrong while reading it, if anything.
 */
module Extract {

  import opened Wrappers

  /**
   A saved document as the extractor meets it: either opening it raises, or it
   has pages whose texts are given, and loading or rendering page `failsAt`
   (if there is such a page) raises.
   */
  datatype Pdf = Unopenable | Paged(pages: seq<string>, failsAt: Option<nat>)

  /** The texts of `pages` run together in page order. */
  function Concat(pages: seq<string>): string
  {
    if pages == [] then [] else Concat(pages[..|pages| - 1]) + pages[|pages| - 1]
  }

  /** How many pages are appended before extraction stops: all of them, or those before the failing page. */
  function PagesRead(doc: Pdf): (n: nat)
    ensures doc.Unopenable? ==> n == 0
    ensures doc.Paged? ==> n <= |doc.pages|
    ensures doc.Paged? && doc.failsAt.Some? && doc.failsAt.value < |doc.pages| ==> n == doc.failsAt.value
    ensures doc.Paged? && (doc.failsAt.None? || doc.failsAt.value >= |doc.pages|) ==> n == |doc.pages|
  {
    match doc
    case Unopenable => 0
    case Paged(pages, failsAt) =>
      if failsAt.Some? && failsAt.value < |pages| then failsAt.value else |pages|
  }

  /** The text `pdf_to_text` returns: the first `PagesRead(doc)` pages in order, nothing for an unopenable file. */
  function ExtractedText(doc: Pdf): string
  {
    if doc.Unopenable? then [] else Concat(doc.pages[..PagesRead(doc)])
  }

  /** The text of every page of a document that opens. */
  function FullText(doc: Pdf): string
  {
    if doc.Unopenable? then [] else Concat(doc.pages)
  }

  /**
   `pdf_to_text(pdf_path)`: start from the empty text and append each page's
   text in page order; an exception ends the loop and the text gathered so far
   is returned. Nothing escapes the method.
   */
  method PdfToText(doc: Pdf) returns (text: string)
    ensures text == ExtractedText(doc)
  {
    text := "";
    if doc.Unopenable? {
      return;
    }
    var pages := doc.pages;
    var pageNum := 0;
    while pageNum < |pages|
      invariant pageNum <= PagesRead(doc)
      invariant text == Concat(pages[..pageNum])
    {
      if doc.failsAt == Some(pageNum) {
        return;
      }
      assert pages[..pageNum + 1][..pageNum] == pages[..pageNum];
      text := text + pages[pageNum];
      pageNum := pageNum + 1;
    }
    assert pages[..pageNum] == pages;
  }

  /** Running two lists of pages together is running each and joining the texts. */
  lemma {:induction false} ConcatAppend(a: seq<string>, b: seq<string>)
    ensures Concat(a + b) == Concat(a) + Concat(b)
    decreases |b|
  {
    if b == [] {
      assert a + b == a;
    } else {
      var b' := b[..|b| - 1];
      assert (a + b)[..|a + b| - 1] == a + b';
      ConcatAppend(a, b');
    }
  }

  /**
   The extracted text is a prefix of the document's full text, and equals it
   when no page raises: a failure only ever cuts the text short.
   */
  lemma ExtractedIsPrefix(doc: Pdf)
    ensures var t, full := ExtractedText(doc), FullText(doc);
      |t| <= |full| && full[..|t|] == t
    ensures doc.Paged? && (doc.failsAt.None? || doc.failsAt.value >= |doc.pages|) ==>
      ExtractedText(doc) == FullText(doc)
  {
    if doc.Paged? {
      var n := PagesRead(doc);
      assert doc.pages == doc.pages[..n] + doc.pages[n..];
      ConcatAppend(doc.pages[..n], doc.pages[n..]);
    }
  }

  /**
   Page order is kept: page `j` of the pages read occupies, in the extracted
   text, exactly the span after the texts of pages `0..j-1`.
   */
  lemma ExtractedPageAt(doc: Pdf, j: nat)
    requires doc.Paged? && j < PagesRead(doc)
    ensures var t, start := ExtractedText(doc), |Concat(doc.pages[..j])|;
      start + |doc.pages[j]| <= |t| && t[start..start + |doc.pages[j]|] == doc.pages[j]
  {
    var pages, n := doc.pages, PagesRead(doc);
    var read := pages[..n];
    assert read == pages[..j] + [pages[j]] + read[j + 1..];
    ConcatAppend(pages[..j] + [pages[j]], read[j + 1..]);
    ConcatAppend(pages[..j], [pages[j]]);
    assert Concat([pages[j]]) == pages[j] by {
      assert [pages[j]][..0] == [];
    }
  }
}
