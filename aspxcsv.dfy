/**
 The deduplicating pipeline of aspxcsv-to-txt.py: each downloaded document's
 text is split into lines, each line is stripped, and a stripped line is
 written (with a newline) only if it is non-empty and has not been written
 before in the run.
 */
module AspxCsv {

  import opened PyStr
  import opened Extract
  import opened Fetch
  import opened Table

  /** The directory downloaded documents are saved in. */
  const AspxDir := "aspx_files"

  /** A block fit to be written: non-empty, already stripped, and on one line. */
  predicate Clean(block: string)
  {
    block != [] && Stripped(block) && '\n' !in block
  }

  /** Every block is stripped and on one line. */
  predicate AllStripped(blocks: seq<string>)
  {
    forall i :: 0 <= i < |blocks| ==> Stripped(blocks[i]) && '\n' !in blocks[i]
  }

  /** Every line is fit to be written. */
  predicate AllClean(lines: seq<string>)
  {
    forall i :: 0 <= i < |lines| ==> Clean(lines[i])
  }

  /** No block occurs twice. */
  predicate Distinct(xs: seq<string>)
  {
    forall i, j :: 0 <= i < j < |xs| ==> xs[i] != xs[j]
  }

  /** `block.strip()` applied to each piece, in order. */
  function StripEach(pieces: seq<string>): seq<string>
  {
    if pieces == [] then [] else StripEach(pieces[..|pieces| - 1]) + [Strip(pieces[|pieces| - 1])]
  }

  /** `text_content.split("\n")`, each piece stripped. */
  function TextBlocks(text: string): seq<string>
  {
    StripEach(Split(text, '\n'))
  }

  /** Stripping each piece keeps one block per piece, each stripped, with no character the piece lacks. */
  lemma {:induction false} StripEachSpec(pieces: seq<string>)
    ensures var blocks := StripEach(pieces);
      && |blocks| == |pieces|
      && forall i :: 0 <= i < |blocks| ==> Stripped(blocks[i]) && forall c :: c in blocks[i] ==> c in pieces[i]
    decreases |pieces|
  {
    if pieces != [] {
      StripEachSpec(pieces[..|pieces| - 1]);
      StripStripped(pieces[|pieces| - 1]);
    }
  }

  /** The blocks of a text's first `k + 1` lines: those of the first `k`, then the stripped line `k`, stripped and on one line. */
  lemma PieceStep(text: string, k: nat)
    requires k < |Split(text, '\n')|
    ensures var pieces := Split(text, '\n');
      && StripEach(pieces[..k + 1]) == StripEach(pieces[..k]) + [Strip(pieces[k])]
      && Stripped(Strip(pieces[k])) && '\n' !in Strip(pieces[k])
  {
    var pieces := Split(text, '\n');
    assert pieces[..k + 1][..k] == pieces[..k];
    SplitParts(text, '\n');
    StripStripped(pieces[k]);
  }

  /** There is one block per line of the text, each already stripped and free of newlines. */
  lemma TextBlocksAreStripped(text: string)
    ensures var blocks := TextBlocks(text);
      && |blocks| == multiset(text)['\n'] + 1
      && AllStripped(blocks)
  {
    SplitParts(text, '\n');
    StripEachSpec(Split(text, '\n'));
  }

  /** The blocks of a sequence of texts: each text's blocks in turn. */
  function BlocksOf(texts: seq<string>): seq<string>
  {
    if texts == [] then [] else BlocksOf(texts[..|texts| - 1]) + TextBlocks(texts[|texts| - 1])
  }

  /** Every block the run offers to the writer, in row order and then in order within each text. */
  function Blocks(rows: seq<Row>): seq<string>
  {
    BlocksOf(Texts(rows))
  }

  /** One more text adds its blocks after the earlier ones. */
  lemma {:induction false} BlocksOfSnoc(texts: seq<string>, text: string)
    ensures BlocksOf(texts + [text]) == BlocksOf(texts) + TextBlocks(text)
  {
    assert (texts + [text])[..|texts|] == texts;
  }

  /** Offering the blocks of one more text continues from where the earlier texts left the writer. */
  lemma AdmitText(texts: seq<string>, text: string)
    ensures Admit([], BlocksOf(texts + [text])) == Admit(Admit([], BlocksOf(texts)), TextBlocks(text))
  {
    BlocksOfSnoc(texts, text);
    AdmitAppend([], BlocksOf(texts), TextBlocks(text));
  }

  /** Every block offered is stripped and on one line. */
  lemma {:induction false} BlocksAreStripped(texts: seq<string>)
    ensures AllStripped(BlocksOf(texts))
    decreases |texts|
  {
    if texts != [] {
      var a, b := BlocksOf(texts[..|texts| - 1]), TextBlocks(texts[|texts| - 1]);
      BlocksAreStripped(texts[..|texts| - 1]);
      TextBlocksAreStripped(texts[|texts| - 1]);
      forall i | 0 <= i < |a + b|
        ensures Stripped((a + b)[i]) && '\n' !in (a + b)[i]
      {
        if i < |a| {
          assert (a + b)[i] == a[i];
        } else {
          assert (a + b)[i] == b[i - |a|];
        }
      }
    }
  }

  /**
   The lines written so far after offering `blocks`, one at a time, to a writer
   that has already written `kept`: a block is appended when it is non-empty
   and not yet written. What was written stays, and a string ends up written
   exactly when it was written before or was offered and is non-empty.
   */
  function Admit(kept: seq<string>, blocks: seq<string>): (lines: seq<string>)
    ensures |kept| <= |lines| && lines[..|kept|] == kept
    decreases |blocks|
  {
    if blocks == [] then kept
    else
      var before := Admit(kept, blocks[..|blocks| - 1]);
      var block := blocks[|blocks| - 1];
      if block != [] && block !in before then before + [block] else before
  }

  /** Offering one more block appends it when it is non-empty and not yet written. */
  lemma {:induction false} AdmitSnoc(kept: seq<string>, blocks: seq<string>, block: string)
    ensures block != [] && block !in Admit(kept, blocks) ==> Admit(kept, blocks + [block]) == Admit(kept, blocks) + [block]
    ensures block == [] || block in Admit(kept, blocks) ==> Admit(kept, blocks + [block]) == Admit(kept, blocks)
  {
    assert (blocks + [block])[..|blocks|] == blocks;
  }

  /** A string ends up written exactly when it was written before or was offered and is non-empty. */
  lemma {:induction false} AdmitMembers(kept: seq<string>, blocks: seq<string>)
    ensures forall x :: x in Admit(kept, blocks) <==> x in kept || (x in blocks && x != [])
    decreases |blocks|
  {
    if blocks != [] {
      var init := blocks[..|blocks| - 1];
      AdmitMembers(kept, init);
      assert blocks == init + [blocks[|blocks| - 1]];
    }
  }

  /** Offering `a` and then `b` is offering `a + b`. */
  lemma {:induction false} AdmitAppend(kept: seq<string>, a: seq<string>, b: seq<string>)
    ensures Admit(kept, a + b) == Admit(Admit(kept, a), b)
    decreases |b|
  {
    if b == [] {
      assert a + b == a;
    } else {
      var b' := b[..|b| - 1];
      assert (a + b)[..|a + b| - 1] == a + b';
      AdmitAppend(kept, a, b');
    }
  }

  /** Offering blocks never makes a line appear twice. */
  lemma {:induction false} AdmitKeepsDistinct(kept: seq<string>, blocks: seq<string>)
    requires Distinct(kept)
    ensures Distinct(Admit(kept, blocks))
    decreases |blocks|
  {
    if blocks != [] {
      AdmitKeepsDistinct(kept, blocks[..|blocks| - 1]);
    }
  }

  /**
   The reference for the deduplicated lines, stated on the input alone: the
   non-empty entries of `xs` that do not occur earlier in `xs`, in the order
   of `xs`.
   */
  function FirstOccurrences(xs: seq<string>): seq<string>
  {
    if xs == [] then []
    else
      var init, last := xs[..|xs| - 1], xs[|xs| - 1];
      FirstOccurrences(init) + (if last != [] && last !in init then [last] else [])
  }

  /** The writer, started empty, writes exactly the first occurrences of the non-empty blocks. */
  lemma {:induction false} AdmitIsFirstOccurrences(xs: seq<string>)
    ensures Admit([], xs) == FirstOccurrences(xs)
    decreases |xs|
  {
    if xs != [] {
      AdmitIsFirstOccurrences(xs[..|xs| - 1]);
      AdmitMembers([], xs[..|xs| - 1]);
    }
  }

  /** The position of the first occurrence of `x` in `xs`. */
  function FirstIndex(xs: seq<string>, x: string): (k: nat)
    requires x in xs
    ensures k < |xs| && xs[k] == x && x !in xs[..k]
  {
    var init := xs[..|xs| - 1];
    if x in init then
      var k := FirstIndex(init, x);
      assert xs[..k] == init[..k];
      k
    else
      assert xs[..|xs| - 1] == init;
      |xs| - 1
  }

  /** Lines come out in the order of their first occurrence among the blocks. */
  lemma {:induction false} FirstOccurrencesInOrder(xs: seq<string>, i: nat, j: nat)
    requires i < j < |FirstOccurrences(xs)|
    ensures var lines := FirstOccurrences(xs);
      lines[i] in xs && lines[j] in xs && FirstIndex(xs, lines[i]) < FirstIndex(xs, lines[j])
    decreases |xs|
  {
    var init, last := xs[..|xs| - 1], xs[|xs| - 1];
    var before, lines := FirstOccurrences(init), FirstOccurrences(xs);
    AdmitIsFirstOccurrences(init);
    AdmitIsFirstOccurrences(xs);
    AdmitMembers([], init);
    AdmitMembers([], xs);
    assert lines[i] in xs;
    if j < |before| {
      FirstOccurrencesInOrder(init, i, j);
      assert lines[i] == before[i] && lines[j] == before[j];
      assert before[i] in init;
    } else {
      assert lines[j] == last && last !in init;
      assert lines[i] == before[i] && before[i] in init;
      assert FirstIndex(xs, lines[i]) < |init| by {
        var k := FirstIndex(init, lines[i]);
        assert xs[k] == lines[i] && lines[i] !in xs[..k] by {
          assert xs[..k] == init[..k];
        }
      }
    }
  }

  /** The lines a run writes: the first occurrences of the non-empty blocks offered. */
  function DedupLines(rows: seq<Row>): seq<string>
  {
    FirstOccurrences(Blocks(rows))
  }

  /**
   The deduplicated lines of stripped one-line blocks are pairwise distinct,
   each non-empty, stripped and on one line, and a string is among them
   exactly when it is a non-empty block.
   */
  lemma FirstOccurrencesAreClean(xs: seq<string>)
    requires AllStripped(xs)
    ensures var lines := FirstOccurrences(xs);
      && Distinct(lines)
      && AllClean(lines)
      && forall x :: x in lines <==> x in xs && x != []
  {
    AdmitIsFirstOccurrences(xs);
    AdmitMembers([], xs);
    AdmitKeepsDistinct([], xs);
  }

  /**
   The lines a run writes are pairwise distinct, each non-empty, stripped and
   on one line, and a string is among them exactly when it is a non-empty
   block of some downloaded row.
   */
  lemma DedupLinesSpec(rows: seq<Row>)
    ensures var lines := DedupLines(rows);
      && Distinct(lines)
      && AllClean(lines)
      && forall x :: x in lines <==> x in Blocks(rows) && x != []
  {
    BlocksAreStripped(Texts(rows));
    FirstOccurrencesAreClean(Blocks(rows));
  }

  /** What the combined file holds after a run. */
  function DedupOutput(rows: seq<Row>): string
  {
    Terminated(DedupLines(rows))
  }

  /**
   Splitting the combined file's text on "\n" gives each deduplicated line
   once and in order, then one empty string after the final newline.
   */
  lemma DedupOutputReadBack(rows: seq<Row>)
    ensures Split(DedupOutput(rows), '\n') == DedupLines(rows) + [[]]
  {
    DedupLinesSpec(rows);
    SplitTerminated(DedupLines(rows));
  }

  /**
   A row that was not downloaded (its Link is missing or not a string, or the
   download failed) adds nothing to the combined file, wherever it stands.
   */
  lemma {:induction false} UndownloadedRowAddsNothing(rows: seq<Row>, i: nat)
    requires i < |rows| && !Downloaded(rows[i])
    ensures DedupOutput(rows) == DedupOutput(rows[..i] + rows[i + 1..])
  {
    UndownloadedRowHasNoText(rows, i);
  }

  /** `dropna` changes nothing in the combined file: a missing Link is never downloaded. */
  lemma {:induction false} DropNaKeepsOutput(rows: seq<Row>)
    ensures DedupOutput(DropNa(rows)) == DedupOutput(rows)
  {
    DropNaKeepsTexts(rows);
  }

  /**
   Writing a clean line not yet written keeps the lines distinct and clean,
   adds exactly that line to their set, and appends it and a newline to the file.
   */
  lemma WriteLine(lines: seq<string>, block: string)
    requires Distinct(lines) && AllClean(lines)
    requires Clean(block) && block !in lines
    ensures Distinct(lines + [block]) && AllClean(lines + [block])
    ensures (set l | l in lines + [block]) == (set l | l in lines) + {block}
    ensures Terminated(lines + [block]) == Terminated(lines) + block + "\n"
  {
    TerminatedAppend(lines, [block]);
  }

  /**
   The run's seen-set (`unique_text_blocks`) and the combined file it writes.
   The ghost `lines` lists the lines written so far; the seen-set is always
   exactly the set of those lines, and the file is those lines each followed by
   a newline.
   */
  class UniqueBlockWriter {
    var seen: set<string>
    var combined: string
    ghost var lines: seq<string>

    ghost predicate Valid()
      reads this
    {
      && combined == Terminated(lines)
      && seen == (set l | l in lines)
      && Distinct(lines)
      && AllClean(lines)
    }

    /** The seen-set starts empty and the file, opened in write mode, starts empty. */
    constructor ()
      ensures Valid()
      ensures seen == {} && combined == [] && lines == []
    {
      seen := {};
      combined := [];
      lines := [];
    }

    /**
     The inner loop of aspxcsv-to-txt.py: split the text on "\n", strip each piece, and write each
     non-empty stripped piece not yet in the seen-set, adding it to the set.
     */
    method WriteText(text: string)
      requires Valid()
      modifies this
      ensures Valid()
      ensures lines == Admit(old(lines), TextBlocks(text))
      ensures old(seen) <= seen
    {
      var pieces := Split(text, '\n');
      for k := 0 to |pieces|
        invariant Valid()
        invariant lines == Admit(old(lines), StripEach(pieces[..k]))
        invariant old(seen) <= seen
      {
        var block := Strip(pieces[k]);
        PieceStep(text, k);
        AdmitSnoc(old(lines), StripEach(pieces[..k]), block);
        if block != [] && block !in seen {
          WriteLine(lines, block);
          seen := seen + {block};
          combined := combined + block + "\n";
          lines := lines + [block];
        }
      }
      assert pieces[..|pieces|] == pieces;
    }

    /**
     One iteration of the main loop: skip a Link that is not a string; else
     request the URL, saving under its final path segment, and if the download
     succeeds write the extracted text's new lines. A row that is not
     downloaded leaves the seen-set and the file as they were.
     */
    method ProcessRow(row: Row) returns (requested: seq<Request>)
      requires Valid()
      modifies this
      ensures Valid()
      ensures requested == RowRequests(AspxDir, row)
      ensures lines == if Downloaded(row) then Admit(old(lines), TextBlocks(RowText(row))) else old(lines)
      ensures old(seen) <= seen
      ensures !Downloaded(row) ==> seen == old(seen) && combined == old(combined)
    {
      requested := [];
      if !row.link.Url? {
        return;
      }
      var url := row.link.url;
      var name := FileName(url);
      var path := SavePath(AspxDir, name);
      requested := [Request(url, path)];
      if DownloadPdf(row.response, name) {
        var text := PdfToText(row.response.body);
        WriteText(text);
      }
    }
  }

  /**
   The whole run: a fresh seen-set and a combined file opened in write mode
   (whatever it held before, `previous`, is discarded), then every row of the
   table left by `dropna`, in order.
   */
  method CombineAspx(previous: string, table: seq<Row>) returns (combined: string, requests: seq<Request>)
    ensures combined == DedupOutput(DropNa(table))
    ensures requests == Requests(AspxDir, DropNa(table))
  {
    var rows := DropNa(table);
    var writer := new UniqueBlockWriter();
    requests := [];
    for i := 0 to |rows|
      invariant writer.Valid()
      invariant writer.lines == Admit([], BlocksOf(Texts(rows[..i])))
      invariant requests == Requests(AspxDir, rows[..i])
    {
      var requested := writer.ProcessRow(rows[i]);
      requests := requests + requested;
      RowStep(rows, i);
    }
    assert rows[..|rows|] == rows;
    AdmitIsFirstOccurrences(Blocks(rows));
    combined := writer.combined;
  }

  /** How the loop of CombineAspx advances by one row: its requests, and the lines it has written. */
  lemma {:induction false} RowStep(rows: seq<Row>, i: nat)
    requires i < |rows|
    ensures Requests(AspxDir, rows[..i + 1]) == Requests(AspxDir, rows[..i]) + RowRequests(AspxDir, rows[i])
    ensures Downloaded(rows[i]) ==>
      Admit([], BlocksOf(Texts(rows[..i + 1]))) == Admit(Admit([], BlocksOf(Texts(rows[..i]))), TextBlocks(RowText(rows[i])))
    ensures !Downloaded(rows[i]) ==> Texts(rows[..i + 1]) == Texts(rows[..i])
  {
    assert rows[..i + 1] == rows[..i] + [rows[i]];
    RequestsSnoc(AspxDir, rows[..i], rows[i]);
    TextsSnoc(rows[..i], rows[i]);
    if Downloaded(rows[i]) {
      AdmitText(Texts(rows[..i]), RowText(rows[i]));
    }
  }
}
