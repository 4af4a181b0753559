# London link-table text aggregators, modelled in Dafny

The repository has two batch scripts. Each reads a table of links from a CSV
file, keeps the rows whose `Link` cell is present (`dropna`) and skips any
`Link` that is not a string. For each remaining URL it downloads the document
into a fixed directory, under the URL's final path segment, extracts the text
of its pages with PyMuPDF, and writes one combined text file:

- `pdfcsv-to-txt.py` writes each extracted text verbatim, followed by a newline.
- `aspxcsv-to-txt.py` splits each text on `"\n"` and strips each piece. It
  writes a stripped piece (plus `"\n"`) only if the piece is non-empty and not
  yet in the run's seen-set (`unique_text_blocks`), and adds each written
  piece to that set.

The model abstracts the network and the PDF library as per-row inputs:

- A `Fetch.Response` says whether `requests.get` raised, or which status code
  and body came back. It also says whether writing the body to disk raised.
- An `Extract.Pdf` says whether the saved file opens. If it does, the
  `Extract.Pdf` gives its page texts and the page, if any, whose loading or
  rendering raises.

What remains is modelled as the scripts run it:

- `Extract.PdfToText` is a method with the page loop.
- `PdfCsv.CombinePdfs` is a method that appends to an output buffer, row by row.
- `AspxCsv.UniqueBlockWriter` is a class holding the seen-set and the output
  buffer, updated in place.

Each method is proved against a specification function:

- `Extract.ExtractedText`;
- `PdfCsv.VerbatimOutput`;
- `AspxCsv.Admit`, which is shown equal to the reference `AspxCsv.FirstOccurrences`.

The properties are proved about those specification functions.

Python's `str.split` with one separator character is modelled exactly in
`PyStr.Split`, and `str.strip()` in `PyStr.Strip`. `Split` always returns at
least one part, and a trailing separator yields a final empty part. `Strip`
removes every character for which `str.isspace` holds (`PyStr.IsSpace`).
`url.split('/')[-1]` is `Fetch.FileName`. `os.path.join(dir, name)` is
`dir + "/" + name`.

Some notes on how the model reads the source:

- `download_pdf` and `pdf_to_text` are the same code in both scripts, apart
  from their log messages. The url-to-file-name step is the same in both as
  well. Each is modelled once, and the rows below cite one script or the
  other.
- A URL ending in `/` has an empty file name. Its save path is then the
  download directory itself, so `open(save_path, 'wb')` raises. The exception
  is caught inside `download_pdf`, which therefore reports failure. The same
  holds for a URL ending in `/.` or `/..`: the file name `.` or `..` makes the
  save path a directory. `Fetch.DownloadPdf` states these cases.
- The combined file is opened in write mode, so its earlier content is
  discarded. The run methods take that earlier content as a `previous`
  parameter and never read it. Their results are functions of the table alone,
  so two runs on the same table write the same text.
- A document that downloads but fails to open, or fails on some page, still
  contributes text in the verbatim script. It contributes the pages read before
  the failure, which may be none, followed by the newline.
  `PdfCsv.UnopenableRowAddsNewline` states the empty case. This follows the
  code: `pdf_to_text` returns the partial text and the caller writes it
  unconditionally.
- `dropna` is redundant for both outputs: a missing `Link` is not a string and
  would be skipped anyway. `Table.DropNaKeepsTexts` and
  `Table.DropNaKeepsRequests` prove it.

## Model

| member | source | states |
|---|---|---|
| PyStr.Split | aspxcsv-to-txt.py:74 | `str.split` returns at least one part |
| PyStr.SplitParts | aspxcsv-to-txt.py:74 | there is one more part than separators in the string, and no part contains the separator |
| PyStr.JoinSplit | pdfcsv-to-txt.py:58 | joining the parts of a split with the separator gives back the original string |
| PyStr.SplitWithoutSep | pdfcsv-to-txt.py:58 | a string without the separator splits into itself alone |
| PyStr.SplitAfterPart | aspxcsv-to-txt.py:74 | splitting `p + sep + rest`, with `p` separator-free, yields `p` followed by the parts of `rest` |
| PyStr.SplitJoin | aspxcsv-to-txt.py:74 | splitting a join of separator-free parts gives back exactly those parts |
| PyStr.JoinLast | aspxcsv-to-txt.py:65 | the last part of a join is a suffix of it, preceded by the separator when there is more than one part |
| PyStr.SkipSpace | aspxcsv-to-txt.py:78 | the leading whitespace that `strip` removes ends at the first non-whitespace character |
| PyStr.SkipSpaceBack | aspxcsv-to-txt.py:78 | the trailing whitespace that `strip` removes starts after the last non-whitespace character |
| PyStr.StripSpec | aspxcsv-to-txt.py:78 | `PyStr.Strip`, the model of `block.strip()`, keeps a contiguous slice of the input and removes only whitespace before and after it; the result is empty exactly when the input is all whitespace, and otherwise starts and ends with non-whitespace |
| PyStr.StripFixesStripped | aspxcsv-to-txt.py:78 | `s.strip() == s` exactly when `s` neither starts nor ends with whitespace |
| PyStr.StripStripped | aspxcsv-to-txt.py:78 | stripping is idempotent, and its result has no character the input lacks (so a stripped piece of a split has no newline) |
| PyStr.TerminatedAppend | pdfcsv-to-txt.py:67-68 | for `PyStr.Terminated`, the text the pairs of writes `write(x)`, `write("\n")` leave: the file after writing `a` then `b`, each piece with its newline, is the text for `a` followed by the text for `b` |
| PyStr.TerminatedIsJoin | aspxcsv-to-txt.py:81 | the pieces each followed by a newline are the newline-join of the pieces and a final empty piece |
| PyStr.TerminatedLength | pdfcsv-to-txt.py:67-68 | the written text is as long as the pieces together plus one newline per piece |
| PyStr.SplitTerminated | aspxcsv-to-txt.py:81 | splitting on `"\n"` the text of newline-free lines, each written with a newline, gives exactly those lines and one empty string after the final newline |
| Extract.PdfToText | aspxcsv-to-txt.py:36-45 | the page loop returns the texts of the pages read, concatenated in page order, and the empty text when opening fails; it never raises |
| Extract.ConcatAppend | pdfcsv-to-txt.py:36-38 | accumulating two runs of pages gives the first run's text followed by the second's |
| Extract.ExtractedIsPrefix | pdfcsv-to-txt.py:32-41 | `Extract.ExtractedText`, the text `pdf_to_text` returns, is a prefix of the document's full text (nothing is read from a file that does not open, and reading stops before the first page that raises), and equals the full text when no page raises |
| Extract.ExtractedPageAt | aspxcsv-to-txt.py:40-42 | each page read occupies, in order, the span of the text right after the earlier pages |
| Fetch.FileName | aspxcsv-to-txt.py:65 | the file name has no `/` and is a suffix of the URL, preceded by a `/` when the URL has one; a URL with no `/` is its own file name |
| Fetch.DownloadPdf | pdfcsv-to-txt.py:18-30 | download succeeds exactly when the request does not raise, the status is 200 and the body is saved; a file name `""`, `.` or `..` names a directory and cannot be saved |
| Fetch.SavePathSegment | aspxcsv-to-txt.py:66 | `Fetch.SavePath`, the model of `os.path.join(pdf_dir, pdf_file_name)`, is the directory, a `/` and the file name, and its own final segment is that file name |
| Table.DropNaAppend | aspxcsv-to-txt.py:14 | `Table.DropNa`, the model of `dropna`, works row by row and keeps the rows' order |
| Table.DropNaOne | aspxcsv-to-txt.py:14 | a single row survives `dropna` unchanged exactly when its Link is present |
| Table.DownloadedSpec | aspxcsv-to-txt.py:60-69 | `Table.Downloaded` holds exactly when the Link is a string and `download_pdf` on its save path succeeds: a 200 response, saved without an exception, under a file name other than `""`, `.` and `..` |
| Table.DropNaKeepsPresent | aspxcsv-to-txt.py:14 | `dropna` keeps exactly the rows whose Link is present and never adds a row |
| Table.Texts | pdfcsv-to-txt.py:62-64 | there are no more extracted texts than rows |
| Table.TextsAppend | pdfcsv-to-txt.py:48 | the texts of two runs of rows, one after the other, are the texts of each in turn |
| Table.UndownloadedRowHasNoText | pdfcsv-to-txt.py:62 | a row that is not downloaded contributes no text, wherever it stands |
| Table.DropNaKeepsTexts | pdfcsv-to-txt.py:10 | `dropna` changes no extracted text |
| Table.RequestsAppend | aspxcsv-to-txt.py:55 | the requests of two runs of rows are the requests of each in turn |
| Table.RowRequestFor | aspxcsv-to-txt.py:65-69 | a request issued by row `i` is for row `i`'s own URL, saved under the directory joined with that URL's file name |
| Table.RequestForExtends | aspxcsv-to-txt.py:55 | later rows do not change the URL a request was issued for |
| Table.RequestsAreForUrls | aspxcsv-to-txt.py:65-69 | in `Table.Requests`, the downloads the loop asks for, every request of a run is for the URL of a row whose Link is that string, saved under the directory joined with the URL's final segment |
| Table.NonUrlRowRequestsNothing | aspxcsv-to-txt.py:60-62 | a row whose Link is missing or not a string triggers no download, wherever it stands |
| Table.DropNaKeepsRequests | aspxcsv-to-txt.py:14 | `dropna` changes no request |
| PdfCsv.CombinePdfs | pdfcsv-to-txt.py:47-68 | starting from an empty file, the run writes each downloaded row's text and a newline, in row order, and requests every string URL in row order |
| PdfCsv.RowStep | pdfcsv-to-txt.py:48-68 | one more row adds its request if its Link is a string, and its text and a newline if downloaded |
| PdfCsv.UndownloadedRowAddsNothing | pdfcsv-to-txt.py:53-62 | a row with a missing or non-string Link, or whose download fails, adds nothing to the file, wherever it stands |
| PdfCsv.UnopenableRowAddsNewline | pdfcsv-to-txt.py:62-68 | a downloaded file that cannot be opened still adds a bare newline |
| PdfCsv.DropNaKeepsOutput | pdfcsv-to-txt.py:10 | `dropna` changes nothing in the combined file |
| PdfCsv.VerbatimLength | pdfcsv-to-txt.py:67-68 | the file's length is the sum, over downloaded rows, of the text length plus one |
| PdfCsv.VerbatimTextAt | pdfcsv-to-txt.py:67-68 | the k-th downloaded text appears verbatim right after the earlier texts and their newlines, and is followed by a newline |
| AspxCsv.StripEachSpec | aspxcsv-to-txt.py:76-78 | stripping each piece keeps one block per piece, each stripped and made of the piece's characters |
| AspxCsv.PieceStep | aspxcsv-to-txt.py:74-78 | the next block of the inner loop is the next piece stripped; it is stripped and has no newline |
| AspxCsv.TextBlocksAreStripped | aspxcsv-to-txt.py:74-78 | `AspxCsv.TextBlocks`, the model of splitting on `"\n"` and stripping each piece, yields one block per line, each stripped and on one line |
| AspxCsv.AdmitText | aspxcsv-to-txt.py:55-81 | offering one more document's blocks continues from where the earlier documents left the writer |
| AspxCsv.BlocksAreStripped | aspxcsv-to-txt.py:74-78 | every block offered by a run is stripped and on one line |
| AspxCsv.Admit | aspxcsv-to-txt.py:79-81 | lines already written are never changed or removed |
| AspxCsv.AdmitMembers | aspxcsv-to-txt.py:79-81 | a string ends up written exactly when it was written before, or was offered and is non-empty |
| AspxCsv.AdmitAppend | aspxcsv-to-txt.py:55-81 | offering two runs of blocks one after the other is offering them together |
| AspxCsv.AdmitKeepsDistinct | aspxcsv-to-txt.py:79-81 | offering blocks never makes a line appear twice |
| AspxCsv.AdmitIsFirstOccurrences | aspxcsv-to-txt.py:51-81 | from an empty seen-set, the lines written are exactly the first occurrences of the non-empty blocks |
| AspxCsv.FirstIndex | aspxcsv-to-txt.py:76 | locates the first occurrence of a block |
| AspxCsv.FirstOccurrencesInOrder | aspxcsv-to-txt.py:55-81 | lines come out in the order of their first occurrence among the blocks: row order, then order within each document |
| AspxCsv.FirstOccurrencesAreClean | aspxcsv-to-txt.py:78-81 | the first occurrences of stripped one-line blocks are distinct, non-empty, stripped and newline-free, and are exactly the non-empty blocks |
| AspxCsv.DedupLinesSpec | aspxcsv-to-txt.py:51-81 | the lines a run writes are pairwise distinct, non-empty, stripped and newline-free, and are exactly the non-empty stripped pieces of the downloaded documents |
| AspxCsv.DedupOutputReadBack | aspxcsv-to-txt.py:81 | splitting the file's text on `"\n"` gives each written line once, in order, then one empty string |
| AspxCsv.UndownloadedRowAddsNothing | aspxcsv-to-txt.py:60-69 | a row with a missing or non-string Link, or whose download fails, adds nothing to the file, wherever it stands |
| AspxCsv.DropNaKeepsOutput | aspxcsv-to-txt.py:14 | `dropna` changes nothing in the combined file |
| AspxCsv.WriteLine | aspxcsv-to-txt.py:79-81 | writing a new clean line keeps the lines distinct and clean, adds exactly that line to the seen-set, and appends it and a newline to the file |
| AspxCsv.UniqueBlockWriter.constructor | aspxcsv-to-txt.py:51-54 | the seen-set starts empty and the file, opened in write mode, starts empty |
| AspxCsv.UniqueBlockWriter.WriteText | aspxcsv-to-txt.py:74-81 | the inner loop admits the document's stripped pieces in order; the seen-set only grows and stays equal to the set of lines written |
| AspxCsv.UniqueBlockWriter.ProcessRow | aspxcsv-to-txt.py:56-81 | a row requests its URL if the Link is a string; only a downloaded row offers blocks, and any other row leaves the seen-set and the file unchanged |
| AspxCsv.CombineAspx | aspxcsv-to-txt.py:51-81 | the run writes the first occurrences of the non-empty stripped lines of the downloaded documents, each with a newline, and requests every string URL in row order |
| AspxCsv.RowStep | aspxcsv-to-txt.py:55-81 | one more row adds its request, and offers its blocks only if downloaded |
| Scenario.NameA | pdfcsv-to-txt.py:58 | `"http://x/a.pdf"` is saved as `"a.pdf"` |
| Scenario.ExampleDropNa | pdfcsv-to-txt.py:10 | the example's row with a missing Link is dropped |
| Scenario.ExampleTexts | pdfcsv-to-txt.py:62-64 | in the example only the 200 response yields text, read from both pages in order |
| Scenario.VerbatimExample | pdfcsv-to-txt.py:47-68 | in the example, the verbatim run writes `"Hello\nWorld\n"` followed by a newline |
| Scenario.DedupExample | aspxcsv-to-txt.py:51-81 | in the example, the deduplicating run writes the two lines `Hello` and `World` |
| Scenario.RequestsExample | pdfcsv-to-txt.py:57-62 | in the example, both string URLs are requested, the 404 one too, each saved as `pdf_files/<final segment>` |

## Left out

- HTTP through `requests.get`: network I/O. Each row carries its outcome as a `Response`: raised, or a status code and a body. The body is written as received; its bytes are not modelled.
- CSV parsing through `pd.read_csv`: a library call. The table is a given sequence of rows, and each `Link` cell is missing, not a string, or a string.
- PDF parsing through PyMuPDF: a foreign binary format. A saved document is given as "cannot be opened", or as its page texts with an optional index of the page that raises.
- `os.makedirs` and the bytes written to the downloaded files are not modelled: they are filesystem effects. The model records each download request as a (URL, save path) pair.
- Fetch.SavePath: `os.path.join` is modelled with `/` as the separator, as on POSIX systems. Its other platform rules are not modelled; the file name never contains `/`.
- Logging and `print` messages are left out: they do not affect what is written.
- The pandas row index is left out: it is used only in log messages.
- Two URLs with the same final segment overwrite each other's saved file. Each file is read right after it is saved, so this does not change the output, and nothing is stated about it.
- Encoding the combined file as UTF-8 is left out: the model works on characters.
- `requests.get(url)` is called without a timeout, so one unanswered request can stall a run for ever. In the model every row's `Response` is given, so every run completes.
- Opening the combined file and `combined_file.write` are outside any `try`. An exception there ends the run and leaves a partial file. The model's writes cannot fail, so its runs always complete.
- The combined file is written in text mode, which turns each `"\n"` into the platform's line ending. The model writes `"\n"`, as on POSIX systems.
- Table.Texts: its own contract states only a length bound; what the texts are is stated by `Table.TextsSnoc`, `PdfCsv.VerbatimTextAt` and `AspxCsv.DedupLinesSpec`.
- AspxCsv.Admit: its own contract states only that earlier lines are kept; its behaviour is stated by `AspxCsv.AdmitMembers` and `AspxCsv.AdmitIsFirstOccurrences`.
