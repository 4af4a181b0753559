/**
 `download_pdf` and the local file name a URL is saved under. The HTTP request
 is not modelled: its outcome for a row is given as a `Response`.
 */
module Fetch {

  import opened PyStr
  import Extract

  /**
   What `requests.get(url)` and the save step do for one URL: either the
   request raises, or the server answers with a status code and a body (the
   document that would be saved), and writing that body to disk may raise.
   */
  datatype Response = Raised | Replied(status: int, body: Extract.Pdf, saveRaises: bool)

  /**
   `url.split('/')[-1]`: the text after the final '/' of the URL, or the whole
   URL when it has no '/'. It never contains a '/'.
   */
  function FileName(url: string): (name: string)
    ensures '/' !in name
    ensures |name| <= |url| && url[|url| - |name|..] == name
    ensures '/' !in url ==> name == url
    ensures '/' in url ==> |name| < |url| && url[|url| - |name| - 1] == '/'
  {
    var parts := Split(url, '/');
    SplitParts(url, '/');
    JoinSplit(url, '/');
    JoinLast(parts, '/');
    parts[|parts| - 1]
  }

  /** `os.path.join(dir, name)` for a name without '/', with '/' as the path separator. */
  function SavePath(dir: string, name: string): string
  {
    dir + "/" + name
  }

  /**
   The saved file lies directly in `dir`: the save path is `dir` and a '/'
   followed by the file name, and the path's own final segment is that name.
   */
  lemma SavePathSegment(dir: string, name: string)
    requires '/' !in name
    ensures var path := SavePath(dir, name);
      && path[..|dir|] == dir && path[|dir|] == '/' && FileName(path) == name
  {
    var path := SavePath(dir, name);
    var last := FileName(path);
    assert path[|path| - |name| - 1] == '/';
    assert '/' in path;
    assert path[|path| - |last|..] == last;
  }

  /**
   `download_pdf(url, save_path)`: true exactly when the server answered 200
   and the body was written. An exception from the request, any other status,
   or an exception while saving gives false. A URL ending in '/', "/." or
   "/.." has the file name "", "." or "..", so the save path names a directory
   (the download directory or its parent) and opening it for writing raises.
   */
  function DownloadPdf(response: Response, name: string): (ok: bool)
    ensures ok <==> response.Replied? && response.status == 200 && name !in {"", ".", ".."} && !response.saveRaises
  {
    match response
    case Raised => false
    case Replied(status, _, saveRaises) =>
      if status == 200 then
        if NamesDirectory(name) || saveRaises then false else true
      else false
  }

  /** The file names whose save path is a directory rather than a file in the download directory. */
  predicate NamesDirectory(name: string)
  {
    name == [] || name == "." || name == ".."
  }
}
