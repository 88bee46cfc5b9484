/** worker(): one request, one response. The received text is parsed; a
    request that is not a well-formed GET gets 501; a directory named without
    its final '/' gets 301; otherwise the path is filtered for "../" and
    served as the index page of a directory, a generated listing, a file, or
    404. */
module Server {
  import opened Text
  import opened Files
  import opened RequestParser
  import opened UrlDecoding
  import opened Traversal
  import opened AutoIndex
  import opened Responses
  import opened ResponseFraming

  /** The settings worker() reads: the web root (-r), the index page name
      (-i) and whether directories without one are listed (-a). */
  datatype Config = Config(webroot: string, indexPage: string, autoIndex: bool)

  /** What worker() decided to send. `Unlistable` is a listing whose opendir
      fails: readdir on the null handle ends the process before any write. */
  datatype Target =
    | ServeFile(path: string, content: string, mime: string)
    | ServeListing(dir: string, requestPath: string, entries: seq<Entry>)
    | Redirect(location: string)
    | Missing
    | NotAllowed
    | Unlistable

  /** The part of the index page path that is opened as a directory: up to
      and including its last '/', or nothing when there is none. */
  function ListingDir(indexPath: string): (dir: string)
    ensures dir <= indexPath
    ensures dir == [] || dir[|dir| - 1] == '/'
    ensures forall j :: |dir| <= j < |indexPath| ==> indexPath[j] != '/'
  {
    match RFind(indexPath, '/')
    case None => []
    case Some(k) => indexPath[..k + 1]
  }

  /** The file at `filepath` if it is a regular file fopen can open, else 404. */
  function FileAt(fs: FileSystem, filepath: string): Target
  {
    if FileExists(fs, filepath) && fs[filepath].readable then
      ServeFile(filepath, fs[filepath].content, fs[filepath].mime)
    else Missing
  }

  /** The listing of the directory part of `indexPath`. */
  function ListingAt(fs: FileSystem, path: string, indexPath: string): Target
  {
    var dir := ListingDir(indexPath);
    if DirExists(fs, dir) && fs[dir].readable then ServeListing(dir, path, fs[dir].entries)
    else Unlistable
  }

  /** The choice after the traversal filter: a directory path ending in '/'
      gets its index page, or the listing when that is enabled and the index
      page is not a regular file; anything else is looked up as a file. */
  function Dispatch(cfg: Config, fs: FileSystem, path: string, filepath: string): (t: Target)
    ensures t.ServeFile? || t.ServeListing? || t.Missing? || t.Unlistable?
    ensures t.Unlistable? ==> cfg.autoIndex && EndsWithSlash(filepath) && DirExists(fs, filepath)
    ensures t.ServeFile? ==> t.path == filepath || t.path == filepath + cfg.indexPage
  {
    if EndsWithSlash(filepath) && DirExists(fs, filepath) then
      var indexPath := filepath + cfg.indexPage;
      if cfg.autoIndex && !FileExists(fs, indexPath) then ListingAt(fs, path, indexPath)
      else FileAt(fs, indexPath)
    else FileAt(fs, filepath)
  }

  /** The decision worker() takes for a parsed request. */
  function Resolve(cfg: Config, fs: FileSystem, parsed: Parsed): (t: Target)
    ensures t.NotAllowed? <==> parsed.Malformed? || parsed.request.httpMethod != "GET"
    ensures t.Redirect? <==>
      parsed.Parsed? && parsed.request.httpMethod == "GET" &&
      NeedsRedirect(fs, cfg.webroot + DecodeSpaces(parsed.request.path))
    ensures t.Redirect? ==> t.location == DecodeSpaces(parsed.request.path) + "/"
  {
    match parsed
    case Malformed => NotAllowed
    case Parsed(req) =>
      if req.httpMethod != "GET" then NotAllowed
      else
        var path := DecodeSpaces(req.path);
        var filepath := cfg.webroot + path;
        if NeedsRedirect(fs, filepath) then Redirect(path + "/")
        else Dispatch(cfg, fs, path, StripParentRefs(filepath))
  }

  /** The response sent for a decision; None when nothing is sent. */
  function Reply(t: Target): Option<Response>
  {
    match t
    case ServeFile(_, content, mime) => Some(Ok(content, ContentType(mime)))
    case ServeListing(_, path, entries) => Some(Ok(ListingPage(path, entries), "text/html"))
    case Redirect(location) => Some(Moved(location))
    case Missing => Some(NotFound())
    case NotAllowed => Some(NotImplemented())
    case Unlistable => None
  }

  /** The response to the received text. */
  function Respond(cfg: Config, fs: FileSystem, text: string): Option<Response>
  {
    Reply(Resolve(cfg, fs, RequestOf(text)))
  }

  function Output(reply: Option<Response>): string
  {
    match reply
    case None => []
    case Some(r) => Serialize(r)
  }

  // ---------------------------------------------------------------- worker

  /** worker() from the received text on. The web root is never empty (the
      default is "."), which the final-'/' test on the path relies on. */
  method Worker(conn: Connection, cfg: Config, fs: FileSystem, text: string)
    requires |cfg.webroot| > 0
    modifies conn
    ensures conn.sent == old(conn.sent) + Output(Respond(cfg, fs, text))
  {
    var parsed := ParseRequest(text);
    if parsed.Malformed? {
      HttpResponse(conn, 501, "");
      RejectBytes(cfg, fs, text);
      return;
    }
    var request := parsed.request;
    if request.httpMethod == "GET" {
      var path := UrlDecode(request.path);
      var filepath := cfg.webroot + path;
      var redirectPath := CheckRedirect(fs, filepath, path);
      if |redirectPath| == 0 {
        filepath := StripTraversal(filepath);
        StripKeepsHead(cfg.webroot + path);
        Serve(conn, cfg, fs, path, filepath);
      } else {
        var location := "Location: ";
        location := location + redirectPath;
        location := location + "\r\n";
        HttpResponse(conn, 301, location);
        MovedBytes(redirectPath);
        assert Resolve(cfg, fs, parsed) == Redirect(redirectPath);
      }
    } else {
      HttpResponse(conn, 501, "");
      RejectBytes(cfg, fs, text);
    }
  }

  /** The bytes of a 501 are those of the response for a request that is not
      a well-formed GET. */
  lemma RejectBytes(cfg: Config, fs: FileSystem, text: string)
    requires RequestOf(text).Malformed? || RequestOf(text).request.httpMethod != "GET"
    ensures CannedBytes(501, "") == Output(Respond(cfg, fs, text))
  {
    assert Resolve(cfg, fs, RequestOf(text)) == NotAllowed;
    var r := NotImplemented();
    assert Respond(cfg, fs, text) == Some(r);
    NotImplementedBytes("");
  }

  /** The GET branch of worker() after the redirect check and the filter. */
  method Serve(conn: Connection, cfg: Config, fs: FileSystem, path: string, filepath: string)
    requires filepath != []
    modifies conn
    ensures conn.sent == old(conn.sent) + Output(Reply(Dispatch(cfg, fs, path, filepath)))
  {
    var autoIndexPage := "";
    var current := filepath;
    ghost var listing := false;
    if current[|current| - 1] == '/' {
      if DirExists(fs, current) {
        current := current + cfg.indexPage;
        if cfg.autoIndex {
          if !FileExists(fs, current) {
            assert Dispatch(cfg, fs, path, filepath) == ListingAt(fs, path, current);
            listing := true;
            var listed;
            autoIndexPage, listed := ServeDirectory(conn, fs, path, current);
            if !listed {
              return;
            }
          }
        }
      }
    }
    assert !listing ==> Dispatch(cfg, fs, path, filepath) == FileAt(fs, current);
    if |autoIndexPage| == 0 {
      ServeFileAt(conn, fs, current);
    }
  }

  /** The auto-index branch: cut the index page path after its last '/',
      open that directory and send its listing. `listed` is false when
      opendir fails, where the source's readdir on the null handle ends the
      process with nothing written. */
  method ServeDirectory(conn: Connection, fs: FileSystem, path: string, indexPath: string)
    returns (page: string, listed: bool)
    modifies conn
    ensures conn.sent == old(conn.sent) + Output(Reply(ListingAt(fs, path, indexPath)))
    ensures listed <==> ListingAt(fs, path, indexPath).ServeListing?
    ensures listed ==> |page| > 0
  {
    var cut := RFind(indexPath, '/');
    var dir := match cut case None => [] case Some(k) => indexPath[..k + 1];
    assert dir == ListingDir(indexPath);
    if !(DirExists(fs, dir) && fs[dir].readable) {
      return "", false;
    }
    page := SendListing(conn, ServeListing(dir, path, fs[dir].entries));
    listed := true;
  }

  /** Builds the listing page and sends it as a 200 text/html response. */
  method SendListing(conn: Connection, t: Target) returns (page: string)
    requires t.ServeListing?
    modifies conn
    ensures conn.sent == old(conn.sent) + Output(Reply(t))
    ensures |page| > 0
  {
    page := BuildListing(t.requestPath, t.entries);
    SendPage(conn, page);
    assert Reply(t) == Some(Ok(page, "text/html"));
  }

  /** The file branch: send the file if fopen can open it, 404 otherwise. */
  method ServeFileAt(conn: Connection, fs: FileSystem, filepath: string)
    modifies conn
    ensures conn.sent == old(conn.sent) + Output(Reply(FileAt(fs, filepath)))
  {
    if FileExists(fs, filepath) && fs[filepath].readable {
      SendFile(conn, fs[filepath].content, fs[filepath].mime);
    } else {
      HttpResponse(conn, 404, "");
      NotFoundBytes("");
    }
  }

  /** The writes of a generated listing. */
  method SendPage(conn: Connection, page: string)
    modifies conn
    ensures conn.sent == old(conn.sent) + Serialize(Ok(page, "text/html"))
  {
    var lengthLine := "Content-Length: " + Decimal(|page|) + CrLf;
    conn.Write("HTTP/1.1 200 OK\r\n");
    conn.Write(ServerHeader);
    conn.Write(lengthLine);
    conn.Write("Content-Type: text/html\r\n");
    conn.Write(CrLf);
    conn.Write(page);
    OkLines(|page|, "text/html");
    SerializeTwo("200 OK", Header("Content-Length", Decimal(|page|)), Header("Content-Type", "text/html"), page);
    Concat6(old(conn.sent), "HTTP/1.1 200 OK\r\n", ServerHeader, lengthLine, "Content-Type: text/html\r\n", CrLf, page);
  }

  /** The writes of a file: the head, then the content in chunks. */
  method SendFile(conn: Connection, content: string, mime: string)
    modifies conn
    ensures conn.sent == old(conn.sent) + Serialize(Ok(content, ContentType(mime)))
  {
    var typeLine := "Content-Type: ";
    if |mime| > 0 {
      typeLine := typeLine + mime + CrLf;
    } else {
      typeLine := typeLine + "text/html\r\n";
    }
    var lengthLine := "Content-Length: " + Decimal(|content|) + CrLf;
    conn.Write("HTTP/1.1 200 OK\r\n");
    conn.Write(ServerHeader);
    conn.Write(lengthLine);
    conn.Write(typeLine);
    conn.Write(CrLf);
    StreamFile(conn, content);
    OkLines(|content|, ContentType(mime));
    SerializeTwo("200 OK", Header("Content-Length", Decimal(|content|)), Header("Content-Type", ContentType(mime)), content);
    Concat6(old(conn.sent), "HTTP/1.1 200 OK\r\n", ServerHeader, lengthLine, typeLine, CrLf, content);
  }

  lemma OkLines(n: nat, contentType: string)
    ensures "HTTP/1.1 200 OK\r\n" == "HTTP/1.1 " + "200 OK" + CrLf
    ensures "Content-Length: " + Decimal(n) + CrLf == "Content-Length" + ": " + Decimal(n) + CrLf
    ensures "Content-Type: " + contentType + CrLf == "Content-Type" + ": " + contentType + CrLf
    ensures "Content-Type: text/html\r\n" == "Content-Type" + ": " + "text/html" + CrLf
  {
  }
}
