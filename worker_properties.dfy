/** What worker() guarantees across all requests: which requests get 501 and
    301, that files are looked up only under a path free of "../", what is
    served for a directory, and that every response declares the length of
    its body and can be split back into head and body. */
module WorkerProperties {
  import opened Text
  import opened Files
  import opened RequestParser
  import opened UrlDecoding
  import opened Traversal
  import opened AutoIndex
  import opened Responses
  import opened ResponseFraming
  import opened Server

  /** The path looked up for a GET that is not redirected. */
  function Sanitised(cfg: Config, req: Request): string
  {
    StripParentRefs(cfg.webroot + DecodeSpaces(req.path))
  }

  /** A GET request that check_redirect lets through. */
  predicate PassesRedirect(cfg: Config, fs: FileSystem, text: string, req: Request)
  {
    && RequestOf(text) == Parsed(req)
    && req.httpMethod == "GET"
    && !NeedsRedirect(fs, cfg.webroot + DecodeSpaces(req.path))
  }

  /** 501 is sent exactly for a request line without two spaces or for a
      method other than GET. */
  lemma NotImplementedIff(cfg: Config, fs: FileSystem, text: string)
    ensures Respond(cfg, fs, text) == Some(NotImplemented())
      <==> RequestOf(text).Malformed? || RequestOf(text).request.httpMethod != "GET"
  {
    var t := Resolve(cfg, fs, RequestOf(text));
    NotImplementedOnlyForNotAllowed(t);
  }

  /** Only the NotAllowed decision is answered with 501. */
  lemma NotImplementedOnlyForNotAllowed(t: Target)
    ensures Reply(t) == Some(NotImplemented()) <==> t.NotAllowed?
  {
    if t.ServeFile? || t.ServeListing? {
      assert Reply(t).value.status == "200 OK";
    } else if t.Redirect? {
      assert Reply(t).value.status == "301 Moved Permanently";
    } else if t.Missing? {
      assert Reply(t).value.status == "404 Not Found";
    }
  }

  /** Text without a line holding "HTTP/1.1" is a request with an empty
      method, so it gets 501 as well. */
  lemma NoRequestLineIsNotImplemented(cfg: Config, fs: FileSystem, text: string)
    requires RequestLineIndex(Lines(text)).None?
    ensures Respond(cfg, fs, text) == Some(NotImplemented())
  {
    assert RequestOf(text) == Parsed(EmptyRequest);
  }

  /** For a GET, 301 is sent exactly when the web root plus the decoded path
      names a directory and does not end in '/'; the target is the decoded
      path plus '/'. The test sees the path before the "../" filter. */
  lemma RedirectIff(cfg: Config, fs: FileSystem, text: string, req: Request)
    requires RequestOf(text) == Parsed(req) && req.httpMethod == "GET"
    ensures Resolve(cfg, fs, RequestOf(text)).Redirect?
      <==> NeedsRedirect(fs, cfg.webroot + DecodeSpaces(req.path))
    ensures Resolve(cfg, fs, RequestOf(text)).Redirect? ==>
      Respond(cfg, fs, text) == Some(Moved(DecodeSpaces(req.path) + "/"))
  {
    if !NeedsRedirect(fs, cfg.webroot + DecodeSpaces(req.path)) {
      var s := Sanitised(cfg, req);
      var t := Dispatch(cfg, fs, DecodeSpaces(req.path), s);
      assert !t.Redirect?;
    }
  }

  /** Every file that is served was looked up under the filtered path, or
      that path plus the index page name, and the filtered path holds no
      "../". */
  lemma LookupsAreFiltered(cfg: Config, fs: FileSystem, text: string, req: Request)
    requires PassesRedirect(cfg, fs, text, req)
    ensures !Contains(Sanitised(cfg, req), ParentRef)
    ensures Resolve(cfg, fs, RequestOf(text)).ServeFile? ==>
      var p := Resolve(cfg, fs, RequestOf(text)).path;
      p == Sanitised(cfg, req) || p == Sanitised(cfg, req) + cfg.indexPage
  {
    StripHasNoParentRef(cfg.webroot + DecodeSpaces(req.path));
  }

  /** A regular, readable file is sent with its content as the body and its
      MIME type, or text/html when libmagic gives none. */
  lemma FileIsServed(cfg: Config, fs: FileSystem, text: string, req: Request)
    requires PassesRedirect(cfg, fs, text, req)
    requires FileExists(fs, Sanitised(cfg, req)) && fs[Sanitised(cfg, req)].readable
    ensures Respond(cfg, fs, text) ==
      Some(Ok(fs[Sanitised(cfg, req)].content, ContentType(fs[Sanitised(cfg, req)].mime)))
  {
  }

  /** A path that is neither a directory nor a readable regular file gets 404. */
  lemma AbsentIsNotFound(cfg: Config, fs: FileSystem, text: string, req: Request)
    requires PassesRedirect(cfg, fs, text, req)
    requires !DirExists(fs, Sanitised(cfg, req))
    requires !(FileExists(fs, Sanitised(cfg, req)) && fs[Sanitised(cfg, req)].readable)
    ensures Respond(cfg, fs, text) == Some(NotFound())
  {
  }

  /** A directory named with its final '/' serves its index page when that
      is a readable regular file, whether or not listings are enabled. */
  lemma IndexPageIsServed(cfg: Config, fs: FileSystem, text: string, req: Request)
    requires PassesRedirect(cfg, fs, text, req)
    requires EndsWithSlash(Sanitised(cfg, req)) && DirExists(fs, Sanitised(cfg, req))
    requires FileExists(fs, Sanitised(cfg, req) + cfg.indexPage)
    requires fs[Sanitised(cfg, req) + cfg.indexPage].readable
    ensures Respond(cfg, fs, text) == Some(Ok(fs[Sanitised(cfg, req) + cfg.indexPage].content,
      ContentType(fs[Sanitised(cfg, req) + cfg.indexPage].mime)))
  {
  }

  /** With listings disabled, a directory without its index page gets 404. */
  lemma NoIndexNoListing(cfg: Config, fs: FileSystem, text: string, req: Request)
    requires PassesRedirect(cfg, fs, text, req) && !cfg.autoIndex
    requires EndsWithSlash(Sanitised(cfg, req)) && DirExists(fs, Sanitised(cfg, req))
    requires !FileExists(fs, Sanitised(cfg, req) + cfg.indexPage)
    ensures Respond(cfg, fs, text) == Some(NotFound())
  {
  }

  /** Cutting after the last '/' of a directory path plus an index page name
      without '/' gives the directory path back. */
  lemma ListingDirOfIndexPath(dir: string, indexPage: string)
    requires EndsWithSlash(dir) && '/' !in indexPage
    ensures ListingDir(dir + indexPage) == dir
  {
    var p := dir + indexPage;
    var r := RFind(p, '/');
    assert p[|dir| - 1] == '/';
    assert r.Some?;
    forall j | |dir| - 1 < j < |p| ensures p[j] != '/' {
      assert p[j] == indexPage[j - |dir|];
    }
    assert r.value == |dir| - 1;
    assert p[..|dir|] == dir;
  }

  /** With listings enabled, a readable directory named with its final '/'
      and without a regular index page is answered with its listing. */
  lemma ListingIsServed(cfg: Config, fs: FileSystem, text: string, req: Request)
    requires PassesRedirect(cfg, fs, text, req) && cfg.autoIndex && '/' !in cfg.indexPage
    requires EndsWithSlash(Sanitised(cfg, req)) && DirExists(fs, Sanitised(cfg, req))
    requires fs[Sanitised(cfg, req)].readable
    requires !FileExists(fs, Sanitised(cfg, req) + cfg.indexPage)
    ensures Respond(cfg, fs, text) ==
      Some(Ok(ListingPage(DecodeSpaces(req.path), fs[Sanitised(cfg, req)].entries), "text/html"))
  {
    ListingDirOfIndexPath(Sanitised(cfg, req), cfg.indexPage);
  }

  /** Nothing is sent only on the listing path when opendir fails; with an
      index page name without '/' and readable directories, every request is
      answered. */
  lemma SilentOnlyWhenUnlistable(cfg: Config, fs: FileSystem, text: string)
    ensures Respond(cfg, fs, text).None? <==> Resolve(cfg, fs, RequestOf(text)) == Unlistable
    ensures Respond(cfg, fs, text).None? ==> cfg.autoIndex
    ensures '/' !in cfg.indexPage && (forall d :: DirExists(fs, d) ==> fs[d].readable)
      ==> Respond(cfg, fs, text).Some?
  {
    var t := Resolve(cfg, fs, RequestOf(text));
    assert Respond(cfg, fs, text) == Reply(t);
    SilentIff(t);
    if t.Unlistable? {
      var s := UnlistableDirectory(cfg, fs, RequestOf(text));
      if '/' !in cfg.indexPage {
        ListingDirOfIndexPath(s, cfg.indexPage);
      }
    }
  }

  lemma SilentIff(t: Target)
    ensures Reply(t).None? <==> t.Unlistable?
  {
  }

  /** A listing that cannot be opened comes from a GET for a directory named
      with its final '/', with listings enabled. */
  lemma UnlistableDirectory(cfg: Config, fs: FileSystem, parsed: Parsed) returns (s: string)
    requires Resolve(cfg, fs, parsed).Unlistable?
    ensures parsed.Parsed? && parsed.request.httpMethod == "GET"
    ensures s == Sanitised(cfg, parsed.request)
    ensures cfg.autoIndex && EndsWithSlash(s) && DirExists(fs, s)
    ensures var d := ListingDir(s + cfg.indexPage); !(DirExists(fs, d) && fs[d].readable)
  {
    s := StripParentRefs(cfg.webroot + DecodeSpaces(parsed.request.path));
  }

  /** Every response declares, in decimal, the length of its body. */
  lemma EveryReplyFramed(t: Target)
    ensures Reply(t).Some? ==> Framed(Reply(t).value)
  {
    if t.ServeFile? || t.ServeListing? {
      OkReplyFramed(t);
    } else if !t.Unlistable? {
      CannedReplyFramed(t);
    }
  }

  lemma OkReplyFramed(t: Target)
    requires t.ServeFile? || t.ServeListing?
    ensures Reply(t).Some? && Framed(Reply(t).value)
  {
    if t.ServeFile? {
      OkFramed(t.content, ContentType(t.mime));
    } else {
      OkFramed(ListingPage(t.requestPath, t.entries), "text/html");
    }
  }

  lemma CannedReplyFramed(t: Target)
    requires t.Redirect? || t.Missing? || t.NotAllowed?
    ensures Reply(t).Some? && Framed(Reply(t).value)
  {
    match t {
      case Redirect(location) => MovedFramed(location);
      case Missing => NotFoundFramed();
      case NotAllowed => NotImplementedFramed();
    }
  }

  /** The texts of a decision that end up in header lines hold no CR or LF. */
  predicate PlainTarget(t: Target)
  {
    match t
    case ServeFile(_, _, mime) => NoCrLf(mime)
    case Redirect(location) => NoCrLf(location)
    case _ => true
  }

  /** getline splits only at '\n', so a '\r' inside the request line stays
      in the path; for a directory named that way the Location line of the
      301 carries it, and such a redirect is not a PlainTarget. */
  lemma CarriageReturnReachesPath(p: string, tail: string)
    requires ' ' !in p && '\r' in p
    ensures SplitRequestLine("GET" + " " + p + " " + tail) == Some(("GET", p))
    ensures !PlainTarget(Redirect(p + "/"))
  {
    SplitRequestLineOf("GET", p, tail);
    var k :| 0 <= k < |p| && p[k] == '\r';
    assert (p + "/")[k] == '\r';
  }


  /** A client that reads up to the first blank line gets the head the
      server wrote and then exactly the body. */
  lemma EveryResponseSplits(t: Target)
    requires PlainTarget(t) && Reply(t).Some?
    ensures SplitMessage(Serialize(Reply(t).value)) ==
      Some((JoinCrLf(HeadLines(Reply(t).value)), Reply(t).value.body))
  {
    ReplyWellFormed(t);
    SplitSerialized(Reply(t).value);
  }

  /** No header line of a response holds CR or LF, nor is any of them empty. */
  lemma ReplyWellFormed(t: Target)
    requires PlainTarget(t) && Reply(t).Some?
    ensures WellFormed(Reply(t).value)
  {
    if t.ServeFile? || t.ServeListing? {
      OkReplyWellFormed(t);
    } else {
      CannedReplyWellFormed(t);
    }
  }

  lemma OkReplyWellFormed(t: Target)
    requires PlainTarget(t) && (t.ServeFile? || t.ServeListing?)
    ensures Reply(t).Some? && WellFormed(Reply(t).value)
  {
    FixedFieldsPlain();
    if t.ServeFile? {
      OkWellFormed(t.content, ContentType(t.mime));
    } else {
      OkWellFormed(ListingPage(t.requestPath, t.entries), "text/html");
    }
  }

  lemma CannedReplyWellFormed(t: Target)
    requires PlainTarget(t) && (t.Redirect? || t.Missing? || t.NotAllowed?)
    ensures Reply(t).Some? && WellFormed(Reply(t).value)
  {
    if t.Redirect? {
      MovedWellFormed(t.location);
    } else {
      ErrorPagesWellFormed();
    }
  }

  /** The "../" filter runs over the whole path, web root included: a web
      root "../site" (or any "../" followed by a dot-free name) is read as
      "./site", and the request path behind it is filtered on its own. */
  lemma FilterCoversWebroot(site: string, path: string)
    requires '.' !in site
    ensures StripParentRefs(ParentRef + site + path) == "./" + site + StripParentRefs(path)
  {
    assert ParentRef + site + path == ParentRef + (site + path);
    ParentPrefixReadAsCurrent(site + path);
    DotFreePrefixKept(site, path);
  }

}
