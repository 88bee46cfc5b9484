/** What the server writes on the connection: a status line, the Server
    header, the response's own headers, a blank line and the body. The three
    error pages of http_response are fixed texts whose Content-Length the
    source writes as a literal. */
module Responses {
  import opened Text

  const ServerHeader := "Server: NPHTTPD/0.01\r\n"
  const CrLf := "\r\n"
  const BlankLine := "\r\n\r\n"

  datatype Header = Header(name: string, value: string)

  /** A response as it is framed: status text ("404 Not Found"), headers in
      the order written after the Server header, and the body. */
  datatype Response = Response(status: string, headers: seq<Header>, body: string)

  /** Each line followed by CR LF. */
  function JoinCrLf(lines: seq<string>): string
    decreases |lines|
  {
    if lines == [] then [] else lines[0] + CrLf + JoinCrLf(lines[1..])
  }

  function HeaderTexts(hs: seq<Header>): seq<string>
    decreases |hs|
  {
    if hs == [] then [] else [hs[0].name + ": " + hs[0].value] + HeaderTexts(hs[1..])
  }

  /** The lines before the blank line: status line, Server header, then the
      response's headers. */
  function HeadLines(r: Response): seq<string>
  {
    ["HTTP/1.1 " + r.status, "Server: NPHTTPD/0.01"] + HeaderTexts(r.headers)
  }

  /** The bytes of a response on the wire. */
  function Serialize(r: Response): string
  {
    JoinCrLf(HeadLines(r)) + CrLf + r.body
  }

  const NotFoundBody :=
    "<!doctype html>\r\n  <head>\r\n    <title>HTTP 404 - NOT FOUND</title>\r\n  </head>\r\n  <body>\r\n    <h1>HTTP 404 - NOT FOUND</h1>\r\n  </body>\r\n</html>"
  const MovedBody :=
    "<!doctype html>\r\n  <head>\r\n    <title>HTTP 301 - MOVED PERMANENTLY</title>\r\n  </head>\r\n  <body>\r\n    <h1>HTTP 301 - MOVED PERMANENTLY</h1>\r\n  </body>\r\n</html>"
  const NotImplementedBody :=
    "<!doctype html>\r\n  <head>\r\n    <title>HTTP 501 - METHOD NOT IMPLEMENTED</title>\r\n  </head>\r\n  <body>\r\n    <h1>HTTP 501 - METHOD NOT IMPLEMENTED</h1>\r\n  </body>\r\n</html>"

  const HtmlType := Header("Content-Type", "text/html")

  function NotFound(): Response
  {
    Response("404 Not Found", [Header("Content-Length", "142"), HtmlType], NotFoundBody)
  }

  function Moved(target: string): Response
  {
    Response("301 Moved Permanently", [Header("Location", target), Header("Content-Length", "158"), HtmlType], MovedBody)
  }

  function NotImplemented(): Response
  {
    Response("501 Method Not Implemented", [Header("Allow", "GET"), Header("Content-Length", "168"), HtmlType], NotImplementedBody)
  }

  /** The Content-Type of a served file: the libmagic answer, or text/html
      when that is empty. */
  function ContentType(mime: string): (r: string)
    ensures |r| > 0
    ensures |mime| > 0 ==> r == mime
    ensures NoCrLf(mime) ==> NoCrLf(r)
  {
    if |mime| > 0 then mime else "text/html"
  }

  /** A 200 response whose Content-Length is the decimal length of the body. */
  function Ok(body: string, contentType: string): Response
  {
    Response("200 OK", [Header("Content-Length", Decimal(|body|)), Header("Content-Type", contentType)], body)
  }

  /** The value of the first header with the given name. */
  function Lookup(hs: seq<Header>, name: string): (r: Option<string>)
    ensures r.Some? ==> exists i :: 0 <= i < |hs| && hs[i] == Header(name, r.value)
    ensures r.None? <==> forall i :: 0 <= i < |hs| ==> hs[i].name != name
    decreases |hs|
  {
    if hs == [] then None
    else if hs[0].name == name then Some(hs[0].value)
    else
      var r := Lookup(hs[1..], name);
      assert forall i :: 1 <= i < |hs| ==> hs[i] == hs[1..][i - 1];
      r
  }

  predicate AllDigits(s: string)
  {
    forall i :: 0 <= i < |s| ==> IsDigit(s[i])
  }

  /** The declared Content-Length is a decimal number equal to the body length. */
  predicate Framed(r: Response)
  {
    var cl := Lookup(r.headers, "Content-Length");
    cl.Some? && AllDigits(cl.value) && DecimalValue(cl.value) == |r.body|
  }

  predicate NoCrLf(s: string)
  {
    forall i :: 0 <= i < |s| ==> s[i] != '\r' && s[i] != '\n'
  }

  /** Lines a client can split at CR LF: non-empty and free of CR and LF. */
  predicate PlainLine(s: string)
  {
    |s| > 0 && NoCrLf(s)
  }

  /** No header field text can end the head early. */
  predicate WellFormed(r: Response)
  {
    forall i :: 0 <= i < |HeadLines(r)| ==> PlainLine(HeadLines(r)[i])
  }

  /** A client's reading of a message: the head up to the first blank line
      (each head line with its CR LF), and everything after it. */
  function SplitMessage(m: string): Option<(string, string)>
  {
    match Find(m, BlankLine)
    case None => None
    case Some(p) => Some((m[..p + 2], m[p + 4..]))
  }

  /** http_response: the bytes written for a code. Codes other than 404, 301
      and 501 write nothing; `location` is the ready-made Location line. */
  function CannedBytes(code: int, location: string): string
  {
    if code == 404 then
      "HTTP/1.1 404 Not Found\r\n" + ServerHeader + "Content-Length: 142\r\n"
      + "Content-Type: text/html\r\n" + CrLf + NotFoundBody
    else if code == 301 then
      "HTTP/1.1 301 Moved Permanently\r\n" + ServerHeader + location + "Content-Length: 158\r\n"
      + "Content-Type: text/html\r\n" + CrLf + MovedBody
    else if code == 501 then
      "HTTP/1.1 501 Method Not Implemented\r\n" + ServerHeader + "Allow: GET\r\n"
      + "Content-Length: 168\r\n" + "Content-Type: text/html\r\n" + CrLf + NotImplementedBody
    else []
  }

  /** The Location line worker() builds for a redirect. */
  function LocationLine(target: string): string
  {
    "Location: " + target + CrLf
  }

  /** The client socket; `sent` is everything written to it so far. */
  class Connection {
    var sent: string

    constructor ()
      ensures sent == []
    {
      sent := [];
    }

    /** write(): the data is appended to what the peer receives. */
    method Write(data: string)
      modifies this
      ensures sent == old(sent) + data
    {
      sent := sent + data;
    }
  }

  /** http_response, write by write. */
  method HttpResponse(conn: Connection, code: int, location: string)
    modifies conn
    ensures conn.sent == old(conn.sent) + CannedBytes(code, location)
  {
    ghost var before := conn.sent;
    if code == 404 {
      conn.Write("HTTP/1.1 404 Not Found\r\n");
      conn.Write(ServerHeader);
      conn.Write("Content-Length: 142\r\n");
      conn.Write("Content-Type: text/html\r\n");
      conn.Write(CrLf);
      conn.Write(NotFoundBody);
      Concat6(before, "HTTP/1.1 404 Not Found\r\n", ServerHeader, "Content-Length: 142\r\n",
        "Content-Type: text/html\r\n", CrLf, NotFoundBody);
    } else if code == 301 {
      conn.Write("HTTP/1.1 301 Moved Permanently\r\n");
      conn.Write(ServerHeader);
      conn.Write(location);
      conn.Write("Content-Length: 158\r\n");
      conn.Write("Content-Type: text/html\r\n");
      conn.Write(CrLf);
      conn.Write(MovedBody);
      Concat7(before, "HTTP/1.1 301 Moved Permanently\r\n", ServerHeader, location,
        "Content-Length: 158\r\n", "Content-Type: text/html\r\n", CrLf, MovedBody);
    } else if code == 501 {
      conn.Write("HTTP/1.1 501 Method Not Implemented\r\n");
      conn.Write(ServerHeader);
      conn.Write("Allow: GET\r\n");
      conn.Write("Content-Length: 168\r\n");
      conn.Write("Content-Type: text/html\r\n");
      conn.Write(CrLf);
      conn.Write(NotImplementedBody);
      Concat7(before, "HTTP/1.1 501 Method Not Implemented\r\n", ServerHeader, "Allow: GET\r\n",
        "Content-Length: 168\r\n", "Content-Type: text/html\r\n", CrLf, NotImplementedBody);
    }
  }

  lemma Concat6(s: string, a: string, b: string, c: string, d: string, e: string, f: string)
    ensures s + a + b + c + d + e + f == s + (a + b + c + d + e + f)
  {
  }

  lemma Concat7(s: string, a: string, b: string, c: string, d: string, e: string, f: string, g: string)
    ensures s + a + b + c + d + e + f + g == s + (a + b + c + d + e + f + g)
  {
  }

  const ChunkSize := 4096

  /** The fread/write loop of worker(): the file goes out in chunks of at
      most 4096 bytes until the whole size has been sent. */
  method StreamFile(conn: Connection, content: string)
    modifies conn
    ensures conn.sent == old(conn.sent) + content
  {
    var pos := 0;
    while pos < |content|
      invariant 0 <= pos <= |content|
      invariant conn.sent == old(conn.sent) + content[..pos]
      decreases |content| - pos
    {
      var readBytes := if |content| - pos < ChunkSize then |content| - pos else ChunkSize;
      conn.Write(content[pos..pos + readBytes]);
      assert content[..pos] + content[pos..pos + readBytes] == content[..pos + readBytes];
      pos := pos + readBytes;
    }
    assert content[..pos] == content;
  }
}

module ResponseFraming {
  import opened Text
  import opened Responses

  /** The lengths the source writes as literals are the lengths of the pages. */
  lemma CannedBodyLengths()
    ensures |NotFoundBody| == 142 && |MovedBody| == 158 && |NotImplementedBody| == 168
  {
  }

  lemma DecimalLiteral(s: string, n: nat)
    requires s == Decimal(n)
    ensures AllDigits(s) && DecimalValue(s) == n
  {
    DecimalRoundTrip(n);
  }

  /** Every error page declares the length of its own body. */
  lemma NotFoundFramed()
    ensures Framed(NotFound())
  {
    CannedBodyLengths();
    DeclaredLength(NotFound(), "142", 142);
  }

  lemma MovedFramed(target: string)
    ensures Framed(Moved(target))
  {
    CannedBodyLengths();
    DeclaredLength(Moved(target), "158", 158);
  }

  lemma NotImplementedFramed()
    ensures Framed(NotImplemented())
  {
    CannedBodyLengths();
    DeclaredLength(NotImplemented(), "168", 168);
  }

  lemma DeclaredLength(r: Response, d: string, n: nat)
    requires Lookup(r.headers, "Content-Length") == Some(d) && d == Decimal(n) && |r.body| == n
    ensures Framed(r)
  {
    DecimalLiteral(d, n);
  }

  /** A 200 response declares the length of its body, whatever the body. */
  lemma OkFramed(body: string, contentType: string)
    ensures Framed(Ok(body, contentType))
  {
    DecimalRoundTrip(|body|);
  }

  lemma {:induction false} JoinCrLfAppend(a: seq<string>, b: seq<string>)
    ensures JoinCrLf(a + b) == JoinCrLf(a) + JoinCrLf(b)
    decreases |a|
  {
    if a == [] {
      assert a + b == b;
    } else {
      assert (a + b)[0] == a[0] && (a + b)[1..] == a[1..] + b;
      JoinCrLfAppend(a[1..], b);
    }
  }

  /** The header block: each header as "name: value" and CR LF. */
  function HeaderBlock(hs: seq<Header>): string
  {
    JoinCrLf(HeaderTexts(hs))
  }

  /** Status line, Server header, the headers, the blank line, the body. */
  lemma SerializeParts(r: Response)
    ensures Serialize(r) ==
      "HTTP/1.1 " + r.status + CrLf + ServerHeader + HeaderBlock(r.headers) + CrLf + r.body
  {
    var first := ["HTTP/1.1 " + r.status, "Server: NPHTTPD/0.01"];
    JoinCrLfAppend(first, HeaderTexts(r.headers));
    assert first[1..] == ["Server: NPHTTPD/0.01"];
    assert JoinCrLf(first) == "HTTP/1.1 " + r.status + CrLf + ServerHeader;
  }

  lemma HeaderBlock1(h: Header)
    ensures HeaderBlock([h]) == h.name + ": " + h.value + CrLf
  {
    assert [h][1..] == [];
    assert HeaderTexts([h]) == [h.name + ": " + h.value] + HeaderTexts([]);
    assert JoinCrLf([h.name + ": " + h.value]) == h.name + ": " + h.value + CrLf + JoinCrLf([]);
  }

  lemma HeaderBlockCons(h: Header, hs: seq<Header>)
    ensures HeaderBlock([h] + hs) == h.name + ": " + h.value + CrLf + HeaderBlock(hs)
  {
    assert ([h] + hs)[1..] == hs;
    var line := h.name + ": " + h.value;
    assert HeaderTexts([h] + hs) == [line] + HeaderTexts(hs);
    assert ([line] + HeaderTexts(hs))[1..] == HeaderTexts(hs);
  }

  /** The bytes of a response with two headers, piece by piece. */
  lemma SerializeTwo(status: string, h1: Header, h2: Header, body: string)
    ensures Serialize(Response(status, [h1, h2], body)) ==
      ("HTTP/1.1 " + status + CrLf) + ServerHeader + (h1.name + ": " + h1.value + CrLf)
      + (h2.name + ": " + h2.value + CrLf) + CrLf + body
  {
    SerializeParts(Response(status, [h1, h2], body));
    HeaderBlockCons(h1, [h2]);
    HeaderBlock1(h2);
    assert [h1] + [h2] == [h1, h2];
  }

  /** The bytes of a response with three headers, piece by piece. */
  lemma SerializeThree(status: string, h1: Header, h2: Header, h3: Header, body: string)
    ensures Serialize(Response(status, [h1, h2, h3], body)) ==
      ("HTTP/1.1 " + status + CrLf) + ServerHeader + (h1.name + ": " + h1.value + CrLf)
      + (h2.name + ": " + h2.value + CrLf) + (h3.name + ": " + h3.value + CrLf) + CrLf + body
  {
    SerializeParts(Response(status, [h1, h2, h3], body));
    HeaderBlockCons(h1, [h2, h3]);
    HeaderBlockCons(h2, [h3]);
    HeaderBlock1(h3);
    assert [h1] + [h2, h3] == [h1, h2, h3];
    assert [h2] + [h3] == [h2, h3];
  }

  /** http_response writes exactly the serialised error responses. */
  lemma NotFoundBytes(location: string)
    ensures CannedBytes(404, location) == Serialize(NotFound())
  {
    SerializeTwo("404 Not Found", Header("Content-Length", "142"), HtmlType, NotFoundBody);
    assert "HTTP/1.1 404 Not Found\r\n" == "HTTP/1.1 " + "404 Not Found" + CrLf;
    assert "Content-Length: 142\r\n" == "Content-Length" + ": " + "142" + CrLf;
    assert "Content-Type: text/html\r\n" == "Content-Type" + ": " + "text/html" + CrLf;
  }

  lemma NotImplementedLines()
    ensures "HTTP/1.1 501 Method Not Implemented\r\n" == "HTTP/1.1 " + "501 Method Not Implemented" + CrLf
    ensures "Allow: GET\r\n" == "Allow" + ": " + "GET" + CrLf
    ensures "Content-Length: 168\r\n" == "Content-Length" + ": " + "168" + CrLf
    ensures "Content-Type: text/html\r\n" == "Content-Type" + ": " + "text/html" + CrLf
  {
  }

  lemma NotImplementedBytes(location: string)
    ensures CannedBytes(501, location) == Serialize(NotImplemented())
  {
    SerializeThree("501 Method Not Implemented", Header("Allow", "GET"), Header("Content-Length", "168"),
      HtmlType, NotImplementedBody);
    NotImplementedLines();
  }

  lemma MovedLines(target: string)
    ensures "HTTP/1.1 301 Moved Permanently\r\n" == "HTTP/1.1 " + "301 Moved Permanently" + CrLf
    ensures "Location: " + target + CrLf == "Location" + ": " + target + CrLf
    ensures "Content-Length: 158\r\n" == "Content-Length" + ": " + "158" + CrLf
    ensures "Content-Type: text/html\r\n" == "Content-Type" + ": " + "text/html" + CrLf
  {
  }

  lemma MovedBytes(target: string)
    ensures CannedBytes(301, LocationLine(target)) == Serialize(Moved(target))
  {
    SerializeThree("301 Moved Permanently", Header("Location", target), Header("Content-Length", "158"),
      HtmlType, MovedBody);
    MovedLines(target);
  }

  /** Any other code writes nothing at all. */
  lemma OtherCodeWritesNothing(code: int, location: string)
    requires code != 404 && code != 301 && code != 501
    ensures CannedBytes(code, location) == []
  {
  }

  /** In joined plain lines, a CR is never followed two places later by
      another CR: no blank line occurs inside the head. */
  lemma {:induction false} NoBlankLineInside(lines: seq<string>, q: nat)
    requires forall i :: 0 <= i < |lines| ==> PlainLine(lines[i])
    requires q + 2 < |JoinCrLf(lines)|
    ensures JoinCrLf(lines)[q] != '\r' || JoinCrLf(lines)[q + 2] != '\r'
    decreases |lines|
  {
    var l, tail := lines[0], lines[1..];
    var rest := JoinCrLf(tail);
    assert JoinCrLf(lines) == l + CrLf + rest;
    assert forall i :: 0 <= i < |tail| ==> PlainLine(tail[i]) by {
      forall i | 0 <= i < |tail| ensures PlainLine(tail[i]) {
        assert tail[i] == lines[i + 1];
      }
    }
    if q < |l| {
      assert JoinCrLf(lines)[q] == l[q];
    } else if q == |l| {
      assert tail != [];
      assert rest == tail[0] + CrLf + JoinCrLf(tail[1..]);
      assert JoinCrLf(lines)[q + 2] == rest[0] == tail[0][0];
    } else if q == |l| + 1 {
      assert JoinCrLf(lines)[q] == '\n';
    } else {
      NoBlankLineInside(tail, q - |l| - 2);
      assert JoinCrLf(lines)[q] == rest[q - |l| - 2];
      assert JoinCrLf(lines)[q + 2] == rest[q - |l|];
    }
  }

  /** Joined lines end with CR LF. */
  lemma {:induction false} JoinEndsWithCrLf(lines: seq<string>)
    requires lines != []
    ensures |JoinCrLf(lines)| >= 2 && JoinCrLf(lines)[|JoinCrLf(lines)| - 2..] == CrLf
    decreases |lines|
  {
    var rest := JoinCrLf(lines[1..]);
    if lines[1..] != [] {
      JoinEndsWithCrLf(lines[1..]);
    }
    assert JoinCrLf(lines) == lines[0] + CrLf + rest;
  }

  /** Reading up to the first blank line gives back the head a response was
      written with, and the rest is exactly its body. */
  lemma SplitSerialized(r: Response)
    requires WellFormed(r)
    ensures SplitMessage(Serialize(r)) == Some((JoinCrLf(HeadLines(r)), r.body))
  {
    SplitJoined(HeadLines(r), r.body);
  }

  /** Lines without CR or LF, each followed by CR LF, then CR LF and a body:
      the first blank line is the one after the last line. */
  lemma SplitJoined(lines: seq<string>, body: string)
    requires lines != [] && forall i :: 0 <= i < |lines| ==> PlainLine(lines[i])
    ensures SplitMessage(JoinCrLf(lines) + CrLf + body) == Some((JoinCrLf(lines), body))
  {
    var head := JoinCrLf(lines);
    var m := head + CrLf + body;
    var p := FirstBlankLine(lines, body);
    ConcatParts(head, CrLf, body);
    SplitAtBlankLine(m, p);
  }

  lemma SplitAtBlankLine(m: string, p: nat)
    requires Find(m, BlankLine) == Some(p)
    ensures SplitMessage(m) == Some((m[..p + 2], m[p + 4..]))
  {
  }

  /** Where the first blank line of such a message starts. */
  lemma FirstBlankLine(lines: seq<string>, body: string) returns (p: nat)
    requires lines != [] && forall i :: 0 <= i < |lines| ==> PlainLine(lines[i])
    ensures p + 2 == |JoinCrLf(lines)|
    ensures Find(JoinCrLf(lines) + CrLf + body, BlankLine) == Some(p)
  {
    var head := JoinCrLf(lines);
    var m := head + CrLf + body;
    JoinEndsWithCrLf(lines);
    p := |head| - 2;
    assert m == head[..p] + BlankLine + body by {
      assert head == head[..p] + CrLf;
    }
    ConcatParts(head[..p], BlankLine, body);
    assert OccursAt(m, BlankLine, p);
    forall j: nat | j < p ensures !OccursAt(m, BlankLine, j) {
      NoBlankLineAt(lines, body, j);
    }
    FindFirst(m, BlankLine, p);
  }

  lemma NoBlankLineAt(lines: seq<string>, body: string, j: nat)
    requires forall i :: 0 <= i < |lines| ==> PlainLine(lines[i])
    requires j + 2 < |JoinCrLf(lines)|
    ensures !OccursAt(JoinCrLf(lines) + CrLf + body, BlankLine, j)
  {
    var head := JoinCrLf(lines);
    var m := head + CrLf + body;
    NoBlankLineInside(lines, j);
    assert m[j] == head[j] && m[j + 2] == head[j + 2];
    if head[j] != '\r' {
      MismatchNotOccurs(m, BlankLine, j, 0);
    } else {
      MismatchNotOccurs(m, BlankLine, j, 2);
    }
  }

  lemma PlainHeader(name: string, value: string)
    requires PlainLine(name) && NoCrLf(value)
    ensures PlainLine(name + ": " + value)
  {
    var t := name + ": " + value;
    forall i | 0 <= i < |t| ensures t[i] != '\r' && t[i] != '\n' {
      if i < |name| {
        assert t[i] == name[i];
      } else if i >= |name| + 2 {
        assert t[i] == value[i - |name| - 2];
      }
    }
  }

  lemma PlainStatus(status: string)
    requires NoCrLf(status)
    ensures PlainLine("HTTP/1.1 " + status)
  {
    var t := "HTTP/1.1 " + status;
    forall i | 0 <= i < |t| ensures t[i] != '\r' && t[i] != '\n' {
      if i >= 9 {
        assert t[i] == status[i - 9];
      }
    }
  }

  /** A response is well formed when its status and header fields are. */
  lemma WellFormedFrom(r: Response)
    requires NoCrLf(r.status)
    requires forall i :: 0 <= i < |r.headers| ==> PlainLine(r.headers[i].name) && NoCrLf(r.headers[i].value)
    ensures WellFormed(r)
  {
    PlainStatus(r.status);
    HeaderTextsPlain(r.headers);
  }

  lemma {:induction false} HeaderTextsPlain(hs: seq<Header>)
    requires forall i :: 0 <= i < |hs| ==> PlainLine(hs[i].name) && NoCrLf(hs[i].value)
    ensures forall i :: 0 <= i < |HeaderTexts(hs)| ==> PlainLine(HeaderTexts(hs)[i])
    decreases |hs|
  {
    if hs != [] {
      PlainHeader(hs[0].name, hs[0].value);
      HeaderTextsPlain(hs[1..]);
    }
  }

  /** The fixed header texts contain no CR or LF. */
  lemma FixedFieldsPlain()
    ensures PlainLine("Content-Length") && PlainLine("Content-Type") && PlainLine("Allow")
    ensures PlainLine("Location")
    ensures NoCrLf("142") && NoCrLf("158") && NoCrLf("168") && NoCrLf("GET") && NoCrLf("text/html")
    ensures NoCrLf("404 Not Found") && NoCrLf("301 Moved Permanently")
    ensures NoCrLf("501 Method Not Implemented") && NoCrLf("200 OK")
  {
  }

  /** The error pages can always be split back into head and body. */
  lemma ErrorPagesWellFormed()
    ensures WellFormed(NotFound()) && WellFormed(NotImplemented())
  {
    FixedFieldsPlain();
    WellFormedFrom(NotFound());
    WellFormedFrom(NotImplemented());
  }

  /** A redirect can be split back when its target has no CR or LF. */
  lemma MovedWellFormed(target: string)
    requires NoCrLf(target)
    ensures WellFormed(Moved(target))
  {
    FixedFieldsPlain();
    WellFormedFrom(Moved(target));
  }

  /** A 200 response can be split back when its Content-Type has no CR or LF. */
  lemma OkWellFormed(body: string, contentType: string)
    requires PlainLine(contentType)
    ensures WellFormed(Ok(body, contentType))
  {
    FixedFieldsPlain();
    var d := Decimal(|body|);
    assert NoCrLf(d);
    WellFormedFrom(Ok(body, contentType));
  }
}
