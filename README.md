# A verified model of the NPHTTPD request worker

NPHTTPD is a small forking HTTP/1.1 server written in C++. Each accepted
connection is handled by `worker()`, which:

1. reads the request text;
2. takes the method and path from the first line holding `HTTP/1.1`;
3. reads the `Host`, `User-Agent` and `Accept` headers;
4. answers with exactly one of the following.

| Response | When |
|---|---|
| 501 Method Not Implemented | The request line is malformed, or the method is not `GET`. |
| 301 Moved Permanently | The path names a directory without its final `/`. |
| 200 with the index page | The path is a directory with its final `/` and holds the index page. |
| 200 with a generated listing | Auto-indexing (`-a`) is enabled and the directory has no index page. |
| 200 with the file | The path is a readable regular file. The Content-Type comes from libmagic, falling back to `text/html`. |
| 404 Not Found | Anything else. |

Before the response is chosen, `url_decode` turns every `%20` into a space. Before every lookup except the redirect test's `stat`, the path is cleaned with a loop that deletes one `.` of each `../` until none is left. The error pages are fixed texts written by `http_response`.

The model is split by that structure:

| Module | File | What it holds |
|---|---|---|
| `Text` | `text.dfy` | `std::string::find` and `rfind` as `Find` and `RFind`, with least- and last-occurrence contracts. ASCII case-insensitive comparison (`strcasecmp`). Decimal rendering of lengths, with its round trip. |
| `UrlDecoding` | `url_decode.dfy` | `url_decode`'s loop as a method, proved against the function `DecodeSpaces`. |
| `Traversal` | `traversal.dfy` | The `../` filter loop, proved against `StripParentRefs`, and what the filter keeps and removes. |
| `RequestParser` | `request_parser.dfy` | The `getline` split, the request-line loop, and the header loop. `ParseRequest` equals the function `RequestOf`. |
| `Files` | `files.dfy` | The filesystem as a map from path to a file (content, libmagic type, `fopen`-able) or a directory (`readdir` entries, `opendir`-able). Also `file_exists`, `dir_exists` and `check_redirect`. |
| `AutoIndex` | `auto_index.dfy` | The listing page and the `readdir` loop that builds it. |
| `Responses` | `responses.dfy` | The response datatype and its bytes on the wire. The connection as a class whose `sent` field grows with each `write`. `http_response` and the chunked file copy. |
| `ResponseFraming` | `responses.dfy` | Every response declares its own body length. The bytes `http_response` writes are the serialised canned responses. A client reading up to the first blank line recovers head and body. |
| `Server` | `server.dfy` | `worker()` itself. The decision it takes (`Resolve`, `Dispatch`) is a function. The method `Worker` writes exactly `Output(Respond(cfg, fs, text))`. |
| `WorkerProperties` | `worker_properties.dfy` | The end-to-end promises: which requests get 501 and 301, that lookups use the filtered path, what a directory is answered with, and that every response is framed and splittable. |

Behaviour of the code that the model keeps on purpose:

- The redirect test (`check_redirect`) sees the web root plus the decoded path before the `../` filter runs.
- The filter runs over the web root too: a web root given as `../site` (or `../` and any name without a `.`) is read as `./site`, and the request path behind it is filtered on its own (`FilterCoversWebroot`).
- Lines are split at `\n` only, so a `\r` inside the request line stays in the path. For a directory named that way, the `Location` line of the 301 carries the `\r`, and `PlainTarget` does not hold for that redirect (`CarriageReturnReachesPath`). The framing lemmas therefore assume `PlainTarget`.
- A listing whose directory `opendir` cannot open ends the child in `readdir(NULL)` with nothing written. The model answers such a request with no bytes at all (`Unlistable`).
- That can only happen when listings are enabled, and only when the index page name holds a `/` or the directory is unreadable (`SilentOnlyWhenUnlistable`).
- `url_decode` decodes `%20` and nothing else.

## Model

| member | source | states |
|---|---|---|
| `Text.Find` | httpd.cpp:290 | The result is the least index where the pattern occurs. It is None exactly when the pattern occurs nowhere. |
| `Text.EqualsIgnoreCase` | httpd.cpp:276-278 | `strcasecmp(a, b) == 0`: equal texts match. Texts that match have equal length and differ only in the case of letters. |
| `Text.RFind` | httpd.cpp:303 | The result is the last index holding the character. It is None exactly when the character is absent. |
| `Text.Decimal` | httpd.cpp:339 | The text of a length is non-empty, all digits, and has no leading zero unless the length is 0. |
| `Text.DecimalRoundTrip` | httpd.cpp:372 | Reading the decimal text of a length back gives that length. |
| `UrlDecoding.UrlDecode` | httpd.cpp:487-499 | The loop yields exactly the decoding of the path, and the result holds no `%20`. |
| `UrlDecoding.ReplaceFirstPreservesDecoding` | httpd.cpp:493-494 | Replacing the first `%20` by a space does not change what the loop ends with. |
| `UrlDecoding.NoEscapeDecodesToItself` | httpd.cpp:491-492 | A path without `%20` is left as it is. |
| `UrlDecoding.DecodedHasNoEscape` | httpd.cpp:492-496 | Decoding leaves no `%20`, even when a space and `20` meet after a replacement. |
| `UrlDecoding.DecodeIdempotent` | httpd.cpp:487-499 | Decoding a decoded path changes nothing. |
| `UrlDecoding.DecodeEncode` | httpd.cpp:491-496 | Writing each space as `%20` and decoding gives the text back, for text without `%20`. |
| `Traversal.StripTraversal` | httpd.cpp:289-294 | The loop yields exactly `StripParentRefs` of the path, and the result holds no `../`. |
| `Traversal.EraseDotPreservesStrip` | httpd.cpp:292-293 | Erasing the `.` at any `../` does not change the final result. |
| `Traversal.NoParentRefStripsToItself` | httpd.cpp:290-291 | A path without `../` is left as it is. |
| `Traversal.StripHasNoParentRef` | httpd.cpp:290-294 | No `../` is left in the filtered path. |
| `Traversal.StripRemovesOnlyDots` | httpd.cpp:292 | The filtered path is the path with some `.` characters removed and nothing else changed. |
| `Traversal.StripKeepsHead` | httpd.cpp:292 | The first character survives the filter, so a non-empty path stays non-empty. |
| `Traversal.StripKeepsLast` | httpd.cpp:297 | The last character survives the filter, so the final-`/` test sees the same answer. |
| `Traversal.StripIdempotent` | httpd.cpp:289-294 | Filtering a filtered path changes nothing. |
| `RequestParser.Lines` | httpd.cpp:229-233 | The pieces `getline` returns hold no newline. |
| `RequestParser.SplitJoinLines` | httpd.cpp:265 | Lines without newline, joined with newlines, are read back exactly. |
| `RequestParser.JoinSplitLines` | httpd.cpp:233 | Joining the lines of a text gives the text back, with a final newline added when it had none. |
| `RequestParser.RequestLineIndex` | httpd.cpp:233-234 | The result is the first line holding `HTTP/1.1`. It is None exactly when no line holds it. |
| `RequestParser.SplitRequestLine` | httpd.cpp:236-258 | The method and path hold no space, and the line starts with method, space, path, space. |
| `RequestParser.SplitRequestLineFails` | httpd.cpp:237-257 | The line is rejected exactly when it has fewer than two spaces. |
| `RequestParser.SplitRequestLineOf` | httpd.cpp:245-258 | A method and a path without spaces are read back from `method path rest`. |
| `RequestParser.HeaderFieldSplitsAtFirstColon` | httpd.cpp:268-275 | The name is the line up to its first `: `, or the whole line with an empty value when there is none. The value is the text after the `: ` less its last character. |
| `RequestParser.Recognised` | httpd.cpp:276-278 | A header name is kept exactly when it equals `Host`, `User-Agent` or `Accept` ignoring case. |
| `RequestParser.ReadRequestLine` | httpd.cpp:233-262 | The loop finds the first line with `HTTP/1.1`, splits it or reports it malformed, and returns where the headers start. Without such a line the request is empty. |
| `RequestParser.ReadHeader` | httpd.cpp:266-278 | One line is split at `": "`, its value loses its last character, and the value is stored under the matching field. |
| `RequestParser.ReadHeaders` | httpd.cpp:265-279 | The loop applies every remaining line as a header, in order. |
| `RequestParser.ParseRequest` | httpd.cpp:228-279 | The parse of the received text equals `RequestOf(text)`. |
| `RequestParser.HeadersKeepRequestLine` | httpd.cpp:265-279 | Header lines never change the method or the path. |
| `RequestParser.GetApplyHeader` | httpd.cpp:268-278 | A line sets a field exactly when its name matches that field. Any other field is untouched. |
| `RequestParser.UnsetFieldKept` | httpd.cpp:265-279 | A field that no line names keeps its value. |
| `RequestParser.LastHeaderWins` | httpd.cpp:276-278 | A field named by several lines holds the value of the last one. |
| `Files.FileExists` | httpd.cpp:431-442 | `stat` finds the path and it is a regular file, so not a directory. |
| `Files.DirExists` | httpd.cpp:444-455 | `stat` finds the path and it is a directory, so not a regular file. |
| `Files.CheckRedirect` | httpd.cpp:417-429 | A redirect path is produced exactly for a directory named without its final `/`, and it is the request path plus `/`. |
| `AutoIndex.BuildListing` | httpd.cpp:307-336 | The page built equals `ListingPage(path, entries)` and is not empty. |
| `AutoIndex.AppendLinks` | httpd.cpp:312-334 | The `readdir` loop appends one paragraph per entry other than `.` and `..`, in order. |
| `AutoIndex.AppendLink` | httpd.cpp:317-332 | The appends for one entry form its paragraph. The same shown name, with `/` after a directory, is used as link target and link text. |
| `AutoIndex.VisibleMembers` | httpd.cpp:316 | An entry is listed exactly when `readdir` returned it and it is neither `.` nor `..`. |
| `AutoIndex.VisibleCounts` | httpd.cpp:312-316 | Each shown entry is listed as often as `readdir` returned it. `.` and `..` never are. |
| `AutoIndex.VisibleAppend` | httpd.cpp:312-334 | The listing keeps `readdir` order: it distributes over concatenation of the entries. |
| `AutoIndex.SingleEntryListing` | httpd.cpp:316-332 | A single entry's page is the head, its paragraph (or nothing for `.` and `..`), and the foot. |
| `Responses.Connection.Write` | httpd.cpp:343-348 | A write appends its bytes to what the peer has received. |
| `Responses.ContentType` | httpd.cpp:358-365 | The Content-Type is never empty. It is libmagic's answer when there is one, else `text/html`, and it holds no CR or LF when libmagic's answer holds none. |
| `Responses.HttpResponse` | httpd.cpp:457-485 | The bytes sent are those `http_response` writes for the code and Location line. |
| `Responses.StreamFile` | httpd.cpp:381-384 | The 4096-byte chunk loop sends the whole content, in order. |
| `ResponseFraming.CannedBodyLengths` | httpd.cpp:462-481 | The lengths 142, 158 and 168 written in the source are the lengths of the three page texts. |
| `ResponseFraming.NotFoundFramed` | httpd.cpp:459-465 | The 404 response declares the length of its body. |
| `ResponseFraming.MovedFramed` | httpd.cpp:466-473 | The 301 response declares the length of its body. |
| `ResponseFraming.NotImplementedFramed` | httpd.cpp:474-481 | The 501 response declares the length of its body. |
| `ResponseFraming.OkFramed` | httpd.cpp:371-373 | A 200 response's Content-Length, read as a decimal, is the length of its body. |
| `ResponseFraming.NotFoundBytes` | httpd.cpp:459-465 | The bytes written for 404 are the serialised 404 response. |
| `ResponseFraming.MovedBytes` | httpd.cpp:466-473 | The bytes written for 301 are the serialised 301 response with the Location header. |
| `ResponseFraming.NotImplementedBytes` | httpd.cpp:474-481 | The bytes written for 501 are the serialised 501 response. |
| `ResponseFraming.OtherCodeWritesNothing` | httpd.cpp:482-484 | Any other code writes nothing. |
| `ResponseFraming.SplitSerialized` | httpd.cpp:343-348 | A client that reads up to the first blank line gets exactly the head lines and then exactly the body. |
| `ResponseFraming.ErrorPagesWellFormed` | httpd.cpp:459-481 | No head line of the 404 or 501 response is empty or holds CR or LF. |
| `ResponseFraming.MovedWellFormed` | httpd.cpp:466-471 | The same holds for the 301 response when its target holds no CR or LF. |
| `ResponseFraming.OkWellFormed` | httpd.cpp:376-380 | The same holds for a 200 response when its Content-Type holds no CR or LF. |
| `Server.ListingDir` | httpd.cpp:303-304 | The directory listed is a prefix of the index page path. It is empty or ends in `/`, and no `/` follows it in the index page path. |
| `Server.Resolve` | httpd.cpp:282-404 | 501 exactly for a malformed request line or a method other than `GET`. A 301 exactly for a `GET` whose web root plus decoded path is a directory without its final `/`, and the redirect is the decoded path plus `/`. |
| `Server.Dispatch` | httpd.cpp:296-391 | After the filter, the answer is a file, a listing, 404, or silence. Silence needs listings enabled and a directory named with its final `/`. A served file is the filtered path or that path plus the index page. |
| `Server.Worker` | httpd.cpp:182-415 | The bytes sent are exactly those of the response `Respond` decides for the received text. |
| `Server.RejectBytes` | httpd.cpp:400-404 | The 501 bytes are the response to any request that is not a well-formed GET. |
| `Server.Serve` | httpd.cpp:296-391 | The bytes sent after the filter are those of `Dispatch`'s decision. |
| `Server.ServeDirectory` | httpd.cpp:303-349 | The listing branch sends the listing of the directory part of the index path, or nothing when it cannot be opened. It reports which happened. |
| `Server.SendListing` | httpd.cpp:307-348 | The listing is built and sent as a 200 `text/html` response. |
| `Server.ServeFileAt` | httpd.cpp:354-390 | A regular, openable file is sent. Anything else gets 404. |
| `Server.SendPage` | httpd.cpp:338-348 | The writes of a listing are the serialised 200 response with that page. |
| `Server.SendFile` | httpd.cpp:356-384 | The writes of a file are the serialised 200 response with its content and its Content-Type. |
| `WorkerProperties.NotImplementedIff` | httpd.cpp:233-262 | 501 is sent exactly for a request line without two spaces or a method other than `GET`. |
| `WorkerProperties.NotImplementedOnlyForNotAllowed` | httpd.cpp:400-404 | Only the rejected-request decision is answered with 501. |
| `WorkerProperties.NoRequestLineIsNotImplemented` | httpd.cpp:282 | Text with no line holding `HTTP/1.1` leaves the method empty and gets 501. |
| `WorkerProperties.RedirectIff` | httpd.cpp:284-288 | For a GET, 301 is sent exactly for an unfiltered directory path without final `/`. The Location is the decoded path plus `/`. |
| `WorkerProperties.LookupsAreFiltered` | httpd.cpp:289-301 | The looked-up path holds no `../`. A served file is that path or that path plus the index page name. |
| `WorkerProperties.FileIsServed` | httpd.cpp:356-384 | A readable regular file is answered with its content and its libmagic type, or `text/html`. |
| `WorkerProperties.AbsentIsNotFound` | httpd.cpp:386-390 | A path that is neither a directory nor a readable regular file gets 404. |
| `WorkerProperties.IndexPageIsServed` | httpd.cpp:297-301 | A directory with its final `/` and a readable index page is answered with that page, with listings on or off. |
| `WorkerProperties.NoIndexNoListing` | httpd.cpp:298-300 | With listings off, a directory without its index page gets 404. |
| `WorkerProperties.ListingDirOfIndexPath` | httpd.cpp:303-304 | Cutting after the last `/` gives the directory back when the index page name has no `/`. |
| `WorkerProperties.ListingIsServed` | httpd.cpp:300-348 | With listings on, a readable directory without a regular index page is answered with its listing. |
| `WorkerProperties.SilentOnlyWhenUnlistable` | httpd.cpp:306-312 | Nothing is sent only when `opendir` fails on the listing path. With readable directories and an index page name without `/`, every request is answered. |
| `WorkerProperties.UnlistableDirectory` | httpd.cpp:297-306 | A failed listing comes from a directory named with its final `/`, with listings on, whose cut index path is no readable directory. |
| `WorkerProperties.EveryReplyFramed` | httpd.cpp:338-340 | Every response declares, in decimal, the length of its body. |
| `WorkerProperties.ReplyWellFormed` | httpd.cpp:343-347 | No head line of any response is empty or holds CR or LF, when the MIME type and Location hold none. |
| `WorkerProperties.EveryResponseSplits` | httpd.cpp:376-384 | Every response splits at its first blank line into the head written and exactly the body. |
| `WorkerProperties.FilterCoversWebroot` | httpd.cpp:285-294 | The filter also rewrites the web root: for every dot-free name `site` and every path, `../site` followed by the path becomes `./site` followed by the filtered path. |
| `WorkerProperties.CarriageReturnReachesPath` | httpd.cpp:233-258 | A path holding `\r` and no space comes out of the request line unchanged, and the redirect built from it is not `PlainTarget`. |

## Left out

- `main`, `server`, option parsing, the listening socket, `fork`, `waitpid` and the signal handler: process set-up outside the worker.
- The socket read loop (`httpd.cpp:219-226`): the model takes the received text as given. A text holding NUL, which `recvdata += recvbuf` would cut short, is not modelled.
- `shutdown`/`close` and the optional log line: they write nothing to the peer.
- Server.Worker: takes the web root as non-empty. The program's default is `.`, and an empty path would make the final-`/` comparison throw.
- Responses.Connection.Write: every `write` is taken to send all its bytes. Partial writes and write errors are not modelled.
- Responses.StreamFile: the file is read as one string that does not change while it is sent. `ftell`/`fread` failures are not modelled.
- libmagic: its answer is a field of the file node. A NULL from `magic_file` (undefined behaviour when assigned to a `std::string`) is not modelled.
- `stat` failures: a path absent from the map is neither file nor directory. The source reads an uninitialised `st_mode` in that case.
- The `d_type` flag is a field of each entry. Systems without `_DIRENT_HAVE_D_TYPE` (no `/` after directory names) are not modelled.
- The crash in `readdir(NULL)` is modelled as "nothing sent". What the parent process does afterwards is not modelled.
- Integer widths: lengths and positions are unbounded naturals. `int parampos` against `npos` behaves as intended for the sizes involved.
- File contents are modelled as characters, not bytes.
