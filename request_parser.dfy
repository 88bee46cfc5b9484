/** The request interpretation at the top of worker(): the received text is
    read line by line with getline; the first line holding "HTTP/1.1" gives
    the method and the path; every later line is a header, of which Host,
    User-Agent and Accept are kept. */
module RequestParser {
  import opened Text

  /** struct reqparam. */
  datatype Request = Request(httpMethod: string, path: string, host: string, userAgent: string, accept: string)

  const EmptyRequest := Request("", "", "", "", "")

  /** The outcome of interpretation: a request line with fewer than two
      spaces stops the worker with a 501 at once. */
  datatype Parsed = Malformed | Parsed(request: Request)

  const VersionToken := "HTTP/1.1"

  /** The three header fields the server keeps. */
  datatype Field = Host | UserAgent | Accept

  function FieldName(f: Field): string
  {
    match f
    case Host => "Host"
    case UserAgent => "User-Agent"
    case Accept => "Accept"
  }

  function Get(req: Request, f: Field): string
  {
    match f
    case Host => req.host
    case UserAgent => req.userAgent
    case Accept => req.accept
  }

  // ---------------------------------------------------------------- lines

  /** Repeated getline on an istringstream: pieces split at '\n', the '\n'
      dropped and any '\r' kept; an empty final piece is not a line. */
  function Lines(s: string): (lines: seq<string>)
    ensures forall i :: 0 <= i < |lines| ==> '\n' !in lines[i]
    decreases |s|
  {
    if s == [] then []
    else match Find(s, "\n")
      case None =>
        NoNewlineBefore(s, |s|);
        [s]
      case Some(i) =>
        NoNewlineBefore(s, i);
        [s[..i]] + Lines(s[i + 1..])
  }

  lemma NoNewlineBefore(s: string, i: nat)
    requires i <= |s|
    requires forall j: nat :: j < i ==> !OccursAt(s, "\n", j)
    ensures '\n' !in s[..i]
  {
    forall j | 0 <= j < i ensures s[j] != '\n' { OccursAtChar(s, '\n', j); }
  }

  lemma JoinCons(l: string, lines: seq<string>)
    ensures JoinLines([l] + lines) == l + "\n" + JoinLines(lines)
  {
    assert ([l] + lines)[1..] == lines;
  }

  /** The text a sequence of lines is read from, each line ended by '\n'. */
  function JoinLines(lines: seq<string>): string
  {
    if lines == [] then [] else lines[0] + "\n" + JoinLines(lines[1..])
  }

  /** Splitting loses only a missing final '\n'. */
  lemma {:induction false} JoinSplitLines(s: string)
    ensures JoinLines(Lines(s)) == if s == [] || s[|s| - 1] == '\n' then s else s + "\n"
    decreases |s|
  {
    if s != [] {
      var k := Find(s, "\n");
      if k.None? {
        JoinSingleLine(s);
      } else {
        var i := k.value;
        JoinSplitLines(s[i + 1..]);
        JoinFirstLine(s, i);
      }
    }
  }

  /** The step of JoinSplitLines for a text whose first '\n' is at `i`. */
  lemma JoinFirstLine(s: string, i: nat)
    requires Find(s, "\n") == Some(i)
    requires var rest := s[i + 1..];
      JoinLines(Lines(rest)) == if rest == [] || rest[|rest| - 1] == '\n' then rest else rest + "\n"
    ensures JoinLines(Lines(s)) == if s[|s| - 1] == '\n' then s else s + "\n"
  {
    var line, rest := s[..i], s[i + 1..];
    OccursAtChar(s, '\n', i);
    assert s == line + "\n" + rest;
    assert Lines(s) == [line] + Lines(rest);
    JoinCons(line, Lines(rest));
    NewlineEnded(line, rest, JoinLines(Lines(rest)));
  }

  /** Putting a line and '\n' in front keeps "ends with '\n' or gets one". */
  lemma NewlineEnded(line: string, r: string, x: string)
    requires x == if r == [] || r[|r| - 1] == '\n' then r else r + "\n"
    ensures var s := line + "\n" + r;
      line + "\n" + x == if s[|s| - 1] == '\n' then s else s + "\n"
  {
    var s := line + "\n" + r;
    if r != [] {
      assert s[|s| - 1] == r[|r| - 1];
    }
  }

  lemma JoinSingleLine(s: string)
    requires s != [] && Find(s, "\n").None?
    ensures JoinLines(Lines(s)) == s + "\n" && s[|s| - 1] != '\n'
  {
    OccursAtChar(s, '\n', |s| - 1);
    assert Lines(s) == [s] + [];
    JoinCons(s, []);
  }

  /** Lines without '\n' are read back exactly. */
  lemma {:induction false} SplitJoinLines(lines: seq<string>)
    requires forall i :: 0 <= i < |lines| ==> '\n' !in lines[i]
    ensures Lines(JoinLines(lines)) == lines
    decreases |lines|
  {
    if lines != [] {
      var l, tail := lines[0], lines[1..];
      var rest := JoinLines(tail);
      var s := l + "\n" + rest;
      assert JoinLines(lines) == s;
      assert forall i :: 0 <= i < |tail| ==> '\n' !in tail[i] by {
        forall i | 0 <= i < |tail| ensures '\n' !in tail[i] {
          assert tail[i] == lines[i + 1];
        }
      }
      SplitJoinLines(tail);
      FindAfterWord(l, '\n', rest);
      assert s != [] && Find(s, "\n") == Some(|l|);
      assert s[..|l|] == l && s[|l| + 1..] == rest;
      assert Lines(s) == [l] + Lines(rest);
      assert [l] + tail == lines;
    }
  }

  // --------------------------------------------------------- request line

  /** The first line in which "HTTP/1.1" occurs. */
  function RequestLineIndex(lines: seq<string>): (r: Option<nat>)
    ensures r.Some? ==> r.value < |lines| && Contains(lines[r.value], VersionToken)
    ensures r.Some? ==> forall j :: 0 <= j < r.value ==> !Contains(lines[j], VersionToken)
    ensures r.None? ==> forall j :: 0 <= j < |lines| ==> !Contains(lines[j], VersionToken)
    decreases |lines|
  {
    if lines == [] then None
    else if Find(lines[0], VersionToken).Some? then Some(0)
    else match RequestLineIndex(lines[1..])
      case None => None
      case Some(k) => Some(k + 1)
  }

  /** Method and path of a request line: the text before the first space,
      then the text up to the next space. */
  function SplitRequestLine(line: string): (r: Option<(string, string)>)
    ensures r.Some? ==> ' ' !in r.value.0 && ' ' !in r.value.1
    ensures r.Some? ==> |r.value.0| + |r.value.1| + 2 <= |line|
    ensures r.Some? ==> line[..|r.value.0| + |r.value.1| + 2] == r.value.0 + " " + r.value.1 + " "
  {
    match Find(line, " ")
    case None => None
    case Some(p) =>
      var rest := line[p + 1..];
      match Find(rest, " ")
      case None => None
      case Some(q) =>
        SplitPieces(line, p, q);
        Some((line[..p], rest[..q]))
  }

  /** The two first spaces of a line cut it into two words without spaces. */
  lemma SplitPieces(line: string, p: nat, q: nat)
    requires Find(line, " ") == Some(p) && p + 1 <= |line| && Find(line[p + 1..], " ") == Some(q)
    ensures p + q + 2 <= |line|
    ensures ' ' !in line[..p] && ' ' !in line[p + 1..][..q]
    ensures line[..p + q + 2] == line[..p] + " " + line[p + 1..][..q] + " "
  {
    var rest := line[p + 1..];
    NoSpaceBefore(line, p);
    NoSpaceBefore(rest, q);
    WordThenSpace(line, p, q);
  }

  lemma WordThenSpace(line: string, p: nat, q: nat)
    requires p < |line| && line[p] == ' ' && q < |line[p + 1..]| && line[p + 1..][q] == ' '
    ensures line[..p + q + 2] == line[..p] + " " + line[p + 1..][..q] + " "
  {
    var rest := line[p + 1..];
    assert line[..p + q + 2] == line[..p + 1] + rest[..q + 1];
    assert line[..p + 1] == line[..p] + " ";
    assert rest[..q + 1] == rest[..q] + " ";
  }

  /** Before the first space there is none. */
  lemma NoSpaceBefore(s: string, p: nat)
    requires Find(s, " ") == Some(p)
    ensures p < |s| && s[p] == ' ' && ' ' !in s[..p]
  {
    OccursAtChar(s, ' ', p);
    forall j | 0 <= j < p ensures s[..p][j] != ' ' { OccursAtChar(s, ' ', j); }
  }

  /** A line splits exactly when it holds at least two spaces. */
  lemma SplitRequestLineFails(line: string)
    ensures SplitRequestLine(line).None? <==>
      forall i, j :: 0 <= i < j < |line| ==> !(line[i] == ' ' && line[j] == ' ')
  {
    var first := Find(line, " ");
    if first.Some? {
      var p := first.value;
      var rest := line[p + 1..];
      OccursAtChar(line, ' ', p);
      if Find(rest, " ").None? {
        forall i, j | 0 <= i < j < |line| ensures !(line[i] == ' ' && line[j] == ' ') {
          OccursAtChar(line, ' ', i);
          if line[i] == ' ' && line[j] == ' ' {
            assert p <= i;
            OccursAtChar(rest, ' ', j - p - 1);
          }
        }
      } else {
        OccursAtChar(rest, ' ', Find(rest, " ").value);
        assert line[p + 1 + Find(rest, " ").value] == ' ';
      }
    } else {
      forall i | 0 <= i < |line| ensures line[i] != ' ' { OccursAtChar(line, ' ', i); }
    }
  }

  /** Round trip: a method and a path without spaces come back from the line
      "method path rest". */
  lemma SplitRequestLineOf(m: string, p: string, tail: string)
    requires ' ' !in m && ' ' !in p
    ensures SplitRequestLine(m + " " + p + " " + tail) == Some((m, p))
  {
    var line := m + " " + p + " " + tail;
    assert line == m + [' '] + (p + " " + tail);
    FindAfterWord(m, ' ', p + " " + tail);
    var rest := line[|m| + 1..];
    assert rest == p + [' '] + tail;
    FindAfterWord(p, ' ', tail);
    assert line[..|m|] == m && rest[..|p|] == p;
  }

  // -------------------------------------------------------------- headers

  /** The text without its last character (value.substr(0, value.length()-1),
      which keeps the empty string empty). */
  function DropLast(s: string): string
  {
    if s == [] then [] else s[..|s| - 1]
  }

  /** A header line split at its first ": ": the name, and the value with its
      last character (normally the '\r') dropped. A line without ": " is a
      name with an empty value. */
  function HeaderField(line: string): (string, string)
  {
    match Find(line, ": ")
    case None => (line, "")
    case Some(p) => (line[..p], DropLast(line[p + 2..]))
  }

  /** The name is the line up to its first ": " (the whole line when there
      is none, with an empty value); the value is what follows the ": ",
      less its last character. */
  lemma HeaderFieldSplitsAtFirstColon(line: string)
    ensures HeaderField(line).0 <= line
    ensures forall j :: 0 <= j < |HeaderField(line).0| ==> !OccursAt(line, ": ", j)
    ensures HeaderField(line).0 == line ==> HeaderField(line).1 == [] && !Contains(line, ": ")
    ensures HeaderField(line).0 != line ==>
      && OccursAt(line, ": ", |HeaderField(line).0|)
      && HeaderField(line).1 == DropLast(line[|HeaderField(line).0| + 2..])
  {
  }

  /** The kept field a header name denotes, compared as strcasecmp does. */
  function Recognised(name: string): (r: Option<Field>)
    ensures r.Some? ==> EqualsIgnoreCase(name, FieldName(r.value))
    ensures r.None? ==> forall f: Field :: !EqualsIgnoreCase(name, FieldName(f))
  {
    if EqualsIgnoreCase(name, "Host") then Some(Host)
    else if EqualsIgnoreCase(name, "User-Agent") then Some(UserAgent)
    else if EqualsIgnoreCase(name, "Accept") then Some(Accept)
    else
      NoFieldNamed(name);
      None
  }

  lemma NoFieldNamed(name: string)
    requires !EqualsIgnoreCase(name, "Host") && !EqualsIgnoreCase(name, "User-Agent")
    requires !EqualsIgnoreCase(name, "Accept")
    ensures forall f: Field :: !EqualsIgnoreCase(name, FieldName(f))
  {
    forall f: Field ensures !EqualsIgnoreCase(name, FieldName(f)) {
      match f
      case Host =>
      case UserAgent =>
      case Accept =>
    }
  }

  function WithField(req: Request, f: Field, value: string): Request
  {
    match f
    case Host => req.(host := value)
    case UserAgent => req.(userAgent := value)
    case Accept => req.(accept := value)
  }

  /** The effect of one header line on the request. */
  function ApplyHeader(req: Request, line: string): Request
  {
    var (name, value) := HeaderField(line);
    match Recognised(name)
    case None => req
    case Some(f) => WithField(req, f, value)
  }

  /** The effect of the header lines, applied in order. */
  function ApplyHeaders(req: Request, lines: seq<string>): Request
    decreases |lines|
  {
    if lines == [] then req
    else ApplyHeader(ApplyHeaders(req, lines[..|lines| - 1]), lines[|lines| - 1])
  }

  /** The meaning of the received text. */
  function RequestOf(text: string): Parsed
  {
    var lines := Lines(text);
    match RequestLineIndex(lines)
    case None => Parsed(EmptyRequest)
    case Some(k) =>
      match SplitRequestLine(lines[k])
      case None => Malformed
      case Some(mp) => Parsed(ApplyHeaders(Request(mp.0, mp.1, "", "", ""), lines[k + 1..]))
  }

  /** The first getline loop of worker(): skip to the first line holding
      "HTTP/1.1" and take the method and path from it. `next` is the index of
      the line after it, or |lines| when there is none. */
  method ReadRequestLine(lines: seq<string>) returns (parsed: Parsed, next: nat)
    ensures next <= |lines|
    ensures RequestLineIndex(lines).None? ==> parsed == Parsed(EmptyRequest) && next == |lines|
    ensures RequestLineIndex(lines).Some? ==>
      var k := RequestLineIndex(lines).value;
      && next == k + 1
      && parsed == match SplitRequestLine(lines[k])
         case None => Malformed
         case Some(mp) => Parsed(Request(mp.0, mp.1, "", "", ""))
  {
    var request := EmptyRequest;
    var i := 0;
    while i < |lines|
      invariant 0 <= i <= |lines|
      invariant forall j :: 0 <= j < i ==> !Contains(lines[j], VersionToken)
    {
      var line := lines[i];
      i := i + 1;
      if Find(line, VersionToken).Some? {
        assert RequestLineIndex(lines) == Some(i - 1) by {
          RequestLineIndexIs(lines, i - 1);
        }
        var first := Find(line, " ");
        if first.None? {
          return Malformed, i;
        }
        request := request.(httpMethod := line[..first.value]);
        var rest := line[first.value + 1..];
        var second := Find(rest, " ");
        if second.None? {
          return Malformed, i;
        }
        request := request.(path := rest[..second.value]);
        return Parsed(request), i;
      }
    }
    RequestLineIndexNone(lines);
    return Parsed(request), i;
  }

  lemma {:induction false} RequestLineIndexIs(lines: seq<string>, k: nat)
    requires k < |lines| && Contains(lines[k], VersionToken)
    requires forall j :: 0 <= j < k ==> !Contains(lines[j], VersionToken)
    ensures RequestLineIndex(lines) == Some(k)
    decreases k
  {
    if k > 0 {
      RequestLineIndexIs(lines[1..], k - 1);
    }
  }

  lemma {:induction false} RequestLineIndexNone(lines: seq<string>)
    requires forall j :: 0 <= j < |lines| ==> !Contains(lines[j], VersionToken)
    ensures RequestLineIndex(lines).None?
    decreases |lines|
  {
    if lines != [] {
      RequestLineIndexNone(lines[1..]);
    }
  }

  /** The second getline loop of worker(): every remaining line is a header. */
  method ReadHeaders(request: Request, lines: seq<string>, start: nat) returns (result: Request)
    requires start <= |lines|
    ensures result == ApplyHeaders(request, lines[start..])
  {
    result := request;
    var i := start;
    while i < |lines|
      invariant start <= i <= |lines|
      invariant result == ApplyHeaders(request, lines[start..i])
    {
      result := ReadHeader(result, lines[i]);
      ApplyHeadersStep(request, lines, start, i);
      i := i + 1;
    }
    assert lines[start..] == lines[start..i];
  }

  /** One header line: split at ": ", drop the value's last character and
      keep it when the name is Host, User-Agent or Accept. */
  method ReadHeader(request: Request, line: string) returns (result: Request)
    ensures result == ApplyHeader(request, line)
  {
    result := request;
    var param, value := "", "";
    var colon := Find(line, ": ");
    if colon.None? {
      param := line;
    } else {
      param := line[..colon.value];
      value := line[colon.value + 2..];
      value := if |value| == 0 then "" else value[..|value| - 1];
    }
    if EqualsIgnoreCase(param, "Host") {
      result := result.(host := value);
    } else if EqualsIgnoreCase(param, "User-Agent") {
      result := result.(userAgent := value);
    } else if EqualsIgnoreCase(param, "Accept") {
      result := result.(accept := value);
    }
  }

  lemma ApplyHeadersStep(request: Request, lines: seq<string>, start: nat, i: nat)
    requires start <= i < |lines|
    ensures ApplyHeaders(request, lines[start..i + 1]) ==
      ApplyHeader(ApplyHeaders(request, lines[start..i]), lines[i])
  {
    var w := lines[start..i + 1];
    assert w[..|w| - 1] == lines[start..i];
    assert w[|w| - 1] == lines[i];
  }

  /** Interpretation of the received text, as worker() does it. */
  method ParseRequest(text: string) returns (parsed: Parsed)
    ensures parsed == RequestOf(text)
  {
    var lines := Lines(text);
    var next: nat;
    parsed, next := ReadRequestLine(lines);
    if parsed.Parsed? {
      var request := ReadHeaders(parsed.request, lines, next);
      assert RequestLineIndex(lines).None? ==> lines[next..] == [];
      parsed := Parsed(request);
    }
  }

  // ----------------------------------------------------- header properties

  /** Headers never touch the method or the path. */
  lemma {:induction false} HeadersKeepRequestLine(req: Request, lines: seq<string>)
    ensures ApplyHeaders(req, lines).httpMethod == req.httpMethod
    ensures ApplyHeaders(req, lines).path == req.path
    decreases |lines|
  {
    if lines != [] {
      HeadersKeepRequestLine(req, lines[..|lines| - 1]);
    }
  }

  /** The line sets field `f`. */
  predicate SetsField(line: string, f: Field)
  {
    Recognised(HeaderField(line).0) == Some(f)
  }

  /** One header line sets field `f` when it names it and leaves it otherwise. */
  lemma GetApplyHeader(req: Request, line: string, f: Field)
    ensures Get(ApplyHeader(req, line), f) == if SetsField(line, f) then HeaderField(line).1 else Get(req, f)
  {
  }

  /** With no line naming field `f`, the field keeps its earlier value. */
  lemma {:induction false} UnsetFieldKept(req: Request, lines: seq<string>, f: Field)
    requires forall j :: 0 <= j < |lines| ==> !SetsField(lines[j], f)
    ensures Get(ApplyHeaders(req, lines), f) == Get(req, f)
    decreases |lines|
  {
    if lines != [] {
      var init := lines[..|lines| - 1];
      UnsetFieldKept(req, init, f);
      GetApplyHeader(ApplyHeaders(req, init), lines[|lines| - 1], f);
    }
  }

  /** The last line naming field `f` decides it: a repeated header overwrites
      the earlier value. */
  lemma {:induction false} LastHeaderWins(req: Request, lines: seq<string>, f: Field, j: nat)
    requires j < |lines| && SetsField(lines[j], f)
    requires forall k :: j < k < |lines| ==> !SetsField(lines[k], f)
    ensures Get(ApplyHeaders(req, lines), f) == HeaderField(lines[j]).1
    decreases |lines|
  {
    var init := lines[..|lines| - 1];
    GetApplyHeader(ApplyHeaders(req, init), lines[|lines| - 1], f);
    if j < |lines| - 1 {
      LastHeaderWins(req, init, f, j);
    }
  }
}
