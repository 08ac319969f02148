/** The request parser of server/src/http/httprequest.cpp, a state machine over CRLF-terminated lines. */
module HttpRequests {
  import opened Wrappers
  import opened Buffers

  datatype ParseState = REQUEST_LINE | HEADERS | BODY | FINISH

  datatype Request = Request(
    state: ParseState,
    verb: string,
    path: string,
    version: string,
    body: string,
    headers: map<string, string>)

  const INITIAL := Request(REQUEST_LINE, "", "", "", "", map[])

  const DEFAULT_HTML := {"/index", "/register", "/login", "/welcome", "/video", "/picture"}

  const FORM := "application/x-www-form-urlencoded"

  /** What a form submission does to path and body; it looks users up, so it is a parameter. */
  type FormHandler = Request -> (string, string)

  // ---------- lines ----------

  /** `std::search` for CRLF: its first position, or the end. */
  function FindCrlf(s: string): (i: nat)
    ensures i <= |s| && (i < |s| ==> i + 2 <= |s| && s[i..i + 2] == "\r\n")
  {
    if |s| < 2 then |s|
    else if s[..2] == "\r\n" then 0
    else 1 + FindCrlf(s[1..])
  }

  function FindChar(s: string, c: char): (i: nat)
    ensures i <= |s| && (i < |s| ==> s[i] == c) && c !in s[..i]
  {
    if |s| == 0 || s[0] == c then 0 else 1 + FindChar(s[1..], c)
  }

  datatype RequestLine = RequestLine(verb: string, path: string, version: string)

  function SplitVersion(last: string): Option<string> {
    if "HTTP/" <= last && ' ' !in last then Some(last[5..]) else None
  }

  function SplitPath(rest: string): Option<(string, string)> {
    var i := FindChar(rest, ' ');
    if i == |rest| then None
    else
      match SplitVersion(rest[i + 1..])
      case Some(version) => Some((rest[..i], version))
      case None => None
  }

  /** The pattern `^([^ ]*) ([^ ]*) HTTP/([^ ]*)$`: no group holds a space, so the first two spaces delimit. */
  function SplitRequestLine(line: string): Option<RequestLine> {
    var i := FindChar(line, ' ');
    if i == |line| then None
    else
      match SplitPath(line[i + 1..])
      case Some((path, version)) => Some(RequestLine(line[..i], path, version))
      case None => None
  }

  /** The pattern `^([^:]*): ?(.*)$`, where `.` matches no line terminator. */
  function SplitHeader(line: string): Option<(string, string)> {
    var i := FindChar(line, ':');
    if i == |line| then None
    else
      var rest := line[i + 1..];
      var value := if |rest| > 0 && rest[0] == ' ' then rest[1..] else rest;
      if '\r' in value || '\n' in value then None else Some((line[..i], value))
  }

  function DefaultPage(path: string): string {
    if path == "/" then "/index.html" else if path in DEFAULT_HTML then path + ".html" else path
  }

  // ---------- one line of each kind ----------

  function ParseHeader(r: Request, line: string): Request {
    match SplitHeader(line)
    case Some((name, value)) => r.(headers := r.headers[name := value])
    case None => r.(state := BODY)
  }

  /** Looking a missing `Content-Type` up with `[]` inserts an empty one. */
  function ParseBody(r: Request, line: string, form: FormHandler): Request {
    var read := r.(body := line);
    var looked := if r.verb == "POST" && "Content-Type" !in r.headers
                  then read.(headers := r.headers["Content-Type" := ""]) else read;
    var handled := if r.verb == "POST" && looked.headers["Content-Type"] == FORM
                   then var (p, b) := form(looked); looked.(path := p, body := b) else looked;
    handled.(state := FINISH)
  }

  /** What the loop body does to the request; `None` is the early `return false`. */
  function ParseLine(r: Request, line: string, readable: nat, form: FormHandler): Option<Request> {
    match r.state
    case REQUEST_LINE =>
      (match SplitRequestLine(line)
       case Some(l) => Some(r.(verb := l.verb, path := DefaultPage(l.path), version := l.version, state := HEADERS))
       case None => None)
    case HEADERS =>
      var p := ParseHeader(r, line);
      Some(if readable <= 2 then p.(state := FINISH) else p)
    case BODY => Some(ParseBody(r, line, form))
    case FINISH => Some(r)
  }

  datatype Parsed = Parsed(ok: bool, request: Request, left: string)

  /** The loop of `parse`, from any state of the machine and any buffer. */
  function ParseLoop(r: Request, data: string, form: FormHandler): (p: Parsed)
    ensures |p.left| <= |data|
    decreases |data|
  {
    if |data| == 0 || r.state == FINISH then Parsed(true, r, data)
    else
      var i := FindCrlf(data);
      match ParseLine(r, data[..i], |data|, form)
      case None => Parsed(false, r, data)
      case Some(r') => if i == |data| then Parsed(true, r', "") else ParseLoop(r', data[i + 2..], form)
  }

  /** `parse` on a buffer; an empty one is refused. */
  method Parse(r: Request, buff: Buffer, form: FormHandler) returns (ok: bool, request: Request)
    requires buff.Valid()
    modifies buff`readPos, buff`writePos
    ensures buff.Valid()
    ensures old(buff.Contents()) == [] ==> !ok && request == r && buff.Contents() == []
    ensures old(buff.Contents()) != [] ==>
              var p := ParseLoop(r, old(buff.Contents()), form);
              ok == p.ok && request == p.request && buff.Contents() == p.left
  {
    request := r;
    if buff.ReadableBytes() == 0 {
      return false, request;
    }
    ghost var goal := ParseLoop(r, buff.Contents(), form);
    while buff.ReadableBytes() > 0 && request.state != FINISH
      invariant buff.Valid() && ParseLoop(request, buff.Contents(), form) == goal
      decreases buff.ReadableBytes()
    {
      var data := buff.Contents();
      var lineEnd := FindCrlf(data);
      var next := ParseLine(request, data[..lineEnd], buff.ReadableBytes(), form);
      if next.None? {
        return false, request;
      }
      request := next.value;
      if lineEnd == |data| {
        buff.RetrieveAll();
        break;
      }
      buff.Retrieve(lineEnd + 2);
    }
    ok := true;
  }

  // ---------- the state never goes backwards ----------

  function Rank(s: ParseState): nat {
    match s case REQUEST_LINE => 0 case HEADERS => 1 case BODY => 2 case FINISH => 3
  }

  lemma LineAdvances(r: Request, line: string, readable: nat, form: FormHandler)
    ensures var next := ParseLine(r, line, readable, form);
            next.Some? ==> Rank(next.value.state) >= Rank(r.state)
  {
  }

  /** From any state and on any buffer, the machine only moves forward. */
  lemma {:induction false} StateNeverGoesBack(r: Request, data: string, form: FormHandler)
    ensures Rank(ParseLoop(r, data, form).request.state) >= Rank(r.state)
    decreases |data|
  {
    if |data| > 0 && r.state != FINISH {
      var i := FindCrlf(data);
      var next := ParseLine(r, data[..i], |data|, form);
      LineAdvances(r, data[..i], |data|, form);
      if next.Some? && i < |data| {
        StateNeverGoesBack(next.value, data[i + 2..], form);
      }
    }
  }

  // ---------- printed requests ----------

  /** Field lines in the form of section 5 of RFC 9112. */
  function PrintHeaders(hs: seq<(string, string)>): string {
    if |hs| == 0 then "" else hs[0].0 + ": " + hs[0].1 + "\r\n" + PrintHeaders(hs[1..])
  }

  function PrintRequestLine(l: RequestLine): string {
    l.verb + " " + (l.path + " " + ("HTTP/" + l.version))
  }

  /** A request in the form of section 3 of RFC 9112. */
  function Print(l: RequestLine, hs: seq<(string, string)>, body: string): string {
    PrintRequestLine(l) + "\r\n" + (PrintHeaders(hs) + ("\r\n" + body))
  }

  predicate OneLine(s: string) { '\r' !in s && '\n' !in s }

  predicate Token(s: string) { OneLine(s) && ' ' !in s }

  predicate FieldsOk(hs: seq<(string, string)>) {
    forall i :: 0 <= i < |hs| ==> OneLine(hs[i].0) && ':' !in hs[i].0 && OneLine(hs[i].1)
  }

  /** Later fields replace earlier ones of the same name. */
  function LastWins(m: map<string, string>, hs: seq<(string, string)>): map<string, string>
    decreases |hs|
  {
    if |hs| == 0 then m else LastWins(m[hs[0].0 := hs[0].1], hs[1..])
  }

  /** What `LastWins` means: a name's value is that of its last field. */
  lemma {:induction false} LastFieldWins(m: map<string, string>, hs: seq<(string, string)>, i: nat)
    requires i < |hs| && forall j :: i < j < |hs| ==> hs[j].0 != hs[i].0
    ensures hs[i].0 in LastWins(m, hs) && LastWins(m, hs)[hs[i].0] == hs[i].1
    decreases |hs|
  {
    if i > 0 {
      LastFieldWins(m[hs[0].0 := hs[0].1], hs[1..], i - 1);
    } else {
      Untouched(m[hs[0].0 := hs[0].1], hs[1..], hs[0].0);
    }
  }

  lemma {:induction false} Untouched(m: map<string, string>, hs: seq<(string, string)>, name: string)
    requires forall j :: 0 <= j < |hs| ==> hs[j].0 != name
    ensures name in LastWins(m, hs) <==> name in m
    ensures name in m ==> LastWins(m, hs)[name] == m[name]
    decreases |hs|
  {
    if |hs| > 0 {
      Untouched(m[hs[0].0 := hs[0].1], hs[1..], name);
    }
  }

  lemma {:induction false} CrlfAfterLine(line: string, rest: string)
    requires OneLine(line)
    ensures FindCrlf(line + "\r\n" + rest) == |line|
    ensures (line + "\r\n" + rest)[..|line|] == line && (line + "\r\n" + rest)[|line| + 2..] == rest
  {
    var s := line + "\r\n" + rest;
    if |line| == 0 {
      assert s[..2] == "\r\n";
    } else {
      CrlfAfterLine(line[1..], rest);
      assert s[1..] == line[1..] + "\r\n" + rest;
      assert s[..2][0] == line[0] != '\r';
    }
  }

  lemma {:induction false} CutAt(a: string, c: char, b: string)
    requires c !in a
    ensures var s := a + [c] + b; FindChar(s, c) == |a| && s[..|a|] == a && s[|a| + 1..] == b
  {
    if |a| > 0 {
      CutAt(a[1..], c, b);
      assert (a + [c] + b)[1..] == a[1..] + [c] + b;
    }
  }

  lemma OneLineConcat(a: string, b: string)
    requires OneLine(a) && OneLine(b)
    ensures OneLine(a + b)
  {
  }

  predicate NoSpace(l: RequestLine) {
    ' ' !in l.verb && ' ' !in l.path && ' ' !in l.version
  }

  lemma SplitsPath(path: string, version: string)
    requires ' ' !in path && ' ' !in version
    ensures SplitPath(path + " " + ("HTTP/" + version)) == Some((path, version))
  {
    var last := "HTTP/" + version;
    assert SplitVersion(last) == Some(version);
    CutAt(path, ' ', last);
  }

  lemma SplitsLine(l: RequestLine)
    requires NoSpace(l)
    ensures SplitRequestLine(PrintRequestLine(l)) == Some(l)
  {
    SplitsPath(l.path, l.version);
    CutAt(l.verb, ' ', l.path + " " + ("HTTP/" + l.version));
  }

  lemma SplitsRequestLine(l: RequestLine)
    requires Token(l.verb) && Token(l.path) && Token(l.version)
    ensures SplitRequestLine(PrintRequestLine(l)) == Some(l) && OneLine(PrintRequestLine(l))
  {
    SplitsLine(l);
    OneLineConcat("HTTP/", l.version);
    OneLineConcat(l.path, " ");
    OneLineConcat(l.path + " ", "HTTP/" + l.version);
    OneLineConcat(l.verb, " ");
    OneLineConcat(l.verb + " ", l.path + " " + ("HTTP/" + l.version));
  }

  lemma {:induction false} SplitPathIsPrinted(rest: string)
    requires SplitPath(rest).Some?
    ensures var (path, version) := SplitPath(rest).value;
            ' ' !in path && ' ' !in version && rest == path + " " + ("HTTP/" + version)
  {
    var i := FindChar(rest, ' ');
    var last := rest[i + 1..];
    assert rest == rest[..i] + " " + last && last == "HTTP/" + last[5..];
  }

  /** What the pattern matches is a printed request line. */
  lemma {:induction false} SplitIsPrinted(line: string)
    requires SplitRequestLine(line).Some?
    ensures var l := SplitRequestLine(line).value; NoSpace(l) && line == PrintRequestLine(l)
  {
    var i := FindChar(line, ' ');
    SplitPathIsPrinted(line[i + 1..]);
    assert line == line[..i] + " " + line[i + 1..];
  }

  /** The line has the form of a request line: three parts without spaces. */
  ghost predicate IsRequestLine(line: string) {
    exists l :: NoSpace(l) && line == PrintRequestLine(l)
  }

  lemma {:induction false} SplitsIff(line: string)
    ensures SplitRequestLine(line).Some? <==> IsRequestLine(line)
  {
    if SplitRequestLine(line).Some? {
      SplitIsPrinted(line);
    }
    if IsRequestLine(line) {
      var l :| NoSpace(l) && line == PrintRequestLine(l);
      SplitsLine(l);
    }
  }

  /** After the request line nothing is refused any more. */
  lemma {:induction false} NeverRefusedLater(r: Request, data: string, form: FormHandler)
    requires r.state != REQUEST_LINE
    ensures ParseLoop(r, data, form).ok
    decreases |data|
  {
    if |data| > 0 && r.state != FINISH {
      var i := FindCrlf(data);
      var next := ParseLine(r, data[..i], |data|, form);
      LineAdvances(r, data[..i], |data|, form);
      if i < |data| {
        NeverRefusedLater(next.value, data[i + 2..], form);
      }
    }
  }

  /** A new request is refused exactly when its first line is not a request line. */
  lemma {:induction false} RefusedIff(data: string, form: FormHandler)
    requires data != ""
    ensures !ParseLoop(INITIAL, data, form).ok <==> !IsRequestLine(data[..FindCrlf(data)])
  {
    var i := FindCrlf(data);
    SplitsIff(data[..i]);
    var next := ParseLine(INITIAL, data[..i], |data|, form);
    if next.Some? && i < |data| {
      NeverRefusedLater(next.value, data[i + 2..], form);
    }
  }

  lemma SplitsHeader(name: string, value: string)
    requires ':' !in name && OneLine(value)
    ensures SplitHeader(name + ": " + value) == Some((name, value))
  {
    var line := name + ": " + value;
    assert line == name + ":" + (" " + value);
    CutAt(name, ':', " " + value);
    assert (" " + value)[1..] == value;
  }

  /** A field may also come without the space after its colon. */
  lemma SplitsTightHeader(name: string, value: string)
    requires ':' !in name && OneLine(value) && (value == "" || value[0] != ' ')
    ensures SplitHeader(name + ":" + value) == Some((name, value))
  {
    CutAt(name, ':', value);
  }

  /** And a line without a colon, such as a blank one, ends the fields. */
  lemma SplitsNoHeader(line: string)
    requires ':' !in line
    ensures SplitHeader(line).None?
  {
  }

  /** Whether a body is taken for a submitted form. */
  predicate SubmitsForm(r: Request) {
    r.verb == "POST" && "Content-Type" in r.headers && r.headers["Content-Type"] == FORM
  }

  /**
   The request received when `body` follows the blank line: its first line is the body, a POST has a
   content type from then on, and a form is handed to `form`. Without a body no form is handled.
   */
  function Received(r: Request, body: string, form: FormHandler): Request {
    if body == "" then r.(state := FINISH)
    else
      var line := body[..FindCrlf(body)];
      if SubmitsForm(r) then
        var (path, decoded) := form(r.(state := BODY, body := line));
        r.(state := FINISH, path := path, body := decoded)
      else if r.verb == "POST" && "Content-Type" !in r.headers then
        r.(state := FINISH, body := line, headers := r.headers["Content-Type" := ""])
      else r.(state := FINISH, body := line)
  }

  /** What `parse` leaves unread of a body: everything after its first line. */
  function Unread(body: string): string {
    if FindCrlf(body) == |body| then "" else body[FindCrlf(body) + 2..]
  }

  lemma {:induction false} BlankLine(r: Request, body: string, form: FormHandler)
    requires r.state == HEADERS
    ensures ParseLoop(r, "\r\n" + body, form)
            == ParseLoop(r.(state := if body == "" then FINISH else BODY), body, form)
  {
    var data := "\r\n" + body;
    assert data[..2] == "\r\n" && data[2..] == body;
    assert FindCrlf(data) == 0 && data[..0] == "" && SplitHeader("").None?;
  }

  lemma {:induction false} BodyLine(r: Request, body: string, form: FormHandler)
    requires r.state == BODY && body != ""
    ensures ParseLoop(r, body, form) == Parsed(true, ParseBody(r, body[..FindCrlf(body)], form), Unread(body))
  {
    var i, r' := FindCrlf(body), ParseBody(r, body[..FindCrlf(body)], form);
    if i < |body| {
      assert ParseLoop(r, body, form) == ParseLoop(r', body[i + 2..], form);
    }
  }

  /** The blank line ends the fields; a body follows it or nothing does. */
  lemma {:induction false} ParsesBody(r: Request, body: string, form: FormHandler)
    requires r.state == HEADERS
    ensures ParseLoop(r, "\r\n" + body, form) == Parsed(true, Received(r, body, form), Unread(body))
  {
    BlankLine(r, body, form);
    if body != "" {
      BodyLine(r.(state := BODY), body, form);
      assert ParseBody(r.(state := BODY), body[..FindCrlf(body)], form) == Received(r, body, form);
    }
  }

  /** One field line is recorded, and the loop goes on behind it. */
  lemma {:induction false} ParsesField(r: Request, name: string, value: string, rest: string, form: FormHandler)
    requires r.state == HEADERS && OneLine(name) && ':' !in name && OneLine(value)
    ensures ParseLoop(r, (name + ": " + value) + "\r\n" + rest, form)
            == ParseLoop(r.(headers := r.headers[name := value]), rest, form)
  {
    OneLineConcat(name, ": ");
    OneLineConcat(name + ": ", value);
    CrlfAfterLine(name + ": " + value, rest);
    SplitsHeader(name, value);
  }

  lemma {:induction false} ParsesTightField(r: Request, name: string, value: string, rest: string, form: FormHandler)
    requires r.state == HEADERS && OneLine(name) && ':' !in name && OneLine(value) && (value == "" || value[0] != ' ')
    ensures ParseLoop(r, (name + ":" + value) + "\r\n" + rest, form)
            == ParseLoop(r.(headers := r.headers[name := value]), rest, form)
  {
    OneLineConcat(name, ":");
    OneLineConcat(name + ":", value);
    CrlfAfterLine(name + ":" + value, rest);
    SplitsTightHeader(name, value);
  }

  /** From the header state on: every field is recorded, then the blank line, then the body. */
  lemma {:induction false} ParsesFields(r: Request, hs: seq<(string, string)>, body: string, form: FormHandler)
    requires r.state == HEADERS && FieldsOk(hs)
    ensures ParseLoop(r, PrintHeaders(hs) + ("\r\n" + body), form)
            == Parsed(true, Received(r.(headers := LastWins(r.headers, hs)), body, form), Unread(body))
    decreases |hs|
  {
    if |hs| == 0 {
      assert PrintHeaders(hs) + ("\r\n" + body) == "\r\n" + body;
      ParsesBody(r, body, form);
    } else {
      var name, value := hs[0].0, hs[0].1;
      var rest := PrintHeaders(hs[1..]) + ("\r\n" + body);
      assert PrintHeaders(hs) + ("\r\n" + body) == (name + ": " + value) + "\r\n" + rest;
      ParsesField(r, name, value, rest, form);
      ParsesFields(r.(headers := r.headers[name := value]), hs[1..], body, form);
    }
  }

  /**
   Parsing a printed request, of any method and with any body: method, version and fields come back, the
   last of a name winning, and the path after the default-page rewrite; the body as `Received` says.
   */
  lemma {:induction false} ParseOfPrint(l: RequestLine, hs: seq<(string, string)>, body: string, form: FormHandler)
    requires Token(l.verb) && Token(l.path) && Token(l.version) && FieldsOk(hs)
    ensures var r := Request(HEADERS, l.verb, DefaultPage(l.path), l.version, "", LastWins(map[], hs));
            ParseLoop(INITIAL, Print(l, hs, body), form) == Parsed(true, Received(r, body, form), Unread(body))
  {
    SplitsRequestLine(l);
    CrlfAfterLine(PrintRequestLine(l), PrintHeaders(hs) + ("\r\n" + body));
    ParsesFields(Request(HEADERS, l.verb, DefaultPage(l.path), l.version, "", map[]), hs, body, form);
  }

  /** The page that a request without a body asks for. */
  lemma {:induction false} PageOfRequest(l: RequestLine, hs: seq<(string, string)>, form: FormHandler)
    requires Token(l.verb) && Token(l.path) && Token(l.version) && FieldsOk(hs)
    ensures var path := ParseLoop(INITIAL, Print(l, hs, ""), form).request.path;
            && (l.path == "/" ==> path == "/index.html")
            && (l.path in ["/index", "/register", "/login", "/welcome", "/video", "/picture"] ==>
                  path == l.path + ".html")
            && (l.path !in ["/", "/index", "/register", "/login", "/welcome", "/video", "/picture"] ==> path == l.path)
  {
    ParseOfPrint(l, hs, "", form);
  }

  /** The body is one line, and not one that a POST treats specially. */
  predicate Plain(r: Request, body: string) {
    && FindCrlf(body) == |body|
    && (body == "" || r.verb != "POST" || ("Content-Type" in r.headers && r.headers["Content-Type"] != FORM))
  }

  lemma PlainIsKept(r: Request, body: string, form: FormHandler)
    requires Plain(r, body) && r.body == ""
    ensures Received(r, body, form) == r.(state := FINISH, body := body) && Unread(body) == ""
  {
    assert body[..|body|] == body;
  }

  /** A form handler that changes the body. */
  function Spoils(body: string): FormHandler {
    _ => ("", body + " ")
  }

  lemma OthersAreNot(r: Request, body: string)
    requires !Plain(r, body) && r.body == ""
    ensures Unread(body) != "" || Received(r, body, Spoils(body)) != r.(state := FINISH, body := body)
  {
    if SubmitsForm(r) {
      assert body + " " != body;
    }
  }

  ghost predicate ComesBack(l: RequestLine, hs: seq<(string, string)>, body: string, form: FormHandler) {
    ParseLoop(INITIAL, Print(l, hs, body), form)
    == Parsed(true, Request(FINISH, l.verb, DefaultPage(l.path), l.version, body, LastWins(map[], hs)), "")
  }

  /**
   A request comes back whole, with nothing left over and nothing added, whatever the form handler does,
   exactly when its body is plain.
   */
  lemma {:induction false} RoundTripIff(l: RequestLine, hs: seq<(string, string)>, body: string)
    requires Token(l.verb) && Token(l.path) && Token(l.version) && FieldsOk(hs)
    ensures (forall form :: ComesBack(l, hs, body, form)) <==>
              Plain(Request(HEADERS, l.verb, DefaultPage(l.path), l.version, "", LastWins(map[], hs)), body)
  {
    var r := Request(HEADERS, l.verb, DefaultPage(l.path), l.version, "", LastWins(map[], hs));
    if Plain(r, body) {
      forall form: FormHandler
        ensures ComesBack(l, hs, body, form)
      {
        ParseOfPrint(l, hs, body, form);
        PlainIsKept(r, body, form);
      }
    } else {
      ParseOfPrint(l, hs, body, Spoils(body));
      OthersAreNot(r, body);
      assert !ComesBack(l, hs, body, Spoils(body));
    }
  }
}
