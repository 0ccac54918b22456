/** The request handling of the web server (webserver/src/main.rs, `handle_connection`):
    the first request line picks a status line and a page, and the response is the status
    line, a `Content-Length` header and the page. The socket and the file system are
    parameters: the request text read so far and a map from file names to contents. */
module Webserver {
  import opened Wrappers
  import opened Text
  import Decimal
  import Utf8

  /** What to answer: the status line and the page to send. */
  datatype Route = Route(statusLine: string, filePath: string)

  const RootRequest: string := "GET / HTTP/1.1"
  const SleepRequest: string := "GET /sleep HTTP/1.1"
  const OkStatus: string := "HTTP/1.1 200 OK"
  const NotFoundStatus: string := "HTTP/1.1 404 NOT FOUND"
  const HelloPage: string := "hello.html"
  const NotFoundPage: string := "404.html"

  const CRLF: string := "\r\n"
  const ContentLengthField: string := "\r\nContent-Length: "
  const BlankLine: string := "\r\n\r\n"

  /** The route table: two request lines, compared exactly, serve the hello page; every
      other line gets the not-found page. (The `/sleep` route also pauses the thread.) */
  function RouteRequest(requestLine: string): (r: Route)
    ensures r.statusLine == OkStatus <==> requestLine == RootRequest || requestLine == SleepRequest
    ensures r.statusLine == OkStatus ==> r.filePath == HelloPage
    ensures r.statusLine != OkStatus ==> r == Route(NotFoundStatus, NotFoundPage)
  {
    if requestLine == RootRequest then Route(OkStatus, HelloPage)
    else if requestLine == SleepRequest then Route(OkStatus, HelloPage)
    else Route(NotFoundStatus, NotFoundPage)
  }

  /** Matching is exact: the same request with another protocol version, or with
      trailing blanks, is not found. */
  lemma RouteIsExact(line1: string, line2: string)
    requires line1 == "GET / HTTP/1.0" && line2 == "GET / HTTP/1.1 "
    ensures RouteRequest(line1) == Route(NotFoundStatus, NotFoundPage)
    ensures RouteRequest(line2) == Route(NotFoundStatus, NotFoundPage)
  {
    assert line1[13] != RootRequest[13];
    assert |line2| != |RootRequest| && |line2| != |SleepRequest|;
  }

  /** `buf_reader.lines().next()`: the first line of the request, without its line
      ending; nothing when the peer sent nothing. */
  function RequestLine(request: string): (line: Option<string>)
    ensures line.None? <==> request == []
    ensures line.Some? ==> '\n' !in line.value
  {
    if request == [] then None else Some(Lines(request)[0])
  }

  /** Only the first line of the request is read: what follows it does not matter. */
  lemma RequestLineIsFirstLine(first: string, rest: string)
    requires '\n' !in first
    ensures RequestLine(first + NL + rest) == Some(StripCR(first))
  {
    var s := first + NL + rest;
    forall j | 0 <= j < |first|
      ensures s[j] != '\n'
    {
      assert s[j] == first[j];
    }
    LinesFirst(s, |first|);
    assert s[..|first|] == first;
  }

  /** `format!("{}\r\nContent-Length: {}\r\n\r\n{}", status_line, length, content)`, where
      `length` is `content.len()`, the content's length in UTF-8 bytes. */
  function Response(statusLine: string, content: string): (r: string)
    ensures statusLine <= r
    ensures |content| <= |r| && r[|r| - |content|..] == content
  {
    statusLine + ContentLengthField + Decimal.Render(Utf8.Len(content)) + BlankLine + content
  }

  /** What a client reads from a response: the status line, the announced length and the
      body after the blank line. */
  datatype ParsedResponse = ParsedResponse(statusLine: string, contentLength: nat, body: string)

  /** How a client takes a response apart: the head ends at the first blank line and the
      body is everything after it; the status line ends at the head's first line ending,
      and the one header after it must be `Content-Length` with a decimal value written as
      `{}` writes a `usize`: at least one digit and no leading zero. */
  function ParseResponse(r: string): (p: Option<ParsedResponse>)
    ensures p.Some? ==> p.value.statusLine <= r
    ensures p.Some? ==> |p.value.body| <= |r| && r[|r| - |p.value.body|..] == p.value.body
  {
    match IndexOf(r, BlankLine)
    case None => None
    case Some(k) =>
      var head := r[..k];
      var body := r[k + |BlankLine|..];
      match IndexOf(head, CRLF)
      case None => None
      case Some(i) =>
        var field := head[i..];
        if ContentLengthField <= field && Decimal.IsCanonical(field[|ContentLengthField|..]) then
          assert head[..i] <= r;
          Some(ParsedResponse(head[..i], Decimal.Parse(field[|ContentLengthField|..]).value, body))
        else None
  }

  /** The response's head (status line and header) holds no blank line. */
  lemma HeadHasNoBlankLine(statusLine: string, digits: string)
    requires forall j :: !OccursAt(statusLine, CRLF, j)
    requires |digits| >= 1 && Decimal.AllDigits(digits)
    ensures forall j :: !OccursAt(statusLine + ContentLengthField + digits, BlankLine, j)
  {
    var head := statusLine + ContentLengthField + digits;
    var n := |statusLine|;
    var m := n + |ContentLengthField|;
    var tail := ContentLengthField + digits;
    assert head == statusLine + tail;
    forall j | 0 <= j <= |head| - |BlankLine|
      ensures !OccursAt(head, BlankLine, j)
    {
      var w := head[j..j + 4];
      if j + 1 < n {
        assert !OccursAt(statusLine, CRLF, j);
        assert w[..2] == head[j..j + 2] == statusLine[j..j + 2];
      } else if j + 1 == n {
        assert w[1] == head[n] == tail[0] == '\r';
      } else if j == n {
        assert w[2] == head[n + 2] == tail[2] == 'C';
      } else if j < m {
        assert w[0] == head[j] == tail[j - n] == ContentLengthField[j - n];
      } else {
        assert w[0] == head[j] == tail[j - n] == digits[j - m];
      }
    }
  }

  /** The first blank line of a response is the one after the header. */
  lemma BlankLineAfterHead(head: string, content: string)
    requires forall j :: !OccursAt(head, BlankLine, j)
    requires |head| >= 1 && Decimal.IsDigit(head[|head| - 1])
    ensures IndexOf(head + BlankLine + content, BlankLine) == Some(|head|)
  {
    var r := head + BlankLine + content;
    var m := |head|;
    assert r[m..m + 4] == BlankLine;
    forall j | 0 <= j < m
      ensures !OccursAt(r, BlankLine, j)
    {
      if j + 4 <= m {
        assert !OccursAt(head, BlankLine, j);
        assert r[j..j + 4] == head[j..j + 4];
      } else if j + 4 <= |r| {
        var w := r[j..j + 4];
        assert w[m - 1 - j] == r[m - 1] == head[m - 1];
        assert BlankLine[m - 1 - j] == '\r' || BlankLine[m - 1 - j] == '\n';
        assert w[m - 1 - j] != BlankLine[m - 1 - j];
      }
    }
    IndexOfFirst(r, BlankLine, m);
  }

  /** The status line ends at the first line ending of the head. */
  lemma StatusLineEnd(statusLine: string, digits: string)
    requires forall j :: !OccursAt(statusLine, CRLF, j)
    ensures IndexOf(statusLine + ContentLengthField + digits, CRLF) == Some(|statusLine|)
  {
    var head := statusLine + ContentLengthField + digits;
    var n := |statusLine|;
    assert head[n..n + 2] == CRLF;
    forall j | 0 <= j < n
      ensures !OccursAt(head, CRLF, j)
    {
      if j + 1 < n {
        assert !OccursAt(statusLine, CRLF, j);
        assert head[j..j + 2] == statusLine[j..j + 2];
      } else {
        assert head[j..j + 2][1] == head[n] == '\r';
        assert CRLF[1] == '\n';
      }
    }
    IndexOfFirst(head, CRLF, n);
  }

  /** The response round trip: a client reading a response finds the status line, a
      `Content-Length` equal to the body's byte length, and the body unchanged, whatever the
      body holds, as long as the status line itself holds no line ending. */
  lemma ParseResponseRoundTrip(statusLine: string, content: string)
    requires forall j :: !OccursAt(statusLine, CRLF, j)
    ensures ParseResponse(Response(statusLine, content))
         == Some(ParsedResponse(statusLine, Utf8.Len(content), content))
  {
    var digits := Decimal.Render(Utf8.Len(content));
    var head := statusLine + ContentLengthField + digits;
    var r := Response(statusLine, content);
    assert r == head + BlankLine + content;
    HeadHasNoBlankLine(statusLine, digits);
    BlankLineAfterHead(head, content);
    assert r[..|head|] == head;
    assert r[|head| + |BlankLine|..] == content;
    StatusLineEnd(statusLine, digits);
    assert head[..|statusLine|] == statusLine;
    var field := head[|statusLine|..];
    assert field == ContentLengthField + digits;
    assert field[|ContentLengthField|..] == digits;
    Decimal.ParseRender(Utf8.Len(content));
  }

  /** Every reply a client accepts is put together the way `format!` builds one: status line,
      `Content-Length` field, the length in canonical decimal, blank line, body. */
  lemma ParseResponseShape(r: string)
    requires ParseResponse(r).Some?
    ensures var p := ParseResponse(r).value;
            r == p.statusLine + ContentLengthField + Decimal.Render(p.contentLength) + BlankLine + p.body
  {
    var p := ParseResponse(r).value;
    var k := IndexOf(r, BlankLine).value;
    var head := r[..k];
    var i := IndexOf(head, CRLF).value;
    var field := head[i..];
    var digits := field[|ContentLengthField|..];
    assert p == ParsedResponse(head[..i], Decimal.Parse(digits).value, r[k + |BlankLine|..]);
    Decimal.RenderParse(digits);
    assert field == ContentLengthField + digits;
    assert head == head[..i] + field;
    assert r[k..k + |BlankLine|] == BlankLine;
    assert r == head + r[k..k + |BlankLine|] + r[k + |BlankLine|..];
  }

  /** The other direction of the round trip: a reply that parses to a status line, the byte
      length of a content and that content is exactly the response built from them. */
  lemma ParseResponseInverse(r: string, statusLine: string, content: string)
    requires ParseResponse(r) == Some(ParsedResponse(statusLine, Utf8.Len(content), content))
    ensures r == Response(statusLine, content)
  {
    ParseResponseShape(r);
  }

  /** The framing a client relies on: the bytes sent end with the body's bytes, and
      `Content-Length` counts exactly those. */
  lemma ResponseBodyBytes(statusLine: string, content: string)
    ensures var bytes := Utf8.Encode(Response(statusLine, content));
            var body := Utf8.Encode(content);
            |body| == Utf8.Len(content)
            && |body| <= |bytes| && bytes[|bytes| - |body|..] == body
  {
    var head := statusLine + ContentLengthField + Decimal.Render(Utf8.Len(content)) + BlankLine;
    assert Response(statusLine, content) == head + content;
    Utf8.EncodeAppend(head, content);
    Utf8.EncodeLen(content);
  }

  /** The two status lines hold no line ending. */
  lemma StatusLinesHaveNoCRLF(statusLine: string)
    requires statusLine == OkStatus || statusLine == NotFoundStatus
    ensures forall j :: !OccursAt(statusLine, CRLF, j)
  {
    assert '\r' !in statusLine;
    forall j | 0 <= j <= |statusLine| - 2
      ensures !OccursAt(statusLine, CRLF, j)
    {
      assert statusLine[j..j + 2][0] == statusLine[j];
    }
  }

  /** `handle_connection`, without the socket: the reply to `request`, given the files the
      server can read. Reading the request line and the page both `unwrap()`, so the request
      must hold a line and the routed page must exist. */
  function HandleConnection(request: string, files: map<string, string>): (response: string)
    requires request != []
    requires RouteRequest(RequestLine(request).value).filePath in files
    ensures var route := RouteRequest(RequestLine(request).value);
            var page := files[route.filePath];
            ParseResponse(response) == Some(ParsedResponse(route.statusLine, Utf8.Len(page), page))
  {
    var route := RouteRequest(RequestLine(request).value);
    var content := files[route.filePath];
    StatusLinesHaveNoCRLF(route.statusLine);
    ParseResponseRoundTrip(route.statusLine, content);
    Response(route.statusLine, content)
  }

  /** A request whose first line is `line`, ended by `"\r\n"`, is answered by the route of
      `line`, whatever headers follow. */
  lemma HandleRequestLine(request: string, line: string, rest: string, files: map<string, string>)
    requires request == line + CRLF + rest
    requires '\n' !in line
    requires RouteRequest(line).filePath in files
    ensures RequestLine(request) == Some(line)
    ensures HandleConnection(request, files)
         == Response(RouteRequest(line).statusLine, files[RouteRequest(line).filePath])
  {
    var first := line + "\r";
    assert request == first + NL + rest;
    assert '\n' !in first by {
      assert forall i :: 0 <= i < |line| ==> first[i] == line[i];
    }
    RequestLineIsFirstLine(first, rest);
    assert StripCR(first) == line;
  }

  /** A request whose first line ends with a bare `"\n"` is answered by the route of that
      line with one final `'\r'`, if any, removed. */
  lemma HandleRequestLineBareNewline(request: string, line: string, rest: string,
                                     files: map<string, string>)
    requires request == line + NL + rest
    requires '\n' !in line
    requires RouteRequest(StripCR(line)).filePath in files
    ensures RequestLine(request) == Some(StripCR(line))
    ensures HandleConnection(request, files)
         == Response(RouteRequest(StripCR(line)).statusLine,
                     files[RouteRequest(StripCR(line)).filePath])
  {
    RequestLineIsFirstLine(line, rest);
  }

  /** A request for `/` over HTTP/1.1 gets the hello page with status 200. */
  lemma HandleRootRequest(request: string, rest: string, files: map<string, string>)
    requires request == RootRequest + CRLF + rest
    requires HelloPage in files
    ensures RequestLine(request) == Some(RootRequest)
    ensures HandleConnection(request, files) == Response(OkStatus, files[HelloPage])
  {
    HandleRequestLine(request, RootRequest, rest, files);
  }
}
