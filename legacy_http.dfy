/**
 * The request-frame builder of `src/helpers/http.rs`: `parse_request` turns the text of a
 * request into the transport target and the exact HTTP/1.1 bytes to send.
 *
 * The `url` crate is not part of this model: the builder receives it as `parseUrl`, a
 * function from the URL token to what the builder reads from a parsed URL.
 */
module LegacyHttp {
  import opened Wrappers
  import opened Text
  import opened RequestSyntax

  /**
   * What the builder reads from a parsed `url::Url`: the scheme, `host_str()`, `domain()`
   * (a host name; `None` for IP literals), `port_or_known_default()`, the path, the query and
   * the fragment.
   */
  datatype Url = Url(
    scheme: string,
    host: Option<string>,
    domain: Option<string>,
    port: Option<u16>,
    path: string,
    query: Option<string>,
    fragment: Option<string>)

  /** The `url` crate never yields a line break inside a host, path, query or fragment. */
  predicate SingleLine(u: Url) {
    (u.domain.Some? ==> '\n' !in u.domain.value)
    && '\n' !in u.path
    && (u.query.Some? ==> '\n' !in u.query.value)
    && (u.fragment.Some? ==> '\n' !in u.fragment.value)
  }

  /** The transport target and the frame to send. */
  datatype HttpRequest = HttpRequest(scheme: Scheme, host: string, port: u16, httpFrame: string)

  /**
   * The request target: the path, then `?query` and `#fragment` when present. Built from
   * URL parts on one line, it is on one line.
   */
  function RequestTarget(u: Url): (t: string)
    ensures StartsWith(t, u.path)
    ensures u.query.None? && u.fragment.None? ==> t == u.path
    ensures SingleLine(u) ==> '\n' !in t
  {
    var q := if u.query.Some? then "?" + u.query.value else "";
    var f := if u.fragment.Some? then "#" + u.fragment.value else "";
    assert (u.path + q + f)[..|u.path|] == u.path;
    u.path + q + f
  }

  /**
   * Index just past the lines copied after the request line: they run from `from` up to
   * and including the first empty line, or to the end of the text.
   */
  function CopyEnd(ls: seq<string>, from: nat): (e: nat)
    requires from <= |ls|
    ensures from <= e <= |ls|
  {
    var blank := FirstEmptyFrom(ls, from);
    if blank == |ls| then |ls| else blank + 1
  }

  /** The `Host` header, present only when the URL names a domain. */
  function HostHeader(domain: Option<string>): string {
    if domain.Some? then "Host: " + domain.value + "\r\n" else ""
  }

  /** The `Content-Length` header (section 8.6 of RFC 9110), present only for a non-empty body. */
  function ContentLengthHeader(body: string): string {
    if body == [] then "" else "Content-Length: " + DecimalString(Utf8Len(body)) + "\r\n"
  }

  /**
   * The frame as `parse_request` assembles it. It starts with its request line and CRLF,
   * and ends with `Connection: close`, the empty line and the body.
   */
  function Frame(line: RequestLine, target: string, copied: seq<string>, domain: Option<string>, body: string)
    : (frame: string)
    ensures StartsWith(frame, line.verb + " " + target + " " + line.version + "\r\n")
    ensures var tail := "Connection: close\r\n\r\n" + body;
            |tail| <= |frame| && frame[|frame| - |tail|..] == tail
  {
    var start := line.verb + " " + target + " " + line.version + "\r\n";
    var head := start + CrlfJoin(copied) + HostHeader(domain) + ContentLengthHeader(body);
    var tail := "Connection: close\r\n\r\n" + body;
    assert (head + tail)[..|start|] == start;
    assert (head + tail)[|head|..] == tail;
    head + tail
  }

  /** What `parse_request` has read when it starts writing the frame. */
  datatype Head = Head(i: nat, line: RequestLine, url: Url, scheme: Scheme)

  /**
   * The request line, its URL and scheme, or the error `parse_request` stops with: no
   * request line, a bad token count, a URL error, no host, no port, then a bad scheme.
   */
  function ParsedHead(ls: seq<string>, parseUrl: string -> Result<Url, string>): (r: Result<Head, string>)
    ensures r.Ok? ==> r.value.i < |ls| && FirstRequestLine(ls) == Some(r.value.i)
    ensures r.Ok? ==> SplitRequestLine(ls[r.value.i]) == Some(r.value.line)
    ensures r.Ok? ==> parseUrl(r.value.line.url) == Ok(r.value.url)
    ensures r.Ok? ==> r.value.url.host.Some? && r.value.url.port.Some?
    ensures r.Ok? ==> r.value.scheme == SchemeFrom(r.value.url.scheme) && !r.value.scheme.SchemeErr?
  {
    match FirstRequestLine(ls)
    case None => Err("! No request found")
    case Some(i) =>
      match SplitRequestLine(ls[i])
      case None => Err("! Parse error on line: " + ls[i])
      case Some(line) =>
        match parseUrl(line.url)
        case Err(e) => Err("! " + e)
        case Ok(u) =>
          if u.host.None? then Err("! Host not found in HTTP Request")
          else if u.port.None? then Err("! Unknown http port to query")
          else
            var scheme := SchemeFrom(u.scheme);
            if scheme.SchemeErr? then Err(scheme.name)
            else Ok(Head(i, line, u, scheme))
  }

  /** The lines the builder copies after the request line at `i`. */
  function CopiedLines(ls: seq<string>, i: nat): seq<string>
    requires i < |ls|
  {
    ls[i + 1..CopyEnd(ls, i + 1)]
  }

  /** The lines the builder sends as the body. */
  function BodyLines(ls: seq<string>, i: nat): seq<string>
    requires i < |ls|
  {
    ls[CopyEnd(ls, i + 1)..]
  }

  /** What `parse_request` returns for a request text, error messages included. */
  function Parsed(request: string, parseUrl: string -> Result<Url, string>): Result<HttpRequest, string> {
    var ls := Lines(request);
    match ParsedHead(ls, parseUrl)
    case Err(e) => Err(e)
    case Ok(h) =>
      Ok(HttpRequest(h.scheme, h.url.host.value, h.url.port.value,
                     Frame(h.line, RequestTarget(h.url), CopiedLines(ls, h.i), h.url.domain,
                           CrlfJoin(BodyLines(ls, h.i)))))
  }

  /** The first loop of `parse_request`: passes over empty and `#` lines. */
  method SkipToRequestLine(lines: seq<string>) returns (i: nat)
    ensures i <= |lines|
    ensures i == |lines| <==> FirstRequestLine(lines).None?
    ensures i < |lines| ==> FirstRequestLine(lines) == Some(i)
  {
    i := 0;
    while i < |lines| && IsCommentOrBlank(lines[i])
      invariant 0 <= i <= |lines|
      invariant FirstRequestLine(lines) == FirstRequestLineFrom(lines, i)
    {
      i := i + 1;
    }
  }

  /**
   * The second loop of `parse_request`: the lines after the request line, each with CRLF,
   * up to and including the first empty one; `next` is where the body starts.
   */
  method CopyHeaderLines(lines: seq<string>, from: nat) returns (copied: string, next: nat)
    requires from <= |lines|
    ensures next == CopyEnd(lines, from)
    ensures copied == CrlfJoin(lines[from..next])
  {
    copied := "";
    next := from;
    while next < |lines|
      invariant from <= next <= |lines|
      invariant forall k :: from <= k < next ==> lines[k] != []
      invariant copied == CrlfJoin(lines[from..next])
    {
      var line := lines[next];
      assert lines[from..next + 1] == lines[from..next] + [line];
      copied := copied + line + "\r\n";
      next := next + 1;
      if line == [] {
        break;
      }
    }
  }

  /** The third loop of `parse_request`: every remaining line, each with CRLF. */
  method CollectBody(lines: seq<string>, from: nat) returns (body: string)
    requires from <= |lines|
    ensures body == CrlfJoin(lines[from..])
  {
    body := "";
    var j := from;
    while j < |lines|
      invariant from <= j <= |lines|
      invariant body == CrlfJoin(lines[from..j])
    {
      assert lines[from..j + 1] == lines[from..j] + [lines[j]];
      body := body + lines[j] + "\r\n";
      j := j + 1;
    }
    assert lines[from..] == lines[from..j];
  }

  /**
   * The frame assembly of `parse_request`, once the request line at `i` is read: the
   * request line, the copied lines, `Host`, `Content-Length`, `Connection: close`, the blank
   * line and the body.
   */
  method AssembleFrame(lines: seq<string>, i: nat, line: RequestLine, target: string, domain: Option<string>)
    returns (frame: string)
    requires i < |lines|
    ensures frame == Frame(line, target, CopiedLines(lines, i), domain, CrlfJoin(BodyLines(lines, i)))
  {
    frame := line.verb + " " + target + " " + line.version + "\r\n";
    var copied, next := CopyHeaderLines(lines, i + 1);
    assert copied == CrlfJoin(CopiedLines(lines, i));
    frame := frame + copied;
    ghost var headers := frame;
    if domain.Some? {
      frame := frame + "Host: ";
      frame := frame + domain.value;
      frame := frame + "\r\n";
    }
    assert frame == headers + HostHeader(domain);
    headers := frame;
    var body := CollectBody(lines, next);
    assert body == CrlfJoin(BodyLines(lines, i));
    if |body| > 0 {
      var length := DecimalString(Utf8Len(body));
      frame := frame + "Content-Length: ";
      frame := frame + length;
      frame := frame + "\r\n";
    }
    assert frame == headers + ContentLengthHeader(body);
    headers := frame;
    frame := frame + "Connection: close\r\n";
    frame := frame + "\r\n";
    if |body| > 0 {
      frame := frame + body;
    }
    assert frame == headers + ("Connection: close\r\n\r\n" + body);
    FrameParts(line, target, CopiedLines(lines, i), domain, body);
  }

  /** `Frame` is the request line, the copied lines, the added headers, then the fixed tail. */
  lemma FrameParts(line: RequestLine, target: string, copied: seq<string>, domain: Option<string>, body: string)
    ensures Frame(line, target, copied, domain, body)
            == line.verb + " " + target + " " + line.version + "\r\n" + CrlfJoin(copied) + HostHeader(domain)
               + ContentLengthHeader(body) + ("Connection: close\r\n\r\n" + body)
  {
  }

  /** `parse_request`: skips the leading comments, reads the request line, then builds the frame. */
  method ParseRequest(request: string, parseUrl: string -> Result<Url, string>) returns (r: Result<HttpRequest, string>)
    ensures r == Parsed(request, parseUrl)
  {
    var lines := Lines(request);
    var head := ReadHead(lines, parseUrl);
    if head.Err? {
      return Err(head.error);
    }
    var h := head.value;
    var query := BuildTarget(h.url);
    var frame := AssembleFrame(lines, h.i, h.line, query, h.url.domain);
    return Ok(HttpRequest(h.scheme, h.url.host.value, h.url.port.value, frame));
  }

  /** The request target `parse_request` pushes together: the path, `?query` and `#fragment`. */
  method BuildTarget(u: Url) returns (query: string)
    ensures query == RequestTarget(u)
  {
    query := u.path;
    if u.query.Some? {
      query := query + "?";
      query := query + u.query.value;
    }
    if u.fragment.Some? {
      query := query + "#";
      query := query + u.fragment.value;
    }
  }

  /**
   * The checks `parse_request` makes before it writes the frame, in its order: a request
   * line, its token count, the URL, its host, its port and its scheme. The scheme is
   * checked after the request target is built, which cannot fail, so checking it first
   * changes nothing.
   */
  method ReadHead(lines: seq<string>, parseUrl: string -> Result<Url, string>) returns (r: Result<Head, string>)
    ensures r == ParsedHead(lines, parseUrl)
  {
    var i := SkipToRequestLine(lines);
    if i == |lines| {
      return Err("! No request found");
    }
    var line := lines[i];
    var parts := SplitSpaces(line);
    var verb, url, version;
    if |parts| == 2 {
      verb, url, version := parts[0], parts[1], "HTTP/1.1";
    } else if |parts| == 3 {
      verb, url, version := parts[0], parts[1], parts[2];
    } else {
      return Err("! Parse error on line: " + line);
    }
    assert SplitRequestLine(line) == Some(RequestLine(verb, url, version));
    var parsedUrl := parseUrl(url);
    if parsedUrl.Err? {
      return Err("! " + parsedUrl.error);
    }
    var u := parsedUrl.value;
    if u.host.None? {
      return Err("! Host not found in HTTP Request");
    }
    if u.port.None? {
      return Err("! Unknown http port to query");
    }
    var scheme := SchemeFrom(u.scheme);
    if scheme.SchemeErr? {
      return Err(scheme.name);
    }
    return Ok(Head(i, RequestLine(verb, url, version), u, scheme));
  }


  // ----------------------------------------------------------------------------------
  // Properties of the builder
  // ----------------------------------------------------------------------------------

  /** The URLs `parseUrl` yields are free of line breaks, as the `url` crate's are. */
  ghost predicate SingleLineUrls(parseUrl: string -> Result<Url, string>) {
    forall t :: parseUrl(t).Ok? ==> SingleLine(parseUrl(t).value)
  }

  /** A text with no line other than empty and `#` lines holds no request. */
  lemma NoRequestFound(request: string, parseUrl: string -> Result<Url, string>)
    requires forall k :: 0 <= k < |Lines(request)| ==> IsCommentOrBlank(Lines(request)[k])
    ensures Parsed(request, parseUrl) == Err("! No request found")
  {
  }

  /** A request line of other than two or three space-separated tokens is reported with its text. */
  lemma ParseErrorOnLine(request: string, parseUrl: string -> Result<Url, string>, i: nat)
    requires FirstRequestLine(Lines(request)) == Some(i)
    requires |SplitSpaces(Lines(request)[i])| != 2 && |SplitSpaces(Lines(request)[i])| != 3
    ensures Parsed(request, parseUrl) == Err("! Parse error on line: " + Lines(request)[i])
  {
  }

  /**
   * Once the URL parses, a missing host is reported first, then an unknown port, then an
   * unsupported scheme by its bare name; `http` and `https` URLs with both are accepted.
   */
  lemma UrlErrorPrecedence(request: string, parseUrl: string -> Result<Url, string>, i: nat, line: RequestLine)
    requires FirstRequestLine(Lines(request)) == Some(i)
    requires SplitRequestLine(Lines(request)[i]) == Some(line)
    requires parseUrl(line.url).Ok?
    ensures var u := parseUrl(line.url).value;
            var r := Parsed(request, parseUrl);
            (u.host.None? ==> r == Err("! Host not found in HTTP Request"))
            && (u.host.Some? && u.port.None? ==> r == Err("! Unknown http port to query"))
            && (u.host.Some? && u.port.Some? && u.scheme != "http" && u.scheme != "https" ==> r == Err(u.scheme))
            && (u.host.Some? && u.port.Some? && (u.scheme == "http" || u.scheme == "https") ==>
                  r.Ok? && r.value.host == u.host.value && r.value.port == u.port.value
                  && r.value.scheme == (if u.scheme == "http" then HTTP else HTTPS))
  {
  }

  /** A successful build is the frame assembled from the head `ParsedHead` reads. */
  lemma ParsedOk(request: string, parseUrl: string -> Result<Url, string>)
    requires Parsed(request, parseUrl).Ok?
    ensures var ls := Lines(request);
            ParsedHead(ls, parseUrl).Ok?
            && var h := ParsedHead(ls, parseUrl).value;
               Parsed(request, parseUrl).value.httpFrame
               == Frame(h.line, RequestTarget(h.url), CopiedLines(ls, h.i), h.url.domain, CrlfJoin(BodyLines(ls, h.i)))
  {
  }

  /** The head of a request whose request line is `<verb> <url>[ <version>]`. */
  lemma HeadLine(ls: seq<string>, parseUrl: string -> Result<Url, string>, i: nat,
                 verb: string, url: string, version: Option<string>)
    requires FirstRequestLine(ls) == Some(i)
    requires IsToken(verb) && IsToken(url) && (version.Some? ==> IsToken(version.value))
    requires ls[i] == verb + " " + url + (if version.Some? then " " + version.value else "")
    requires ParsedHead(ls, parseUrl).Ok?
    ensures ParsedHead(ls, parseUrl).value.line
            == RequestLine(verb, url, if version.Some? then version.value else "HTTP/1.1")
  {
    var h := ParsedHead(ls, parseUrl).value;
    assert h.i == i;
    if version.Some? {
      assert ls[i] == verb + " " + url + " " + version.value;
      ThreeTokenRequestLine(verb, url, version.value);
    } else {
      assert ls[i] == verb + " " + url;
      TwoTokenRequestLine(verb, url);
    }
  }

  /**
   * A two-token request line `<verb> <url>` is sent as `<verb> <target> HTTP/1.1`, and a
   * three-token line keeps its version verbatim (section 3 of RFC 9112).
   */
  lemma RequestLineVersion(request: string, parseUrl: string -> Result<Url, string>, i: nat,
                           verb: string, url: string, version: Option<string>)
    requires FirstRequestLine(Lines(request)) == Some(i)
    requires IsToken(verb) && IsToken(url) && (version.Some? ==> IsToken(version.value))
    requires Lines(request)[i] == verb + " " + url + (if version.Some? then " " + version.value else "")
    requires Parsed(request, parseUrl).Ok?
    ensures parseUrl(url).Ok?
            && StartsWith(Parsed(request, parseUrl).value.httpFrame,
                          verb + " " + RequestTarget(parseUrl(url).value) + " "
                          + (if version.Some? then version.value else "HTTP/1.1") + "\r\n")
  {
    var ls := Lines(request);
    ParsedOk(request, parseUrl);
    var h := ParsedHead(ls, parseUrl).value;
    HeadLine(ls, parseUrl, i, verb, url, version);
  }

  /** The lines of a frame, as a server reading it line by line sees them. */
  function FrameLines(line: RequestLine, target: string, copied: seq<string>, domain: Option<string>,
                      bodyLines: seq<string>): seq<string>
  {
    [line.verb + " " + target + " " + line.version]
    + copied
    + (if domain.Some? then ["Host: " + domain.value] else [])
    + (if bodyLines == [] then [] else ["Content-Length: " + DecimalString(Utf8Len(CrlfJoin(bodyLines)))])
    + ["Connection: close", ""]
    + bodyLines
  }

  lemma CrlfJoinOne(x: string)
    ensures CrlfJoin([x]) == x + "\r\n"
  {
    assert [x][..0] == [];
  }

  lemma CrlfJoinClose()
    ensures CrlfJoin(["Connection: close", ""]) == "Connection: close\r\n\r\n"
  {
    var close := ["Connection: close", ""];
    assert close[..1] == ["Connection: close"];
    CrlfJoinOne("Connection: close");
  }

  /** The frame is its lines, each followed by CRLF. */
  lemma FrameIsCrlfJoin(line: RequestLine, target: string, copied: seq<string>, domain: Option<string>,
                        bodyLines: seq<string>)
    ensures Frame(line, target, copied, domain, CrlfJoin(bodyLines))
            == CrlfJoin(FrameLines(line, target, copied, domain, bodyLines))
  {
    var body := CrlfJoin(bodyLines);
    var first := [line.verb + " " + target + " " + line.version];
    var host := if domain.Some? then ["Host: " + domain.value] else [];
    var length := if bodyLines == [] then [] else ["Content-Length: " + DecimalString(Utf8Len(body))];
    var close := ["Connection: close", ""];
    var p1 := first + copied;
    var p2 := p1 + host;
    var p3 := p2 + length;
    var p4 := p3 + close;
    var p5 := p4 + bodyLines;
    assert FrameLines(line, target, copied, domain, bodyLines) == p5;
    calc {
      CrlfJoin(p5);
      { CrlfJoinAppend(p4, bodyLines); }
      CrlfJoin(p4) + body;
      { CrlfJoinClose();
        CrlfJoinAppend(p3, close); }
      CrlfJoin(p3) + "Connection: close\r\n\r\n" + body;
      { CrlfJoinEmpty(bodyLines);
        if bodyLines != [] {
          CrlfJoinOne("Content-Length: " + DecimalString(Utf8Len(body)));
        }
        CrlfJoinAppend(p2, length); }
      CrlfJoin(p2) + ContentLengthHeader(body) + "Connection: close\r\n\r\n" + body;
      { if domain.Some? {
          CrlfJoinOne("Host: " + domain.value);
        }
        CrlfJoinAppend(p1, host); }
      CrlfJoin(p1) + HostHeader(domain) + ContentLengthHeader(body) + "Connection: close\r\n\r\n" + body;
      { CrlfJoinOne(line.verb + " " + target + " " + line.version);
        CrlfJoinAppend(first, copied); }
      line.verb + " " + target + " " + line.version + "\r\n" + CrlfJoin(copied)
      + HostHeader(domain) + ContentLengthHeader(body) + "Connection: close\r\n\r\n" + body;
      { assert "Connection: close\r\n\r\n" == "Connection: close\r\n" + "\r\n"; }
      Frame(line, target, copied, domain, body);
    }
  }

  lemma NoLineBreaksAppend(a: seq<string>, b: seq<string>)
    requires NoLineBreaks(a) && NoLineBreaks(b)
    ensures NoLineBreaks(a + b)
  {
    forall k | 0 <= k < |a + b|
      ensures '\n' !in (a + b)[k]
    {
      if k >= |a| {
        assert (a + b)[k] == b[k - |a|];
      }
    }
  }

  /** The lines of a frame built from single lines are single lines. */
  lemma FrameLinesSingle(line: RequestLine, target: string, copied: seq<string>, domain: Option<string>,
                         bodyLines: seq<string>)
    requires '\n' !in line.verb && '\n' !in target && '\n' !in line.version
    requires domain.Some? ==> '\n' !in domain.value
    requires NoLineBreaks(copied) && NoLineBreaks(bodyLines)
    ensures NoLineBreaks(FrameLines(line, target, copied, domain, bodyLines))
  {
    var body := CrlfJoin(bodyLines);
    var first := [line.verb + " " + target + " " + line.version];
    var host := if domain.Some? then ["Host: " + domain.value] else [];
    var length := if bodyLines == [] then [] else ["Content-Length: " + DecimalString(Utf8Len(body))];
    var close := ["Connection: close", ""];
    if bodyLines != [] {
      var digits := DecimalString(Utf8Len(body));
      assert '\n' !in digits by {
        assert forall m :: 0 <= m < |digits| ==> IsDigit(digits[m]);
      }
    }
    assert NoLineBreaks(first) && NoLineBreaks(host) && NoLineBreaks(length) && NoLineBreaks(close);
    NoLineBreaksAppend(first, copied);
    NoLineBreaksAppend(first + copied, host);
    NoLineBreaksAppend(first + copied + host, length);
    NoLineBreaksAppend(first + copied + host + length, close);
    NoLineBreaksAppend(first + copied + host + length + close, bodyLines);
    assert first + copied + host + length + close + bodyLines == FrameLines(line, target, copied, domain, bodyLines);
  }

  /** A frame built from single lines reads back as its lines. */
  lemma LinesOfFrame(line: RequestLine, target: string, copied: seq<string>, domain: Option<string>,
                     bodyLines: seq<string>)
    requires '\n' !in line.verb && '\n' !in target && '\n' !in line.version
    requires domain.Some? ==> '\n' !in domain.value
    requires NoLineBreaks(copied) && NoLineBreaks(bodyLines)
    ensures Lines(Frame(line, target, copied, domain, CrlfJoin(bodyLines)))
            == FrameLines(line, target, copied, domain, bodyLines)
  {
    FrameLinesSingle(line, target, copied, domain, bodyLines);
    FrameIsCrlfJoin(line, target, copied, domain, bodyLines);
    LinesOfCrlfJoin(FrameLines(line, target, copied, domain, bodyLines));
  }

  /**
   * Read back line by line, a built frame is the request line, the copied lines, `Host`
   * (only for a domain), `Content-Length` with the body's UTF-8 byte count (only for a
   * non-empty body), `Connection: close`, an empty line, then the body lines.
   */
  lemma ParsedFrameLines(request: string, parseUrl: string -> Result<Url, string>)
    requires Parsed(request, parseUrl).Ok?
    requires SingleLineUrls(parseUrl)
    ensures var ls := Lines(request);
            var h := ParsedHead(ls, parseUrl).value;
            Lines(Parsed(request, parseUrl).value.httpFrame)
            == FrameLines(h.line, RequestTarget(h.url), CopiedLines(ls, h.i), h.url.domain, BodyLines(ls, h.i))
  {
    var ls := Lines(request);
    ParsedOk(request, parseUrl);
    var h := ParsedHead(ls, parseUrl).value;
    HeadSingleLine(ls, parseUrl, h);
    LinesOfFrame(h.line, RequestTarget(h.url), CopiedLines(ls, h.i), h.url.domain, BodyLines(ls, h.i));
  }

  /** Nothing the builder takes from a parsed head or from the lines around it holds a line break. */
  lemma HeadSingleLine(ls: seq<string>, parseUrl: string -> Result<Url, string>, h: Head)
    requires NoLineBreaks(ls) && SingleLineUrls(parseUrl) && ParsedHead(ls, parseUrl) == Ok(h)
    ensures '\n' !in h.line.verb && '\n' !in h.line.version && '\n' !in RequestTarget(h.url)
    ensures h.url.domain.Some? ==> '\n' !in h.url.domain.value
    ensures NoLineBreaks(CopiedLines(ls, h.i)) && NoLineBreaks(UserHeaders(ls, h.i))
    ensures NoLineBreaks(BodyLines(ls, h.i))
  {
    SplitSpacesKeepsOut(ls[h.i], '\n');
    assert SingleLine(h.url) by {
      assert parseUrl(h.line.url).Ok?;
    }
  }

  /** The `Content-Length` value reads back as the UTF-8 byte count of the body. */
  lemma ContentLengthValue(body: string)
    requires body != []
    ensures var n := ContentLengthHeader(body)[16..|ContentLengthHeader(body)| - 2];
            AllDigits(n) && DecimalValue(n) == Utf8Len(body)
  {
    var n := DecimalString(Utf8Len(body));
    assert ContentLengthHeader(body)[16..|ContentLengthHeader(body)| - 2] == n;
    DecimalRoundTrip(Utf8Len(body));
  }

  /** The frame ends with `Connection: close`, the empty line and then exactly the body bytes. */
  lemma ParsedFrameEnd(request: string, parseUrl: string -> Result<Url, string>)
    requires Parsed(request, parseUrl).Ok?
    ensures var ls := Lines(request);
            var body := CrlfJoin(BodyLines(ls, ParsedHead(ls, parseUrl).value.i));
            var frame := Parsed(request, parseUrl).value.httpFrame;
            var tail := "Connection: close\r\n\r\n" + body;
            |tail| <= |frame| && frame[|frame| - |tail|..] == tail
  {
    var ls := Lines(request);
    var h := ParsedHead(ls, parseUrl).value;
    var body := CrlfJoin(BodyLines(ls, h.i));
    ParsedOk(request, parseUrl);
  }

  // ----------------------------------------------------------------------------------
  // Where the header section ends
  // ----------------------------------------------------------------------------------

  /**
   * The header section a server reads from the lines of a frame: the lines after the
   * request line up to the first empty line (section 2.1 of RFC 9112).
   */
  function HeaderSection(fl: seq<string>): seq<string>
    requires |fl| >= 1
  {
    fl[1..FirstEmptyFrom(fl, 1)]
  }

  /** The lines the user wrote between the request line at `i` and the first empty line. */
  function UserHeaders(ls: seq<string>, i: nat): (hs: seq<string>)
    requires i < |ls|
    ensures forall k :: 0 <= k < |hs| ==> hs[k] != []
  {
    ls[i + 1..FirstEmptyFrom(ls, i + 1)]
  }

  lemma {:induction false} FirstEmptyAfter(hs: seq<string>, rest: seq<string>, from: nat)
    requires from <= |hs|
    requires forall k :: from <= k < |hs| ==> hs[k] != []
    ensures FirstEmptyFrom(hs + [""] + rest, from) == |hs|
    decreases |hs| - from
  {
    var fl := hs + [""] + rest;
    if from < |hs| {
      assert fl[from] == hs[from];
      FirstEmptyAfter(hs, rest, from + 1);
    } else {
      assert fl[from] == "";
    }
  }

  /** Lines `first, hs..., "", rest...` have header section `hs` when no line of `hs` is empty. */
  lemma HeaderSectionOf(first: string, hs: seq<string>, rest: seq<string>)
    requires forall k :: 0 <= k < |hs| ==> hs[k] != []
    ensures HeaderSection([first] + hs + [""] + rest) == hs
  {
    var a := [first] + hs;
    assert [first] + hs + [""] + rest == a + [""] + rest;
    FirstEmptyAfter(a, rest, 1);
    assert (a + [""] + rest)[1..|a|] == hs;
  }

  /** When an empty line follows the request line, the copied lines are the user's headers and that line. */
  lemma CopiedLinesWithBlank(ls: seq<string>, i: nat)
    requires i < |ls| && FirstEmptyFrom(ls, i + 1) < |ls|
    ensures CopiedLines(ls, i) == UserHeaders(ls, i) + [""]
  {
    var e := FirstEmptyFrom(ls, i + 1);
    assert ls[i + 1..e + 1] == ls[i + 1..e] + [ls[e]];
  }

  /** The frame lines of copied lines that end with the empty line: the header section is the copied headers. */
  lemma CopiedBlankHeaderSection(line: RequestLine, target: string, hs: seq<string>, domain: Option<string>,
                                 bodyLines: seq<string>)
    requires forall k :: 0 <= k < |hs| ==> hs[k] != []
    ensures HeaderSection(FrameLines(line, target, hs + [""], domain, bodyLines)) == hs
  {
    var added := (if domain.Some? then ["Host: " + domain.value] else [])
                 + (if bodyLines == [] then [] else ["Content-Length: " + DecimalString(Utf8Len(CrlfJoin(bodyLines)))])
                 + ["Connection: close", ""]
                 + bodyLines;
    var first := line.verb + " " + target + " " + line.version;
    assert FrameLines(line, target, hs + [""], domain, bodyLines) == [first] + hs + [""] + added;
    HeaderSectionOf(first, hs, added);
  }

  /**
   * As written, the builder copies the empty line that ends the user's headers before it
   * adds `Host`, `Content-Length` and `Connection: close`: whenever the text has that empty
   * line, the header section a server reads is only what the user wrote.
   */
  lemma AsWrittenHeaderSection(request: string, parseUrl: string -> Result<Url, string>)
    requires Parsed(request, parseUrl).Ok?
    requires SingleLineUrls(parseUrl)
    requires var ls := Lines(request);
             var h := ParsedHead(ls, parseUrl).value;
             FirstEmptyFrom(ls, h.i + 1) < |ls|
    ensures var ls := Lines(request);
            var h := ParsedHead(ls, parseUrl).value;
            var fl := Lines(Parsed(request, parseUrl).value.httpFrame);
            |fl| >= 1 && HeaderSection(fl) == UserHeaders(ls, h.i)
  {
    var ls := Lines(request);
    ParsedFrameLines(request, parseUrl);
    var h := ParsedHead(ls, parseUrl).value;
    var hs := UserHeaders(ls, h.i);
    CopiedLinesWithBlank(ls, h.i);
    CopiedBlankHeaderSection(h.line, RequestTarget(h.url), hs, h.url.domain, BodyLines(ls, h.i));
  }

  /** A single request line followed by one empty line. */
  lemma LinesOfLineAndBlank(line: string)
    requires line != [] && '\n' !in line && line[|line| - 1] != '\r'
    ensures Lines(line + "\n\n") == [line, ""]
  {
    calc {
      Lines(line + "\n\n");
      { assert line + "\n\n" == line + "\n" + "\n"; }
      Lines(line + "\n" + "\n");
      { LinesCons(line, "\n"); }
      [StripCr(line)] + Lines("\n");
      { LinesOfNewline(); }
      [line, ""];
    }
  }

  /** A lone line break is one empty line. */
  lemma LinesOfNewline()
    ensures Lines("\n") == [""]
  {
    assert "\n" == [] + "\n" + [];
    LinesCons([], []);
  }

  /** The head of `<verb> <url>` followed by an empty line. */
  lemma HeadOfLineAndBlank(verb: string, url: string, parseUrl: string -> Result<Url, string>)
    requires IsToken(verb) && verb[0] != '#' && IsToken(url)
    requires parseUrl(url).Ok?
    requires var u := parseUrl(url).value; u.host.Some? && u.port.Some? && u.scheme == "http"
    ensures ParsedHead([verb + " " + url, ""], parseUrl)
            == Ok(Head(0, RequestLine(verb, url, "HTTP/1.1"), parseUrl(url).value, HTTP))
  {
    var ls := [verb + " " + url, ""];
    TwoTokenRequestLine(verb, url);
    assert !IsCommentOrBlank(ls[0]);
    assert FirstRequestLine(ls) == Some(0);
  }

  /** The frame built for `<verb> <url>` followed by an empty line. */
  lemma ParsedLineAndBlank(verb: string, url: string, parseUrl: string -> Result<Url, string>)
    requires IsToken(verb) && verb[0] != '#' && IsToken(url)
    requires '\n' !in verb && '\n' !in url && url[|url| - 1] != '\r'
    requires parseUrl(url).Ok?
    requires var u := parseUrl(url).value; u.host.Some? && u.port.Some? && u.scheme == "http"
    ensures Parsed(verb + " " + url + "\n\n", parseUrl).Ok?
    ensures var u := parseUrl(url).value;
            Parsed(verb + " " + url + "\n\n", parseUrl).value.httpFrame
            == Frame(RequestLine(verb, url, "HTTP/1.1"), RequestTarget(u), [""], u.domain, CrlfJoin([]))
  {
    var ls := [verb + " " + url, ""];
    assert Lines(verb + " " + url + "\n\n") == ls by {
      assert '\n' !in verb + " " + url;
      assert verb + " " + url + "\n\n" == (verb + " " + url) + "\n\n";
      LinesOfLineAndBlank(verb + " " + url);
    }
    HeadOfLineAndBlank(verb, url, parseUrl);
    assert CopiedLines(ls, 0) == [""] && BodyLines(ls, 0) == [] by {
      assert FirstEmptyFrom(ls, 1) == 1;
    }
  }

  lemma FrameOfBlankLine(line: RequestLine, target: string, domain: string)
    ensures Frame(line, target, [""], Some(domain), CrlfJoin([]))
            == line.verb + " " + target + " " + line.version + "\r\n" + "\r\n"
               + "Host: " + domain + "\r\n" + "Connection: close\r\n" + "\r\n"
  {
    CrlfJoinOne("");
  }

  /**
   * A request line and an empty line, with no header and no body: the `Host` header comes
   * after the empty line, so the header section a server reads is empty.
   */
  lemma HostAfterBlankLine(verb: string, url: string, parseUrl: string -> Result<Url, string>)
    requires IsToken(verb) && verb[0] != '#' && IsToken(url)
    requires '\n' !in verb && '\n' !in url && url[|url| - 1] != '\r'
    requires parseUrl(url).Ok?
    requires var u := parseUrl(url).value;
             u.host.Some? && u.port.Some? && u.domain.Some? && u.scheme == "http" && SingleLine(u)
    ensures Parsed(verb + " " + url + "\n\n", parseUrl).Ok?
    ensures var u := parseUrl(url).value;
            Parsed(verb + " " + url + "\n\n", parseUrl).value.httpFrame
            == verb + " " + RequestTarget(u) + " " + "HTTP/1.1" + "\r\n" + "\r\n"
               + "Host: " + u.domain.value + "\r\n" + "Connection: close\r\n" + "\r\n"
    ensures HeaderSection(Lines(Parsed(verb + " " + url + "\n\n", parseUrl).value.httpFrame)) == []
  {
    var u := parseUrl(url).value;
    var line := RequestLine(verb, url, "HTTP/1.1");
    var target := RequestTarget(u);
    assert '\n' !in target && '\n' !in line.version;
    BlankLineHeaderSection(line, target, u.domain);
    FrameOfBlankLine(line, target, u.domain.value);
    ParsedLineAndBlank(verb, url, parseUrl);
  }

  /** A frame whose only copied line is the empty one has an empty header section. */
  lemma BlankLineHeaderSection(line: RequestLine, target: string, domain: Option<string>)
    requires '\n' !in line.verb && '\n' !in target && '\n' !in line.version
    requires domain.Some? ==> '\n' !in domain.value
    ensures HeaderSection(Lines(Frame(line, target, [""], domain, CrlfJoin([])))) == []
  {
    assert NoLineBreaks([""]) && NoLineBreaks([]);
    LinesOfFrame(line, target, [""], domain, []);
    var none: seq<string> := [];
    assert none + [""] == [""];
    CopiedBlankHeaderSection(line, target, none, domain, []);
  }

  // ----------------------------------------------------------------------------------
  // The builder as evidently intended: the empty line ends the added headers
  // ----------------------------------------------------------------------------------

  /**
   * The builder with the user's empty line left out of the copied lines, so that `Host`,
   * `Content-Length` and `Connection: close` stay inside the header section; every error
   * case is that of `Parsed`.
   */
  function IntendedParsed(request: string, parseUrl: string -> Result<Url, string>): Result<HttpRequest, string> {
    var ls := Lines(request);
    match ParsedHead(ls, parseUrl)
    case Err(e) => Err(e)
    case Ok(h) =>
      Ok(HttpRequest(h.scheme, h.url.host.value, h.url.port.value,
                     Frame(h.line, RequestTarget(h.url), UserHeaders(ls, h.i), h.url.domain,
                           CrlfJoin(BodyLines(ls, h.i)))))
  }

  /** The headers the builder adds after the user's: `Host`, `Content-Length`, `Connection`. */
  function AddedHeaders(domain: Option<string>, bodyLines: seq<string>): (hs: seq<string>)
    ensures forall k :: 0 <= k < |hs| ==> hs[k] != []
  {
    (if domain.Some? then ["Host: " + domain.value] else [])
    + (if bodyLines == [] then [] else ["Content-Length: " + DecimalString(Utf8Len(CrlfJoin(bodyLines)))])
    + ["Connection: close"]
  }

  /** Frame lines whose copied lines hold no empty line: every added header is in the header section. */
  lemma HeadersThenBlank(line: RequestLine, target: string, hs: seq<string>, domain: Option<string>,
                         bodyLines: seq<string>)
    requires forall k :: 0 <= k < |hs| ==> hs[k] != []
    ensures var fl := FrameLines(line, target, hs, domain, bodyLines);
            var section := hs + AddedHeaders(domain, bodyLines);
            fl == [line.verb + " " + target + " " + line.version] + section + [""] + bodyLines
            && HeaderSection(fl) == section
  {
    var first := line.verb + " " + target + " " + line.version;
    var section := hs + AddedHeaders(domain, bodyLines);
    assert forall k :: 0 <= k < |section| ==> section[k] != [] by {
      forall k | 0 <= k < |section|
        ensures section[k] != []
      {
        if k >= |hs| {
          assert section[k] == AddedHeaders(domain, bodyLines)[k - |hs|];
        }
      }
    }
    assert FrameLines(line, target, hs, domain, bodyLines) == [first] + section + [""] + bodyLines;
    HeaderSectionOf(first, section, bodyLines);
  }

  /** A frame of single lines whose copied lines hold no empty line, read back line by line. */
  lemma LinesOfIntendedFrame(line: RequestLine, target: string, hs: seq<string>, domain: Option<string>,
                             bodyLines: seq<string>)
    requires '\n' !in line.verb && '\n' !in target && '\n' !in line.version
    requires domain.Some? ==> '\n' !in domain.value
    requires NoLineBreaks(hs) && NoLineBreaks(bodyLines)
    requires forall k :: 0 <= k < |hs| ==> hs[k] != []
    ensures var fl := Lines(Frame(line, target, hs, domain, CrlfJoin(bodyLines)));
            var section := hs + AddedHeaders(domain, bodyLines);
            fl == [line.verb + " " + target + " " + line.version] + section + [""] + bodyLines
            && HeaderSection(fl) == section
  {
    LinesOfFrame(line, target, hs, domain, bodyLines);
    HeadersThenBlank(line, target, hs, domain, bodyLines);
  }

  lemma IntendedOk(request: string, parseUrl: string -> Result<Url, string>)
    requires IntendedParsed(request, parseUrl).Ok?
    ensures var ls := Lines(request);
            ParsedHead(ls, parseUrl).Ok?
            && var h := ParsedHead(ls, parseUrl).value;
               IntendedParsed(request, parseUrl).value.httpFrame
               == Frame(h.line, RequestTarget(h.url), UserHeaders(ls, h.i), h.url.domain, CrlfJoin(BodyLines(ls, h.i)))
  {
  }

  /**
   * With the empty line left out of the copied lines, a server reads the user's headers,
   * `Host` (for a domain), `Content-Length` (for a body) and `Connection: close` as the
   * header section, followed by the empty line and exactly the body lines.
   */
  lemma IntendedHeaderSection(request: string, parseUrl: string -> Result<Url, string>)
    requires IntendedParsed(request, parseUrl).Ok?
    requires SingleLineUrls(parseUrl)
    ensures var ls := Lines(request);
            ParsedHead(ls, parseUrl).Ok?
            && var h := ParsedHead(ls, parseUrl).value;
               var fl := Lines(IntendedParsed(request, parseUrl).value.httpFrame);
               var section := UserHeaders(ls, h.i) + AddedHeaders(h.url.domain, BodyLines(ls, h.i));
               fl == [h.line.verb + " " + RequestTarget(h.url) + " " + h.line.version] + section + [""] + BodyLines(ls, h.i)
               && HeaderSection(fl) == section
  {
    var ls := Lines(request);
    IntendedOk(request, parseUrl);
    var h := ParsedHead(ls, parseUrl).value;
    HeadSingleLine(ls, parseUrl, h);
    LinesOfIntendedFrame(h.line, RequestTarget(h.url), UserHeaders(ls, h.i), h.url.domain, BodyLines(ls, h.i));
  }

  /** Without an empty line after the request line, the builder as written is the intended one. */
  lemma IntendedAgreesWithoutBlank(request: string, parseUrl: string -> Result<Url, string>)
    requires var ls := Lines(request);
             ParsedHead(ls, parseUrl).Ok? ==> FirstEmptyFrom(ls, ParsedHead(ls, parseUrl).value.i + 1) == |ls|
    ensures IntendedParsed(request, parseUrl) == Parsed(request, parseUrl)
  {
    var ls := Lines(request);
    if ParsedHead(ls, parseUrl).Ok? {
      var h := ParsedHead(ls, parseUrl).value;
      assert CopyEnd(ls, h.i + 1) == FirstEmptyFrom(ls, h.i + 1);
      assert CopiedLines(ls, h.i) == UserHeaders(ls, h.i);
      var body := CrlfJoin(BodyLines(ls, h.i));
      assert Frame(h.line, RequestTarget(h.url), CopiedLines(ls, h.i), h.url.domain, body)
             == Frame(h.line, RequestTarget(h.url), UserHeaders(ls, h.i), h.url.domain, body);
    }
  }
}
