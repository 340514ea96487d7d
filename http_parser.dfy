/**
 * The request parser of `src/helpers/httpparser.rs`: the comment lines above the request
 * line set the certificate check and the capture name, the request line gives verb and URL,
 * the header lines fill a map, and everything is copied into the HTTP frame with CRLF line
 * ends. `obfuscate` masks the secrets of an environment in that frame.
 */
module HttpParser {
  import opened Wrappers
  import opened Text
  import opened RequestSyntax
  import opened Directives

  /** `RustamanError::RequestParsingError`, the only error the parser returns. */
  datatype ParseError = RequestParsingError(msg: string)

  /**
   * A parsed request. `verb` is the method as written (a valid method token), `headers`
   * maps each header name to the text after its first `:`, untrimmed.
   */
  datatype HttpRequest = HttpRequest(
    verb: string,
    url: string,
    body: Option<string>,
    headers: map<string, string>,
    httpFrame: string,
    verifyCert: bool,
    capture: Option<string>)

  // ----------------------------------------------------------------------------------
  // Directives in the comment lines above the request line
  // ----------------------------------------------------------------------------------

  /** What one comment line above the request line says, in the order the parser tries them. */
  datatype Directive = AuthorityDirective | CaptureDirective(name: string) | InsecureDirective | PlainComment

  /**
   * The directive a comment line carries: an authority directive is recognised first, then
   * a capture directive, then the insecure flag.
   */
  function Classify(line: string): (d: Directive)
    ensures !ExtractAuthorityAsWritten(line).PortOverflowPanic? ==>
              (d == AuthorityDirective <==> ExtractAuthorityAsWritten(line).Authority?)
    ensures d.CaptureDirective? <==> FindAuthority(line).None? && ExtractCaptureName(line).Some?
    ensures d.CaptureDirective? ==> ExtractCaptureName(line) == Some(d.name)
    ensures d == InsecureDirective <==>
              FindAuthority(line).None? && ExtractCaptureName(line).None? && ExtractInsecureFlag(line)
  {
    if FindAuthority(line).Some? then AuthorityDirective
    else match ExtractCaptureName(line)
      case Some(name) => CaptureDirective(name)
      case None => if ExtractInsecureFlag(line) then InsecureDirective else PlainComment
  }

  /** The directives of the lines, in order. */
  function Classified(ls: seq<string>): (ds: seq<Directive>)
    ensures |ds| == |ls|
    ensures forall k :: 0 <= k < |ls| ==> ds[k] == Classify(ls[k])
  {
    if ls == [] then [] else Classified(ls[..|ls| - 1]) + [Classify(ls[|ls| - 1])]
  }

  /** What the comment lines read so far have set. */
  datatype Settings = Settings(verifyCert: bool, capture: Option<string>)

  /** One directive's effect: the authority is discarded, a capture is named, or the check is dropped. */
  function ApplyDirective(st: Settings, d: Directive): Settings {
    match d
    case CaptureDirective(name) => st.(capture := Some(name))
    case InsecureDirective => st.(verifyCert := false)
    case _ => st
  }

  /** The settings after the directives `ds`, starting from a checked certificate and no capture. */
  function SettingsOf(ds: seq<Directive>): Settings {
    if ds == [] then Settings(true, None) else ApplyDirective(SettingsOf(ds[..|ds| - 1]), ds[|ds| - 1])
  }

  /** Certificates are checked exactly when no line carries the insecure flag (and nothing stronger). */
  lemma {:induction false} VerifyCertUnlessInsecure(ds: seq<Directive>)
    ensures SettingsOf(ds).verifyCert <==> InsecureDirective !in ds
  {
    if ds != [] {
      var init := ds[..|ds| - 1];
      VerifyCertUnlessInsecure(init);
      assert ds == init + [ds[|ds| - 1]];
    }
  }

  /**
   * The capture is unset exactly when no line is a capture directive, and otherwise it is
   * the name the last capture directive gives.
   */
  lemma {:induction false} CaptureIsLastDirective(ds: seq<Directive>)
    ensures SettingsOf(ds).capture.None? <==> forall k :: 0 <= k < |ds| ==> !ds[k].CaptureDirective?
    ensures forall k :: 0 <= k < |ds| && ds[k].CaptureDirective?
              && (forall k' :: k < k' < |ds| ==> !ds[k'].CaptureDirective?)
              ==> SettingsOf(ds).capture == Some(ds[k].name)
  {
    if ds != [] {
      var n := |ds| - 1;
      var init := ds[..n];
      var d := ds[n];
      CaptureIsLastDirective(init);
      assert SettingsOf(ds) == ApplyDirective(SettingsOf(init), d);
      assert forall k :: 0 <= k < n ==> init[k] == ds[k];
      if d.CaptureDirective? {
        assert SettingsOf(ds).capture == Some(d.name);
      } else {
        assert SettingsOf(ds).capture == SettingsOf(init).capture;
        forall k | 0 <= k < |ds| && ds[k].CaptureDirective?
                   && (forall k' :: k < k' < |ds| ==> !ds[k'].CaptureDirective?)
          ensures SettingsOf(ds).capture == Some(ds[k].name)
        {
          assert k < n;
          assert init[k].CaptureDirective?;
        }
      }
    }
  }

  // ----------------------------------------------------------------------------------
  // Header lines
  // ----------------------------------------------------------------------------------

  /** A line the header loop accepts: non-empty and holding a `:`. */
  predicate IsHeaderLine(line: string) {
    line != [] && ':' in line
  }

  predicate AllHeaderLines(hs: seq<string>) {
    forall k :: 0 <= k < |hs| ==> IsHeaderLine(hs[k])
  }

  /** `split_once(':')`: the name before the first `:` and the value after it. */
  function HeaderField(line: string): (f: (string, string))
    requires ':' in line
    ensures line == f.0 + ":" + f.1 && ':' !in f.0
  {
    SplitOnce(line, ':').value
  }

  /** The name and value of each header line, in order. */
  function Fields(hs: seq<string>): (fs: seq<(string, string)>)
    requires AllHeaderLines(hs)
    ensures |fs| == |hs|
    ensures forall k :: 0 <= k < |hs| ==> fs[k] == HeaderField(hs[k])
  {
    if hs == [] then [] else Fields(hs[..|hs| - 1]) + [HeaderField(hs[|hs| - 1])]
  }

  /** The map that inserting the pairs in order builds. */
  function MapOf(fs: seq<(string, string)>): map<string, string> {
    if fs == [] then map[] else MapOf(fs[..|fs| - 1])[fs[|fs| - 1].0 := fs[|fs| - 1].1]
  }

  /** The map the header loop fills: every line inserted in order, so later lines win. */
  function HeaderMap(hs: seq<string>): map<string, string>
    requires AllHeaderLines(hs)
  {
    MapOf(Fields(hs))
  }

  /** Inserting pairs in order: a name is present when some pair gives it, with the last pair's value. */
  lemma {:induction false} MapOfLastWins(fs: seq<(string, string)>, key: string)
    ensures key in MapOf(fs) <==> exists k :: 0 <= k < |fs| && fs[k].0 == key
    ensures forall k :: 0 <= k < |fs| && fs[k].0 == key && (forall k' :: k < k' < |fs| ==> fs[k'].0 != key)
              ==> key in MapOf(fs) && MapOf(fs)[key] == fs[k].1
    decreases |fs|
  {
    if fs != [] {
      var n := |fs| - 1;
      var init := fs[..n];
      var f := fs[n];
      MapOfLastWins(init, key);
      assert MapOf(fs) == MapOf(init)[f.0 := f.1];
      assert forall k :: 0 <= k < n ==> init[k] == fs[k];
      if f.0 != key {
        assert key in MapOf(fs) <==> key in MapOf(init);
        forall k | 0 <= k < |fs| && fs[k].0 == key && (forall k' :: k < k' < |fs| ==> fs[k'].0 != key)
          ensures key in MapOf(fs) && MapOf(fs)[key] == fs[k].1
        {
          assert k < n;
          assert init[k].0 == key;
        }
      }
    }
  }

  /**
   * A name is in the header map exactly when some header line gives it, and its value is
   * the one of the last line that gives it.
   */
  lemma HeaderMapLastWins(hs: seq<string>, key: string)
    requires AllHeaderLines(hs)
    ensures key in HeaderMap(hs) <==> exists k :: 0 <= k < |hs| && HeaderField(hs[k]).0 == key
    ensures forall k :: 0 <= k < |hs| && HeaderField(hs[k]).0 == key
              && (forall k' :: k < k' < |hs| ==> HeaderField(hs[k']).0 != key)
              ==> key in HeaderMap(hs) && HeaderMap(hs)[key] == HeaderField(hs[k]).1
  {
    MapOfLastWins(Fields(hs), key);
  }

  /** Index of the first line at or after `from` that ends the header loop, or `|ls|`. */
  function HeaderEnd(ls: seq<string>, from: nat): (e: nat)
    requires from <= |ls|
    ensures from <= e <= |ls|
    ensures forall k :: from <= k < e ==> IsHeaderLine(ls[k])
    ensures e < |ls| ==> !IsHeaderLine(ls[e])
    decreases |ls| - from
  {
    if from == |ls| || !IsHeaderLine(ls[from]) then from else HeaderEnd(ls, from + 1)
  }

  /** The body starts after the line that ended the header loop, which the loop consumed. */
  function BodyStart(ls: seq<string>, from: nat): (b: nat)
    requires from <= |ls|
  {
    var e := HeaderEnd(ls, from);
    if e < |ls| then e + 1 else e
  }

  // ----------------------------------------------------------------------------------
  // parse_request
  // ----------------------------------------------------------------------------------

  /** A `tchar` of section 5.6.2 of RFC 9110, the characters a method token is made of. */
  predicate IsTchar(c: char) {
    ('a' <= c <= 'z') || ('A' <= c <= 'Z') || ('0' <= c <= '9') || c in "!#$%&'*+-.^_`|~"
  }

  /** What `Method::from_str` accepts: a non-empty token. */
  predicate IsMethodToken(s: string) {
    s != [] && forall k :: 0 <= k < |s| ==> IsTchar(s[k])
  }

  /**
   * The parser unwraps `Method::from_str` on the verb: a request whose request line splits
   * into two or three parts must have a valid method as its first part.
   */
  predicate VerbIsMethod(request: string) {
    var ls := Lines(request);
    var i := FirstRequestLine(ls);
    i.Some? && SplitRequestLine(ls[i.value]).Some? ==> IsMethodToken(SplitRequestLine(ls[i.value]).value.verb)
  }

  /** Index of the request line, or the number of lines when there is none. */
  function ScanEnd(ls: seq<string>): (e: nat)
    ensures e <= |ls|
    ensures e < |ls| <==> FirstRequestLine(ls).Some?
  {
    match FirstRequestLine(ls)
    case None => |ls|
    case Some(i) => i
  }

  /**
   * `extract_authority_from_directive` unwraps the port it matched: a comment line above the
   * request line whose authority port exceeds 65535 aborts the parser.
   */
  predicate NoPortOverflow(ls: seq<string>) {
    forall k :: 0 <= k < ScanEnd(ls) ==> !ExtractAuthorityAsWritten(ls[k]).PortOverflowPanic?
  }

  /** The frame as pushed: the request line, the header lines, an empty line, the body lines. */
  function ParsedFrame(line: string, hs: seq<string>, bodyLines: seq<string>): string {
    line + "\r\n" + CrlfJoin(hs) + "\r\n" + CrlfJoin(bodyLines)
  }

  /** The header lines after the request line at `i`. */
  function HeaderLines(ls: seq<string>, i: nat): (hs: seq<string>)
    requires i < |ls|
    ensures AllHeaderLines(hs)
  {
    ls[i + 1..HeaderEnd(ls, i + 1)]
  }

  /** The body lines: everything after the line that ended the header loop. */
  function BodyLines(ls: seq<string>, i: nat): seq<string>
    requires i < |ls|
  {
    ls[BodyStart(ls, i + 1)..]
  }

  /** The request built from the lines around the request line at `i`, split as `rl`. */
  function Assemble(ls: seq<string>, i: nat, rl: RequestLine): HttpRequest
    requires i < |ls|
  {
    var hs := HeaderLines(ls, i);
    var bodyLines := BodyLines(ls, i);
    var st := SettingsOf(Classified(ls[..i]));
    HttpRequest(rl.verb, rl.url,
                if bodyLines == [] then None else Some(CrlfJoin(bodyLines)),
                HeaderMap(hs), ParsedFrame(ls[i], hs, bodyLines), st.verifyCert, st.capture)
  }

  /** What `parse_request` returns for a request text. */
  function Parsed(request: string): Result<HttpRequest, ParseError> {
    var ls := Lines(request);
    match FirstRequestLine(ls)
    case None => Err(RequestParsingError("No request found"))
    case Some(i) =>
      match SplitRequestLine(ls[i])
      case None => Err(RequestParsingError("Parse error on line: " + ls[i]))
      case Some(rl) => Ok(Assemble(ls, i, rl))
  }

  /**
   * The first loop of `parse_request`: passes over empty and comment lines, applying the
   * directives they carry, and stops at the request line.
   */
  method ScanDirectives(lines: seq<string>) returns (i: nat, verifyCert: bool, capture: Option<string>)
    requires NoPortOverflow(lines)
    ensures i <= |lines|
    ensures i == |lines| <==> FirstRequestLine(lines).None?
    ensures i < |lines| ==> FirstRequestLine(lines) == Some(i)
    ensures Settings(verifyCert, capture) == SettingsOf(Classified(lines[..i]))
  {
    verifyCert := true;
    capture := None;
    i := 0;
    while i < |lines| && IsCommentOrBlank(lines[i])
      invariant i <= |lines|
      invariant FirstRequestLine(lines) == FirstRequestLineFrom(lines, i)
      invariant Settings(verifyCert, capture) == SettingsOf(Classified(lines[..i]))
    {
      var line := lines[i];
      DirectiveStep(lines, i);
      NoPanicAbove(lines, i);
      if ExtractAuthorityAsWritten(line).Authority? {
      } else if ExtractCaptureName(line).Some? {
        capture := ExtractCaptureName(line);
      } else if ExtractInsecureFlag(line) {
        verifyCert := false;
      }
      i := i + 1;
    }
  }

  /** A comment line the first loop reaches does not abort it. */
  lemma NoPanicAbove(lines: seq<string>, i: nat)
    requires NoPortOverflow(lines)
    requires i < |lines| && IsCommentOrBlank(lines[i])
    requires FirstRequestLine(lines) == FirstRequestLineFrom(lines, i)
    ensures !ExtractAuthorityAsWritten(lines[i]).PortOverflowPanic?
  {
    assert i < ScanEnd(lines);
  }

  /** One more comment line applies its directive to the settings. */
  lemma DirectiveStep(lines: seq<string>, i: nat)
    requires i < |lines|
    ensures SettingsOf(Classified(lines[..i + 1]))
            == ApplyDirective(SettingsOf(Classified(lines[..i])), Classify(lines[i]))
  {
    assert lines[..i + 1][..i] == lines[..i];
    assert Classified(lines[..i + 1]) == Classified(lines[..i]) + [Classify(lines[i])];
  }

  /** One more header line adds its field to the map and its text to the frame. */
  lemma HeaderStep(lines: seq<string>, from: nat, j: nat)
    requires from <= j < |lines|
    requires AllHeaderLines(lines[from..j]) && IsHeaderLine(lines[j])
    ensures AllHeaderLines(lines[from..j + 1])
    ensures HeaderMap(lines[from..j + 1])
            == HeaderMap(lines[from..j])[HeaderField(lines[j]).0 := HeaderField(lines[j]).1]
    ensures CrlfJoin(lines[from..j + 1]) == CrlfJoin(lines[from..j]) + lines[j] + "\r\n"
  {
    assert lines[from..j + 1] == lines[from..j] + [lines[j]];
    HeaderSnoc(lines[from..j], lines[j]);
  }

  /** A header line after others: its field is inserted last and its text appended. */
  lemma HeaderSnoc(hs: seq<string>, h: string)
    requires AllHeaderLines(hs) && IsHeaderLine(h)
    ensures AllHeaderLines(hs + [h])
    ensures HeaderMap(hs + [h]) == HeaderMap(hs)[HeaderField(h).0 := HeaderField(h).1]
    ensures CrlfJoin(hs + [h]) == CrlfJoin(hs) + h + "\r\n"
  {
    var hs' := hs + [h];
    assert hs'[..|hs'| - 1] == hs;
    assert hs'[|hs'| - 1] == h;
    var fs := Fields(hs');
    assert fs == Fields(hs) + [HeaderField(h)];
    assert fs[..|fs| - 1] == Fields(hs);
  }

  /** The header loop's invariant after `j` lines, `headers` and `frame` being what it built. */
  predicate HeadersSoFar(lines: seq<string>, from: nat, j: nat, frame0: string,
                         headers: map<string, string>, frame: string)
  {
    from <= j <= |lines|
    && HeaderEnd(lines, from) == HeaderEnd(lines, j)
    && AllHeaderLines(lines[from..j])
    && headers == HeaderMap(lines[from..j])
    && frame == frame0 + CrlfJoin(lines[from..j])
  }

  /** A header line at `j`, split at its first `:`, keeps the header loop's invariant. */
  lemma HeadersSoFarStep(lines: seq<string>, from: nat, j: nat, frame0: string,
                         headers: map<string, string>, frame: string, field: (string, string))
    requires HeadersSoFar(lines, from, j, frame0, headers, frame)
    requires j < |lines| && lines[j] != [] && SplitOnce(lines[j], ':') == Some(field)
    ensures HeadersSoFar(lines, from, j + 1, frame0, headers[field.0 := field.1],
                         frame + lines[j] + "\r\n")
  {
    assert IsHeaderLine(lines[j]) && HeaderField(lines[j]) == field;
    HeaderStep(lines, from, j);
    assert HeaderEnd(lines, j) == HeaderEnd(lines, j + 1);
    AppendLine(frame0, CrlfJoin(lines[from..j]), lines[j]);
  }

  /** The header loop stops at the end or at a line that is not a header: the header section ends there. */
  lemma HeadersSoFarDone(lines: seq<string>, from: nat, j: nat, frame0: string,
                         headers: map<string, string>, frame: string)
    requires HeadersSoFar(lines, from, j, frame0, headers, frame)
    requires j == |lines| || !IsHeaderLine(lines[j])
    ensures HeaderEnd(lines, from) == j
    ensures headers == HeaderMap(lines[from..HeaderEnd(lines, from)])
    ensures frame == frame0 + CrlfJoin(lines[from..HeaderEnd(lines, from)])
  {
    assert HeaderEnd(lines, j) == j;
  }

  /**
   * The second loop: copies header lines into the frame and the map until an empty line,
   * a line without `:`, or the end; the line that stops it is consumed.
   */
  method CollectHeaders(lines: seq<string>, from: nat, frame0: string)
    returns (headers: map<string, string>, frame: string, next: nat)
    requires from <= |lines|
    ensures headers == HeaderMap(lines[from..HeaderEnd(lines, from)])
    ensures frame == frame0 + CrlfJoin(lines[from..HeaderEnd(lines, from)])
    ensures next == BodyStart(lines, from)
  {
    frame := frame0;
    headers := map[];
    var j := from;
    while j < |lines|
      invariant HeadersSoFar(lines, from, j, frame0, headers, frame)
    {
      if lines[j] == [] {
        break;
      }
      var header := SplitOnce(lines[j], ':');
      if header.None? {
        break;
      }
      HeadersSoFarStep(lines, from, j, frame0, headers, frame, header.value);
      headers := headers[header.value.0 := header.value.1];
      frame := frame + lines[j] + "\r\n";
      j := j + 1;
    }
    HeadersSoFarDone(lines, from, j, frame0, headers, frame);
    next := if j < |lines| then j + 1 else j;
  }

  /** The third loop: every remaining line goes into the body and the frame. */
  method CollectBody(lines: seq<string>, from: nat, frame0: string) returns (body: string, frame: string)
    requires from <= |lines|
    ensures body == CrlfJoin(lines[from..])
    ensures frame == frame0 + body
  {
    body := "";
    frame := frame0;
    var b := from;
    while b < |lines|
      invariant from <= b <= |lines|
      invariant body == CrlfJoin(lines[from..b])
      invariant frame == frame0 + body
    {
      assert lines[from..b + 1][..b - from] == lines[from..b];
      body := body + lines[b];
      body := body + "\r\n";
      frame := frame + lines[b];
      frame := frame + "\r\n";
      b := b + 1;
    }
    assert lines[from..] == lines[from..b];
  }

  /** `parse_request`: directives, request line, headers, body. */
  method ParseRequest(request: string) returns (r: Result<HttpRequest, ParseError>)
    requires VerbIsMethod(request) && NoPortOverflow(Lines(request))
    ensures r == Parsed(request)
  {
    var lines := Lines(request);
    var i, verifyCert, capture := ScanDirectives(lines);
    if i == |lines| {
      return Err(RequestParsingError("No request found"));
    }

    var parts := SplitSpaces(lines[i]);
    var verb, url;
    if |parts| == 2 {
      verb, url := parts[0], parts[1];
    } else if |parts| == 3 {
      verb, url := parts[0], parts[1];
    } else {
      return Err(RequestParsingError("Parse error on line: " + lines[i]));
    }

    var frame := lines[i] + "\r\n";
    var headers, next;
    headers, frame, next := CollectHeaders(lines, i + 1, frame);
    frame := frame + "\r\n";
    var body;
    body, frame := CollectBody(lines, next, frame);
    CrlfJoinEmpty(lines[next..]);
    return Ok(HttpRequest(verb, url, if body == [] then None else Some(body), headers, frame,
                          verifyCert, capture));
  }

  // ----------------------------------------------------------------------------------
  // Properties of the parser
  // ----------------------------------------------------------------------------------

  /** A text of comments and empty lines only is rejected with "No request found". */
  lemma NoRequestFound(request: string)
    requires forall k :: 0 <= k < |Lines(request)| ==> IsCommentOrBlank(Lines(request)[k])
    ensures Parsed(request) == Err(RequestParsingError("No request found"))
  {
  }

  /** A request line that does not split into two or three parts is reported with its text. */
  lemma ParseErrorOnLine(request: string, i: nat)
    requires FirstRequestLine(Lines(request)) == Some(i)
    requires |SplitSpaces(Lines(request)[i])| != 2 && |SplitSpaces(Lines(request)[i])| != 3
    ensures Parsed(request) == Err(RequestParsingError("Parse error on line: " + Lines(request)[i]))
  {
  }

  /** A successful parse is the request assembled around the first non-comment line. */
  lemma ParsedOk(request: string)
    requires Parsed(request).Ok?
    ensures var ls := Lines(request);
            FirstRequestLine(ls).Some?
            && SplitRequestLine(ls[FirstRequestLine(ls).value]).Some?
            && Parsed(request).value
               == Assemble(ls, FirstRequestLine(ls).value, SplitRequestLine(ls[FirstRequestLine(ls).value]).value)
  {
  }

  /** The frame is its lines, each followed by CRLF, with one empty line after the headers. */
  lemma ParsedFrameIsCrlfJoin(line: string, hs: seq<string>, bodyLines: seq<string>)
    ensures ParsedFrame(line, hs, bodyLines) == CrlfJoin([line] + hs + [""] + bodyLines)
  {
    calc {
      CrlfJoin([line] + hs + [""] + bodyLines);
      { CrlfJoinAppend([line] + hs + [""], bodyLines); }
      CrlfJoin([line] + hs + [""]) + CrlfJoin(bodyLines);
      { assert [""][..0] == [];
        CrlfJoinAppend([line] + hs, [""]); }
      CrlfJoin([line] + hs) + "\r\n" + CrlfJoin(bodyLines);
      { CrlfJoinCons(line, hs); }
      line + "\r\n" + CrlfJoin(hs) + "\r\n" + CrlfJoin(bodyLines);
    }
  }

  /** The frame reads back as the request line, the header lines, an empty line and the body lines. */
  lemma LinesOfParsedFrame(line: string, hs: seq<string>, bodyLines: seq<string>)
    requires '\n' !in line && NoLineBreaks(hs) && NoLineBreaks(bodyLines)
    ensures Lines(ParsedFrame(line, hs, bodyLines)) == [line] + hs + [""] + bodyLines
  {
    var fl := [line] + hs + [""] + bodyLines;
    assert NoLineBreaks(fl) by {
      forall k | 0 <= k < |fl|
        ensures '\n' !in fl[k]
      {
        if 1 <= k <= |hs| {
          assert fl[k] == hs[k - 1];
        } else if k > |hs| + 1 {
          assert fl[k] == bodyLines[k - |hs| - 2];
        }
      }
    }
    ParsedFrameIsCrlfJoin(line, hs, bodyLines);
    LinesOfCrlfJoin(fl);
  }

  /**
   * The parts of an assembled request: the frame reads back as the request line, the header
   * lines, an empty line and the body lines; the body is absent exactly when there are no
   * body lines and otherwise reads back as them.
   */
  lemma AssembledParts(ls: seq<string>, i: nat, rl: RequestLine)
    requires i < |ls| && NoLineBreaks(ls)
    ensures var r := Assemble(ls, i, rl);
            Lines(r.httpFrame) == [ls[i]] + HeaderLines(ls, i) + [""] + BodyLines(ls, i)
            && (r.body.None? <==> BodyLines(ls, i) == [])
            && (r.body.Some? ==> Lines(r.body.value) == BodyLines(ls, i))
  {
    var hs := HeaderLines(ls, i);
    var bodyLines := BodyLines(ls, i);
    assert NoLineBreaks(hs) by {
      assert forall k :: 0 <= k < |hs| ==> hs[k] == ls[i + 1 + k];
    }
    assert NoLineBreaks(bodyLines) by {
      assert forall k :: 0 <= k < |bodyLines| ==> bodyLines[k] == ls[BodyStart(ls, i + 1) + k];
    }
    LinesOfParsedFrame(ls[i], hs, bodyLines);
    LinesOfCrlfJoin(bodyLines);
  }

  /**
   * Read back line by line, the frame of a parsed request is its request line, its header
   * lines, an empty line and its body lines.
   */
  lemma ParsedFrameLines(request: string)
    requires Parsed(request).Ok?
    ensures var ls := Lines(request);
            var i := FirstRequestLine(ls).value;
            Lines(Parsed(request).value.httpFrame) == [ls[i]] + HeaderLines(ls, i) + [""] + BodyLines(ls, i)
  {
    ParsedOk(request);
    AssembledParts(Lines(request), FirstRequestLine(Lines(request)).value,
                   SplitRequestLine(Lines(request)[FirstRequestLine(Lines(request)).value]).value);
  }

  /**
   * The line that stops the header loop without being empty (a line with no `:`) reaches
   * neither the headers nor the body: the frame reads back without it.
   */
  lemma NonHeaderLineDropped(ls: seq<string>, i: nat, rl: RequestLine)
    requires i < |ls| && NoLineBreaks(ls)
    requires HeaderEnd(ls, i + 1) < |ls|
    ensures var e := HeaderEnd(ls, i + 1);
            Lines(Assemble(ls, i, rl).httpFrame) == ls[i..e] + [""] + ls[e + 1..]
  {
    AssembledParts(ls, i, rl);
    DroppedLineParts(ls, i);
  }

  /** The lines around a stopping line that is not empty: the header lines end just before it. */
  lemma DroppedLineParts(ls: seq<string>, i: nat)
    requires i < |ls| && HeaderEnd(ls, i + 1) < |ls|
    ensures var e := HeaderEnd(ls, i + 1);
            [ls[i]] + HeaderLines(ls, i) + [""] + BodyLines(ls, i) == ls[i..e] + [""] + ls[e + 1..]
  {
    var e := HeaderEnd(ls, i + 1);
    assert HeaderLines(ls, i) == ls[i + 1..e];
    assert BodyLines(ls, i) == ls[e + 1..];
    LineThenRest(ls, i, e);
  }

  /** A line followed by the lines after it up to `e`. */
  lemma LineThenRest(ls: seq<string>, i: nat, e: nat)
    requires i < e <= |ls|
    ensures [ls[i]] + ls[i + 1..e] == ls[i..e]
  {
  }

  /** `HeaderEnd` of header lines followed by a non-header line is that line. */
  lemma {:induction false} HeaderEndAfter(ls: seq<string>, from: nat, e: nat)
    requires from <= e < |ls|
    requires forall k :: from <= k < e ==> IsHeaderLine(ls[k])
    requires !IsHeaderLine(ls[e])
    ensures HeaderEnd(ls, from) == e
    decreases e - from
  {
    if from < e {
      HeaderEndAfter(ls, from + 1, e);
    }
  }

  /** Assembling around the first of the lines `[line] + hs + [""] + bodyLines` gives back its parts. */
  lemma AssembleWellFormed(line: string, hs: seq<string>, bodyLines: seq<string>, rl: RequestLine)
    requires AllHeaderLines(hs)
    ensures var fl := [line] + hs + [""] + bodyLines;
            HeaderLines(fl, 0) == hs && BodyLines(fl, 0) == bodyLines
            && Assemble(fl, 0, rl)
               == HttpRequest(rl.verb, rl.url, if bodyLines == [] then None else Some(CrlfJoin(bodyLines)),
                              HeaderMap(hs), ParsedFrame(line, hs, bodyLines), true, None)
  {
    var fl := [line] + hs + [""] + bodyLines;
    assert forall k :: 1 <= k < |hs| + 1 ==> fl[k] == hs[k - 1];
    HeaderEndAfter(fl, 1, |hs| + 1);
    assert fl[1..|hs| + 1] == hs;
    assert fl[|hs| + 2..] == bodyLines;
    assert fl[..0] == [];
  }

  /**
   * Parsing is idempotent on frames: the frame of a parsed request parses to the same
   * request, with the directives (which never reach the frame) back at their defaults.
   */
  lemma ReparseFrame(request: string)
    requires Parsed(request).Ok?
    ensures var r := Parsed(request).value;
            Parsed(r.httpFrame) == Ok(r.(verifyCert := true, capture := None))
  {
    ParsedOk(request);
    var ls := Lines(request);
    var i := FirstRequestLine(ls).value;
    var rl := SplitRequestLine(ls[i]).value;
    var hs := HeaderLines(ls, i);
    var bodyLines := BodyLines(ls, i);
    var r := Parsed(request).value;
    AssembledParts(ls, i, rl);
    var fl := Lines(r.httpFrame);
    assert fl == [ls[i]] + hs + [""] + bodyLines;
    assert FirstRequestLine(fl) == Some(0);
    AssembleWellFormed(ls[i], hs, bodyLines, rl);
  }

  /** A text that is a request line, header lines, an empty line and a body parses as itself. */
  lemma ParseWellFormed(verb: string, url: string, hs: seq<string>, bodyLines: seq<string>)
    requires IsToken(verb) && IsToken(url) && verb[0] != '#'
    requires '\n' !in verb && '\n' !in url
    requires AllHeaderLines(hs) && NoLineBreaks(hs) && NoLineBreaks(bodyLines)
    ensures var request := CrlfJoin([verb + " " + url] + hs + [""] + bodyLines);
            Parsed(request) == Ok(HttpRequest(verb, url,
                                              if bodyLines == [] then None else Some(CrlfJoin(bodyLines)),
                                              HeaderMap(hs), request, true, None))
  {
    var line := verb + " " + url;
    var fl := [line] + hs + [""] + bodyLines;
    ParsedFrameIsCrlfJoin(line, hs, bodyLines);
    LinesOfParsedFrame(line, hs, bodyLines);
    assert Lines(CrlfJoin(fl)) == fl;
    assert FirstRequestLine(fl) == Some(0);
    TwoTokenRequestLine(verb, url);
    AssembleWellFormed(line, hs, bodyLines, RequestLine(verb, url, "HTTP/1.1"));
  }

  // ----------------------------------------------------------------------------------
  // obfuscate
  // ----------------------------------------------------------------------------------

  /** A secret the mask can be built for: its first three bytes end on a character boundary. */
  predicate Maskable(secret: string) {
    CharsForBytes(secret, 3).Some?
  }

  /** The mask of a secret: its first three bytes followed by `...`. */
  function Mask(secret: string): (m: string)
    requires Maskable(secret)
    ensures secret != [] && |m| >= 3 && Utf8Len(m) == 3 + 3
    ensures StartsWith(secret, m[..|m| - 3]) && m[|m| - 3..] == "..."
  {
    var n := CharsForBytes(secret, 3).value;
    Utf8LenAppend(secret[..n], "...");
    Utf8LenAscii("...");
    secret[..n] + "..."
  }

  /** The frame with each secret, in order, replaced everywhere by its mask. */
  function ObfuscatedFrame(frame: string, secrets: seq<string>): (r: string)
    requires forall k :: 0 <= k < |secrets| ==> Maskable(secrets[k])
    ensures (forall k :: 0 <= k < |secrets| ==> !Occurs(frame, secrets[k])) ==> r == frame
    decreases |secrets|
  {
    if secrets == [] then frame
    else
      var masked := ReplaceAll(frame, secrets[0], Mask(secrets[0]));
      assert !Occurs(frame, secrets[0]) ==> masked == frame by {
        if !Occurs(frame, secrets[0]) {
          ReplaceAllAbsent(frame, secrets[0], Mask(secrets[0]));
        }
      }
      assert forall k :: 0 <= k < |secrets[1..]| ==> secrets[1..][k] == secrets[k + 1];
      ObfuscatedFrame(masked, secrets[1..])
  }

  /** `HttpRequest::obfuscate`: a copy whose frame has the secrets masked; nothing else changes. */
  method Obfuscate(req: HttpRequest, secrets: seq<string>) returns (r: HttpRequest)
    requires forall k :: 0 <= k < |secrets| ==> Maskable(secrets[k])
    ensures r == req.(httpFrame := ObfuscatedFrame(req.httpFrame, secrets))
  {
    r := req;
    var k := 0;
    while k < |secrets|
      invariant k <= |secrets|
      invariant r == req.(httpFrame := r.httpFrame)
      invariant ObfuscatedFrame(r.httpFrame, secrets[k..]) == ObfuscatedFrame(req.httpFrame, secrets)
    {
      assert secrets[k..][1..] == secrets[k + 1..];
      var x := secrets[k];
      var obf := Mask(x);
      r := r.(httpFrame := ReplaceAll(r.httpFrame, x, obf));
      k := k + 1;
    }
  }

  /**
   * Masking one secret cuts the frame at its occurrences and joins the pieces with the
   * mask; no piece holds the secret, and joining the pieces with the secret again gives
   * the frame back.
   */
  lemma MaskOneSecret(frame: string, secret: string)
    requires Maskable(secret)
    ensures var pieces := SplitOn(frame, secret);
            ReplaceAll(frame, secret, Mask(secret)) == Join(pieces, Mask(secret))
            && Join(pieces, secret) == frame
            && forall k :: 0 <= k < |pieces| ==> !Occurs(pieces[k], secret)
  {
    JoinSplitOn(frame, secret);
    SplitOnPiecesFree(frame, secret);
  }

  /** A secret of exactly three bytes is masked as itself followed by `...`. */
  lemma MaskOfThreeByteSecret(secret: string)
    requires Utf8Len(secret) == 3
    ensures Maskable(secret) && Mask(secret) == secret + "..."
  {
    assert secret[..|secret|] == secret;
    var n := CharsForBytes(secret, 3).value;
    assert secret == secret[..n] + secret[n..];
    Utf8LenAppend(secret[..n], secret[n..]);
    assert secret[..n] == secret;
  }

  /**
   * Masking keeps the first three bytes, so a secret of exactly three bytes stays visible in
   * the frame wherever it occurred.
   */
  lemma ThreeByteSecretStaysVisible(frame: string, secret: string, i: nat)
    requires Utf8Len(secret) == 3 && OccursAt(frame, secret, i)
    ensures Maskable(secret) && Occurs(ReplaceAll(frame, secret, Mask(secret)), secret)
  {
    MaskOfThreeByteSecret(secret);
    assert (secret + "...")[..|secret|] == secret;
    ReplaceKeepsPattern(frame, secret, Mask(secret), i);
  }
}
