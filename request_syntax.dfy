/**
 * The request-text rules that both frame builders (`src/helpers/http.rs` and
 * `src/helpers/httpparser.rs`) share word for word: which leading lines are skipped, how the
 * request line splits into verb, URL and version, and how a URL scheme is recognised.
 */
module RequestSyntax {
  import opened Wrappers
  import opened Text

  /** A line the scan for the request line passes over: empty, or starting with `#`. */
  predicate IsCommentOrBlank(line: string) {
    line == [] || line[0] == '#'
  }

  /** Index of the first line at or after `from` that is neither empty nor a comment. */
  function FirstRequestLineFrom(ls: seq<string>, from: nat): (r: Option<nat>)
    requires from <= |ls|
    ensures r.Some? ==> from <= r.value < |ls| && !IsCommentOrBlank(ls[r.value])
    ensures r.Some? ==> forall k :: from <= k < r.value ==> IsCommentOrBlank(ls[k])
    ensures r.None? <==> forall k :: from <= k < |ls| ==> IsCommentOrBlank(ls[k])
    decreases |ls| - from
  {
    if from == |ls| then None
    else if !IsCommentOrBlank(ls[from]) then Some(from)
    else FirstRequestLineFrom(ls, from + 1)
  }

  /** Index of the request line: the first line that is neither empty nor a comment. */
  function FirstRequestLine(ls: seq<string>): Option<nat> {
    FirstRequestLineFrom(ls, 0)
  }

  /** Index of the first empty line at or after `from`, or `|ls|` when there is none. */
  function FirstEmptyFrom(ls: seq<string>, from: nat): (e: nat)
    requires from <= |ls|
    ensures from <= e <= |ls|
    ensures forall k :: from <= k < e ==> ls[k] != []
    ensures e < |ls| ==> ls[e] == []
    decreases |ls| - from
  {
    if from == |ls| || ls[from] == [] then from else FirstEmptyFrom(ls, from + 1)
  }

  /** The parts of a request line; `version` is `HTTP/1.1` when the line gives none. */
  datatype RequestLine = RequestLine(verb: string, url: string, version: string)

  /**
   * The request line split on runs of spaces: two tokens give verb and URL with the
   * assumed version `HTTP/1.1`, three give verb, URL and version; any other count is a
   * parse error (`None`).
   */
  function SplitRequestLine(line: string): (r: Option<RequestLine>)
    ensures r.Some? <==> |SplitSpaces(line)| == 2 || |SplitSpaces(line)| == 3
  {
    var parts := SplitSpaces(line);
    if |parts| == 2 then Some(RequestLine(parts[0], parts[1], "HTTP/1.1"))
    else if |parts| == 3 then Some(RequestLine(parts[0], parts[1], parts[2]))
    else None
  }

  /** A token: non-empty and without spaces. */
  predicate IsToken(t: string) {
    t != [] && ' ' !in t
  }

  /** `<verb> <url>` reads as that verb and URL with the assumed version `HTTP/1.1`. */
  lemma TwoTokenRequestLine(verb: string, url: string)
    requires IsToken(verb) && IsToken(url)
    ensures SplitRequestLine(verb + " " + url) == Some(RequestLine(verb, url, "HTTP/1.1"))
  {
    var ts := [verb, url];
    assert JoinSpaces(ts[1..]) == url;
    assert JoinSpaces(ts) == verb + " " + url;
    SplitSpacesJoin(ts);
  }

  /** `<verb> <url> <version>` keeps the version verbatim. */
  lemma ThreeTokenRequestLine(verb: string, url: string, version: string)
    requires IsToken(verb) && IsToken(url) && IsToken(version)
    ensures SplitRequestLine(verb + " " + url + " " + version) == Some(RequestLine(verb, url, version))
  {
    var ts := [verb, url, version];
    assert JoinSpaces(ts[2..]) == version;
    assert JoinSpaces(ts[1..]) == url + " " + version;
    assert JoinSpaces(ts) == verb + " " + url + " " + version;
    SplitSpacesJoin(ts);
  }

  /** A line of four tokens is rejected. */
  lemma FourTokenRequestLine(a: string, b: string, c: string, d: string)
    requires IsToken(a) && IsToken(b) && IsToken(c) && IsToken(d)
    ensures SplitRequestLine(a + " " + b + " " + c + " " + d).None?
  {
    var ts := [a, b, c, d];
    assert JoinSpaces(ts[3..]) == d;
    assert JoinSpaces(ts[2..]) == c + " " + d;
    assert JoinSpaces(ts[1..]) == b + " " + c + " " + d;
    assert JoinSpaces(ts) == a + " " + b + " " + c + " " + d;
    SplitSpacesJoin(ts);
  }

  /** The transport a URL scheme selects; `SchemeErr` carries an unsupported scheme's name. */
  datatype Scheme = HTTP | HTTPS | SchemeErr(name: string)

  /** `Scheme::from`: `http` is plain HTTP, `https` is HTTPS, anything else is an error. */
  function SchemeFrom(value: string): (s: Scheme)
    ensures s == HTTP <==> value == "http"
    ensures s == HTTPS <==> value == "https"
    ensures s.SchemeErr? ==> s.name == value
  {
    match value
    case "http" => HTTP
    case "https" => HTTPS
    case _ => SchemeErr(value)
  }

  /** The scheme name a `Scheme` stands for. */
  function SchemeName(s: Scheme): string {
    match s
    case HTTP => "http"
    case HTTPS => "https"
    case SchemeErr(name) => name
  }

  /** Recognising a scheme loses nothing: its name can be read back. */
  lemma SchemeRoundTrip(value: string)
    ensures SchemeName(SchemeFrom(value)) == value
  {
  }
}
