# Rustaman request core in Dafny

Rustaman is a desktop HTTP client. A user keeps a workspace of saved requests. Each request is a text template: comment lines, a request line `VERB URL [VERSION]`, header lines, an empty line and a body. This project models and proves properties of the parts of the program that turn that text into what is sent, and of the bookkeeping around it:

- **`LegacyHttp`** (`src/helpers/http.rs`) is the older frame builder. It finds the request line, resolves the URL into a scheme, host and port, and builds the exact HTTP/1.1 bytes: the request line with the path, query and fragment as target, the copied header lines, `Host`, `Content-Length`, `Connection: close`, the empty line and the body.
- **`Directives`** (`src/helpers/httpparser.rs`) gives the four regular expressions of the parser as explicit matchers: the `#! Authority: host:port` directive, the `#! Capture: name` directive, the `#! AllowInsecureCertificate` flag and the `#! EndCapture` separator of `split_template`. It follows the leftmost-first, greedy semantics of the `regex` crate.
- **`HttpParser`** (`src/helpers/httpparser.rs`) is the current parser. It reads the directives above the request line, the request line, a header map, the body and the frame. It also has `obfuscate`, which masks an environment's secrets in the frame.
- **`RequestSyntax`** holds what both parsers share: skipping comment lines, splitting the request line on runs of spaces, and `Scheme::from`.
- **`Models`** (`src/models/workspace.rs`) is the workspace. It is a class whose request and environment lists the operations update in place. New entries take the last id plus one. Lookups and edits act on the first entry with the requested id.
- **`Ui`** (`src/ui/status_line.rs`) is the status line. The status text is taken from a response. The Pango markup shows the status and the elapsed milliseconds, coloured by class.
- **`Text`** models the Rust standard-library and `regex` behaviour these rely on:
  - `str::lines`, `split_once`, `trim_start_matches` and `trim_end_matches`, `str::replace`, and `str::len` in UTF-8 bytes;
  - decimal formatting and parsing, and the `u16` type;
  - the `[ ]+` split and Unicode `\s`.

  It also holds the facts proved about them, such as the round trips of lines, of the request-line split and of decimal numbers.
- **`Wrappers`** holds `Option` and `Result`.

Every loop of the source is a method with loop invariants. Each such method is proved equal to a function over the whole input, and the properties below are lemmas about those functions.

## Model

| member | source | states |
|---|---|---|
| RequestSyntax.FirstRequestLineFrom | src/helpers/httpparser.rs:129-136 | the request line is the first line that is neither empty nor starts with `#`; every line before it is a comment or blank; None exactly when all lines are |
| RequestSyntax.SplitRequestLine | src/helpers/httpparser.rs:157-172 | a request line is accepted exactly when splitting on runs of spaces gives two or three pieces |
| RequestSyntax.TwoTokenRequestLine | src/helpers/httpparser.rs:159 | `VERB URL` reads as that verb and URL with version `HTTP/1.1` |
| RequestSyntax.ThreeTokenRequestLine | src/helpers/httpparser.rs:160-164 | `VERB URL VERSION` reads back as its three tokens |
| RequestSyntax.FourTokenRequestLine | src/helpers/httpparser.rs:165-171 | four tokens are a parse error |
| RequestSyntax.SchemeFrom | src/helpers/httpparser.rs:58-66 | `http` gives HTTP and `https` gives HTTPS, both if and only if; any other value gives an error carrying that value |
| RequestSyntax.SchemeRoundTrip | src/helpers/http.rs:26-34 | the name of the scheme parsed from any string is that string |
| Text.SplitSpaces | src/helpers/httpparser.rs:18 | the `[ ]+` split: at least one piece, no piece holds a space, inner pieces are non-empty |
| Text.SplitSpacesJoin | src/helpers/http.rs:76-77 | splitting space-free tokens joined by single spaces gives the tokens back |
| Text.Lines | src/helpers/httpparser.rs:123 | `str::lines`: no line holds `\n`; no lines exactly when the text is empty |
| Text.LinesOfCrlfJoin | src/helpers/httpparser.rs:175-215 | reading a CRLF-terminated frame back line by line gives the lines it was built from |
| Text.TrimStartMatches | src/helpers/httpparser.rs:30 | `trim_start_matches(c)`: a suffix of the text; every character cut is `c`, and the result does not start with `c` |
| Text.TrimEndMatches | src/helpers/httpparser.rs:30 | `trim_end_matches(c)`: a prefix of the text; every character cut is `c`, and the result does not end with `c` |
| Text.IsWhitespace | src/helpers/httpparser.rs:14-21 | the Unicode `White_Space` characters that `\s` matches in the `regex` crate; a definition, used by the matchers below |
| Text.SplitOnce | src/helpers/httpparser.rs:185 | `split_once(':')`: None exactly when there is no colon; otherwise the key holds no colon and key, colon and value rebuild the line |
| Text.DecimalRoundTrip | src/helpers/http.rs:144 | the decimal digits `format!` writes for a number read back as that number |
| Text.Utf8Len | src/helpers/http.rs:143-144 | `str::len`: the UTF-8 byte count, between one and four bytes per character |
| Text.Utf8LenAppend | src/helpers/http.rs:143-144 | the byte length of a concatenation is the sum of the byte lengths |
| Text.CharsForBytes | src/helpers/httpparser.rs:112 | the number of characters filling exactly the first n bytes, or None when byte n is not a character boundary (where `&x[0..3]` panics) |
| Text.JoinSplitOn | src/helpers/httpparser.rs:113 | cutting a text at the pattern occurrences `replace` finds and joining with the pattern gives the text back |
| Text.ReplaceAll | src/helpers/httpparser.rs:113 | `replace` keeps the text between the occurrences it finds and puts the replacement at each: the pieces `SplitOn` cuts, joined with the replacement |
| Text.SplitOnPiecesFree | src/helpers/httpparser.rs:113 | no piece between replaced occurrences contains the pattern |
| Text.ReplaceAllAbsent | src/helpers/httpparser.rs:113 | replacing a pattern that does not occur changes nothing |
| Text.ReplaceKeepsPattern | src/helpers/httpparser.rs:112-113 | when the replacement starts with the pattern, an occurrence survives the replacement |
| Directives.KeywordAt | src/helpers/httpparser.rs:14-21 | the `#![\s]*Keyword` prefix matched at a position: its match when there is one, and there is at most one |
| Directives.LastPortColon | src/helpers/httpparser.rs:15 | the greedy `.+` before `:` backtracks to the last colon on the line that is followed by a digit |
| Directives.AuthorityAt | src/helpers/httpparser.rs:14-15 | the authority pattern tried from one start position: the keyword, then `AuthorityAfter`; a definition whose meaning `AuthorityAtIsMatch` and `AuthorityAtIsFirstTried` prove |
| Directives.AuthorityAfter | src/helpers/httpparser.rs:15 | after `Authority:`, the `[\s]*` run, then the greedy host up to `LastPortColon` and the digits of the port; a definition covered by the same two lemmas |
| Directives.AuthorityAtIsMatch | src/helpers/httpparser.rs:15 | what the authority matcher finds at a position is a match of `#![\s]*Authority:[\s]*(.+):([0-9]+)` |
| Directives.AuthorityAtIsFirstTried | src/helpers/httpparser.rs:15 | every match starting at a position is no earlier in the backtracking order than the one found (leftmost-first, greedy) |
| Directives.FirstAuthority | src/helpers/httpparser.rs:25-26 | `captures` takes the leftmost start where the pattern matches; None exactly when it matches nowhere |
| Directives.ExtractAuthorityAsWritten | src/helpers/httpparser.rs:24-37 | no authority exactly when the pattern matches nowhere in the line |
| Directives.ExtractAuthority | src/helpers/httpparser.rs:24-37 | a host and `u16` port exactly when the source's matcher finds an authority whose port fits, and then that host and port; None exactly when the pattern matches nowhere or the port exceeds 65535 |
| Directives.AuthorityLineExtract | src/helpers/httpparser.rs:28-34 | for `#! Authority: host:digits`, the host with its brackets trimmed and the port value; a panic when the value exceeds 65535 |
| Directives.AuthorityRoundTrip | src/helpers/httpparser.rs:24-37 | a directive written from a host and port reads back as that host and port |
| Directives.BracketedAuthorityRoundTrip | src/helpers/httpparser.rs:30 | `[addr]:port` reads back as the address without its brackets |
| Directives.PortOverflowAborts | src/helpers/httpparser.rs:31-33 | a port of 65536 or more makes the source panic, and the corrected matcher gives None |
| Directives.CaptureAt | src/helpers/httpparser.rs:19-20 | what the capture matcher finds is a match of `#![\s]*Capture:\s*(.+)` |
| Directives.CaptureAtIsFirstTried | src/helpers/httpparser.rs:19-20 | every capture match at a position is no earlier in the backtracking order than the one found |
| Directives.ExtractCaptureName | src/helpers/httpparser.rs:39-45 | None exactly when the capture pattern matches at no position |
| Directives.CaptureRoundTrip | src/helpers/httpparser.rs:39-45 | `#! Capture: name` gives the name |
| Directives.CaptureOfBlankName | src/helpers/httpparser.rs:20 | with only whitespace after `Capture:`, backtracking gives the last whitespace character as the name |
| Directives.ExtractInsecureFlag | src/helpers/httpparser.rs:47-49 | true exactly when the insecure-flag pattern matches somewhere in the line |
| Directives.InsecureFlagSet | src/helpers/httpparser.rs:16-17 | `#!`, any whitespace and `AllowInsecureCertificate` set the flag |
| Directives.NextMarker | src/helpers/httpparser.rs:21 | the next `#![\s]*EndCapture` match from a position, and none before it |
| Directives.SplitTemplate | src/helpers/httpparser.rs:232-239 | the pieces interleaved with the separators removed rebuild the template; there is one piece more than separators |
| Directives.SplitTemplateWithoutMarker | src/helpers/httpparser.rs:232-239 | a template without a separator is its own single piece |
| Directives.SplitTemplatePiecesHoldNoMarker | src/helpers/httpparser.rs:232-239 | no piece contains a separator |
| HttpParser.Classify | src/helpers/httpparser.rs:137-146 | a comment line is an authority directive exactly when the authority pattern matches (where the port fits), else a capture directive with the captured name exactly when the capture pattern matches, else the insecure flag exactly when its pattern matches |
| HttpParser.Classified | src/helpers/httpparser.rs:137-146 | the comment lines are classified one by one, in order, as `Classify` says |
| HttpParser.VerifyCertUnlessInsecure | src/helpers/httpparser.rs:126-143 | the certificate is checked exactly when no comment line is an insecure directive that is not an authority or capture directive |
| HttpParser.CaptureIsLastDirective | src/helpers/httpparser.rs:127-141 | the capture is the name of the last capture directive, and None exactly when there is none |
| HttpParser.BodyStart | src/helpers/httpparser.rs:178-192 | the body starts one line past the line that stopped the header loop, because the loop consumed it, or at the end; a definition whose effect `CollectHeaders` and `NonHeaderLineDropped` state |
| HttpParser.HeaderField | src/helpers/httpparser.rs:185-187 | a header line splits at its first colon into key and untrimmed value |
| HttpParser.HeaderMapLastWins | src/helpers/httpparser.rs:177-199 | a key is in the header map exactly when some header line has it, and it maps to the value of the last such line |
| HttpParser.HeaderEnd | src/helpers/httpparser.rs:178-199 | the header loop stops at the first line that is empty or has no colon, or at the end |
| HttpParser.ScanDirectives | src/helpers/httpparser.rs:123-148 | for comment lines with no out-of-range port (`NoPortOverflow`), the loop stops at the first request line, and its flag and capture are those the comment lines before it set |
| HttpParser.CollectHeaders | src/helpers/httpparser.rs:177-199 | the map is the header map of the header lines; the frame gains those lines with CRLF; the body starts after the stopping line |
| HttpParser.CollectBody | src/helpers/httpparser.rs:202-215 | the body is every remaining line with CRLF, and the frame gains the same text |
| HttpParser.ParseRequest | src/helpers/httpparser.rs:120-230 | for a text the source does not abort on (a method-token verb, no out-of-range authority port), the parse result equals `Parsed`: the no-request error, the request-line error, or the request |
| HttpParser.Parsed | src/helpers/httpparser.rs:120-230 | the whole-input definition of `parse_request`; its properties are `NoRequestFound`, `ParseErrorOnLine`, `ParsedOk`, `ReparseFrame` and `ParseWellFormed` |
| HttpParser.NoRequestFound | src/helpers/httpparser.rs:149-154 | a text of only comments and blank lines gives `No request found` |
| HttpParser.ParseErrorOnLine | src/helpers/httpparser.rs:165-171 | a request line that does not split into two or three pieces gives `Parse error on line: ` plus the line |
| HttpParser.ParsedOk | src/helpers/httpparser.rs:218-229 | a successful parse has a request line of two or three pieces, and its verb, URL, flag and capture come from it and from the directives |
| HttpParser.ParsedFrameIsCrlfJoin | src/helpers/httpparser.rs:175-215 | the frame is the request line, the header lines, an empty line and the body lines, each ended by CRLF |
| HttpParser.ParsedFrameLines | src/helpers/httpparser.rs:175-215 | read back line by line, a parsed frame is the request line, the header lines, the empty line and the body lines |
| HttpParser.NonHeaderLineDropped | src/helpers/httpparser.rs:190-192 | a non-empty line without a colon that stops the header loop appears in neither the headers nor the body |
| HttpParser.AssembledParts | src/helpers/httpparser.rs:202-223 | the body is None exactly when there are no body lines, and otherwise reads back as those lines |
| HttpParser.ReparseFrame | src/helpers/httpparser.rs:120-230 | parsing the frame of a parsed request gives the same request, with the directives back at their defaults |
| HttpParser.ParseWellFormed | src/helpers/httpparser.rs:120-230 | request line, header lines, empty line and body, ended by CRLF, parse to that verb, URL, header map and body, with the text itself as frame |
| HttpParser.Mask | src/helpers/httpparser.rs:112 | the mask is the secret's first three bytes followed by `...` |
| HttpParser.Obfuscate | src/helpers/httpparser.rs:105-117 | the request is unchanged except that its frame has each secret in turn replaced by its mask |
| HttpParser.ObfuscatedFrame | src/helpers/httpparser.rs:105-117 | masking the secrets in turn leaves a frame that contains none of them unchanged |
| HttpParser.MaskOneSecret | src/helpers/httpparser.rs:113 | one secret's replacement cuts the frame into pieces that do not contain the secret and that rebuild the frame when joined with it |
| HttpParser.ThreeByteSecretStaysVisible | src/helpers/httpparser.rs:112-113 | a three-byte secret stays in the frame after masking, because its mask begins with it |
| LegacyHttp.CopyEnd | src/helpers/http.rs:113-125 | the copy loop runs to the first empty line, inclusive, or to the end |
| LegacyHttp.ParsedHead | src/helpers/http.rs:58-110 | a successful head has the first request line, its split, the URL the URL parser returns, a host, a port, and an HTTP or HTTPS scheme from the URL's scheme |
| LegacyHttp.SkipToRequestLine | src/helpers/http.rs:58-73 | the skip loop stops at the first request line, or at the end when there is none |
| LegacyHttp.CopyHeaderLines | src/helpers/http.rs:113-125 | the copied text is the lines up to and including the first empty line, each ended by CRLF |
| LegacyHttp.CollectBody | src/helpers/http.rs:132-142 | the body is every remaining line with CRLF |
| LegacyHttp.RequestTarget | src/helpers/http.rs:97-105 | the target starts with the path, is the path alone without query and fragment, and holds no line break when the URL parts hold none |
| LegacyHttp.BuildTarget | src/helpers/http.rs:97-105 | the target is the path, then `?query` and `#fragment` when present |
| LegacyHttp.ReadHead | src/helpers/http.rs:58-110 | the head equals the whole-input definition, errors included |
| LegacyHttp.ParseRequest | src/helpers/http.rs:56-162 | the result equals the whole-input definition of the frame builder |
| LegacyHttp.Parsed | src/helpers/http.rs:56-162 | the whole-input definition of the frame builder; its properties are `NoRequestFound`, `ParseErrorOnLine`, `UrlErrorPrecedence`, `ParsedOk` and the frame lemmas below |
| LegacyHttp.NoRequestFound | src/helpers/http.rs:71-73 | only comments and blank lines give `! No request found` |
| LegacyHttp.ParseErrorOnLine | src/helpers/http.rs:85-87 | a request line that is not two or three pieces gives `! Parse error on line: ` plus the line |
| LegacyHttp.UrlErrorPrecedence | src/helpers/http.rs:89-110 | the error order is: missing host, then missing port, then an unknown scheme returned as the bare scheme name; otherwise success with that scheme |
| LegacyHttp.ParsedOk | src/helpers/http.rs:112-161 | a successful result carries the head's scheme, host and port, and the frame built from the request line, the copied lines, the domain and the body |
| LegacyHttp.RequestLineVersion | src/helpers/http.rs:78-112 | the frame starts with the verb, the target and the written version, or `HTTP/1.1` when the version is omitted |
| LegacyHttp.Frame | src/helpers/http.rs:112-154 | the frame starts with the verb, target and version followed by CRLF, and ends with `Connection: close`, the empty line and the body |
| LegacyHttp.AssembleFrame | src/helpers/http.rs:112-154 | the frame equals `Frame` of the request line, the copied lines, the domain and the body |
| LegacyHttp.HostHeader | src/helpers/http.rs:126-130 | `Host: <domain>` and CRLF when the URL names a domain, nothing otherwise; a definition whose place in the frame `ParsedFrameLines` and `AddedHeaders` state |
| LegacyHttp.ContentLengthHeader | src/helpers/http.rs:143-148 | present only for a non-empty body; a definition whose value `ContentLengthValue` proves to be the body's UTF-8 byte count |
| LegacyHttp.FrameIsCrlfJoin | src/helpers/http.rs:112-154 | the frame is its line sequence joined with CRLF |
| LegacyHttp.ParsedFrameLines | src/helpers/http.rs:112-154 | read back line by line, a frame is the request line, the copied lines, `Host`, `Content-Length`, `Connection: close`, the empty line and the body lines |
| LegacyHttp.ContentLengthValue | src/helpers/http.rs:143-148 | the `Content-Length` value reads back as the body's UTF-8 byte count |
| LegacyHttp.ParsedFrameEnd | src/helpers/http.rs:149-154 | every frame ends with `Connection: close`, the empty line and exactly the body |
| LegacyHttp.AsWrittenHeaderSection | src/helpers/http.rs:113-130 | when the copied lines end with an empty line, a server reads only the user's headers as the header section, without `Host`, `Content-Length` or `Connection` |
| LegacyHttp.HostAfterBlankLine | src/helpers/http.rs:113-130 | for `VERB URL` followed by an empty line, the frame has an empty line before `Host`, and its header section is empty |
| LegacyHttp.AddedHeaders | src/helpers/http.rs:126-149 | the headers the builder adds are never empty lines |
| LegacyHttp.IntendedOk | src/helpers/http.rs:113-154 | the corrected builder's frame is built from the user's headers without the empty line |
| LegacyHttp.IntendedHeaderSection | src/helpers/http.rs:113-154 | with the corrected builder, a server reads the user's headers and the added headers as the header section, then exactly the body lines |
| LegacyHttp.IntendedAgreesWithoutBlank | src/helpers/http.rs:113-125 | without an empty line after the request line, the corrected builder is the source's |
| Models.Request.IsActive | src/models/workspace.rs:33-38 | `active`: the request's status is `Active` |
| Models.Request.Activate | src/models/workspace.rs:39-41 | the request becomes active and keeps its id, name and template |
| Models.Request.SoftDelete | src/models/workspace.rs:43-45 | the request becomes deleted and inactive and keeps its id, name and template |
| Models.Request.WithName | src/models/workspace.rs:30-32 | the name is replaced and nothing else changes |
| Models.Request.WithTemplate | src/models/workspace.rs:50-52 | the template is replaced and nothing else changes |
| Models.Environment.WithPayload | src/models/environment.rs:21-23 | the payload is replaced and nothing else changes |
| Models.Environment.SoftDelete | src/models/workspace.rs:234-242 | the environment becomes deleted and keeps its id, name and payload |
| Models.FirstIndex | src/models/workspace.rs:142-149 | the index of the first entry with the id; None exactly when no entry has it |
| Models.NextId | src/models/workspace.rs:151-155 | the id after the last one, at least 1; with strictly increasing ids it is larger than every id, is not taken, and keeps the ids increasing |
| Models.EditRequestFrame | src/models/workspace.rs:167-197 | an edit keeps the length and all ids, changes no request but the first with the id, and changes nothing for an unknown id |
| Models.RenameFirst | src/models/workspace.rs:167-176 | `set_request_name` activates and renames the first request with the id |
| Models.RetemplateFirst | src/models/workspace.rs:188-197 | `set_request_template` activates the first request with the id and sets its template |
| Models.DeleteFirst | src/models/workspace.rs:178-186 | `delete_request` soft-deletes the first request with the id and keeps its name and template |
| Models.EditEnvironmentFrame | src/models/workspace.rs:224-242 | an environment edit changes no environment but the first with the id, and keeps the length and ids |
| Models.NewRequest | src/models/workspace.rs:152-162 | a new request has the next id, the name `Req #<id>`, the default template and the being-created status |
| Models.CreateRequestFresh | src/models/workspace.rs:151-165 | the created request's id is fresh and is found at the end of the list |
| Models.NewEnvironment | src/models/workspace.rs:217 | `Environment::new` with an id: an active environment with that id, name and payload |
| Models.CreateEnvironmentFresh | src/models/workspace.rs:212-222 | the created environment's id is fresh and is found at the end of the list |
| Models.Workspace.constructor | src/models/workspace.rs:71-80 | a new workspace is named `Rustaman`, has no requests and has the one environment `Dev` with id 1 |
| Models.Workspace.FindRequest | src/models/workspace.rs:142-149 | the first request with the id, or None exactly when no request has it |
| Models.Workspace.CreateRequest | src/models/workspace.rs:151-165 | appends the new request and returns it; environments and name unchanged; id order kept |
| Models.Workspace.EditFirstRequest | src/models/workspace.rs:167-197 | the request list becomes the edit of the first request with the id; nothing else changes |
| Models.Workspace.SetRequestName | src/models/workspace.rs:167-176 | the list is the rename edit of the old list; nothing else changes |
| Models.Workspace.DeleteRequest | src/models/workspace.rs:178-186 | the list is the soft-delete edit of the old list; nothing else changes |
| Models.Workspace.SetRequestTemplate | src/models/workspace.rs:188-197 | the list is the template edit of the old list; nothing else changes |
| Models.Workspace.FindEnvironment | src/models/workspace.rs:203-210 | the first environment with the id, or None exactly when there is none |
| Models.Workspace.CreateEnvironment | src/models/workspace.rs:212-222 | appends an environment with the next id, the given name and the default payload; nothing else changes |
| Models.Workspace.EditFirstEnvironment | src/models/workspace.rs:224-242 | the environment list becomes the edit of the first environment with the id |
| Models.Workspace.SetEnvironPayload | src/models/workspace.rs:224-232 | the list is the payload edit of the old list; nothing else changes |
| Models.Workspace.DeleteEnvironment | src/models/workspace.rs:234-242 | the list is the soft-delete edit of the old list; nothing else changes |
| Ui.SpanRoundTrip | src/ui/status_line.rs:23-26 | the colour and text of a markup span read back from it |
| Ui.StatusColor | src/ui/status_line.rs:17-22 | green exactly for statuses starting with 2 or 3, orange exactly for 4, red exactly for everything else, the empty status included |
| Ui.StatusMarkup | src/ui/status_line.rs:16-28 | the status markup reads back as the status colour and the status text unchanged |
| Ui.StatusCodeColor | src/ui/status_line.rs:17-22 | a status `code reason` is coloured by the hundreds digit of the code |
| Ui.ElapsedColor | src/ui/status_line.rs:31 | green exactly below 700 ms, red exactly from 700 ms on |
| Ui.ElapsedMarkup | src/ui/status_line.rs:30-37 | the elapsed markup reads back as the elapsed colour and the decimal milliseconds, which give the number back, followed by `ms` |
| Ui.Millis | src/ui/status_line.rs:116-117 | `subsec_millis() + as_secs() * 1000`: the whole duration in milliseconds, rounded down |
| Ui.StatusText | src/ui/status_line.rs:103-105 | the status is what follows the first space of the first line, or the whole line when it has no space |
| Ui.StatusOfStatusLine | src/ui/status_line.rs:103-105 | for an HTTP status line `VERSION STATUS\r\n...`, the status is the status text |
| Ui.StatusLine.constructor | src/ui/status_line.rs:88-92 | the status line starts empty with no elapsed time |
| Ui.StatusLine.Update | src/ui/status_line.rs:100-109 | the status becomes the status text of the response and the elapsed time is recorded |
| Ui.StatusLine.StatusView | src/ui/status_line.rs:112-114 | the status label's markup reads back as the status with its colour |
| Ui.StatusLine.ElapsedView | src/ui/status_line.rs:115-121 | elapsed markup exists exactly when a time was recorded, and shows its milliseconds in their colour |

## Left out

- The `url` crate is not part of this model. The legacy builder takes the URL parser as a parameter `parseUrl`, which returns what the builder reads from a parsed URL. `SingleLineUrls` states the one property the proofs need: URL parts hold no line break.
- The `regex` crate is modelled only for the five fixed patterns the parser uses, each as an explicit matcher. This is not a general regex engine.
- `reqwest::Method` is not part of this model. `HttpParser.ParseRequest`: `Method::from_str(verb).unwrap()` panics on a verb that is not a method token. The model requires the verb to be a token (`VerbIsMethod`) and keeps the verb as a string.
- HttpParser.ParseRequest: `u16::from_str(port).unwrap()` at `httpparser.rs:33` panics on an authority directive whose port exceeds 65535, in a comment line above the request line. The model does not make that abort an outcome: `ParseRequest` and `ScanDirectives` require `NoPortOverflow`, as they require `VerbIsMethod` for the other unwrap. `Directives.ExtractAuthorityAsWritten` and `Directives.PortOverflowAborts` state the abort itself.
- HttpParser.Classify: on a line whose authority port exceeds 65535 it gives `AuthorityDirective`, where the source panics. `Classified` inherits this. The parser only classifies lines under `NoPortOverflow`, so that value is never used.
- Logging (`info!`, `debug!` and `error!`), network I/O, the HTTP component that sends frames, and the GTK widgets and labels are left out. `StatusView` and `ElapsedView` return the markup instead of setting a label.
- `handlebars` template rendering is left out. It is not part of this model.
- Workspace persistence (`sync`, `safe_sync`, `from_file` and `default`) is left out. It writes and reads files; the model keeps the state only in memory. The plain getters (`id`, `name`, `template`, `requests` and `environments`) are fields.
- Ids are unbounded. `Models.NextId` does not model `usize` overflow, which at 2^64 entries cannot happen in practice. `Ui.Millis` does not model `u64` overflow of `sec * 1000`.
- `Environment::obfuscated_string` is not part of this model. `HttpParser.Obfuscate` takes the secrets as a parameter. It requires each secret to have a character boundary at byte 3, because `&x[0..3]` panics otherwise.
- The `Environment` type the workspace calls (with an id, a status and `soft_delete`) is not the one in `src/models/environment.rs`, which has only a name and a payload. `src/models/status.rs` is not part of this model either. The model assumes that a new environment is `Active`.
- `LegacyHttp.ReadHead` checks the scheme at the point `http.rs:107-110` does, after the target is built. Building the target cannot fail, so the order does not change the result.
- `HttpParser.NonHeaderLineDropped` records the multi-line header gap that `httpparser.rs:191-192` marks as unfinished. The model states what happens (the line is dropped), not a header continuation.
- `Text.Lines` follows current Rust (1.77 and later), where `lines` strips a `\r` only before a `\n`.

## Findings

| source | as written | input that shows it | evidently intended | confidence | as-written member | corrected member |
|---|---|---|---|---|---|---|
| src/helpers/http.rs:113-130 | the copy loop pushes the empty line that ends the user's headers and only then appends `Host`, `Content-Length` and `Connection: close`, so those land after the end of the header section, in the body | `GET http://localhost/` followed by an empty line: the frame is `GET / HTTP/1.1`, CRLF, CRLF, `Host: localhost` ... | the added headers belong to the header section, before the one empty line | not executed | LegacyHttp.HostAfterBlankLine | LegacyHttp.IntendedHeaderSection |
| src/helpers/httpparser.rs:31-33 | the port capture `[0-9]+` is parsed into a `u16` with `unwrap`, which panics on a value above 65535 | the comment line `#! Authority: localhost:99999` above any request line | a directive with an out-of-range port is not an authority (no panic) | not executed | Directives.PortOverflowAborts | Directives.ExtractAuthority |

For the port overflow, the parser keeps the source's matcher `ExtractAuthorityAsWritten` and requires `NoPortOverflow`, so it never reaches the panic. `Directives.ExtractAuthority` is the corrected matcher. Its contract ties it to the source's matcher: both give the same host and port wherever the source does not panic, and it gives None where the source does.
