/**
 * The comment directives of `src/helpers/httpparser.rs` and the template splitter: the
 * patterns `#![\s]*Authority:[\s]*(?P<host>.+):(?P<port>[0-9]+)`,
 * `#![\s]*Capture:\s*(?P<capture>.+)`, `#![\s]*AllowInsecureCertificate` and
 * `#![\s]*EndCapture`, searched for anywhere in the text, as the `regex` crate finds them.
 *
 * Each pattern is modelled twice: a predicate saying which spans of the text the pattern
 * matches (the reference), and a function computing the match the crate reports: the
 * leftmost start, then, for the greedy parts, the longest repetition that still lets the
 * rest match. Lemmas tie the two together.
 */
module Directives {
  import opened Wrappers
  import opened Text

  const AUTHORITY := "Authority:"
  const CAPTURE := "Capture:"
  const INSECURE := "AllowInsecureCertificate"
  const END_CAPTURE := "EndCapture"

  // ----------------------------------------------------------------------------------
  // Scanning helpers
  // ----------------------------------------------------------------------------------

  predicate WhitespaceBetween(s: string, i: nat, j: nat)
    requires i <= j <= |s|
  {
    forall k :: i <= k < j ==> IsWhitespace(s[k])
  }

  /** `.` of the `regex` crate: any character but `\n`. */
  predicate NoNewlineBetween(s: string, i: nat, j: nat)
    requires i <= j <= |s|
  {
    forall k :: i <= k < j ==> s[k] != '\n'
  }

  predicate DigitsBetween(s: string, i: nat, j: nat)
    requires i <= j <= |s|
  {
    forall k :: i <= k < j ==> IsDigit(s[k])
  }

  /** End of the run of whitespace starting at `i`. */
  function WsEnd(s: string, i: nat): (n: nat)
    requires i <= |s|
    ensures i <= n <= |s| && WhitespaceBetween(s, i, n)
    ensures n < |s| ==> !IsWhitespace(s[n])
    decreases |s| - i
  {
    if i < |s| && IsWhitespace(s[i]) then WsEnd(s, i + 1) else i
  }

  /** Index of the first `\n` at or after `i`, or `|s|`. */
  function LineEnd(s: string, i: nat): (n: nat)
    requires i <= |s|
    ensures i <= n <= |s| && NoNewlineBetween(s, i, n)
    ensures n < |s| ==> s[n] == '\n'
    decreases |s| - i
  {
    if i < |s| && s[i] != '\n' then LineEnd(s, i + 1) else i
  }

  /** End of the run of decimal digits starting at `i`. */
  function DigitsEnd(s: string, i: nat): (n: nat)
    requires i <= |s|
    ensures i <= n <= |s| && DigitsBetween(s, i, n)
    ensures n < |s| ==> !IsDigit(s[n])
    decreases |s| - i
  {
    if i < |s| && IsDigit(s[i]) then DigitsEnd(s, i + 1) else i
  }

  // ----------------------------------------------------------------------------------
  // `#!`, whitespace, keyword
  // ----------------------------------------------------------------------------------

  /** The text has `#!` at `p`, then only whitespace, then `kw` at `j`. */
  predicate KeywordMatch(s: string, p: nat, kw: string, j: nat) {
    p + 2 <= j && j + |kw| <= |s| && s[p] == '#' && s[p + 1] == '!'
    && WhitespaceBetween(s, p + 2, j) && s[j..j + |kw|] == kw
  }

  /**
   * Where `kw` starts when `#!`, whitespace and `kw` appear at `p`. Because a keyword does
   * not start with whitespace, the greedy `[\s]*` takes the whole run and the match, when
   * there is one, is the only one.
   */
  function KeywordAt(s: string, p: nat, kw: string): (r: Option<nat>)
    requires kw != [] && !IsWhitespace(kw[0])
    ensures r.Some? ==> KeywordMatch(s, p, kw, r.value)
    ensures forall j: nat :: KeywordMatch(s, p, kw, j) ==> r == Some(j)
  {
    if p + 2 <= |s| && s[p] == '#' && s[p + 1] == '!' then
      var j := WsEnd(s, p + 2);
      if j + |kw| <= |s| && s[j..j + |kw|] == kw then Some(j)
      else
        assert forall j': nat :: KeywordMatch(s, p, kw, j') ==> j' == j by {
          forall j' | KeywordMatch(s, p, kw, j')
            ensures j' == j
          {
            KeywordStartIsRunEnd(s, p, kw, j');
          }
        }
        None
    else None
  }

  /** The keyword of a match starts where the whitespace after `#!` ends. */
  lemma KeywordStartIsRunEnd(s: string, p: nat, kw: string, j: nat)
    requires kw != [] && !IsWhitespace(kw[0])
    requires KeywordMatch(s, p, kw, j)
    ensures j == WsEnd(s, p + 2)
  {
    var n := WsEnd(s, p + 2);
    assert s[j] == s[j..j + |kw|][0] == kw[0];
  }

  /** A keyword match inside a slice is a keyword match of the whole text. */
  lemma KeywordMatchInSlice(s: string, a: nat, b: nat, p: nat, kw: string, j: nat)
    requires kw != [] && !IsWhitespace(kw[0])
    requires a <= b <= |s|
    requires KeywordMatch(s[a..b], p, kw, j)
    ensures KeywordMatch(s, a + p, kw, a + j)
    ensures a + p < b && KeywordAt(s, a + p, kw) == Some(a + j)
  {
    var t := s[a..b];
    assert t[p] == s[a + p] && t[p + 1] == s[a + p + 1];
    forall k | a + p + 2 <= k < a + j
      ensures IsWhitespace(s[k])
    {
      assert s[k] == t[k - a];
    }
    var x, y := s[a + j..a + j + |kw|], t[j..j + |kw|];
    forall i | 0 <= i < |kw|
      ensures x[i] == y[i]
    {
      assert t[j + i] == s[a + j + i];
    }
    assert x == y;
  }

  // ----------------------------------------------------------------------------------
  // `#![\s]*Authority:[\s]*(?P<host>.+):(?P<port>[0-9]+)`
  // ----------------------------------------------------------------------------------

  /** A match of the authority pattern: where the host starts, its `:` and the port's end. */
  datatype AuthoritySpan = AuthoritySpan(host: nat, colon: nat, portEnd: nat)

  /**
   * The authority pattern matches with `#!` at `p` and `Authority:` at `j`: whitespace, a
   * non-empty host of any characters but `\n`, `:`, and one or more digits.
   */
  predicate IsAuthorityMatch(s: string, p: nat, j: nat, m: AuthoritySpan) {
    KeywordMatch(s, p, AUTHORITY, j) && IsAuthorityAfter(s, j + |AUTHORITY|, m)
  }

  /** The part of the authority pattern after `Authority:`, which ends at `k`. */
  predicate IsAuthorityAfter(s: string, k: nat, m: AuthoritySpan) {
    k <= m.host < m.colon && m.colon + 1 < m.portEnd <= |s|
    && WhitespaceBetween(s, k, m.host)
    && NoNewlineBetween(s, m.host, m.colon)
    && s[m.colon] == ':'
    && DigitsBetween(s, m.colon + 1, m.portEnd)
  }

  /**
   * The order in which the backtracking matcher tries the matches starting at one place:
   * the longest whitespace first, then the longest host, then the longest port. `b` is
   * tried no later than `a`.
   */
  predicate AuthorityNoLater(a: AuthoritySpan, b: AuthoritySpan) {
    a.host < b.host
    || (a.host == b.host && (a.colon < b.colon || (a.colon == b.colon && a.portEnd <= b.portEnd)))
  }

  /** A `:` followed by a digit at `e`. */
  predicate PortColonAt(s: string, e: nat) {
    e + 1 < |s| && s[e] == ':' && IsDigit(s[e + 1])
  }

  /** The last `:` followed by a digit in `[lo, hi)`. */
  function LastPortColon(s: string, lo: nat, hi: nat): (r: Option<nat>)
    requires lo <= hi <= |s|
    ensures r.Some? ==> lo <= r.value < hi && PortColonAt(s, r.value)
    ensures forall e :: lo <= e < hi && PortColonAt(s, e) ==> r.Some? && e <= r.value
    decreases hi - lo
  {
    if lo == hi then None
    else if PortColonAt(s, hi - 1) then Some(hi - 1)
    else LastPortColon(s, lo, hi - 1)
  }

  /**
   * The authority match the crate reports among those with `#!` at `p`. The host runs to
   * the last `:` before a digit on its line; it starts after all of the whitespace, unless
   * that `:` comes right after it, in which case the host is the last whitespace character.
   */
  function AuthorityAt(s: string, p: nat): Option<AuthoritySpan> {
    var kw := KeywordAt(s, p, AUTHORITY);
    // A matched keyword always ends within `s`; the bound is spelled out for the verifier.
    if kw.Some? && kw.value + |AUTHORITY| <= |s| then AuthorityAfter(s, kw.value + |AUTHORITY|)
    else None
  }

  /** The rest of `AuthorityAt`, once `Authority:` has been matched up to `k`. */
  function AuthorityAfter(s: string, k: nat): Option<AuthoritySpan>
    requires k <= |s|
  {
    var m := WsEnd(s, k);
    match LastPortColon(s, m, LineEnd(s, m))
    case None => None
    case Some(e) =>
      if e > m then Some(AuthoritySpan(m, e, DigitsEnd(s, e + 1)))
      else if m > k && s[m - 1] != '\n' then Some(AuthoritySpan(m - 1, e, DigitsEnd(s, e + 1)))
      else None
  }

  /** What `AuthorityAt` reports is a match of the pattern at `p`. */
  lemma AuthorityAtIsMatch(s: string, p: nat)
    ensures AuthorityAt(s, p).Some? ==> KeywordAt(s, p, AUTHORITY).Some?
    ensures AuthorityAt(s, p).Some? ==>
              IsAuthorityMatch(s, p, KeywordAt(s, p, AUTHORITY).value, AuthorityAt(s, p).value)
  {
    var kw := KeywordAt(s, p, AUTHORITY);
    if kw.Some? {
      var j := kw.value;
      var k := j + |AUTHORITY|;
      AuthorityAtKeyword(s, p, j);
      if AuthorityAfter(s, k).Some? {
        AuthorityAfterIsMatch(s, k);
        assert KeywordMatch(s, p, AUTHORITY, j);
        assert IsAuthorityMatch(s, p, j, AuthorityAfter(s, k).value);
      }
    }
  }

  /** What `AuthorityAfter` reports is whitespace, a host on one line, `:` and digits. */
  lemma AuthorityAfterIsMatch(s: string, k: nat)
    requires k <= |s|
    ensures AuthorityAfter(s, k).Some? ==> IsAuthorityAfter(s, k, AuthorityAfter(s, k).value)
  {
  }

  /** A run of digits from `i` to `n` ends no later than the scan of digits from `i`. */
  lemma DigitsEndCovers(s: string, i: nat, n: nat)
    requires i <= n <= |s| && DigitsBetween(s, i, n)
    ensures n <= DigitsEnd(s, i)
  {
    var d := DigitsEnd(s, i);
    assert d < |s| ==> !IsDigit(s[d]);
  }

  /**
   * Any match lies on the line after the keyword: its host starts within the whitespace
   * run, and its `:` lies after that run and before the end of the line.
   */
  lemma AuthorityMatchWithinLine(s: string, k: nat, m: AuthoritySpan)
    requires k <= |s| && IsAuthorityAfter(s, k, m)
    ensures var ws := WsEnd(s, k);
            m.host <= ws <= m.colon < LineEnd(s, ws) && PortColonAt(s, m.colon)
            && (m.host < ws ==> s[ws - 1] != '\n')
  {
    var ws := WsEnd(s, k);
    assert ws < |s| ==> !IsWhitespace(s[ws]);
    assert !IsWhitespace(s[m.colon]);
    var nl := LineEnd(s, ws);
    assert nl < |s| ==> s[nl] == '\n';
    assert IsDigit(s[m.colon + 1]);
  }

  /** Once `Authority:` is matched at `j`, `AuthorityAt` is `AuthorityAfter` past it. */
  lemma AuthorityAtKeyword(s: string, p: nat, j: nat)
    requires KeywordAt(s, p, AUTHORITY) == Some(j)
    ensures j + |AUTHORITY| <= |s| && AuthorityAt(s, p) == AuthorityAfter(s, j + |AUTHORITY|)
  {
  }

  /** What `AuthorityAfter` reports once the last port colon is known. */
  lemma AuthorityAfterColon(s: string, k: nat, e: nat)
    requires k <= |s|
    requires LastPortColon(s, WsEnd(s, k), LineEnd(s, WsEnd(s, k))) == Some(e)
    ensures var ws := WsEnd(s, k);
            AuthorityAfter(s, k)
            == if e > ws then Some(AuthoritySpan(ws, e, DigitsEnd(s, e + 1)))
               else if ws > k && s[ws - 1] != '\n' then Some(AuthoritySpan(ws - 1, e, DigitsEnd(s, e + 1)))
               else None
  {
  }

  /**
   * Every match of the pattern at `p` is found, and `AuthorityAt` reports the one the
   * matcher tries first.
   */
  lemma AuthorityAtIsFirstTried(s: string, p: nat, j: nat, m: AuthoritySpan)
    requires IsAuthorityMatch(s, p, j, m)
    ensures AuthorityAt(s, p).Some? && AuthorityNoLater(m, AuthorityAt(s, p).value)
  {
    assert KeywordAt(s, p, AUTHORITY) == Some(j);
    AuthorityAtKeyword(s, p, j);
    AuthorityAfterIsFirstTried(s, j + |AUTHORITY|, m);
  }

  /** After `Authority:`, every match is found and `AuthorityAfter` reports the first tried. */
  lemma AuthorityAfterIsFirstTried(s: string, k: nat, m: AuthoritySpan)
    requires k <= |s| && IsAuthorityAfter(s, k, m)
    ensures AuthorityAfter(s, k).Some? && AuthorityNoLater(m, AuthorityAfter(s, k).value)
  {
    var ws := WsEnd(s, k);
    var nl := LineEnd(s, ws);
    AuthorityMatchWithinLine(s, k, m);
    var e := LastPortColon(s, ws, nl).value;
    AuthorityAfterColon(s, k, e);
    var d := DigitsEnd(s, e + 1);
    assert m.colon <= e;
    if m.colon == e {
      DigitsEndCovers(s, m.colon + 1, m.portEnd);
    }
  }

  /** The first position at or after `from` that holds a value, and that value. */
  function FirstSome<T>(xs: seq<Option<T>>, from: nat): (r: Option<(nat, T)>)
    requires from <= |xs|
    ensures r.Some? ==> from <= r.value.0 < |xs| && xs[r.value.0] == Some(r.value.1)
    ensures r.Some? ==> forall p :: from <= p < r.value.0 ==> xs[p].None?
    ensures r.None? ==> forall p :: from <= p < |xs| ==> xs[p].None?
    decreases |xs| - from
  {
    if from == |xs| then None
    else if xs[from].Some? then Some((from, xs[from].value))
    else FirstSome(xs, from + 1)
  }

  /** The leftmost authority match at or after `from`: where its `#!` is, and the match there. */
  function FirstAuthority(s: string, from: nat): (r: Option<(nat, AuthoritySpan)>)
    requires from <= |s|
    ensures r.Some? ==> from <= r.value.0 < |s| && AuthorityAt(s, r.value.0) == Some(r.value.1)
    ensures r.Some? ==> forall p :: from <= p < r.value.0 ==> AuthorityAt(s, p).None?
    ensures r.None? ==> forall p :: from <= p < |s| ==> AuthorityAt(s, p).None?
  {
    var tries := seq(|s|, (p: int) requires 0 <= p => AuthorityAt(s, p));
    assert forall p :: 0 <= p < |s| ==> tries[p] == AuthorityAt(s, p);
    FirstSome(tries, from)
  }

  /** The leftmost authority match of the text. */
  function FindAuthority(s: string): Option<(nat, AuthoritySpan)> {
    FirstAuthority(s, 0)
  }

  /** The host text: the matched host with every leading `[` and trailing `]` removed. */
  function HostText(s: string, m: AuthoritySpan): string
    requires m.host <= m.colon <= |s|
  {
    TrimEndMatches(TrimStartMatches(s[m.host..m.colon], '['), ']')
  }

  /** The port's digits. */
  function PortDigits(s: string, m: AuthoritySpan): (d: string)
    requires m.colon + 1 <= m.portEnd <= |s|
    requires DigitsBetween(s, m.colon + 1, m.portEnd)
    ensures AllDigits(d)
  {
    var d := s[m.colon + 1..m.portEnd];
    assert forall k :: 0 <= k < |d| ==> d[k] == s[m.colon + 1 + k];
    d
  }

  /** What `extract_authority_from_directive` does, as written: a port over 65535 panics. */
  datatype AuthorityOutcome = NoAuthority | Authority(host: string, port: u16) | PortOverflowPanic(digits: string)

  /**
   * `extract_authority_from_directive` as written: `u16::from_str(port).unwrap()` aborts
   * the program when the digits stand for more than 65535.
   */
  function ExtractAuthorityAsWritten(line: string): (r: AuthorityOutcome)
    ensures r.NoAuthority? <==> FindAuthority(line).None?
  {
    match FindAuthority(line)
    case None => NoAuthority
    case Some((p, m)) =>
      AuthorityAtIsMatch(line, p);
      var digits := PortDigits(line, m);
      var v := DecimalValue(digits);
      if v < 0x1_0000 then Authority(HostText(line, m), v as u16) else PortOverflowPanic(digits)
  }

  /**
   * `extract_authority_from_directive` as evidently intended: the host and port of the
   * leftmost match, and no authority when the port does not fit in 16 bits.
   */
  function ExtractAuthority(line: string): (r: Option<(string, u16)>)
    ensures r.Some? <==> ExtractAuthorityAsWritten(line).Authority?
    ensures r.Some? ==> r.value == (ExtractAuthorityAsWritten(line).host, ExtractAuthorityAsWritten(line).port)
    ensures r.None? <==> FindAuthority(line).None? || ExtractAuthorityAsWritten(line).PortOverflowPanic?
  {
    match FindAuthority(line)
    case None => None
    case Some((p, m)) =>
      AuthorityAtIsMatch(line, p);
      var v := DecimalValue(PortDigits(line, m));
      if v < 0x1_0000 then Some((HostText(line, m), v as u16)) else None
  }

  /** The directive line `#! Authority: <host>:<digits>`. */
  function AuthorityLine(host: string, digits: string): string {
    "#! Authority: " + host + ":" + digits
  }

  /**
   * The match in `#! Authority: <host>:<digits>`: the host is everything between the
   * whitespace and the last `:`, the port all of the digits.
   */
  lemma AuthorityLineMatch(host: string, digits: string)
    requires host != [] && !IsWhitespace(host[0]) && '\n' !in host
    requires digits != [] && AllDigits(digits)
    ensures var line := AuthorityLine(host, digits);
            var k := |"#! Authority: "|;
            FindAuthority(line) == Some((0, AuthoritySpan(k, k + |host|, |line|)))
  {
    var line := AuthorityLine(host, digits);
    var k := |"#! Authority: "|;
    var c := k + |host|;
    assert line[..k] == "#! Authority: ";
    assert line[k..c] == host;
    assert line[c] == ':';
    assert line[c + 1..] == digits;
    assert KeywordMatch(line, 0, AUTHORITY, 3) by {
      assert line[3..3 + |AUTHORITY|] == AUTHORITY;
    }
    assert KeywordAt(line, 0, AUTHORITY) == Some(3);
    assert WsEnd(line, 13) == k by {
      assert IsWhitespace(line[13]);
      assert line[k] == host[0];
    }
    assert LineEnd(line, k) == |line| by {
      forall i | k <= i < |line|
        ensures line[i] != '\n'
      {
        if i < c {
          assert line[i] == host[i - k];
        } else if i > c {
          assert line[i] == digits[i - c - 1];
        }
      }
      LineEndToEnd(line, k);
    }
    assert PortColonAt(line, c) by {
      assert line[c + 1] == digits[0];
    }
    assert LastPortColon(line, k, |line|) == Some(c) by {
      forall e | c < e < |line|
        ensures !PortColonAt(line, e)
      {
        assert line[e] == digits[e - c - 1];
      }
      LastPortColonIs(line, k, |line|, c);
    }
    assert DigitsEnd(line, c + 1) == |line| by {
      forall i | c + 1 <= i < |line|
        ensures IsDigit(line[i])
      {
        assert line[i] == digits[i - c - 1];
      }
      DigitsEndToEnd(line, c + 1);
    }
    AuthorityAtKeyword(line, 0, 3);
    AuthorityAfterColon(line, 13, c);
    assert AuthorityAt(line, 0) == Some(AuthoritySpan(k, c, |line|));
    FirstAuthorityHere(line, 0);
  }

  /** When the pattern matches at `from`, the leftmost match from there is that one. */
  lemma FirstAuthorityHere(s: string, from: nat)
    requires from < |s| && AuthorityAt(s, from).Some?
    ensures FirstAuthority(s, from) == Some((from, AuthorityAt(s, from).value))
  {
  }

  lemma {:induction false} LineEndToEnd(s: string, i: nat)
    requires i <= |s| && NoNewlineBetween(s, i, |s|)
    ensures LineEnd(s, i) == |s|
    decreases |s| - i
  {
    if i < |s| {
      LineEndToEnd(s, i + 1);
    }
  }

  lemma {:induction false} DigitsEndToEnd(s: string, i: nat)
    requires i <= |s| && DigitsBetween(s, i, |s|)
    ensures DigitsEnd(s, i) == |s|
    decreases |s| - i
  {
    if i < |s| {
      DigitsEndToEnd(s, i + 1);
    }
  }

  lemma LastPortColonIs(s: string, lo: nat, hi: nat, c: nat)
    requires lo <= c < hi <= |s| && PortColonAt(s, c)
    requires forall e :: c < e < hi ==> !PortColonAt(s, e)
    ensures LastPortColon(s, lo, hi) == Some(c)
  {
  }

  /** A host without a leading `[` or a trailing `]` is left as it is. */
  lemma TrimPlainHost(host: string)
    requires host != [] && host[0] != '[' && host[|host| - 1] != ']'
    ensures TrimEndMatches(TrimStartMatches(host, '['), ']') == host
  {
    assert RunOf(host, '[') == 0;
    assert host[0..] == host;
    assert TrailingRunOf(host, ']') == 0;
    assert host[..|host|] == host;
  }

  /** Brackets around an address are removed. */
  lemma TrimBracketedHost(addr: string)
    requires addr != [] && addr[0] != '[' && addr[|addr| - 1] != ']'
    ensures TrimEndMatches(TrimStartMatches("[" + addr + "]", '['), ']') == addr
  {
    var host := "[" + addr + "]";
    var inner := addr + "]";
    assert host[1..] == inner;
    assert host[1] == addr[0];
    assert RunOf(host, '[') == 1;
    assert inner[|inner| - 2] == addr[|addr| - 1];
    assert TrailingRunOf(inner, ']') == 1;
    assert inner[..|inner| - 1] == addr;
  }

  /** What both versions of the extractor give for `#! Authority: <host>:<digits>`. */
  lemma AuthorityLineExtract(host: string, digits: string)
    requires host != [] && !IsWhitespace(host[0]) && '\n' !in host
    requires digits != [] && AllDigits(digits)
    ensures var line := AuthorityLine(host, digits);
            var v := DecimalValue(digits);
            var h := TrimEndMatches(TrimStartMatches(host, '['), ']');
            ExtractAuthority(line) == (if v < 0x1_0000 then Some((h, v as u16)) else None)
            && ExtractAuthorityAsWritten(line) == (if v < 0x1_0000 then Authority(h, v as u16) else PortOverflowPanic(digits))
  {
    var line := AuthorityLine(host, digits);
    AuthorityLineMatch(host, digits);
    var k := |"#! Authority: "|;
    var m := AuthoritySpan(k, k + |host|, |line|);
    assert line[k..k + |host|] == host;
    assert line[k + |host| + 1..] == digits;
    assert PortDigits(line, m) == digits;
    assert HostText(line, m) == TrimEndMatches(TrimStartMatches(host, '['), ']');
  }

  /**
   * Round trip: a directive written as `#! Authority: <host>:<port>` gives back the host and
   * the port, for a host on one line that neither starts with whitespace or `[` nor ends
   * with `]`.
   */
  lemma AuthorityRoundTrip(host: string, port: u16)
    requires host != [] && !IsWhitespace(host[0]) && '\n' !in host
    requires host[0] != '[' && host[|host| - 1] != ']'
    ensures ExtractAuthority(AuthorityLine(host, DecimalString(port as nat))) == Some((host, port))
  {
    AuthorityLineExtract(host, DecimalString(port as nat));
    DecimalRoundTrip(port as nat);
    TrimPlainHost(host);
  }

  /**
   * A bracketed IPv6 literal: `#! Authority: [<addr>]:<port>` gives back the address
   * without its brackets.
   */
  lemma BracketedAuthorityRoundTrip(addr: string, port: u16)
    requires addr != [] && addr[0] != '[' && addr[|addr| - 1] != ']' && '\n' !in addr
    ensures ExtractAuthority(AuthorityLine("[" + addr + "]", DecimalString(port as nat))) == Some((addr, port))
  {
    var host := "[" + addr + "]";
    assert host[0] == '[';
    assert '\n' !in host;
    AuthorityLineExtract(host, DecimalString(port as nat));
    DecimalRoundTrip(port as nat);
    TrimBracketedHost(addr);
  }

  /**
   * The program as written aborts on `#! Authority: <host>:<n>` for any `n` over 65535,
   * such as `#! Authority: localhost:99999`; the corrected extractor reports no authority.
   */
  lemma PortOverflowAborts(host: string, n: nat)
    requires host != [] && !IsWhitespace(host[0]) && '\n' !in host
    requires n >= 0x1_0000
    ensures ExtractAuthorityAsWritten(AuthorityLine(host, DecimalString(n))).PortOverflowPanic?
    ensures ExtractAuthority(AuthorityLine(host, DecimalString(n))).None?
  {
    AuthorityLineExtract(host, DecimalString(n));
    DecimalRoundTrip(n);
  }

  // ----------------------------------------------------------------------------------
  // `#![\s]*Capture:\s*(?P<capture>.+)`
  // ----------------------------------------------------------------------------------

  /** A match of the capture pattern: where the captured name starts and ends. */
  datatype CaptureSpan = CaptureSpan(start: nat, end: nat)

  /** The capture pattern matches with `#!` at `p` and `Capture:` at `j`. */
  predicate IsCaptureMatch(s: string, p: nat, j: nat, c: CaptureSpan) {
    KeywordMatch(s, p, CAPTURE, j)
    && j + |CAPTURE| <= c.start < c.end <= |s|
    && WhitespaceBetween(s, j + |CAPTURE|, c.start)
    && NoNewlineBetween(s, c.start, c.end)
  }

  /** The matcher tries `b` no later than `a`: longest whitespace, then longest name. */
  predicate CaptureNoLater(a: CaptureSpan, b: CaptureSpan) {
    a.start < b.start || (a.start == b.start && a.end <= b.end)
  }

  /** The last index in `[lo, hi)` that is not `\n`. */
  function LastNonNewline(s: string, lo: nat, hi: nat): (r: Option<nat>)
    requires lo <= hi <= |s|
    ensures r.Some? ==> lo <= r.value < hi && s[r.value] != '\n'
    ensures forall i :: lo <= i < hi && s[i] != '\n' ==> r.Some? && i <= r.value
    decreases hi - lo
  {
    if lo == hi then None
    else if s[hi - 1] != '\n' then Some(hi - 1)
    else LastNonNewline(s, lo, hi - 1)
  }

  /**
   * The capture match the crate reports among those with `#!` at `p`: the rest of the line
   * after the whitespace, or, when the whitespace runs to the end of the text, its last
   * character that is not `\n`.
   */
  function CaptureAt(s: string, p: nat): (r: Option<CaptureSpan>)
    ensures r.Some? ==> KeywordAt(s, p, CAPTURE).Some?
    ensures r.Some? ==> IsCaptureMatch(s, p, KeywordAt(s, p, CAPTURE).value, r.value)
  {
    match KeywordAt(s, p, CAPTURE)
    case None => None
    case Some(j) =>
      var m := WsEnd(s, j + |CAPTURE|);
      if m < |s| then Some(CaptureSpan(m, LineEnd(s, m)))
      else
        match LastNonNewline(s, j + |CAPTURE|, |s|)
        case None => None
        case Some(h) => Some(CaptureSpan(h, h + 1))
  }

  /** Every capture match at `p` is found, and `CaptureAt` reports the one tried first. */
  lemma CaptureAtIsFirstTried(s: string, p: nat, j: nat, c: CaptureSpan)
    requires IsCaptureMatch(s, p, j, c)
    ensures CaptureAt(s, p).Some? && CaptureNoLater(c, CaptureAt(s, p).value)
  {
    assert KeywordAt(s, p, CAPTURE) == Some(j);
    var k := j + |CAPTURE|;
    var m := WsEnd(s, k);
    assert c.start <= m;
    assert s[c.start] != '\n';
    if m < |s| {
      if c.start == m {
        var n := LineEnd(s, m);
        assert c.end <= n;
      }
    } else {
      var h := LastNonNewline(s, k, |s|).value;
      assert c.start <= h;
      if c.start == h {
        assert h + 1 < |s| ==> s[h + 1] == '\n';
        assert c.end <= h + 1;
      }
    }
  }

  /** The leftmost capture match at or after `from`: where its `#!` is, and the match there. */
  function FirstCapture(s: string, from: nat): (r: Option<(nat, CaptureSpan)>)
    requires from <= |s|
    ensures r.Some? ==> from <= r.value.0 < |s| && CaptureAt(s, r.value.0) == Some(r.value.1)
    ensures r.Some? ==> forall p :: from <= p < r.value.0 ==> CaptureAt(s, p).None?
    ensures r.None? ==> forall p :: from <= p < |s| ==> CaptureAt(s, p).None?
  {
    var tries := seq(|s|, (p: int) requires 0 <= p => CaptureAt(s, p));
    assert forall p :: 0 <= p < |s| ==> tries[p] == CaptureAt(s, p);
    FirstSome(tries, from)
  }

  /** `extract_capture_name`: the name in the leftmost capture match. */
  function ExtractCaptureName(line: string): (r: Option<string>)
    ensures r.None? <==> forall p :: 0 <= p < |line| ==> CaptureAt(line, p).None?
  {
    match FirstCapture(line, 0)
    case None => None
    case Some((_, c)) => Some(line[c.start..c.end])
  }

  /** Round trip: `#! Capture: <name>` gives back the name, for a name on one line. */
  lemma CaptureRoundTrip(name: string)
    requires name != [] && !IsWhitespace(name[0]) && '\n' !in name
    ensures ExtractCaptureName("#! Capture: " + name) == Some(name)
  {
    var line := "#! Capture: " + name;
    var k := |"#! Capture: "|;
    assert line[k..] == name;
    assert KeywordMatch(line, 0, CAPTURE, 3) by {
      assert line[3..3 + |CAPTURE|] == CAPTURE;
    }
    assert WsEnd(line, 11) == k by {
      assert IsWhitespace(line[11]);
      assert line[k] == name[0];
    }
    assert LineEnd(line, k) == |line| by {
      forall i | k <= i < |line|
        ensures line[i] != '\n'
      {
        assert line[i] == name[i - k];
      }
      LineEndToEnd(line, k);
    }
    assert CaptureAt(line, 0) == Some(CaptureSpan(k, |line|));
    assert FirstCapture(line, 0) == Some((0, CaptureSpan(k, |line|)));
    assert line[k..|line|] == name;
  }

  /** A line whose name part is only whitespace captures that whitespace's last character. */
  lemma CaptureOfBlankName(ws: string)
    requires ws != [] && AllWhitespace(ws) && '\n' !in ws
    ensures ExtractCaptureName("#!Capture:" + ws) == Some([ws[|ws| - 1]])
  {
    var line := "#!Capture:" + ws;
    var k := |"#!Capture:"|;
    assert KeywordMatch(line, 0, CAPTURE, 2) by {
      assert line[2..2 + |CAPTURE|] == CAPTURE;
    }
    assert WsEnd(line, k) == |line| by {
      assert forall i :: k <= i < |line| ==> line[i] == ws[i - k];
      WsEndToEnd(line, k);
    }
    assert line[|line| - 1] == ws[|ws| - 1];
    assert CaptureAt(line, 0) == Some(CaptureSpan(|line| - 1, |line|));
    assert FirstCapture(line, 0) == Some((0, CaptureSpan(|line| - 1, |line|)));
    assert line[|line| - 1..|line|] == [ws[|ws| - 1]];
  }

  lemma {:induction false} WsEndToEnd(s: string, i: nat)
    requires i <= |s| && WhitespaceBetween(s, i, |s|)
    ensures WsEnd(s, i) == |s|
    decreases |s| - i
  {
    if i < |s| {
      WsEndToEnd(s, i + 1);
    }
  }

  // ----------------------------------------------------------------------------------
  // `#![\s]*AllowInsecureCertificate`
  // ----------------------------------------------------------------------------------

  /** The leftmost start at or after `from` of `#!`, whitespace and `kw`, with where `kw` starts. */
  function FirstKeyword(s: string, kw: string, from: nat): (r: Option<(nat, nat)>)
    requires kw != [] && !IsWhitespace(kw[0])
    requires from <= |s|
    ensures r.Some? ==> from <= r.value.0 < |s| && KeywordAt(s, r.value.0, kw) == Some(r.value.1)
    ensures r.Some? ==> forall p :: from <= p < r.value.0 ==> KeywordAt(s, p, kw).None?
    ensures r.None? ==> forall p :: from <= p < |s| ==> KeywordAt(s, p, kw).None?
  {
    var tries := seq(|s|, (p: int) requires 0 <= p => KeywordAt(s, p, kw));
    assert forall p :: 0 <= p < |s| ==> tries[p] == KeywordAt(s, p, kw);
    FirstSome(tries, from)
  }

  /** `extract_insecure_flag`: whether the pattern matches anywhere in the line. */
  function ExtractInsecureFlag(line: string): (b: bool)
    ensures b <==> exists p: nat, j: nat :: KeywordMatch(line, p, INSECURE, j)
  {
    var r := FirstKeyword(line, INSECURE, 0);
    assert forall p: nat, j: nat :: KeywordMatch(line, p, INSECURE, j) ==> r.Some? by {
      forall p: nat, j: nat | KeywordMatch(line, p, INSECURE, j)
        ensures r.Some?
      {
        assert KeywordAt(line, p, INSECURE) == Some(j);
      }
    }
    r.Some?
  }

  /** `#!AllowInsecureCertificate`, with any whitespace after `#!`, sets the flag. */
  lemma InsecureFlagSet(ws: string, rest: string)
    requires AllWhitespace(ws)
    ensures ExtractInsecureFlag("#!" + ws + INSECURE + rest)
  {
    var line := "#!" + ws + INSECURE + rest;
    var j := 2 + |ws|;
    assert line[j..j + |INSECURE|] == INSECURE;
    assert forall k :: 2 <= k < j ==> line[k] == ws[k - 2];
    assert KeywordMatch(line, 0, INSECURE, j);
  }

  // ----------------------------------------------------------------------------------
  // `split_template`: cutting at `#![\s]*EndCapture`
  // ----------------------------------------------------------------------------------

  /** The leftmost `EndCapture` marker at or after `from`: its start and end. */
  function NextMarker(t: string, from: nat): (r: Option<(nat, nat)>)
    requires from <= |t|
    ensures r.Some? ==> from <= r.value.0 < r.value.1 <= |t|
    ensures r.Some? ==> r.value.1 >= |END_CAPTURE| && KeywordMatch(t, r.value.0, END_CAPTURE, r.value.1 - |END_CAPTURE|)
    ensures r.Some? ==> forall p :: from <= p < r.value.0 ==> KeywordAt(t, p, END_CAPTURE).None?
    ensures r.None? ==> forall p :: from <= p < |t| ==> KeywordAt(t, p, END_CAPTURE).None?
  {
    match FirstKeyword(t, END_CAPTURE, from)
    case None => None
    case Some((p, j)) => Some((p, j + |END_CAPTURE|))
  }

  /** The texts between the markers at or after `from`, in order. */
  function PiecesFrom(t: string, from: nat): (pieces: seq<string>)
    requires from <= |t|
    ensures |pieces| >= 1
    decreases |t| - from
  {
    match NextMarker(t, from)
    case None => [t[from..]]
    case Some((p, e)) => [t[from..p]] + PiecesFrom(t, e)
  }

  /** The markers at or after `from`, in order. */
  function MarkersFrom(t: string, from: nat): seq<string>
    requires from <= |t|
    decreases |t| - from
  {
    match NextMarker(t, from)
    case None => []
    case Some((p, e)) => [t[p..e]] + MarkersFrom(t, e)
  }

  /**
   * `split_template`: the template cut at every `#!EndCapture` marker, markers removed.
   * There is one piece more than there are markers, and putting the markers back between
   * the pieces gives the template: nothing but the markers is removed, and the order stays.
   */
  function SplitTemplate(template: string): (pieces: seq<string>)
    ensures |pieces| == |Markers(template)| + 1
    ensures Interleave(pieces, Markers(template)) == template
  {
    PiecesAndMarkersFrom(template, 0);
    assert template[0..] == template;
    PiecesFrom(template, 0)
  }

  /** The markers `split_template` removes, in order. */
  function Markers(template: string): seq<string> {
    MarkersFrom(template, 0)
  }

  /** The text holds no `#!EndCapture` marker. */
  ghost predicate HoldsNoMarker(t: string) {
    forall p: nat, j: nat :: !KeywordMatch(t, p, END_CAPTURE, j)
  }

  /** Pieces with the markers between them. */
  function Interleave(pieces: seq<string>, markers: seq<string>): string
    requires |pieces| == |markers| + 1
    decreases |markers|
  {
    if markers == [] then pieces[0] else pieces[0] + markers[0] + Interleave(pieces[1..], markers[1..])
  }

  lemma {:induction false} PiecesAndMarkersFrom(t: string, from: nat)
    requires from <= |t|
    ensures |PiecesFrom(t, from)| == |MarkersFrom(t, from)| + 1
    ensures Interleave(PiecesFrom(t, from), MarkersFrom(t, from)) == t[from..]
    decreases |t| - from
  {
    var next := NextMarker(t, from);
    if next.Some? {
      var (p, e) := next.value;
      PiecesAndMarkersFrom(t, e);
      var pieces := PiecesFrom(t, from);
      var markers := MarkersFrom(t, from);
      assert pieces == [t[from..p]] + PiecesFrom(t, e);
      assert markers == [t[p..e]] + MarkersFrom(t, e);
      assert pieces[1..] == PiecesFrom(t, e);
      assert markers[1..] == MarkersFrom(t, e);
      SliceSplit(t, from, p, e);
    }
  }

  lemma SliceSplit(t: string, a: nat, b: nat, c: nat)
    requires a <= b <= c <= |t|
    ensures t[a..] == t[a..b] + t[b..c] + t[c..]
  {
  }

  /** A template without a marker is one piece, the template itself. */
  lemma SplitTemplateWithoutMarker(template: string)
    requires HoldsNoMarker(template)
    ensures SplitTemplate(template) == [template]
  {
    assert NextMarker(template, 0).None?;
    assert template[0..] == template;
  }

  /** A slice that starts before no marker of the text holds no marker. */
  lemma NoMarkerInSlice(t: string, from: nat, q: nat)
    requires from <= q <= |t|
    requires forall p :: from <= p < q ==> KeywordAt(t, p, END_CAPTURE).None?
    ensures HoldsNoMarker(t[from..q])
  {
    forall p: nat, j: nat
      ensures !KeywordMatch(t[from..q], p, END_CAPTURE, j)
    {
      if KeywordMatch(t[from..q], p, END_CAPTURE, j) {
        KeywordMatchInSlice(t, from, q, p, END_CAPTURE, j);
      }
    }
  }

  /** The first piece from `from` holds no marker. */
  lemma FirstPieceHoldsNoMarker(t: string, from: nat)
    requires from <= |t|
    ensures HoldsNoMarker(PiecesFrom(t, from)[0])
  {
    var next := NextMarker(t, from);
    if next.None? {
      assert t[from..] == t[from..|t|];
      NoMarkerInSlice(t, from, |t|);
    } else {
      NoMarkerInSlice(t, from, next.value.0);
    }
  }

  /** After the first piece come the pieces after the first marker. */
  lemma LaterPieces(t: string, from: nat)
    requires from <= |t| && NextMarker(t, from).Some?
    ensures NextMarker(t, from).value.1 <= |t|
    ensures PiecesFrom(t, from)[1..] == PiecesFrom(t, NextMarker(t, from).value.1)
  {
  }

  lemma {:induction false} PiecesFromHoldNoMarker(t: string, from: nat, i: nat)
    requires from <= |t| && i < |PiecesFrom(t, from)|
    ensures HoldsNoMarker(PiecesFrom(t, from)[i])
    decreases |t| - from
  {
    if i == 0 {
      FirstPieceHoldsNoMarker(t, from);
    } else {
      assert NextMarker(t, from).Some?;
      LaterPieces(t, from);
      var e := NextMarker(t, from).value.1;
      assert PiecesFrom(t, from)[i] == PiecesFrom(t, e)[i - 1];
      PiecesFromHoldNoMarker(t, e, i - 1);
    }
  }

  /** No piece holds a marker. */
  lemma SplitTemplatePiecesHoldNoMarker(template: string, i: nat)
    requires i < |SplitTemplate(template)|
    ensures HoldsNoMarker(SplitTemplate(template)[i])
  {
    PiecesFromHoldNoMarker(template, 0, i);
  }
}
