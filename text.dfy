/**
 * The string behaviour of the Rust standard library and of the `regex` crate that the
 * request builders rely on, stated over Dafny strings (sequences of Unicode scalar values,
 * which is what a Rust `&str` holds once decoded).
 */
module Text {
  import opened Wrappers

  // ----------------------------------------------------------------------------------
  // Searching
  // ----------------------------------------------------------------------------------

  /** Index of the first `c` in `s`, or `|s|` when `s` has none. */
  function IndexOf(s: string, c: char): (i: nat)
    ensures i <= |s|
    ensures i < |s| ==> s[i] == c
    ensures forall k :: 0 <= k < i ==> s[k] != c
  {
    if s == [] then 0 else if s[0] == c then 0 else 1 + IndexOf(s[1..], c)
  }

  /** Length of the run of `c` that starts `s`. */
  function RunOf(s: string, c: char): (n: nat)
    ensures n <= |s|
    ensures forall k :: 0 <= k < n ==> s[k] == c
    ensures n < |s| ==> s[n] != c
  {
    if s == [] || s[0] != c then 0 else 1 + RunOf(s[1..], c)
  }

  /** Length of the run of `c` that ends `s`. */
  function TrailingRunOf(s: string, c: char): (n: nat)
    ensures n <= |s|
    ensures forall k :: |s| - n <= k < |s| ==> s[k] == c
    ensures n < |s| ==> s[|s| - 1 - n] != c
  {
    if s == [] || s[|s| - 1] != c then 0 else 1 + TrailingRunOf(s[..|s| - 1], c)
  }

  predicate StartsWith(s: string, prefix: string) {
    |prefix| <= |s| && s[..|prefix|] == prefix
  }

  /** `p` occurs in `s` at index `i`. */
  predicate OccursAt(s: string, p: string, i: nat) {
    i + |p| <= |s| && s[i..i + |p|] == p
  }

  /** `p` occurs somewhere in `s`. */
  predicate Occurs(s: string, p: string) {
    exists i: nat :: i <= |s| && OccursAt(s, p, i)
  }

  /** Rust's `str::trim_start_matches(c)` for a single character: every leading `c` removed. */
  function TrimStartMatches(s: string, c: char): (r: string)
    ensures |r| <= |s| && r == s[|s| - |r|..]
    ensures forall k :: 0 <= k < |s| - |r| ==> s[k] == c
    ensures r == [] || r[0] != c
  {
    s[RunOf(s, c)..]
  }

  /** Rust's `str::trim_end_matches(c)` for a single character: every trailing `c` removed. */
  function TrimEndMatches(s: string, c: char): (r: string)
    ensures |r| <= |s| && r == s[..|r|]
    ensures forall k :: |r| <= k < |s| ==> s[k] == c
    ensures r == [] || r[|r| - 1] != c
  {
    s[..|s| - TrailingRunOf(s, c)]
  }

  /** Rust's `str::split_once(c)`: the text before and after the first `c`. */
  function SplitOnce(s: string, c: char): (r: Option<(string, string)>)
    ensures r.None? <==> c !in s
    ensures r.Some? ==> c !in r.value.0 && s == r.value.0 + [c] + r.value.1
  {
    var i := IndexOf(s, c);
    if i == |s| then None else Some((s[..i], s[i + 1..]))
  }

  // ----------------------------------------------------------------------------------
  // Lines
  // ----------------------------------------------------------------------------------

  /** A line without the `\r` of a `\r\n` terminator. */
  function StripCr(line: string): string {
    if |line| > 0 && line[|line| - 1] == '\r' then line[..|line| - 1] else line
  }

  /** Every line is free of line breaks. */
  predicate NoLineBreaks(ls: seq<string>) {
    forall k :: 0 <= k < |ls| ==> '\n' !in ls[k]
  }

  /**
   * Rust's `str::lines`: the pieces of `s` between `\n` terminators, each with the `\r` of a
   * `\r\n` terminator removed. A final piece without `\n` is kept as it is, and a final `\n`
   * does not start an empty last line.
   */
  function Lines(s: string): (ls: seq<string>)
    ensures forall k :: 0 <= k < |ls| ==> '\n' !in ls[k]
    ensures s == [] <==> ls == []
    decreases |s|
  {
    if s == [] then []
    else
      var i := IndexOf(s, '\n');
      if i == |s| then [s] else [StripCr(s[..i])] + Lines(s[i + 1..])
  }

  /** The lines each followed by CRLF, as repeated `push_str(line); push_str("\r\n")` builds them. */
  function CrlfJoin(ls: seq<string>): string {
    if ls == [] then [] else CrlfJoin(ls[..|ls| - 1]) + ls[|ls| - 1] + "\r\n"
  }

  lemma {:induction false} CrlfJoinCons(l: string, ls: seq<string>)
    ensures CrlfJoin([l] + ls) == l + "\r\n" + CrlfJoin(ls)
    decreases |ls|
  {
    if ls == [] {
      assert ([l] + ls)[..0] == [];
    } else {
      var init := ls[..|ls| - 1];
      assert ([l] + ls)[..|ls|] == [l] + init;
      CrlfJoinCons(l, init);
    }
  }

  lemma {:induction false} CrlfJoinAppend(a: seq<string>, b: seq<string>)
    ensures CrlfJoin(a + b) == CrlfJoin(a) + CrlfJoin(b)
    decreases |b|
  {
    if b == [] {
      assert a + b == a;
    } else {
      assert (a + b)[..|a + b| - 1] == a + b[..|b| - 1];
      CrlfJoinAppend(a, b[..|b| - 1]);
    }
  }

  /** Pushing a line and a CRLF onto `a + b` extends `b`. */
  lemma AppendLine(a: string, b: string, l: string)
    ensures a + b + l + "\r\n" == a + (b + l + "\r\n")
  {
  }

  /** The text is empty exactly when there are no lines. */
  lemma CrlfJoinEmpty(ls: seq<string>)
    ensures CrlfJoin(ls) == [] <==> ls == []
  {
  }

  /** The first `\n` of `a + [c] + b` is the `c` when `a` holds none. */
  lemma IndexOfAfter(a: string, b: string)
    requires '\n' !in a
    ensures IndexOf(a + ['\n'] + b, '\n') == |a|
  {
    var s := a + ['\n'] + b;
    assert forall k :: 0 <= k < |a| ==> s[k] == a[k];
    assert s[|a|] == '\n';
  }

  /** A line break splits off the first line, with a trailing carriage return removed. */
  lemma LinesCons(a: string, b: string)
    requires '\n' !in a
    ensures Lines(a + "\n" + b) == [StripCr(a)] + Lines(b)
  {
    var s := a + "\n" + b;
    IndexOfAfter(a, b);
    assert s == a + ['\n'] + b;
    assert s[|a| + 1..] == b;
    assert s[..|a|] == a;
  }

  /**
   * Splitting a CRLF-terminated text into lines gives back the lines it was built from:
   * the frames built below can be read back line by line.
   */
  lemma {:induction false} LinesOfCrlfJoin(ls: seq<string>)
    requires forall k :: 0 <= k < |ls| ==> '\n' !in ls[k]
    ensures Lines(CrlfJoin(ls)) == ls
    decreases |ls|
  {
    if ls != [] {
      var l, rest := ls[0], ls[1..];
      assert ls == [l] + rest;
      CrlfJoinCons(l, rest);
      var s := CrlfJoin(ls);
      assert s == (l + "\r") + ['\n'] + CrlfJoin(rest);
      IndexOfAfter(l + "\r", CrlfJoin(rest));
      assert s[..|l| + 1] == l + "\r";
      assert StripCr(l + "\r") == l;
      assert s[|l| + 2..] == CrlfJoin(rest);
      LinesOfCrlfJoin(rest);
    }
  }

  // ----------------------------------------------------------------------------------
  // The request line split of both frame builders: `Regex::new("[ ]+").split(line)`
  // ----------------------------------------------------------------------------------

  /**
   * The `regex` crate's `split` on the pattern `[ ]+`: the pieces between maximal runs of
   * spaces (tabs are not separators), with an empty first or last piece when `s` starts or
   * ends with a space.
   */
  function SplitSpaces(s: string): (parts: seq<string>)
    ensures |parts| >= 1
    ensures forall k :: 0 <= k < |parts| ==> ' ' !in parts[k]
    ensures forall k :: 0 < k < |parts| - 1 ==> parts[k] != []
    ensures s != [] && s[0] != ' ' ==> parts[0] != []
    decreases |s|
  {
    var i := IndexOf(s, ' ');
    if i == |s| then [s]
    else
      var rest := s[i..];
      [s[..i]] + SplitSpaces(rest[RunOf(rest, ' ')..])
  }

  /** A character absent from the text is absent from every piece of its split. */
  lemma {:induction false} SplitSpacesKeepsOut(s: string, c: char)
    requires c !in s
    ensures forall k :: 0 <= k < |SplitSpaces(s)| ==> c !in SplitSpaces(s)[k]
    decreases |s|
  {
    var i := IndexOf(s, ' ');
    if i < |s| {
      var rest := s[i..];
      var tail := rest[RunOf(rest, ' ')..];
      assert c !in s[..i];
      assert c !in tail;
      SplitSpacesKeepsOut(tail, c);
    }
  }

  /** Tokens joined by single spaces. */
  function JoinSpaces(ts: seq<string>): string
    requires |ts| >= 1
  {
    if |ts| == 1 then ts[0] else ts[0] + " " + JoinSpaces(ts[1..])
  }

  lemma {:induction false} JoinSpacesStart(ts: seq<string>)
    requires |ts| >= 1
    ensures StartsWith(JoinSpaces(ts), ts[0])
  {
  }

  /** A token without spaces splits into itself. */
  lemma SplitSpacesSingle(t: string)
    requires ' ' !in t
    ensures SplitSpaces(t) == [t]
  {
    assert forall k :: 0 <= k < |t| ==> t[k] != ' ';
  }

  /** One step of the split: the piece before the first run of spaces, then the rest split. */
  lemma SplitSpacesAt(s: string, i: nat, n: nat)
    requires i < |s| && IndexOf(s, ' ') == i && RunOf(s[i..], ' ') == n
    ensures SplitSpaces(s) == [s[..i]] + SplitSpaces(s[i..][n..])
  {
  }

  /** In `t + " " + rest`, with no space in `t` and none starting `rest`, the one space follows `t`. */
  lemma SpaceAfterToken(t: string, rest: string)
    requires ' ' !in t
    requires rest != [] && rest[0] != ' '
    ensures var s := t + " " + rest;
            |t| < |s| && IndexOf(s, ' ') == |t| && RunOf(s[|t|..], ' ') == 1
            && s[..|t|] == t && s[|t|..][1..] == rest
  {
    var s := t + " " + rest;
    assert IndexOf(s, ' ') == |t| by {
      assert forall k :: 0 <= k < |t| ==> s[k] == t[k] && s[k] != ' ';
      assert s[|t|] == ' ';
    }
    var tail := s[|t|..];
    assert RunOf(tail, ' ') == 1 && tail[1..] == rest by {
      assert tail == " " + rest;
      assert tail[1] == rest[0];
    }
    assert s[..|t|] == t;
  }

  /** Splitting `t + " " + rest`, where `rest` starts with a non-space, peels off `t`. */
  lemma SplitSpacesStep(t: string, rest: string)
    requires ' ' !in t
    requires rest != [] && rest[0] != ' '
    ensures SplitSpaces(t + " " + rest) == [t] + SplitSpaces(rest)
  {
    SpaceAfterToken(t, rest);
    SplitSpacesAt(t + " " + rest, |t|, 1);
  }

  /**
   * Splitting tokens joined by single spaces gives the tokens back, so a request line
   * `<verb> <url> <version>` splits into exactly its three parts.
   */
  lemma {:induction false} SplitSpacesJoin(ts: seq<string>)
    requires |ts| >= 1
    requires forall k :: 0 <= k < |ts| ==> ts[k] != [] && ' ' !in ts[k]
    ensures SplitSpaces(JoinSpaces(ts)) == ts
    decreases |ts|
  {
    if |ts| == 1 {
      SplitSpacesSingle(ts[0]);
    } else {
      var rest := ts[1..];
      var j := JoinSpaces(rest);
      assert j != [] && j[0] != ' ' by {
        JoinSpacesStart(rest);
        assert rest[0] == ts[1];
        assert j[0] == rest[0][0];
      }
      assert forall k :: 0 <= k < |rest| ==> rest[k] != [] && ' ' !in rest[k] by {
        assert forall k :: 0 <= k < |rest| ==> rest[k] == ts[k + 1];
      }
      calc {
        SplitSpaces(JoinSpaces(ts));
        { assert JoinSpaces(ts) == ts[0] + " " + j; }
        SplitSpaces(ts[0] + " " + j);
        { SplitSpacesStep(ts[0], j); }
        [ts[0]] + SplitSpaces(j);
        { SplitSpacesJoin(rest); }
        [ts[0]] + rest;
        ts;
      }
    }
  }

  /** Rust's `u16`. */
  newtype u16 = x: int | 0 <= x < 0x1_0000

  // ----------------------------------------------------------------------------------
  // Decimal numbers (`format!("{}", n)` and `u16::from_str`)
  // ----------------------------------------------------------------------------------

  predicate IsDigit(c: char) {
    '0' <= c <= '9'
  }

  predicate AllDigits(s: string) {
    forall k :: 0 <= k < |s| ==> IsDigit(s[k])
  }

  function DigitChar(d: nat): (c: char)
    requires d < 10
    ensures IsDigit(c)
  {
    (48 + d) as char
  }

  function DigitValue(c: char): (d: nat)
    requires IsDigit(c)
    ensures d < 10
  {
    c as int - 48
  }

  /** `format!("{}", n)`: the decimal digits of `n`, without leading zeros. */
  function DecimalString(n: nat): (s: string)
    ensures |s| >= 1 && AllDigits(s)
    ensures |s| > 1 ==> s[0] != '0'
  {
    if n < 10 then [DigitChar(n)] else DecimalString(n / 10) + [DigitChar(n % 10)]
  }

  /** The value of a string of decimal digits (leading zeros allowed, as `from_str` allows them). */
  function DecimalValue(s: string): nat
    requires AllDigits(s)
  {
    if s == [] then 0 else 10 * DecimalValue(s[..|s| - 1]) + DigitValue(s[|s| - 1])
  }

  /** Reading back a formatted number gives the number. */
  lemma {:induction false} DecimalRoundTrip(n: nat)
    ensures DecimalValue(DecimalString(n)) == n
  {
    if n >= 10 {
      var s := DecimalString(n);
      assert s[..|s| - 1] == DecimalString(n / 10);
      DecimalRoundTrip(n / 10);
    }
  }

  // ----------------------------------------------------------------------------------
  // UTF-8 length (what Rust's `str::len` counts)
  // ----------------------------------------------------------------------------------

  /** Number of bytes in the UTF-8 encoding of `c`, per section 3 of RFC 3629. */
  function Utf8Width(c: char): (w: nat)
    ensures 1 <= w <= 4
    ensures w == 1 <==> c as int < 0x80
  {
    if c as int < 0x80 then 1
    else if c as int < 0x800 then 2
    else if c as int < 0x10000 then 3
    else 4
  }

  /** Rust's `str::len`: the number of bytes of the UTF-8 encoding of `s`. */
  function Utf8Len(s: string): (n: nat)
    ensures |s| <= n <= 4 * |s|
  {
    if s == [] then 0 else Utf8Width(s[0]) + Utf8Len(s[1..])
  }

  lemma {:induction false} Utf8LenAppend(a: string, b: string)
    ensures Utf8Len(a + b) == Utf8Len(a) + Utf8Len(b)
    decreases |a|
  {
    if a == [] {
      assert a + b == b;
    } else {
      assert (a + b)[0] == a[0];
      assert (a + b)[1..] == a[1..] + b;
      Utf8LenAppend(a[1..], b);
    }
  }

  /** On ASCII text the byte length is the character count. */
  lemma {:induction false} Utf8LenAscii(s: string)
    requires forall k :: 0 <= k < |s| ==> s[k] as int < 0x80
    ensures Utf8Len(s) == |s|
  {
    if s != [] {
      Utf8LenAscii(s[1..]);
    }
  }

  /** The byte length of a non-empty prefix splits into its first character and the rest. */
  lemma Utf8LenPrefix(s: string, k: nat)
    requires 1 <= k <= |s|
    ensures Utf8Len(s[..k]) == Utf8Width(s[0]) + Utf8Len(s[1..][..k - 1])
  {
    assert s[..k][0] == s[0];
    assert s[..k][1..] == s[1..][..k - 1];
  }

  /**
   * The number of leading characters of `s` whose encoding fills exactly the first `n`
   * bytes, or `None` when byte offset `n` is not a character boundary of `s` (where a
   * Rust slice `&s[0..n]` panics).
   */
  function CharsForBytes(s: string, n: nat): (r: Option<nat>)
    ensures r.Some? ==> r.value <= |s| && Utf8Len(s[..r.value]) == n
    ensures r.None? ==> forall k :: 0 <= k <= |s| ==> Utf8Len(s[..k]) != n
  {
    if n == 0 then Some(0)
    else if s == [] || Utf8Width(s[0]) > n then
      assert forall k :: 1 <= k <= |s| ==> Utf8Len(s[..k]) == Utf8Width(s[0]) + Utf8Len(s[1..][..k - 1]) by {
        forall k | 1 <= k <= |s|
          ensures Utf8Len(s[..k]) == Utf8Width(s[0]) + Utf8Len(s[1..][..k - 1])
        {
          Utf8LenPrefix(s, k);
        }
      }
      None
    else
      var rest := CharsForBytes(s[1..], n - Utf8Width(s[0]));
      assert forall k :: 1 <= k <= |s| ==> Utf8Len(s[..k]) == Utf8Width(s[0]) + Utf8Len(s[1..][..k - 1]) by {
        forall k | 1 <= k <= |s|
          ensures Utf8Len(s[..k]) == Utf8Width(s[0]) + Utf8Len(s[1..][..k - 1])
        {
          Utf8LenPrefix(s, k);
        }
      }
      if rest.None? then None else Some(rest.value + 1)
  }

  // ----------------------------------------------------------------------------------
  // Whitespace (the class `\s` of the `regex` crate)
  // ----------------------------------------------------------------------------------

  /** Unicode `White_Space`, which `\s` denotes when the `regex` crate is in Unicode mode. */
  predicate IsWhitespace(c: char) {
    var n := c as int;
    (0x09 <= n <= 0x0D) || n == 0x20 || n == 0x85 || n == 0xA0 || n == 0x1680
    || (0x2000 <= n <= 0x200A) || n == 0x2028 || n == 0x2029 || n == 0x202F
    || n == 0x205F || n == 0x3000
  }

  predicate AllWhitespace(s: string) {
    forall k :: 0 <= k < |s| ==> IsWhitespace(s[k])
  }

  /** Length of the run of whitespace that starts `s`. */
  function WhitespaceRun(s: string): (n: nat)
    ensures n <= |s|
    ensures forall k :: 0 <= k < n ==> IsWhitespace(s[k])
    ensures n < |s| ==> !IsWhitespace(s[n])
  {
    if s == [] || !IsWhitespace(s[0]) then 0 else 1 + WhitespaceRun(s[1..])
  }

  lemma {:induction false} WhitespaceRunPrefix(ws: string, t: string)
    requires AllWhitespace(ws)
    requires t == [] || !IsWhitespace(t[0])
    ensures WhitespaceRun(ws + t) == |ws|
    decreases |ws|
  {
    if ws == [] {
      assert ws + t == t;
    } else {
      assert (ws + t)[1..] == ws[1..] + t;
      WhitespaceRunPrefix(ws[1..], t);
    }
  }

  // ----------------------------------------------------------------------------------
  // Replacement (`str::replace`)
  // ----------------------------------------------------------------------------------

  /**
   * Rust's `str::replace(pat, rep)` for a non-empty pattern: the occurrences of `pat` found
   * scanning left to right, never overlapping, each replaced by `rep`; the text between
   * them is kept as it is, so the result is the `SplitOn` pieces joined with `rep`.
   */
  function ReplaceAll(s: string, pat: string, rep: string): (r: string)
    requires pat != []
    ensures r == Join(SplitOn(s, pat), rep)
    decreases |s|
  {
    if |s| < |pat| then s
    else if s[..|pat|] == pat then
      var tail := s[|pat|..];
      SplitOnAtMatch(s, pat);
      JoinCons([], SplitOn(tail, pat), rep);
      rep + ReplaceAll(tail, pat, rep)
    else
      var tail := s[1..];
      SplitOnAtOther(s, pat);
      JoinConsFirst(SplitOn(tail, pat), s[0], rep);
      [s[0]] + ReplaceAll(tail, pat, rep)
  }

  /**
   * The cut of `s` at the occurrences of `pat` that `ReplaceAll` replaces: the texts between
   * them, in order.
   */
  function SplitOn(s: string, pat: string): (parts: seq<string>)
    requires pat != []
    ensures |parts| >= 1
    decreases |s|
  {
    if |s| < |pat| then [s]
    else if s[..|pat|] == pat then [[]] + SplitOn(s[|pat|..], pat)
    else
      var rest := SplitOn(s[1..], pat);
      [[s[0]] + rest[0]] + rest[1..]
  }

  /** Pieces joined with a separator. */
  function Join(parts: seq<string>, sep: string): string
    requires |parts| >= 1
  {
    if |parts| == 1 then parts[0] else parts[0] + sep + Join(parts[1..], sep)
  }

  /** `SplitOn` at an occurrence of the pattern: an empty piece, then the rest split. */
  lemma SplitOnAtMatch(s: string, pat: string)
    requires pat != [] && |s| >= |pat| && s[..|pat|] == pat
    ensures SplitOn(s, pat) == [[]] + SplitOn(s[|pat|..], pat)
  {
  }

  /** `SplitOn` elsewhere: the first character joins the first piece of the rest. */
  lemma SplitOnAtOther(s: string, pat: string)
    requires pat != [] && |s| >= |pat| && s[..|pat|] != pat
    ensures var rest := SplitOn(s[1..], pat);
            SplitOn(s, pat) == [[s[0]] + rest[0]] + rest[1..]
  {
  }

  /** Joining a first piece onto at least one more. */
  lemma JoinCons(x: string, parts: seq<string>, sep: string)
    requires |parts| >= 1
    ensures Join([x] + parts, sep) == x + sep + Join(parts, sep)
  {
    assert ([x] + parts)[1..] == parts;
  }

  /** `SplitOn` cuts `s` at occurrences of `pat`: joining the pieces with `pat` gives `s` back. */
  lemma {:induction false} JoinSplitOn(s: string, pat: string)
    requires pat != []
    ensures Join(SplitOn(s, pat), pat) == s
    decreases |s|
  {
    if |s| >= |pat| {
      if s[..|pat|] == pat {
        var tail := s[|pat|..];
        calc {
          Join(SplitOn(s, pat), pat);
          { SplitOnAtMatch(s, pat); }
          Join([[]] + SplitOn(tail, pat), pat);
          { JoinCons([], SplitOn(tail, pat), pat); }
          [] + pat + Join(SplitOn(tail, pat), pat);
          { JoinSplitOn(tail, pat); }
          [] + pat + tail;
          { assert s == s[..|pat|] + tail; }
          s;
        }
      } else {
        var tail := s[1..];
        var rest := SplitOn(tail, pat);
        calc {
          Join(SplitOn(s, pat), pat);
          { SplitOnAtOther(s, pat); }
          Join([[s[0]] + rest[0]] + rest[1..], pat);
          { JoinConsFirst(rest, s[0], pat); }
          [s[0]] + Join(rest, pat);
          { JoinSplitOn(tail, pat); }
          [s[0]] + tail;
          s;
        }
      }
    }
  }

  /** Prepending a character to the first piece prepends it to the joined text. */
  lemma JoinConsFirst(parts: seq<string>, c: char, sep: string)
    requires |parts| >= 1
    ensures Join([[c] + parts[0]] + parts[1..], sep) == [c] + Join(parts, sep)
  {
    var ps := [[c] + parts[0]] + parts[1..];
    if |parts| > 1 {
      assert ps[1..] == parts[1..];
    }
  }

  /** No piece of `SplitOn` contains the pattern: every occurrence was cut. */
  lemma {:induction false} SplitOnPiecesFree(s: string, pat: string)
    requires pat != []
    ensures forall k :: 0 <= k < |SplitOn(s, pat)| ==> !Occurs(SplitOn(s, pat)[k], pat)
    decreases |s|
  {
    var parts := SplitOn(s, pat);
    if |s| < |pat| {
      NoOccurrenceInShort(s, pat);
    } else if s[..|pat|] == pat {
      var tail := s[|pat|..];
      SplitOnPiecesFree(tail, pat);
      NoOccurrenceInShort([], pat);
      forall k | 0 < k < |parts|
        ensures !Occurs(parts[k], pat)
      {
        assert parts[k] == SplitOn(tail, pat)[k - 1];
      }
    } else {
      var tail := s[1..];
      var rest := SplitOn(tail, pat);
      SplitOnPiecesFree(tail, pat);
      JoinSplitOn(tail, pat);
      JoinStartsWithFirst(rest, pat);
      NoOccurrenceAfterMismatch(s, pat, rest[0]);
      forall k | 0 < k < |parts|
        ensures !Occurs(parts[k], pat)
      {
        assert parts[k] == rest[k];
      }
    }
  }

  lemma NoOccurrenceInShort(s: string, pat: string)
    requires |s| < |pat|
    ensures !Occurs(s, pat)
  {
  }

  lemma {:induction false} JoinStartsWithFirst(parts: seq<string>, sep: string)
    requires |parts| >= 1
    ensures StartsWith(Join(parts, sep), parts[0])
  {
  }

  /** A piece that starts at a mismatch and continues without occurrences has none. */
  lemma NoOccurrenceAfterMismatch(s: string, pat: string, piece: string)
    requires pat != [] && |pat| <= |s| && s[..|pat|] != pat
    requires StartsWith(s[1..], piece)
    requires !Occurs(piece, pat)
    ensures !Occurs([s[0]] + piece, pat)
  {
    var h := [s[0]] + piece;
    forall i: nat | OccursAt(h, pat, i)
      ensures false
    {
      if i > 0 {
        assert OccursAt(piece, pat, i - 1) by {
          assert piece[i - 1..i - 1 + |pat|] == h[i..i + |pat|];
        }
      }
    }
  }

  /** A replacement that starts with the pattern leaves the pattern visible wherever it occurred. */
  lemma {:induction false} ReplaceKeepsPattern(s: string, pat: string, rep: string, i: nat)
    requires pat != [] && StartsWith(rep, pat) && OccursAt(s, pat, i)
    ensures Occurs(ReplaceAll(s, pat, rep), pat)
    decreases |s|
  {
    var r := ReplaceAll(s, pat, rep);
    if s[..|pat|] == pat {
      assert r == rep + ReplaceAll(s[|pat|..], pat, rep);
      assert r[0..|pat|] == rep[..|pat|];
      assert OccursAt(r, pat, 0);
    } else {
      assert i >= 1;
      OccursInTail(s, pat, i);
      ReplaceKeepsPattern(s[1..], pat, rep, i - 1);
      var t := ReplaceAll(s[1..], pat, rep);
      var j: nat :| j <= |t| && OccursAt(t, pat, j);
      assert r == [s[0]] + t;
      OccursAfterChar(s[0], t, pat, j);
    }
  }

  /** An occurrence past the first character is an occurrence in the rest. */
  lemma OccursInTail(s: string, pat: string, i: nat)
    requires 1 <= i && OccursAt(s, pat, i)
    ensures OccursAt(s[1..], pat, i - 1)
  {
    assert s[1..][i - 1..i - 1 + |pat|] == s[i..i + |pat|];
  }

  /** An occurrence in `t` is one in `[c] + t`, one place later. */
  lemma OccursAfterChar(c: char, t: string, pat: string, j: nat)
    requires OccursAt(t, pat, j)
    ensures Occurs([c] + t, pat)
  {
    assert ([c] + t)[j + 1..j + 1 + |pat|] == t[j..j + |pat|];
    assert OccursAt([c] + t, pat, j + 1);
  }

  /** Text without the pattern is left as it is. */
  lemma {:induction false} ReplaceAllAbsent(s: string, pat: string, rep: string)
    requires pat != [] && !Occurs(s, pat)
    ensures ReplaceAll(s, pat, rep) == s
    decreases |s|
  {
    if |s| >= |pat| {
      assert !OccursAt(s, pat, 0);
      assert s[0..|pat|] == s[..|pat|];
      assert !Occurs(s[1..], pat) by {
        forall i: nat | OccursAt(s[1..], pat, i)
          ensures false
        {
          assert s[i + 1..i + 1 + |pat|] == s[1..][i..i + |pat|];
          assert OccursAt(s, pat, i + 1);
        }
      }
      ReplaceAllAbsent(s[1..], pat, rep);
    }
  }
}
