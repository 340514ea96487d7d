/**
 * The status line of `src/ui/status_line.rs`: after a response arrives it shows the
 * response's status (the first line after its first space) and the elapsed milliseconds,
 * each as a Pango `<span>` whose background colour classifies it.
 */
module Ui {
  import opened Wrappers
  import opened Text

  const GREEN: string := "#088A29"
  const ORANGE: string := "#FE642E"
  const RED: string := "#B40404"

  /** The three pieces of the fixed span template around its colour and its text. */
  const SPAN_OPEN: string := "<span face=\"monospace\" background=\""
  const SPAN_SIZE: string := "\" size=\"large\"> "
  const SPAN_CLOSE: string := " </span>"

  /** `<span face="monospace" background="{color}" size="large"> {text} </span>`. */
  function Span(color: string, text: string): string {
    SPAN_OPEN + color + SPAN_SIZE + text + SPAN_CLOSE
  }

  /** The colour of a span whose colour has the 7 characters of `#RRGGBB`. */
  function SpanColor(markup: string): string
    requires |markup| >= |SPAN_OPEN| + 7
  {
    markup[|SPAN_OPEN|..|SPAN_OPEN| + 7]
  }

  /** The text of a span whose colour has the 7 characters of `#RRGGBB`. */
  function SpanText(markup: string): string
    requires |markup| >= |SPAN_OPEN| + 7 + |SPAN_SIZE| + |SPAN_CLOSE|
  {
    markup[|SPAN_OPEN| + 7 + |SPAN_SIZE|..|markup| - |SPAN_CLOSE|]
  }

  /** A span can be read back: its colour and its text are the ones it was built from. */
  lemma SpanRoundTrip(color: string, text: string)
    requires |color| == 7
    ensures var m := Span(color, text);
            |m| >= |SPAN_OPEN| + 7 + |SPAN_SIZE| + |SPAN_CLOSE|
            && SpanColor(m) == color && SpanText(m) == text
  {
    var m := Span(color, text);
    var a := |SPAN_OPEN|;
    var b := a + 7 + |SPAN_SIZE|;
    assert m == SPAN_OPEN + color + SPAN_SIZE + text + SPAN_CLOSE;
    assert m[a..a + 7] == color;
    assert m[b..|m| - |SPAN_CLOSE|] == text;
  }

  // ----------------------------------------------------------------------------------
  // build_markup_for_status
  // ----------------------------------------------------------------------------------

  /** The colour for a status, chosen by its first character. */
  function StatusColor(status: string): (c: string)
    ensures c == GREEN <==> status != [] && (status[0] == '2' || status[0] == '3')
    ensures c == ORANGE <==> status != [] && status[0] == '4'
    ensures c == RED <==> status == [] || status[0] !in "234"
  {
    if status == [] then RED
    else match status[0]
      case '2' => GREEN
      case '3' => GREEN
      case '4' => ORANGE
      case _ => RED
  }

  /**
   * `build_markup_for_status`: the status in a span of its colour, from which the
   * colour and the status itself read back unchanged.
   */
  function StatusMarkup(status: string): (m: string)
    ensures |m| >= |SPAN_OPEN| + 7 + |SPAN_SIZE| + |SPAN_CLOSE|
    ensures SpanColor(m) == StatusColor(status) && SpanText(m) == status
  {
    SpanRoundTrip(StatusColor(status), status);
    Span(StatusColor(status), status)
  }

  /** The first character of a three-digit code's decimal text is its hundreds digit. */
  lemma HundredsDigit(code: nat)
    requires 100 <= code <= 999
    ensures DecimalString(code)[0] == DigitChar(code / 100)
  {
    assert DecimalString(code) == DecimalString(code / 10) + [DigitChar(code % 10)];
    assert (code / 10) / 10 == code / 100;
    assert DecimalString(code / 10) == DecimalString(code / 100) + [DigitChar((code / 10) % 10)];
  }

  /**
   * For a status line such as `404 Not Found`, the colour follows the status class:
   * success and redirection green, client errors orange, the rest red.
   */
  lemma StatusCodeColor(code: nat, reason: string)
    requires 100 <= code <= 999
    ensures StatusColor(DecimalString(code) + " " + reason)
            == if 200 <= code < 400 then GREEN else if 400 <= code < 500 then ORANGE else RED
  {
    HundredsDigit(code);
    var s := DecimalString(code) + " " + reason;
    assert s[0] == DigitChar(code / 100);
  }

  // ----------------------------------------------------------------------------------
  // build_markup_for_elapsed
  // ----------------------------------------------------------------------------------

  /** The colour for an elapsed time: green below 700 ms, red from 700 ms on. */
  function ElapsedColor(elapsed: nat): (c: string)
    ensures c == GREEN <==> elapsed < 700
    ensures c == RED <==> elapsed >= 700
  {
    if elapsed < 700 then GREEN else RED
  }

  /**
   * `build_markup_for_elapsed`: `<n>ms` in a span of its colour; the text reads back as
   * decimal digits for the number given, followed by `ms`.
   */
  function ElapsedMarkup(elapsed: nat): (m: string)
    ensures |m| >= |SPAN_OPEN| + 7 + |SPAN_SIZE| + |SPAN_CLOSE|
    ensures SpanColor(m) == ElapsedColor(elapsed)
    ensures var t := SpanText(m);
            |t| >= 2 && t[|t| - 2..] == "ms" && AllDigits(t[..|t| - 2])
            && DecimalValue(t[..|t| - 2]) == elapsed
  {
    var digits := DecimalString(elapsed);
    var t := digits + "ms";
    SpanRoundTrip(ElapsedColor(elapsed), t);
    assert t[..|t| - 2] == digits;
    DecimalRoundTrip(elapsed);
    Span(ElapsedColor(elapsed), t)
  }

  // ----------------------------------------------------------------------------------
  // StatusLine
  // ----------------------------------------------------------------------------------

  /** A `std::time::Duration`: whole seconds and the nanoseconds below one second. */
  datatype Duration = Duration(secs: nat, nanos: nat)

  predicate ValidDuration(d: Duration) {
    d.nanos < 1_000_000_000
  }

  /**
   * The milliseconds `update_view` shows, `subsec_millis() + as_secs() * 1000`: the whole
   * duration in milliseconds, rounded down.
   */
  function Millis(d: Duration): (m: nat)
    ensures ValidDuration(d) ==> m == (d.secs * 1_000_000_000 + d.nanos) / 1_000_000
  {
    var q := d.nanos / 1_000_000;
    var r := d.nanos % 1_000_000;
    assert d.nanos == q * 1_000_000 + r;
    assert d.secs * 1_000_000_000 + d.nanos == (d.secs * 1000 + q) * 1_000_000 + r;
    q + d.secs * 1000
  }

  /** The first line of a response, or `""` when it has none. */
  function FirstLine(response: string): string {
    var ls := Lines(response);
    if ls == [] then "" else ls[0]
  }

  /**
   * The status shown for a response: its first line after the first space, the whole line
   * when it has no space.
   */
  function StatusText(response: string): (s: string)
    ensures var line := FirstLine(response);
            (' ' !in line ==> s == line)
            && (' ' in line ==> exists head :: ' ' !in head && line == head + " " + s)
  {
    var line := FirstLine(response);
    match SplitOnce(line, ' ')
    case Some((head, rest)) => assert line == head + " " + rest; rest
    case None => line
  }

  /** For a response starting with `<version> <status>` and CRLF, the status shown is `<status>`. */
  lemma StatusOfStatusLine(version: string, status: string, rest: string)
    requires ' ' !in version && '\n' !in version && '\n' !in status
    ensures StatusText(version + " " + status + "\r\n" + rest) == status
  {
    var line := version + " " + status;
    var response := version + " " + status + "\r\n" + rest;
    assert response == (line + "\r") + "\n" + rest;
    assert '\n' !in line + "\r" by {
      assert forall k :: 0 <= k < |line + "\r"| ==> (line + "\r")[k] != '\n' by {
        forall k | 0 <= k < |line + "\r"|
          ensures (line + "\r")[k] != '\n'
        {
          if k < |version| {
            assert (line + "\r")[k] == version[k];
          } else if |version| < k < |line| {
            assert (line + "\r")[k] == status[k - |version| - 1];
          }
        }
      }
    }
    LinesCons(line + "\r", rest);
    assert (line + "\r")[..|line|] == line;
    assert FirstLine(response) == line;
    assert line[|version|] == ' ';
    assert line == version + [' '] + status;
    assert SplitOnce(line, ' ') == Some((version, status)) by {
      assert IndexOf(line, ' ') == |version| by {
        assert forall k :: 0 <= k < |version| ==> line[k] == version[k];
      }
      assert line[..|version|] == version;
      assert line[|version| + 1..] == status;
    }
  }

  /** The model of the status line component. */
  class StatusLine {
    var statusLine: string
    var elapsed: Option<Duration>

    /** Nothing received yet: no status and no elapsed time. */
    constructor ()
      ensures statusLine == "" && elapsed == None
    {
      statusLine := "";
      elapsed := None;
    }

    /** `update` on `ReceivingHttpResponse(response, elapsed)`. */
    method Update(response: string, duration: Duration)
      modifies this
      ensures statusLine == StatusText(response)
      ensures elapsed == Some(duration)
    {
      var ls := Lines(response);
      var firstLine := if ls == [] then "" else ls[0];
      var parts := SplitOnce(firstLine, ' ');
      statusLine := if parts.Some? then parts.value.1 else firstLine;
      elapsed := Some(duration);
    }

    /** The status label's markup that `update_view` sets: the status on its colour. */
    function StatusView(): (v: string)
      reads this
      ensures |v| >= |SPAN_OPEN| + 7 + |SPAN_SIZE| + |SPAN_CLOSE|
      ensures SpanColor(v) == StatusColor(statusLine) && SpanText(v) == statusLine
    {
      StatusMarkup(statusLine)
    }

    /**
     * The elapsed label's markup that `update_view` sets once a duration is known: the
     * whole milliseconds of the duration followed by `ms`, on their colour.
     */
    function ElapsedView(): (v: Option<string>)
      reads this
      ensures v.Some? <==> elapsed.Some?
      ensures v.Some? ==>
                var ms := Millis(elapsed.value);
                |v.value| >= |SPAN_OPEN| + 7 + |SPAN_SIZE| + |SPAN_CLOSE|
                && SpanColor(v.value) == ElapsedColor(ms)
                && var t := SpanText(v.value);
                |t| >= 2 && t[|t| - 2..] == "ms" && AllDigits(t[..|t| - 2])
                && DecimalValue(t[..|t| - 2]) == ms
    {
      match elapsed
      case None => None
      case Some(d) =>
        Some(ElapsedMarkup(Millis(d)))
    }
  }
}
