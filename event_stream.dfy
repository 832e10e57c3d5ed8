/**
 * The events the chat gateway sends and their wire form: each event's JSON payload as Python's
 * `json.dumps` writes it (ASCII only, `ensure_ascii`), framed as `data: <payload>\n\n` in the
 * event-stream format of section 9.2 of the WHATWG HTML Living Standard. A reader for that format
 * and a decoder for the payloads recover exactly the events that were sent.
 */
module EventStream {
  import opened Wrappers

  /** One outbound event: a text fragment, the end of the reply, or a relay error. */
  datatype Event = Text(text: string) | Done | Error(message: string)

  /** Every character is printable ASCII (space to tilde): no line break can occur. */
  predicate Printable(s: string) {
    forall i :: 0 <= i < |s| ==> ' ' <= s[i] <= '~'
  }

  lemma NoLineFeed(s: string)
    requires Printable(s)
    ensures '\n' !in s
  {
  }

  lemma PrintableConcat(a: string, b: string)
    requires Printable(a) && Printable(b)
    ensures Printable(a + b)
  {
    forall i | 0 <= i < |a + b| ensures ' ' <= (a + b)[i] <= '~' {
      if i >= |a| { assert (a + b)[i] == b[i - |a|]; }
    }
  }

  // ---------------------------------------------------------------------------
  // Hexadecimal digits of `\uXXXX` escapes

  /** The lower-case hexadecimal digit for `d`. */
  function HexDigit(d: nat): (c: char)
    requires d < 16
    ensures '0' <= c <= '9' || 'a' <= c <= 'f'
  {
    if d < 10 then ('0' as int + d) as char else ('a' as int + d - 10) as char
  }

  predicate IsHexDigit(c: char) {
    '0' <= c <= '9' || 'a' <= c <= 'f' || 'A' <= c <= 'F'
  }

  function DigitValue(c: char): (d: nat)
    requires IsHexDigit(c)
    ensures d < 16
  {
    if '0' <= c <= '9' then c as int - '0' as int
    else if 'a' <= c <= 'f' then c as int - 'a' as int + 10
    else c as int - 'A' as int + 10
  }

  /** Four lower-case hexadecimal digits, most significant first (`'{0:04x}'.format(n)`). */
  function Hex4(n: nat): (h: string)
    requires n < 0x10000
    ensures |h| == 4 && Printable(h)
  {
    [HexDigit(n / 16 / 16 / 16), HexDigit(n / 16 / 16 % 16), HexDigit(n / 16 % 16), HexDigit(n % 16)]
  }

  predicate IsHex4(h: string) {
    |h| == 4 && IsHexDigit(h[0]) && IsHexDigit(h[1]) && IsHexDigit(h[2]) && IsHexDigit(h[3])
  }

  function Hex4Value(h: string): (n: nat)
    requires IsHex4(h)
    ensures n < 0x10000
  {
    DigitValue(h[0]) * 0x1000 + DigitValue(h[1]) * 0x100 + DigitValue(h[2]) * 0x10 + DigitValue(h[3])
  }

  lemma HexDigitValue(d: nat)
    requires d < 16
    ensures IsHexDigit(HexDigit(d)) && DigitValue(HexDigit(d)) == d
  {
  }

  lemma Hex4RoundTrip(n: nat)
    requires n < 0x10000
    ensures IsHex4(Hex4(n)) && Hex4Value(Hex4(n)) == n
  {
    var q1 := n / 16;
    var q2 := q1 / 16;
    var q3 := q2 / 16;
    HexDigitValue(q3);
    HexDigitValue(q2 % 16);
    HexDigitValue(q1 % 16);
    HexDigitValue(n % 16);
    assert n == q1 * 16 + n % 16;
    assert q1 == q2 * 16 + q1 % 16;
    assert q2 == q3 * 16 + q2 % 16;
  }

  // ---------------------------------------------------------------------------
  // JSON string literals

  /** The escape `json.dumps` writes for one character of a string. */
  function EscapeChar(c: char): (r: string)
    ensures Printable(r) && 1 <= |r|
  {
    if c == '"' then "\\\""
    else if c == '\\' then "\\\\"
    else if c == '\n' then "\\n"
    else if c == '\r' then "\\r"
    else if c == '\t' then "\\t"
    else if c == '\U{8}' then "\\b"
    else if c == '\U{C}' then "\\f"
    else if ' ' <= c <= '~' then [c]
    else if c as int < 0x10000 then "\\u" + Hex4(c as int)
    else
      // a character outside the basic plane becomes a UTF-16 surrogate pair
      "\\u" + Hex4(HighSurrogate(c)) + "\\u" + Hex4(LowSurrogate(c))
  }

  /** The body of the JSON string literal for `s`, without the enclosing quotes. */
  function EscapeAll(s: string): string {
    if s == [] then [] else EscapeChar(s[0]) + EscapeAll(s[1..])
  }

  /** Escaping leaves only printable characters. */
  lemma {:induction false} EscapeAllPrintable(s: string)
    ensures Printable(EscapeAll(s))
  {
    if s != [] {
      EscapeAllPrintable(s[1..]);
      PrintableConcat(EscapeChar(s[0]), EscapeAll(s[1..]));
    }
  }

  /** The rest of a JSON string literal after its opening quote, followed by the object's `}`. */
  function Closing(s: string): (r: string)
    ensures Printable(r)
  {
    EscapeAllPrintable(s);
    PrintableConcat(EscapeAll(s), "\"}");
    EscapeAll(s) + "\"}"
  }

  /** Prefix `c` to the decoded part of a decoding result. */
  function Cons(c: char, r: Option<(string, string)>): Option<(string, string)> {
    match r
    case None => None
    case Some(p) => Some(([c] + p.0, p.1))
  }

  /** The character a two-character escape `\c` stands for, if `c` introduces one. */
  function ShortEscape(c: char): Option<char> {
    if c == '"' then Some('"')
    else if c == '\\' then Some('\\')
    else if c == '/' then Some('/')
    else if c == 'n' then Some('\n')
    else if c == 'r' then Some('\r')
    else if c == 't' then Some('\t')
    else if c == 'b' then Some('\U{8}')
    else if c == 'f' then Some('\U{C}')
    else None
  }

  /**
   * A `\uXXXX` escape, or a surrogate pair of two of them, at the start of `t`: the character
   * and the number of characters the escape takes. A lone surrogate is no character.
   */
  function UnicodeEscape(t: string): (r: Option<(char, nat)>)
    ensures r.Some? ==> r.value.1 in {6, 12} && r.value.1 <= |t|
  {
    if |t| < 6 || t[0] != '\\' || t[1] != 'u' || !IsHex4(t[2..6]) then None
    else
      var u := Hex4Value(t[2..6]);
      if u < 0xD800 || 0xE000 <= u then Some((u as char, 6))
      else if 0xDC00 <= u || |t| < 12 || t[6] != '\\' || t[7] != 'u' || !IsHex4(t[8..12]) then None
      else
        var lo := Hex4Value(t[8..12]);
        if lo < 0xDC00 || 0xE000 <= lo then None
        else Some(((0x10000 + (u - 0xD800) * 0x400 + (lo - 0xDC00)) as char, 12))
  }

  /**
   * Reads the body of a JSON string literal from the start of `t` up to its closing quote:
   * the decoded string and what follows the quote, or None if `t` is not such a body.
   */
  function Unescape(t: string): Option<(string, string)>
    decreases |t|
  {
    if t == [] then None
    else if t[0] == '"' then Some(([], t[1..]))
    else if t[0] < ' ' then None
    else if t[0] != '\\' then Cons(t[0], Unescape(t[1..]))
    else if |t| >= 2 && ShortEscape(t[1]).Some? then Cons(ShortEscape(t[1]).value, Unescape(t[2..]))
    else match UnicodeEscape(t)
      case None => None
      case Some((c, n)) => Cons(c, Unescape(t[n..]))
  }

  lemma UnescapeShort(c: char, tail: string)
    requires c in "\"\\\n\r\t\U{8}\U{C}"
    ensures Unescape(EscapeChar(c) + tail) == Cons(c, Unescape(tail))
  {
    var t := EscapeChar(c) + tail;
    assert |EscapeChar(c)| == 2 && EscapeChar(c)[0] == '\\';
    assert t[1] == EscapeChar(c)[1];
    assert t[2..] == tail;
  }

  lemma UnescapeBasic(c: char, tail: string)
    requires c !in "\"\\\n\r\t\U{8}\U{C}" && c as int < 0x10000
    ensures Unescape(EscapeChar(c) + tail) == Cons(c, Unescape(tail))
  {
    var t := EscapeChar(c) + tail;
    if ' ' <= c <= '~' {
      assert t[1..] == tail;
    } else {
      Hex4RoundTrip(c as int);
      assert t == "\\u" + Hex4(c as int) + tail;
      assert t[2..6] == Hex4(c as int);
      assert UnicodeEscape(t) == Some((c, 6));
      assert t[6..] == tail;
    }
  }

  /** The high and low halves of the UTF-16 surrogate pair for `c`. */
  function HighSurrogate(c: char): (hi: nat)
    requires 0x10000 <= c as int
    ensures 0xD800 <= hi < 0xDC00
  {
    0xD800 + (c as int - 0x10000) / 0x400
  }

  function LowSurrogate(c: char): (lo: nat)
    requires 0x10000 <= c as int
    ensures 0xDC00 <= lo < 0xE000
  {
    0xDC00 + (c as int - 0x10000) % 0x400
  }

  lemma SurrogateHalves(c: char)
    requires 0x10000 <= c as int
    ensures 0x10000 + (HighSurrogate(c) - 0xD800) * 0x400 + (LowSurrogate(c) - 0xDC00) == c as int
  {
    var n := c as int - 0x10000;
    assert n == (n / 0x400) * 0x400 + n % 0x400;
  }

  /** Two `\uXXXX` escapes forming a surrogate pair decode to one character. */
  lemma PairDecodes(hi: nat, lo: nat, tail: string)
    requires 0xD800 <= hi < 0xDC00 && 0xDC00 <= lo < 0xE000
    requires 0x10000 + (hi - 0xD800) * 0x400 + (lo - 0xDC00) < 0x110000
    ensures UnicodeEscape("\\u" + Hex4(hi) + "\\u" + Hex4(lo) + tail)
      == Some(((0x10000 + (hi - 0xD800) * 0x400 + (lo - 0xDC00)) as char, 12))
  {
    var t := "\\u" + Hex4(hi) + "\\u" + Hex4(lo) + tail;
    Hex4RoundTrip(hi);
    Hex4RoundTrip(lo);
    assert t[2..6] == Hex4(hi);
    assert t[8..12] == Hex4(lo);
  }

  /** The escape of a character outside the basic plane is a surrogate pair that decodes back to it. */
  lemma SurrogatePair(c: char, tail: string)
    requires 0x10000 <= c as int
    ensures |EscapeChar(c)| == 12 && EscapeChar(c)[..2] == "\\u"
    ensures UnicodeEscape(EscapeChar(c) + tail) == Some((c, 12))
  {
    var hi, lo := HighSurrogate(c), LowSurrogate(c);
    assert EscapeChar(c) == "\\u" + Hex4(hi) + "\\u" + Hex4(lo);
    SurrogateHalves(c);
    PairDecodes(hi, lo, tail);
  }

  lemma UnescapeSurrogates(c: char, tail: string)
    requires 0x10000 <= c as int
    ensures Unescape(EscapeChar(c) + tail) == Cons(c, Unescape(tail))
  {
    var t := EscapeChar(c) + tail;
    SurrogatePair(c, tail);
    assert t[0] == '\\' && t[1] == 'u';
    assert t[12..] == tail;
  }

  /** Decoding one escaped character and then the rest decodes the character and then the rest. */
  lemma UnescapeChar(c: char, tail: string)
    ensures Unescape(EscapeChar(c) + tail) == Cons(c, Unescape(tail))
  {
    if c in "\"\\\n\r\t\U{8}\U{C}" {
      UnescapeShort(c, tail);
    } else if c as int < 0x10000 {
      UnescapeBasic(c, tail);
    } else {
      UnescapeSurrogates(c, tail);
    }
  }

  /** An escaped character in front of a decodable body is decoded in front of its result. */
  lemma EscapedPrefix(c: char, t: string, decoded: string, after: string)
    requires Unescape(t) == Some((decoded, after))
    ensures Unescape(EscapeChar(c) + t) == Some(([c] + decoded, after))
  {
    UnescapeChar(c, t);
  }

  /** The body of a quoted string decodes back to the string, leaving what follows the closing quote. */
  lemma {:induction false} UnescapeRoundTrip(s: string, rest: string)
    ensures Unescape(EscapeAll(s) + ("\"" + rest)) == Some((s, rest))
  {
    var tail := "\"" + rest;
    if s == [] {
      assert EscapeAll(s) + tail == tail;
      assert tail[1..] == rest;
    } else {
      var t := EscapeAll(s[1..]) + tail;
      assert EscapeAll(s) + tail == EscapeChar(s[0]) + t;
      UnescapeRoundTrip(s[1..], rest);
      EscapedPrefix(s[0], t, s[1..], rest);
      assert [s[0]] + s[1..] == s;
    }
  }



  // ---------------------------------------------------------------------------
  // Payloads and frames

  /** The start of a `{'text': t}` payload, up to the opening quote of `t`. */
  const TEXT_KEY: string := "{\"text\": \""
  /** The start of an `{'error': m}` payload, up to the opening quote of `m`. */
  const ERROR_KEY: string := "{\"error\": \""
  /** The `{'done': True}` payload. */
  const DONE_PAYLOAD: string := "{\"done\": true}"

  /** `json.dumps` of `{'text': t}`, `{'done': True}` and `{'error': m}`, with its default separators. */
  function Payload(e: Event): (p: string)
    ensures Printable(p)
  {
    match e
    case Text(t) => PrintableConcat(TEXT_KEY, Closing(t)); TEXT_KEY + Closing(t)
    case Done => DONE_PAYLOAD
    case Error(m) => PrintableConcat(ERROR_KEY, Closing(m)); ERROR_KEY + Closing(m)
  }

  /** Reads back a payload written by `Payload`. */
  function DecodePayload(p: string): Option<Event> {
    if p == DONE_PAYLOAD then Some(Done)
    else if |p| >= |TEXT_KEY| && p[..|TEXT_KEY|] == TEXT_KEY then
      match Unescape(p[|TEXT_KEY|..])
      case Some((t, after)) => if after == "}" then Some(Text(t)) else None
      case None => None
    else if |p| >= |ERROR_KEY| && p[..|ERROR_KEY|] == ERROR_KEY then
      match Unescape(p[|ERROR_KEY|..])
      case Some((m, after)) => if after == "}" then Some(Error(m)) else None
      case None => None
    else None
  }

  lemma ClosingDecodes(t: string)
    ensures Unescape(Closing(t)) == Some((t, "}"))
  {
    UnescapeRoundTrip(t, "}");
    assert "\"}" == "\"" + "}";
  }

  lemma TextRoundTrip(t: string)
    ensures DecodePayload(Payload(Text(t))) == Some(Text(t))
  {
    var p := TEXT_KEY + Closing(t);
    assert p[2] == 't' != DONE_PAYLOAD[2];
    assert p[..|TEXT_KEY|] == TEXT_KEY && p[|TEXT_KEY|..] == Closing(t);
    ClosingDecodes(t);
  }

  lemma ErrorRoundTrip(m: string)
    ensures DecodePayload(Payload(Error(m))) == Some(Error(m))
  {
    var p := ERROR_KEY + Closing(m);
    assert p[2] == 'e' != DONE_PAYLOAD[2];
    assert p[..|TEXT_KEY|][2] == 'e' != TEXT_KEY[2];
    assert p[..|ERROR_KEY|] == ERROR_KEY && p[|ERROR_KEY|..] == Closing(m);
    ClosingDecodes(m);
  }

  /** Every payload decodes back to its event. */
  lemma PayloadRoundTrip(e: Event)
    ensures DecodePayload(Payload(e)) == Some(e)
  {
    match e
    case Done =>
    case Text(t) => TextRoundTrip(t);
    case Error(m) => ErrorRoundTrip(m);
  }

  /** The line that carries one event: `data: <payload>`, printable ASCII, so with no line break. */
  function DataLine(e: Event): (line: string)
    ensures Printable(line) && '\n' !in line && '\r' !in line
  {
    PrintableConcat("data: ", Payload(e));
    "data: " + Payload(e)
  }

  /** One event on the wire: its data line and a blank line. */
  function Frame(e: Event): string {
    DataLine(e) + "\n\n"
  }

  /** The whole response body for a sequence of events. */
  function Stream(events: seq<Event>): string {
    if events == [] then [] else Frame(events[0]) + Stream(events[1..])
  }

  // ---------------------------------------------------------------------------
  // Reading an event stream (LF line endings, the `data` field)

  /** The index of the first `c` in `s`. */
  function IndexOf(s: string, c: char): (k: nat)
    requires c in s
    ensures k < |s| && s[k] == c && c !in s[..k]
  {
    if s[0] == c then 0 else 1 + IndexOf(s[1..], c)
  }

  /** The value of a field line after the colon at `k`, without the one optional leading space. */
  function FieldValue(line: string, k: nat): string
    requires k < |line|
  {
    var v := line[k + 1..];
    if v != [] && v[0] == ' ' then v[1..] else v
  }

  /**
   * The data of each event dispatched while reading `s` line by line, with `buffer` the data
   * collected so far: a `data` line appends its value and a line feed; a blank line dispatches
   * the buffer without its last line feed, unless it is empty; other lines are ignored; an
   * unterminated last line is never processed.
   */
  function ReadEvents(s: string, buffer: string): seq<string>
    decreases |s|
  {
    if '\n' !in s then []
    else
      var k := IndexOf(s, '\n');
      var line, rest := s[..k], s[k + 1..];
      if line == [] then
        (if buffer == [] then [] else [buffer[..|buffer| - 1]]) + ReadEvents(rest, [])
      else
        var field := if ':' in line then line[..IndexOf(line, ':')] else line;
        var value := if ':' in line then FieldValue(line, IndexOf(line, ':')) else [];
        ReadEvents(rest, if field == "data" then buffer + value + "\n" else buffer)
  }

  /** The first `c` of `a + [c] + b`, when `a` has none, is at index `|a|`. */
  lemma {:induction false} IndexOfAfter(a: string, c: char, b: string)
    requires c !in a
    ensures c in a + [c] + b && IndexOf(a + [c] + b, c) == |a|
  {
    assert (a + [c] + b)[|a|] == c;
    if a != [] {
      IndexOfAfter(a[1..], c, b);
      assert (a + [c] + b)[1..] == a[1..] + [c] + b;
    }
  }

  /** A `data` line whose value has no line feed appends the value and a line feed to the buffer. */
  lemma ReadDataLine(p: string, tail: string, buffer: string)
    requires '\n' !in p
    ensures ReadEvents("data: " + p + "\n" + tail, buffer) == ReadEvents(tail, buffer + p + "\n")
  {
    var line := "data: " + p;
    var s := line + "\n" + tail;
    assert '\n' !in line by {
      forall i | 0 <= i < |line| ensures line[i] != '\n' {
        if i >= 6 { assert line[i] == p[i - 6]; }
      }
    }
    IndexOfAfter(line, '\n', tail);
    assert s[..|line|] == line && s[|line| + 1..] == tail;
    IndexOfAfter("data", ':', " " + p);
    assert line == "data" + [':'] + (" " + p);
    assert line[..4] == "data" && line[5..] == " " + p;
  }

  /** A blank line dispatches a non-empty buffer without its last line feed and empties it. */
  lemma ReadBlankLine(tail: string, buffer: string)
    requires buffer != []
    ensures ReadEvents("\n" + tail, buffer) == [buffer[..|buffer| - 1]] + ReadEvents(tail, [])
  {
    IndexOfAfter([], '\n', tail);
    assert [] + ['\n'] + tail == "\n" + tail;
    assert ("\n" + tail)[1..] == tail;
  }

  /** A reader positioned at a frame dispatches exactly that frame's payload and then goes on. */
  lemma ReadFrame(e: Event, rest: string)
    ensures ReadEvents(Frame(e) + rest, []) == [Payload(e)] + ReadEvents(rest, [])
  {
    var p := Payload(e);
    assert '\n' !in p by { NoLineFeed(p); }
    assert Frame(e) + rest == (DataLine(e) + "\n") + ("\n" + rest);
    ReadDataLine(p, "\n" + rest, []);
    var buffer := [] + p + "\n";
    ReadBlankLine(rest, buffer);
    assert buffer[..|buffer| - 1] == p;
  }

  /** The payloads of `events`, in order. */
  function Payloads(events: seq<Event>): seq<string> {
    if events == [] then [] else [Payload(events[0])] + Payloads(events[1..])
  }

  /** Reading a whole response body gives back the payloads of its events, in order. */
  lemma {:induction false} ReadStream(events: seq<Event>)
    ensures ReadEvents(Stream(events), []) == Payloads(events)
  {
    if events != [] {
      ReadStream(events[1..]);
      ReadFrame(events[0], Stream(events[1..]));
    }
  }

  /** Decoding each of the payloads of `events` gives back `events`. */
  lemma {:induction false} PayloadsDecode(events: seq<Event>)
    ensures |Payloads(events)| == |events|
    ensures forall i :: 0 <= i < |events| ==> DecodePayload(Payloads(events)[i]) == Some(events[i])
  {
    if events != [] {
      PayloadsDecode(events[1..]);
      PayloadRoundTrip(events[0]);
      forall i | 1 <= i < |events| ensures DecodePayload(Payloads(events)[i]) == Some(events[i]) {
        assert Payloads(events)[i] == Payloads(events[1..])[i - 1];
      }
    }
  }

  /** A client that reads the event stream and decodes each payload recovers every event sent, in order. */
  lemma StreamRoundTrip(events: seq<Event>)
    ensures |ReadEvents(Stream(events), [])| == |events|
    ensures forall i :: 0 <= i < |events| ==> DecodePayload(ReadEvents(Stream(events), [])[i]) == Some(events[i])
  {
    ReadStream(events);
    PayloadsDecode(events);
  }
}
