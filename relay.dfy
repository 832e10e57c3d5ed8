/**
 * The chat relay: `stream_ollama` turns the backend's newline-delimited reply into fragments,
 * and the `gen` generator of `chat` re-emits each fragment as one text event, in arrival order,
 * and ends the stream with exactly one terminal event, `done` or `error`.
 */
module Relay {
  import opened Wrappers
  import opened EventStream

  /** One line of the backend's streamed reply, as JSON decoding sees it. */
  datatype Line =
    | Blank                                                // an empty line, skipped
    | Record(content: Option<string>, done: Option<bool>)  // `message.content` and `done`, when present
    | Malformed(error: string)                             // the line raises in `stream_ollama` or in `gen`

  /** How the reply ends after its last line: closed normally, or broken with an exception. */
  datatype StreamEnd = Closed | Dropped(error: string)

  /**
   * What the backend call does once the chat call has been made: it fails before any line
   * arrives (the connection fails, or the status is an HTTP error), or it responds with lines
   * and an end.
   */
  datatype Backend = Refused(error: string) | Responding(lines: seq<Line>, end: StreamEnd)

  /** One `(content, done)` pair yielded by `stream_ollama`. */
  datatype Fragment = Fragment(text: string, done: bool)

  /** A record's fragment: a missing content is `""` and a missing done flag is false. */
  function Decode(content: Option<string>, done: Option<bool>): (f: Fragment)
    ensures content.Some? ==> f.text == content.value
    ensures content.None? ==> f.text == ""
    ensures f.done <==> done == Some(true)
  {
    Fragment(content.GetOr(""), done.GetOr(false))
  }

  /** The fragments `stream_ollama` yields, in order: blank lines are skipped; a malformed line ends it. */
  function Fragments(lines: seq<Line>): (frs: seq<Fragment>)
    ensures |frs| <= |lines|
  {
    if lines == [] then []
    else match lines[0]
      case Blank => Fragments(lines[1..])
      case Malformed(_) => []
      case Record(c, d) => [Decode(c, d)] + Fragments(lines[1..])
  }

  /** The error `stream_ollama` raises on the first malformed line, if there is one. */
  function Fault(lines: seq<Line>): Option<string> {
    if lines == [] then None
    else match lines[0]
      case Malformed(e) => Some(e)
      case _ => Fault(lines[1..])
  }

  /** Lines with no malformed one are read through: the fragments of `a + b` are those of `a`, then of `b`. */
  lemma {:induction false} FragmentsAppend(a: seq<Line>, b: seq<Line>)
    requires Fault(a) == None
    ensures Fragments(a + b) == Fragments(a) + Fragments(b)
  {
    if a != [] {
      FragmentsAppend(a[1..], b);
      assert (a + b)[1..] == a[1..] + b;
      assert (a + b)[0] == a[0];
    } else {
      assert a + b == b;
    }
  }

  /** Once a malformed line has been read, nothing after it yields a fragment. */
  lemma {:induction false} FragmentsStopAtFault(a: seq<Line>, b: seq<Line>)
    requires Fault(a).Some?
    ensures Fragments(a + b) == Fragments(a)
  {
    assert a != [];
    assert (a + b)[1..] == a[1..] + b;
    assert (a + b)[0] == a[0];
    if !a[0].Malformed? {
      FragmentsStopAtFault(a[1..], b);
    }
  }

  /** A blank line yields nothing: removing it changes no fragment. */
  lemma FragmentsSkipBlank(a: seq<Line>, b: seq<Line>)
    ensures Fragments(a + [Blank] + b) == Fragments(a + b)
  {
    if Fault(a) == None {
      FragmentsAppend(a, [Blank] + b);
      FragmentsAppend(a, b);
      assert a + [Blank] + b == a + ([Blank] + b);
      assert ([Blank] + b)[1..] == b;
    } else {
      FragmentsStopAtFault(a, [Blank] + b);
      FragmentsStopAtFault(a, b);
      assert a + [Blank] + b == a + ([Blank] + b);
    }
  }

  /** A malformed line ends the fragments: nothing from it on is yielded. */
  lemma FragmentsEndAtMalformed(a: seq<Line>, e: string, b: seq<Line>)
    ensures Fragments(a + [Malformed(e)] + b) == Fragments(a)
  {
    assert a + [Malformed(e)] + b == a + ([Malformed(e)] + b);
    if Fault(a) == None {
      FragmentsAppend(a, [Malformed(e)] + b);
    } else {
      FragmentsStopAtFault(a, [Malformed(e)] + b);
    }
  }

  /** A record after well-formed lines yields its text, `""` if absent, and done flag, false if absent. */
  lemma FragmentsRecord(a: seq<Line>, c: Option<string>, d: Option<bool>, b: seq<Line>)
    requires Fault(a) == None
    ensures Fragments(a + [Record(c, d)] + b)
         == Fragments(a) + [Fragment(c.GetOr(""), d.GetOr(false))] + Fragments(b)
  {
    assert a + [Record(c, d)] + b == a + ([Record(c, d)] + b);
    FragmentsAppend(a, [Record(c, d)] + b);
    assert ([Record(c, d)] + b)[1..] == b;
  }

  predicate AnyDone(frs: seq<Fragment>) {
    exists i :: 0 <= i < |frs| && frs[i].done
  }

  /** The fragments up to and including the first one that carries `done`. */
  function ThroughDone(frs: seq<Fragment>): (r: seq<Fragment>)
    ensures r <= frs
    ensures forall i :: 0 <= i < |r| - 1 ==> !r[i].done
    ensures AnyDone(frs) <==> r != [] && r[|r| - 1].done
    ensures !AnyDone(frs) ==> r == frs
  {
    if frs == [] then []
    else if frs[0].done then [frs[0]]
    else
      var rest := ThroughDone(frs[1..]);
      assert AnyDone(frs) <==> AnyDone(frs[1..]) by {
        if AnyDone(frs) {
          var i :| 0 <= i < |frs| && frs[i].done;
          assert frs[1..][i - 1].done;
        }
        if AnyDone(frs[1..]) {
          var i :| 0 <= i < |frs[1..]| && frs[1..][i].done;
          assert frs[i + 1].done;
        }
      }
      [frs[0]] + rest
  }

  predicate IsTerminal(e: Event) {
    e.Done? || e.Error?
  }

  /** Text events, then exactly one terminal event, last. */
  predicate EndsOnce(evs: seq<Event>) {
    |evs| >= 1 && IsTerminal(evs[|evs| - 1]) && forall i :: 0 <= i < |evs| - 1 ==> evs[i].Text?
  }

  /**
   * The events of `gen` for a backend that responds with `lines` and `end`: one text event per
   * fragment; `done` after the fragment that carries the done flag or after a reply that ends
   * normally; `error` for a malformed line or a broken reply.
   */
  function RelayLines(lines: seq<Line>, end: StreamEnd): seq<Event> {
    if lines == [] then [if end.Dropped? then Error(end.error) else Done]
    else match lines[0]
      case Blank => RelayLines(lines[1..], end)
      case Malformed(e) => [Error(e)]
      case Record(c, d) =>
        var f := Decode(c, d);
        [Text(f.text)] + (if f.done then [Done] else RelayLines(lines[1..], end))
  }

  /** The events of `gen` for any behaviour of the backend. */
  function Relayed(backend: Backend): seq<Event> {
    match backend
    case Refused(e) => [Error(e)]
    case Responding(lines, end) => RelayLines(lines, end)
  }

  /** One text event per fragment, in order. */
  function Texts(frs: seq<Fragment>): (evs: seq<Event>)
    ensures |evs| == |frs|
  {
    seq(|frs|, i requires 0 <= i < |frs| => Text(frs[i].text))
  }

  /** The terminal event: done when a fragment said so or the reply ended normally, else the error. */
  function Terminal(lines: seq<Line>, end: StreamEnd): Event {
    if AnyDone(Fragments(lines)) then Done
    else match Fault(lines)
      case Some(e) => Error(e)
      case None => if end.Dropped? then Error(end.error) else Done
  }

  lemma AnyDoneCons(f: Fragment, frs: seq<Fragment>)
    ensures AnyDone([f] + frs) <==> f.done || AnyDone(frs)
  {
    if AnyDone([f] + frs) && !f.done {
      var i :| 0 <= i < |[f] + frs| && ([f] + frs)[i].done;
      assert frs[i - 1].done;
    }
    if AnyDone(frs) {
      var i :| 0 <= i < |frs| && frs[i].done;
      assert ([f] + frs)[i + 1].done;
    }
    if f.done {
      assert ([f] + frs)[0].done;
    }
  }

  lemma TextsCons(f: Fragment, frs: seq<Fragment>)
    ensures Texts([f] + frs) == [Text(f.text)] + Texts(frs)
  {
  }

  /** A record that does not carry the done flag contributes its text event ahead of the rest. */
  lemma RecordStep(lines: seq<Line>, end: StreamEnd)
    requires lines != [] && lines[0].Record? && !Decode(lines[0].content, lines[0].done).done
    ensures var f := Decode(lines[0].content, lines[0].done);
      Texts(ThroughDone(Fragments(lines))) == [Text(f.text)] + Texts(ThroughDone(Fragments(lines[1..])))
      && Terminal(lines, end) == Terminal(lines[1..], end)
  {
    var f := Decode(lines[0].content, lines[0].done);
    var frs := Fragments(lines[1..]);
    assert Fragments(lines) == [f] + frs;
    assert ([f] + frs)[0] == f && ([f] + frs)[1..] == frs;
    assert ThroughDone([f] + frs) == [f] + ThroughDone(frs);
    TextsCons(f, ThroughDone(frs));
    AnyDoneCons(f, frs);
  }

  /** A record that carries the done flag is the last fragment relayed, and the stream then ends with done. */
  lemma DoneStep(lines: seq<Line>, end: StreamEnd)
    requires lines != [] && lines[0].Record? && Decode(lines[0].content, lines[0].done).done
    ensures var f := Decode(lines[0].content, lines[0].done);
      Texts(ThroughDone(Fragments(lines))) == [Text(f.text)] && Terminal(lines, end) == Done
  {
    var f := Decode(lines[0].content, lines[0].done);
    var frs := Fragments(lines[1..]);
    assert Fragments(lines) == [f] + frs;
    AnyDoneCons(f, frs);
    assert ThroughDone([f] + frs) == [f];
  }

  /**
   * `gen` relays exactly the fragments `stream_ollama` yields up to and including the first
   * done fragment, one text event each in arrival order, and then one terminal event.
   */
  lemma {:induction false} RelayMatchesFragments(lines: seq<Line>, end: StreamEnd)
    ensures RelayLines(lines, end) == Texts(ThroughDone(Fragments(lines))) + [Terminal(lines, end)]
  {
    if lines != [] {
      match lines[0]
      case Blank =>
        RelayMatchesFragments(lines[1..], end);
      case Malformed(e) =>
      case Record(c, d) =>
        var f := Decode(c, d);
        if f.done {
          DoneStep(lines, end);
        } else {
          RelayMatchesFragments(lines[1..], end);
          RecordStep(lines, end);
        }
    }
  }

  /**
   * Whatever the backend does, the stream ends with exactly one terminal event, `done` or
   * `error`, and every event before it is a text event.
   */
  lemma RelayEndsOnce(backend: Backend)
    ensures EndsOnce(Relayed(backend))
  {
    if backend.Responding? {
      RelayMatchesFragments(backend.lines, backend.end);
    }
  }

  /** The relay of `["Hel", "lo"]` with the done flag on the last fragment. */
  lemma HelloRelay()
    ensures RelayLines([Record(Some("Hel"), Some(false)), Blank, Record(Some("lo"), Some(true))], Closed)
         == [Text("Hel"), Text("lo"), Done]
  {
  }

  /**
   * When the done flag comes on a record of its own, as the backend usually sends it, that
   * record's empty content is relayed too, and lines after it are never read.
   */
  lemma DoneRecordRelayed()
    ensures RelayLines([Record(Some("Hel"), None), Record(Some("lo"), None), Record(None, Some(true)),
                        Malformed("late")], Dropped("reset"))
         == [Text("Hel"), Text("lo"), Text(""), Done]
  {
  }

  /** The events from line `i` on, by the kind of line `i`. */
  lemma RelayAt(lines: seq<Line>, i: nat, end: StreamEnd)
    requires i < |lines|
    ensures RelayLines(lines[i..], end) ==
      match lines[i]
      case Blank => RelayLines(lines[i + 1..], end)
      case Malformed(e) => [Error(e)]
      case Record(c, d) =>
        [Text(Decode(c, d).text)] + (if Decode(c, d).done then [Done] else RelayLines(lines[i + 1..], end))
  {
    assert lines[i..][0] == lines[i] && lines[i..][1..] == lines[i + 1..];
  }

  /**
   * The `gen` generator: one event per fragment pulled from `stream_ollama`, a `break` on the
   * done flag, then `done`; an exception anywhere turns into one `error` event instead.
   */
  method RelayEvents(backend: Backend) returns (events: seq<Event>)
    ensures events == Relayed(backend)
  {
    match backend
    case Refused(e) =>
      events := [Error(e)];
    case Responding(lines, end) =>
      ghost var whole := RelayLines(lines, end);
      assert Relayed(backend) == whole;
      events := [];
      var i := 0;
      while i < |lines|
        invariant 0 <= i <= |lines|
        invariant events + RelayLines(lines[i..], end) == whole
      {
        RelayAt(lines, i, end);
        ghost var before := events;
        match lines[i] {
          case Blank =>
          case Malformed(e) =>
            assert before + [Error(e)] == whole;
            return events + [Error(e)];
          case Record(c, d) =>
            var fragment := Decode(c, d);
            events := events + [Text(fragment.text)];
            if fragment.done {
              assert events + [Done] == before + ([Text(fragment.text)] + [Done]);
              break;
            }
            assert events + RelayLines(lines[i + 1..], end)
                == before + ([Text(fragment.text)] + RelayLines(lines[i + 1..], end));
        }
        i := i + 1;
      }
      assert i < |lines| || lines[i..] == [];
      if i == |lines| && end.Dropped? {
        events := events + [Error(end.error)];
      } else {
        events := events + [Done];
      }
  }
}
