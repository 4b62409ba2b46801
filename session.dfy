/** HandleConnection (handler.go:33-85): the per-connection loop. Each round
    sets a read deadline, reads once, parses, routes, marks the response
    Connection: close when the request asks for it, encodes and writes it, and
    stops after a close request. The socket is replaced by the sequence of
    what each round finds on it, and the octets written are collected. */
module Session {
  import opened Wrappers
  import opened Strings
  import opened Messages
  import opened Parser
  import opened Builders
  import opened Files
  import opened Router
  import opened Encoder

  /** What one round of the loop finds on the connection. */
  datatype ReadEvent =
    | Received(data: string, writeOk: bool) // the read returned `data`; whether the write that answers it succeeds
    | DeadlineFailed                        // SetReadDeadline returned an error
    | TimedOut                              // the read hit its 30-second deadline
    | PeerClosed                            // the read returned io.EOF
    | ReadFailed                            // the read returned any other error

  /** Why the loop ended, or that it is still waiting for the next read. */
  datatype Ending =
    | DeadlineError
    | Timeout
    | ClientClosed
    | ReadError
    | WriteError
    | CloseRequested
    | NilRequestPanic   // a malformed request line: the nil request is dereferenced
    | AwaitingRead

  /** The responses written, in order, how the session ended, and the file
      directory at that point. */
  datatype Trace = Trace(sent: seq<Response>, ending: Ending, store: FileStore)

  /** The request asks to close: its Connection value lowercases to "close". */
  predicate WantsClose(req: Request)
  {
    "Connection" in req.headers && ToLower(req.headers["Connection"]) == "close"
  }

  /** A request asks to close when its Connection value spells "close" in
      any mix of cases, and in no other case. */
  lemma WantsCloseIgnoringCase(req: Request)
    ensures WantsClose(req) <==>
      "Connection" in req.headers && EqualsIgnoringCase(req.headers["Connection"], "close")
  {
    if "Connection" in req.headers {
      ToLowerEquals(req.headers["Connection"], "close");
    }
  }

  /** The outcome of one round after a successful read. */
  datatype Step = Panic | Reply(response: Response, store: FileStore, close: bool)

  /** One round, as written: the buffer is parsed and routed, and then the
      Connection header of the request is read even when parsing gave nil,
      which panics. Otherwise the routed response, marked Connection: close
      when the request asks for it, is the reply; its fields are printable
      and its Content-Length, when set, is the length of its body. */
  function Exchange(store: FileStore, gzip: Compressor, data: string): (s: Step)
    ensures s.Panic? <==> Parse(data).None?
    ensures s.Reply? ==> s.close == WantsClose(Parse(data).value)
    ensures s.Reply? && s.close ==>
      "Connection" in s.response.headers && s.response.headers["Connection"] == "close"
    ensures s.Reply? ==>
      && Printable(s.response)
      && ("Content-Length" in s.response.headers ==>
            s.response.headers["Content-Length"] == Decimal(|s.response.body|))
  {
    NoCrlfWithoutCr("Connection");
    NoCrlfWithoutCr("close");
    var req := Parse(data);
    var h := Route(store, gzip, req);
    match req
    case None => Panic
    case Some(q) =>
      ParsedRequestLineNoCrlf(data);
      if WantsClose(q) then
        Reply(h.response.(headers := h.response.headers["Connection" := "close"]), h.store, true)
      else
        Reply(h.response, h.store, false)
  }

  /** The reply of a round is the routed response: same status, version and
      body, the same fields apart from Connection, which is set to close
      exactly on a close request, and the directory as routing left it. */
  lemma ExchangeRoutes(store: FileStore, gzip: Compressor, data: string)
    requires Parse(data).Some?
    ensures var s := Exchange(store, gzip, data);
      var h := Route(store, gzip, Parse(data));
      && s.Reply?
      && s.store == h.store
      && s.response.status == h.response.status
      && s.response.version == h.response.version
      && s.response.body == h.response.body
      && (forall name | name in h.response.headers && name != "Connection" ::
            name in s.response.headers && s.response.headers[name] == h.response.headers[name])
      && (forall name | name in s.response.headers && name != "Connection" ::
            name in h.response.headers)
      && (!s.close ==> s.response.headers == h.response.headers)
  {
  }

  /** The round the authors evidently meant: route already answers a nil
      request with 400 Bad Request in HTTP/1.1, and a request that did not
      parse cannot ask to close, so that answer is written and the loop goes
      on. On every buffer that parses it is the round as written. */
  function ExchangeAsIntended(store: FileStore, gzip: Compressor, data: string): (s: Step)
    ensures s.Reply?
    ensures Parse(data).None? ==>
      && s.response.status == 400 && StatusText(s.response.status) == "Bad Request"
      && s.response.version == "HTTP/1.1" && s.response.body == ""
      && !s.close && s.store == store
    ensures Parse(data).Some? ==> s == Exchange(store, gzip, data)
  {
    match Parse(data)
    case None => Reply(Route(store, gzip, None).response, store, false)
    case Some(_) => Exchange(store, gzip, data)
  }

  /** How a round that could not read ends the loop: handler.go:38-42 when
      the deadline cannot be set, 46-55 when the read fails. */
  function ReadEnding(event: ReadEvent): Ending
    requires !event.Received?
  {
    match event
    case DeadlineFailed => DeadlineError
    case TimedOut => Timeout
    case PeerClosed => ClientClosed
    case ReadFailed => ReadError
  }

  function Prepend(responses: seq<Response>, t: Trace): Trace
  {
    Trace(responses + t.sent, t.ending, t.store)
  }

  /** A round after a successful read, as a function of the directory and
      the buffer read. */
  type Round = (FileStore, string) -> Step

  /** The round HandleConnection runs. */
  function RoundOf(gzip: Compressor): Round
  {
    (store, data) => Exchange(store, gzip, data)
  }

  /** The loop over a sequence of events, round by round, for any round. */
  function Loop(store: FileStore, round: Round, events: seq<ReadEvent>): Trace
    decreases |events|
  {
    if events == [] then Trace([], AwaitingRead, store)
    else if !events[0].Received? then Trace([], ReadEnding(events[0]), store)
    else
      match round(store, events[0].data)
      case Panic => Trace([], NilRequestPanic, store)
      case Reply(response, next, close) =>
        if !events[0].writeOk then Trace([], WriteError, next)
        else if close then Trace([response], CloseRequested, next)
        else Prepend([response], Loop(next, round, events[1..]))
  }

  /** The loop of HandleConnection. */
  function Serve(store: FileStore, gzip: Compressor, events: seq<ReadEvent>): Trace
  {
    Loop(store, RoundOf(gzip), events)
  }

  /** The loop from round `i` on, by what that round finds. */
  lemma LoopRound(store: FileStore, round: Round, events: seq<ReadEvent>, i: nat)
    requires i < |events|
    ensures var t := Loop(store, round, events[i..]);
      var event := events[i];
      && (!event.Received? ==> t == Trace([], ReadEnding(event), store))
      && (event.Received? && round(store, event.data).Panic? ==>
            t == Trace([], NilRequestPanic, store))
      && (event.Received? && round(store, event.data).Reply? ==>
            var step := round(store, event.data);
            && (!event.writeOk ==> t == Trace([], WriteError, step.store))
            && (event.writeOk && step.close ==> t == Trace([step.response], CloseRequested, step.store))
            && (event.writeOk && !step.close ==>
                  t == Prepend([step.response], Loop(step.store, round, events[i + 1..]))))
  {
    assert events[i..][0] == events[i] && events[i..][1..] == events[i + 1..];
  }

  /** One round after a successful read (handler.go:58-69): parse, route,
      and mark the response when the request asks to close. */
  method Answer(store: FileStore, gzip: Compressor, data: string) returns (step: Step)
    ensures step == Exchange(store, gzip, data)
  {
    var req := ParseRequest(data);
    var h := Route(store, gzip, req);
    if req.None? {
      // handler.go:62 reads the headers of the nil request.
      return Panic;
    }
    var response := h.response;
    var close := WantsClose(req.value);
    if close {
      response := response.(headers := response.headers["Connection" := "close"]);
    }
    step := Reply(response, h.store, close);
  }

  /** A round and the encoding of its response, in the order the map gives
      the header fields. */
  method Turn(store: FileStore, gzip: Compressor, data: string)
    returns (step: Step, out: string, order: seq<string>)
    ensures step == RoundOf(gzip)(store, data)
    ensures step.Reply? ==>
      IsEnumeration(order, step.response.headers.Keys) && out == Wire(step.response, order)
  {
    step := Answer(store, gzip, data);
    out, order := "", [];
    if step.Reply? {
      order := Enumerate(step.response.headers.Keys);
      out := Encode(step.response, order);
    }
  }

  /** Each written string is the encoding of the matching response in the
      matching order of its header fields. */
  ghost predicate Encodes(written: seq<string>, sent: seq<Response>, orders: seq<seq<string>>)
  {
    && |written| == |sent| == |orders|
    && forall i :: 0 <= i < |written| ==>
         IsEnumeration(orders[i], sent[i].headers.Keys) && written[i] == Wire(sent[i], orders[i])
  }

  lemma EncodesSnoc(written: seq<string>, sent: seq<Response>, orders: seq<seq<string>>,
                    out: string, response: Response, order: seq<string>)
    requires Encodes(written, sent, orders)
    requires IsEnumeration(order, response.headers.Keys) && out == Wire(response, order)
    ensures Encodes(written + [out], sent + [response], orders + [order])
  {
  }

  lemma PrependTwice(first: seq<Response>, second: seq<Response>, t: Trace)
    ensures Prepend(first, Prepend(second, t)) == Prepend(first + second, t)
  {
  }

  /** HandleConnection itself. It writes the encoding of each response the
      loop sends, in order, and ends as the loop does; `orders` records the
      order in which the map gave each response's header fields. */
  method HandleConnection(store: FileStore, gzip: Compressor, events: seq<ReadEvent>)
    returns (written: seq<string>, ending: Ending, finalStore: FileStore, ghost orders: seq<seq<string>>)
    ensures var t := Serve(store, gzip, events);
      ending == t.ending && finalStore == t.store && Encodes(written, t.sent, orders)
  {
    written, orders := [], [];
    ghost var sent: seq<Response> := [];
    ghost var round := RoundOf(gzip);
    var s := store;
    var i := 0;
    while i < |events|
      invariant 0 <= i <= |events|
      invariant Encodes(written, sent, orders)
      invariant Loop(store, round, events) == Prepend(sent, Loop(s, round, events[i..]))
    {
      LoopRound(s, round, events, i);
      var event := events[i];
      if !event.Received? {
        // The deadline could not be set, or the read failed: the loop returns.
        ending, finalStore := ReadEnding(event), s;
        return;
      }

      var step, out, order := Turn(s, gzip, event.data);
      if step.Panic? {
        ending, finalStore := NilRequestPanic, s;
        return;
      }
      var response := step.response;
      if !event.writeOk {
        ending, finalStore := WriteError, step.store;
        return;
      }
      EncodesSnoc(written, sent, orders, out, response, order);
      written, sent, orders := written + [out], sent + [response], orders + [order];
      if step.close {
        ending, finalStore := CloseRequested, step.store;
        return;
      }
      PrependTwice(sent[..|sent| - 1], [response], Loop(step.store, round, events[i + 1..]));
      assert sent[..|sent| - 1] + [response] == sent;
      s := step.store;
      i := i + 1;
    }
    assert events[i..] == [];
    ending, finalStore := AwaitingRead, s;
  }

  /** A response that is printable and whose Content-Length, when set, is
      the decimal length of its body. */
  ghost predicate WellFormedResponse(r: Response)
  {
    && Printable(r)
    && ("Content-Length" in r.headers ==> r.headers["Content-Length"] == Decimal(|r.body|))
  }

  /** What the loop needs of a round: it replies exactly on the buffers that
      `accepts` holds of, and then closes exactly when `closes` holds of the
      buffer, with Connection: close in its response; every response it gives
      is well formed. */
  ghost predicate Decides(round: Round, accepts: string -> bool, closes: string -> bool)
  {
    forall store, data ::
      && (round(store, data).Reply? <==> accepts(data))
      && (round(store, data).Reply? ==>
            && (round(store, data).close <==> closes(data))
            && WellFormedResponse(round(store, data).response)
            && (round(store, data).close ==>
                  && "Connection" in round(store, data).response.headers
                  && round(store, data).response.headers["Connection"] == "close"))
  }

  /** The buffer holds a request line that parses. */
  predicate Parses(data: string)
  {
    Parse(data).Some?
  }

  /** The buffer holds a request that parses and asks to close. */
  predicate AsksClose(data: string)
  {
    Parse(data).Some? && WantsClose(Parse(data).value)
  }

  /** The round as written replies exactly to the buffers that parse, closes
      exactly on the requests that ask to, and gives well-formed responses. */
  lemma ExchangeDecides(gzip: Compressor)
    ensures Decides(RoundOf(gzip), Parses, AsksClose)
  {
    forall store, data ensures
      && (RoundOf(gzip)(store, data).Reply? <==> Parses(data))
      && (RoundOf(gzip)(store, data).Reply? ==>
            && (RoundOf(gzip)(store, data).close <==> AsksClose(data))
            && WellFormedResponse(RoundOf(gzip)(store, data).response)
            && (RoundOf(gzip)(store, data).close ==>
                  && "Connection" in RoundOf(gzip)(store, data).response.headers
                  && RoundOf(gzip)(store, data).response.headers["Connection"] == "close"))
    {
      var step := Exchange(store, gzip, data);
      assert RoundOf(gzip)(store, data) == step;
    }
  }

  /** The round the authors evidently meant, in the same loop. */
  function IntendedRoundOf(gzip: Compressor): Round
  {
    (store, data) => ExchangeAsIntended(store, gzip, data)
  }

  function ServeAsIntended(store: FileStore, gzip: Compressor, events: seq<ReadEvent>): Trace
  {
    Loop(store, IntendedRoundOf(gzip), events)
  }

  /** Every buffer. */
  predicate AnyBuffer(data: string)
  {
    true
  }

  /** The intended round replies to every buffer, closes exactly on the
      requests that ask to, and gives well-formed responses. */
  lemma IntendedDecides(gzip: Compressor)
    ensures Decides(IntendedRoundOf(gzip), AnyBuffer, AsksClose)
  {
    forall store, data ensures
      && (IntendedRoundOf(gzip)(store, data).Reply? <==> AnyBuffer(data))
      && (IntendedRoundOf(gzip)(store, data).Reply? ==>
            && (IntendedRoundOf(gzip)(store, data).close <==> AsksClose(data))
            && WellFormedResponse(IntendedRoundOf(gzip)(store, data).response)
            && (IntendedRoundOf(gzip)(store, data).close ==>
                  && "Connection" in IntendedRoundOf(gzip)(store, data).response.headers
                  && IntendedRoundOf(gzip)(store, data).response.headers["Connection"] == "close"))
    {
      var step := ExchangeAsIntended(store, gzip, data);
      assert IntendedRoundOf(gzip)(store, data) == step;
      if Parse(data).Some? {
        assert step == RoundOf(gzip)(store, data);
        ExchangeDecides(gzip);
      }
    }
  }

  /** With the intended round the session never panics: it ends only on a
      failed read, a failed write or a close request, or waits for the next
      read after answering every event. */
  lemma IntendedKeepsServing(store: FileStore, gzip: Compressor, events: seq<ReadEvent>)
    ensures var t := ServeAsIntended(store, gzip, events);
      && t.ending != NilRequestPanic
      && (t.ending == AwaitingRead ==> |t.sent| == |events|)
      && (t.ending != AwaitingRead && t.ending != CloseRequested ==>
            |t.sent| < |events| && EndedBy(events[|t.sent|], t.ending, AnyBuffer))
  {
    IntendedDecides(gzip);
    LoopEnding(store, IntendedRoundOf(gzip), AnyBuffer, AsksClose, events);
  }

  /** Each response sent answers one successful read, in order, of a buffer
      the round replies to, and was written: one write per such read. */
  lemma {:induction false} LoopAnswersReads(store: FileStore, round: Round, accepts: string -> bool,
                                            closes: string -> bool, events: seq<ReadEvent>)
    requires Decides(round, accepts, closes)
    ensures var t := Loop(store, round, events);
      && |t.sent| <= |events|
      && forall j :: 0 <= j < |t.sent| ==>
           events[j].Received? && events[j].writeOk && accepts(events[j].data)
    decreases |events|
  {
    if events != [] {
      LoopRound(store, round, events, 0);
      assert events[0..] == events;
      if events[0].Received? && round(store, events[0].data).Reply? {
        var step := round(store, events[0].data);
        if events[0].writeOk && !step.close {
          LoopAnswersReads(step.store, round, accepts, closes, events[1..]);
          var t := Loop(store, round, events);
          var u := Loop(step.store, round, events[1..]);
          assert t.sent == [step.response] + u.sent;
          forall j | 1 <= j < |t.sent| ensures events[j] == events[1..][j - 1] {
          }
        }
      }
    }
  }

  /** How the round that ends the loop ends it, by the event it found. */
  predicate EndedBy(event: ReadEvent, ending: Ending, accepts: string -> bool)
  {
    match ending
    case WriteError => event.Received? && !event.writeOk && accepts(event.data)
    case NilRequestPanic => event.Received? && !accepts(event.data)
    case CloseRequested => false
    case AwaitingRead => false
    case _ => !event.Received? && ReadEnding(event) == ending
  }

  /** How the loop ended. A session still waiting has answered every event;
      one that closed on request has sent at least one response; any other
      ending comes from the event right after the last response: a failed
      read (after which nothing more is written), a failed write, or a buffer
      the round does not reply to. */
  lemma {:induction false} LoopEnding(store: FileStore, round: Round, accepts: string -> bool,
                                      closes: string -> bool, events: seq<ReadEvent>)
    requires Decides(round, accepts, closes)
    ensures var t := Loop(store, round, events);
      && (t.ending == AwaitingRead ==> |t.sent| == |events|)
      && (t.ending == CloseRequested ==> 1 <= |t.sent| <= |events|)
      && (t.ending != AwaitingRead && t.ending != CloseRequested ==>
            |t.sent| < |events| && EndedBy(events[|t.sent|], t.ending, accepts))
    decreases |events|
  {
    if events != [] {
      LoopRound(store, round, events, 0);
      assert events[0..] == events;
      if events[0].Received? && round(store, events[0].data).Reply? {
        var step := round(store, events[0].data);
        if events[0].writeOk && !step.close {
          LoopEnding(step.store, round, accepts, closes, events[1..]);
          var t := Loop(store, round, events);
          var u := Loop(step.store, round, events[1..]);
          assert t.sent == [step.response] + u.sent && t.ending == u.ending;
          assert |u.sent| < |events[1..]| ==> events[|t.sent|] == events[1..][|u.sent|];
        }
      }
    }
  }

  /** The loop goes on after a response exactly when its request did not
      ask to close; a response to a close request carries Connection: close
      and is the last one. */
  lemma {:induction false} LoopStopsOnClose(store: FileStore, round: Round, accepts: string -> bool,
                                            closes: string -> bool, events: seq<ReadEvent>)
    requires Decides(round, accepts, closes)
    ensures var t := Loop(store, round, events);
      && |t.sent| <= |events|
      && forall j :: 0 <= j < |t.sent| ==>
        && (events[j].Received? && closes(events[j].data) <==>
              t.ending == CloseRequested && j == |t.sent| - 1)
        && (events[j].Received? && closes(events[j].data) ==>
              "Connection" in t.sent[j].headers && t.sent[j].headers["Connection"] == "close")
    decreases |events|
  {
    LoopAnswersReads(store, round, accepts, closes, events);
    if events != [] {
      LoopRound(store, round, events, 0);
      assert events[0..] == events;
      if events[0].Received? && round(store, events[0].data).Reply? {
        var step := round(store, events[0].data);
        if events[0].writeOk && !step.close {
          LoopStopsOnClose(step.store, round, accepts, closes, events[1..]);
          LoopEnding(step.store, round, accepts, closes, events[1..]);
          var t := Loop(store, round, events);
          var u := Loop(step.store, round, events[1..]);
          assert t.sent == [step.response] + u.sent && t.ending == u.ending;
          assert u.ending == CloseRequested ==> |t.sent| >= 2;
          forall j | 1 <= j < |t.sent|
            ensures events[j] == events[1..][j - 1] && t.sent[j] == u.sent[j - 1]
          {
          }
        }
      }
    }
  }

  /** Every response the loop sends is well formed. */
  lemma {:induction false} LoopWellFormed(store: FileStore, round: Round, accepts: string -> bool,
                                          closes: string -> bool, events: seq<ReadEvent>)
    requires Decides(round, accepts, closes)
    ensures var t := Loop(store, round, events);
      forall j :: 0 <= j < |t.sent| ==> WellFormedResponse(t.sent[j])
    decreases |events|
  {
    if events != [] {
      LoopRound(store, round, events, 0);
      assert events[0..] == events;
      if events[0].Received? && round(store, events[0].data).Reply? {
        var step := round(store, events[0].data);
        if events[0].writeOk && !step.close {
          LoopWellFormed(step.store, round, accepts, closes, events[1..]);
          var t := Loop(store, round, events);
          var u := Loop(step.store, round, events[1..]);
          assert t.sent == [step.response] + u.sent;
          forall j | 1 <= j < |t.sent| ensures t.sent[j] == u.sent[j - 1] {
          }
        }
      }
    }
  }

  /** What a client reads from a write: the first empty line ends the header
      section, the octets after it are exactly the response body, and a
      Content-Length field gives their number. */
  ghost predicate ReadsBack(w: string, r: Response)
  {
    && IndexOf(w, BlankLine).Some?
    && IndexOf(w, BlankLine).value + 4 <= |w|
    && w[IndexOf(w, BlankLine).value + 4..] == r.body
    && ("Content-Length" in r.headers ==>
          r.headers["Content-Length"] == Decimal(|w| - IndexOf(w, BlankLine).value - 4))
  }

  lemma WritesReadBack(written: seq<string>, sent: seq<Response>, orders: seq<seq<string>>)
    requires Encodes(written, sent, orders)
    requires forall j :: 0 <= j < |sent| ==> WellFormedResponse(sent[j])
    ensures forall j :: 0 <= j < |written| ==> ReadsBack(written[j], sent[j])
  {
    forall j | 0 <= j < |written| ensures ReadsBack(written[j], sent[j]) {
      WireFraming(sent[j], orders[j]);
    }
  }

  /** Every octet string the loop writes reads back as its response: the
      body follows the first empty line and Content-Length counts it. */
  lemma LoopReadBack(store: FileStore, round: Round, accepts: string -> bool, closes: string -> bool,
                     events: seq<ReadEvent>, written: seq<string>, orders: seq<seq<string>>)
    requires Decides(round, accepts, closes)
    requires Encodes(written, Loop(store, round, events).sent, orders)
    ensures forall j :: 0 <= j < |written| ==> ReadsBack(written[j], Loop(store, round, events).sent[j])
  {
    LoopWellFormed(store, round, accepts, closes, events);
    assert var t := Loop(store, round, events);
      forall j :: 0 <= j < |t.sent| ==> WellFormedResponse(t.sent[j]);
    WritesReadBack(written, Loop(store, round, events).sent, orders);
  }

  /** The same for HandleConnection's own round. */
  lemma WrittenReadBack(store: FileStore, gzip: Compressor, events: seq<ReadEvent>,
                        written: seq<string>, orders: seq<seq<string>>)
    requires Encodes(written, Serve(store, gzip, events).sent, orders)
    ensures forall j :: 0 <= j < |written| ==> ReadsBack(written[j], Serve(store, gzip, events).sent[j])
  {
    ExchangeDecides(gzip);
    LoopReadBack(store, RoundOf(gzip), Parses, AsksClose, events, written, orders);
  }

  /** As written, a request line without a version ends the session with
      nothing written, whatever follows; the intended round answers it with
      400 Bad Request and keeps the connection. */
  lemma NilRequestPanics(store: FileStore, gzip: Compressor, rest: seq<ReadEvent>)
    ensures var events := [Received("GET /\r\n\r\n", true)] + rest;
      Serve(store, gzip, events) == Trace([], NilRequestPanic, store)
    ensures ExchangeAsIntended(store, gzip, "GET /\r\n\r\n")
         == Reply(Response(400, "HTTP/1.1", map[], ""), store, false)
  {
    MissingVersionIsNil();
    var events := [Received("GET /\r\n\r\n", true)] + rest;
    LoopRound(store, RoundOf(gzip), events, 0);
    assert events[0..] == events;
  }
}
