/** `DubboUpstream`: one HTTP request bridged to Dubbo over a pooled connection. Its methods can be
    called in any order by the router, the connection and the dispatcher. */
module DubboUpstreams {
  import opened Common
  import opened DubboFrames

  /** What reaches the router's upstream request. */
  datatype Down = Headers(code: nat, close: bool, end: bool) | Data(body: string) | Reset | Watermark(above: bool)

  /** What the response getter, or the JSON writer without one, makes of a reply: an optional code of its
      own and the body, or an exception. */
  datatype Rendering = Rendered(code: Option<nat>, body: string) | Threw(what: string)

  type Renderer = (Payload, ReplyType) -> Rendering

  /** What is sent. */
  datatype Outgoing = Outgoing(code: nat, body: string, close: bool)

  /** The route's bridge, as `writeRequestToUpstream` finds it. */
  datatype Conversion =
    | NoBridge
    | Failed(message: string, protocolErrorCode: nat, respExceptionCode: nat)
    | Converted(protocolErrorCode: nat, respExceptionCode: nat)

  datatype ConnectionEvent = Connected | RemoteClose | LocalClose

  const NO_CONTEXT := "No valid dubbo conversion context for current route or request"

  /** Headers, then the body unless it is empty or the router reset the stream on the headers. */
  function Sent(r: Outgoing, resets: bool): seq<Down> {
    [Headers(r.code, r.close, r.body == "")] + (if r.body == "" || resets then [] else [Data(r.body)])
  }

  /** The same, call by call on the router. */
  function Literally(code: nat, body: string, close: bool, resets: bool): seq<Down> {
    if body == "" then [Headers(code, close, true)]
    else if resets then [Headers(code, close, false)]
    else [Headers(code, close, false), Data(body)]
  }

  /** Response headers and stream resets: each tells the router how the stream ends. */
  predicate Final(d: Down) { d.Headers? || d.Reset? }

  predicate Silent(log: seq<Down>) {
    forall i :: 0 <= i < |log| ==> !Final(log[i])
  }

  predicate AtMostOnce(log: seq<Down>) {
    forall i, j :: 0 <= i < j < |log| ==> !(Final(log[i]) && Final(log[j]))
  }

  lemma AppendNotice(log: seq<Down>, d: Down)
    ensures Silent(log + [d]) <==> Silent(log) && !Final(d)
    ensures AtMostOnce(log + [d]) <==> AtMostOnce(log) && (Silent(log) || !Final(d))
  {
    var all := log + [d];
    assert all[|log|] == d && forall i :: 0 <= i < |log| ==> all[i] == log[i];
    if !Silent(log) {
      var i :| 0 <= i < |log| && Final(log[i]);
      assert Final(all[i]);
    }
    if AtMostOnce(all) {
      forall i, j | 0 <= i < j < |log| ensures !(Final(log[i]) && Final(log[j])) {
        assert !(Final(all[i]) && Final(all[j]));
      }
    }
  }

  lemma AppendSent(log: seq<Down>, r: Outgoing, resets: bool)
    ensures !Silent(log + Sent(r, resets))
    ensures AtMostOnce(log + Sent(r, resets)) <==> Silent(log)
  {
    var h := Headers(r.code, r.close, r.body == "");
    AppendNotice(log, h);
    if Silent(log) { assert AtMostOnce(log); }
    if r.body == "" || resets {
      assert log + Sent(r, resets) == log + [h];
    } else {
      AppendNotice(log + [h], Data(r.body));
      assert log + Sent(r, resets) == log + [h] + [Data(r.body)];
    }
  }

  class DubboUpstream {
    const codec: Codec
    const getter: Renderer
    const plain: Renderer

    var requestComplete: bool
    var responded: bool
    var hasGetter: bool
    var protocolErrorCode: nat
    var respExceptionCode: nat
    /** upstream_request_ != nullptr */
    var upstreamRequest: bool
    /** upstream_conn_data_ != nullptr */
    var connection: bool
    var toClose: bool
    /** *upstream_reset_guard_ */
    var guard: bool
    var buffer: seq<byte>
    var context: Option<Header>
    /** The local reply queued on the dispatcher. */
    var posted: Option<string>
    /** An exception has left a callback; the process does not survive that. */
    var escaped: bool

    // The world around the object.
    ghost var down: seq<Down>
    ghost var writes: nat
    ghost var received: seq<byte>
    ghost var closedByUs: bool
    ghost var connectionEvent: bool
    /** Upstream bytes were answered before any request had been written. */
    ghost var answeredUnasked: bool
    /** A queued local reply then ran although the stream was answered and still up. */
    ghost var overtaken: bool

    ghost predicate Valid()
      reads this
    {
      Protocol() && (upstreamRequest && !responded && !escaped ==> Reading())
    }

    /** What holds of the stream between calls, whatever has been read. */
    ghost predicate Protocol()
      reads this
    {
      && upstreamRequest == guard == connection
      && writes <= 1
      && (writes == 1 || posted.Some? ==> requestComplete)
      && (posted.Some? ==> writes == 0)
      && (upstreamRequest && !responded ==> Silent(down))
      && (responded ==> !Silent(down))
      && (overtaken <==> !AtMostOnce(down))
      && (overtaken ==> responded && posted.None? && requestComplete)
      && (responded && (posted.Some? || !requestComplete) ==> answeredUnasked)
      && (overtaken ==> answeredUnasked)
      && (!connection ==> closedByUs || connectionEvent || (responded && !toClose))
    }

    /** The buffer is what is left of the received bytes after whole heartbeats, nothing in it is
        complete, and the header at its front has been decoded as soon as it was there. */
    ghost predicate Reading()
      reads this`received, this`buffer, this`context
    {
      && Parse(codec, received).Waiting?
      && buffer == received[Skip(codec, received)..]
      && Latched()
    }

    ghost predicate Latched()
      reads this`buffer, this`context
    {
      context == if |buffer| < HEADER_SIZE then None
                 else match codec.header(buffer[..HEADER_SIZE]) case Valid(h) => Some(h) case Invalid(_) => None
    }

    constructor (codec: Codec, getter: Renderer, plain: Renderer)
      ensures Valid() && upstreamRequest && !responded && !requestComplete
      ensures this.codec == codec && this.getter == getter && this.plain == plain
      ensures down == [] && writes == 0 && received == [] && posted == None
      ensures !answeredUnasked && !closedByUs && !connectionEvent
      ensures protocolErrorCode == 501 && respExceptionCode == 503 && !hasGetter && !escaped
    {
      this.codec, this.getter, this.plain := codec, getter, plain;
      requestComplete, responded, hasGetter := false, false, false;
      protocolErrorCode, respExceptionCode := 501, 503;
      upstreamRequest, connection, toClose, guard := true, true, false, true;
      buffer, context, escaped := [], None, false;
      down, writes, received, posted := [], 0, [], None;
      closedByUs, connectionEvent, answeredUnasked, overtaken := false, false, false, false;
    }

    method Cleanup(closeConnection: bool)
      modifies this`guard, this`upstreamRequest, this`connection, this`closedByUs
      ensures !guard && !upstreamRequest && !connection
      ensures closedByUs == (old(closedByUs) || (closeConnection && old(connection)))
    {
      guard := false;
      upstreamRequest := false;
      if closeConnection && connection {
        closedByUs := true;
      }
      connection := false;
    }

    /** The router gives the stream up. */
    method ResetStream()
      requires Protocol()
      modifies this`guard, this`upstreamRequest, this`connection, this`closedByUs
      ensures Protocol() && !upstreamRequest
      ensures closedByUs == (old(closedByUs) || old(connection))
    {
      Cleanup(true);
    }

    /** The destructor. */
    method Destroy()
      requires Protocol()
      modifies this`guard, this`upstreamRequest, this`connection, this`closedByUs
      ensures Protocol() && !upstreamRequest && !connection
      ensures closedByUs || connectionEvent || (responded && !toClose)
      ensures closedByUs == (old(closedByUs) || (old(connection) && (toClose || !responded)))
    {
      Cleanup(toClose || !responded);
    }

    /** encodeHeaders, encodeData and encodeTrailers at the end of the request. The router encodes only
        on a stream it has not given up. */
    method WriteRequest(conversion: Conversion)
      requires Protocol()
      requires requestComplete || upstreamRequest
      modifies this`requestComplete, this`posted, this`writes
      modifies this`protocolErrorCode, this`respExceptionCode, this`hasGetter
      ensures Protocol()
      ensures requestComplete
      ensures writes == if !old(requestComplete) && conversion.Converted? then old(writes) + 1 else old(writes)
      ensures posted == if old(requestComplete) || conversion.Converted? then old(posted)
                        else Some(if conversion.NoBridge? then NO_CONTEXT else conversion.message)
      ensures !old(requestComplete) && conversion.NoBridge? ==>
        posted == Some("No valid dubbo conversion context for current route or request")
      ensures if old(requestComplete) || conversion.NoBridge?
              then unchanged(this`protocolErrorCode, this`respExceptionCode, this`hasGetter)
              else
                && protocolErrorCode == conversion.protocolErrorCode
                && respExceptionCode == conversion.respExceptionCode && hasGetter
    {
      if requestComplete {
        return;
      }
      requestComplete := true;
      match conversion
      case NoBridge =>
        posted := Some(NO_CONTEXT);
      case Failed(message, p, r) =>
        protocolErrorCode, respExceptionCode, hasGetter := p, r, true;
        posted := Some(message);
      case Converted(p, r) =>
        protocolErrorCode, respExceptionCode, hasGetter := p, r, true;
        writes := writes + 1;
    }

    /** What the route's getter, or the JSON writer without one, makes of a reply. */
    function Made(kind: ReplyType, payload: Payload): Rendering
      reads this`hasGetter
    {
      if hasGetter then getter(payload, kind) else plain(payload, kind)
    }

    /** The reply as a response, unless making it throws. */
    function Render(code: nat, kind: ReplyType, payload: Payload, close: bool): Option<Outgoing>
      reads this`hasGetter
    {
      match Made(kind, payload)
      case Rendered(own, body) => Some(Outgoing(if hasGetter && own.Some? then own.value else code, body, close))
      case Threw(_) => None
    }

    function CodeOf(code: Code): nat
      reads this`protocolErrorCode, this`respExceptionCode
    {
      match code
      case ProtocolError => protocolErrorCode
      case ResponseException => respExceptionCode
      case Success => 200
    }

    function RenderReply(reply: Reply): Option<Outgoing>
      reads this
    {
      Render(CodeOf(reply.code), reply.kind, reply.payload, reply.close)
    }

    /** What answers upstream bytes. A reply that cannot be made is replaced, once, by an error that says so,
        unless it was an error caught already; what cannot be made then leaves `onUpstreamData`. */
    function AnswerTo(reply: Reply): Option<Outgoing>
      reads this
    {
      match Made(reply.kind, reply.payload)
      case Threw(what) => if Raised(reply) then None else RenderReply(Failure(Uncaught(what)))
      case Rendered(_, _) => RenderReply(reply)
    }

    /** `resets`: the router resets the stream from inside the headers callback, as for a retry. */
    method HandleRawResponse(code: nat, body: string, close: bool, resets: bool)
      requires upstreamRequest && guard && connection
      modifies this`responded, this`toClose, this`down, this`guard
      modifies this`upstreamRequest, this`connection, this`closedByUs
      ensures responded
      ensures toClose == (old(toClose) || close)
      ensures down == old(down) + Sent(Outgoing(code, body, close), resets)
      ensures upstreamRequest == guard == connection == !resets
      ensures closedByUs == (old(closedByUs) || resets)
    {
      responded := true;
      if close {
        toClose := true;
      }
      var end := body == "";
      down := down + [Headers(code, close, end)];
      if resets {
        Cleanup(true);
      }
      if end || !upstreamRequest {
        return;
      }
      down := down + [Data(body)];
    }

    /** Throws what the getter or the JSON writer throws, and then changes nothing. */
    method HandleResponse(code: nat, kind: ReplyType, payload: Payload, close: bool, resets: bool)
      returns (thrown: Option<string>)
      requires Protocol() && upstreamRequest
      modifies this`responded, this`toClose, this`down, this`guard
      modifies this`upstreamRequest, this`connection, this`closedByUs
      ensures thrown.None? <==> Render(code, kind, payload, close).Some?
      ensures thrown.Some? ==> Made(kind, payload) == Threw(thrown.value)
      ensures thrown.Some? ==> unchanged(this)
      ensures thrown.None? ==>
        && responded && toClose == (old(toClose) || close)
        && down == old(down) + Sent(Render(code, kind, payload, close).value, resets)
        && upstreamRequest == guard == connection == !resets && closedByUs == (old(closedByUs) || resets)
        && !Silent(down) && (AtMostOnce(down) <==> old(Silent(down)))
    {
      var r := Made(kind, payload);
      if r.Threw? {
        return Some(r.what);
      }
      var final := if hasGetter && r.code.Some? then r.code.value else code;
      AppendSent(down, Outgoing(final, r.body, close), resets);
      HandleRawResponse(final, r.body, close, resets);
      return None;
    }

    /** The dispatcher runs the queued local reply. Nothing catches what making it may throw. */
    method RunPosted(resets: bool)
      requires Protocol() && posted.Some?
      modifies this`posted, this`overtaken, this`escaped
      modifies this`responded, this`toClose, this`down, this`guard
      modifies this`upstreamRequest, this`connection, this`closedByUs
      ensures Protocol() && posted.None?
      ensures
        var r := Render(400, LocalReply, Text(old(posted.value)), false);
        if old(guard) && r.Some? then
          && responded && toClose == old(toClose) && down == old(down) + Sent(r.value, resets)
          && upstreamRequest == !resets && closedByUs == (old(closedByUs) || resets)
          && overtaken == (old(overtaken) || old(responded)) && escaped == old(escaped)
        else
          && responded == old(responded) && toClose == old(toClose) && down == old(down)
          && upstreamRequest == old(upstreamRequest) && closedByUs == old(closedByUs)
          && overtaken == old(overtaken) && escaped == (old(escaped) || old(guard))
      ensures old(guard) && !escaped ==> Shown(400, LocalReply, Text(old(posted.value)), false, resets, old(down))
    {
      var message := posted.value;
      posted := None;
      if guard {
        ghost var answered := responded;
        var thrown := HandleResponse(400, LocalReply, Text(message), false, resets);
        if thrown.Some? {
          escaped := true;
        } else {
          overtaken := overtaken || answered;
        }
      }
    }

    /** `decodeHeader` on the buffered bytes; an error is what the source throws. */
    method DecodeHeader() returns (error: Option<string>)
      requires context.None?
      modifies this`context
      ensures error.Some? <==> |buffer| >= HEADER_SIZE && codec.header(buffer[..HEADER_SIZE]).Invalid?
      ensures error.Some? ==> error.value == codec.header(buffer[..HEADER_SIZE]).what
      ensures Latched()
    {
      error := None;
      if |buffer| >= HEADER_SIZE {
        match codec.header(buffer[..HEADER_SIZE])
        case Invalid(what) => error := Some(what);
        case Valid(h) => context := Some(h);
      }
    }

    /** readRespnoseFromUpstream: whole heartbeats are drained in a loop; a thrown error and a reply
        are both an answer here. */
    method ReadResponse() returns (out: Outcome)
      requires context.Some? ==>
        && |buffer| >= HEADER_SIZE
        && codec.header(buffer[..HEADER_SIZE]) == HeaderResult.Valid(context.value)
      modifies this`buffer, this`context
      ensures out == Parse(codec, old(buffer))
      ensures out.Waiting? ==> buffer == old(buffer)[Skip(codec, old(buffer))..] && Latched()
    {
      if context.None? {
        var error := DecodeHeader();
        if error.Some? {
          return Answer(Failure(BadHeader(error.value)));
        }
      }
      if context.None? || |buffer| < context.value.FrameSize() {
        return Waiting;
      }
      ghost var drained := 0;
      while context.value.Heartbeat()
        invariant context.Some? && |buffer| >= context.value.FrameSize()
        invariant codec.header(buffer[..HEADER_SIZE]) == HeaderResult.Valid(context.value)
        invariant drained <= |old(buffer)| && buffer == old(buffer)[drained..]
        invariant Skip(codec, old(buffer)) == drained + Skip(codec, buffer)
        invariant Parse(codec, buffer) == Parse(codec, old(buffer))
        decreases |buffer|
      {
        ghost var n := context.value.FrameSize();
        assert old(buffer)[drained..][n..] == old(buffer)[drained + n..];
        drained := drained + n;
        buffer := buffer[context.value.FrameSize()..];
        context := None;
        var error := DecodeHeader();
        if error.Some? {
          return Answer(Failure(BadHeader(error.value)));
        }
        if context.None? || |buffer| < context.value.FrameSize() {
          return Waiting;
        }
      }
      var rest := buffer[HEADER_SIZE..];
      if context.value.kind.Response? {
        buffer := rest;
      }
      out := Answer(Respond(codec, context.value, rest));
    }

    /** New bytes go behind the buffered ones; the outcome is that of everything received so far. */
    method Absorb(data: seq<byte>) returns (out: Outcome)
      requires Reading()
      modifies this`received, this`buffer, this`context
      ensures received == old(received) + data
      ensures out == Parse(codec, received)
      ensures out.Waiting? ==> Reading()
    {
      AppendAfterSkip(codec, received, data);
      ghost var rest := buffer;
      received := received + data;
      buffer := buffer + data;
      assert |rest| >= HEADER_SIZE ==> buffer[..HEADER_SIZE] == rest[..HEADER_SIZE];
      out := ReadResponse();
    }

    /** Bytes from the upstream. */
    method OnUpstreamData(data: seq<byte>, end: bool, resets: bool)
      requires Valid() && !escaped
      modifies this`received, this`buffer, this`context, this`answeredUnasked, this`escaped
      modifies this`responded, this`toClose, this`down, this`guard
      modifies this`upstreamRequest, this`connection, this`closedByUs
      ensures Valid()
      ensures
        if !old(upstreamRequest) || old(responded) || data == [] then
          unchanged(this)
        else
          && received == old(received) + data
          && (match Finish(Parse(codec, received), end)
              case Waiting => Unanswered(old(down), old(toClose), old(closedByUs), old(answeredUnasked)) && !escaped
              case Answer(reply) =>
                match AnswerTo(reply)
                case None => Unanswered(old(down), old(toClose), old(closedByUs), old(answeredUnasked)) && escaped
                case Some(r) =>
                  Answered(r, resets, old(down), old(toClose), old(closedByUs), old(answeredUnasked)) && !escaped)
      ensures old(upstreamRequest) && !old(responded) && data != [] ==>
        forall k: nat, w :: HeartbeatsUpTo(codec, received, k) && k <= |received|
          && Wanted(codec, received[k..], end, protocolErrorCode, respExceptionCode, w)
          ==> Delivered(w, resets, old(down))
    {
      if !upstreamRequest || responded || data == [] {
        return;
      }
      ghost var log := down;
      var out := Absorb(data);
      if out.Waiting? && end {
        out := Answer(Failure(Truncated));
      }
      if out.Answer? {
        AnswerUpstream(out.reply, resets);
      }
      forall k: nat, w | HeartbeatsUpTo(codec, received, k) && k <= |received|
        && Wanted(codec, received[k..], end, protocolErrorCode, respExceptionCode, w)
        ensures Delivered(w, resets, log)
      {
        WantedIsParsed(codec, received, k, end, protocolErrorCode, respExceptionCode, w);
        if out.Answer? {
          DeliveredAnswer(out.reply, w, resets, log);
        }
      }
    }

    /** What the router has to be given for a status, kind and payload, unless making it throws: the getter's
        body under its own status, if it gives one. */
    ghost predicate Shown(code: nat, kind: ReplyType, payload: Payload, close: bool, resets: bool, log: seq<Down>)
      reads this`down, this`hasGetter
    {
      if hasGetter then
        var r := getter(payload, kind);
        r.Rendered? && down == log + Literally(if r.code.Some? then r.code.value else code, r.body, close, resets)
      else
        var r := plain(payload, kind);
        r.Rendered? && down == log + Literally(code, r.body, close, resets)
    }

    /** What becomes of a wanted answer: it is shown; or, if making it throws, an error that says so, except
        where the wanted answer is itself a caught error; or the exception escapes. */
    ghost predicate Delivered(w: Want, resets: bool, log: seq<Down>)
      reads this`down, this`hasGetter, this`responded, this`escaped, this`protocolErrorCode
    {
      if w.Nothing? then down == log && !responded && !escaped
      else
        var thrown := if hasGetter then getter(w.payload, w.kind) else plain(w.payload, w.kind);
        match thrown
        case Rendered(_, _) => responded && !escaped && Shown(w.code, w.kind, w.payload, w.close, resets, log)
        case Threw(what) =>
          var caught := w.payload.Error? && (w.payload.reason.BadHeader? || w.payload.reason.UnsupportedType?);
          var again := Error(Uncaught(what));
          if caught || (if hasGetter then getter(again, ExceptionReply) else plain(again, ExceptionReply)).Threw? then
            escaped && down == log && !responded
          else
            responded && !escaped && Shown(protocolErrorCode, ExceptionReply, again, true, resets, log)
    }

    lemma DeliveredAnswer(reply: Reply, w: Want, resets: bool, log: seq<Down>)
      requires w == WantOf(reply, protocolErrorCode, respExceptionCode)
      requires AnswerTo(reply).None? ==> down == log && !responded && escaped
      requires AnswerTo(reply).Some? ==> down == log + Sent(AnswerTo(reply).value, resets) && responded && !escaped
      ensures Delivered(w, resets, log)
    {
    }

    /** Nothing has been sent; the stream is as it was. */
    ghost predicate Unanswered(log: seq<Down>, close: bool, closed: bool, unasked: bool)
      reads this
    {
      && down == log && !responded && toClose == close
      && upstreamRequest && closedByUs == closed && answeredUnasked == unasked
    }

    /** What an answer to upstream bytes leaves. */
    ghost predicate Answered(r: Outgoing, resets: bool, log: seq<Down>, close: bool, closed: bool, unasked: bool)
      reads this
    {
      && responded && down == log + Sent(r, resets) && toClose == (close || r.close)
      && upstreamRequest == !resets && closedByUs == (closed || resets)
      && answeredUnasked == (unasked || writes == 0)
    }

    /** One attempt to answer upstream bytes. */
    method TryReply(reply: Reply, resets: bool) returns (thrown: Option<string>)
      requires Protocol() && upstreamRequest && !responded
      modifies this`answeredUnasked
      modifies this`responded, this`toClose, this`down, this`guard
      modifies this`upstreamRequest, this`connection, this`closedByUs
      ensures Protocol()
      ensures thrown.None? <==> RenderReply(reply).Some?
      ensures thrown.Some? ==> Made(reply.kind, reply.payload) == Threw(thrown.value) && unchanged(this)
      ensures thrown.None? ==>
        Answered(RenderReply(reply).value, resets, old(down), old(toClose), old(closedByUs), old(answeredUnasked))
    {
      thrown := HandleResponse(CodeOf(reply.code), reply.kind, reply.payload, reply.close, resets);
      if thrown.None? {
        answeredUnasked := answeredUnasked || writes == 0;
      }
    }

    /** The reply, and the handler that catches what making it throws. */
    method AnswerUpstream(reply: Reply, resets: bool)
      requires Protocol() && upstreamRequest && !responded && !escaped
      modifies this`answeredUnasked, this`escaped
      modifies this`responded, this`toClose, this`down, this`guard
      modifies this`upstreamRequest, this`connection, this`closedByUs
      ensures Protocol() && escaped == AnswerTo(reply).None?
      ensures escaped ==> Unanswered(old(down), old(toClose), old(closedByUs), old(answeredUnasked))
      ensures !escaped ==>
        Answered(AnswerTo(reply).value, resets, old(down), old(toClose), old(closedByUs), old(answeredUnasked))
    {
      var thrown := TryReply(reply, resets);
      if thrown.Some? {
        if Raised(reply) {
          escaped := true;
        } else {
          AnswerError(thrown.value, resets);
        }
      }
    }

    /** The handler: what it throws itself leaves the callback. */
    method AnswerError(what: string, resets: bool)
      requires Protocol() && upstreamRequest && !responded && !escaped
      modifies this`answeredUnasked, this`escaped
      modifies this`responded, this`toClose, this`down, this`guard
      modifies this`upstreamRequest, this`connection, this`closedByUs
      ensures Protocol() && escaped == RenderReply(Failure(Uncaught(what))).None?
      ensures escaped ==> Unanswered(old(down), old(toClose), old(closedByUs), old(answeredUnasked))
      ensures !escaped ==>
        Answered(RenderReply(Failure(Uncaught(what))).value, resets,
                 old(down), old(toClose), old(closedByUs), old(answeredUnasked))
    {
      var thrown := TryReply(Failure(Uncaught(what)), resets);
      escaped := thrown.Some?;
    }

    /** The connection reports an event. */
    method OnEvent(event: ConnectionEvent)
      requires Protocol()
      modifies this`connectionEvent, this`down, this`guard, this`upstreamRequest, this`connection, this`closedByUs
      ensures Protocol()
      ensures connectionEvent == (old(connectionEvent) || !event.Connected?) && closedByUs == old(closedByUs)
      ensures upstreamRequest == (old(upstreamRequest) && event.Connected?)
      ensures event.Connected? || !old(upstreamRequest) || responded ==> down == old(down)
      ensures !event.Connected? && old(upstreamRequest) && !responded ==> down == old(down) + [Reset]
    {
      if event.Connected? {
        return;
      }
      connectionEvent := true;
      if !upstreamRequest {
        return;
      }
      if responded {
        Cleanup(false);
        return;
      }
      Cleanup(false);
      AppendNotice(down, Reset);
      down := down + [Reset];
    }

    method OnWatermark(above: bool)
      requires Protocol()
      modifies this`down
      ensures Protocol()
      ensures upstreamRequest ==> down == old(down) + [Watermark(above)]
      ensures !upstreamRequest ==> down == old(down)
    {
      if upstreamRequest {
        AppendNotice(down, Watermark(above));
        down := down + [Watermark(above)];
      }
    }

    /** What can be seen of the stream. */
    ghost function View(): Moment
      reads this
    {
      Moment(upstreamRequest, responded, posted.Some?, writes > 0, escaped, down)
    }

    ghost function Marks(): Marked
      reads this`overtaken, this`answeredUnasked, this`connectionEvent
    {
      Marked(overtaken, answeredUnasked, connectionEvent)
    }
  }

  /** Everything the router, the dispatcher and the connection can do to a stream. */
  datatype Call =
    | EndRequest(conversion: Conversion)
    | Posted(resets: bool)
    | UpstreamData(data: seq<byte>, end: bool, resets: bool)
    | Event(event: ConnectionEvent)
    | HighOrLowWatermark(above: bool)
    | RouterReset

  /** The router resets the stream, or the connection is gone. */
  predicate Releases(call: Call) {
    call.RouterReset? || (call.Event? && !call.event.Connected?)
  }

  /** What can be seen of a stream between calls. */
  datatype Moment = Moment(up: bool, answered: bool, queued: bool, written: bool, escaped: bool, down: seq<Down>)

  type Trace = seq<Moment>

  /** A stream the object has let go of hears nothing more. */
  ghost predicate SilentOnceReleased(trace: Trace) {
    forall i, j :: 0 <= i <= j < |trace| && !trace[i].up ==> !trace[j].up && trace[j].down == trace[i].down
  }

  /** The stream is let go of by the calls that release it, at the latest. */
  ghost predicate ReleasedBy(calls: seq<Call>, trace: Trace) {
    forall i :: 0 <= i < |calls| && i + 1 < |trace| && Releases(calls[i]) ==> !trace[i + 1].up
  }

  /** What can go wrong, or go away, in a step: the queued local reply is sent although the stream has been
      answered; upstream bytes are answered before a request was written; the connection is gone. */
  datatype Mark = Overtaking | Unasked | Closing

  predicate Marks(mark: Mark, call: Call, before: Moment, after: Moment) {
    && !before.escaped
    && match mark
       case Overtaking => call.Posted? && before.up && before.answered && before.queued && !after.escaped
       case Unasked => call.UpstreamData? && !before.written && !before.answered && after.answered
       case Closing => call.Event? && !call.event.Connected?
  }

  predicate MarksAt(mark: Mark, calls: seq<Call>, trace: Trace, i: nat) {
    i < |calls| && i + 1 < |trace| && Marks(mark, calls[i], trace[i], trace[i + 1])
  }

  ghost predicate Happens(mark: Mark, calls: seq<Call>, trace: Trace) {
    exists i :: MarksAt(mark, calls, trace, i)
  }

  lemma ExtendMarks(mark: Mark, calls: seq<Call>, trace: Trace, next: Moment)
    requires trace != []
    ensures Happens(mark, calls, trace + [next])
       <==> Happens(mark, calls, trace) || MarksAt(mark, calls, trace + [next], |trace| - 1)
  {
    var all := trace + [next];
    if i :| MarksAt(mark, calls, trace, i) {
      assert MarksAt(mark, calls, all, i);
    }
    if i :| MarksAt(mark, calls, all, i) && i != |trace| - 1 {
      assert MarksAt(mark, calls, trace, i);
    }
  }

  lemma ExtendTrace(trace: Trace, next: Moment)
    requires trace != [] && SilentOnceReleased(trace)
    requires !trace[|trace| - 1].up ==> !next.up && next.down == trace[|trace| - 1].down
    ensures SilentOnceReleased(trace + [next])
  {
    var last := |trace| - 1;
    forall i | 0 <= i <= last && !trace[i].up ensures !next.up && next.down == trace[i].down {
      assert trace[last].down == trace[i].down;
    }
  }

  /** Which marks have been left so far. */
  datatype Marked = Marked(overtaken: bool, unasked: bool, closed: bool)

  /** What one call does to what can be seen. */
  ghost predicate Stepped(call: Call, before: Moment, earlier: Marked, after: Moment, later: Marked) {
    && (!before.up ==> !after.up && after.down == before.down)
    && (Releases(call) ==> !after.up)
    && (later.overtaken <==> earlier.overtaken || Marks(Overtaking, call, before, after))
    && (later.unasked <==> earlier.unasked || Marks(Unasked, call, before, after))
    && (later.closed <==> earlier.closed || Marks(Closing, call, before, after))
  }

  /** What a run has shown up to now. */
  ghost predicate Traced(now: Moment, marked: Marked, calls: seq<Call>, trace: Trace) {
    && trace != [] && trace[0] == Moment(true, false, false, false, false, []) && trace[|trace| - 1] == now
    && SilentOnceReleased(trace) && ReleasedBy(calls, trace)
    && (marked.overtaken <==> Happens(Overtaking, calls, trace))
    && (marked.unasked <==> Happens(Unasked, calls, trace))
    && (marked.closed <==> Happens(Closing, calls, trace))
  }

  lemma TraceStep(calls: seq<Call>, trace: Trace, before: Moment, earlier: Marked, after: Moment, later: Marked)
    requires Traced(before, earlier, calls, trace) && |trace| <= |calls|
    requires Stepped(calls[|trace| - 1], before, earlier, after, later)
    ensures Traced(after, later, calls, trace + [after])
  {
    ExtendTrace(trace, after);
    ExtendMarks(Overtaking, calls, trace, after);
    ExtendMarks(Unasked, calls, trace, after);
    ExtendMarks(Closing, calls, trace, after);
  }

  /** Destruction, after the last call or after an exception. */
  lemma TraceEnd(calls: seq<Call>, trace: Trace, before: Moment, marked: Marked)
    requires Traced(before, marked, calls, trace) && (|trace| <= |calls| ==> before.escaped)
    ensures Traced(before.(up := false), marked, calls, trace + [before.(up := false)])
  {
    var after := before.(up := false);
    ExtendTrace(trace, after);
    ExtendMarks(Overtaking, calls, trace, after);
    ExtendMarks(Unasked, calls, trace, after);
    ExtendMarks(Closing, calls, trace, after);
  }

  /** One call, if it can happen now. */
  method Perform(u: DubboUpstream, call: Call)
    requires u.Valid() && !u.escaped
    modifies u
    ensures u.Valid()
    ensures Stepped(call, old(u.View()), old(u.Marks()), u.View(), u.Marks())
  {
    match call
    case EndRequest(c) => PerformRequest(u, c);
    case Posted(r) => PerformPosted(u, r);
    case UpstreamData(d, e, r) => PerformData(u, d, e, r);
    case Event(e) => PerformEvent(u, e);
    case HighOrLowWatermark(a) => u.OnWatermark(a);
    case RouterReset => u.ResetStream();
  }

  method PerformRequest(u: DubboUpstream, conversion: Conversion)
    requires u.Valid() && !u.escaped
    modifies u
    ensures u.Valid()
    ensures Stepped(EndRequest(conversion), old(u.View()), old(u.Marks()), u.View(), u.Marks())
  {
    if u.requestComplete || u.upstreamRequest {
      u.WriteRequest(conversion);
    }
  }

  method PerformPosted(u: DubboUpstream, resets: bool)
    requires u.Valid() && !u.escaped
    modifies u
    ensures u.Valid()
    ensures Stepped(Posted(resets), old(u.View()), old(u.Marks()), u.View(), u.Marks())
  {
    if u.posted.Some? {
      u.RunPosted(resets);
    }
  }

  method PerformEvent(u: DubboUpstream, event: ConnectionEvent)
    requires u.Valid() && !u.escaped
    modifies u
    ensures u.Valid()
    ensures Stepped(Event(event), old(u.View()), old(u.Marks()), u.View(), u.Marks())
  {
    u.OnEvent(event);
  }

  method PerformData(u: DubboUpstream, data: seq<byte>, end: bool, resets: bool)
    requires u.Valid() && !u.escaped
    modifies u
    ensures u.Valid()
    ensures Stepped(UpstreamData(data, end, resets), old(u.View()), old(u.Marks()), u.View(), u.Marks())
  {
    u.OnUpstreamData(data, end, resets);
  }

  /** Every interleaving of calls, up to an exception that no one catches, then destruction. The request is
      written at most once, a stream the object has let go of hears nothing more, and the connection is
      left open only after an answer without the close flag or once the connection itself reported an
      event. Headers and reset together reach the router at most once, except exactly when a queued local
      reply was sent on a stream that had been answered; that takes an answer to unasked upstream bytes. */
  method Lifetime(codec: Codec, getter: Renderer, plain: Renderer, calls: seq<Call>)
    returns (u: DubboUpstream, ghost trace: Trace)
    ensures u.writes <= 1
    ensures 2 <= |trace| <= |calls| + 2 && (!u.escaped ==> |trace| == |calls| + 2)
    ensures trace[0].up && trace[0].down == [] && !trace[|trace| - 1].up && trace[|trace| - 1].down == u.down
    ensures SilentOnceReleased(trace) && ReleasedBy(calls, trace)
    ensures u.closedByUs || Happens(Closing, calls, trace) || (u.responded && !u.toClose)
    ensures AtMostOnce(u.down) <==> !Happens(Overtaking, calls, trace)
    ensures Happens(Overtaking, calls, trace) ==> Happens(Unasked, calls, trace)
  {
    u := new DubboUpstream(codec, getter, plain);
    trace := [u.View()];
    for i := 0 to |calls|
      invariant fresh(u) && u.Valid()
      invariant |trace| == i + 1 && Traced(u.View(), u.Marks(), calls, trace)
    {
      if u.escaped {
        break;
      }
      ghost var before, marked := u.View(), u.Marks();
      Perform(u, calls[i]);
      TraceStep(calls, trace, before, marked, u.View(), u.Marks());
      trace := trace + [u.View()];
    }
    TraceEnd(calls, trace, u.View(), u.Marks());
    u.Destroy();
    trace := trace + [u.View()];
  }

  /** Without the assumption the clash is real: a frame answered before the request was converted, then
      a failed conversion, whose queued reply still runs. */
  method UnaskedAnswerExample(codec: Codec, getter: Renderer, plain: Renderer, frame: seq<byte>)
    returns (u: DubboUpstream)
    requires Parse(codec, frame).Answer?
    requires forall payload, kind :: plain(payload, kind).Rendered?
    ensures u.answeredUnasked && u.overtaken && !AtMostOnce(u.down)
  {
    u := new DubboUpstream(codec, getter, plain);
    u.OnUpstreamData(frame, false, false);
    assert [] + frame == frame;
    u.WriteRequest(NoBridge);
    u.RunPosted(false);
  }
}
