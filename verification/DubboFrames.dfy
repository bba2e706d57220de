/** The Dubbo response stream: frames of a 16-byte header and a body, heartbeats among them. The
    header decoder and the Hessian decoder are parameters. */
module DubboFrames {
  import opened Common
  import opened Hessian

  const HEADER_SIZE: nat := 16

  datatype Kind = HeartbeatRequest | HeartbeatResponse | Response | Request | Oneway | Exception

  datatype Header = Header(kind: Kind, bodySize: nat, statusOk: bool) {
    predicate Heartbeat() { kind.HeartbeatRequest? || kind.HeartbeatResponse? }
    function FrameSize(): nat { HEADER_SIZE + bodySize }
  }

  datatype HeaderResult = Invalid(what: string) | Valid(header: Header)

  /** What the leading int32 of a response body announces. */
  datatype Shape = WithException | WithValue | WithNull | Unsupported

  datatype Decoded<+T> = Decoded(value: Option<T>, offset: nat)

  /** `header` sees the first 16 bytes. The body decoders see everything buffered after the header,
      as the source's decoder does, and report how far they read. */
  datatype Codec = Codec(
    header: seq<byte> -> HeaderResult,
    shape: seq<byte> -> Decoded<Shape>,
    objectAt: (seq<byte>, nat) -> Decoded<Value>)

  datatype Code = ProtocolError | ResponseException | Success
  datatype ReplyType = ValueReply | ExceptionReply | LocalReply
  datatype Reason =
    | UnexpectedMessage(kind: Kind) | Oversized | NoType | UnsupportedType | BadHeader(what: string) | Truncated
    | Uncaught(what: string)
  datatype Payload = Error(reason: Reason) | Object(value: Option<Value>) | Text(text: string)

  datatype Reply = Reply(code: Code, kind: ReplyType, payload: Payload, close: bool)

  /** Errors that the source throws while reading, and answers where it catches them. */
  predicate Raised(reply: Reply) {
    reply.payload.Error? && (reply.payload.reason.BadHeader? || reply.payload.reason.UnsupportedType?)
  }

  datatype Outcome = Waiting | Answer(reply: Reply)

  function Failure(reason: Reason): Reply {
    Reply(ProtocolError, ExceptionReply, Error(reason), true)
  }

  /** The reply to a frame that is not a heartbeat; `rest` is what is buffered after its header. */
  function Respond(codec: Codec, h: Header, rest: seq<byte>): Reply {
    if !h.kind.Response? then Failure(UnexpectedMessage(h.kind))
    else if !h.statusOk then
      var d := codec.objectAt(rest, 0);
      if h.bodySize < d.offset then Failure(Oversized)
      else Reply(ProtocolError, ExceptionReply, Object(d.value), true)
    else
      var t := codec.shape(rest);
      if t.value.None? then Failure(NoType)
      else
        match t.value.value
        case Unsupported => Failure(UnsupportedType)
        case WithNull => Reply(Success, ValueReply, Object(None), false)
        case _ =>
          var d := codec.objectAt(rest, t.offset);
          if h.bodySize < d.offset then Failure(Oversized)
          else if t.value.value.WithException? then Reply(ResponseException, ExceptionReply, Object(d.value), false)
          else Reply(Success, ValueReply, Object(d.value), false)
  }

  // ------------------------------------------------------------------ the whole stream at once

  /** Heartbeats are skipped whole; the first other frame is answered once it is complete. */
  function Parse(codec: Codec, s: seq<byte>): Outcome {
    if |s| < HEADER_SIZE then Waiting
    else
      match codec.header(s[..HEADER_SIZE])
      case Invalid(what) => Answer(Failure(BadHeader(what)))
      case Valid(h) =>
        if |s| < h.FrameSize() then Waiting
        else if h.Heartbeat() then Parse(codec, s[h.FrameSize()..])
        else Answer(Respond(codec, h, s[HEADER_SIZE..]))
  }

  /** How many leading bytes are complete heartbeat frames. */
  function Skip(codec: Codec, s: seq<byte>): (n: nat)
    ensures n <= |s|
  {
    if |s| < HEADER_SIZE then 0
    else
      match codec.header(s[..HEADER_SIZE])
      case Invalid(_) => 0
      case Valid(h) =>
        if |s| >= h.FrameSize() && h.Heartbeat() then h.FrameSize() + Skip(codec, s[h.FrameSize()..]) else 0
  }

  /** What a stream that has ended leaves open is an error. */
  function Finish(outcome: Outcome, end: bool): Outcome {
    if outcome.Waiting? && end then Answer(Failure(Truncated)) else outcome
  }

  // ------------------------------------------------------------------ chunk by chunk

  /** `onUpstreamData` over a list of chunks, the last of which may carry the end of the stream.
      A chunk without bytes returns at once, whatever it carries. */
  function Run(codec: Codec, buffer: seq<byte>, chunks: seq<seq<byte>>, end: bool): Outcome
    decreases |chunks|
  {
    if chunks == [] then Waiting
    else if chunks[0] == [] then Run(codec, buffer, chunks[1..], end)
    else
      var b := buffer + chunks[0];
      var outcome := Finish(Parse(codec, b), end && |chunks| == 1);
      if outcome.Answer? then outcome else Run(codec, b[Skip(codec, b)..], chunks[1..], end)
  }

  function Concat(chunks: seq<seq<byte>>): seq<byte> {
    if chunks == [] then [] else chunks[0] + Concat(chunks[1..])
  }

  /** A complete heartbeat at the front is passed over, whatever follows. */
  lemma FirstHeartbeat(codec: Codec, s: seq<byte>, t: seq<byte>)
    requires Skip(codec, s) > 0
    ensures
      var n := codec.header(s[..HEADER_SIZE]).header.FrameSize();
      && n <= |s| && Skip(codec, s) == n + Skip(codec, s[n..])
      && Parse(codec, s) == Parse(codec, s[n..])
      && Parse(codec, s + t) == Parse(codec, s[n..] + t)
      && Skip(codec, s + t) == n + Skip(codec, s[n..] + t)
  {
    var n := codec.header(s[..HEADER_SIZE]).header.FrameSize();
    assert (s + t)[..HEADER_SIZE] == s[..HEADER_SIZE];
    assert (s + t)[n..] == s[n..] + t;
  }

  /** Dropping complete heartbeats before more bytes come changes nothing. */
  lemma {:induction false} ParseAfterSkip(codec: Codec, s: seq<byte>, t: seq<byte>)
    requires Parse(codec, s).Waiting?
    ensures Parse(codec, s + t) == Parse(codec, s[Skip(codec, s)..] + t)
    ensures Skip(codec, s + t) == Skip(codec, s) + Skip(codec, s[Skip(codec, s)..] + t)
    decreases |s|
  {
    var k := Skip(codec, s);
    if k == 0 {
      assert s[0..] == s;
    } else {
      var n := codec.header(s[..HEADER_SIZE]).header.FrameSize();
      FirstHeartbeat(codec, s, t);
      ParseAfterSkip(codec, s[n..], t);
      assert s[n..][k - n..] == s[k..];
    }
  }

  /** New bytes go behind what is left of the old ones. */
  lemma AppendAfterSkip(codec: Codec, s: seq<byte>, t: seq<byte>)
    requires Parse(codec, s).Waiting?
    ensures
      var all := s[Skip(codec, s)..] + t;
      Parse(codec, s + t) == Parse(codec, all) && (s + t)[Skip(codec, s + t)..] == all[Skip(codec, all)..]
  {
    ParseAfterSkip(codec, s, t);
    var k := Skip(codec, s);
    assert (s + t)[k..] == s[k..] + t;
    var all := s[k..] + t;
    assert (s + t)[k..][Skip(codec, all)..] == (s + t)[k + Skip(codec, all)..];
  }

  /** What is left after skipping starts with no complete heartbeat, and has the same outcome. */
  lemma {:induction false} SkipIsComplete(codec: Codec, s: seq<byte>)
    ensures Parse(codec, s[Skip(codec, s)..]) == Parse(codec, s)
    ensures Skip(codec, s[Skip(codec, s)..]) == 0
    decreases |s|
  {
    var k := Skip(codec, s);
    if k == 0 {
      assert s[0..] == s;
    } else {
      var n := codec.header(s[..HEADER_SIZE]).header.FrameSize();
      SkipIsComplete(codec, s[n..]);
      assert s[n..][k - n..] == s[k..];
    }
  }

  /** The body decoders answer from the frame's own body, whatever is buffered behind it. */
  ghost predicate BodyLocal(codec: Codec) {
    forall hb :: |hb| == HEADER_SIZE && codec.header(hb).Valid? && !codec.header(hb).header.Heartbeat()
      ==> LocalFor(codec, codec.header(hb).header)
  }

  ghost predicate LocalFor(codec: Codec, h: Header) {
    forall body, extra :: |body| == h.bodySize ==> SameReply(codec, h, body, extra)
  }

  ghost predicate SameReply(codec: Codec, h: Header, body: seq<byte>, extra: seq<byte>) {
    Respond(codec, h, body + extra) == Respond(codec, h, body)
  }

  /** With a local decoder an answer, once given, is the answer to every longer stream. */
  lemma {:induction false} AnswerIsFinal(codec: Codec, s: seq<byte>, t: seq<byte>)
    requires BodyLocal(codec) && Parse(codec, s).Answer?
    ensures Parse(codec, s + t) == Parse(codec, s)
    decreases |s|
  {
    assert (s + t)[..HEADER_SIZE] == s[..HEADER_SIZE];
    match codec.header(s[..HEADER_SIZE])
    case Invalid(_) =>
    case Valid(h) =>
      var n := h.FrameSize();
      if h.Heartbeat() {
        AnswerIsFinal(codec, s[n..], t);
        assert (s + t)[n..] == s[n..] + t;
      } else {
        var body := s[HEADER_SIZE..n];
        assert LocalFor(codec, h);
        assert s[HEADER_SIZE..] == body + s[n..];
        assert (s + t)[HEADER_SIZE..] == body + (s[n..] + t);
        assert SameReply(codec, h, body, s[n..]) && SameReply(codec, h, body, s[n..] + t);
      }
  }

  /** The last chunk has bytes, so an end of stream that comes with it is seen. */
  predicate EndSeen(chunks: seq<seq<byte>>) {
    chunks != [] && chunks[|chunks| - 1] != []
  }

  /** Chunk by chunk or all at once, for every list of chunks, empty ones included: the same outcome, with
      the end of the stream noticed exactly when the last chunk has bytes. */
  lemma {:induction false} RunIsParse(codec: Codec, buffer: seq<byte>, chunks: seq<seq<byte>>, end: bool)
    requires BodyLocal(codec) && Parse(codec, buffer).Waiting?
    ensures Run(codec, buffer, chunks, end) == Finish(Parse(codec, buffer + Concat(chunks)), end && EndSeen(chunks))
    decreases |chunks|
  {
    if chunks == [] {
      assert buffer + Concat(chunks) == buffer;
    } else if chunks[0] == [] {
      RunIsParse(codec, buffer, chunks[1..], end);
      assert chunks[0] + Concat(chunks[1..]) == Concat(chunks[1..]);
    } else {
      var b, later := buffer + chunks[0], Concat(chunks[1..]);
      assert buffer + Concat(chunks) == b + later;
      if Parse(codec, b).Answer? {
        AnswerIsFinal(codec, b, later);
      } else if |chunks| == 1 {
        assert b + later == b;
      } else {
        SkipIsComplete(codec, b);
        RunIsParse(codec, b[Skip(codec, b)..], chunks[1..], end);
        ParseAfterSkip(codec, b, later);
      }
    }
  }

  /** Every split gives the outcome of its bytes delivered at once. */
  ghost predicate ChunkIndependent(codec: Codec) {
    forall chunks, end :: Run(codec, [], chunks, end) == Run(codec, [], [Concat(chunks)], end && EndSeen(chunks))
  }

  lemma RunAtOnce(codec: Codec, s: seq<byte>, end: bool)
    ensures Run(codec, [], [s], end) == Finish(Parse(codec, s), end && s != [])
  {
    assert [] + s == s;
  }

  /** The split of the stream into chunks never matters exactly when the body decoders are local. */
  lemma ChunkIndependence(codec: Codec)
    ensures ChunkIndependent(codec) <==> BodyLocal(codec)
  {
    if BodyLocal(codec) {
      forall chunks, end
        ensures Run(codec, [], chunks, end) == Run(codec, [], [Concat(chunks)], end && EndSeen(chunks))
      {
        RunIsParse(codec, [], chunks, end);
        assert [] + Concat(chunks) == Concat(chunks);
        if EndSeen(chunks) { BytesOf(chunks); }
        RunAtOnce(codec, Concat(chunks), end && EndSeen(chunks));
      }
    }
    if ChunkIndependent(codec) {
      forall hb | |hb| == HEADER_SIZE && codec.header(hb).Valid? && !codec.header(hb).header.Heartbeat()
        ensures LocalFor(codec, codec.header(hb).header)
      {
        var h := codec.header(hb).header;
        forall body, extra | |body| == h.bodySize ensures SameReply(codec, h, body, extra) {
          SplitShowsLocality(codec, hb, body, extra);
        }
      }
    }
  }

  lemma {:induction false} BytesOf(chunks: seq<seq<byte>>)
    requires EndSeen(chunks)
    ensures Concat(chunks) != []
  {
    if |chunks| > 1 { BytesOf(chunks[1..]); }
  }

  lemma SplitShowsLocality(codec: Codec, hb: seq<byte>, body: seq<byte>, extra: seq<byte>)
    requires ChunkIndependent(codec)
    requires |hb| == HEADER_SIZE && codec.header(hb).Valid? && !codec.header(hb).header.Heartbeat()
    requires |body| == codec.header(hb).header.bodySize
    ensures SameReply(codec, codec.header(hb).header, body, extra)
  {
    if extra == [] {
      assert body + extra == body;
    } else {
      var frame := hb + body;
      var chunks := [frame, extra];
      assert Concat(chunks) == frame + extra by {
        assert chunks[1..] == [extra] && [extra][1..] == [];
        assert Concat([extra]) == extra + [];
      }
      assert Run(codec, [], chunks, false) == Run(codec, [], [Concat(chunks)], false && EndSeen(chunks));
      RunAtOnce(codec, frame + extra, false);
      assert [] + frame == frame;
      assert frame[..HEADER_SIZE] == hb && frame[HEADER_SIZE..] == body;
      assert (frame + extra)[..HEADER_SIZE] == hb && (frame + extra)[HEADER_SIZE..] == body + extra;
    }
  }

  /** A decoder that looks past the body of its frame gives a stream whose split matters: sixteen
      header bytes and one more, delivered together or apart. */
  lemma OverreadExample()
    ensures
      var codec := Codec(
        _ => Valid(Header(Response, 0, true)),
        (s: seq<byte>) => if s == [] then Decoded(None, 0) else Decoded(Some(WithNull), 1),
        (s: seq<byte>, n: nat) => Decoded(None, n));
      var hb := seq(16, _ => 0);
      && Run(codec, [], [hb, [0]], false) == Answer(Failure(NoType))
      && Run(codec, [], [hb + [0]], false) == Answer(Reply(Success, ValueReply, Object(None), false))
  {
    var hb: seq<byte> := seq(16, _ => 0);
    assert [] + hb == hb && hb[HEADER_SIZE..] == [];
    assert [] + (hb + [0]) == hb + [0] && (hb + [0])[HEADER_SIZE..] == [0];
  }

  /** What has been answered is not waiting any more, local decoder or not. */
  lemma {:induction false} WaitingPrefix(codec: Codec, s: seq<byte>, t: seq<byte>)
    requires Parse(codec, s + t).Waiting?
    ensures Parse(codec, s).Waiting?
    decreases |s|
  {
    if |s| >= HEADER_SIZE {
      assert (s + t)[..HEADER_SIZE] == s[..HEADER_SIZE];
      var n := codec.header(s[..HEADER_SIZE]).header.FrameSize();
      if |s| >= n {
        assert (s + t)[n..] == s[n..] + t;
        WaitingPrefix(codec, s[n..], t);
      }
    }
  }

  /** A truncated stream is reported if and only if its end comes with bytes, whatever the chunks and the
      decoder. */
  lemma {:induction false} EndNoticed(codec: Codec, buffer: seq<byte>, chunks: seq<seq<byte>>)
    requires Parse(codec, buffer + Concat(chunks)).Waiting?
    ensures Run(codec, buffer, chunks, true) == if EndSeen(chunks) then Answer(Failure(Truncated)) else Waiting
    decreases |chunks|
  {
    if chunks == [] {
    } else if chunks[0] == [] {
      assert chunks[0] + Concat(chunks[1..]) == Concat(chunks[1..]);
      EndNoticed(codec, buffer, chunks[1..]);
    } else {
      var b, later := buffer + chunks[0], Concat(chunks[1..]);
      assert buffer + Concat(chunks) == b + later;
      WaitingPrefix(codec, b, later);
      if |chunks| > 1 {
        ParseAfterSkip(codec, b, later);
        EndNoticed(codec, b[Skip(codec, b)..], chunks[1..]);
      }
    }
  }

  /** So an end that comes by itself is lost, and the truncated stream stays open. */
  lemma EmptyEndIsLost(codec: Codec, chunks: seq<seq<byte>>)
    requires Parse(codec, Concat(chunks)).Waiting?
    ensures Run(codec, [], chunks + [[]], true) == Waiting
  {
    ConcatEmpty(chunks);
    assert [] + Concat(chunks + [[]]) == Concat(chunks);
    EndNoticed(codec, [], chunks + [[]]);
  }

  lemma {:induction false} ConcatEmpty(chunks: seq<seq<byte>>)
    ensures Concat(chunks + [[]]) == Concat(chunks)
  {
    if chunks != [] {
      assert (chunks + [[]])[1..] == chunks[1..] + [[]];
      ConcatEmpty(chunks[1..]);
    }
  }

  // ------------------------------------------------------------------ what each frame is answered with

  /** What has to be given to the getter, with the status it goes with, or nothing yet. */
  datatype Want = Nothing | Want(code: nat, kind: ReplyType, payload: Payload, close: bool)

  /** Which frames succeed, which carry an exception of the service, and which are protocol errors. */
  lemma ReplyKinds(codec: Codec, h: Header, rest: seq<byte>)
    ensures
      var r, shape := Respond(codec, h, rest), codec.shape(rest);
      var answer, fits := h.kind.Response? && h.statusOk, codec.objectAt(rest, shape.offset).offset <= h.bodySize;
      && (r.code == Success <==>
            answer && (shape.value == Some(WithNull) || (shape.value == Some(WithValue) && fits)))
      && (r.code == ResponseException <==> answer && shape.value == Some(WithException) && fits)
      && (r.close <==> r.code == ProtocolError)
      && (r.kind == ValueReply <==> r.code == Success)
      && (r.kind == ExceptionReply <==> r.code != Success)
  {
  }

  /** The answer to one complete frame that is no heartbeat. */
  predicate FrameWanted(codec: Codec, h: Header, rest: seq<byte>, protocolCode: nat, exceptionCode: nat, w: Want) {
    if !h.kind.Response? then
      w == Want(protocolCode, ExceptionReply, Error(UnexpectedMessage(h.kind)), true)
    else if !h.statusOk then
      var value := codec.objectAt(rest, 0);
      && (value.offset > h.bodySize ==> w == Want(protocolCode, ExceptionReply, Error(Oversized), true))
      && (value.offset <= h.bodySize ==> w == Want(protocolCode, ExceptionReply, Object(value.value), true))
    else
      var shape := codec.shape(rest);
      var value := codec.objectAt(rest, shape.offset);
      var valued := shape.value == Some(WithValue) || shape.value == Some(WithException);
      && (shape.value == None ==> w == Want(protocolCode, ExceptionReply, Error(NoType), true))
      && (shape.value == Some(Unsupported) ==> w == Want(protocolCode, ExceptionReply, Error(UnsupportedType), true))
      && (shape.value == Some(WithNull) ==> w == Want(200, ValueReply, Object(None), false))
      && (valued && value.offset > h.bodySize ==> w == Want(protocolCode, ExceptionReply, Error(Oversized), true))
      && (shape.value == Some(WithValue) && value.offset <= h.bodySize ==>
            w == Want(200, ValueReply, Object(value.value), false))
      && (shape.value == Some(WithException) && value.offset <= h.bodySize ==>
            w == Want(exceptionCode, ExceptionReply, Object(value.value), false))
  }

  /** The answer to the bytes `f` behind whole heartbeats; `end`: no more will come. */
  predicate Wanted(codec: Codec, f: seq<byte>, end: bool, protocolCode: nat, exceptionCode: nat, w: Want) {
    if |f| >= 16 && codec.header(f[..16]).Invalid? then
      w == Want(protocolCode, ExceptionReply, Error(BadHeader(codec.header(f[..16]).what)), true)
    else if |f| < 16 || |f| < 16 + codec.header(f[..16]).header.bodySize then
      w == if end then Want(protocolCode, ExceptionReply, Error(Truncated), true) else Nothing
    else
      var h := codec.header(f[..16]).header;
      !h.kind.HeartbeatRequest? && !h.kind.HeartbeatResponse?
      && FrameWanted(codec, h, f[16..], protocolCode, exceptionCode, w)
  }

  /** The first `k` bytes are whole heartbeats. */
  predicate HeartbeatsUpTo(codec: Codec, s: seq<byte>, k: nat)
    decreases |s|
  {
    k == 0
    || (|s| >= 16 && codec.header(s[..16]).Valid?
        && var h := codec.header(s[..16]).header;
           (h.kind.HeartbeatRequest? || h.kind.HeartbeatResponse?)
           && 16 + h.bodySize <= k && 16 + h.bodySize <= |s|
           && HeartbeatsUpTo(codec, s[16 + h.bodySize..], k - (16 + h.bodySize)))
  }

  lemma {:induction false} HeartbeatsSkipped(codec: Codec, s: seq<byte>, k: nat)
    requires HeartbeatsUpTo(codec, s, k)
    ensures k <= |s| && Parse(codec, s) == Parse(codec, s[k..])
    decreases |s|
  {
    if k == 0 {
      assert s[0..] == s;
    } else {
      var n := 16 + codec.header(s[..16]).header.bodySize;
      HeartbeatsSkipped(codec, s[n..], k - n);
      assert s[n..][k - n..] == s[k..];
    }
  }

  /** Every stream has such an answer. */
  lemma {:induction false} SomethingWanted(codec: Codec, s: seq<byte>, end: bool, protocolCode: nat, exceptionCode: nat)
    returns (k: nat, w: Want)
    ensures HeartbeatsUpTo(codec, s, k) && k <= |s| && Wanted(codec, s[k..], end, protocolCode, exceptionCode, w)
    decreases |s|
  {
    k := 0;
    assert s[0..] == s;
    if |s| < 16 {
      w := if end then Want(protocolCode, ExceptionReply, Error(Truncated), true) else Nothing;
    } else {
      match codec.header(s[..16])
      case Invalid(what) => w := Want(protocolCode, ExceptionReply, Error(BadHeader(what)), true);
      case Valid(h) =>
        var n := 16 + h.bodySize;
        if |s| < n {
          w := if end then Want(protocolCode, ExceptionReply, Error(Truncated), true) else Nothing;
        } else if h.kind.HeartbeatRequest? || h.kind.HeartbeatResponse? {
          var later;
          later, w := SomethingWanted(codec, s[n..], end, protocolCode, exceptionCode);
          k := n + later;
          assert s[n..][later..] == s[k..];
        } else {
          w := WantOf(Respond(codec, h, s[16..]), protocolCode, exceptionCode);
        }
    }
  }

  /** A reply with its status as a number. */
  function WantOf(r: Reply, protocolCode: nat, exceptionCode: nat): Want {
    Want(match r.code case ProtocolError => protocolCode case ResponseException => exceptionCode case Success => 200,
         r.kind, r.payload, r.close)
  }

  /** What is wanted is what the whole stream is answered with. */
  lemma WantedIsParsed(codec: Codec, s: seq<byte>, k: nat, end: bool, protocolCode: nat, exceptionCode: nat, w: Want)
    requires HeartbeatsUpTo(codec, s, k) && k <= |s| && Wanted(codec, s[k..], end, protocolCode, exceptionCode, w)
    ensures
      match Finish(Parse(codec, s), end)
      case Waiting => w.Nothing?
      case Answer(r) => w == WantOf(r, protocolCode, exceptionCode)
  {
    HeartbeatsSkipped(codec, s, k);
  }
}
