/** `ServiceDowngrade::Filter`: the downgrade protocol without a cache, always against a remote service.
    Destruction ends the exchange itself, so a late completion finds nothing to do. */
module ServiceDowngrade {
  import opened Common
  import opened FilterStreams

  const MARKER := "SERVICE"

  class Filter {
    var route: Option<Route>
    /** *rpx_headers_ */
    var headers: Headers
    var bufferedRqxBody: Bytes
    var bufferedRpxBody: Bytes
    var shouldDowngrade: bool
    var complete: bool
    var suspend: bool
    var headersOnly: bool
    var isSending: bool
    var localOver: bool
    var hasSender: bool

    ghost var stream: Stream
    /** The response the side request brought while the stream was paused. */
    ghost var replacement: Option<Message>
    ghost var requestBody: Bytes
    /** The body of the side request. */
    ghost var sideBody: Option<Bytes>
    ghost var destroyed: bool

    ghost predicate Valid()
      reads this
    {
      && (shouldDowngrade ==> route.Some?)
      && (isSending <==> stream.paused && !destroyed) && (isSending ==> hasSender)
      && stream.ResumedOnce()
      && (stream.original.None? ==> Fresh())
      && (stream.original.Some? ==> Delivery())
    }

    /** Before the response headers. */
    ghost predicate Fresh()
      reads this
    {
      && stream == NEW_STREAM && replacement.None? && sideBody.None?
      && !complete && !suspend && !hasSender && bufferedRpxBody == []
      && (shouldDowngrade ==> bufferedRqxBody == requestBody)
    }

    /** Either everything of the original or everything of the replacement, never a mixture. */
    ghost predicate Delivery()
      requires stream.original.Some?
      reads this
    {
      && (stream.paused ==>
            && replacement.None? && stream.client.None? && stream.clientBody == [] && stream.originalBody == []
            && shouldDowngrade && (!suspend || destroyed) && stream.ended == headersOnly
            && headers == stream.original.value && bufferedRpxBody == [])
      && (replacement.None? ==> !complete)
      && (replacement.None? && !stream.paused ==> stream.Untouched() && (suspend || !shouldDowngrade))
      && (replacement.Some? ==>
            && stream.pausedOnce && !stream.paused && shouldDowngrade && !suspend && complete == stream.ended
            && stream.Replaced(replacement.value, MARKER)
            && (!stream.ended ==> bufferedRpxBody == replacement.value.body))
    }

    constructor ()
      ensures Valid() && stream == NEW_STREAM && requestBody == bufferedRqxBody == []
      ensures !shouldDowngrade && !localOver && !destroyed
    {
      route, headers, bufferedRqxBody, bufferedRpxBody := None, [], [], [];
      shouldDowngrade, complete, suspend, headersOnly := false, false, false, false;
      isSending, localOver, hasSender := false, false, false;
      stream, replacement, requestBody, sideBody, destroyed := NEW_STREAM, None, [], None, false;
    }

    /** The request headers come before any request body. */
    method DecodeHeaders(request: Headers, resolved: Option<Route>)
      requires Valid() && stream.original.None? && !shouldDowngrade && requestBody == [] && bufferedRqxBody == []
      modifies this`route, this`shouldDowngrade
      ensures Valid() && route == resolved
      ensures shouldDowngrade <==> resolved.Some? && resolved.value.matchesRequest(request)
    {
      route := resolved;
      if resolved.None? {
        return;
      }
      shouldDowngrade := resolved.value.matchesRequest(request);
    }

    /** Request bytes, before or after the response headers. */
    method DecodeData(data: Bytes)
      requires Valid()
      modifies this`bufferedRqxBody, this`requestBody
      ensures Valid() && requestBody == old(requestBody) + data
    {
      requestBody := requestBody + data;
      if shouldDowngrade {
        bufferedRqxBody := bufferedRqxBody + data;
      }
    }

    /** `inside` are the completions that arrive inside `sendRequest`. */
    method EncodeHeaders(response: Headers, end: bool, sent: SendStatus, inside: seq<SideResult>)
      returns (status: HeadersStatus)
      requires Valid() && stream.original.None? && !destroyed
      modifies this`headers, this`shouldDowngrade, this`headersOnly, this`hasSender
      modifies this`sideBody, this`bufferedRqxBody, this`localOver, this`isSending, this`suspend, this`stream
      modifies this`complete, this`bufferedRpxBody, this`replacement
      ensures Valid() && stream.original == Some(response) && stream.ended == end
      ensures replacement.None? && stream.pausedOnce == stream.paused
      ensures shouldDowngrade == (old(shouldDowngrade) && route.value.matchesResponse(response))
      ensures stream.paused <==> shouldDowngrade && sent.ONCALL? && inside == [] && !old(localOver)
      ensures status == if !stream.paused then ContinueHeaders
                        else if end then StopIteration else StopAllIterationAndBuffer
      ensures shouldDowngrade ==> sideBody == Some(old(requestBody))
      ensures !shouldDowngrade ==> sideBody.None?
    {
      stream := stream.Begin(response, end);
      if !shouldDowngrade {
        stream := stream.Forward(response);
        return ContinueHeaders;
      }
      headers := response;
      shouldDowngrade := shouldDowngrade && route.value.matchesResponse(headers);
      if !shouldDowngrade {
        stream := stream.Forward(headers);
        return ContinueHeaders;
      }
      headersOnly := end;
      hasSender := true;
      status := SendDowngradeRequest(sent, inside);
    }

    method SendDowngradeRequest(sent: SendStatus, inside: seq<SideResult>) returns (status: HeadersStatus)
      requires stream == NEW_STREAM.Begin(headers, headersOnly) && replacement.None?
      requires bufferedRpxBody == [] && !destroyed
      requires !complete && !suspend && !isSending && hasSender && shouldDowngrade && route.Some?
      modifies this`sideBody, this`bufferedRqxBody, this`localOver, this`isSending, this`suspend, this`stream
      modifies this`headers, this`complete, this`bufferedRpxBody, this`replacement
      ensures Valid() && sideBody == Some(old(bufferedRqxBody))
      ensures isSending == (sent.ONCALL? && inside == [] && !old(localOver)) && suspend == !isSending
      ensures isSending ==> stream == old(stream).Pause()
      ensures replacement.None?
      ensures !isSending ==> stream == old(stream).Forward(headers)
      ensures status == if !isSending then ContinueHeaders
                        else if headersOnly then StopIteration else StopAllIterationAndBuffer
    {
      sideBody := Some(bufferedRqxBody);
      bufferedRqxBody := [];
      CompleteInside(inside);
      if sent.ONCALL? && !localOver {
        isSending := true;
        stream := stream.Pause();
        return if headersOnly then StopIteration else StopAllIterationAndBuffer;
      } else {
        suspend := true;
        stream := stream.Forward(headers);
        return ContinueHeaders;
      }
    }

    /** The completions that arrive while `sendRequest` has not returned. */
    method CompleteInside(inside: seq<SideResult>)
      requires !isSending
      modifies this`localOver, this`isSending, this`suspend, this`stream
      modifies this`headers, this`complete, this`bufferedRpxBody, this`replacement
      ensures localOver == (old(localOver) || inside != [])
      ensures unchanged(this`isSending, this`suspend, this`stream)
      ensures unchanged(this`headers, this`complete, this`bufferedRpxBody, this`replacement)
    {
      for i := 0 to |inside|
        invariant localOver == (old(localOver) || i > 0)
        invariant unchanged(this`isSending, this`suspend, this`stream)
        invariant unchanged(this`headers, this`complete, this`bufferedRpxBody, this`replacement)
      {
        match inside[i]
        case Succeeded(response) => OnSuccess(response);
        case Failed => OnFailure();
      }
    }

    /** A chunk of the original body reaches the filter; `rest` is what is left of it afterwards. */
    method EncodeData(data: Bytes, end: bool) returns (status: DataStatus, rest: Bytes)
      requires Valid() && stream.original.Some? && !stream.paused && !stream.ended
      modifies this`bufferedRpxBody, this`complete, this`stream
      ensures Valid()
      ensures stream.originalBody == old(stream.originalBody) + data && stream.ended == end
      ensures stream.original == old(stream.original) && !stream.paused && stream.resumes == old(stream.resumes)
      ensures stream.pausedOnce == old(stream.pausedOnce)
      ensures status == if replacement.Some? && !end then StopIterationNoBuffer else ContinueData
      ensures replacement.Some? ==> rest == []
      ensures replacement.None? ==> rest == data
    {
      stream := stream.Receive(data, end);
      if !shouldDowngrade || complete || suspend {
        stream := stream.Append(data);
        return ContinueData, data;
      }
      rest := [];
      if end {
        assert [] + rest + bufferedRpxBody == bufferedRpxBody;
        stream := stream.Append(rest).Append(bufferedRpxBody);
        bufferedRpxBody := [];
        complete := true;
        return ContinueData, rest;
      }
      return StopIterationNoBuffer, rest;
    }

    /** The side request succeeds; after destruction that changes nothing. */
    method OnSuccess(response: Message)
      requires (isSending ==> Valid())
      modifies this`localOver, this`isSending, this`headers, this`complete
      modifies this`bufferedRpxBody, this`stream, this`replacement
      ensures old(Valid()) ==> Valid()
      ensures localOver == (old(localOver) || !old(isSending))
      ensures !old(isSending) ==> unchanged(this`isSending, this`headers, this`complete, this`bufferedRpxBody)
      ensures !old(isSending) ==> unchanged(this`stream, this`replacement)
      ensures old(isSending) ==> !isSending && !stream.paused && stream.resumes == 1 && replacement == Some(response)
      ensures stream.original == old(stream.original) && stream.originalBody == old(stream.originalBody)
      ensures stream.ended == old(stream.ended) && stream.pausedOnce == old(stream.pausedOnce)
    {
      if !isSending {
        localOver := true;
        return;
      }
      isSending := false;
      headers := response.headers;
      complete := headersOnly;
      headers := Marked(headers, MARKER);
      replacement := Some(response);
      assert [] + response.body == response.body;
      if complete {
        stream := stream.Append(response.body);
      } else {
        bufferedRpxBody := bufferedRpxBody + response.body;
      }
      stream := stream.Resume(headers);
    }

    method OnFailure()
      requires (isSending ==> Valid())
      modifies this`localOver, this`isSending, this`suspend, this`stream
      ensures old(Valid()) ==> Valid()
      ensures localOver == (old(localOver) || !old(isSending))
      ensures !old(isSending) ==> unchanged(this`isSending, this`suspend, this`stream)
      ensures old(isSending) ==> !isSending && !stream.paused && stream.resumes == 1 && stream.Untouched() && suspend
      ensures stream.original == old(stream.original) && stream.originalBody == old(stream.originalBody)
      ensures stream.ended == old(stream.ended) && stream.pausedOnce == old(stream.pausedOnce)
    {
      if !isSending {
        localOver := true;
        return;
      }
      suspend := true;
      isSending := false;
      stream := stream.Resume(headers);
    }

    method OnDestroy()
      requires Valid() && !destroyed
      modifies this`isSending, this`suspend, this`hasSender, this`destroyed
      ensures Valid() && destroyed && !isSending
    {
      destroyed := true;
      if hasSender && isSending {
        isSending := false;
        suspend := true;
        hasSender := false;
      }
    }
  }

  /** One step after the response headers, if the filter manager lets it happen now; `ended` is whether the
      original response has ended. */
  method Perform(f: Filter, step: Step, ended: bool) returns (over: bool)
    requires f.Valid() && f.stream.original.Some? && !f.destroyed
    requires ended == f.stream.ended
    modifies f
    ensures f.Valid() && f.stream.original == old(f.stream.original) && !f.destroyed
    ensures over == f.stream.ended
    ensures f.sideBody == old(f.sideBody) && f.stream.pausedOnce == old(f.stream.pausedOnce)
    ensures f.requestBody == old(f.requestBody) + (if step.Upload? then step.data else [])
    ensures !(step.Side? && old(f.stream.paused)) ==>
      f.stream.paused == old(f.stream.paused) && f.replacement == old(f.replacement)
    ensures step.Side? && old(f.stream.paused) ==>
      !f.stream.paused && f.replacement == if step.result.Succeeded? then Some(step.result.response) else None
  {
    over := ended;
    match step
    case Upload(data) => f.DecodeData(data);
    case Chunk(data, last) =>
      if !f.isSending && !ended {
        var status, rest := f.EncodeData(data, last);
        over := last;
      }
    case Side(Succeeded(r)) => f.OnSuccess(r);
    case Side(Failed) => f.OnFailure();
  }

  /** Request bytes before the response headers. */
  method ReceiveRequest(f: Filter, uploads: seq<Bytes>)
    requires f.Valid() && f.requestBody == []
    modifies f`bufferedRqxBody, f`requestBody
    ensures f.Valid() && f.requestBody == Joined(uploads)
  {
    for i := 0 to |uploads|
      invariant f.Valid() && f.requestBody == Joined(uploads[..i])
    {
      assert uploads[..i + 1][..i] == uploads[..i];
      f.DecodeData(uploads[i]);
    }
    assert uploads[..|uploads|] == uploads;
  }

  /** A new filter, up to and with the response headers. */
  method Begin(resolved: Option<Route>, request: Headers, uploads: seq<Bytes>,
               response: Headers, end: bool, sent: SendStatus, inside: seq<SideResult>)
    returns (f: Filter)
    ensures fresh(f) && f.Valid() && !f.destroyed
    ensures f.stream.original == Some(response) && f.stream.ended == end && f.replacement.None?
    ensures f.stream.pausedOnce == f.stream.paused
    ensures f.stream.paused <==> Downgraded(resolved, request, response) && sent.ONCALL? && inside == []
    ensures Downgraded(resolved, request, response) ==> f.sideBody == Some(Joined(uploads))
    ensures !Downgraded(resolved, request, response) ==> f.sideBody.None?
    ensures f.requestBody == Joined(uploads)
  {
    f := new Filter();
    f.DecodeHeaders(request, resolved);
    ReceiveRequest(f, uploads);
    var status := f.EncodeHeaders(response, end, sent, inside);
  }

  /** Everything between the response headers and destruction. */
  method PerformAll(f: Filter, steps: seq<Step>, end: bool)
    requires f.Valid() && f.stream.original.Some? && !f.destroyed && end == f.stream.ended
    requires f.replacement.None? && f.stream.pausedOnce == f.stream.paused
    modifies f
    ensures f.Valid() && f.stream.original == old(f.stream.original) && !f.destroyed
    ensures f.sideBody == old(f.sideBody)
    ensures f.stream.pausedOnce == old(f.stream.paused)
    ensures f.stream.paused <==> old(f.stream.paused) && FirstSide(steps).None?
    ensures f.replacement == if old(f.stream.paused) then Substitute(steps) else None
    ensures f.requestBody == old(f.requestBody) + Uploaded(steps)
  {
    var ended := end;
    for i := 0 to |steps|
      invariant f.Valid() && f.stream.original == old(f.stream.original) && !f.destroyed
      invariant f.sideBody == old(f.sideBody)
      invariant ended == f.stream.ended && f.stream.pausedOnce == old(f.stream.paused)
      invariant f.stream.paused <==> old(f.stream.paused) && FirstSide(steps[..i]).None?
      invariant f.replacement == if old(f.stream.paused) then Substitute(steps[..i]) else None
      invariant f.requestBody == old(f.requestBody) + Uploaded(steps[..i])
    {
      assert steps[..i + 1][..i] == steps[..i];
      ended := Perform(f, steps[i], ended);
    }
    assert steps[..|steps|] == steps;
  }

  /** Every run, and any completions that still arrive after destruction: the client gets the original
      response or the whole replacement, and the stream is resumed at most once and only if it was
      paused. Which of these happens is decided by the matches, the send and the first completion
      between it and destruction. */
  method Lifetime(resolved: Option<Route>, request: Headers, uploads: seq<Bytes>, response: Headers, end: bool,
                  sent: SendStatus, inside: seq<SideResult>, steps: seq<Step>, late: seq<SideResult>)
    returns (f: Filter)
    ensures f.stream.ResumedOnce()
    ensures f.stream.original == Some(response)
    ensures f.stream.pausedOnce <==> Downgraded(resolved, request, response) && sent.ONCALL? && inside == []
    ensures f.stream.paused <==> f.stream.pausedOnce && FirstSide(steps).None?
    ensures f.replacement == if f.stream.pausedOnce then Substitute(steps) else None
    ensures !f.stream.paused && f.replacement.Some? ==>
      && f.stream.client == Some(f.replacement.value.headers + [("x-downgrade-status", "SERVICE")])
      && f.stream.clientBody == if f.stream.ended then f.replacement.value.body else []
    ensures !f.stream.paused && f.replacement.None? ==>
      f.stream.client == Some(response) && f.stream.clientBody == f.stream.originalBody
    ensures f.stream.paused ==> f.stream.client.None? && f.stream.clientBody == []
    ensures Downgraded(resolved, request, response) ==> f.sideBody == Some(Joined(uploads))
    ensures !Downgraded(resolved, request, response) ==> f.sideBody.None?
    ensures f.requestBody == Joined(uploads) + Uploaded(steps)
  {
    f := Begin(resolved, request, uploads, response, end, sent, inside);
    PerformAll(f, steps, end);
    f.OnDestroy();
    CompleteLate(f, late);
  }

  /** Completions after destruction change nothing the client sees. */
  method CompleteLate(f: Filter, late: seq<SideResult>)
    requires f.Valid() && f.destroyed
    modifies f
    ensures f.Valid() && f.stream == old(f.stream) && f.replacement == old(f.replacement)
    ensures f.sideBody == old(f.sideBody) && f.requestBody == old(f.requestBody)
  {
    for i := 0 to |late|
      invariant f.Valid() && f.destroyed && f.stream == old(f.stream) && f.replacement == old(f.replacement)
      invariant f.sideBody == old(f.sideBody) && f.requestBody == old(f.requestBody)
    {
      match late[i] {
        case Succeeded(r) => f.OnSuccess(r);
        case Failed => f.OnFailure();
      }
    }
  }
}
