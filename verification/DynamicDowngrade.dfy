/** `HttpDynamicDowngradeFilter`: a response that matches is paused, replaced from a side request and
    resumed; a response that does not may be cached instead. */
module DynamicDowngrade {
  import opened Common
  import opened FilterStreams

  const MARKER := "DYNAMIC"

  class HttpDynamicDowngradeFilter {
    var route: Option<Route>
    /** *rpx_headers_ */
    var headers: Headers
    var bufferedRqxBody: Bytes
    var bufferedRpxBody: Bytes
    var responseToCache: Option<Message>
    var shouldDowngrade: bool
    var complete: bool
    var suspend: bool
    var shouldCache: bool
    var headersOnly: bool
    var isSending: bool
    var localOver: bool
    var hasSender: bool

    ghost var stream: Stream
    /** The response the side request brought while the stream was paused. */
    ghost var replacement: Option<Message>
    /** The messages handed to the cache. */
    ghost var cached: seq<Message>
    ghost var requestBody: Bytes
    /** The body of the side request. */
    ghost var sideBody: Option<Bytes>
    ghost var cancelled: bool

    ghost predicate Valid()
      reads this
    {
      && (shouldDowngrade || shouldCache ==> route.Some?)
      && (isSending <==> stream.paused) && (isSending ==> hasSender)
      && stream.ResumedOnce()
      && (stream.original.None? ==> Fresh())
      && (stream.original.Some? ==> Delivery() && Caching())
    }

    /** Before the response headers. */
    ghost predicate Fresh()
      requires shouldDowngrade ==> route.Some?
      reads this
    {
      && stream == NEW_STREAM && replacement.None? && cached == [] && sideBody.None? && !cancelled
      && !complete && !suspend && !shouldCache && !hasSender && bufferedRpxBody == [] && responseToCache.None?
      && (shouldDowngrade && !route.value.withCache ==> bufferedRqxBody == requestBody)
    }

    /** Either everything of the original or everything of the replacement, never a mixture. */
    ghost predicate Delivery()
      requires stream.original.Some?
      reads this
    {
      && (stream.paused ==>
            && replacement.None? && stream.client.None? && stream.clientBody == [] && stream.originalBody == []
            && shouldDowngrade && !suspend && stream.ended == headersOnly && headers == stream.original.value
            && bufferedRpxBody == [])
      && (replacement.None? ==> !complete)
      && (replacement.None? && !stream.paused ==> stream.Untouched() && (suspend || !shouldDowngrade))
      && (replacement.Some? ==>
            && stream.pausedOnce && !stream.paused && shouldDowngrade && !suspend && complete == stream.ended
            && stream.Replaced(replacement.value, MARKER)
            && (!stream.ended ==> bufferedRpxBody == replacement.value.body))
    }

    /** A response that is only cached passes unchanged, and the message handed over at its end has
        exactly its headers and body. */
    ghost predicate Caching()
      requires stream.original.Some? && (shouldCache ==> route.Some?)
      reads this
    {
      && (shouldCache ==>
            && !shouldDowngrade && !suspend && hasSender && route.value.withCache
            && !stream.paused && replacement.None?)
      && (shouldCache && !stream.ended ==>
            && cached == [] && responseToCache == Some(Message(stream.original.value, []))
            && bufferedRpxBody == stream.originalBody)
      && (shouldCache && stream.ended ==> cached == [Message(stream.original.value, stream.originalBody)])
      && (!shouldCache ==> cached == [])
    }

    constructor ()
      ensures Valid() && stream == NEW_STREAM && requestBody == bufferedRqxBody == []
      ensures !shouldDowngrade && !localOver && !cancelled
    {
      route, headers, bufferedRqxBody, bufferedRpxBody, responseToCache := None, [], [], [], None;
      shouldDowngrade, complete, suspend, shouldCache, headersOnly := false, false, false, false, false;
      isSending, localOver, hasSender := false, false, false;
      stream, replacement, cached, requestBody, sideBody, cancelled := NEW_STREAM, None, [], [], None, false;
    }

    /** The request headers come before any request body. */
    method DecodeHeaders(request: Headers, resolved: Option<Route>)
      requires Valid() && stream.original.None? && !shouldDowngrade && requestBody == [] && bufferedRqxBody == []
      modifies this`route, this`shouldDowngrade
      ensures Valid() && route == resolved
      ensures shouldDowngrade <==> resolved.Some? && resolved.value.matchesRequest(request)
    {
      route := resolved;
      if resolved.None? {
        return;
      }
      shouldDowngrade := resolved.value.matchesRequest(request);
    }

    /** Request bytes, before or after the response headers. */
    method DecodeData(data: Bytes)
      requires Valid()
      modifies this`bufferedRqxBody, this`requestBody
      ensures Valid() && requestBody == old(requestBody) + data
    {
      requestBody := requestBody + data;
      if shouldDowngrade && !route.value.withCache {
        bufferedRqxBody := bufferedRqxBody + data;
      }
    }

    /** `inside` are the completions that arrive inside `sendRequest`. The stream pauses exactly when the
        response is to be downgraded and its side request is really under way. */
    method EncodeHeaders(response: Headers, end: bool, sent: SendStatus, inside: seq<SideResult>)
      returns (status: HeadersStatus)
      requires Valid() && stream.original.None?
      modifies this`headers, this`shouldDowngrade, this`shouldCache, this`headersOnly
      modifies this`hasSender, this`responseToCache, this`cached
      modifies this`sideBody, this`bufferedRqxBody, this`localOver, this`isSending, this`suspend, this`stream
      modifies this`complete, this`bufferedRpxBody, this`replacement
      ensures Valid() && stream.original == Some(response) && stream.ended == end
      ensures replacement.None? && stream.pausedOnce == stream.paused
      ensures shouldDowngrade == (old(shouldDowngrade) && route.value.matchesResponse(response))
      ensures shouldCache <==>
        old(shouldDowngrade) && !shouldDowngrade && route.value.withCache && route.value.matchesCache(response)
      ensures stream.paused <==> shouldDowngrade && sent.ONCALL? && inside == [] && !old(localOver)
      ensures status == if !stream.paused then ContinueHeaders
                        else if end then StopIteration else StopAllIterationAndBuffer
      ensures shouldDowngrade && route.value.withCache ==> sideBody == Some([])
      ensures shouldDowngrade && !route.value.withCache ==> sideBody == Some(old(requestBody))
      ensures !shouldDowngrade ==> sideBody.None?
    {
      Classify(response, end);
      if shouldDowngrade {
        status := SendDowngradeRequest(sent, inside);
      } else if shouldCache {
        status := CacheResponse();
      } else {
        status := PassResponse();
      }
    }

    /** The first half of `encodeHeaders`: what is to be done with this response. */
    method Classify(response: Headers, end: bool)
      requires Valid() && stream.original.None?
      modifies this`headers, this`shouldDowngrade, this`shouldCache, this`headersOnly, this`hasSender, this`stream
      ensures Undecided(response, end)
      ensures shouldDowngrade == (old(shouldDowngrade) && route.value.matchesResponse(response))
      ensures shouldCache <==>
        old(shouldDowngrade) && !shouldDowngrade && route.value.withCache && route.value.matchesCache(response)
      ensures shouldDowngrade || shouldCache ==> hasSender && headersOnly == end && headers == response
    {
      stream := stream.Begin(response, end);
      if !shouldDowngrade {
        return;
      }
      headers := response;
      shouldDowngrade := shouldDowngrade && route.value.matchesResponse(headers);
      if !shouldDowngrade {
        shouldCache := route.value.withCache && route.value.matchesCache(headers);
      }
      if !shouldDowngrade && !shouldCache {
        return;
      }
      headersOnly := end;
      hasSender := true;
    }

    /** The response headers have just come and nothing has been done about them. */
    ghost predicate Undecided(response: Headers, end: bool)
      reads this
    {
      && stream == NEW_STREAM.Begin(response, end)
      && replacement.None? && cached == [] && sideBody.None? && !cancelled && bufferedRpxBody == []
      && !complete && !suspend && !isSending && (shouldDowngrade || shouldCache ==> route.Some?)
      && !(shouldDowngrade && shouldCache)
    }

    method PassResponse() returns (status: HeadersStatus)
      requires stream.original.Some? && Undecided(stream.original.value, stream.ended)
      requires !shouldDowngrade && !shouldCache
      modifies this`stream
      ensures Valid() && stream == old(stream).Forward(old(stream.original.value)) && status.ContinueHeaders?
    {
      stream := stream.Forward(stream.original.value);
      return ContinueHeaders;
    }

    /** No downgrade: a response of headers only is cached at once, any other when its body has ended. */
    method CacheResponse() returns (status: HeadersStatus)
      requires Undecided(headers, headersOnly) && hasSender && shouldCache && route.value.withCache
      modifies this`responseToCache, this`cached, this`stream
      ensures Valid() && stream == old(stream).Forward(headers) && status.ContinueHeaders?
    {
      responseToCache := Some(Message(headers, []));
      if headersOnly {
        cached := [responseToCache.value];
        responseToCache := None;
      }
      stream := stream.Forward(headers);
      return ContinueHeaders;
    }

    method SendDowngradeRequest(sent: SendStatus, inside: seq<SideResult>) returns (status: HeadersStatus)
      requires Undecided(headers, headersOnly) && hasSender && shouldDowngrade
      modifies this`sideBody, this`bufferedRqxBody, this`localOver, this`isSending, this`suspend, this`stream
      modifies this`headers, this`complete, this`bufferedRpxBody, this`replacement
      ensures Valid()
      ensures route.value.withCache ==> sideBody == Some([])
      ensures !route.value.withCache ==> sideBody == Some(old(bufferedRqxBody))
      ensures isSending == (sent.ONCALL? && inside == [] && !old(localOver)) && suspend == !isSending
      ensures isSending ==> stream == old(stream).Pause()
      ensures replacement.None?
      ensures !isSending ==> stream == old(stream).Forward(headers)
      ensures status == if !isSending then ContinueHeaders
                        else if headersOnly then StopIteration else StopAllIterationAndBuffer
    {
      if route.value.withCache {
        sideBody := Some([]);
      } else {
        sideBody := Some(bufferedRqxBody);
        bufferedRqxBody := [];
      }
      CompleteInside(inside);
      if sent.ONCALL? && !localOver {
        isSending := true;
        stream := stream.Pause();
        return if headersOnly then StopIteration else StopAllIterationAndBuffer;
      } else {
        suspend := true;
        stream := stream.Forward(headers);
        return ContinueHeaders;
      }
    }

    /** The completions that arrive while `sendRequest` has not returned. */
    method CompleteInside(inside: seq<SideResult>)
      requires !isSending && !cancelled
      modifies this`localOver, this`isSending, this`suspend, this`stream
      modifies this`headers, this`complete, this`bufferedRpxBody, this`replacement
      ensures localOver == (old(localOver) || inside != [])
      ensures unchanged(this`isSending, this`suspend, this`stream)
      ensures unchanged(this`headers, this`complete, this`bufferedRpxBody, this`replacement)
    {
      for i := 0 to |inside|
        invariant localOver == (old(localOver) || i > 0)
        invariant unchanged(this`isSending, this`suspend, this`stream)
        invariant unchanged(this`headers, this`complete, this`bufferedRpxBody, this`replacement)
      {
        match inside[i]
        case Succeeded(response) => OnSuccess(response);
        case Failed => OnFailure();
      }
    }

    /** A chunk of the original body reaches the filter; `rest` is what is left of it afterwards. */
    method EncodeData(data: Bytes, end: bool) returns (status: DataStatus, rest: Bytes)
      requires Valid() && stream.original.Some? && !stream.paused && !stream.ended
      modifies this`bufferedRpxBody, this`responseToCache, this`cached, this`complete, this`stream
      ensures Valid()
      ensures stream.originalBody == old(stream.originalBody) + data && stream.ended == end
      ensures stream.original == old(stream.original) && !stream.paused && stream.resumes == old(stream.resumes)
      ensures stream.pausedOnce == old(stream.pausedOnce)
      ensures status == if replacement.Some? && !end then StopIterationNoBuffer else ContinueData
      ensures replacement.Some? ==> rest == []
      ensures replacement.None? ==> rest == data
    {
      stream := stream.Receive(data, end);
      if complete || suspend || (!shouldDowngrade && !shouldCache) {
        stream := stream.Append(data);
        return ContinueData, data;
      }
      if !shouldDowngrade && shouldCache {
        bufferedRpxBody := bufferedRpxBody + data;
        if end {
          assert [] + bufferedRpxBody == bufferedRpxBody;
          responseToCache := Some(Message(responseToCache.value.headers, responseToCache.value.body + bufferedRpxBody));
          bufferedRpxBody := [];
          cached := cached + [responseToCache.value];
          responseToCache := None;
        }
        stream := stream.Append(data);
        return ContinueData, data;
      }
      rest := [];
      if end {
        assert [] + rest + bufferedRpxBody == bufferedRpxBody;
        stream := stream.Append(rest).Append(bufferedRpxBody);
        bufferedRpxBody := [];
        complete := true;
        return ContinueData, rest;
      }
      return StopIterationNoBuffer, rest;
    }

    /** The side request succeeds. A cancelled one reports nothing. */
    method OnSuccess(response: Message)
      requires (isSending ==> Valid()) && !cancelled
      modifies this`localOver, this`isSending, this`headers, this`complete
      modifies this`bufferedRpxBody, this`stream, this`replacement
      ensures old(Valid()) ==> Valid()
      ensures localOver == (old(localOver) || !old(isSending))
      ensures !old(isSending) ==> unchanged(this`isSending, this`headers, this`complete, this`bufferedRpxBody)
      ensures !old(isSending) ==> unchanged(this`stream, this`replacement)
      ensures old(isSending) ==> !isSending && !stream.paused && stream.resumes == 1 && replacement == Some(response)
      ensures stream.original == old(stream.original) && stream.originalBody == old(stream.originalBody)
      ensures stream.ended == old(stream.ended) && stream.pausedOnce == old(stream.pausedOnce)
    {
      if !isSending {
        localOver := true;
        return;
      }
      isSending := false;
      headers := response.headers;
      complete := headersOnly;
      headers := Marked(headers, MARKER);
      replacement := Some(response);
      assert [] + response.body == response.body;
      if complete {
        stream := stream.Append(response.body);
      } else {
        bufferedRpxBody := bufferedRpxBody + response.body;
      }
      stream := stream.Resume(headers);
    }

    method OnFailure()
      requires (isSending ==> Valid()) && !cancelled
      modifies this`localOver, this`isSending, this`suspend, this`stream
      ensures old(Valid()) ==> Valid()
      ensures localOver == (old(localOver) || !old(isSending))
      ensures !old(isSending) ==> unchanged(this`isSending, this`suspend, this`stream)
      ensures old(isSending) ==> !isSending && !stream.paused && stream.resumes == 1 && stream.Untouched() && suspend
      ensures stream.original == old(stream.original) && stream.originalBody == old(stream.originalBody)
      ensures stream.ended == old(stream.ended) && stream.pausedOnce == old(stream.pausedOnce)
    {
      if !isSending {
        localOver := true;
        return;
      }
      suspend := true;
      isSending := false;
      stream := stream.Resume(headers);
    }

    method OnDestroy()
      requires Valid()
      modifies this`cancelled
      ensures Valid() && cancelled == (old(cancelled) || stream.paused)
    {
      if hasSender && isSending {
        cancelled := true;
      }
    }
  }

  /** One step after the response headers, if the filter manager lets it happen now; `ended` is whether the
      original response has ended. */
  method Perform(f: HttpDynamicDowngradeFilter, step: Step, ended: bool) returns (over: bool)
    requires f.Valid() && f.stream.original.Some? && !f.cancelled
    requires ended == f.stream.ended
    modifies f
    ensures f.Valid() && f.stream.original == old(f.stream.original) && !f.cancelled
    ensures f.route == old(f.route) && f.shouldCache == old(f.shouldCache)
    ensures over == f.stream.ended
    ensures f.sideBody == old(f.sideBody) && f.stream.pausedOnce == old(f.stream.pausedOnce)
    ensures f.requestBody == old(f.requestBody) + (if step.Upload? then step.data else [])
    ensures !(step.Side? && old(f.stream.paused)) ==>
      f.stream.paused == old(f.stream.paused) && f.replacement == old(f.replacement)
    ensures step.Side? && old(f.stream.paused) ==>
      !f.stream.paused && f.replacement == if step.result.Succeeded? then Some(step.result.response) else None
  {
    over := ended;
    match step
    case Upload(data) => f.DecodeData(data);
    case Chunk(data, last) =>
      if !f.isSending && !ended {
        var status, rest := f.EncodeData(data, last);
        over := last;
      }
    case Side(Succeeded(r)) => f.OnSuccess(r);
    case Side(Failed) => f.OnFailure();
  }

  /** Request bytes before the response headers. */
  method ReceiveRequest(f: HttpDynamicDowngradeFilter, uploads: seq<Bytes>)
    requires f.Valid() && f.requestBody == []
    modifies f`bufferedRqxBody, f`requestBody
    ensures f.Valid() && f.requestBody == Joined(uploads)
  {
    for i := 0 to |uploads|
      invariant f.Valid() && f.requestBody == Joined(uploads[..i])
    {
      assert uploads[..i + 1][..i] == uploads[..i];
      f.DecodeData(uploads[i]);
    }
    assert uploads[..|uploads|] == uploads;
  }

  /** A new filter, up to and with the response headers. */
  method Begin(resolved: Option<Route>, request: Headers, uploads: seq<Bytes>,
               response: Headers, end: bool, sent: SendStatus, inside: seq<SideResult>)
    returns (f: HttpDynamicDowngradeFilter)
    ensures fresh(f) && f.Valid() && !f.cancelled
    ensures f.stream.original == Some(response) && f.stream.ended == end && f.replacement.None?
    ensures f.stream.pausedOnce == f.stream.paused
    ensures f.stream.paused <==> Downgraded(resolved, request, response) && sent.ONCALL? && inside == []
    ensures Downgraded(resolved, request, response) ==>
      f.sideBody == Some(if resolved.value.withCache then [] else Joined(uploads))
    ensures !Downgraded(resolved, request, response) ==> f.sideBody.None?
    ensures f.requestBody == Joined(uploads)
    ensures f.shouldCache <==>
      && resolved.Some? && resolved.value.matchesRequest(request) && !resolved.value.matchesResponse(response)
      && resolved.value.withCache && resolved.value.matchesCache(response)
  {
    f := new HttpDynamicDowngradeFilter();
    f.DecodeHeaders(request, resolved);
    ReceiveRequest(f, uploads);
    var status := f.EncodeHeaders(response, end, sent, inside);
  }

  /** Everything between the response headers and destruction. */
  method PerformAll(f: HttpDynamicDowngradeFilter, steps: seq<Step>, end: bool)
    requires f.Valid() && f.stream.original.Some? && !f.cancelled && end == f.stream.ended
    requires f.replacement.None? && f.stream.pausedOnce == f.stream.paused
    modifies f
    ensures f.Valid() && f.stream.original == old(f.stream.original) && !f.cancelled
    ensures f.sideBody == old(f.sideBody) && f.shouldCache == old(f.shouldCache)
    ensures f.stream.pausedOnce == old(f.stream.paused)
    ensures f.stream.paused <==> old(f.stream.paused) && FirstSide(steps).None?
    ensures f.replacement == if old(f.stream.paused) then Substitute(steps) else None
    ensures f.requestBody == old(f.requestBody) + Uploaded(steps)
  {
    var ended := end;
    for i := 0 to |steps|
      invariant f.Valid() && f.stream.original == old(f.stream.original) && !f.cancelled
      invariant f.sideBody == old(f.sideBody) && f.shouldCache == old(f.shouldCache)
      invariant ended == f.stream.ended && f.stream.pausedOnce == old(f.stream.paused)
      invariant f.stream.paused <==> old(f.stream.paused) && FirstSide(steps[..i]).None?
      invariant f.replacement == if old(f.stream.paused) then Substitute(steps[..i]) else None
      invariant f.requestBody == old(f.requestBody) + Uploaded(steps[..i])
    {
      assert steps[..i + 1][..i] == steps[..i];
      ended := Perform(f, steps[i], ended);
    }
    assert steps[..|steps|] == steps;
  }

  /** Every run up to destruction, for every chunking, every side request and any number of completions:
      the client gets the original response or the whole replacement, the stream is resumed at most
      once and only if it was paused, and a cache-only response passes unchanged and is cached whole.
      Which of these happens is decided by the matches, the send and the first completion after it. */
  method Lifetime(resolved: Option<Route>, request: Headers, uploads: seq<Bytes>,
                  response: Headers, end: bool, sent: SendStatus, inside: seq<SideResult>, steps: seq<Step>)
    returns (f: HttpDynamicDowngradeFilter)
    ensures f.stream.ResumedOnce()
    ensures f.stream.original == Some(response)
    ensures f.stream.pausedOnce <==> Downgraded(resolved, request, response) && sent.ONCALL? && inside == []
    ensures f.stream.paused <==> f.stream.pausedOnce && FirstSide(steps).None?
    ensures f.replacement == if f.stream.pausedOnce then Substitute(steps) else None
    ensures !f.stream.paused && f.replacement.Some? ==>
      && f.stream.client == Some(f.replacement.value.headers + [("x-downgrade-status", "DYNAMIC")])
      && f.stream.clientBody == if f.stream.ended then f.replacement.value.body else []
    ensures !f.stream.paused && f.replacement.None? ==>
      f.stream.client == Some(response) && f.stream.clientBody == f.stream.originalBody
    ensures f.stream.paused ==> f.stream.client.None? && f.stream.clientBody == []
    ensures Downgraded(resolved, request, response) ==>
      f.sideBody == Some(if resolved.value.withCache then [] else Joined(uploads))
    ensures !Downgraded(resolved, request, response) ==> f.sideBody.None?
    ensures f.requestBody == Joined(uploads) + Uploaded(steps)
    ensures f.shouldCache <==>
      && resolved.Some? && resolved.value.matchesRequest(request) && !resolved.value.matchesResponse(response)
      && resolved.value.withCache && resolved.value.matchesCache(response)
    ensures f.shouldCache && f.stream.ended ==> f.cached == [Message(response, f.stream.originalBody)]
    ensures !f.shouldCache ==> f.cached == []
  {
    f := Begin(resolved, request, uploads, response, end, sent, inside);
    PerformAll(f, steps, end);
    f.OnDestroy();
  }
}
