/** One response stream as the filter manager runs it past a downgrade filter: what the upstream sent,
    what the client has been given, and whether the stream is paused. No trailers. */
module FilterStreams {
  import opened Common

  type Bytes = string
  type Headers = seq<(string, string)>

  datatype Message = Message(headers: Headers, body: Bytes)

  datatype HeadersStatus = ContinueHeaders | StopIteration | StopAllIterationAndBuffer
  datatype DataStatus = ContinueData | StopIterationNoBuffer

  datatype SendStatus = FAILED | ONCALL

  /** How the side request ends. */
  datatype SideResult = Succeeded(response: Message) | Failed

  /** What the route's matchers say. Nothing is downgraded without response conditions; that is part
      of the matchers here. */
  datatype Route = Route(
    matchesRequest: Headers -> bool,
    matchesResponse: Headers -> bool,
    matchesCache: Headers -> bool,
    withCache: bool)

  /** What can happen after the response headers, in any order: more of the request, more of the response,
      a completion of the side request. */
  datatype Step = Upload(data: Bytes) | Chunk(data: Bytes, end: bool) | Side(result: SideResult)

  /** How the side request first completes. */
  function FirstSide(steps: seq<Step>): Option<SideResult> {
    if steps == [] then None
    else
      var earlier := FirstSide(steps[..|steps| - 1]);
      if earlier.None? && steps[|steps| - 1].Side? then Some(steps[|steps| - 1].result) else earlier
  }

  /** The response that replaces a paused one: that of a side request whose first completion succeeds. */
  function Substitute(steps: seq<Step>): Option<Message> {
    match FirstSide(steps)
    case Some(Succeeded(response)) => Some(response)
    case _ => None
  }

  /** The request bytes that come after the response headers. */
  function Uploaded(steps: seq<Step>): Bytes {
    if steps == [] then []
    else
      var earlier := Uploaded(steps[..|steps| - 1]);
      if steps[|steps| - 1].Upload? then earlier + steps[|steps| - 1].data else earlier
  }

  function Joined(parts: seq<Bytes>): Bytes {
    if parts == [] then [] else Joined(parts[..|parts| - 1]) + parts[|parts| - 1]
  }

  lemma {:induction false} FirstSideIsFirst(steps: seq<Step>)
    ensures FirstSide(steps).None? <==> forall i :: 0 <= i < |steps| ==> !steps[i].Side?
    ensures FirstSide(steps).Some? ==>
      exists i :: 0 <= i < |steps| && steps[i] == Side(FirstSide(steps).value)
        && forall j :: 0 <= j < i ==> !steps[j].Side?
  {
    if steps != [] {
      var front, last := steps[..|steps| - 1], steps[|steps| - 1];
      FirstSideIsFirst(front);
      assert forall i :: 0 <= i < |front| ==> front[i] == steps[i];
      if FirstSide(front).Some? {
        var i :| 0 <= i < |front| && front[i] == Side(FirstSide(front).value)
          && forall j :: 0 <= j < i ==> !front[j].Side?;
        assert steps[i] == Side(FirstSide(steps).value);
      } else if last.Side? {
        assert steps[|front|] == Side(FirstSide(steps).value);
      }
    }
  }

  /** Bytes are joined in the order they come. */
  lemma {:induction false} JoinedInOrder(a: seq<Bytes>, b: seq<Bytes>, c: Bytes)
    ensures Joined(a + b) == Joined(a) + Joined(b) && Joined([c]) == c
  {
    assert [c][..0] == [] && Joined([]) + c == c;
    if b == [] {
      assert a + b == a;
    } else {
      JoinedInOrder(a, b[..|b| - 1], c);
      assert (a + b)[..|a + b| - 1] == a + b[..|b| - 1];
    }
  }

  lemma {:induction false} UploadedInOrder(a: seq<Step>, b: seq<Step>, c: Bytes)
    ensures Uploaded(a + b) == Uploaded(a) + Uploaded(b) && Uploaded([Upload(c)]) == c
  {
    assert [Upload(c)][..0] == [] && Uploaded([]) + c == c;
    if b == [] {
      assert a + b == a;
    } else {
      UploadedInOrder(a, b[..|b| - 1], c);
      assert (a + b)[..|a + b| - 1] == a + b[..|b| - 1];
    }
  }

  /** Request and response both match. */
  predicate Downgraded(resolved: Option<Route>, request: Headers, response: Headers) {
    resolved.Some? && resolved.value.matchesRequest(request) && resolved.value.matchesResponse(response)
  }

  const STATUS_HEADER := "x-downgrade-status"

  function Marked(headers: Headers, marker: string): Headers {
    headers + [(STATUS_HEADER, marker)]
  }

  datatype Stream = Stream(
    original: Option<Headers>,
    originalBody: Bytes,
    ended: bool,
    paused: bool,
    pausedOnce: bool,
    resumes: nat,
    client: Option<Headers>,
    clientBody: Bytes)
  {
    /** Response headers come from the upstream. */
    function Begin(headers: Headers, end: bool): Stream {
      this.(original := Some(headers), ended := end)
    }

    /** The filter let the headers through. */
    function Forward(headers: Headers): Stream {
      this.(client := Some(headers))
    }

    function Pause(): Stream {
      this.(paused := true, pausedOnce := true)
    }

    /** continueEncoding, which only a paused stream may be given. */
    function Resume(headers: Headers): Stream
      requires paused
    {
      this.(paused := false, resumes := resumes + 1, client := Some(headers))
    }

    /** addEncodedData, or data the filter let through. */
    function Append(data: Bytes): Stream {
      this.(clientBody := clientBody + data)
    }

    /** Body bytes come from the upstream; a paused stream buffers them in front of the filter. */
    function Receive(data: Bytes, end: bool): Stream
      requires !paused
    {
      this.(originalBody := originalBody + data, ended := end)
    }

    /** The client has the original response, as far as it has come. */
    predicate Untouched() {
      client == original && clientBody == originalBody
    }

    /** The client has the replacement: its headers with the marker, and its body once the original has
        ended. Nothing of the original body. */
    predicate Replaced(response: Message, marker: string) {
      && client == Some(Marked(response.headers, marker))
      && (ended ==> clientBody == response.body)
      && (!ended ==> clientBody == [])
    }

    /** Resumed at most once, and only after a pause; a stream no longer paused was resumed. */
    predicate ResumedOnce() {
      && resumes <= 1
      && (resumes == 1 <==> pausedOnce && !paused)
      && (paused ==> pausedOnce)
    }
  }

  const NEW_STREAM := Stream(None, [], false, false, false, 0, None, [])
}
