/**
 * The ingestion orchestrator of `useCsvAnalysis` (`src/hooks/use-csv-analysis`):
 * one POST of the file, a reader loop over the response body, one call to the
 * transform on the bytes read, and the routing of the outcome to the three
 * sinks `onData`, `onComplete` and `onError`.
 *
 * The network is data: the response is its `ok` flag and, when it has a body,
 * the script of results its reader's `read()` calls produce. The sinks are
 * observed as the trace of events the call emits.
 */
module CsvAnalysis {
  import opened Outcomes
  import opened Analysis

  /** The one message every failure other than `InvalidServerResponseError` is reported with. */
  const UnknownParsingMessage: string := "Неизвестная ошибка парсинга :("

  /** Path and query of the analysis endpoint, appended to `API_HOST`. */
  const AggregatePath: string := "/aggregate?rows=10000"

  /** A `FormData` body carrying the uploaded file. */
  datatype FormData = FormData(file: File)

  datatype Request = Request(httpMethod: string, url: string, body: FormData)

  /** What one `reader.read()` settles to. */
  datatype ReadResult = Chunk(value: Bytes) | Done | Rejected(reason: Error)

  /** A `fetch` response: `ok`, and the reader script of its body (`None` for `body: null`). */
  datatype Response = Response(ok: bool, body: Option<seq<ReadResult>>)

  /** A call the orchestrator makes: to `fetch` or to one of the sinks. */
  datatype Event =
    | Fetch(request: Request)
    | OnData(highlightsToStore: seq<Highlight>)
    | OnComplete(highlights: Record)
    | OnError(error: Error)

  /** The transform applied to the bytes read (`transformAnalysisData`). */
  type Transform = Bytes -> Result<Analysis, Error>

  function UnknownParsingError(): Error
  {
    PlainError(UnknownParsingMessage)
  }

  /** The request `analyzeCsv` issues for `file`. */
  function AnalysisRequest(apiHost: string, file: File): (r: Request)
    ensures r.httpMethod == "POST" && r.body == FormData(file)
    ensures |r.url| == |apiHost| + 21
    ensures r.url[..|apiHost|] == apiHost && r.url[|apiHost|..] == "/aggregate?rows=10000"
  {
    Request("POST", apiHost + AggregatePath, FormData(file))
  }

  /**
   * The bytes the reader yields before `done`, or the reason of the first
   * rejection. A script that ends without `done` is read as ending the stream.
   */
  function ReadAll(script: seq<ReadResult>): (r: Result<Bytes, Error>)
    ensures r.Failure? ==> Rejected(r.error) in script
    ensures (forall k :: 0 <= k < |script| ==> !script[k].Rejected?) ==> r.Success?
  {
    if script == [] then Success([])
    else match script[0]
      case Done => Success([])
      case Rejected(e) => Failure(e)
      case Chunk(c) => Prefixed(c, ReadAll(script[1..]))
  }

  function Prefixed(acc: Bytes, r: Result<Bytes, Error>): Result<Bytes, Error>
  {
    match r
    case Success(b) => Success(acc + b)
    case Failure(e) => Failure(e)
  }

  lemma PrefixedTwice(a: Bytes, b: Bytes, r: Result<Bytes, Error>)
    ensures Prefixed(a, Prefixed(b, r)) == Prefixed(a + b, r)
  {
    if r.Success? {
      assert a + (b + r.value) == (a + b) + r.value;
    }
  }

  /**
   * The `catch` of `analyzeCsv`: an `InvalidServerResponseError` goes to
   * `onError` as it is, anything else is replaced by the fixed unknown-parsing error.
   */
  function Reported(e: Error): (r: Error)
    ensures e.InvalidServerResponseError? ==> r == e
    ensures !e.InvalidServerResponseError? ==> r == PlainError(UnknownParsingMessage)
    ensures r.InvalidServerResponseError? <==> e.InvalidServerResponseError?
  {
    if e.InvalidServerResponseError? then e else UnknownParsingError()
  }

  /** The sink calls that follow the fetch, as a function of the response and the transform. */
  function SinkCalls(response: Response, transform: Transform): (calls: seq<Event>)
    ensures 1 <= |calls| <= 2
    ensures |calls| == 1 <==> calls[0].OnError?
    ensures |calls| == 2 ==> calls[0].OnData? && calls[1].OnComplete?
  {
    if !response.ok || response.body.None? then
      [OnError(UnknownParsingError())]
    else
      match ReadAll(response.body.value)
      case Failure(e) => [OnError(Reported(e))]
      case Success(bytes) =>
        match transform(bytes)
        case Failure(e) => [OnError(Reported(e))]
        case Success(a) => [OnData(a.highlightsToStore), OnComplete(a.highlights)]
  }

  /**
   * `analyzeCsv(file)`: fetch, then read the body chunk by chunk until `done`,
   * accumulating the bytes, transform them and report through the sinks.
   */
  method AnalyzeCsv(apiHost: string, file: File, response: Response, transform: Transform) returns (trace: seq<Event>)
    ensures trace == [Fetch(AnalysisRequest(apiHost, file))] + SinkCalls(response, transform)
  {
    trace := [Fetch(AnalysisRequest(apiHost, file))];
    if !response.ok || response.body.None? {
      trace := trace + [OnError(UnknownParsingError())];
      return;
    }
    var script := response.body.value;
    var acc: Bytes := [];
    var failure: Option<Error> := None;
    var i := 0;
    var reading := true;
    assert script[0..] == script;
    assert Prefixed([], ReadAll(script)) == ReadAll(script) by {
      if ReadAll(script).Success? { assert [] + ReadAll(script).value == ReadAll(script).value; }
    }
    while reading && i < |script|
      invariant 0 <= i <= |script|
      invariant reading ==> failure == None && Prefixed(acc, ReadAll(script[i..])) == ReadAll(script)
      invariant !reading ==> ReadAll(script) == (if failure.Some? then Failure(failure.value) else Success(acc))
      decreases |script| - i, reading
    {
      assert script[i..][1..] == script[i + 1..];
      assert script[i..][0] == script[i];
      match script[i]
      case Done =>
        assert acc + [] == acc;
        reading := false;
      case Rejected(e) =>
        failure := Some(e);
        reading := false;
      case Chunk(c) =>
        PrefixedTwice(acc, c, ReadAll(script[i + 1..]));
        acc := acc + c;
        i := i + 1;
    }
    if reading {
      assert script[i..] == [];
      assert acc + [] == acc;
    }
    match failure
    case Some(e) =>
      trace := trace + [OnError(Reported(e))];
    case None =>
      var outcome := transform(acc);
      match outcome
      case Failure(e) =>
        trace := trace + [OnError(Reported(e))];
      case Success(a) =>
        trace := trace + [OnData(a.highlightsToStore)];
        trace := trace + [OnComplete(a.highlights)];
  }

  // ---------------------------------------------------------------------
  // Properties of the sink calls

  /**
   * Every call ends in exactly one terminal sink: either `onData` then
   * `onComplete`, or a single `onError`; `onComplete` never follows an error.
   */
  lemma SinkCallsShape(response: Response, transform: Transform)
    ensures var calls := SinkCalls(response, transform);
      || (|calls| == 1 && calls[0].OnError?)
      || (|calls| == 2 && calls[0].OnData? && calls[1].OnComplete?)
    ensures forall k :: 0 <= k < |SinkCalls(response, transform)| ==> !SinkCalls(response, transform)[k].Fetch?
    ensures (exists k :: 0 <= k < |SinkCalls(response, transform)| && SinkCalls(response, transform)[k].OnError?)
        <==> (forall k :: 0 <= k < |SinkCalls(response, transform)| ==> !SinkCalls(response, transform)[k].OnComplete?)
  {
  }

  /** A non-ok response or a null body gives the fixed unknown-parsing error and nothing else. */
  lemma NoBodyOrHttpFailure(response: Response, transform: Transform)
    requires !response.ok || response.body.None?
    ensures SinkCalls(response, transform) == [OnError(PlainError("Неизвестная ошибка парсинга :("))]
  {
  }

  /** Chunks up to `done` are transformed; `onData` gets the display list, then `onComplete` the record. */
  lemma StreamSuccess(chunks: seq<Bytes>, rest: seq<ReadResult>, transform: Transform)
    requires transform(Concat(chunks)).Success?
    ensures var a := transform(Concat(chunks)).value;
      SinkCalls(Response(true, Some(Chunks(chunks) + [Done] + rest)), transform)
        == [OnData(a.highlightsToStore), OnComplete(a.highlights)]
  {
    assert Chunks(chunks) + [Done] + rest == Chunks(chunks) + ([Done] + rest);
    ReadChunksThen(chunks, [Done] + rest);
    assert ([Done] + rest)[0] == Done;
    assert Concat(chunks) + [] == Concat(chunks);
  }

  /** A stream read to its end whose transform fails reports that failure, classified by `Reported`, with no data. */
  lemma StreamTransformFails(chunks: seq<Bytes>, rest: seq<ReadResult>, transform: Transform)
    requires transform(Concat(chunks)).Failure?
    ensures var e := transform(Concat(chunks)).error;
      SinkCalls(Response(true, Some(Chunks(chunks) + [Done] + rest)), transform) == [OnError(Reported(e))]
    ensures var e := transform(Concat(chunks)).error;
      e.InvalidServerResponseError? ==> SinkCalls(Response(true, Some(Chunks(chunks) + [Done] + rest)), transform) == [OnError(e)]
  {
    assert Chunks(chunks) + [Done] + rest == Chunks(chunks) + ([Done] + rest);
    ReadChunksThen(chunks, [Done] + rest);
    assert ([Done] + rest)[0] == Done;
    assert Concat(chunks) + [] == Concat(chunks);
  }

  /** A reader rejection after some chunks is reported, classified by `Reported`, with no `onComplete`. */
  lemma StreamRejected(chunks: seq<Bytes>, e: Error, rest: seq<ReadResult>, transform: Transform)
    ensures SinkCalls(Response(true, Some(Chunks(chunks) + [Rejected(e)] + rest)), transform) == [OnError(Reported(e))]
    ensures e.InvalidServerResponseError? ==> SinkCalls(Response(true, Some(Chunks(chunks) + [Rejected(e)] + rest)), transform) == [OnError(e)]
    ensures !e.InvalidServerResponseError? ==> SinkCalls(Response(true, Some(Chunks(chunks) + [Rejected(e)] + rest)), transform) == [OnError(UnknownParsingError())]
  {
    assert Chunks(chunks) + [Rejected(e)] + rest == Chunks(chunks) + ([Rejected(e)] + rest);
    ReadChunksThen(chunks, [Rejected(e)] + rest);
    assert ([Rejected(e)] + rest)[0] == Rejected(e);
  }

  function Chunks(chunks: seq<Bytes>): (script: seq<ReadResult>)
    ensures |script| == |chunks|
    ensures forall k :: 0 <= k < |chunks| ==> script[k] == Chunk(chunks[k])
  {
    if chunks == [] then [] else [Chunk(chunks[0])] + Chunks(chunks[1..])
  }

  function Concat(chunks: seq<Bytes>): Bytes
  {
    if chunks == [] then [] else chunks[0] + Concat(chunks[1..])
  }

  /** Reading a run of chunks accumulates their bytes in order, then reads on. */
  lemma {:induction false} ReadChunksThen(chunks: seq<Bytes>, tail: seq<ReadResult>)
    ensures ReadAll(Chunks(chunks) + tail) == Prefixed(Concat(chunks), ReadAll(tail))
  {
    if chunks == [] {
      assert Chunks(chunks) + tail == tail;
      if ReadAll(tail).Success? {
        assert [] + ReadAll(tail).value == ReadAll(tail).value;
      }
    } else {
      var script := Chunks(chunks) + tail;
      assert script[0] == Chunk(chunks[0]);
      assert script[1..] == Chunks(chunks[1..]) + tail;
      ReadChunksThen(chunks[1..], tail);
      PrefixedTwice(chunks[0], Concat(chunks[1..]), ReadAll(tail));
    }
  }

  /**
   * With the real transform, `onError` only ever receives an
   * `InvalidServerResponseError` or the fixed unknown-parsing error, and
   * `onData` receives exactly the converted record that `onComplete` receives.
   */
  lemma WithAnalysisTransform(titles: Titles, decode: Bytes -> string, parse: string -> Option<Record>, response: Response)
    ensures var calls := SinkCalls(response, b => TransformAnalysisData(titles, decode, parse, b));
      && (forall k :: 0 <= k < |calls| && calls[k].OnError? ==>
            calls[k].error.InvalidServerResponseError? || calls[k].error == UnknownParsingError())
      && (|calls| == 2 ==> calls[0].highlightsToStore == ConvertHighlightsToArray(titles, calls[1].highlights)
                           && ValidateServerResponse(titles, calls[1].highlights) == Success(true))
  {
    var t: Transform := b => TransformAnalysisData(titles, decode, parse, b);
    if response.ok && response.body.Some? {
      var read := ReadAll(response.body.value);
      if read.Success? {
        TransformOutcome(titles, decode, parse, read.value);
      }
    }
  }

  /** The fetch is issued exactly once, first, to `API_HOST + '/aggregate?rows=10000'` with a form body. */
  lemma SingleFetch(apiHost: string, file: File, response: Response, transform: Transform, trace: seq<Event>)
    requires trace == [Fetch(AnalysisRequest(apiHost, file))] + SinkCalls(response, transform)
    ensures trace[0] == Fetch(Request("POST", apiHost + "/aggregate?rows=10000", FormData(file)))
    ensures forall k :: 1 <= k < |trace| ==> !trace[k].Fetch?
  {
    SinkCallsShape(response, transform);
  }

  /** The request of the test, whose `API_HOST` is `http://test-api.com`. */
  lemma TestHostRequest(file: File)
    ensures AnalysisRequest("http://test-api.com", file).url == "http://test-api.com/aggregate?rows=10000"
  {
  }
}
