/** One fetch from end to end: send the request, read the head, read the body.
    Everything the caller sees is a function of the two byte strings. */
module HttpExchange {
  import opened Bytes
  import opened ByteStream
  import opened BodyFraming
  import opened HeadFraming
  import opened HeadReader
  import opened HeadCuts
  import opened RequestWriter
  import RequestHead
  import Body = BodyReader

  /** What a response stream says, computed from its bytes alone. */
  datatype Response =
    | NoHead(error: HeadError)
    | Response(status: nat, headers: seq<Header>, body: Outlook)

  function ResponseOf(wire: seq<byte>, isHead: bool, tail: Tail): Response {
    match ReadHead(wire, isHead, tail)
    case HeadFailed(e) => NoHead(e)
    case Head(status, headers, framing, bodyAt) =>
      Response(status, headers, BodyOf(framing, wire[bodyAt..], tail))
  }

  datatype FetchError = HeaderRefused | RequestFailed(why: WriteResult) | HeadError(head: HeadError)

  /** String::into_bytes. */
  type Encoder = string -> seq<byte>

  /** The body as the head announces it. */
  function KindOf(body: RequestBody): RequestHead.BodyKind {
    match body
    case NoRequestBody => RequestHead.Absent
    case BytesBody(b) => RequestHead.Known(|b|)
    case StreamBody(_) => RequestHead.Streamed
  }

  /** The head that goes out: its lines, with the framing of the body it announces. */
  function HeadBytes(request: RequestHead.Request, body: RequestBody, encode: Encoder): seq<byte> {
    encode(RequestHead.Joined(RequestHead.AllLines(request.(body := KindOf(body)))) + "\r\n")
  }

  /** The network takes all of it, the body's source yields no error, and the flush works. */
  predicate GoesOut(upload: Writer, at: nat, sent: seq<byte>, body: RequestBody) {
    Fits(upload.limit, at, |sent|) && !(body.StreamBody? && SourceFails(body.items)) && upload.flushes
  }

  /** fetch_headers: refused before anything is sent exactly when a caller's header
      holds a CR or LF; otherwise the head announces the body that follows it, and the
      reader returned will deliver exactly the body the response bytes carry. */
  method FetchHeaders(upload: Writer, download: Reader, request: RequestHead.Request, body: RequestBody, encode: Encoder)
      returns (failure: Option<FetchError>, status: nat, headers: seq<Header>, reader: Body.BodyReader?)
    modifies upload, download
    ensures failure == Some(HeaderRefused) <==> !RequestHead.CleanHeaders(request.headers)
    ensures failure == Some(HeaderRefused) ==>
              upload.written == old(upload.written) && download.incoming == old(download.incoming)
    ensures failure.None? ==> reader != null && fresh(reader) && reader.stream == download
    ensures failure.None? ==>
              upload.written == old(upload.written) + (HeadBytes(request, body, encode) + BodyBytes(body))
    ensures failure.None? ==> ResponseOf(old(download.incoming), request.verb == "HEAD", download.tail) ==
                              Response(status, headers, reader.Expected())
    ensures failure.Some? && failure.value.HeadError? && WithinCap(old(download.incoming)) ==>
              ResponseOf(old(download.incoming), request.verb == "HEAD", download.tail) == NoHead(failure.value.head)
    ensures failure.Some? && failure.value.RequestFailed? ==> download.incoming == old(download.incoming)
    ensures failure.Some? && failure.value.RequestFailed? <==>
              RequestHead.CleanHeaders(request.headers)
              && !GoesOut(upload, |old(upload.written)|, HeadBytes(request, body, encode) + BodyBytes(body), body)
  {
    status, headers, reader := 0, [], null;
    var head := RequestHead.BuildRequestHead(request.(body := KindOf(body)));
    if head.None? {
      return Some(HeaderRefused), 0, [], null;
    }
    var sent := WriteRequest(upload, encode(head.value), body);
    if !sent.Sent? {
      return Some(RequestFailed(sent)), 0, [], null;
    }
    var r := ReadResponseHeaders(download, request.verb == "HEAD");
    match r
    case Err(e) => failure := Some(HeadError(e));
    case Ok(s, h, framing, overflow) =>
      failure, status, headers := None, s, h;
      reader := new Body.BodyReader(download, framing, overflow);
  }

  /** The whole exchange: when every head fits the cap, the status, the fields,
      the body and every error are those of the response bytes, however the
      network cuts them. */
  method Fetch(upload: Writer, download: Reader, request: RequestHead.Request, body: RequestBody, encode: Encoder)
      returns (failure: Option<FetchError>, status: nat, headers: seq<Header>, content: seq<byte>, end: End)
    modifies upload, download
    ensures failure == Some(HeaderRefused) <==> !RequestHead.CleanHeaders(request.headers)
    ensures failure.Some? && failure.value.RequestFailed? <==>
              RequestHead.CleanHeaders(request.headers)
              && !GoesOut(upload, |old(upload.written)|, HeadBytes(request, body, encode) + BodyBytes(body), body)
    ensures WithinCap(old(download.incoming)) && RequestHead.CleanHeaders(request.headers)
            && GoesOut(upload, |old(upload.written)|, HeadBytes(request, body, encode) + BodyBytes(body), body) ==>
              match ResponseOf(old(download.incoming), request.verb == "HEAD", download.tail)
              case NoHead(e) => failure == Some(HeadError(e))
              case Response(s, h, o) =>
                failure.None? && status == s && headers == h && end == o.end && (end.Complete? ==> content == o.body)
  {
    var reader;
    content, end := [], Complete;
    failure, status, headers, reader := FetchHeaders(upload, download, request, body, encode);
    if failure.None? {
      var ok, all, error := reader.ReadAll();
      content, end := all, if ok then Complete else Failed(error);
    }
  }
}
