/**
 * `streamS3File`: answers an HTTP/2 request with an object fetched from S3.
 * A failed fetch is answered with 404; otherwise the header object is
 * assembled, passed through the CORS step, and sent with status 204 (OPTIONS)
 * or sent, if the stream is still open, before the body is piped.  Every
 * answer except the OPTIONS one is guarded by `stream.closed` but not by
 * `stream.headersSent`, so a `respond` can throw; such throws are followed
 * into the enclosing `catch`.
 *
 * The awaited fetch is a parameter (`S3Fetch`), as are the MIME lookup (it
 * stands for `MimeTypes.MimeType` over the table) and the CORS step, `None`
 * when it throws.
 */
module StreamS3File {
  import opened JsStrings
  import opened Http2
  import StreamFile

  /** The outcome of `storageClient.send(GetObjectCommand)`: a rejection, or the object's `ContentLength`. */
  datatype S3Fetch = FetchFailed | Fetched(contentLength: Option<int>)

  /** The defaulted arguments of lines 13-18. */
  datatype Settings = Settings(status: int, useGzip: bool, useCache: bool, useCors: bool)

  const NotFoundBody: string := "{\"error\":\"File Not Found.\"}"
  const ServeFailedBody: string := "File could not be served on S3."
  const StreamFailedBody: string := "Internal Server Error while streaming S3 object."

  /** Default parameters: an omitted (`undefined`) argument takes its default, any other value is kept. */
  function ApplyDefaults(status: Option<int>, useGzip: Option<bool>, useCache: Option<bool>, useCors: Option<bool>)
    : (s: Settings)
    ensures status.None? ==> s.status == 200
    ensures status.Some? ==> s.status == status.value
    ensures useGzip.None? ==> !s.useGzip
    ensures useGzip.Some? ==> s.useGzip == useGzip.value
    ensures useCache.None? ==> !s.useCache
    ensures useCache.Some? ==> s.useCache == useCache.value
    ensures useCors.None? ==> !s.useCors
    ensures useCors.Some? ==> s.useCors == useCors.value
  {
    Settings(
      match status case None => 200 case Some(v) => v,
      match useGzip case None => false case Some(v) => v,
      match useCache case None => false case Some(v) => v,
      match useCors case None => false case Some(v) => v)
  }

  /** `data.ContentLength` is truthy: present and not 0. */
  predicate TruthyLength(n: Option<int>) {
    n.Some? && n.value != 0
  }

  const S3HeaderNames: set<string> :=
    {"content-type", ":status", "content-encoding", "content-length", "etag", "cache-control"}

  /**
   * The header object of lines 49-66: content type and status always;
   * `content-encoding: gzip` exactly when gzipping; `content-length` exactly
   * when not gzipping and the length is truthy; `etag` exactly when caching
   * with a truthy `lastModified`; `cache-control` exactly when it is truthy.
   */
  predicate IsS3Headers(h: Headers, contentType: HeaderValue, status: int, useGzip: bool, useCache: bool,
                        cacheControl: Option<string>, lastModified: Option<string>, contentLength: Option<int>)
  {
    && h.Keys <= S3HeaderNames
    && "content-type" in h && h["content-type"] == contentType
    && ":status" in h && h[":status"] == Number(status)
    && ("content-encoding" in h <==> useGzip)
    && (useGzip ==> h["content-encoding"] == Text("gzip"))
    && ("content-length" in h <==> !useGzip && TruthyLength(contentLength))
    && (!useGzip && TruthyLength(contentLength) ==> h["content-length"] == Number(contentLength.value))
    && ("etag" in h <==> useCache && TruthyText(lastModified))
    && (useCache && TruthyText(lastModified) ==> h["etag"] == Text(lastModified.value))
    && ("cache-control" in h <==> TruthyText(cacheControl))
    && (TruthyText(cacheControl) ==> h["cache-control"] == Text(cacheControl.value))
  }

  /** Lines 46-66: the header object before the CORS step. */
  method ResponseHeaders(mimeType: string -> Option<string>, s3Key: string, status: int, useGzip: bool,
                         useCache: bool, cacheControl: Option<string>, lastModified: Option<string>,
                         contentLength: Option<int>)
    returns (h: Headers)
    ensures IsS3Headers(h, TextOrUndefined(mimeType(s3Key)), status, useGzip, useCache, cacheControl,
                        lastModified, contentLength)
  {
    h := map["content-type" := TextOrUndefined(mimeType(s3Key)), ":status" := Number(status)];
    if useGzip {
      h := h["content-encoding" := Text("gzip")];
    } else if TruthyLength(contentLength) {
      h := h["content-length" := Number(contentLength.value)];
    }
    if useCache && TruthyText(lastModified) {
      h := h["etag" := Text(lastModified.value)];
    }
    if TruthyText(cacheControl) {
      h := h["cache-control" := Text(cacheControl.value)];
    }
  }

  /**
   * `if (!stream.closed) { stream.respond({':status': code}); stream.end(body) }`;
   * `threw` when the `respond` throws because the headers are already out.
   */
  method AnswerIfOpen(stream: Stream, code: int, body: string) returns (threw: bool)
    modifies stream
    ensures threw <==> !old(stream.closed) && old(stream.headersSent)
    ensures stream.closed == old(stream.closed)
    ensures stream.headersSent == (old(stream.headersSent) || !old(stream.closed))
    ensures stream.calls == old(stream.calls) + ErrorAnswer(old(stream.closed), old(stream.headersSent), code, body)
  {
    threw := false;
    if !stream.closed {
      threw := stream.Respond(map[":status" := Number(code)]);
      if !threw {
        stream.Send(End(Some(body)));
      }
    }
  }

  /**
   * The calls a guarded error answer makes: none on a closed stream or when
   * the `respond` throws, otherwise a bare status followed by the body.
   */
  function ErrorAnswer(closed: bool, headersSent: bool, code: int, body: string): (r: seq<StreamCall>)
    ensures RespondThrows(closed, headersSent) <==> r == []
    ensures !RespondThrows(closed, headersSent) ==>
      |r| == 2 && r[0] == Respond(map[":status" := Number(code)]) && r[1] == End(Some(body))
  {
    if closed || headersSent then [] else [Respond(map[":status" := Number(code)]), End(Some(body))]
  }

  /**
   * The outer `catch` (lines 108-113).  A throw from it rejects the promise
   * `streamS3File` returns (`rejected`).
   */
  method CatchServeError(stream: Stream) returns (rejected: bool)
    modifies stream
    ensures rejected <==> !old(stream.closed) && old(stream.headersSent)
    ensures stream.closed == old(stream.closed)
    ensures stream.headersSent == (old(stream.headersSent) || !old(stream.closed))
    ensures stream.calls == old(stream.calls) + ErrorAnswer(old(stream.closed), old(stream.headersSent), 500, ServeFailedBody)
  {
    rejected := AnswerIfOpen(stream, 500, ServeFailedBody);
  }

  /**
   * Lines 25-113 up to the listeners.  Returns the header object before the
   * CORS step (empty when the fetch failed), the settings the defaults gave,
   * and whether the returned promise rejects.  Every throw inside the outer
   * `try` (the CORS step, or a `respond` that throws) lands in its `catch`,
   * whose own `respond` throws again exactly when the stream is open and has
   * already responded.  The listeners of lines 95-106 are attached exactly
   * when the object was fetched, the CORS step returned, the method is not
   * OPTIONS and the promise does not reject.
   */
  method Serve(stream: Stream, mimeType: string -> Option<string>, s3Key: string, fetch: S3Fetch,
               requestMethod: string, status: Option<int>, useGzip: Option<bool>, useCache: Option<bool>,
               cacheControl: Option<string>, lastModified: Option<string>, useCors: Option<bool>,
               cors: (Headers, bool) -> Option<Headers>)
    returns (headers: Headers, settings: Settings, rejected: bool)
    modifies stream
    ensures settings == ApplyDefaults(status, useGzip, useCache, useCors)
    ensures stream.closed == old(stream.closed)
    ensures rejected <==> !old(stream.closed) && old(stream.headersSent)
    ensures rejected ==> stream.calls == old(stream.calls)
    ensures fetch.FetchFailed? ==>
      headers == map[] &&
      stream.calls == old(stream.calls) + ErrorAnswer(old(stream.closed), old(stream.headersSent), 404, NotFoundBody)
    ensures fetch.Fetched? ==>
      IsS3Headers(headers, TextOrUndefined(mimeType(s3Key)), settings.status, settings.useGzip, settings.useCache,
                  cacheControl, lastModified, fetch.contentLength)
    ensures fetch.Fetched? && cors(headers, settings.useCors).None? ==>
      stream.calls == old(stream.calls) + ErrorAnswer(old(stream.closed), old(stream.headersSent), 500, ServeFailedBody)
    ensures fetch.Fetched? && cors(headers, settings.useCors).Some? && requestMethod == "OPTIONS" ==>
      stream.calls == old(stream.calls)
        + (if RespondThrows(old(stream.closed), old(stream.headersSent)) then []
           else [Respond(cors(headers, settings.useCors).value[":status" := Number(204)]), End(None)])
    ensures fetch.Fetched? && cors(headers, settings.useCors).Some? && requestMethod != "OPTIONS" ==>
      stream.calls == old(stream.calls)
        + (if old(stream.closed) then [Pipe(settings.useGzip)]
           else if old(stream.headersSent) then []
           else [Respond(cors(headers, settings.useCors).value), Pipe(settings.useGzip)])
    ensures fetch.Fetched? && cors(headers, settings.useCors).Some? && requestMethod != "OPTIONS" && !rejected ==>
      stream.closed || stream.headersSent
  {
    settings := ApplyDefaults(status, useGzip, useCache, useCors);
    headers := map[];
    rejected := false;
    if fetch.FetchFailed? {
      var threw := AnswerIfOpen(stream, 404, NotFoundBody);
      if threw {
        // the throw leaves the inner `catch` for the outer one
        rejected := CatchServeError(stream);
      }
      return;
    }
    headers := ResponseHeaders(mimeType, s3Key, settings.status, settings.useGzip, settings.useCache,
                               cacheControl, lastModified, fetch.contentLength);
    var withCors := cors(headers, settings.useCors);
    if withCors.None? {
      rejected := CatchServeError(stream);
      return;
    }
    rejected := SendFound(stream, withCors.value, requestMethod, settings.useGzip);
  }

  /**
   * Lines 77-93, the answer once the CORS step has returned `sent`: OPTIONS
   * responds with 204 and ends; any other method responds if the stream is
   * open and pipes the body.  A `respond` that throws is caught by the outer
   * `catch`.
   */
  method SendFound(stream: Stream, sent: Headers, requestMethod: string, useGzip: bool) returns (rejected: bool)
    modifies stream
    ensures stream.closed == old(stream.closed)
    ensures rejected <==> !old(stream.closed) && old(stream.headersSent)
    ensures requestMethod == "OPTIONS" ==>
      stream.calls == old(stream.calls)
        + (if RespondThrows(old(stream.closed), old(stream.headersSent)) then []
           else [Respond(sent[":status" := Number(204)]), End(None)])
    ensures requestMethod != "OPTIONS" ==>
      stream.calls == old(stream.calls)
        + (if old(stream.closed) then [Pipe(useGzip)]
           else if old(stream.headersSent) then []
           else [Respond(sent), Pipe(useGzip)])
    ensures requestMethod != "OPTIONS" && !rejected ==> stream.closed || stream.headersSent
  {
    rejected := false;
    if requestMethod == "OPTIONS" {
      var threw := stream.Respond(sent[":status" := Number(204)]);
      if threw {
        rejected := CatchServeError(stream);
        return;
      }
      stream.Send(End(None));
      return;
    }
    if !stream.closed {
      var threw := stream.Respond(sent);
      if threw {
        rejected := CatchServeError(stream);
        return;
      }
    }
    stream.Send(Pipe(useGzip));
  }

  /**
   * The `error` listener (lines 95-100), for an error of the S3 body or of the
   * gzip transform.  It sits on the last stream of the pipeline, so with gzip
   * a body error goes unheard; and its `respond` throws when the headers are
   * already out.
   */
  method OnBodyError(stream: Stream, useGzip: bool, failure: Failure) returns (outcome: ListenerOutcome)
    requires failure.GzipFailed? ==> useGzip
    modifies stream
    ensures stream.closed == old(stream.closed)
    ensures !ListenerHears(useGzip, failure) ==> outcome == Unheard && stream.calls == old(stream.calls)
    ensures ListenerHears(useGzip, failure) ==>
      (outcome == ListenerThrew <==> !old(stream.closed) && old(stream.headersSent)) &&
      (outcome == Handled <==> old(stream.closed) || !old(stream.headersSent)) &&
      stream.calls == old(stream.calls) + ErrorAnswer(old(stream.closed), old(stream.headersSent), 500, StreamFailedBody)
  {
    if !ListenerHears(useGzip, failure) {
      return Unheard;
    }
    var threw := AnswerIfOpen(stream, 500, StreamFailedBody);
    outcome := if threw then ListenerThrew else Handled;
  }

  /**
   * The listener as evidently intended: it hears the errors of every stream of
   * the pipeline and, on an open stream, sends the 500 status only while no
   * headers are out and then ends the stream with the message.
   */
  method OnBodyErrorIntended(stream: Stream) returns (outcome: ListenerOutcome)
    modifies stream
    ensures outcome == Handled
    ensures stream.closed == old(stream.closed)
    ensures old(stream.closed) ==> stream.calls == old(stream.calls)
    ensures !old(stream.closed) ==>
      stream.calls == old(stream.calls) + (if old(stream.headersSent) then [] else [Respond(map[":status" := Number(500)])])
        + [End(Some(StreamFailedBody))]
  {
    outcome := Handled;
    if stream.closed {
      return;
    }
    if !stream.headersSent {
      var threw := stream.Respond(map[":status" := Number(500)]);
    }
    stream.Send(End(Some(StreamFailedBody)));
  }

  /** The body stream's `end` listener (lines 102-106). */
  method OnBodyEnd(stream: Stream)
    modifies stream
    ensures stream.closed == old(stream.closed) && stream.headersSent == old(stream.headersSent)
    ensures stream.calls == old(stream.calls) + (if old(stream.closed) then [] else [End(None)])
  {
    if !stream.closed {
      stream.Send(End(None));
    }
  }

  /**
   * A request for an object that is fetched, on a fresh stream the peer may
   * close before the call or before the body fails, as written: the error
   * message never reaches the client, and with the stream left open the
   * listener throws or never hears the error.
   */
  method ServeThenFailBody(mimeType: string -> Option<string>, s3Key: string, contentLength: Option<int>,
                           requestMethod: string, status: Option<int>, useGzip: Option<bool>, useCache: Option<bool>,
                           cacheControl: Option<string>, lastModified: Option<string>, useCors: Option<bool>,
                           cors: (Headers, bool) -> Option<Headers>, closedBeforeServe: bool, closedBeforeError: bool,
                           failure: Failure)
    returns (headers: Headers, settings: Settings, listening: bool, outcome: ListenerOutcome, calls: seq<StreamCall>)
    requires failure.GzipFailed? ==> ApplyDefaults(status, useGzip, useCache, useCors).useGzip
    ensures settings == ApplyDefaults(status, useGzip, useCache, useCors)
    ensures listening <==> requestMethod != "OPTIONS" && cors(headers, settings.useCors).Some?
    ensures End(Some(StreamFailedBody)) !in calls
    ensures listening && !closedBeforeServe && !closedBeforeError ==>
      outcome == (if ListenerHears(settings.useGzip, failure) then ListenerThrew else Unheard) &&
      calls == [Respond(cors(headers, settings.useCors).value), Pipe(settings.useGzip)]
  {
    var stream := new Stream.Open();
    if closedBeforeServe {
      stream.Close();
    }
    var rejected;
    headers, settings, rejected := Serve(stream, mimeType, s3Key, Fetched(contentLength), requestMethod, status,
                                         useGzip, useCache, cacheControl, lastModified, useCors, cors);
    listening := requestMethod != "OPTIONS" && cors(headers, settings.useCors).Some?;
    outcome := Unheard;
    if listening {
      if closedBeforeError {
        stream.Close();
      }
      outcome := OnBodyError(stream, settings.useGzip, failure);
    }
    calls := stream.calls;
  }

  /** The same request, on a stream that stays open, with the intended listener: the stream ends with the message. */
  method ServeThenFailBodyIntended(mimeType: string -> Option<string>, s3Key: string, contentLength: Option<int>,
                                   requestMethod: string, status: Option<int>, useGzip: Option<bool>,
                                   useCache: Option<bool>, cacheControl: Option<string>, lastModified: Option<string>,
                                   useCors: Option<bool>, cors: (Headers, bool) -> Option<Headers>)
    returns (headers: Headers, settings: Settings, listening: bool, calls: seq<StreamCall>)
    ensures settings == ApplyDefaults(status, useGzip, useCache, useCors)
    ensures listening <==> requestMethod != "OPTIONS" && cors(headers, settings.useCors).Some?
    ensures listening ==>
      calls == [Respond(cors(headers, settings.useCors).value), Pipe(settings.useGzip), End(Some(StreamFailedBody))]
  {
    var stream := new Stream.Open();
    var rejected;
    headers, settings, rejected := Serve(stream, mimeType, s3Key, Fetched(contentLength), requestMethod, status,
                                         useGzip, useCache, cacheControl, lastModified, useCors, cors);
    listening := requestMethod != "OPTIONS" && cors(headers, settings.useCors).Some?;
    if listening {
      var outcome := OnBodyErrorIntended(stream);
    }
    calls := stream.calls;
  }

  /**
   * For an object that is present, with a non-zero length, and caching that
   * comes with a `lastModified`, the S3 headers are the ones `streamFile`
   * would send for a file of that size.
   */
  lemma S3HeadersAgreeWithFileHeaders(h: Headers, contentType: HeaderValue, status: int, useGzip: bool,
                                      useCache: bool, cacheControl: Option<string>, lastModified: Option<string>,
                                      size: nat)
    requires size != 0 && (useCache ==> TruthyText(lastModified))
    requires IsS3Headers(h, contentType, status, useGzip, useCache, cacheControl, lastModified, Some(size))
    ensures StreamFile.IsFileHeaders(h, contentType, status, useGzip, useCache, cacheControl, lastModified, size)
  {
  }
}
