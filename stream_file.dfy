/**
 * `streamFile`: answers an HTTP/2 request with a file from disk.  The header
 * object is assembled from the options, handed to the CORS step, and then
 * either sent with status 204 and no body (OPTIONS) or sent before the file,
 * optionally gzipped, is piped into the stream.  Nothing checks the stream's
 * state first, so `respond` can throw.
 *
 * The modules `streamFile` requires are parameters: `mimeType` stands for
 * the lookup of `MimeTypes.MimeType` over the MIME table, and `cors(headers, useCors)`
 * gives the headers as the CORS step leaves them, or `None` when it throws.
 */
module StreamFile {
  import opened JsStrings
  import opened Http2

  /** The properties `streamFile` may set on its header object. */
  const FileHeaderNames: set<string> :=
    {"content-type", ":status", "content-encoding", "content-length", "etag", "cache-control"}

  /**
   * The header object of lines 50-64, property by property: content type and
   * status always; `content-encoding: gzip` exactly when gzipping and
   * `content-length` exactly when not; `etag` exactly when caching;
   * `cache-control` exactly when its value is truthy.
   */
  predicate IsFileHeaders(h: Headers, contentType: HeaderValue, status: int, useGzip: bool, useCache: bool,
                          cacheControl: Option<string>, lastModified: Option<string>, size: nat)
  {
    && h.Keys <= FileHeaderNames
    && "content-type" in h && h["content-type"] == contentType
    && ":status" in h && h[":status"] == Number(status)
    && ("content-encoding" in h <==> useGzip)
    && (useGzip ==> h["content-encoding"] == Text("gzip"))
    && ("content-length" in h <==> !useGzip)
    && (!useGzip ==> h["content-length"] == Number(size))
    && ("etag" in h <==> useCache)
    && (useCache ==> h["etag"] == TextOrUndefined(lastModified))
    && ("cache-control" in h <==> TruthyText(cacheControl))
    && (TruthyText(cacheControl) ==> h["cache-control"] == Text(cacheControl.value))
  }

  /** The description above leaves nothing open: at most one header object meets it. */
  lemma FileHeadersDetermined(h1: Headers, h2: Headers, contentType: HeaderValue, status: int, useGzip: bool,
                              useCache: bool, cacheControl: Option<string>, lastModified: Option<string>, size: nat)
    requires IsFileHeaders(h1, contentType, status, useGzip, useCache, cacheControl, lastModified, size)
    requires IsFileHeaders(h2, contentType, status, useGzip, useCache, cacheControl, lastModified, size)
    ensures h1 == h2
  {
    forall k | k in FileHeaderNames ensures (k in h1 <==> k in h2) && (k in h1 ==> h1[k] == h2[k]) {
    }
    assert h1.Keys == h2.Keys;
  }

  /** Lines 48-64: the header object before the CORS step. */
  method ResponseHeaders(mimeType: string -> Option<string>, file: string, status: int, useGzip: bool, useCache: bool,
                         cacheControl: Option<string>, lastModified: Option<string>, size: nat)
    returns (h: Headers)
    ensures IsFileHeaders(h, TextOrUndefined(mimeType(file)), status, useGzip, useCache,
                          cacheControl, lastModified, size)
  {
    h := map["content-type" := TextOrUndefined(mimeType(file)), ":status" := Number(status)];
    if useGzip {
      h := h["content-encoding" := Text("gzip")];
    } else {
      h := h["content-length" := Number(size)];
    }
    if useCache {
      h := h["etag" := TextOrUndefined(lastModified)];
    }
    if TruthyText(cacheControl) {
      h := h["cache-control" := Text(cacheControl.value)];
    }
  }

  /** The body sent when reading the file fails: the fixed text followed by the file's path. */
  function ReadErrorMessage(file: string): (m: string)
    ensures StartsWith(m, "Internal Server Error while streaming file: ")
    ensures m[|"Internal Server Error while streaming file: "|..] == file
  {
    var m := "Internal Server Error while streaming file: " + file;
    assert m[..|"Internal Server Error while streaming file: "|] == "Internal Server Error while streaming file: ";
    m
  }

  /**
   * Lines 47-96 up to the listeners.  Returns the header object before the CORS
   * step, whether the file was opened for reading, and whether a throw escapes
   * `streamFile`: from the CORS step, or from a `respond` on a closed stream or
   * one that has already responded.  The listeners of lines 89-95 are attached
   * exactly when the method is not OPTIONS and nothing threw.
   */
  method Serve(stream: Stream, mimeType: string -> Option<string>, file: string, requestMethod: string, size: nat,
               status: int, useGzip: bool, useCache: bool, cacheControl: Option<string>,
               lastModified: Option<string>, useCors: bool, cors: (Headers, bool) -> Option<Headers>)
    returns (headers: Headers, fileOpened: bool, threw: bool)
    modifies stream
    ensures IsFileHeaders(headers, TextOrUndefined(mimeType(file)), status, useGzip, useCache,
                          cacheControl, lastModified, size)
    ensures stream.closed == old(stream.closed)
    ensures fileOpened <==> cors(headers, useCors).Some? && requestMethod != "OPTIONS"
    ensures threw <==> cors(headers, useCors).None? || RespondThrows(old(stream.closed), old(stream.headersSent))
    ensures threw ==> stream.calls == old(stream.calls) && stream.headersSent == old(stream.headersSent)
    ensures !threw ==> stream.headersSent
    ensures !threw && requestMethod == "OPTIONS" ==>
      stream.calls == old(stream.calls) + [Respond(cors(headers, useCors).value[":status" := Number(204)]), End(None)]
    ensures !threw && requestMethod != "OPTIONS" ==>
      stream.calls == old(stream.calls) + [Respond(cors(headers, useCors).value), Pipe(useGzip)]
  {
    headers := ResponseHeaders(mimeType, file, status, useGzip, useCache, cacheControl, lastModified, size);
    fileOpened := false;
    var withCors := cors(headers, useCors);
    if withCors.None? {
      threw := true;
      return;
    }
    var sent := withCors.value;
    if requestMethod == "OPTIONS" {
      sent := sent[":status" := Number(204)];
      threw := stream.Respond(sent);
      if !threw {
        stream.Send(End(None));
      }
    } else {
      fileOpened := true;
      threw := stream.Respond(sent);
      if !threw {
        stream.Send(Pipe(useGzip));
      }
    }
  }

  /**
   * The `error` listener (lines 89-92), for an error of the file's read stream
   * or of the gzip transform.  It is attached to the last stream of the
   * pipeline, so with gzip a read error goes unheard; and its `respond` throws
   * when the headers are already out, before `end` is reached.
   */
  method OnReadError(stream: Stream, file: string, useGzip: bool, failure: Failure) returns (outcome: ListenerOutcome)
    requires failure.GzipFailed? ==> useGzip
    modifies stream
    ensures stream.closed == old(stream.closed)
    ensures stream.headersSent == (old(stream.headersSent) || outcome == Handled)
    ensures !ListenerHears(useGzip, failure) ==> outcome == Unheard && stream.calls == old(stream.calls)
    ensures ListenerHears(useGzip, failure) && RespondThrows(old(stream.closed), old(stream.headersSent)) ==>
      outcome == ListenerThrew && stream.calls == old(stream.calls)
    ensures ListenerHears(useGzip, failure) && !RespondThrows(old(stream.closed), old(stream.headersSent)) ==>
      outcome == Handled &&
      stream.calls == old(stream.calls) + [Respond(map[":status" := Number(500)]), End(Some(ReadErrorMessage(file)))]
  {
    if !ListenerHears(useGzip, failure) {
      return Unheard;
    }
    var threw := stream.Respond(map[":status" := Number(500)]);
    if threw {
      return ListenerThrew;
    }
    stream.Send(End(Some(ReadErrorMessage(file))));
    outcome := Handled;
  }

  /**
   * The listener as evidently intended: it hears the errors of every stream of
   * the pipeline, sends the 500 status only while no headers are out, and ends
   * an open stream with the message.
   */
  method OnReadErrorIntended(stream: Stream, file: string) returns (outcome: ListenerOutcome)
    modifies stream
    ensures outcome == Handled
    ensures stream.closed == old(stream.closed)
    ensures stream.headersSent == (old(stream.headersSent) || !old(stream.closed))
    ensures old(stream.closed) ==> stream.calls == old(stream.calls)
    ensures !old(stream.closed) ==>
      stream.calls == old(stream.calls) + (if old(stream.headersSent) then [] else [Respond(map[":status" := Number(500)])])
        + [End(Some(ReadErrorMessage(file)))]
  {
    outcome := Handled;
    if stream.closed {
      return;
    }
    if !stream.headersSent {
      var threw := stream.Respond(map[":status" := Number(500)]);
    }
    stream.Send(End(Some(ReadErrorMessage(file))));
  }

  /** The read stream's `end` listener (lines 93-95). */
  method OnReadEnd(stream: Stream)
    modifies stream
    ensures stream.closed == old(stream.closed) && stream.headersSent == old(stream.headersSent)
    ensures stream.calls == old(stream.calls) + [End(None)]
  {
    stream.Send(End(None));
  }

  /**
   * A request on a fresh stream whose file read (or gzip transform) then
   * fails, as written: whenever the listeners were attached, the calls are the
   * headers and the pipe, and nothing more; the error message never reaches
   * the client.
   */
  method ServeThenFailRead(mimeType: string -> Option<string>, file: string, requestMethod: string, size: nat,
                           status: int, useGzip: bool, useCache: bool, cacheControl: Option<string>,
                           lastModified: Option<string>, useCors: bool, cors: (Headers, bool) -> Option<Headers>,
                           failure: Failure)
    returns (headers: Headers, listening: bool, outcome: ListenerOutcome, calls: seq<StreamCall>)
    requires failure.GzipFailed? ==> useGzip
    ensures listening <==> requestMethod != "OPTIONS" && cors(headers, useCors).Some?
    ensures listening ==> outcome == (if ListenerHears(useGzip, failure) then ListenerThrew else Unheard)
    ensures listening ==> calls == [Respond(cors(headers, useCors).value), Pipe(useGzip)]
    ensures End(Some(ReadErrorMessage(file))) !in calls
  {
    var stream := new Stream.Open();
    var fileOpened, threw;
    headers, fileOpened, threw := Serve(stream, mimeType, file, requestMethod, size, status, useGzip, useCache,
                                        cacheControl, lastModified, useCors, cors);
    listening := !threw && requestMethod != "OPTIONS";
    assert End(Some(ReadErrorMessage(file))) !in stream.calls;
    outcome := Unheard;
    if listening {
      outcome := OnReadError(stream, file, useGzip, failure);
    }
    calls := stream.calls;
  }

  /** The same request with the intended listener: the stream ends with the error message after the pipe. */
  method ServeThenFailReadIntended(mimeType: string -> Option<string>, file: string, requestMethod: string, size: nat,
                                   status: int, useGzip: bool, useCache: bool, cacheControl: Option<string>,
                                   lastModified: Option<string>, useCors: bool, cors: (Headers, bool) -> Option<Headers>)
    returns (headers: Headers, listening: bool, calls: seq<StreamCall>)
    ensures listening <==> requestMethod != "OPTIONS" && cors(headers, useCors).Some?
    ensures listening ==>
      calls == [Respond(cors(headers, useCors).value), Pipe(useGzip), End(Some(ReadErrorMessage(file)))]
  {
    var stream := new Stream.Open();
    var fileOpened, threw;
    headers, fileOpened, threw := Serve(stream, mimeType, file, requestMethod, size, status, useGzip, useCache,
                                        cacheControl, lastModified, useCors, cors);
    listening := !threw && requestMethod != "OPTIONS";
    if listening {
      var outcome := OnReadErrorIntended(stream, file);
    }
    calls := stream.calls;
  }
}
