/**
 * The part of Node's HTTP/2 server stream the file-serving functions use: a
 * `closed` flag the peer controls, a `headersSent` flag, and the calls
 * `respond(headers)`, `end([body])` and `source.pipe(stream)`, recorded in the
 * order they are made.  `respond` throws on a closed stream
 * (ERR_HTTP2_INVALID_STREAM) and on one whose headers were already sent
 * (ERR_HTTP2_HEADERS_SENT); a call that throws is not recorded.
 */
module Http2 {
  import opened JsStrings

  /** A header value as JavaScript holds it: a string, a number, or `undefined`. */
  datatype HeaderValue = Text(text: string) | Number(number: int) | Undefined

  /** The `responseHeaders` object: property name to value. */
  type Headers = map<string, HeaderValue>

  datatype StreamCall =
    | Respond(headers: Headers)
    /** `stream.end()` (`None`) or `stream.end(body)` */
    | End(body: Option<string>)
    /** The body source is piped into the stream, through a gzip transform when `gzipped`. */
    | Pipe(gzipped: bool)

  /** An optional string argument as a header value: `undefined` when it is absent. */
  function TextOrUndefined(s: Option<string>): HeaderValue {
    match s
    case None => Undefined
    case Some(t) => Text(t)
  }

  /** JavaScript truthiness of an optional string: present and non-empty. */
  predicate TruthyText(s: Option<string>) {
    s.Some? && s.value != ""
  }

  /** Whether `stream.respond` throws in this state. */
  predicate RespondThrows(closed: bool, headersSent: bool) {
    closed || headersSent
  }

  /** Which stream of a pipeline emitted an `error` event: the body's source or the gzip transform. */
  datatype Failure = SourceFailed | GzipFailed

  /**
   * The `error` listener sits on the last stream of the pipeline: the gzip
   * transform when gzipping, the source otherwise.  `pipe` does not forward
   * the source's errors to the transform, so with gzip a failing source has
   * no listener.
   */
  predicate ListenerHears(useGzip: bool, failure: Failure) {
    if useGzip then failure.GzipFailed? else failure.SourceFailed?
  }

  /**
   * What became of an `error` event: no listener heard it (Node raises it as
   * an uncaught exception), the listener threw, or the listener ran to its end.
   */
  datatype ListenerOutcome = Unheard | ListenerThrew | Handled

  class Stream {
    /** `stream.closed`: set by the peer or the runtime, never by the functions modelled here. */
    var closed: bool
    /** `stream.headersSent`: set by the first `respond` that succeeds. */
    var headersSent: bool
    /** Every call made on the stream so far. */
    var calls: seq<StreamCall>

    constructor Open()
      ensures !closed && !headersSent && calls == []
    {
      closed := false;
      headersSent := false;
      calls := [];
    }

    /** The peer goes away. */
    method Close()
      modifies this
      ensures closed && headersSent == old(headersSent) && calls == old(calls)
    {
      closed := true;
    }

    /** `stream.respond(headers)`; `threw` when it throws. */
    method Respond(headers: Headers) returns (threw: bool)
      modifies this
      ensures threw <==> RespondThrows(old(closed), old(headersSent))
      ensures closed == old(closed)
      ensures headersSent == (old(headersSent) || !threw)
      ensures calls == old(calls) + (if threw then [] else [StreamCall.Respond(headers)])
    {
      threw := RespondThrows(closed, headersSent);
      if !threw {
        headersSent := true;
        calls := calls + [StreamCall.Respond(headers)];
      }
    }

    /** `stream.end(…)` or a `pipe` into the stream. */
    method Send(call: StreamCall)
      requires !call.Respond?
      modifies this
      ensures calls == old(calls) + [call]
      ensures closed == old(closed) && headersSent == old(headersSent)
    {
      calls := calls + [call];
    }
  }
}
