/** The inbound request as the resolvers see it. Header, query, cookie and posted-form
    data are read-only maps; the payload stream and the parsed multipart form are
    state that reading the body and parsing multipart data change. */
module Http {
  import opened Wrappers
  import opened Errors
  import opened Types

  /** A parsed multipart/form-data payload. `file` is None when the form has no
      file table (a nil File map). */
  datatype MultipartForm = MultipartForm(value: map<string, seq<string>>, file: Option<map<string, seq<UploadedFile>>>)

  /** The mutable part of a request: the unread payload bytes and the cached multipart form. */
  datatype PayloadState = PayloadState(body: seq<byte>, multipartForm: Option<MultipartForm>)

  /** url.Values.Get / http.Header.Get: the first value under the key, or "". */
  function FirstValue(m: map<string, seq<string>>, key: string): (v: string)
    ensures !(key in m && |m[key]| > 0) ==> v == ""
    ensures key in m && |m[key]| > 0 ==> v == m[key][0]
  {
    if key in m && |m[key]| > 0 then m[key][0] else ""
  }

  class Request {
    const header: map<string, seq<string>>
    const query: map<string, seq<string>>
    const cookies: map<string, string>
    /** The posted form values (PostForm), from a url-encoded or multipart payload. */
    const postForm: map<string, seq<string>>
    /** What parsing the payload as multipart/form-data yields: the form, or the
        error (for instance, a Content-Type that is not multipart/form-data). */
    const multipartPayload: Result<MultipartForm, Error>
    var body: seq<byte>
    var multipartForm: Option<MultipartForm>

    constructor (header: map<string, seq<string>>, query: map<string, seq<string>>, cookies: map<string, string>,
                 postForm: map<string, seq<string>>, multipartPayload: Result<MultipartForm, Error>,
                 body: seq<byte>, multipartForm: Option<MultipartForm>)
      ensures this.header == header && this.query == query && this.cookies == cookies
      ensures this.postForm == postForm && this.multipartPayload == multipartPayload
      ensures this.body == body && this.multipartForm == multipartForm
    {
      this.header, this.query, this.cookies := header, query, cookies;
      this.postForm, this.multipartPayload := postForm, multipartPayload;
      this.body, this.multipartForm := body, multipartForm;
    }

    function Payload(): PayloadState
      reads this
    {
      PayloadState(body, multipartForm)
    }

    /** Reads the payload stream to its end. */
    method ReadBody() returns (data: seq<byte>)
      modifies this
      ensures data == old(body) && body == []
      ensures multipartForm == old(multipartForm)
    {
      data := body;
      body := [];
    }

    /** (*http.Request).ParseMultipartForm */
    method ParseMultipartForm(maxMemory: int) returns (err: Option<Error>)
      modifies this
      ensures (err, Payload()) == ParseMultipartSpec(multipartPayload, old(Payload()))
    {
      if multipartForm.Some? {
        return None;
      }
      match multipartPayload {
        case Failure(e) =>
          err := Some(e);
        case Success(f) =>
          body := [];
          multipartForm := Some(f);
          err := None;
      }
    }
  }

  /** ParseMultipartForm on a payload state: a form parsed earlier is kept and
      reported as success; otherwise the payload is read and parsed, or the parse
      error is returned with the state unchanged. */
  function ParseMultipartSpec(parsed: Result<MultipartForm, Error>, st: PayloadState): (r: (Option<Error>, PayloadState))
    ensures r.0.None? ==> r.1.multipartForm.Some?
    ensures r.0.Some? ==> r.1 == st
    ensures st.multipartForm.Some? ==> r == (None, st)
    ensures st.multipartForm.None? && parsed.Success? ==> r == (None, PayloadState([], Some(parsed.value)))
    ensures st.multipartForm.None? && parsed.Failure? ==> r == (Some(parsed.error), st)
  {
    if st.multipartForm.Some? then (None, st)
    else match parsed
      case Failure(e) => (Some(e), st)
      case Success(f) => (None, PayloadState([], Some(f)))
  }

  /** Parsing twice is the same as parsing once: the second call only sees the cached form. */
  lemma ParseMultipartIdempotent(parsed: Result<MultipartForm, Error>, st: PayloadState)
    ensures var (e1, st1) := ParseMultipartSpec(parsed, st);
            e1.None? ==> ParseMultipartSpec(parsed, st1) == (None, st1)
  {
  }

  /** The per-request context: the request (null for a nil *http.Request) and the
      router-supplied path parameters. A nil *Context is Option.None. */
  datatype Context = Context(request: Request?, params: map<string, string>)

  predicate HasRequest(ctx: Option<Context>) {
    ctx.Some? && ctx.value.request != null
  }
}
