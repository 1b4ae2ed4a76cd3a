/** The seven field resolvers. Each reads one named source of the request and
    produces a value for one field of the handler's input struct. Header, query,
    path-variable, cookie and form resolvers only look values up; the body resolver
    consumes the payload stream and the file resolver triggers multipart parsing. */
module Resolvers {
  import opened Wrappers
  import opened Errors
  import opened Types
  import opened Foreign
  import opened Http
  import opened ValueConverter

  /** 32 << 20 bytes: the default in-memory limit for multipart parsing. */
  const DefaultMaxMemory: int := 32 * 1024 * 1024

  datatype FieldResolver =
    | BodyResolver(fieldIdx: int, fieldType: FieldType)
    | HeaderResolver(fieldIdx: int, headerName: string, fieldType: FieldType)
    | QueryResolver(fieldIdx: int, queryName: string, fieldType: FieldType)
    | PathVarResolver(fieldIdx: int, paramName: string, fieldType: FieldType)
    | CookieResolver(fieldIdx: int, cookieName: string, fieldType: FieldType)
    | FormResolver(fieldIdx: int, formName: string, fieldType: FieldType)
    | FileResolver(fieldIdx: int, fileName: string, maxMemory: int)
  {
    /** The position of the target field in the input struct. */
    function FieldIndex(): int { fieldIdx }

    /** The type of the values this resolver produces. */
    function ResultType(): FieldType {
      if FileResolver? then MultipartFileHeaderType else fieldType
    }
  }

  /** NewFileResolver: a non-positive memory limit is replaced by the default. */
  function NewFileResolver(fieldIdx: int, fileName: string, maxMemory: int): (r: FieldResolver)
    ensures r.FileResolver? && r.FieldIndex() == fieldIdx && r.fileName == fileName
    ensures r.maxMemory > 0
    ensures maxMemory > 0 ==> r.maxMemory == maxMemory
    ensures maxMemory <= 0 ==> r.maxMemory == DefaultMaxMemory
  {
    FileResolver(fieldIdx, fileName, if maxMemory <= 0 then DefaultMaxMemory else maxMemory)
  }

  const NilContextError: Error := Plain("request context is nil")

  /** Converts a looked-up raw value, wrapping a conversion error under `prefix`. */
  function ConvertOrWrap(raw: string, fieldType: FieldType, prefix: string, lib: Lib): (r: Result<Value, Error>)
    ensures r.Success? <==> ConvertStringToType(raw, Some(fieldType), lib).Success?
    ensures r.Success? ==> r.value == ConvertStringToType(raw, Some(fieldType), lib).value
    ensures r.Failure? ==> r.error == Wrapped(prefix, ConvertStringToType(raw, Some(fieldType), lib).error)
  {
    match ConvertStringToType(raw, Some(fieldType), lib)
    case Success(v) => Success(v)
    case Failure(e) => Failure(Wrapped(prefix, e))
  }

  /** HeaderResolver.Resolve: an absent header reads as "", hence the zero value. */
  function ResolveHeader(headerName: string, fieldType: FieldType, ctx: Option<Context>, lib: Lib): (r: Result<Value, Error>)
    ensures !HasRequest(ctx) ==> r == Failure(NilContextError)
    ensures HasRequest(ctx) && headerName !in ctx.value.request.header ==> r == Success(Zero(fieldType))
    ensures HasRequest(ctx) ==> r == ConvertOrWrap(FirstValue(ctx.value.request.header, headerName), fieldType, "resolve header " + Quote(headerName), lib)
    ensures r.Success? ==> TypeOf(r.value) == fieldType
  {
    if !HasRequest(ctx) then Failure(NilContextError)
    else ConvertOrWrap(FirstValue(ctx.value.request.header, headerName), fieldType, "resolve header " + Quote(headerName), lib)
  }

  /** QueryResolver.Resolve: an absent query key reads as "", hence the zero value. */
  function ResolveQuery(queryName: string, fieldType: FieldType, ctx: Option<Context>, lib: Lib): (r: Result<Value, Error>)
    ensures !HasRequest(ctx) ==> r == Failure(NilContextError)
    ensures HasRequest(ctx) && queryName !in ctx.value.request.query ==> r == Success(Zero(fieldType))
    ensures HasRequest(ctx) ==> r == ConvertOrWrap(FirstValue(ctx.value.request.query, queryName), fieldType, "resolve query " + Quote(queryName), lib)
    ensures r.Success? ==> TypeOf(r.value) == fieldType
  {
    if !HasRequest(ctx) then Failure(NilContextError)
    else ConvertOrWrap(FirstValue(ctx.value.request.query, queryName), fieldType, "resolve query " + Quote(queryName), lib)
  }

  /** PathVarResolver.Resolve: a name missing from the parameter map is an error,
      while a present (even empty) value is converted. */
  function ResolvePathVar(paramName: string, fieldType: FieldType, ctx: Option<Context>, lib: Lib): (r: Result<Value, Error>)
    ensures !HasRequest(ctx) ==> r == Failure(NilContextError)
    ensures HasRequest(ctx) && paramName !in ctx.value.params ==> r == Failure(Plain("path variable " + Quote(paramName) + " not found"))
    ensures HasRequest(ctx) && paramName in ctx.value.params ==>
      r == ConvertOrWrap(ctx.value.params[paramName], fieldType, "resolve path variable " + Quote(paramName), lib)
    ensures HasRequest(ctx) && paramName in ctx.value.params && ctx.value.params[paramName] == "" ==> r == Success(Zero(fieldType))
    ensures r.Success? ==> TypeOf(r.value) == fieldType
  {
    if !HasRequest(ctx) then Failure(NilContextError)
    else if paramName !in ctx.value.params then Failure(Plain("path variable " + Quote(paramName) + " not found"))
    else ConvertOrWrap(ctx.value.params[paramName], fieldType, "resolve path variable " + Quote(paramName), lib)
  }

  /** http.ErrNoCookie */
  const ErrNoCookie: Error := Plain("http: named cookie not present")

  /** CookieResolver.Resolve: a missing cookie is an error, never a zero value. */
  function ResolveCookie(cookieName: string, fieldType: FieldType, ctx: Option<Context>, lib: Lib): (r: Result<Value, Error>)
    ensures !HasRequest(ctx) ==> r == Failure(NilContextError)
    ensures HasRequest(ctx) && cookieName !in ctx.value.request.cookies ==>
      r == Failure(Wrapped("resolve cookie " + Quote(cookieName), ErrNoCookie))
    ensures HasRequest(ctx) && cookieName in ctx.value.request.cookies ==>
      r == ConvertOrWrap(ctx.value.request.cookies[cookieName], fieldType, "resolve cookie " + Quote(cookieName), lib)
    ensures r.Success? ==> TypeOf(r.value) == fieldType
  {
    if !HasRequest(ctx) then Failure(NilContextError)
    else if cookieName !in ctx.value.request.cookies then Failure(Wrapped("resolve cookie " + Quote(cookieName), ErrNoCookie))
    else ConvertOrWrap(ctx.value.request.cookies[cookieName], fieldType, "resolve cookie " + Quote(cookieName), lib)
  }

  /** FormResolver.Resolve: reads the posted form only; an absent field is the zero value. */
  function ResolveForm(formName: string, fieldType: FieldType, ctx: Option<Context>, lib: Lib): (r: Result<Value, Error>)
    ensures !HasRequest(ctx) ==> r == Failure(NilContextError)
    ensures HasRequest(ctx) && formName !in ctx.value.request.postForm ==> r == Success(Zero(fieldType))
    ensures HasRequest(ctx) ==> r == ConvertOrWrap(FirstValue(ctx.value.request.postForm, formName), fieldType, "resolve form " + Quote(formName), lib)
    ensures r.Success? ==> TypeOf(r.value) == fieldType
  {
    if !HasRequest(ctx) then Failure(NilContextError)
    else ConvertOrWrap(FirstValue(ctx.value.request.postForm, formName), fieldType, "resolve form " + Quote(formName), lib)
  }

  /** The URL query plays no part in form resolution: two requests with the same
      posted form resolve a form field alike, whatever their query strings. */
  lemma FormIgnoresQuery(formName: string, fieldType: FieldType, r1: Request, r2: Request, params: map<string, string>, lib: Lib)
    requires r1.postForm == r2.postForm
    ensures ResolveForm(formName, fieldType, Some(Context(r1, params)), lib) == ResolveForm(formName, fieldType, Some(Context(r2, params)), lib)
  {
  }

  // --- the body resolver ---

  /** json.NewDecoder(stream).Decode into a fresh value of type t: an exhausted
      stream reports io.EOF, otherwise the decoder is applied to what is left. */
  function DecodeStream(data: seq<byte>, t: FieldType, lib: Lib): Result<Value, Error> {
    if data == [] then Failure(Plain("EOF")) else lib.decodeJson(data, t)
  }

  /** BodyResolver.Resolve on a request whose payload state is `st`: one decode of
      the whole remaining stream, into a fresh pointee for a pointer field and into
      a value of the field's type otherwise. The stream is left exhausted. */
  function BodySpec(fieldType: FieldType, st: PayloadState, lib: Lib): (r: (Result<Value, Error>, PayloadState))
    ensures r.1 == st.(body := [])
    ensures r.0.Failure? ==> r.0.error.Wrapped? && r.0.error.prefix == "decode body"
    ensures fieldType.Ptr? && r.0.Success? ==> r.0.value.PtrVal? && r.0.value.elem == fieldType.elem && r.0.value.target.Some?
  {
    var rest := st.(body := []);
    if fieldType.Ptr? then
      match DecodeStream(st.body, fieldType.elem, lib)
      case Failure(e) => (Failure(Wrapped("decode body", e)), rest)
      case Success(v) => (Success(PtrVal(fieldType.elem, Some(v))), rest)
    else
      match DecodeStream(st.body, fieldType, lib)
      case Failure(e) => (Failure(Wrapped("decode body", e)), rest)
      case Success(v) => (Success(v), rest)
  }

  /** The outcomes of body resolution: it succeeds exactly when the decode does;
      a failed decode is wrapped under "decode body"; a pointer field gets a
      pointer to the decoded element, any other field the decoded value itself. */
  lemma BodyOutcomes(fieldType: FieldType, st: PayloadState, lib: Lib)
    ensures var d := DecodeStream(st.body, if fieldType.Ptr? then fieldType.elem else fieldType, lib);
            var r := BodySpec(fieldType, st, lib).0;
            (r.Success? <==> d.Success?)
            && (d.Failure? ==> r.error == Wrapped("decode body", d.error))
            && (d.Success? ==> r.value == if fieldType.Ptr? then PtrVal(fieldType.elem, Some(d.value)) else d.value)
  {
  }

  /** The payload is one-shot: once a body resolution has run, another one fails
      with "decode body: EOF", whatever the first one returned. */
  lemma BodyIsOneShot(fieldType: FieldType, fieldType2: FieldType, st: PayloadState, lib: Lib)
    ensures var (_, st1) := BodySpec(fieldType, st, lib);
            BodySpec(fieldType2, st1, lib).0 == Failure(Wrapped("decode body", Plain("EOF")))
  {
  }

  /** With a well-typed decoder, a decoded body always has the field's type. */
  lemma BodyHasFieldType(fieldType: FieldType, st: PayloadState, lib: Lib)
    requires DecoderWellTyped(lib)
    ensures BodySpec(fieldType, st, lib).0.Success? ==> TypeOf(BodySpec(fieldType, st, lib).0.value) == fieldType
  {
    if !fieldType.Ptr? && st.body != [] {
      var d := lib.decodeJson(st.body, fieldType);
      assert d.Success? ==> TypeOf(d.value) == fieldType;
    }
  }

  /** BodyResolver.Resolve */
  method ResolveBody(fieldType: FieldType, ctx: Option<Context>, lib: Lib) returns (r: Result<Value, Error>)
    modifies if HasRequest(ctx) then {ctx.value.request} else {}
    ensures !HasRequest(ctx) ==> r == Failure(NilContextError)
    ensures HasRequest(ctx) ==> (r, ctx.value.request.Payload()) == BodySpec(fieldType, old(ctx.value.request.Payload()), lib)
  {
    if !HasRequest(ctx) {
      return Failure(NilContextError);
    }
    var req := ctx.value.request;
    var data := req.ReadBody();
    if fieldType.Ptr? {
      var decoded := DecodeStream(data, fieldType.elem, lib);
      if decoded.Failure? {
        return Failure(Wrapped("decode body", decoded.error));
      }
      return Success(PtrVal(fieldType.elem, Some(decoded.value)));
    }
    var decoded := DecodeStream(data, fieldType, lib);
    if decoded.Failure? {
      return Failure(Wrapped("decode body", decoded.error));
    }
    r := Success(decoded.value);
  }

  // --- the file resolver ---

  /** FileResolver.Resolve on payload state `st`: parse the multipart form (or reuse
      the parsed one), then return the first file header uploaded under the name. */
  function FileSpec(fileName: string, parsed: Result<MultipartForm, Error>, st: PayloadState): (r: (Result<Value, Error>, PayloadState))
    ensures r.1 == ParseMultipartSpec(parsed, st).1
    ensures r.0.Success? ==> TypeOf(r.0.value) == MultipartFileHeaderType
  {
    var prefix := "resolve file " + Quote(fileName);
    var (perr, st1) := ParseMultipartSpec(parsed, st);
    if perr.Some? then (Failure(Wrapped(prefix, perr.value)), st1)
    else if st1.multipartForm.None? || st1.multipartForm.value.file.None? then
      (Failure(Plain(prefix + ": no multipart form data")), st1)
    else
      var files := st1.multipartForm.value.file.value;
      if fileName !in files || |files[fileName]| == 0 then (Failure(Plain(prefix + ": file not found")), st1)
      else (Success(PtrVal(FileHeader, Some(FileVal(files[fileName][0])))), st1)
  }

  /** The outcomes of file resolution, case by case: a payload that does not parse
      as multipart is an error; no file table, or no file under the name, is an
      error; otherwise the result points to the first file registered under the name. */
  lemma FileOutcomes(fileName: string, parsed: Result<MultipartForm, Error>, st: PayloadState)
    ensures st.multipartForm.None? && parsed.Failure? ==>
      FileSpec(fileName, parsed, st).0 == Failure(Wrapped("resolve file " + Quote(fileName), parsed.error))
    ensures var form := if st.multipartForm.Some? then st.multipartForm else (if parsed.Success? then Some(parsed.value) else None);
            form.Some? && form.value.file.None? ==>
              FileSpec(fileName, parsed, st).0 == Failure(Plain("resolve file " + Quote(fileName) + ": no multipart form data"))
    ensures var form := if st.multipartForm.Some? then st.multipartForm else (if parsed.Success? then Some(parsed.value) else None);
            form.Some? && form.value.file.Some? && (fileName !in form.value.file.value || |form.value.file.value[fileName]| == 0) ==>
              FileSpec(fileName, parsed, st).0 == Failure(Plain("resolve file " + Quote(fileName) + ": file not found"))
    ensures var form := if st.multipartForm.Some? then st.multipartForm else (if parsed.Success? then Some(parsed.value) else None);
            form.Some? ==>
              (FileSpec(fileName, parsed, st).0.Success? <==>
                 form.value.file.Some? && fileName in form.value.file.value && |form.value.file.value[fileName]| > 0)
    ensures var form := if st.multipartForm.Some? then st.multipartForm else (if parsed.Success? then Some(parsed.value) else None);
            form.Some? && FileSpec(fileName, parsed, st).0.Success? ==>
              FileSpec(fileName, parsed, st).0.value == PtrVal(FileHeader, Some(FileVal(form.value.file.value[fileName][0])))
  {
  }

  /** FileResolver.Resolve */
  method ResolveFile(fileName: string, maxMemory: int, ctx: Option<Context>) returns (r: Result<Value, Error>)
    modifies if HasRequest(ctx) then {ctx.value.request} else {}
    ensures !HasRequest(ctx) ==> r == Failure(NilContextError)
    ensures HasRequest(ctx) ==>
      (r, ctx.value.request.Payload()) == FileSpec(fileName, ctx.value.request.multipartPayload, old(ctx.value.request.Payload()))
  {
    if !HasRequest(ctx) {
      return Failure(NilContextError);
    }
    var req := ctx.value.request;
    var prefix := "resolve file " + Quote(fileName);
    var perr := req.ParseMultipartForm(maxMemory);
    if perr.Some? {
      return Failure(Wrapped(prefix, perr.value));
    }
    if req.multipartForm.None? || req.multipartForm.value.file.None? {
      return Failure(Plain(prefix + ": no multipart form data"));
    }
    var files := req.multipartForm.value.file.value;
    if fileName !in files || |files[fileName]| == 0 {
      return Failure(Plain(prefix + ": file not found"));
    }
    r := Success(PtrVal(FileHeader, Some(FileVal(files[fileName][0]))));
  }

  // --- dispatch over the seven kinds ---

  /** FieldResolver.Resolve for any kind, on payload state `st`. */
  function ResolveSpec(res: FieldResolver, ctx: Option<Context>, st: PayloadState, lib: Lib): (r: (Result<Value, Error>, PayloadState))
    ensures !HasRequest(ctx) ==> r == (Failure(NilContextError), st)
    ensures !res.BodyResolver? && !res.FileResolver? ==> r.1 == st
  {
    match res
    case BodyResolver(_, t) => if !HasRequest(ctx) then (Failure(NilContextError), st) else BodySpec(t, st, lib)
    case HeaderResolver(_, name, t) => (ResolveHeader(name, t, ctx, lib), st)
    case QueryResolver(_, name, t) => (ResolveQuery(name, t, ctx, lib), st)
    case PathVarResolver(_, name, t) => (ResolvePathVar(name, t, ctx, lib), st)
    case CookieResolver(_, name, t) => (ResolveCookie(name, t, ctx, lib), st)
    case FormResolver(_, name, t) => (ResolveForm(name, t, ctx, lib), st)
    case FileResolver(_, name, _) =>
      if !HasRequest(ctx) then (Failure(NilContextError), st) else FileSpec(name, ctx.value.request.multipartPayload, st)
  }

  /** Every resolver's successful value has the type it promises, given a
      well-typed JSON decoder. */
  lemma ResolvedValueHasResultType(res: FieldResolver, ctx: Option<Context>, st: PayloadState, lib: Lib)
    requires DecoderWellTyped(lib)
    ensures ResolveSpec(res, ctx, st, lib).0.Success? ==> TypeOf(ResolveSpec(res, ctx, st, lib).0.value) == res.ResultType()
  {
    if res.BodyResolver? && HasRequest(ctx) {
      BodyHasFieldType(res.fieldType, st, lib);
    }
  }

  /** The payload state of a request; a nil request has none to change. */
  function PayloadOf(r: Request?): PayloadState
    reads r
  {
    if r == null then PayloadState([], None) else r.Payload()
  }

  /** Resolves one field, changing the request's payload state as ResolveSpec says. */
  method Resolve(res: FieldResolver, ctx: Option<Context>, lib: Lib) returns (r: Result<Value, Error>)
    modifies if HasRequest(ctx) then {ctx.value.request} else {}
    ensures HasRequest(ctx) ==> (r, ctx.value.request.Payload()) == ResolveSpec(res, ctx, old(ctx.value.request.Payload()), lib)
    ensures !HasRequest(ctx) ==> r == Failure(NilContextError)
  {
    match res {
      case BodyResolver(_, t) => r := ResolveBody(t, ctx, lib);
      case HeaderResolver(_, name, t) => r := ResolveHeader(name, t, ctx, lib);
      case QueryResolver(_, name, t) => r := ResolveQuery(name, t, ctx, lib);
      case PathVarResolver(_, name, t) => r := ResolvePathVar(name, t, ctx, lib);
      case CookieResolver(_, name, t) => r := ResolveCookie(name, t, ctx, lib);
      case FormResolver(_, name, t) => r := ResolveForm(name, t, ctx, lib);
      case FileResolver(_, name, mm) => r := ResolveFile(name, mm, ctx);
    }
  }
}
