# go-fast request binding, modelled in Dafny

go-fast turns a plain Go function `func(In) (Out, error)` into an `http.HandlerFunc`.
At start-up, `Adapt` does three things:

- it inspects the function (`Analyze`);
- it reads the struct tags of the input struct's fields;
- it compiles one field resolver per tagged field (`buildResolvers`).

A tag is the first comma-separated segment of the `json` tag, trimmed. It is one of:

- `body`;
- `header:<name>`, `query:<name>`, `path:<name>` or `cookie:<name>`;
- `form:<name>` or `file:<name>`.

On every request the adapter works as follows:

- It builds a zero input struct.
- If there is a body field, it resolves that field first, because the request body can only be read once.
- It runs the other resolvers in field order.
- It stores each value with `setResolvedField`. That function assigns the value or converts it, and it fails on unexported fields.
- It calls the handler and turns the results into a response:
  - a 204 when there is nothing to return;
  - 200 JSON for the first result;
  - the status of an `*HTTPError` found anywhere in the error chain;
  - otherwise a 500.

The model has one Dafny module per Go file or concern. All files are verified together.

- `Types`: the parts of reflection that matter here. It covers field types, struct fields with their tags, values, zero values and type names.
- `Errors`: Go errors as values. It covers `fmt.Errorf` wrapping with `%w`, `*strconv.NumError`, `*HTTPError`, `Error()` texts and `errors.As`.
- `Strconv`: `ParseBool`, `ParseInt` and `ParseUint` in base 10, with Go's syntax and range errors.
- `ValueConverter`: `convertStringToType`.
- `Http`: the request.
  - Header, query, cookie and posted-form values are fixed maps.
  - The payload stream and the parsed multipart form are state. Reading the body or parsing the form changes that state.
  - The request is a `class`. The body and file resolvers are methods over it, proved against functions on that payload state.
- `Resolvers`: the seven resolvers (body, header, query, path, cookie, form and file) and `NewFileResolver`.
- `ResolverCompiler`: `normalizedJSONTag`, `buildResolvers` (a loop method) and `resolverByFieldIndex`.
  - `buildResolvers` is proved against an order-independent plan: what is compiled, which field is the body, and which error the first faulty field raises.
- `FieldSetter`: `setResolvedField` on an array of field values. It includes the integer conversions that `reflect` allows, with their wrap-around.
- `Analyzer`: `Analyze`.
- `Adapter`:
  - `Adapt` with its options;
  - the request closure as `Serve`, split into its body step, its resolver loop and the response;
  - lemmas about what a request can observe.
- `PathSplit`: `splitPath` and `split` from the get-user example, on byte strings, proved against a reference definition of fields and segments.

Calls into code outside the core are a `Lib` value passed as a parameter. These are `strconv.ParseFloat`, JSON decoding of the body and JSON encoding of the result.

Where the source is inconsistent, the model follows the call sites:

- `Adapt` calls `buildResolvers(inputType, cfg.maxMemory)`, but `buildResolvers` takes only the type and calls `NewFileResolver(i, name)` with two arguments, while `NewFileResolver` takes three. The model's compiler takes `maxMemory` and hands it to `NewFileResolver`, which replaces a non-positive value with 32 MB.
- The resolver doc comments speak of `gofast:"..."` tags. The compiler reads the `json` tag key, and so does the model.

The closure always builds its `Context` with an empty `Params` map. As a result, every handler with a `path:` field answers 400 and never runs (`Adapter.PathFieldAlwaysRejected`). The get-user example admits as much in its comments, so this is modelled as the behaviour, not as a defect.

## Model

| member | source | states |
|---|---|---|
| `Errors.AsHTTPErrorSeesThroughWrapping` | pkg/handler/adapter.go:101-104 | errors.As finds an `*HTTPError` under any number of `%w` wrappings |
| `Errors.AsHTTPErrorNoneWithoutHttp` | pkg/handler/adapter.go:105-106 | a wrapped chain that holds no `*HTTPError` is not taken for one, so it falls to the 500 branch |
| `Errors.WrappedTextKeepsCause` | pkg/handler/resolvers/header.go:30-33 | the text of a wrapped error ends with the text of its cause |
| `Errors.NewHTTPError` | pkg/handler/errors.go:17-19 | the error carries the given code, and its `Error()` is the message |
| `Errors.BadRequest` | pkg/handler/errors.go:22 | code 400 with the message |
| `Errors.Unauthorized` | pkg/handler/errors.go:25 | code 401 with the message |
| `Errors.Forbidden` | pkg/handler/errors.go:28 | code 403 with the message |
| `Errors.NotFound` | pkg/handler/errors.go:31 | code 404 with the message |
| `Errors.Conflict` | pkg/handler/errors.go:34 | code 409 with the message |
| `Errors.UnprocessableEntity` | pkg/handler/errors.go:37 | code 422 with the message |
| `Errors.InternalServerError` | pkg/handler/errors.go:40 | code 500 with the message |
| `Errors.Errorf` | pkg/handler/errors.go:43-45 | the given code, with the formatted text as message |
| `Strconv.ParseBool` | pkg/handler/resolvers/value_converter.go:22-25 | succeeds exactly on Go's true/false literals, true exactly on the true ones; otherwise a ParseBool syntax error naming the input |
| `Strconv.ParseUintSpec` | pkg/handler/resolvers/value_converter.go:37-44 | success iff the input is a non-empty run of digits whose value fits the bit width; the value is the decimal value; an all-digit input that does not fit is a range error |
| `Strconv.ParseIntSpec` | pkg/handler/resolvers/value_converter.go:29-36 | success iff an optionally signed decimal lies in [-2^(bits-1), 2^(bits-1)-1]; the value is the signed decimal value |
| `Strconv.ScanDecimalCorrect` | pkg/handler/resolvers/value_converter.go:38 | the left-to-right scan with overflow check accepts exactly the digit strings within the maximum and computes their value |
| `Strconv.RangeReportedBeforeLaterSyntax` | pkg/handler/resolvers/value_converter.go:38 | "300x" as uint8 is a range error, since the overflow is found before the bad digit |
| `Strconv.ParseUint` | pkg/handler/resolvers/value_converter.go:38-41 | every failure is a ParseUint NumError naming the input |
| `Strconv.ParseInt` | pkg/handler/resolvers/value_converter.go:30-33 | every failure is a ParseInt NumError naming the input |
| `ValueConverter.ConvertStringToType` | pkg/handler/resolvers/value_converter.go:9-64 | nil type gives "field type is nil"; "" gives the zero value; a string type keeps the text; unsupported kinds fail; every success has the requested type |
| `ValueConverter.ParseScalar` | pkg/handler/resolvers/value_converter.go:18-63 | a string kind keeps the text, a kind the switch has no case for fails, and every success has the requested kind and width |
| `ValueConverter.ConvertBool` | pkg/handler/resolvers/value_converter.go:21-28 | a bool field converts iff ParseBool accepts the text, to the parsed value |
| `ValueConverter.ConvertInt` | pkg/handler/resolvers/value_converter.go:29-36 | an int field converts iff the text is a signed decimal in the width's range, to that value |
| `ValueConverter.ConvertUint` | pkg/handler/resolvers/value_converter.go:37-44 | a uint field converts iff the text is a decimal within the width, to that value |
| `ValueConverter.ConvertPtr` | pkg/handler/resolvers/value_converter.go:53-60 | a pointer field converts iff its element type does, to a pointer to that value, and passes the element's error through unchanged |
| `ValueConverter.ConvertThroughPointers` | pkg/handler/resolvers/value_converter.go:14-60 | through k levels of pointers, "" is a nil pointer and any other text is k pointers around the element's conversion |
| `Http.FirstValue` | pkg/handler/resolvers/header.go:29 | Header.Get / Values.Get: the first value under the key, and "" when the key is absent or has no values |
| `Http.ParseMultipartSpec` | pkg/handler/resolvers/file.go:46 | a form parsed earlier is kept and reported as success; otherwise a successful parse consumes the payload and caches exactly the parsed form, and a failed one returns the parse error with the state unchanged |
| `Http.ParseMultipartIdempotent` | pkg/handler/resolvers/file.go:46-50 | parsing a second time after success changes nothing |
| `Http.Request.ReadBody` | pkg/handler/resolvers/body.go:38 | reading the body returns what was left and empties the stream |
| `Http.Request.ParseMultipartForm` | pkg/handler/resolvers/file.go:46 | the request's state after parsing is the one the parse specification gives |
| `Resolvers.NewFileResolver` | pkg/handler/resolvers/file.go:32-37 | a non-positive memory limit becomes 32 MB, a positive one is kept |
| `Resolvers.ConvertOrWrap` | pkg/handler/resolvers/header.go:30-33 | succeeds iff the conversion does, with its value; a failure wraps the conversion's error under the resolver's prefix |
| `Resolvers.ResolveHeader` | pkg/handler/resolvers/header.go:24-36 | nil context fails; a missing header is the zero value; otherwise the first header value converted, errors wrapped as `resolve header "<name>"` |
| `Resolvers.ResolveQuery` | pkg/handler/resolvers/query.go:24-36 | the same for the URL query, wrapped as `resolve query "<name>"` |
| `Resolvers.ResolvePathVar` | pkg/handler/resolvers/path_var.go:24-40 | a parameter missing from the context is `path variable "<name>" not found`; an empty one is the zero value; otherwise converted |
| `Resolvers.ResolveCookie` | pkg/handler/resolvers/cookie.go:24-40 | a missing cookie is `resolve cookie "<name>": http: named cookie not present`; otherwise its value converted |
| `Resolvers.ResolveForm` | pkg/handler/resolvers/form.go:28-40 | reads only the posted form; a missing key is the zero value |
| `Resolvers.FormIgnoresQuery` | pkg/handler/resolvers/form.go:33 | two requests with the same posted form resolve a form field alike |
| `Resolvers.BodySpec` | pkg/handler/resolvers/body.go:24-43 | the stream is consumed; failures are wrapped as "decode body"; a pointer field gets a non-nil pointer to the decoded element |
| `Resolvers.BodyOutcomes` | pkg/handler/resolvers/body.go:29-42 | body resolution succeeds iff the decode does; a failed decode is wrapped as "decode body"; a pointer field gets a pointer to the decoded element, any other field the decoded value |
| `Resolvers.BodyIsOneShot` | pkg/handler/resolvers/body.go:31-40 | a second body resolution after the first sees an exhausted stream and fails with EOF |
| `Resolvers.BodyHasFieldType` | pkg/handler/resolvers/body.go:29-42 | with a well-typed decoder, the resolved value has the field's type |
| `Resolvers.ResolveBody` | pkg/handler/resolvers/body.go:24-43 | on the request object: the result and new payload state are the body specification's |
| `Resolvers.FileSpec` | pkg/handler/resolvers/file.go:41-60 | the payload state is the multipart parse's; a success is a `*multipart.FileHeader` |
| `Resolvers.FileOutcomes` | pkg/handler/resolvers/file.go:46-59 | a parse error is wrapped as `resolve file "<name>"`; no file table fails with "no multipart form data" and no file under the name with "file not found", both under that prefix; otherwise the first file |
| `Resolvers.ResolveFile` | pkg/handler/resolvers/file.go:41-60 | on the request object: result and new state are the file specification's |
| `Resolvers.ResolveSpec` | pkg/handler/resolvers/resolver.go:16-19 | any resolver fails on a nil context without touching the state; only the body and file resolvers change it |
| `Resolvers.ResolvedValueHasResultType` | pkg/handler/resolvers/resolver.go:12 | every resolved value has the type its resolver promises |
| `Resolvers.Resolve` | pkg/handler/resolvers/resolver.go:10-13 | dispatch on the request object agrees with the resolution specification |
| `ResolverCompiler.TrimLeftSpec` | pkg/handler/resolver_compiler.go:98 | TrimLeft removes exactly a prefix of Unicode white space and stops at a non-space |
| `ResolverCompiler.TrimRightSpec` | pkg/handler/resolver_compiler.go:98 | TrimRight removes exactly a suffix of white space and stops at a non-space |
| `ResolverCompiler.TrimSpaceSpec` | pkg/handler/resolver_compiler.go:98-104 | TrimSpace yields an infix with no white space at either end |
| `ResolverCompiler.FirstSegmentSpec` | pkg/handler/resolver_compiler.go:103-104 | the first segment of Split is a prefix free of the separator, followed by the separator or the end |
| `ResolverCompiler.FirstSegmentOfSplit` | pkg/handler/resolver_compiler.go:103-104 | a separator-free stretch before the first separator is the first segment |
| `ResolverCompiler.NormalizedJSONTagShape` | pkg/handler/resolver_compiler.go:97-105 | the normalised tag holds no comma and is trimmed |
| `ResolverCompiler.NormalizedJSONTagIdempotent` | pkg/handler/resolver_compiler.go:97-105 | normalising twice equals normalising once |
| `ResolverCompiler.NormalizedJSONTagDropsOptions` | pkg/handler/resolver_compiler.go:103-104 | "body,omitempty" normalises to "body" |
| `ResolverCompiler.NormalizedJSONTagTrimsName` | pkg/handler/resolver_compiler.go:98-104 | " query:q , omitempty" normalises to "query:q" |
| `ResolverCompiler.Classify` | pkg/handler/resolver_compiler.go:24-86 | untagged iff the tag is "" or "-"; body iff "body"; a named binding is exactly `<kind>:<name>`; unrecognised (no resolver, no error) iff the tag is none of these and starts with no known `<kind>:` |
| `ResolverCompiler.ClassifyNamed` | pkg/handler/resolver_compiler.go:40-85 | a `<kind>:<name>` tag binds that kind and that name |
| `ResolverCompiler.ResolverOf` | pkg/handler/resolver_compiler.go:32-86 | a resolver exists iff the tag is body or a known prefix; it carries the field index; it is the body resolver iff the tag is body, a form/file resolver iff the tag is form or file |
| `ResolverCompiler.BodyIndex` | pkg/handler/resolver_compiler.go:33-37 | -1 iff no field is tagged body, else the first body field |
| `ResolverCompiler.PlannedSound` | pkg/handler/resolver_compiler.go:21-86 | every planned resolver is the one its field's tag asks for, and the plan is in strictly increasing field order |
| `ResolverCompiler.PlannedComplete` | pkg/handler/resolver_compiler.go:21-86 | every field whose tag asks for a resolver has one in the plan |
| `ResolverCompiler.PlannedShape` | pkg/handler/resolver_compiler.go:21-86 | the plan has one resolver per resolvable field, in strictly increasing field order, each the field's own resolver |
| `ResolverCompiler.StepOf` | pkg/handler/resolver_compiler.go:28-86 | a field fails iff it is tagged and unexported, has an empty name, is a file field of another type, or is a second body; otherwise it adds its resolver or is skipped |
| `ResolverCompiler.FirstFaultDecides` | pkg/handler/resolver_compiler.go:21-87 | one faulty field makes the type uncompilable, and only the first faulty field is reported |
| `ResolverCompiler.BuildResolvers` | pkg/handler/resolver_compiler.go:16-94 | succeeds iff the fields compile; the result is the plan and the first body index; the first fault's error, or the body/form combination error, otherwise |
| `ResolverCompiler.NoFaultBeforeIff` | pkg/handler/resolver_compiler.go:21-87 | no failure among the first n fields iff each of them is locally sound and at most one is a body |
| `ResolverCompiler.CompilableIff` | pkg/handler/resolver_compiler.go:16-94 | a type compiles iff every field is locally sound, at most one is body, and body is not combined with form or file |
| `ResolverCompiler.CompiledBody` | pkg/handler/resolver_compiler.go:33-38 | a compiled plan holds a body resolver iff there is a body field, and only at that index |
| `ResolverCompiler.FindByIndex` | pkg/handler/resolver_compiler.go:108-115 | none iff no resolver has the index; a found resolver is in the list with that index |
| `ResolverCompiler.FindByIndexFirst` | pkg/handler/resolver_compiler.go:108-115 | when position k is the first with the index, the search returns the resolver at k |
| `ResolverCompiler.ResolverByFieldIndex` | pkg/handler/resolver_compiler.go:108-115 | the loop returns the first resolver with the index, or none |
| `ResolverCompiler.FindCompiledBody` | pkg/handler/adapter.go:60-65 | in a compiled plan the body field's resolver is always found, so "body resolver missing" cannot occur |
| `FieldSetter.WrapSigned` | pkg/handler/field_setter.go:23-24 | the result lies in the signed range of the width, has the input's low bits (equal modulo 2^bits), and equals the input when it already fit |
| `FieldSetter.WrapUnsigned` | pkg/handler/field_setter.go:23-24 | the result lies in the unsigned range, has the input's low bits, and equals the input when it already fit |
| `FieldSetter.WrapSignedUnique` | pkg/handler/field_setter.go:23-24 | the wrapped value is the only value of the signed range with the input's low bits |
| `FieldSetter.WrapUnsignedUnique` | pkg/handler/field_setter.go:23-24 | the wrapped value is the only value of the unsigned range with the input's low bits |
| `FieldSetter.Convert` | pkg/handler/field_setter.go:23-24 | the converted value has the target type, lies in its range and keeps the source value's low bits |
| `FieldSetter.AssignSpec` | pkg/handler/field_setter.go:12-29 | succeeds iff the field is exported and the value is assignable or convertible; the stored value has the field's type, is unchanged when assignable and is the integer conversion otherwise; unexported gives "cannot set field at index %d" |
| `FieldSetter.SetResolvedField` | pkg/handler/field_setter.go:12-29 | the array changes at the field index only, exactly as the assignment specification says, and not at all on error |
| `FieldSetter.AssignKeepsWellTyped` | pkg/handler/field_setter.go:18-25 | storing a value keeps every field's value of the field's type |
| `FieldSetter.AssignIdempotent` | pkg/handler/field_setter.go:18-21 | storing the stored value again stores the same value |
| `FieldSetter.WidenThenNarrow` | pkg/handler/field_setter.go:23-24 | widening an integer and converting back gives it back |
| `FieldSetter.NarrowingWraps` | pkg/handler/field_setter.go:23-24 | 300 converts to int8 44, and -1 to uint8 255 |
| `Analyzer.Analyze` | pkg/handler/analyzer.go:14-50 | fails iff the value is not a function, with "fn is not a function"; otherwise the counts and type lists are the signature's, and returnsError iff the last result implements error |
| `Adapter.LastOptionWins` | pkg/handler/adapter.go:32-35 | after the options run, the memory limit is the last WithMaxMemory's, or the default |
| `Adapter.ApplyOptions` | pkg/handler/adapter.go:32-35 | the loop computes the option fold from 32 MB |
| `Adapter.Adapt` | pkg/handler/adapter.go:31-54 | the analyzer's error, "handler must have exactly 1 input, got %d", "handler input must be a struct, got <kind>"; success iff the input compiles; a success holds the function's own input type, its compiled plan and the configured memory limit |
| `Adapter.OthersMembers` | pkg/handler/adapter.go:79-82 | the loop's resolvers are plan resolvers other than the body's |
| `Adapter.StepSpec` | pkg/handler/adapter.go:84-93 | one resolution keeps the number of field values |
| `Adapter.RunResolvers` | pkg/handler/adapter.go:79-94 | a run keeps the number of field values |
| `Adapter.RunCons` | pkg/handler/adapter.go:84-93 | a run is its first step followed by the rest when that step succeeds, and stops at a failing one |
| `Adapter.Respond` | pkg/handler/adapter.go:96-125 | 204 with no body iff no error and no non-error result; 200 JSON with the encoding plus a newline iff no error and encoding succeeds; an error always gives a JSON error body; an encoding failure gives a 500 with the encoder's error text |
| `Adapter.ZeroStruct` | pkg/handler/adapter.go:58 | the zero struct is well typed |
| `Adapter.ResolveField` | pkg/handler/adapter.go:84-93 | resolving and storing one field matches the one-step specification on the array and the request; on failure the array is unchanged |
| `Adapter.ResolveRest` | pkg/handler/adapter.go:79-94 | the loop matches the run of the non-body resolvers on the array and the request |
| `Adapter.Serve` | pkg/handler/adapter.go:56-126 | the response and whether the handler ran are those of the serving specification with empty path parameters |
| `Adapter.ValidIsReady` | pkg/handler/adapter.go:51-56 | what Adapt builds can serve: field indices are in range and the body resolver is present |
| `Adapter.FrontAndOthers` | pkg/handler/adapter.go:60-82 | taking the body resolver out front and the others after it reorders the plan without losing or repeating a resolver |
| `Adapter.ResolutionOrderIsPlan` | pkg/handler/adapter.go:60-94 | every compiled resolver runs exactly once per request |
| `Adapter.BodyResolvedFirst` | pkg/handler/adapter.go:60-77 | the body resolver runs first and no other body resolver follows |
| `Adapter.FailureStopsResolution` | pkg/handler/adapter.go:84-88 | once a resolver fails, later resolvers have no effect |
| `Adapter.PathVariableStopsRun` | pkg/handler/adapter.go:57 | with empty path parameters a run containing a path resolver fails |
| `Adapter.PathFieldAlwaysRejected` | pkg/handler/adapter.go:57 | a handler with a path field answers 400 and is never called |
| `Adapter.RunKeepsWellTyped` | pkg/handler/adapter.go:73-93 | a successful run leaves every field value of its field's type |
| `Adapter.HTTPErrorSetsStatus` | pkg/handler/adapter.go:101-104 | a returned HTTPError, however wrapped, sets the status and message |
| `Adapter.OtherErrorIs500` | pkg/handler/adapter.go:105-106 | any other returned error is a 500 with its text |
| `PathSplit.FieldsAppend` | examples/get-user/gofast/main.go:64-79 | a separator splits the fields into those before it and those after it |
| `PathSplit.FieldsOfWord` | examples/get-user/gofast/main.go:77-78 | a stretch without separator is one field |
| `PathSplit.FieldsSepFree` | examples/get-user/gofast/main.go:69-72 | no field contains the separator |
| `PathSplit.JoinFields` | examples/get-user/gofast/main.go:64-79 | joining the fields with the separator gives the input back |
| `PathSplit.FieldsOfJoin` | examples/get-user/gofast/main.go:64-79 | splitting a join of separator-free parts gives the parts |
| `PathSplit.NonEmptySpec` | examples/get-user/gofast/main.go:56-60 | the filter keeps only non-empty segments, keeps a list with none empty whole, and adds nothing |
| `PathSplit.WordsShape` | examples/get-user/gofast/main.go:54-62 | every segment is non-empty and holds no separator |
| `PathSplit.WordsOfJoin` | examples/get-user/gofast/main.go:54-62 | the segments of joined non-empty separator-free parts are those parts |
| `PathSplit.NoWordsIffAllSep` | examples/get-user/gofast/main.go:54-62 | no segment iff the input is only separators |
| `PathSplit.Split` | examples/get-user/gofast/main.go:64-79 | the scan returns exactly the non-empty fields |
| `PathSplit.SplitPath` | examples/get-user/gofast/main.go:54-62 | the result is the non-empty slash-separated segments, each non-empty and slash-free |

## Left out

- Header canonicalisation (`textproto.CanonicalMIMEHeaderKey`): header lookups use the exact key.
- Header, query and form maps with several values: only the first value is read, as `Get` does.
- `%q` escaping: names are quoted with plain double quotes.
- Float parsing and JSON decoding and encoding: these are `Lib` parameters, not models.
- Spilling multipart files to disk past `maxMemory`: the multipart parse result is a fixed part of the request.
- `Resolvers.ResolveForm`: does not model that `PostFormValue` parses the payload itself; the posted form is a fixed part of the request.
- `FieldSetter.AssignSpec`: `ConvertibleTo` is modelled only between integer kinds. Interface assignability, named types, int-to-string rune conversion and float conversions are left out.
- Go's `int` and `uint` are modelled as their 64-bit forms and print as `int64` and `uint64`.
- `strconv.ParseInt` with bit size 1 does not occur: field widths are 8, 16, 32 or 64.
- `Adapter.Respond`: the JSON error body is left abstract as `ErrorJson(message)`, not encoded to bytes.
- `WriteHeader` panics on invalid status codes, and the behaviour of a response already written after an encoding failure is not modelled.
- Error results of a concrete non-interface type are nil unless they carry an error value.
- The fields of `multipart.FileHeader` as an input struct are treated as untagged.
- `Analyzer.ImplementsError`: only types modelled as `Other` can implement `error`; struct types carry no method set, so a result declared as a pointer to a struct with an `Error()` method (such as `*HTTPError`) is not taken for an error result.
- The HTTP server, `main`, routers and concurrency are left out.
- `pkg/handler/resolver.go` repeats the body, header, query, path and cookie resolvers and `convertStringToType`. Its copies behave like those under `resolvers/`, which the model follows.
