/** Adapt: validates a handler once, compiles its input struct into resolvers,
    and serves each request by resolving the struct, calling the handler and
    writing its results as HTTP. */
module Adapter {
  import opened Wrappers
  import opened Errors
  import opened Types
  import opened Foreign
  import opened Http
  import opened Resolvers
  import opened ResolverCompiler
  import opened FieldSetter
  import opened Analyzer

  /** defaultMaxMemory (32 << 20) */
  const DefaultAdaptMaxMemory: int := 32 * 1024 * 1024

  /** AdaptOption; WithMaxMemory is the only option the package provides. */
  datatype AdaptOption = WithMaxMemory(n: int)

  /** The configuration after applying each option in turn to `maxMemory`. */
  function ApplyAll(maxMemory: int, opts: seq<AdaptOption>): int
    decreases |opts|
  {
    if opts == [] then maxMemory else ApplyAll(opts[0].n, opts[1..])
  }

  /** The last WithMaxMemory wins. */
  lemma {:induction false} LastOptionWins(maxMemory: int, opts: seq<AdaptOption>)
    ensures ApplyAll(maxMemory, opts) == if opts == [] then maxMemory else opts[|opts| - 1].n
    decreases |opts|
  {
    if opts != [] {
      LastOptionWins(opts[0].n, opts[1..]);
    }
  }

  /** Adapt's option loop. */
  method ApplyOptions(opts: seq<AdaptOption>) returns (maxMemory: int)
    ensures maxMemory == ApplyAll(DefaultAdaptMaxMemory, opts)
  {
    maxMemory := DefaultAdaptMaxMemory;
    for i := 0 to |opts|
      invariant ApplyAll(maxMemory, opts[i..]) == ApplyAll(DefaultAdaptMaxMemory, opts)
    {
      assert opts[i..][1..] == opts[i + 1..];
      maxMemory := opts[i].n;
    }
  }

  /** What the closure returned by Adapt captures. */
  datatype Handler = Handler(meta: HandlerMetadata, inputType: FieldType, resolvers: seq<FieldResolver>,
                             bodyFieldIdx: int, maxMemory: int)

  /** The handler's signature as Adapt accepts it: one struct input. */
  predicate Shaped(h: Handler) {
    Consistent(h.meta) && h.meta.inputTypes == [h.inputType]
    && h.meta.inputTypes == h.meta.funcValue.params && h.meta.outputTypes == h.meta.funcValue.results
    && IsStructKind(h.inputType)
  }

  /** The handler's plan is the compiled plan of the field views `vs`. */
  predicate CompiledPlan(h: Handler, vs: seq<FieldView>) {
    |vs| == |FieldsOf(h.inputType)| && Compilable(vs, h.maxMemory)
    && h.resolvers == Planned(vs, h.maxMemory) && h.bodyFieldIdx == BodyIndex(vs)
  }

  /** A handler as Adapt builds it. */
  predicate Valid(h: Handler) {
    Shaped(h) && CompiledPlan(h, Views(FieldsOf(h.inputType)))
  }

  /** Adapt */
  method Adapt(fn: AnyValue, opts: seq<AdaptOption>) returns (r: Result<Handler, Error>)
    ensures !fn.FuncVal? ==> r == Failure(Plain("fn is not a function"))
    ensures fn.FuncVal? && |fn.cb.params| != 1 ==>
      r == Failure(Plain("handler must have exactly 1 input, got " + IntToString(|fn.cb.params|)))
    ensures fn.FuncVal? && |fn.cb.params| == 1 && !IsStructKind(fn.cb.params[0]) ==>
      r == Failure(Plain("handler input must be a struct, got " + KindName(fn.cb.params[0])))
    ensures fn.FuncVal? && |fn.cb.params| == 1 && IsStructKind(fn.cb.params[0]) ==>
      (r.Success? <==> Compilable(Views(FieldsOf(fn.cb.params[0])), ApplyAll(DefaultAdaptMaxMemory, opts)))
    ensures r.Success? ==>
      Valid(r.value) && r.value.meta.funcValue == fn.cb && r.value.maxMemory == ApplyAll(DefaultAdaptMaxMemory, opts)
    ensures r.Success? ==> fn.FuncVal? && fn.cb.params == [r.value.inputType]
  {
    var maxMemory := ApplyOptions(opts);
    var meta := Analyze(fn);
    if meta.Failure? {
      return Failure(meta.error);
    }
    var m := meta.value;
    if m.numInputs != 1 {
      return Failure(Plain("handler must have exactly 1 input, got " + IntToString(m.numInputs)));
    }
    var inputType := m.inputTypes[0];
    if !IsStructKind(inputType) {
      return Failure(Plain("handler input must be a struct, got " + KindName(inputType)));
    }
    var compiled := BuildResolvers(inputType, maxMemory);
    if compiled.Failure? {
      return Failure(compiled.error);
    }
    r := Success(Handler(m, inputType, compiled.value.resolvers, compiled.value.bodyFieldIdx, maxMemory));
  }

  // --- serving one request ---

  /** The body written back: writeError's {"error": message}, an encoded
      result, or nothing. */
  datatype Body = ErrorJson(message: string) | Json(data: seq<byte>) | NoBody

  datatype Response = Response(status: int, contentType: Option<string>, body: Body)

  /** writeError */
  function ErrorResponse(status: int, msg: string): Response {
    Response(status, Some("application/json"), ErrorJson(msg))
  }

  /** The resolvers run after the body one: all but the one at the body index. */
  function Others(resolvers: seq<FieldResolver>, bodyFieldIdx: int): seq<FieldResolver>
    decreases |resolvers|
  {
    if resolvers == [] then []
    else (if resolvers[0].FieldIndex() == bodyFieldIdx then [] else [resolvers[0]]) + Others(resolvers[1..], bodyFieldIdx)
  }

  /** What Others keeps comes from the plan and is never at the body index. */
  lemma {:induction false} OthersMembers(resolvers: seq<FieldResolver>, bodyFieldIdx: int)
    ensures forall x :: x in Others(resolvers, bodyFieldIdx) ==> x in resolvers && x.FieldIndex() != bodyFieldIdx
    decreases |resolvers|
  {
    if resolvers != [] {
      OthersMembers(resolvers[1..], bodyFieldIdx);
      assert forall x :: x in resolvers[1..] ==> x in resolvers;
    }
  }

  /** The order in which the closure resolves fields: the body first, when there
      is one, then the rest in plan order. */
  function ResolutionOrder(h: Handler): seq<FieldResolver>
    requires h.bodyFieldIdx >= 0 ==> FindByIndex(h.resolvers, h.bodyFieldIdx).Some?
  {
    (if h.bodyFieldIdx >= 0 then [FindByIndex(h.resolvers, h.bodyFieldIdx).value] else [])
    + Others(h.resolvers, h.bodyFieldIdx)
  }

  predicate IndicesIn(order: seq<FieldResolver>, n: nat) {
    forall res :: res in order ==> 0 <= res.FieldIndex() < n
  }

  /** Resolves one field and stores it into struct value `values`. */
  function StepSpec(res: FieldResolver, values: seq<Value>, fields: seq<StructField>,
                    ctx: Option<Context>, st: PayloadState, lib: Lib): (r: (Result<seq<Value>, Error>, PayloadState))
    requires |values| == |fields| && 0 <= res.FieldIndex() < |fields|
    ensures r.0.Success? ==> |r.0.value| == |fields|
  {
    var i := res.FieldIndex();
    var (rv, st1) := ResolveSpec(res, ctx, st, lib);
    if rv.Failure? then (Failure(rv.error), st1)
    else match AssignSpec(fields[i], i, rv.value)
      case Failure(e) => (Failure(e), st1)
      case Success(v) => (Success(values[i := v]), st1)
  }

  /** Resolves and stores each field of `order` in turn, from struct value
      `values` and payload state `st`; the first failure ends the run. */
  function RunResolvers(order: seq<FieldResolver>, values: seq<Value>, fields: seq<StructField>,
                        ctx: Option<Context>, st: PayloadState, lib: Lib): (r: (Result<seq<Value>, Error>, PayloadState))
    requires |values| == |fields| && IndicesIn(order, |fields|)
    ensures r.0.Success? ==> |r.0.value| == |fields|
    decreases |order|
  {
    if order == [] then (Success(values), st)
    else
      var (s, st1) := StepSpec(order[0], values, fields, ctx, st, lib);
      if s.Failure? then (s, st1)
      else RunResolvers(order[1..], s.value, fields, ctx, st1, lib)
  }

  lemma RunCons(res: FieldResolver, rest: seq<FieldResolver>, values: seq<Value>, fields: seq<StructField>,
                ctx: Option<Context>, st: PayloadState, lib: Lib)
    requires |values| == |fields| && 0 <= res.FieldIndex() < |fields| && IndicesIn(rest, |fields|)
    ensures IndicesIn([res] + rest, |fields|)
    ensures RunResolvers([res] + rest, values, fields, ctx, st, lib) ==
      var (s, st1) := StepSpec(res, values, fields, ctx, st, lib);
      if s.Failure? then (s, st1) else RunResolvers(rest, s.value, fields, ctx, st1, lib)
  {
    assert ([res] + rest)[1..] == rest;
  }

  /** A Go function returns exactly as many values as it declares results. */
  ghost predicate Conforms(cb: Callback) {
    forall args :: |cb.call(args)| == |cb.results|
  }

  /** The error the handler returned, when its last result is a non-nil error. */
  function HandlerError(meta: HandlerMetadata, results: seq<Value>): Option<Error>
    requires |results| == meta.numOutputs && Consistent(meta)
  {
    if meta.returnsError then
      match results[|results| - 1]
      case ErrorVal(e) => e
      case _ => None
    else None
  }

  function NonErrorResults(meta: HandlerMetadata): int {
    if meta.returnsError then meta.numOutputs - 1 else meta.numOutputs
  }

  /** How the closure writes the handler's results. */
  function Respond(meta: HandlerMetadata, results: seq<Value>, lib: Lib): (resp: Response)
    requires |results| == meta.numOutputs && Consistent(meta)
    ensures resp.body.NoBody? <==> HandlerError(meta, results).None? && NonErrorResults(meta) == 0
    ensures resp.body.NoBody? ==> resp == Response(204, None, NoBody)
    ensures resp.body.Json? <==> HandlerError(meta, results).None? && NonErrorResults(meta) > 0 && lib.encodeJson(results[0]).Success?
    ensures resp.body.Json? ==>
      resp.status == 200 && resp.contentType == Some("application/json") && resp.body.data == lib.encodeJson(results[0]).value + [10]
    ensures HandlerError(meta, results).Some? ==> resp.body.ErrorJson?
    ensures HandlerError(meta, results).None? && NonErrorResults(meta) > 0 && lib.encodeJson(results[0]).Failure? ==>
      resp == ErrorResponse(500, Text(lib.encodeJson(results[0]).error))
  {
    match HandlerError(meta, results)
    case Some(e) =>
      (match AsHTTPError(e)
       case Some(httpErr) => ErrorResponse(httpErr.code, httpErr.message)
       case None => ErrorResponse(500, Text(e)))
    case None =>
      if NonErrorResults(meta) == 0 then Response(204, None, NoBody)
      else match lib.encodeJson(results[0])
        case Success(data) => Response(200, Some("application/json"), Json(data + [10]))
        case Failure(e) => ErrorResponse(500, Text(e))
  }

  /** The response, whether the handler ran, and the request's payload state afterwards. */
  datatype Served = Served(response: Response, called: bool, payload: PayloadState)

  /** What the preconditions of serving need of a handler. */
  ghost predicate ServeReady(h: Handler) {
    Consistent(h.meta) && h.meta.outputTypes == h.meta.funcValue.results && Conforms(h.meta.funcValue)
    && IndicesIn(h.resolvers, |FieldsOf(h.inputType)|)
  }

  function ZeroStruct(fields: seq<StructField>): (values: seq<Value>)
    ensures |values| == |fields| && WellTyped(values, fields)
  {
    seq(|fields|, j requires 0 <= j < |fields| => Zero(fields[j].typ))
  }

  lemma OrderIndicesIn(h: Handler)
    requires IndicesIn(h.resolvers, |FieldsOf(h.inputType)|)
    requires h.bodyFieldIdx >= 0 ==> FindByIndex(h.resolvers, h.bodyFieldIdx).Some?
    ensures IndicesIn(ResolutionOrder(h), |FieldsOf(h.inputType)|)
  {
    OthersMembers(h.resolvers, h.bodyFieldIdx);
    if h.bodyFieldIdx >= 0 {
      var b := FindByIndex(h.resolvers, h.bodyFieldIdx).value;
      assert b in h.resolvers;
    }
  }

  /** The closure returned by Adapt, on payload state `st`. */
  ghost function ServeSpec(h: Handler, ctx: Option<Context>, st: PayloadState, lib: Lib): Served
    requires ServeReady(h)
  {
    var fields := FieldsOf(h.inputType);
    if h.bodyFieldIdx >= 0 && FindByIndex(h.resolvers, h.bodyFieldIdx).None? then
      Served(ErrorResponse(500, "body resolver missing"), false, st)
    else
      OrderIndicesIn(h);
      var (res, st1) := RunResolvers(ResolutionOrder(h), ZeroStruct(fields), fields, ctx, st, lib);
      match res
      case Failure(e) => Served(ErrorResponse(400, Text(e)), false, st1)
      case Success(values) => Served(Respond(h.meta, h.meta.funcValue.call(values), lib), true, st1)
  }

  lemma OthersStep(resolvers: seq<FieldResolver>, k: nat, bodyFieldIdx: int)
    requires k < |resolvers|
    ensures Others(resolvers[k..], bodyFieldIdx) ==
      (if resolvers[k].FieldIndex() == bodyFieldIdx then [] else [resolvers[k]]) + Others(resolvers[k + 1..], bodyFieldIdx)
  {
    assert resolvers[k..][0] == resolvers[k];
    assert resolvers[k..][1..] == resolvers[k + 1..];
  }

  lemma OthersIndicesIn(resolvers: seq<FieldResolver>, k: nat, bodyFieldIdx: int, n: nat)
    requires IndicesIn(resolvers, n) && k <= |resolvers|
    ensures IndicesIn(Others(resolvers[k..], bodyFieldIdx), n)
  {
    OthersMembers(resolvers[k..], bodyFieldIdx);
    forall res | res in Others(resolvers[k..], bodyFieldIdx)
      ensures 0 <= res.FieldIndex() < n
    {
      assert res in resolvers[k..];
    }
  }

  /** Resolves one field into the struct being built; nothing is stored on failure. */
  method ResolveField(res: FieldResolver, ctx: Option<Context>, paramValue: array<Value>, fields: seq<StructField>, lib: Lib)
      returns (err: Option<Error>)
    requires HasRequest(ctx) && paramValue.Length == |fields| && 0 <= res.FieldIndex() < |fields|
    modifies ctx.value.request, paramValue
    ensures var (s, st1) := StepSpec(res, old(paramValue[..]), fields, ctx, old(ctx.value.request.Payload()), lib);
      ctx.value.request.Payload() == st1 && (s.Success? ==> err.None? && paramValue[..] == s.value)
      && (s.Failure? ==> err == Some(s.error) && paramValue[..] == old(paramValue[..]))
  {
    var val := Resolve(res, ctx, lib);
    if val.Failure? {
      return Some(val.error);
    }
    err := SetResolvedField(paramValue, fields, res.FieldIndex(), val.value);
  }

  /** The closure's loop over the plan, skipping the body field. */
  method ResolveRest(h: Handler, ctx: Option<Context>, paramValue: array<Value>, lib: Lib) returns (err: Option<Error>)
    requires HasRequest(ctx) && paramValue.Length == |FieldsOf(h.inputType)|
    requires IndicesIn(h.resolvers, |FieldsOf(h.inputType)|)
    modifies ctx.value.request, paramValue
    ensures IndicesIn(Others(h.resolvers, h.bodyFieldIdx), |FieldsOf(h.inputType)|)
    ensures var (s, st1) := RunResolvers(Others(h.resolvers, h.bodyFieldIdx), old(paramValue[..]), FieldsOf(h.inputType),
                                         ctx, old(ctx.value.request.Payload()), lib);
      ctx.value.request.Payload() == st1 && (s.Success? ==> err.None? && paramValue[..] == s.value)
      && (s.Failure? ==> err == Some(s.error))
  {
    var fields := FieldsOf(h.inputType);
    var request := ctx.value.request;
    assert h.resolvers[0..] == h.resolvers;
    OthersIndicesIn(h.resolvers, 0, h.bodyFieldIdx, |fields|);
    ghost var outcome := RunResolvers(Others(h.resolvers, h.bodyFieldIdx), paramValue[..], fields, ctx, request.Payload(), lib);
    for k := 0 to |h.resolvers|
      invariant IndicesIn(Others(h.resolvers[k..], h.bodyFieldIdx), |fields|)
      invariant outcome == RunResolvers(Others(h.resolvers[k..], h.bodyFieldIdx), paramValue[..], fields, ctx, request.Payload(), lib)
    {
      OthersStep(h.resolvers, k, h.bodyFieldIdx);
      OthersIndicesIn(h.resolvers, k + 1, h.bodyFieldIdx, |fields|);
      var resolver := h.resolvers[k];
      if resolver.FieldIndex() == h.bodyFieldIdx {
        assert Others(h.resolvers[k..], h.bodyFieldIdx) == Others(h.resolvers[k + 1..], h.bodyFieldIdx);
        continue;
      }
      ghost var rest := Others(h.resolvers[k + 1..], h.bodyFieldIdx);
      ghost var before, st := paramValue[..], request.Payload();
      assert Others(h.resolvers[k..], h.bodyFieldIdx) == [resolver] + rest;
      RunCons(resolver, rest, before, fields, ctx, st, lib);
      err := ResolveField(resolver, ctx, paramValue, fields, lib);
      if err.Some? {
        return;
      }
      assert StepSpec(resolver, before, fields, ctx, st, lib) == (Success(paramValue[..]), request.Payload());
      assert outcome == RunResolvers(rest, paramValue[..], fields, ctx, request.Payload(), lib);
    }
    assert h.resolvers[|h.resolvers|..] == [];
    err := None;
  }

  /** The closure built by Adapt, serving request r. */
  method Serve(h: Handler, r: Request, lib: Lib) returns (resp: Response, called: bool)
    requires ServeReady(h)
    modifies r
    ensures var s := ServeSpec(h, Some(Context(r, map[])), old(r.Payload()), lib);
      resp == s.response && called == s.called && r.Payload() == s.payload
  {
    var ctx := Some(Context(r, map[]));
    var fields := FieldsOf(h.inputType);
    var paramValue := new Value[|fields|](j requires 0 <= j < |fields| => Zero(fields[j].typ));
    assert paramValue[..] == ZeroStruct(fields);
    ghost var st0 := r.Payload();

    if h.bodyFieldIdx >= 0 {
      var bodyResolver := ResolverByFieldIndex(h.resolvers, h.bodyFieldIdx);
      if bodyResolver.None? {
        return ErrorResponse(500, "body resolver missing"), false;
      }
      var res := bodyResolver.value;
      assert res in h.resolvers;
      OrderIndicesIn(h);
      RunCons(res, Others(h.resolvers, h.bodyFieldIdx), ZeroStruct(fields), fields, ctx, st0, lib);
      var err := ResolveField(res, ctx, paramValue, fields, lib);
      if err.Some? {
        return ErrorResponse(400, Text(err.value)), false;
      }
    } else {
      assert ResolutionOrder(h) == Others(h.resolvers, h.bodyFieldIdx);
    }

    var err := ResolveRest(h, ctx, paramValue, lib);
    if err.Some? {
      return ErrorResponse(400, Text(err.value)), false;
    }

    var results := h.meta.funcValue.call(paramValue[..]);
    resp := Respond(h.meta, results, lib);
    called := true;
  }

  // --- what serving guarantees ---

  /** Every handler Adapt returns can serve requests, and its body resolver is
      always found. */
  lemma ValidIsReady(h: Handler, vs: seq<FieldView>)
    requires Shaped(h) && CompiledPlan(h, vs) && Conforms(h.meta.funcValue)
    ensures ServeReady(h)
    ensures h.bodyFieldIdx >= 0 ==> FindByIndex(h.resolvers, h.bodyFieldIdx).Some?
  {
    PlannedShape(vs, h.maxMemory);
    forall res | res in h.resolvers
      ensures 0 <= res.FieldIndex() < |FieldsOf(h.inputType)|
    {
      var k :| 0 <= k < |h.resolvers| && h.resolvers[k] == res;
    }
    if h.bodyFieldIdx >= 0 {
      FindCompiledBody(vs, h.maxMemory);
    }
  }

  lemma {:induction false} OthersWithoutMatch(resolvers: seq<FieldResolver>, bodyFieldIdx: int)
    requires forall k :: 0 <= k < |resolvers| ==> resolvers[k].FieldIndex() != bodyFieldIdx
    ensures Others(resolvers, bodyFieldIdx) == resolvers
    decreases |resolvers|
  {
    if resolvers != [] {
      var rest := resolvers[1..];
      assert forall k :: 0 <= k < |rest| ==> rest[k].FieldIndex() != bodyFieldIdx by {
        assert forall k :: 0 <= k < |rest| ==> rest[k] == resolvers[k + 1];
      }
      OthersWithoutMatch(rest, bodyFieldIdx);
      assert Others(resolvers, bodyFieldIdx) == [resolvers[0]] + Others(rest, bodyFieldIdx);
      assert resolvers == [resolvers[0]] + rest;
    }
  }

  lemma {:induction false} OthersWithOneMatch(resolvers: seq<FieldResolver>, bodyFieldIdx: int, j: nat)
    requires j < |resolvers| && resolvers[j].FieldIndex() == bodyFieldIdx
    requires forall k :: 0 <= k < |resolvers| && k != j ==> resolvers[k].FieldIndex() != bodyFieldIdx
    ensures multiset(Others(resolvers, bodyFieldIdx)) + multiset{resolvers[j]} == multiset(resolvers)
    decreases |resolvers|
  {
    assert resolvers == [resolvers[0]] + resolvers[1..];
    if j == 0 {
      OthersWithoutMatch(resolvers[1..], bodyFieldIdx);
    } else {
      OthersWithOneMatch(resolvers[1..], bodyFieldIdx, j - 1);
    }
  }

  lemma DistinctIndices(resolvers: seq<FieldResolver>, j: nat)
    requires j < |resolvers| && Increasing(resolvers)
    ensures forall k :: 0 <= k < |resolvers| && k != j ==> resolvers[k].FieldIndex() != resolvers[j].FieldIndex()
  {
  }

  predicate Increasing(resolvers: seq<FieldResolver>) {
    forall k1, k2 :: 0 <= k1 < k2 < |resolvers| ==> resolvers[k1].FieldIndex() < resolvers[k2].FieldIndex()
  }

  /** In a plan with increasing field indices, taking the resolver of one index
      out front and the others after it reorders the plan without losing or
      repeating a resolver. */
  lemma FrontAndOthers(resolvers: seq<FieldResolver>, b: int)
    requires Increasing(resolvers)
    ensures FindByIndex(resolvers, b).Some? ==>
      multiset([FindByIndex(resolvers, b).value] + Others(resolvers, b)) == multiset(resolvers)
    ensures FindByIndex(resolvers, b).None? ==> Others(resolvers, b) == resolvers
  {
    match FindByIndex(resolvers, b)
    case Some(body) =>
      var j :| 0 <= j < |resolvers| && resolvers[j] == body;
      DistinctIndices(resolvers, j);
      OthersWithOneMatch(resolvers, b, j);
    case None =>
      OthersWithoutMatch(resolvers, b);
  }

  /** The closure runs every compiled resolver exactly once. */
  lemma ResolutionOrderIsPlan(h: Handler, vs: seq<FieldView>)
    requires CompiledPlan(h, vs)
    ensures h.bodyFieldIdx >= 0 ==> FindByIndex(h.resolvers, h.bodyFieldIdx).Some?
    ensures multiset(ResolutionOrder(h)) == multiset(h.resolvers)
  {
    PlannedShape(vs, h.maxMemory);
    if h.bodyFieldIdx >= 0 {
      FindCompiledBody(vs, h.maxMemory);
    } else {
      assert FindByIndex(h.resolvers, h.bodyFieldIdx).None?;
    }
    FrontAndOthers(h.resolvers, h.bodyFieldIdx);
  }

  /** The body resolver runs first, and only once. */
  lemma BodyResolvedFirst(h: Handler, vs: seq<FieldView>)
    requires CompiledPlan(h, vs)
    ensures h.bodyFieldIdx >= 0 ==> FindByIndex(h.resolvers, h.bodyFieldIdx).Some?
    ensures h.bodyFieldIdx >= 0 ==> ResolutionOrder(h)[0].BodyResolver? && ResolutionOrder(h)[0].FieldIndex() == h.bodyFieldIdx
    ensures forall k :: 0 < k < |ResolutionOrder(h)| ==> !ResolutionOrder(h)[k].BodyResolver?
  {
    var b := h.bodyFieldIdx;
    CompiledBody(vs, h.maxMemory);
    assert forall x :: x in h.resolvers && x.BodyResolver? ==> x.FieldIndex() == b;
    if b >= 0 {
      FindCompiledBody(vs, h.maxMemory);
    }
    var o := Others(h.resolvers, b);
    OthersMembers(h.resolvers, b);
    assert forall k :: 0 < k < |ResolutionOrder(h)| ==> ResolutionOrder(h)[k] in o;
  }

  /** Once a resolver fails, the resolvers after it are never run: the outcome
      and the payload state are those of the failing prefix. */
  lemma {:induction false} FailureStopsResolution(a: seq<FieldResolver>, b: seq<FieldResolver>, values: seq<Value>,
                                                  fields: seq<StructField>, ctx: Option<Context>, st: PayloadState, lib: Lib)
    requires |values| == |fields| && IndicesIn(a, |fields|) && IndicesIn(b, |fields|)
    requires RunResolvers(a, values, fields, ctx, st, lib).0.Failure?
    ensures IndicesIn(a + b, |fields|)
    ensures RunResolvers(a + b, values, fields, ctx, st, lib) == RunResolvers(a, values, fields, ctx, st, lib)
    decreases |a|
  {
    assert (a + b)[0] == a[0];
    assert (a + b)[1..] == a[1..] + b;
    var (s, st1) := StepSpec(a[0], values, fields, ctx, st, lib);
    if s.Success? {
      FailureStopsResolution(a[1..], b, s.value, fields, ctx, st1, lib);
    }
  }

  /** A resolution that reaches a path variable fails: the closure's context
      carries no path parameters. */
  lemma {:induction false} PathVariableStopsRun(order: seq<FieldResolver>, j: nat, values: seq<Value>, fields: seq<StructField>,
                                                r: Request, st: PayloadState, lib: Lib)
    requires |values| == |fields| && IndicesIn(order, |fields|)
    requires j < |order| && order[j].PathVarResolver?
    ensures RunResolvers(order, values, fields, Some(Context(r, map[])), st, lib).0.Failure?
    decreases |order|
  {
    var ctx := Some(Context(r, map[]));
    var (s, st1) := StepSpec(order[0], values, fields, ctx, st, lib);
    if j > 0 && s.Success? {
      assert order[1..][j - 1] == order[j];
      PathVariableStopsRun(order[1..], j - 1, s.value, fields, r, st1, lib);
    }
  }

  /** A handler with a `path:` field never runs: every request is answered 400. */
  lemma PathFieldAlwaysRejected(h: Handler, vs: seq<FieldView>, r: Request, st: PayloadState, lib: Lib)
    requires Shaped(h) && CompiledPlan(h, vs) && Conforms(h.meta.funcValue)
    requires exists k :: 0 <= k < |h.resolvers| && h.resolvers[k].PathVarResolver?
    ensures ServeReady(h)
    ensures ServeSpec(h, Some(Context(r, map[])), st, lib).response.status == 400
    ensures !ServeSpec(h, Some(Context(r, map[])), st, lib).called
  {
    ValidIsReady(h, vs);
    OrderIndicesIn(h);
    PathResolverRuns(h, vs);
    var order := ResolutionOrder(h);
    var j :| 0 <= j < |order| && order[j].PathVarResolver?;
    var fields := FieldsOf(h.inputType);
    PathVariableStopsRun(order, j, ZeroStruct(fields), fields, r, st, lib);
    RejectedWhenRunFails(h, Some(Context(r, map[])), st, lib);
  }

  /** A path resolver of the plan is among those the closure runs. */
  lemma PathResolverRuns(h: Handler, vs: seq<FieldView>)
    requires CompiledPlan(h, vs)
    requires exists k :: 0 <= k < |h.resolvers| && h.resolvers[k].PathVarResolver?
    ensures h.bodyFieldIdx >= 0 ==> FindByIndex(h.resolvers, h.bodyFieldIdx).Some?
    ensures exists j :: 0 <= j < |ResolutionOrder(h)| && ResolutionOrder(h)[j].PathVarResolver?
  {
    ResolutionOrderIsPlan(h, vs);
    var k :| 0 <= k < |h.resolvers| && h.resolvers[k].PathVarResolver?;
    assert h.resolvers[k] in multiset(ResolutionOrder(h));
    var j :| 0 <= j < |ResolutionOrder(h)| && ResolutionOrder(h)[j] == h.resolvers[k];
  }

  /** When resolution fails the closure answers 400 and does not call the handler. */
  lemma RejectedWhenRunFails(h: Handler, ctx: Option<Context>, st: PayloadState, lib: Lib)
    requires ServeReady(h) && (h.bodyFieldIdx >= 0 ==> FindByIndex(h.resolvers, h.bodyFieldIdx).Some?)
    requires IndicesIn(ResolutionOrder(h), |FieldsOf(h.inputType)|)
    requires RunResolvers(ResolutionOrder(h), ZeroStruct(FieldsOf(h.inputType)), FieldsOf(h.inputType), ctx, st, lib).0.Failure?
    ensures ServeSpec(h, ctx, st, lib).response.status == 400
    ensures !ServeSpec(h, ctx, st, lib).called
  {
  }

  /** Resolving fields keeps the struct well typed, so the handler is always
      called with a value of its input type. */
  lemma {:induction false} RunKeepsWellTyped(order: seq<FieldResolver>, values: seq<Value>, fields: seq<StructField>,
                                             ctx: Option<Context>, st: PayloadState, lib: Lib)
    requires WellTyped(values, fields) && IndicesIn(order, |fields|)
    requires RunResolvers(order, values, fields, ctx, st, lib).0.Success?
    ensures WellTyped(RunResolvers(order, values, fields, ctx, st, lib).0.value, fields)
    decreases |order|
  {
    if order != [] {
      var res := order[0];
      var i := res.FieldIndex();
      var (rv, st1) := ResolveSpec(res, ctx, st, lib);
      AssignKeepsWellTyped(values, fields, i, rv.value);
      var (s, _) := StepSpec(res, values, fields, ctx, st, lib);
      assert forall x :: x in order[1..] ==> x in order;
      RunKeepsWellTyped(order[1..], s.value, fields, ctx, st1, lib);
    }
  }

  /** An *HTTPError returned by the handler, however deeply wrapped, sets the
      status and message. */
  lemma HTTPErrorSetsStatus(meta: HandlerMetadata, results: seq<Value>, lib: Lib, prefixes: seq<string>, he: HTTPError)
    requires |results| == meta.numOutputs && Consistent(meta)
    requires HandlerError(meta, results) == Some(WrapAll(prefixes, Http(he)))
    ensures Respond(meta, results, lib) == ErrorResponse(he.code, he.message)
  {
    AsHTTPErrorSeesThroughWrapping(prefixes, he);
  }

  /** Any other handler error is a 500 carrying the error's text. */
  lemma OtherErrorIs500(meta: HandlerMetadata, results: seq<Value>, lib: Lib, e: Error)
    requires |results| == meta.numOutputs && Consistent(meta)
    requires HandlerError(meta, results) == Some(e) && AsHTTPError(e).None?
    ensures Respond(meta, results, lib) == ErrorResponse(500, Text(e))
  {
  }
}
