/** Analyze: inspects a handler value once at start-up and records its signature. */
module Analyzer {
  import opened Wrappers
  import opened Errors
  import opened Types

  /** A handler function: its parameter and result types, and what calling it
      with the given arguments returns. The call itself is user code. */
  datatype Callback = Callback(params: seq<FieldType>, results: seq<FieldType>, call: seq<Value> -> seq<Value>)

  /** An interface{} value handed to Adapt: nil, a value of a non-function type,
      or a function. */
  datatype AnyValue = NilInterface | NonFunc(typ: FieldType) | FuncVal(cb: Callback)

  /** HandlerMetadata */
  datatype HandlerMetadata = HandlerMetadata(
    funcValue: Callback,
    numInputs: nat,
    numOutputs: nat,
    inputTypes: seq<FieldType>,
    outputTypes: seq<FieldType>,
    returnsError: bool)

  /** Implements(errorInterface): the type's method set has `Error() string`. */
  predicate ImplementsError(t: FieldType) { t.Other? && t.implementsError }

  /** The metadata's counts and type lists agree with each other. */
  predicate Consistent(m: HandlerMetadata) {
    m.numInputs == |m.inputTypes| && m.numOutputs == |m.outputTypes|
    && (m.returnsError <==> m.numOutputs > 0 && ImplementsError(m.outputTypes[m.numOutputs - 1]))
  }

  /** Analyze */
  method Analyze(fn: AnyValue) returns (r: Result<HandlerMetadata, Error>)
    ensures !fn.FuncVal? <==> r.Failure?
    ensures r.Failure? ==> r.error == Plain("fn is not a function")
    ensures r.Success? ==> Consistent(r.value)
    ensures r.Success? ==>
      r.value.funcValue == fn.cb && r.value.inputTypes == fn.cb.params && r.value.outputTypes == fn.cb.results
  {
    if !fn.FuncVal? {
      return Failure(Plain("fn is not a function"));
    }
    var funcType := fn.cb;
    var numInputs := |funcType.params|;
    var numOutputs := |funcType.results|;

    var inputTypes := new FieldType[numInputs](_ => Str);
    for i := 0 to numInputs
      invariant inputTypes[..i] == funcType.params[..i]
    {
      inputTypes[i] := funcType.params[i];
    }

    assert inputTypes[..] == inputTypes[..numInputs] && funcType.params[..numInputs] == funcType.params;
    var ins := inputTypes[..];

    var outputTypes := new FieldType[numOutputs](_ => Str);
    for i := 0 to numOutputs
      invariant outputTypes[..i] == funcType.results[..i]
    {
      outputTypes[i] := funcType.results[i];
    }

    var returnsError := false;
    if numOutputs > 0 && ImplementsError(outputTypes[numOutputs - 1]) {
      returnsError := true;
    }

    assert outputTypes[..] == outputTypes[..numOutputs] && funcType.results[..numOutputs] == funcType.results;
    r := Success(HandlerMetadata(funcType, numInputs, numOutputs, ins, outputTypes[..], returnsError));
  }
}
