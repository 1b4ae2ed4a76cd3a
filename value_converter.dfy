/** convertStringToType: turns the raw text of a header, query value, path
    variable, cookie or form field into a value of the destination field type.
    The handler package carries an identical copy; both are this function. */
module ValueConverter {
  import opened Wrappers
  import opened Errors
  import opened Types
  import opened Strconv
  import opened Foreign

  /** `fieldType` is None for a nil reflect.Type. */
  function ConvertStringToType(raw: string, fieldType: Option<FieldType>, lib: Lib): (r: Result<Value, Error>)
    ensures fieldType.None? ==> r == Failure(Plain("field type is nil"))
    ensures fieldType.Some? && raw == "" ==> r == Success(Zero(fieldType.value))
    ensures r.Success? ==> fieldType.Some? && TypeOf(r.value) == fieldType.value
    ensures fieldType.Some? && raw != "" && fieldType.value.Str? ==> r == Success(StrVal(raw))
    ensures fieldType.Some? && raw != "" && !IsConvertibleKind(fieldType.value) ==> r.Failure?
    decreases if fieldType.Some? then fieldType.value else Str
  {
    if fieldType.None? then Failure(Plain("field type is nil"))
    else if raw == "" then Success(Zero(fieldType.value))
    else
      match fieldType.value
      case Ptr(elem) =>
        (match ConvertStringToType(raw, Some(elem), lib)
         case Success(inner) => Success(PtrVal(elem, Some(inner)))
         case Failure(e) => Failure(e))
      case _ => ParseScalar(raw, fieldType.value, lib)
  }

  /** The non-pointer cases of the converter's switch on the destination kind. */
  function ParseScalar(raw: string, t: FieldType, lib: Lib): (r: Result<Value, Error>)
    requires !t.Ptr?
    ensures r.Success? ==> TypeOf(r.value) == t
    ensures t.Str? ==> r == Success(StrVal(raw))
    ensures !IsConvertibleKind(t) ==> r.Failure?
  {
    match t
    case Str => Success(StrVal(raw))
    case Bool => ParseBoolValue(raw)
    case Int(bits) => ParseIntValue(raw, bits)
    case Uint(bits) => ParseUintValue(raw, bits)
    case Float(bits) =>
      (match lib.parseFloat(raw, bits)
       case Success(x) => Success(FloatVal(bits, x))
       case Failure(c) => Failure(NumError("ParseFloat", raw, c)))
    case _ => Failure(Plain("unsupported field type " + TypeName(t)))
  }

  function ParseBoolValue(raw: string): (r: Result<Value, Error>)
    ensures r.Success? ==> r.value.BoolVal?
  {
    match ParseBool(raw)
    case Success(b) => Success(BoolVal(b))
    case Failure(e) => Failure(e)
  }

  function ParseIntValue(raw: string, bits: IntWidth): (r: Result<Value, Error>)
    ensures r.Success? ==> r.value.IntVal? && r.value.ibits == bits
  {
    match ParseInt(raw, bits)
    case Success(i) => Success(IntVal(bits, i))
    case Failure(e) => Failure(e)
  }

  function ParseUintValue(raw: string, bits: IntWidth): (r: Result<Value, Error>)
    ensures r.Success? ==> r.value.UintVal? && r.value.ubits == bits
  {
    match ParseUint(raw, bits)
    case Success(n) => Success(UintVal(bits, n))
    case Failure(e) => Failure(e)
  }

  /** The kinds the converter parses: scalars, and pointers to them. */
  predicate IsConvertibleKind(t: FieldType) {
    match t
    case Str | Bool | Int(_) | Uint(_) | Float(_) => true
    case Ptr(e) => IsConvertibleKind(e)
    case _ => false
  }

  /** A boolean destination accepts exactly ParseBool's literals. */
  lemma ConvertBool(raw: string, lib: Lib)
    requires raw != ""
    ensures ConvertStringToType(raw, Some(Bool), lib).Success? <==> raw in TrueLiterals || raw in FalseLiterals
    ensures ConvertStringToType(raw, Some(Bool), lib).Success? ==>
      ConvertStringToType(raw, Some(Bool), lib).value == BoolVal(raw in TrueLiterals)
  {
  }

  /** A signed destination of width b accepts exactly the decimals in
      [-2^(b-1), 2^(b-1) - 1], and stores their value. */
  lemma ConvertInt(raw: string, bits: IntWidth, lib: Lib)
    requires raw != ""
    ensures ConvertStringToType(raw, Some(Int(bits)), lib).Success? <==>
      IsSignedDecimal(raw) && MinInt(bits) <= SignedValue(raw) <= MaxInt(bits)
    ensures ConvertStringToType(raw, Some(Int(bits)), lib).Success? ==>
      ConvertStringToType(raw, Some(Int(bits)), lib).value == IntVal(bits, SignedValue(raw))
  {
    assert ConvertStringToType(raw, Some(Int(bits)), lib) == ParseIntValue(raw, bits);
    ParseIntSpec(raw, bits);
  }

  /** An unsigned destination of width b accepts exactly the decimals in [0, 2^b - 1]. */
  lemma ConvertUint(raw: string, bits: IntWidth, lib: Lib)
    requires raw != ""
    ensures ConvertStringToType(raw, Some(Uint(bits)), lib).Success? <==>
      IsDecimal(raw) && DecimalValue(raw) <= MaxUint(bits)
    ensures ConvertStringToType(raw, Some(Uint(bits)), lib).Success? ==>
      ConvertStringToType(raw, Some(Uint(bits)), lib).value == UintVal(bits, DecimalValue(raw))
  {
    assert ConvertStringToType(raw, Some(Uint(bits)), lib) == ParseUintValue(raw, bits);
    ParseUintSpec(raw, bits);
  }

  /** A pointer destination converts the element type and boxes the result in a
      fresh pointer; an element error is returned unchanged. */
  lemma ConvertPtr(raw: string, elem: FieldType, lib: Lib)
    requires raw != ""
    ensures ConvertStringToType(raw, Some(Ptr(elem)), lib).Success? <==> ConvertStringToType(raw, Some(elem), lib).Success?
    ensures ConvertStringToType(raw, Some(Ptr(elem)), lib).Success? ==>
      ConvertStringToType(raw, Some(Ptr(elem)), lib).value == PtrVal(elem, Some(ConvertStringToType(raw, Some(elem), lib).value))
    ensures ConvertStringToType(raw, Some(Ptr(elem)), lib).Failure? ==>
      ConvertStringToType(raw, Some(Ptr(elem)), lib).error == ConvertStringToType(raw, Some(elem), lib).error
  {
  }

  /** k pointer layers around t. */
  function Pointers(k: nat, t: FieldType): FieldType {
    if k == 0 then t else Ptr(Pointers(k - 1, t))
  }

  /** Follows k non-nil pointers. */
  function Deref(k: nat, v: Value): Option<Value> {
    if k == 0 then Some(v)
    else match v
      case PtrVal(_, Some(inner)) => Deref(k - 1, inner)
      case _ => None
  }

  /** Through any number of pointer layers, non-empty input converts exactly as it
      does for the innermost type, and dereferencing the result gives that value;
      empty input gives the nil pointer of the outer type instead of a boxed zero. */
  lemma {:induction false} ConvertThroughPointers(raw: string, k: nat, t: FieldType, lib: Lib)
    requires k > 0
    ensures raw == "" ==> ConvertStringToType(raw, Some(Pointers(k, t)), lib) == Success(PtrVal(Pointers(k - 1, t), None))
    ensures raw != "" ==>
      (ConvertStringToType(raw, Some(Pointers(k, t)), lib).Success? <==> ConvertStringToType(raw, Some(t), lib).Success?)
    ensures raw != "" && ConvertStringToType(raw, Some(t), lib).Success? ==>
      Deref(k, ConvertStringToType(raw, Some(Pointers(k, t)), lib).value) == Some(ConvertStringToType(raw, Some(t), lib).value)
  {
    if raw != "" && k > 1 {
      ConvertThroughPointers(raw, k - 1, t, lib);
    }
  }
}
