/** setResolvedField: stores a resolved value into one field of the handler's
    input struct, directly when the types are identical and through a conversion
    when Go allows one between the two integer types. */
module FieldSetter {
  import opened Wrappers
  import opened Errors
  import opened Types
  import opened Strconv

  /** The value of a two's-complement integer of `bits` bits with the same low
      bits as x (Go's conversion to a signed integer type). */
  function WrapSigned(x: int, bits: nat): (y: int)
    requires bits >= 1
    ensures MinInt(bits) <= y <= MaxInt(bits)
    ensures y % Pow2(bits) == x % Pow2(bits)
    ensures MinInt(bits) <= x <= MaxInt(bits) ==> y == x
  {
    assert Pow2(bits) == 2 * Pow2(bits - 1);
    SignedResidue(x, Pow2(bits - 1))
  }

  /** The representative of x modulo 2h in [-h, h). */
  function SignedResidue(x: int, h: int): (y: int)
    requires h > 0
    ensures -h <= y < h
    ensures y % (2 * h) == x % (2 * h)
    ensures -h <= x < h ==> y == x
  {
    var p := 2 * h;
    ModRange(x, p);
    var m := x % p;
    ModRange(m, p);
    ModRange(m - p, p);
    if m >= h then m - p else m
  }

  /** The unsigned integer of `bits` bits with the same low bits as x. */
  function WrapUnsigned(x: int, bits: IntWidth): (y: nat)
    ensures y <= MaxUint(bits)
    ensures y % Pow2(bits) == x % Pow2(bits)
    ensures 0 <= x <= MaxUint(bits) ==> y == x
  {
    ModRange(x, Pow2(bits));
    ModRange(x % Pow2(bits), Pow2(bits));
    x % Pow2(bits)
  }

  lemma ModRange(x: int, p: int)
    requires p > 0
    ensures 0 <= x % p < p
    ensures 0 <= x < p ==> x % p == x
    ensures -p <= x < 0 ==> x % p == x + p
  {
  }

  /** Two integers within one stretch of p consecutive values that agree modulo p
      are equal. */
  lemma {:induction false} SameResidueInRange(y: int, z: int, lo: int, p: int)
    requires p > 0 && lo <= y < lo + p && lo <= z < lo + p && y % p == z % p
    ensures y == z
  {
    var d := y / p - z / p;
    assert y - z == p * d by {
      assert y == p * (y / p) + y % p && z == p * (z / p) + z % p;
    }
    if d > 0 {
      MulAtLeast(d, p);
    } else if d < 0 {
      MulAtLeast(-d, p);
    }
  }

  lemma MulAtLeast(d: int, p: int)
    requires d >= 1 && p > 0
    ensures p * d >= p && p * -d <= -p
  {
  }

  /** Go's conversion is the only value of the signed range with the same low bits
      as x, so a clamp or any other in-range choice would differ from it. */
  lemma WrapSignedUnique(x: int, bits: IntWidth, y: int)
    requires MinInt(bits) <= y <= MaxInt(bits) && y % Pow2(bits) == x % Pow2(bits)
    ensures y == WrapSigned(x, bits)
  {
    var w := WrapSigned(x, bits);
    SignedSpan(bits);
    SameResidueInRange(y, w, MinInt(bits), Pow2(bits));
  }

  /** The signed range of a width holds exactly 2^bits values. */
  lemma SignedSpan(bits: nat)
    requires bits >= 1
    ensures MinInt(bits) + Pow2(bits) == MaxInt(bits) + 1
  {
    assert Pow2(bits) == 2 * Pow2(bits - 1);
  }

  /** The same for the unsigned range. */
  lemma WrapUnsignedUnique(x: int, bits: IntWidth, y: int)
    requires 0 <= y <= MaxUint(bits) && y % Pow2(bits) == x % Pow2(bits)
    ensures y == WrapUnsigned(x, bits)
  {
    SameResidueInRange(y, WrapUnsigned(x, bits), 0, Pow2(bits));
  }

  predicate IsInteger(t: FieldType) { t.Int? || t.Uint? }

  /** reflect.Type.ConvertibleTo, for the types a resolver can produce: the
      integer types convert into one another. */
  predicate ConvertibleTo(from: FieldType, to: FieldType) {
    IsInteger(from) && IsInteger(to)
  }

  function IntegerOf(v: Value): int {
    match v
    case IntVal(_, i) => i
    case UintVal(_, n) => n
    case _ => 0
  }

  /** reflect.Value.Convert between integer types. */
  function Convert(v: Value, to: FieldType): (r: Value)
    requires IsInteger(TypeOf(v)) && IsInteger(to)
    ensures TypeOf(r) == to
    ensures to.Int? ==>
      MinInt(to.ibits) <= IntegerOf(r) <= MaxInt(to.ibits) && IntegerOf(r) % Pow2(to.ibits) == IntegerOf(v) % Pow2(to.ibits)
    ensures to.Uint? ==>
      IntegerOf(r) <= MaxUint(to.ubits) && IntegerOf(r) % Pow2(to.ubits) == IntegerOf(v) % Pow2(to.ubits)
  {
    if to.Int? then IntVal(to.ibits, WrapSigned(IntegerOf(v), to.ibits))
    else UintVal(to.ubits, WrapUnsigned(IntegerOf(v), to.ubits))
  }

  /** What setResolvedField stores into a field, or the error it reports. */
  function AssignSpec(field: StructField, fieldIndex: int, resolved: Value): (r: Result<Value, Error>)
    ensures r.Success? <==> field.exported && (TypeOf(resolved) == field.typ || ConvertibleTo(TypeOf(resolved), field.typ))
    ensures r.Success? ==> TypeOf(r.value) == field.typ
    ensures r.Success? && TypeOf(resolved) == field.typ ==> r.value == resolved
    ensures r.Success? && TypeOf(resolved) != field.typ ==> r.value == Convert(resolved, field.typ)
    ensures !field.exported ==> r == Failure(Plain("cannot set field at index " + IntToString(fieldIndex)))
  {
    if !field.exported then Failure(Plain("cannot set field at index " + IntToString(fieldIndex)))
    else if TypeOf(resolved) == field.typ then Success(resolved)
    else if ConvertibleTo(TypeOf(resolved), field.typ) then Success(Convert(resolved, field.typ))
    else Failure(Plain("resolved type " + TypeName(TypeOf(resolved)) + " cannot be assigned to field type " + TypeName(field.typ)))
  }

  /** Every field of the struct value holds a value of its declared type. */
  predicate WellTyped(values: seq<Value>, fields: seq<StructField>) {
    |values| == |fields| && forall j :: 0 <= j < |fields| ==> TypeOf(values[j]) == fields[j].typ
  }

  /** setResolvedField on the struct's fields, updated in place. */
  method SetResolvedField(target: array<Value>, fields: seq<StructField>, fieldIndex: nat, resolved: Value)
      returns (err: Option<Error>)
    requires target.Length == |fields| && fieldIndex < |fields|
    modifies target
    ensures match AssignSpec(fields[fieldIndex], fieldIndex, resolved)
      case Success(v) => err.None? && target[..] == old(target[..])[fieldIndex := v]
      case Failure(e) => err == Some(e) && target[..] == old(target[..])
  {
    var field := fields[fieldIndex];
    if !field.exported {
      return Some(Plain("cannot set field at index " + IntToString(fieldIndex)));
    }
    if TypeOf(resolved) == field.typ {
      target[fieldIndex] := resolved;
      return None;
    }
    if ConvertibleTo(TypeOf(resolved), field.typ) {
      target[fieldIndex] := Convert(resolved, field.typ);
      return None;
    }
    return Some(Plain("resolved type " + TypeName(TypeOf(resolved)) + " cannot be assigned to field type " + TypeName(field.typ)));
  }

  /** A successful store keeps the struct well typed. */
  lemma AssignKeepsWellTyped(values: seq<Value>, fields: seq<StructField>, fieldIndex: nat, resolved: Value)
    requires WellTyped(values, fields) && fieldIndex < |fields|
    requires AssignSpec(fields[fieldIndex], fieldIndex, resolved).Success?
    ensures WellTyped(values[fieldIndex := AssignSpec(fields[fieldIndex], fieldIndex, resolved).value], fields)
  {
  }

  /** Storing the value a field already holds changes nothing, so storing twice
      is storing once. */
  lemma AssignIdempotent(field: StructField, fieldIndex: int, resolved: Value)
    requires AssignSpec(field, fieldIndex, resolved).Success?
    ensures AssignSpec(field, fieldIndex, AssignSpec(field, fieldIndex, resolved).value)
         == AssignSpec(field, fieldIndex, resolved)
  {
  }

  /** Converting to a wider signed type and back returns the original value. */
  lemma WidenThenNarrow(bits: IntWidth, wide: IntWidth, x: int)
    requires bits <= wide && MinInt(bits) <= x <= MaxInt(bits)
    ensures Convert(Convert(IntVal(bits, x), Int(wide)), Int(bits)) == IntVal(bits, x)
  {
    FitsWider(bits, wide, x);
    var w := Convert(IntVal(bits, x), Int(wide));
    assert w == IntVal(wide, x);
    assert Convert(w, Int(bits)) == IntVal(bits, WrapSigned(x, bits));
  }

  /** A value in the range of a signed width is in the range of any wider one. */
  lemma FitsWider(bits: nat, wide: nat, x: int)
    requires 1 <= bits <= wide && MinInt(bits) <= x <= MaxInt(bits)
    ensures MinInt(wide) <= x <= MaxInt(wide)
  {
    Pow2Monotone(bits - 1, wide - 1);
  }

  lemma {:induction false} Pow2Monotone(a: nat, b: nat)
    requires a <= b
    ensures Pow2(a) <= Pow2(b)
    decreases b
  {
    if a < b {
      Pow2Monotone(a, b - 1);
    }
  }

  /** An int64 that does not fit in int8 wraps around: 300 becomes 44. */
  lemma NarrowingWraps()
    ensures Convert(IntVal(64, 300), Int(8)) == IntVal(8, 44)
    ensures Convert(IntVal(64, -1), Uint(8)) == UintVal(8, 255)
  {
    assert Pow2(8) == 256;
    assert Pow2(7) == 128;
  }
}
