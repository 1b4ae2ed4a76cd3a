/** The part of Go's reflection the core relies on: destination field types,
    the values stored into struct fields, zero values and the type of a value. */
module Types {
  import opened Wrappers
  import opened Errors

  newtype byte = b: int | 0 <= b < 256

  /** Bit widths of Go's sized integer kinds (int and uint are 64 bits wide). */
  type IntWidth = b: nat | b == 8 || b == 16 || b == 32 || b == 64 witness 64
  type FloatWidth = b: nat | b == 32 || b == 64 witness 64

  /** A destination type, by reflect.Kind:
      - Str, Bool, Int, Uint, Float: the scalar kinds the converter parses;
      - Ptr: a pointer to `elem`;
      - FileHeader: the struct multipart.FileHeader;
      - Struct: a struct type with its declared fields;
      - Other: any other type (map, slice, interface, ...), with its type name
        as %s prints it, its kind name, and whether its method set includes
        `Error() string`. */
  datatype FieldType =
    | Str
    | Bool
    | Int(ibits: IntWidth)
    | Uint(ubits: IntWidth)
    | Float(fbits: FloatWidth)
    | Ptr(elem: FieldType)
    | FileHeader
    | Struct(sname: string, fields: seq<StructField>)
    | Other(oname: string, okind: string, implementsError: bool)

  /** One declared struct field: its name, whether it is exported, its struct tag
      already split into key/value pairs, and its type. */
  datatype StructField = StructField(name: string, exported: bool, tag: map<string, string>, typ: FieldType)

  /** reflect.StructTag.Get: the value under `key`, or "" when the key is absent. */
  function TagGet(f: StructField, key: string): string {
    if key in f.tag then f.tag[key] else ""
  }

  /** Kind() == reflect.Struct: a declared struct, or multipart.FileHeader. */
  predicate IsStructKind(t: FieldType) { t.Struct? || t.FileHeader? }

  /** The fields of a struct type; multipart.FileHeader's carry no struct tags and
      are left out. */
  function FieldsOf(t: FieldType): seq<StructField> {
    if t.Struct? then t.fields else []
  }

  /** An uploaded file's header. */
  datatype UploadedFile = UploadedFile(filename: string, size: nat)

  /** A reflect.Value as the core produces them.
      PtrVal(elem, None) is the nil pointer of type *elem.
      Composite is a struct or other non-scalar value; its zero value has empty data. */
  datatype Value =
    | StrVal(s: string)
    | BoolVal(b: bool)
    | IntVal(ibits: IntWidth, i: int)
    | UintVal(ubits: IntWidth, n: nat)
    | FloatVal(fbits: FloatWidth, x: real)
    | PtrVal(elem: FieldType, target: Option<Value>)
    | FileVal(file: UploadedFile)
    | Composite(typ: FieldType, data: seq<byte>)
    | ErrorVal(err: Option<Error>)

  /** The `error` interface type. */
  const ErrorType: FieldType := Other("error", "interface", true)

  /** *multipart.FileHeader, the only type a `file:` field may have. */
  const MultipartFileHeaderType: FieldType := Ptr(FileHeader)

  /** v.Type() */
  function TypeOf(v: Value): FieldType {
    match v
    case StrVal(_) => Str
    case BoolVal(_) => Bool
    case IntVal(b, _) => Int(b)
    case UintVal(b, _) => Uint(b)
    case FloatVal(b, _) => Float(b)
    case PtrVal(e, _) => Ptr(e)
    case FileVal(_) => FileHeader
    case Composite(t, _) => t
    case ErrorVal(_) => ErrorType
  }

  /** reflect.Zero(t) */
  function Zero(t: FieldType): (v: Value)
    ensures TypeOf(v) == t
  {
    match t
    case Str => StrVal("")
    case Bool => BoolVal(false)
    case Int(b) => IntVal(b, 0)
    case Uint(b) => UintVal(b, 0)
    case Float(b) => FloatVal(b, 0.0)
    case Ptr(e) => PtrVal(e, None)
    case FileHeader => FileVal(UploadedFile("", 0))
    case _ => Composite(t, [])
  }

  /** Type names as Go prints them with %s. */
  function TypeName(t: FieldType): string {
    match t
    case Str => "string"
    case Bool => "bool"
    case Int(b) => "int" + WidthName(b)
    case Uint(b) => "uint" + WidthName(b)
    case Float(b) => "float" + WidthName(b)
    case Ptr(e) => "*" + TypeName(e)
    case FileHeader => "multipart.FileHeader"
    case Struct(n, _) => n
    case Other(n, _, _) => n
  }

  /** Kind names as Go prints a reflect.Kind with %s. */
  function KindName(t: FieldType): string {
    match t
    case Ptr(_) => "ptr"
    case FileHeader => "struct"
    case Struct(_, _) => "struct"
    case Other(_, k, _) => k
    case _ => TypeName(t)
  }

  function WidthName(b: nat): string {
    if b == 8 then "8" else if b == 16 then "16" else if b == 32 then "32" else "64"
  }

  /** Decimal rendering of a natural number, as %d prints it. */
  function NatToString(n: nat): (s: string)
    ensures |s| >= 1
    decreases n
  {
    var d := ['0', '1', '2', '3', '4', '5', '6', '7', '8', '9'][n % 10];
    if n < 10 then [d] else NatToString(n / 10) + [d]
  }

  function IntToString(i: int): string {
    if i < 0 then "-" + NatToString(-i) else NatToString(i)
  }
}
