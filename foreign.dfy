/** Library code the core calls but does not own: float parsing (strconv.ParseFloat)
    and JSON decoding/encoding (encoding/json). They are passed in as functions. */
module Foreign {
  import opened Wrappers
  import opened Errors
  import opened Types

  datatype Lib = Lib(
    /** strconv.ParseFloat(s, bits), with the cause of a *NumError on failure. */
    parseFloat: (string, FloatWidth) -> Result<real, NumCause>,
    /** json.Decoder.Decode of a payload into a fresh value of the given type. */
    decodeJson: (seq<byte>, FieldType) -> Result<Value, Error>,
    /** json.Encoder.Encode of a value. */
    encodeJson: Value -> Result<seq<byte>, Error>)

  /** Decoding into a value of type t yields a value of type t, as json.Decode
      into reflect.New(t) does. */
  ghost predicate DecoderWellTyped(lib: Lib) {
    forall data, t :: lib.decodeJson(data, t).Success? ==> TypeOf(lib.decodeJson(data, t).value) == t
  }
}
