/** The exceptions the codec raises, as values, and the result type that carries them. */
module Errors {

  datatype Error =
    // varints and fixed-width fields (`ValueError`)
    | TruncatedVarint
    | VarintTooLong
    | NegativeVarint
    | Sint32OutOfRange
    | TruncatedFixed32
    | TruncatedFixed64
    // `struct.error`: a fixed-width value outside its format's range
    | StructRange
    // schema normalization (`TypeError` / `ValueError`)
    | SchemaNotTuples
    | SchemaNotIterable
    | OneofAltsNotList
    | OneofAltNotTuple
    | OneofAltKind
    | OneofAltLength
    | UnknownScalarType
    | UnsupportedPackedElem
    | UnknownFieldKind
    | UnsupportedTupleLength
    | UnhashableType
    | UnsupportedSchemaPart
    // encoding
    | OneofConflict
    | UnknownFieldName
    | UnknownFieldNumber
    | UnsupportedRepeatedType
    | TypeMismatch
    // decoding
    | NestingTooDeep
    | TruncatedLengthDelimited
    | UnsupportedWireType
    | InvalidUtf8
    | MergeNotList
    // the device layer: a `KeyError` or an `AttributeError` for what is not there
    | MissingKey
    // `int()` of a str or bytes that is not a decimal numeral (`ValueError`)
    | InvalidIntLiteral
    // `bytes()` of a negative count, or of a list holding an int outside range(0, 256)
    // (`ValueError`)
    | ByteRange

  datatype Result<+T> = Ok(value: T) | Err(error: Error)
}
