/**
 * Results and structured errors shared by every codec.
 *
 * The library reports a failure by throwing an Error whose message is the
 * inner message with one locator prefixed per enclosing codec
 * ("vector[2]: struct.a: bool: invalid byte value").  Here a failure is a
 * value: the kind of the innermost failure plus the locators, outermost first.
 */
module Errors {

  import opened Text

  datatype Option<+T> = None | Some(value: T)

  /** One prefix a codec puts in front of an inner message. */
  datatype Segment =
    | BoolSeg                   // "bool: "
    | BytesSeg(size: Option<int>) // "bytes<size>: "
    | StringSeg                 // "string: "
    | OptionalSeg               // "optional: "
    | VectorAt(index: int)      // "vector[i]: "
    | StructField(name: string) // "struct.<name>: "
    | VariantAt(index: int)     // "variant[i]: ", -1 while the tag itself is converted
    | MapKey(key: seq<byte>)    // flat_map["<key>"]: for a string key
    | MapAt(index: int)         // "flat_map[i]: " otherwise, -1 for the entry count
    | SetAt(index: int)         // "flat_set[i]: "

  /** The innermost failure.  Integer kinds carry the width and signedness that name the type ("uint8", "int64"). */
  datatype ErrorKind =
    | BitsNotPositive                         // constructor: bits count is not a positive safe integer
    | InvalidBitsCount                        // constructor: bits count is not a multiple of 8
    | BitsNotSafe                             // constructor: more than 53 bits for a number-backed type
    | LossOfAccuracy(bits: nat, isUint: bool) // a number input beyond 2^53 - 1
    | NotAnInteger                            // a string input that BigInt() cannot parse
    | Overflow(bits: nat, isUint: bool)       // |value| above the type's maximum
    | UnexpectedBufferEnd(bits: nat, isUint: bool) // fixed-width read past the end
    | UnsafeNotImplemented(bits: nat, isUint: bool) // fixed-width write of |value| >= 2^53 - 1
    | NegativeVarint                          // varint write of a negative value
    | OutOfRange                              // a single-byte read past the end of the buffer
    | InvalidBoolByte                         // bool read of a byte above 1
    | InvalidSize                             // bytes: length differs from the fixed size
    | InvalidFormat                           // bytes: JSON is not lowercase hex
    | UnexpectedEndOfBuffer                   // bytes: fewer bytes left than the size
    | VectorInvalidSize                       // vector: length differs from the fixed size
    | NoCodec                                 // struct: the key has no declared codec
    | KeyNotFound(tag: int)                   // variant: tag is negative or has no codec
    | MapKeyDuplicate                         // flat_map: two entries with the same logical key
    | MapKeyDuplicates                        // flat_map: two keys with the same serialized bytes
    | SetDuplicates                           // flat_set: two elements with the same serialized bytes
    | Unserializable                          // void: every operation
    | ExcessInfo                              // deserialize: bytes left after the value
    | NotOfType                               // the value is not of the codec's declared input type

  datatype Error = Error(kind: ErrorKind, path: seq<Segment>)

  /** A failure raised directly, with no locator yet. */
  function Fail(kind: ErrorKind): Error {
    Error(kind, [])
  }

  /** What a catch-and-rethrow wrapper does: put its locator in front. */
  function Prefix(seg: Segment, e: Error): (r: Error)
    ensures r.kind == e.kind && r.path == [seg] + e.path
  {
    Error(e.kind, [seg] + e.path)
  }

  datatype Result<+T> = Ok(value: T) | Err(error: Error) {
    predicate IsFailure() {
      Err?
    }

    function PropagateFailure<U>(): Result<U>
      requires Err?
    {
      Err(error)
    }

    function Extract(): T
      requires Ok?
    {
      value
    }
  }

  /** `try { f() } catch (e) { throw prefixed(e) }` around a computation. */
  function Prefixed<T>(seg: Segment, r: Result<T>): (p: Result<T>)
    ensures p.Ok? <==> r.Ok?
    ensures r.Ok? ==> p == r
    ensures r.Err? ==> p == Err(Prefix(seg, r.error))
  {
    match r
    case Ok(v) => Ok(v)
    case Err(e) => Err(Prefix(seg, e))
  }
}
