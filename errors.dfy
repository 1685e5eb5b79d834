/** Error values and the failure-compatible result types shared by every module.
    A Go function that returns `(T, error)` becomes a function or method returning
    `Result<T>`; one that returns only `error` returns `Outcome`. */
module Errors {

  datatype Error =
    /** `io.EOF` / `io.ErrUnexpectedEOF`: the stream ended inside a value. */
    | ShortRead
    /** A Go runtime panic (nil dereference, negative `make`, index out of range,
        integer division by zero), which the source does not turn into an error. */
    | Panic(reason: PanicReason)
    /** `NameValueSection.Read`: a value tag outside 1..5. */
    | UnknownNameValueKind(kind: int)
    /** `readHeader`: the first int64 is not the magic value. */
    | MagicMismatch
    /** `readHeader`: a section ID outside the four known ones. */
    | UnknownSectionId(id: int)
    /** `readHeader`: a decoder consumed a different number of bytes than announced. */
    | SectionSizeMismatch
    /** `Seek` to a negative absolute position. */
    | InvalidSeek
    /** `checkDataType`: the record type has a different number of (non-blank) fields. */
    | FieldCountMismatch(got: int, expected: int)
    /** `checkDataType`: field `index` has a different kind. */
    | FieldKindMismatch(index: int)
    /** `checkDataType`: field `index` has a different offset. */
    | FieldOffsetMismatch(index: int)
    /** Operations refused by the access mode. */
    | ReadInWriteMode
    | WriteInReadMode
    | SeekInWriteMode
    | MapInWriteMode
    /** `Write`: the file has no item section. */
    | NoItemSection
    /** `Write`: the record's type is not the file's data type. */
    | RecordTypeMismatch
    /** `OpenReadableMapping`: the item region is empty. */
    | NoData
    /** `mmap.Open`: the requested range ends past the end of the file. */
    | MappingTooLarge
    /** `syscall.Mmap` refused the request (a length that is not positive). */
    | MappingFailed
    /** `Create`: the header region does not fit the int32 offsets it is written with. */
    | LayoutTooLarge

  /** The runtime errors behind the panics the modelled code can raise. */
  datatype PanicReason =
    /** `make` with a negative length. */
    | NegativeLength
    /** Dereferencing nil. */
    | NilDereference
    /** Indexing a slice out of its range. */
    | IndexOutOfRange
    /** Integer division by zero. */
    | DivideByZero

  datatype Result<+T> = Ok(value: T) | Err(error: Error) {
    predicate IsFailure() { Err? }
    function PropagateFailure<U>(): Result<U> requires Err? { Err(error) }
    function Extract(): T requires Ok? { value }
  }

  datatype Outcome = Pass | Fail(error: Error) {
    predicate IsFailure() { Fail? }
    function PropagateFailure<U>(): Result<U> requires Fail? { Err(error) }
  }

  datatype Option<+T> = None | Some(value: T)
}
