/** Data types, errors and results shared by the storage layers. */
module Formats {

  /** Fixed-width column types. `Utf8` columns never reach the codec or a field file. */
  datatype DataType = Bool | Int8 | Int16 | Int32 | Int64 | UInt8 | UInt16 | UInt32 | UInt64
                    | Float32 | Float64 | Date32 | Date64 | TimestampUs
  {
    function SizeOf(): (s: nat)
      ensures s == 1 || s == 2 || s == 4 || s == 8
    {
      match this
      case Bool => 1 case Int8 => 1 case UInt8 => 1
      case Int16 => 2 case UInt16 => 2
      case Int32 => 4 case UInt32 => 4 case Float32 => 4 case Date32 => 4
      case _ => 8
    }

    predicate IsSigned() {
      Int8? || Int16? || Int32? || Int64? || Date32? || TimestampUs? || Date64?
    }
  }

  datatype Encoding = Plain | Delta | Rle | Bitpack

  datatype Error = Truncated | RowCountMismatch | Corrupt | Invalid | InvalidState | NonContiguousTime | AlreadyExists

  datatype Result<+T> = Ok(value: T) | Err(error: Error) {
    predicate IsFailure() { Err? }
    function PropagateFailure<U>(): Result<U> requires Err? { Err(error) }
    function Extract(): T requires Ok? { value }
  }

  datatype Option<+T> = None | Some(value: T)
}
